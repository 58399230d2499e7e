/**
 The flush daemon as a function on the two rings, and the end-to-end account of every record
 from a client's write to the ring file.
 */
module FlushSpec {
  import opened Bytes
  import opened Records
  import opened Sequences
  import opened SlotRing
  import opened LapReader
  import DiskFormat
  import RingFile
  import RingRuns
  import Fifo

  datatype Config = Config(highWatermark: real, maxRecords: nat)

  /** The adaptive batch size: half again above the watermark, half below half of it, never zero. */
  function BatchSize(usage: real, cfg: Config): (n: nat)
    ensures n >= 1 && n >= cfg.maxRecords / 2
  {
    var n := if usage > cfg.highWatermark then 3 * cfg.maxRecords / 2
             else if usage < cfg.highWatermark / 2.0 then cfg.maxRecords / 2
             else cfg.maxRecords;
    if n < 1 then 1 else n
  }

  /** The least batch size the daemon ever uses. */
  function LeastBatch(cfg: Config): nat {
    if cfg.maxRecords / 2 < 1 then 1 else cfg.maxRecords / 2
  }

  /** Writes records until one is refused: how many were written, and the file. */
  function Persist(d: RingFile.Disk, rs: seq<Record>): (res: (nat, RingFile.Disk))
    requires RingFile.Shape(d)
    ensures res.0 <= |rs| && RingFile.Shape(res.1) && res.1.size == d.size
    decreases |rs|
  {
    if rs == [] || !RingFile.Fits(d, rs[0]) then (0, d) else
      var rest := Persist(RingFile.WriteRecord(d, rs[0]), rs[1..]);
      (1 + rest.0, rest.1)
  }

  /**
   Both rings, the batch size the daemon has decided on (0 for none), the records written to
   the file so far, and those read from memory but not written.
   */
  datatype World = World(ring: Ring, disk: RingFile.Disk, batch: nat, history: seq<Record>, discarded: seq<Record>)

  /** Sizes a batch, and decides to flush above the watermark or when notified. */
  function Sample(w: World, cfg: Config, notified: bool): World
    requires SlotRing.Shape(w.ring)
  {
    var usage := Usage(w.ring);
    w.(batch := if usage >= cfg.highWatermark || notified then BatchSize(usage, cfg) else 0)
  }

  /** Once decided, reads everything ready and writes at most a batch of it. */
  function Drain(w: World): World
    requires SlotRing.Shape(w.ring) && RingFile.Shape(w.disk)
  {
    if w.batch == 0 then w else
      var rs := Read(w.ring).0;
      var res := Persist(w.disk, rs[..Min(w.batch, |rs|)]);
      World(Read(w.ring).1, res.1, 0, w.history + rs[..res.0], w.discarded + rs[res.0..])
  }

  /** One turn of the daemon with no client in between. */
  function Flush(w: World, cfg: Config, notified: bool): World
    requires SlotRing.Shape(w.ring) && RingFile.Shape(w.disk)
  {
    Drain(Sample(w, cfg, notified))
  }

  /** Successive turns with no client in between. */
  function Turns(w: World, cfg: Config, wakes: seq<bool>): World
    requires SlotRing.Shape(w.ring) && RingFile.Shape(w.disk)
    decreases |wakes|
  {
    if wakes == [] then w else Turns(Flush(w, cfg, wakes[0]), cfg, wakes[1..])
  }

  // ---- What a read returns ----

  /** At most one record per turn of the loop, each canonical and small enough for a slot. */
  lemma {:induction false} ReadBounds(s: Ring, budget: nat) returns (out: seq<Record>)
    requires SlotRing.Shape(s)
    ensures out == ConsumeLoop(s, budget).0 && |out| <= budget && AllDeliverable(out)
    decreases budget
  {
    out := ConsumeLoop(s, budget).0;
    if budget != 0 && CanConsume(s) {
      var rest := ReadBounds(ConsumeOne(s), budget - 1);
      HeadDeliverable(s);
      var r := HeadRecord(s);
      assert out == Take(r) + rest;
      DeliverableCons(r, rest);
    }
  }

  /** What one turn of the read loop adds. */
  ghost function Take(r: Record): seq<Record> {
    if Fifo.Sound(r) then [r] else []
  }

  lemma DeliverableCons(r: Record, rest: seq<Record>)
    requires AllDeliverable(rest) && (Fifo.Sound(r) ==> Deliverable(r))
    ensures AllDeliverable(Take(r) + rest) && |Take(r) + rest| <= 1 + |rest|
  {
    assert [] + rest == rest;
    forall i | 0 <= i < |[r] + rest| ensures Deliverable(r) ==> Deliverable(([r] + rest)[i]) {
      if i > 0 {
        assert Deliverable(rest[i - 1]);
      }
    }
  }

  ghost predicate Deliverable(r: Record) {
    Canonical(r) && |r.data| <= DATA_SIZE
  }

  lemma HeadDeliverable(s: Ring)
    requires SlotRing.Shape(s)
    ensures Fifo.Sound(HeadRecord(s)) ==> Deliverable(HeadRecord(s))
  {
    assert CellOk(s.cells[Index(s.consSeq, s.capacity)]);
  }

  // ---- Persisting ----

  ghost predicate AllDeliverable(rs: seq<Record>) {
    forall i {:trigger Deliverable(rs[i])} :: 0 <= i < |rs| ==> Deliverable(rs[i])
  }

  /** The lap on file is the end of the list of records ever written. */
  ghost predicate Suffix(lap: seq<Record>, history: seq<Record>) {
    |lap| <= |history| && lap == history[|history| - |lap|..]
  }

  lemma SuffixSnoc(lap: seq<Record>, history: seq<Record>, r: Record)
    requires Suffix(lap, history)
    ensures Suffix(lap + [r], history + [r]) && Suffix([r], history + [r])
  {}

  lemma WriteSuffix(d: RingFile.Disk, lap: seq<Record>, history: seq<Record>, r: Record) returns (lap': seq<Record>)
    requires RingFile.Holds(d, lap) && Suffix(lap, history) && Deliverable(r) && RingFile.Fits(d, r)
    ensures RingFile.Holds(RingFile.WriteRecord(d, r), lap') && Suffix(lap', history + [r])
  {
    DiskFormat.StampedCanonical(r);
    RingFile.WriteHolds(d, lap, r);
    SuffixSnoc(lap, history, r);
    lap' := RingFile.LapAfterWrite(d.size, lap, r);
  }

  /** Persisting appends what it writes to the history and keeps the file's lap its suffix. */
  lemma {:induction false} PersistHolds(d: RingFile.Disk, lap: seq<Record>, history: seq<Record>, rs: seq<Record>)
    returns (lap': seq<Record>)
    requires RingFile.Holds(d, lap) && Suffix(lap, history) && AllDeliverable(rs)
    ensures RingFile.Holds(Persist(d, rs).1, lap') && Suffix(lap', history + rs[..Persist(d, rs).0])
    ensures d.size >= SLOT_SIZE ==> Persist(d, rs).0 == |rs|
    decreases |rs|
  {
    if rs == [] || !RingFile.Fits(d, rs[0]) {
      lap' := lap;
      assert history + rs[..0] == history;
      assert rs != [] ==> Deliverable(rs[0]);
    } else {
      assert Deliverable(rs[0]);
      TailDeliverable(rs);
      var lap1 := WriteSuffix(d, lap, history, rs[0]);
      var d1 := RingFile.WriteRecord(d, rs[0]);
      lap' := PersistHolds(d1, lap1, history + [rs[0]], rs[1..]);
      HistoryCons(history, rs, Persist(d1, rs[1..]).0);
    }
  }

  lemma {:induction false} PersistsAllIff(d: RingFile.Disk, rs: seq<Record>)
    requires RingFile.Shape(d)
    ensures Persist(d, rs).0 == |rs| <==> forall r :: r in rs ==> TotalSize(r) <= d.size
    decreases |rs|
  {
    if rs != [] {
      assert rs == [rs[0]] + rs[1..];
      PersistsAllIff(RingFile.WriteRecord(d, rs[0]), rs[1..]);
    }
  }

  /** Draining loses nothing exactly when what is ready fits the batch and each record the file. */
  lemma DrainKeepsAllIff(w: World)
    requires SlotRing.Shape(w.ring) && RingFile.Shape(w.disk) && w.batch > 0
    ensures var rs := Read(w.ring).0;
            Drain(w).discarded == w.discarded <==>
                  |rs| <= w.batch && (forall r :: r in rs ==> TotalSize(r) <= w.disk.size)
  {
    var rs := Read(w.ring).0;
    PersistsAllIff(w.disk, rs[..Min(w.batch, |rs|)]);
    if |rs| <= w.batch {
      assert rs[..Min(w.batch, |rs|)] == rs;
    }
  }

  lemma TailDeliverable(rs: seq<Record>)
    requires AllDeliverable(rs) && rs != []
    ensures AllDeliverable(rs[1..])
  {
    forall i | 0 <= i < |rs| - 1 ensures Deliverable(rs[1..][i]) {
      assert Deliverable(rs[i + 1]);
    }
  }

  lemma HistoryCons(history: seq<Record>, rs: seq<Record>, k: nat)
    requires rs != [] && k < |rs|
    ensures (history + [rs[0]]) + rs[1..][..k] == history + rs[..1 + k]
  {
    assert rs[..1 + k] == [rs[0]] + rs[1..][..k];
  }

  // ---- Runs of clients and the daemon ----

  /**
   A client operation on the memory ring, the daemon's decision, or its drain. Clients may come
   between the two; between the read and the file writes of a drain they would change nothing
   that the drain still looks at.
   */
  datatype Event = Client(op: RingRuns.Op) | Decide(notified: bool) | DrainNow

  ghost predicate Allowed(w: World, e: Event) {
    && SlotRing.Shape(w.ring) && RingFile.Shape(w.disk)
    && (e.Client? ==> !e.op.ReadOp? && RingRuns.Enabled(w.ring, e.op))
  }

  function Step(w: World, cfg: Config, e: Event): World
    requires Allowed(w, e)
  {
    match e
    case Client(op) => w.(ring := RingRuns.Apply(w.ring, op).1)
    case Decide(notified) => Sample(w, cfg, notified)
    case DrainNow => Drain(w)
  }

  ghost predicate AllowedRun(w: World, cfg: Config, es: seq<Event>)
    decreases |es|
  {
    es == [] || (Allowed(w, es[0]) && AllowedRun(Step(w, cfg, es[0]), cfg, es[1..]))
  }

  function Run(w: World, cfg: Config, es: seq<Event>): World
    requires AllowedRun(w, cfg, es)
    decreases |es|
  {
    if es == [] then w else Run(Step(w, cfg, es[0]), cfg, es[1..])
  }

  /** A run that starts with one event. */
  lemma EventThen(w: World, cfg: Config, e: Event, rest: seq<Event>)
    requires Allowed(w, e) && AllowedRun(Step(w, cfg, e), cfg, rest)
    ensures AllowedRun(w, cfg, [e] + rest) && Run(w, cfg, [e] + rest) == Run(Step(w, cfg, e), cfg, rest)
  {
    assert ([e] + rest)[0] == e && ([e] + rest)[1..] == rest;
  }

  /** The events of the daemon's loop: a decision and a drain for each turn. */
  function EventsOf(wakes: seq<bool>): seq<Event> {
    if wakes == [] then [] else [Decide(wakes[0])] + ([DrainNow] + EventsOf(wakes[1..]))
  }

  /** The loop is one of the runs that the end-to-end results speak of. */
  lemma {:induction false} TurnsAreRun(w: World, cfg: Config, wakes: seq<bool>)
    requires SlotRing.Shape(w.ring) && RingFile.Shape(w.disk)
    ensures AllowedRun(w, cfg, EventsOf(wakes)) && Run(w, cfg, EventsOf(wakes)) == Turns(w, cfg, wakes)
    decreases |wakes|
  {
    if wakes != [] {
      var w1 := Sample(w, cfg, wakes[0]);
      TurnsAreRun(Drain(w1), cfg, wakes[1..]);
      EventThen(w1, cfg, DrainNow, EventsOf(wakes[1..]));
      EventThen(w, cfg, Decide(wakes[0]), [DrainNow] + EventsOf(wakes[1..]));
    }
  }

  /** What an event does to the memory ring. */
  function RingOp(w: World, e: Event): seq<RingRuns.Op> {
    match e
    case Client(op) => [op]
    case Decide(_) => []
    case DrainNow => if w.batch == 0 then [] else [RingRuns.ReadOp]
  }

  /** What a run does to the memory ring: the clients' operations and the daemon's reads. */
  function RingOps(w: World, cfg: Config, es: seq<Event>): seq<RingRuns.Op>
    requires AllowedRun(w, cfg, es)
    decreases |es|
  {
    if es == [] then [] else RingOp(w, es[0]) + RingOps(Step(w, cfg, es[0]), cfg, es[1..])
  }

  /** Every batch the daemon can decide on takes a whole ring, and every record that fits a slot fits the file. */
  ghost predicate Lossless(capacity: nat, size: nat, cfg: Config) {
    && capacity > 0 && size >= 256
    && forall used: nat {:trigger Level(used, capacity)} :: used <= capacity ==>
          capacity <= BatchSize(Level(used, capacity), cfg)
  }

  /** The simple sufficient condition: a ring no larger than the least batch. */
  lemma SmallRingLossless(capacity: nat, size: nat, cfg: Config)
    requires 0 < capacity <= LeastBatch(cfg) && size >= 256
    ensures Lossless(capacity, size, cfg)
  {}

  /** What was read is what was written and what was discarded, in order; nothing discarded if lossless. */
  ghost predicate Split(delivered: seq<Record>, history: seq<Record>, discarded: seq<Record>, lossless: bool) {
    && multiset(delivered) == multiset(history) + multiset(discarded)
    && Fifo.Subsequence(history, delivered)
    && (lossless ==> discarded == [] && history == delivered)
  }

  ghost predicate LosslessWorld(w: World, cfg: Config) {
    Lossless(w.ring.capacity, w.disk.size, cfg)
  }

  /**
   The world with unwrapped counters `c` and `p`, books `l` and lap `lap` on file: what the
   daemon read is split into what it wrote and what it discarded, and the file holds the latest
   of what it wrote.
   */
  ghost predicate Accounted(w: World, cfg: Config, c: nat, p: nat, l: Fifo.Ledger, lap: seq<Record>) {
    && RingRuns.Agrees(w.ring, c, p, l)
    && RingFile.Holds(w.disk, lap) && Suffix(lap, w.history)
    && Split(l.delivered, w.history, w.discarded, LosslessWorld(w, cfg))
    && (LosslessWorld(w, cfg) && w.batch > 0 ==> w.ring.capacity <= w.batch)
  }

  lemma SubsequenceAppend(a: seq<Record>, b: seq<Record>, rs: seq<Record>, k: nat)
    requires Fifo.Subsequence(a, b) && k <= |rs|
    ensures Fifo.Subsequence(a + rs[..k], b + rs)
  {
    var f: seq<nat> :| Fifo.Embeds(f, a, b);
    var g: seq<nat> := seq(k, i requires 0 <= i < k => |b| + i);
    assert Fifo.Embeds(f + g, a + rs[..k], b + rs);
  }

  lemma BooksSplit(d: seq<Record>, h: seq<Record>, x: seq<Record>, rs: seq<Record>, k: nat)
    requires multiset(d) == multiset(h) + multiset(x) && k <= |rs|
    ensures multiset(d + rs) == multiset(h + rs[..k]) + multiset(x + rs[k..])
  {
    assert rs == rs[..k] + rs[k..];
  }

  lemma PrefixDeliverable(rs: seq<Record>, n: nat)
    requires AllDeliverable(rs) && n <= |rs|
    ensures AllDeliverable(rs[..n])
  {
    forall i | 0 <= i < n ensures Deliverable(rs[..n][i]) {
      assert Deliverable(rs[i]);
    }
  }

  /** The file part of a drain. */
  lemma DrainDisk(w: World, lap: seq<Record>) returns (rs: seq<Record>, k: nat, disk: RingFile.Disk, lap': seq<Record>)
    requires SlotRing.Shape(w.ring) && RingFile.Holds(w.disk, lap) && Suffix(lap, w.history) && w.batch > 0
    ensures rs == Read(w.ring).0 && k <= |rs|
    ensures World(Read(w.ring).1, disk, 0, w.history + rs[..k], w.discarded + rs[k..]) == Drain(w)
    ensures RingFile.Holds(disk, lap') && Suffix(lap', w.history + rs[..k]) && disk.size == w.disk.size
    ensures w.ring.capacity <= w.batch && w.disk.size >= SLOT_SIZE ==> k == |rs|
  {
    rs := ReadyRecords(w.ring);
    var n := Min(w.batch, |rs|);
    var batch := rs[..n];
    PrefixDeliverable(rs, n);
    lap' := PersistHolds(w.disk, lap, w.history, batch);
    var res := Persist(w.disk, batch);
    k, disk := res.0, res.1;
    assert batch[..k] == rs[..k];
    DrainIs(w, rs, res);
  }

  lemma DrainIs(w: World, rs: seq<Record>, res: (nat, RingFile.Disk))
    requires SlotRing.Shape(w.ring) && RingFile.Shape(w.disk) && w.batch > 0
    requires rs == Read(w.ring).0 && res == Persist(w.disk, rs[..Min(w.batch, |rs|)])
    ensures Drain(w) == World(Read(w.ring).1, res.1, 0, w.history + rs[..res.0], w.discarded + rs[res.0..])
  {}

  lemma ReadyRecords(s: Ring) returns (rs: seq<Record>)
    requires SlotRing.Shape(s)
    ensures rs == Read(s).0 && AllDeliverable(rs) && |rs| <= s.capacity
  {
    rs := ReadBounds(s, s.capacity);
  }

  lemma SplitMore(delivered: seq<Record>, history: seq<Record>, discarded: seq<Record>, lossless: bool,
                  rs: seq<Record>, k: nat)
    requires Split(delivered, history, discarded, lossless) && k <= |rs| && (lossless ==> k == |rs|)
    ensures Split(delivered + rs, history + rs[..k], discarded + rs[k..], lossless)
  {
    BooksSplit(delivered, history, discarded, rs, k);
    SubsequenceAppend(history, delivered, rs, k);
    if lossless {
      assert rs[..k] == rs && rs[k..] == [];
    }
  }

  /** What an event does to the ring's books. */
  ghost predicate Booked(w: World, e: Event, w': World, l: Fifo.Ledger, l': Fifo.Ledger)
    requires Allowed(w, e)
  {
    var ops := RingOp(w, e);
    if ops == [] then w'.ring == w.ring && l' == l
    else w'.ring == RingRuns.Apply(w.ring, ops[0]).1 && RingRuns.Follows(w.ring, ops[0], l, l')
  }

  lemma DrainAccounted(w: World, cfg: Config, c: nat, p: nat, l: Fifo.Ledger, lap: seq<Record>)
    returns (w': World, c': nat, p': nat, l': Fifo.Ledger, lap': seq<Record>)
    requires Accounted(w, cfg, c, p, l, lap) && w.batch > 0
    ensures w' == Drain(w) && Accounted(w', cfg, c', p', l', lap') && LosslessWorld(w', cfg) == LosslessWorld(w, cfg)
    ensures w'.ring == Read(w.ring).1 && RingRuns.Follows(w.ring, RingRuns.ReadOp, l, l')
  {
    var rs, k, disk;
    rs, k, disk, lap' := DrainDisk(w, lap);
    c', p', l' := RingRuns.StepRead(w.ring, c, p, l);
    RingRuns.ReadLimits(w.ring);
    SplitMore(l.delivered, w.history, w.discarded, LosslessWorld(w, cfg), rs, k);
    w' := World(Read(w.ring).1, disk, 0, w.history + rs[..k], w.discarded + rs[k..]);
    assert LosslessWorld(w', cfg) == LosslessWorld(w, cfg);
  }

  lemma SampleAccounted(w: World, cfg: Config, c: nat, p: nat, l: Fifo.Ledger, lap: seq<Record>, notified: bool)
    requires Accounted(w, cfg, c, p, l, lap)
    ensures Accounted(Sample(w, cfg, notified), cfg, c, p, l, lap)
  {
    UsageCounts(w.ring, c, p);
    RoomIffNotFull(w.ring, c, p);
  }

  lemma ClientAccounted(w: World, cfg: Config, c: nat, p: nat, l: Fifo.Ledger, lap: seq<Record>, op: RingRuns.Op)
    returns (w': World, c': nat, p': nat, l': Fifo.Ledger)
    requires Accounted(w, cfg, c, p, l, lap) && !op.ReadOp? && RingRuns.Enabled(w.ring, op)
    ensures w' == w.(ring := RingRuns.Apply(w.ring, op).1) && Accounted(w', cfg, c', p', l', lap)
    ensures LosslessWorld(w', cfg) == LosslessWorld(w, cfg)
    ensures RingRuns.Follows(w.ring, op, l, l')
  {
    w' := w.(ring := RingRuns.Apply(w.ring, op).1);
    c', p', l' := RingRuns.StepAgrees(w.ring, c, p, l, op);
    assert l.delivered + [] == l.delivered;
  }

  ghost predicate PlainEvent(e: Event) {
    e.Client? ==> RingRuns.PlainOp(e.op)
  }

  /** Every event keeps the account, and books what it does to the ring. */
  lemma StepAccounted(w: World, cfg: Config, c: nat, p: nat, l: Fifo.Ledger, lap: seq<Record>, e: Event)
    returns (w': World, c': nat, p': nat, l': Fifo.Ledger, lap': seq<Record>)
    requires Accounted(w, cfg, c, p, l, lap) && Allowed(w, e)
    ensures w' == Step(w, cfg, e) && Accounted(w', cfg, c', p', l', lap')
    ensures LosslessWorld(w', cfg) == LosslessWorld(w, cfg)
    ensures Booked(w, e, w', l, l')
  {
    w', c', p', l', lap' := w, c, p, l, lap;
    match e {
      case Client(op) => w', c', p', l' := ClientAccounted(w, cfg, c, p, l, lap, op);
      case Decide(notified) =>
        SampleAccounted(w, cfg, c, p, l, lap, notified);
        w' := Sample(w, cfg, notified);
      case DrainNow =>
        if w.batch > 0 {
          w', c', p', l', lap' := DrainAccounted(w, cfg, c, p, l, lap);
        }
    }
  }

  /** The books grow by what `ops` do to ring `s`. */
  ghost predicate Grows(s: Ring, ops: seq<RingRuns.Op>, t: Ring, l: Fifo.Ledger, l': Fifo.Ledger) {
    && RingRuns.EnabledRun(s, ops) && t == RingRuns.Run(s, ops)
    && l'.accepted == l.accepted + RingRuns.Accepted(s, ops) && l'.delivered == l.delivered + RingRuns.Delivered(s, ops)
    && l'.refused == l.refused + RingRuns.Refused(s, ops) && l'.dropped == l.dropped + RingRuns.Dropped(s, ops)
  }

  lemma GrowsNone(s: Ring, l: Fifo.Ledger)
    ensures Grows(s, [], s, l, l)
  {
    assert l.accepted + [] == l.accepted && l.delivered + [] == l.delivered;
    assert l.refused + [] == l.refused && l.dropped + [] == l.dropped;
  }

  lemma GrowsMore(w: World, e: Event, w1: World, l: Fifo.Ledger, l1: Fifo.Ledger, rest: seq<RingRuns.Op>, t: Ring,
                  l': Fifo.Ledger)
    requires Allowed(w, e) && Booked(w, e, w1, l, l1) && Grows(w1.ring, rest, t, l1, l')
    ensures Grows(w.ring, RingOp(w, e) + rest, t, l, l')
  {
    if RingOp(w, e) == [] {
      assert [] + rest == rest;
    } else {
      var op := RingOp(w, e)[0];
      assert RingOp(w, e) == [op];
      RingRuns.RunCons(w.ring, op, w1.ring, rest);
      Fifo.Associate(l.accepted, RingRuns.AcceptedBy(w.ring, op), RingRuns.Accepted(w1.ring, rest));
      Fifo.Associate(l.delivered, RingRuns.Apply(w.ring, op).0, RingRuns.Delivered(w1.ring, rest));
      Fifo.Associate(l.refused, RingRuns.RefusedBy(w.ring, op), RingRuns.Refused(w1.ring, rest));
      Fifo.Associate(l.dropped, RingRuns.DroppedBy(w.ring, op), RingRuns.Dropped(w1.ring, rest));
    }
  }

  lemma BookedOrdered(w: World, e: Event, w': World, l: Fifo.Ledger, l': Fifo.Ledger)
    requires Allowed(w, e) && Booked(w, e, w', l, l') && PlainEvent(e) && Fifo.Ordered(l)
    ensures Fifo.Ordered(l')
  {}

  lemma {:induction false} RunAccounted(w: World, cfg: Config, c: nat, p: nat, l: Fifo.Ledger, lap: seq<Record>,
                                        es: seq<Event>)
    returns (w': World, c': nat, p': nat, l': Fifo.Ledger, lap': seq<Record>)
    requires Accounted(w, cfg, c, p, l, lap) && AllowedRun(w, cfg, es)
    ensures w' == Run(w, cfg, es) && Accounted(w', cfg, c', p', l', lap')
    ensures LosslessWorld(w', cfg) == LosslessWorld(w, cfg)
    ensures Grows(w.ring, RingOps(w, cfg, es), w'.ring, l, l')
    ensures Fifo.Ordered(l) && (forall e :: e in es ==> PlainEvent(e)) ==> Fifo.Ordered(l')
    decreases |es|
  {
    if es == [] {
      w', c', p', l', lap' := w, c, p, l, lap;
      GrowsNone(w.ring, l);
    } else {
      var w1, c1, p1, l1, lap1 := StepAccounted(w, cfg, c, p, l, lap, es[0]);
      w', c', p', l', lap' := RunAccounted(w1, cfg, c1, p1, l1, lap1, es[1..]);
      GrowsMore(w, es[0], w1, l, l1, RingOps(w1, cfg, es[1..]), w'.ring, l');
      if Fifo.Ordered(l) && PlainEvent(es[0]) {
        BookedOrdered(w, es[0], w1, l, l1);
      }
    }
  }

  function NewWorld(capacity: nat, maxOverflow: nat, size: nat, range: DiskFormat.CrcRange): World
    requires size <= RingFile.MAX_SIZE
  {
    World(RingRuns.NewRing(capacity, maxOverflow), RingFile.Create(size, range), 0, [], [])
  }

  /** The books of the memory ring after the operations `ops` on a new one. */
  ghost predicate BooksOf(s: Ring, ops: seq<RingRuns.Op>, t: Ring, l: Fifo.Ledger) {
    RingRuns.EnabledRun(s, ops) && t == RingRuns.Run(s, ops) && RingRuns.Recorded(s, ops, l)
  }

  lemma BooksFromEmpty(s: Ring, ops: seq<RingRuns.Op>, t: Ring, l: Fifo.Ledger)
    requires Grows(s, ops, t, Fifo.EMPTY, l)
    ensures BooksOf(s, ops, t, l)
  {
    RingRuns.FromEmpty(s, ops, l);
  }

  lemma WorldAccounted(capacity: nat, maxOverflow: nat, size: nat, range: DiskFormat.CrcRange, cfg: Config)
    returns (w: World)
    requires Capacity(capacity) && size <= RingFile.MAX_SIZE
    ensures w == NewWorld(capacity, maxOverflow, size, range) && Accounted(w, cfg, 0, 0, Fifo.EMPTY, [])
  {
    w := NewWorld(capacity, maxOverflow, size, range);
    RingRuns.NewWindow(capacity, maxOverflow);
    RingRuns.EmptyOrdered();
    RingFile.CreateHolds(size, range);
    assert Fifo.Embeds([], [], []);
  }

  /**
   End to end, for every run of clients, daemon decisions and drains from new rings. The books
   `l` are those of the memory ring under the run's own operations: what was accepted, delivered
   to the daemon, refused and dropped are computed from the run, and every accepted record is in
   exactly one place. What the daemon wrote to the file is an order-preserving subsequence of
   what it read, the rest being exactly the discarded records; and the file parses to the latest
   of what was written. If every possible batch takes a whole ring and the file holds a full
   slot, nothing is discarded; then, with sound writes and none dropped, what clients wrote is
   what was written to the file followed by what is pending.
   */
  lemma EndToEnd(capacity: nat, maxOverflow: nat, size: nat, range: DiskFormat.CrcRange, cfg: Config, es: seq<Event>)
    returns (w: World, c: nat, p: nat, l: Fifo.Ledger, lap: seq<Record>)
    requires Capacity(capacity) && size <= RingFile.MAX_SIZE
    requires AllowedRun(NewWorld(capacity, maxOverflow, size, range), cfg, es)
    ensures w == Run(NewWorld(capacity, maxOverflow, size, range), cfg, es)
    ensures BooksOf(RingRuns.NewRing(capacity, maxOverflow), RingOps(NewWorld(capacity, maxOverflow, size, range),
          cfg, es), w.ring, l)
    ensures Window(w.ring, c, p) && l.q == Abs(w.ring, c, p) && Fifo.Conserved(l)
    ensures multiset(l.delivered) == multiset(w.history) + multiset(w.discarded)
    ensures Fifo.Subsequence(w.history, l.delivered)
    ensures RingFile.Shape(w.disk) && RingFile.ScanFrom(w.disk, 0) == LapReader.Records(lap, w.disk.control.writePos)
    ensures Suffix(lap, w.history)
    ensures Lossless(capacity, size, cfg) ==> w.discarded == [] && w.history == l.delivered
    ensures Lossless(capacity, size, cfg) && l.dropped == [] && (forall e :: e in es ==> PlainEvent(e)) ==>
              l.accepted == w.history + Fifo.Line(l.q)
  {
    RingRuns.EmptyOrdered();
    var w0 := WorldAccounted(capacity, maxOverflow, size, range, cfg);
    w, c, p, l, lap := RunAccounted(w0, cfg, 0, 0, Fifo.EMPTY, [], es);
    BooksFromEmpty(w0.ring, RingOps(w0, cfg, es), w.ring, l);
    RingFile.LapParses(w.disk, lap);
  }
}
