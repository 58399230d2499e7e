/**
 When the daemon can lose records, exactly: for given rings and settings, no run of clients and
 daemon discards anything if and only if every batch the daemon can decide on takes a whole ring
 and the file takes a full slot. The losing run fills the ring behind the daemon's decision.
 */
module FlushLoss {
  import opened Bytes
  import opened Records
  import opened Sequences
  import opened SlotRing
  import opened FlushSpec
  import opened LapReader
  import DiskFormat
  import RingFile
  import RingRuns
  import Fifo

  /** `n` copies of a record. */
  function Copies(r: Record, n: nat): (rs: seq<Record>)
    ensures |rs| == n && forall x :: x in rs ==> x == r
  {
    if n == 0 then [] else Copies(r, n - 1) + [r]
  }

  /** The largest record a slot takes, with a good checksum. */
  predicate FullRecord(r: Record) {
    FitsSlot(r) && Fifo.Sound(r) && TotalSize(r) == SLOT_SIZE
  }

  lemma SomeFullRecord() returns (r: Record)
    ensures FullRecord(r)
  {
    var data: seq<byte> := seq(DATA_SIZE, _ => 0);
    r := NewRecord(data, 0, 0);
  }

  /** The ring has taken `n` writes of `r` and no read. */
  ghost predicate Filled(s: Ring, n: nat, r: Record) {
    && Window(s, 0, n) && n <= s.capacity
    && Fifo.AllCommitted(Abs(s, 0, n).ring) && Fifo.RecordsOf(Abs(s, 0, n).ring) == Copies(r, n) && s.overflow == []
  }

  lemma WriteFills(s: Ring, n: nat, r: Record) returns (s': Ring)
    requires Filled(s, n, r) && n < s.capacity && FitsSlot(r)
    ensures s' == Write(s, r) && Filled(s', n + 1, r) && s'.capacity == s.capacity
  {
    RoomIffNotFull(s, 0, n);
    DirectRefines(s, 0, n, r);
    s' := Write(s, r);
    AppendCommitted(Abs(s, 0, n).ring, r, n);
  }

  lemma AppendCommitted(es: seq<Fifo.Entry>, r: Record, n: nat)
    requires Fifo.AllCommitted(es) && Fifo.RecordsOf(es) == Copies(r, n)
    ensures Fifo.AllCommitted(es + [Fifo.Entry(r, true)])
    ensures Fifo.RecordsOf(es + [Fifo.Entry(r, true)]) == Copies(r, n + 1)
  {}

  /** A filled ring is read out whole. */
  lemma ReadFilled(s: Ring, n: nat, r: Record)
    requires Filled(s, n, r) && Fifo.Sound(r)
    ensures Read(s).0 == Copies(r, n)
  {
    var c', p' := ReadRefines(s, 0, n);
    AllReturned(Abs(s, 0, n), LimitsOf(s), Copies(r, n), r);
  }

  /** A committed ring of sound records is returned whole. */
  lemma AllReturned(q: Fifo.Queue, lim: Fifo.Limits, rs: seq<Record>, r: Record)
    requires Fifo.AllCommitted(q.ring) && |q.ring| <= lim.capacity && Fifo.RecordsOf(q.ring) == rs
    requires (forall x :: x in rs ==> x == r) && Fifo.Sound(r)
    ensures Fifo.Read(q, lim).0 == rs
  {
    var es := q.ring;
    Fifo.ReadyIsLongest(es);
    assert Fifo.Ready(es) == |es|;
    assert es[..|es|] == es;
    forall i | 0 <= i < |es| ensures Fifo.Sound(es[i].record) {
      assert rs[i] in rs;
    }
    Fifo.ValidAll(es);
  }

  function Writes(r: Record, n: nat): seq<Event> {
    if n == 0 then [] else [Client(RingRuns.WriteOp(r))] + Writes(r, n - 1)
  }

  /** Run `es` from `w` ends in `t`. */
  ghost predicate Leads(w: World, cfg: Config, es: seq<Event>, t: World) {
    AllowedRun(w, cfg, es) && Run(w, cfg, es) == t
  }

  /** A run that begins with `m` writes. */
  lemma {:induction false} WritesRun(w: World, cfg: Config, r: Record, n: nat, m: nat, rest: seq<Event>)
    returns (w': World)
    requires Filled(w.ring, n, r) && n + m <= w.ring.capacity && FitsSlot(r) && RingFile.Shape(w.disk)
    ensures w' == w.(ring := w'.ring) && Filled(w'.ring, n + m, r) && w'.ring.capacity == w.ring.capacity
    ensures forall t {:trigger Leads(w', cfg, rest, t)} :: Leads(w', cfg, rest, t) ==>
                Leads(w, cfg, Writes(r, m) + rest, t)
    decreases m
  {
    if m == 0 {
      w' := w;
      assert Writes(r, 0) + rest == rest;
    } else {
      var s1 := WriteFills(w.ring, n, r);
      var w1 := w.(ring := s1);
      w' := WritesRun(w1, cfg, r, n + 1, m - 1, rest);
      var es := Writes(r, m) + rest;
      assert es[0] == Client(RingRuns.WriteOp(r)) && es[1..] == Writes(r, m - 1) + rest;
    }
  }

  /** The ring fills up to `used`, the daemon decides, the ring fills up, and the daemon drains it. */
  function FillingRun(r: Record, used: nat, capacity: nat): seq<Event>
    requires used <= capacity
  {
    Writes(r, used) + DecidedEvents(r, capacity - used)
  }

  function DecidedEvents(r: Record, m: nat): seq<Event> {
    [Decide(true)] + (Writes(r, m) + [DrainNow])
  }

  /** A drain of a full ring loses nothing exactly when the batch takes it and the file takes the record. */
  lemma FullDrain(w: World, cfg: Config, r: Record) returns (t: World)
    requires Filled(w.ring, w.ring.capacity, r) && FullRecord(r) && RingFile.Shape(w.disk) && w.batch > 0
    requires w.discarded == []
    ensures Leads(w, cfg, [DrainNow], t)
    ensures t.discarded == [] <==> w.ring.capacity <= w.batch && SLOT_SIZE <= w.disk.size
  {
    ReadFilled(w.ring, w.ring.capacity, r);
    DrainKeepsAllIff(w);
    assert Copies(r, w.ring.capacity)[0] in Copies(r, w.ring.capacity);
    t := Drain(w);
    RunOne(w, cfg, DrainNow, [], t);
    assert [DrainNow] + [] == [DrainNow];
  }

  lemma DecideFilled(w: World, cfg: Config, r: Record, used: nat) returns (w': World, n: nat)
    requires Filled(w.ring, used, r) && Fifo.Sound(r)
    ensures w' == Sample(w, cfg, true) && w' == w.(batch := n) && n > 0
    ensures n == BatchSize(Level(used, w.ring.capacity), cfg)
  {
    UsageCounts(w.ring, 0, used);
    n := BatchSize(Level(used, w.ring.capacity), cfg);
    w' := w.(batch := n);
  }

  /** From the decision on, with `m` writes behind it. */
  lemma DecidedRun(w: World, cfg: Config, r: Record, used: nat, m: nat) returns (t: World, n: nat)
    requires Filled(w.ring, used, r) && FullRecord(r) && RingFile.Shape(w.disk) && w.discarded == []
    requires used + m == w.ring.capacity
    ensures Leads(w, cfg, DecidedEvents(r, m), t) && n == BatchSize(Level(used, w.ring.capacity), cfg)
    ensures t.discarded == [] <==> w.ring.capacity <= n && SLOT_SIZE <= w.disk.size
  {
    var w2;
    w2, n := DecideFilled(w, cfg, r, used);
    var w3 := WritesRun(w2, cfg, r, used, m, [DrainNow]);
    t := FullDrain(w3, cfg, r);
    RunOne(w, cfg, Decide(true), Writes(r, m) + [DrainNow], t);
  }

  lemma RunOne(w: World, cfg: Config, e: Event, rest: seq<Event>, t: World)
    requires Allowed(w, e) && Leads(Step(w, cfg, e), cfg, rest, t)
    ensures Leads(w, cfg, [e] + rest, t)
  {
    EventThen(w, cfg, e, rest);
  }

  lemma FillingRunLoses(w: World, cfg: Config, r: Record, used: nat) returns (t: World, n: nat)
    requires Filled(w.ring, 0, r) && FullRecord(r) && RingFile.Shape(w.disk) && w.discarded == []
    requires used <= w.ring.capacity
    ensures Leads(w, cfg, FillingRun(r, used, w.ring.capacity), t)
    ensures t.discarded == [] <==> w.ring.capacity <= n && SLOT_SIZE <= w.disk.size
    ensures n == BatchSize(Level(used, w.ring.capacity), cfg)
  {
    var m := w.ring.capacity - used;
    var w1 := WritesRun(w, cfg, r, 0, used, DecidedEvents(r, m));
    t, n := DecidedRun(w1, cfg, r, used, m);
  }

  lemma NewFilled(capacity: nat, maxOverflow: nat, r: Record)
    requires Capacity(capacity)
    ensures Filled(RingRuns.NewRing(capacity, maxOverflow), 0, r)
  {
    RingRuns.NewWindow(capacity, maxOverflow);
  }

  /** No run from new rings discards a record. */
  ghost predicate NeverDiscards(capacity: nat, maxOverflow: nat, size: nat, range: DiskFormat.CrcRange, cfg: Config)
    requires size <= RingFile.MAX_SIZE
  {
    forall es {:trigger AllowedRun(NewWorld(capacity, maxOverflow, size, range), cfg, es)} ::
      AllowedRun(NewWorld(capacity, maxOverflow, size, range), cfg, es) ==>
        Run(NewWorld(capacity, maxOverflow, size, range), cfg, es).discarded == []
  }

  /**
   No run loses a record to the daemon if and only if the file takes a full slot and the ring is
   no larger than the batch of an empty ring: with a positive watermark, half the configured
   number of records.
  */
  lemma LosslessIff(capacity: nat, maxOverflow: nat, size: nat, range: DiskFormat.CrcRange, cfg: Config)
    requires Capacity(capacity) && size <= RingFile.MAX_SIZE
    ensures NeverDiscards(capacity, maxOverflow, size, range, cfg) <==>
              256 <= size && (capacity == 1 || 2 * capacity <= EmptyHalves(cfg) * cfg.maxRecords)
  {
    EmptyBatchDecides(capacity, size, cfg);
    if Lossless(capacity, size, cfg) {
      LosslessKeepsAll(capacity, maxOverflow, size, range, cfg);
    }
    if NeverDiscards(capacity, maxOverflow, size, range, cfg) {
      forall used: nat | used <= capacity
        ensures capacity <= BatchSize(Level(used, capacity), cfg) && SLOT_SIZE <= size
      {
        KeepsAllNeeds(capacity, maxOverflow, size, range, cfg, used);
      }
      KeepsAllNeeds(capacity, maxOverflow, size, range, cfg, 0);
    }
  }

  /** An empty ring is below half of a positive watermark, at a zero one, and above a negative one. */
  ghost function EmptyHalves(cfg: Config): nat {
    if cfg.highWatermark > 0.0 then 1 else if cfg.highWatermark == 0.0 then 2 else 3
  }

  /** The batch of an empty ring is the least, so it decides. */
  lemma EmptyBatchDecides(capacity: nat, size: nat, cfg: Config)
    requires capacity > 0
    ensures Lossless(capacity, size, cfg) <==>
              256 <= size && (capacity == 1 || 2 * capacity <= EmptyHalves(cfg) * cfg.maxRecords)
  {
    EmptyLevel(capacity);
    forall used: nat | used <= capacity ensures BatchSize(0.0, cfg) <= BatchSize(Level(used, capacity), cfg) {
      LevelBounds(used, capacity);
      BatchGrows(0.0, Level(used, capacity), cfg);
    }
    EmptyBatch(cfg, capacity);
    assert Level(0, capacity) == 0.0;
  }

  lemma EmptyLevel(capacity: nat)
    requires capacity > 0
    ensures Level(0, capacity) == 0.0
  {}

  lemma BatchGrows(low: real, high: real, cfg: Config)
    requires low <= high
    ensures BatchSize(low, cfg) <= BatchSize(high, cfg)
  {}

  lemma EmptyBatch(cfg: Config, k: nat)
    requires k > 0
    ensures k <= BatchSize(0.0, cfg) <==> k == 1 || 2 * k <= EmptyHalves(cfg) * cfg.maxRecords
  {}

  lemma LosslessKeepsAll(capacity: nat, maxOverflow: nat, size: nat, range: DiskFormat.CrcRange, cfg: Config)
    requires Capacity(capacity) && size <= RingFile.MAX_SIZE && Lossless(capacity, size, cfg)
    ensures NeverDiscards(capacity, maxOverflow, size, range, cfg)
  {
    forall es | AllowedRun(NewWorld(capacity, maxOverflow, size, range), cfg, es)
      ensures Run(NewWorld(capacity, maxOverflow, size, range), cfg, es).discarded == []
    {
      var w, c, p, l, lap := EndToEnd(capacity, maxOverflow, size, range, cfg, es);
    }
  }

  lemma KeepsAllNeeds(capacity: nat, maxOverflow: nat, size: nat, range: DiskFormat.CrcRange, cfg: Config, used: nat)
    requires Capacity(capacity) && size <= RingFile.MAX_SIZE && used <= capacity
    requires NeverDiscards(capacity, maxOverflow, size, range, cfg)
    ensures capacity <= BatchSize(Level(used, capacity), cfg) && SLOT_SIZE <= size
  {
    var w0 := NewWorld(capacity, maxOverflow, size, range);
    var r := SomeFullRecord();
    NewFilled(capacity, maxOverflow, r);
    var t, n := FillingRunLoses(w0, cfg, r, used);
    assert AllowedRun(w0, cfg, FillingRun(r, used, capacity));
  }
}
