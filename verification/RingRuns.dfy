/** Whole runs of the volatile ring: what every operation keeps, and where every record goes. */
module RingRuns {
  import opened Bytes
  import opened Records
  import opened Sequences
  import opened SlotRing
  import Crc32
  import Fifo

  /** Reservations are named by the sequence number they carry. */
  datatype Op = WriteOp(record: Record) | ReadOp | ReserveOp | FillOp(number: nat, record: Record)
      | CommitOp(number: nat)

  /** An outstanding reservation: its slot is Reserved and shows its number. */
  predicate Outstanding(s: Ring, number: nat)
    requires |s.slots| == s.capacity > 0
  {
    number < TWO64 && SlotOf(s, number) == Slot(Reserved, number)
  }

  predicate Enabled(s: Ring, op: Op)
    requires |s.slots| == s.capacity > 0
  {
    match op
    case WriteOp(r) => FitsSlot(r)
    case ReadOp => true
    case ReserveOp => true
    case FillOp(q, r) => Outstanding(s, q) && FitsSlot(r)
    case CommitOp(q) => Outstanding(s, q)
  }

  /** The records returned, and the new state. A reservation on a full ring changes nothing. */
  function Apply(s: Ring, op: Op): (seq<Record>, Ring)
    requires SlotRing.Shape(s) && Enabled(s, op)
  {
    match op
    case WriteOp(r) => ([], Write(s, r))
    case ReadOp => Read(s)
    case ReserveOp => ([], if HasRoom(s) then Reserve(s) else s)
    case FillOp(q, r) =>
      assert CellOk(s.cells[Index(q, s.capacity)]);
      ([], Fill(s, Index(q, s.capacity), r))
    case CommitOp(q) => ([], Commit(s, Index(q, s.capacity), q))
  }

  /** The record an operation adds to the accepted ones. */
  function AcceptedBy(s: Ring, op: Op): seq<Record>
    requires SlotRing.Shape(s)
  {
    match op
    case WriteOp(r) => [r]
    case CommitOp(q) => [EntryOf(s, q).record]
    case _ => []
  }

  /** The records the read loop takes and does not return, because their checksums fail. */
  function RefusedLoop(s: Ring, budget: nat): seq<Record>
    requires SlotRing.Shape(s)
    decreases budget, s
  {
    if budget == 0 || !CanConsume(s) then [] else
      var r := HeadRecord(s);
      (if Fifo.Sound(r) then [] else [r]) + RefusedLoop(ConsumeOne(s), budget - 1)
  }

  function RefusedBy(s: Ring, op: Op): seq<Record>
    requires SlotRing.Shape(s)
  {
    if op.ReadOp? then RefusedLoop(s, s.capacity) else []
  }

  /** The record a write gives up: the oldest waiting one, when neither ring nor queue has room. */
  function DroppedBy(s: Ring, op: Op): seq<Record>
    requires SlotRing.Shape(s)
  {
    if op.WriteOp? && !HasRoom(s) && |s.overflow| >= s.maxOverflow then [(s.overflow + [op.record])[0]] else []
  }

  /** What an operation of the ring is on the abstract queue; reservations become places in the line. */
  function QueueOp(s: Ring, op: Op): seq<Fifo.Op>
    requires SlotRing.Shape(s) && Enabled(s, op)
  {
    match op
    case WriteOp(r) => [Fifo.WriteOp(r)]
    case ReadOp => [Fifo.ReadOp]
    case ReserveOp => if HasRoom(s) then [Fifo.ReserveOp(EntryOf(s, s.prodSeq).record)] else []
    case FillOp(q, r) => [Fifo.PutOp(WrappingSub(q, s.consSeq), r)]
    case CommitOp(q) => [Fifo.CommitOp(WrappingSub(q, s.consSeq))]
  }

  function NewRing(capacity: nat, maxOverflow: nat): Ring {
    Ring(seq(capacity, _ => Slot(Empty, 0)), seq(capacity, _ => Cell(RecordHeader(0, 0, 0, 0), seq(DATA_SIZE, _ => 0))),
         0, 0, capacity, [], maxOverflow)
  }

  lemma NewWindow(capacity: nat, maxOverflow: nat)
    requires Capacity(capacity)
    ensures Window(NewRing(capacity, maxOverflow), 0, 0)
    ensures Abs(NewRing(capacity, maxOverflow), 0, 0) == Fifo.Queue([], [])
  {}

  // ---- Which number sits in a slot ----

  /** Every slot belongs to exactly one number of the window. */
  lemma {:induction false} NumberOfSlot(c: nat, cap: nat, i: nat) returns (n: nat)
    requires cap > 0 && i < cap
    ensures c <= n < c + cap && Index(n, cap) == i
    decreases c
  {
    if c >= cap {
      var m := NumberOfSlot(c - cap, cap, i);
      n := m + cap;
    } else if c <= i {
      n := i;
    } else {
      n := i + cap;
    }
  }

  lemma NumberOfReservation(s: Ring, c: nat, p: nat, q: nat) returns (n: nat)
    requires Window(s, c, p) && Outstanding(s, q)
    ensures c <= n < p && n % TWO64 == q && Index(n, s.capacity) == Index(q, s.capacity)
    ensures WrappingSub(q, s.consSeq) == n - c
  {
    n := NumberOfSlot(c, s.capacity, Index(q, s.capacity));
    assert p <= n ==> SlotOf(s, n).state.Empty?;
    assert n < p ==> Live(s, n);
    if n < p {
      WrappedDistance(n, c);
    }
  }

  // ---- Simulation of the ledger ----

  /** The ring with unwrapped counters `c` and `p` agrees with the books `l`. */
  ghost predicate Agrees(s: Ring, c: nat, p: nat, l: Fifo.Ledger) {
    && Window(s, c, p)
    && l.q == Abs(s, c, p)
    && Fifo.Bounded(l.q, LimitsOf(s))
    && Fifo.Conserved(l)
  }

  /** The books `l'` are `l` with what the operation took in, returned, refused and dropped, and nothing else. */
  ghost predicate Follows(s: Ring, op: Op, l: Fifo.Ledger, l': Fifo.Ledger)
    requires SlotRing.Shape(s) && Enabled(s, op)
  {
    && l'.accepted == l.accepted + AcceptedBy(s, op)
    && l'.delivered == l.delivered + Apply(s, op).0
    && l'.refused == l.refused + RefusedBy(s, op)
    && l'.dropped == l.dropped + DroppedBy(s, op)
    && (Fifo.Ordered(l) && PlainOp(op) ==> Fifo.Ordered(l'))
  }

  /** The books `l'` are `l` after the same operation on the abstract queue. */
  ghost predicate Steps(s: Ring, op: Op, l: Fifo.Ledger, l': Fifo.Ledger)
    requires SlotRing.Shape(s) && Enabled(s, op)
  {
    var fops := QueueOp(s, op);
    if fops == [] then l' == l
    else |l.q.ring| <= s.capacity && Fifo.Enabled(l, LimitsOf(s), fops[0]) && l' == Fifo.Step(l, LimitsOf(s), fops[0])
  }

  lemma StepWrite(s: Ring, c: nat, p: nat, l: Fifo.Ledger, r: Record) returns (p': nat, l': Fifo.Ledger)
    requires Agrees(s, c, p, l) && FitsSlot(r)
    ensures Agrees(Write(s, r), c, p', l') && Follows(s, WriteOp(r), l, l') && Steps(s, WriteOp(r), l, l')
  {
    p' := WriteRefines(s, c, p, r);
    l' := Fifo.Step(l, LimitsOf(s), Fifo.WriteOp(r));
    Fifo.StepConserves(l, LimitsOf(s), Fifo.WriteOp(r));
    assert LimitsOf(Write(s, r)) == LimitsOf(s);
    WriteFollows(s, c, p, l, r, l');
  }

  lemma WriteFollows(s: Ring, c: nat, p: nat, l: Fifo.Ledger, r: Record, l': Fifo.Ledger)
    requires Agrees(s, c, p, l) && FitsSlot(r) && l' == Fifo.Step(l, LimitsOf(s), Fifo.WriteOp(r))
    ensures Follows(s, WriteOp(r), l, l')
  {
    DroppedRefines(s, c, p, r);
    if Fifo.Ordered(l) && Fifo.Sound(r) {
      Fifo.WriteOrdered(l, LimitsOf(s), r);
    }
  }

  lemma DroppedRefines(s: Ring, c: nat, p: nat, r: Record)
    requires Window(s, c, p) && FitsSlot(r)
    ensures DroppedBy(s, WriteOp(r)) == Fifo.DroppedBy(Abs(s, c, p), LimitsOf(s), r)
  {
    RoomIffNotFull(s, c, p);
  }

  /** One turn of the read loop. */
  lemma RefusedTurn(s: Ring, budget: nat, bad: seq<Record>) returns (s1: Ring, rest: seq<Record>)
    requires SlotRing.Shape(s) && CanConsume(s) && budget > 0 && bad == RefusedLoop(s, budget)
    ensures s1 == ConsumeOne(s) && SlotRing.Shape(s1) && rest == RefusedLoop(s1, budget - 1)
    ensures bad == (if Fifo.Sound(HeadRecord(s)) then [] else [HeadRecord(s)]) + rest
  {
    s1 := ConsumeOne(s);
    rest := RefusedLoop(s1, budget - 1);
  }

  /** What the read loop refuses is what the abstract read refuses. */
  lemma {:induction false} RefusedRefines(s: Ring, budget: nat, es: seq<Fifo.Entry>, bad: seq<Record>)
    requires SlotRing.Shape(s) && Meets(s, es) && |es| <= budget && bad == RefusedLoop(s, budget)
    ensures bad == Fifo.Refusals(es)
    decreases budget
  {
    if es != [] && es[0].committed {
      var s1, rest := RefusedTurn(s, budget, bad);
      RefusedRefines(s1, budget - 1, es[1..], rest);
    }
  }

  lemma StepRead(s: Ring, c: nat, p: nat, l: Fifo.Ledger) returns (c': nat, p': nat, l': Fifo.Ledger)
    requires Agrees(s, c, p, l)
    ensures Agrees(Read(s).1, c', p', l') && Follows(s, ReadOp, l, l') && Steps(s, ReadOp, l, l')
  {
    l' := Fifo.Step(l, LimitsOf(s), Fifo.ReadOp);
    c', p' := ReadRefines(s, c, p);
    Fifo.StepConserves(l, LimitsOf(s), Fifo.ReadOp);
    ReadLimits(s);
    ReadFollows(s, c, p, l, l');
    ReadSteps(s, l, l');
  }

  lemma ReadSteps(s: Ring, l: Fifo.Ledger, l': Fifo.Ledger)
    requires SlotRing.Shape(s) && |l.q.ring| <= s.capacity && l' == Fifo.Step(l, LimitsOf(s), Fifo.ReadOp)
    ensures Steps(s, ReadOp, l, l')
  {}

  lemma ReadFollows(s: Ring, c: nat, p: nat, l: Fifo.Ledger, l': Fifo.Ledger)
    requires Agrees(s, c, p, l) && l' == Fifo.Step(l, LimitsOf(s), Fifo.ReadOp)
    requires Read(s).0 == Fifo.Read(l.q, LimitsOf(s)).0
    ensures Follows(s, ReadOp, l, l')
  {
    if Fifo.Ordered(l) {
      Fifo.ReadOrdered(l, LimitsOf(s));
    }
    WindowMeets(s, c, p, Entries(s, c, p));
    RefusedRefines(s, s.capacity, Entries(s, c, p), RefusedLoop(s, s.capacity));
    Fifo.RefusalsAreInvalid(Entries(s, c, p));
    assert l'.accepted == l.accepted + [] && l'.dropped == l.dropped + [];
  }

  lemma ReadLimits(s: Ring)
    requires SlotRing.Shape(s)
    ensures Read(s).1.capacity == s.capacity && Read(s).1.maxOverflow == s.maxOverflow
  {
    RefillLimits(ConsumeLoop(s, s.capacity).1);
  }

  lemma {:induction false} RefillLimits(s: Ring)
    requires SlotRing.Shape(s)
    ensures RefillLoop(s).capacity == s.capacity && RefillLoop(s).maxOverflow == s.maxOverflow
    decreases |s.overflow|
  {
    if s.overflow != [] && HasRoom(s) {
      assert FitsSlot(s.overflow[0]);
      TailShape(s);
      var s' := s.(overflow := s.overflow[1..]);
      WriteShape(s', s.overflow[0]);
      RefillLimits(WriteDirect(s', s.overflow[0]));
    }
  }

  lemma StepReserve(s: Ring, c: nat, p: nat, l: Fifo.Ledger) returns (l': Fifo.Ledger)
    requires Agrees(s, c, p, l) && HasRoom(s)
    ensures Agrees(Reserve(s), c, p + 1, l') && Follows(s, ReserveOp, l, l') && Steps(s, ReserveOp, l, l')
  {
    RoomIffNotFull(s, c, p);
    ReserveRefines(s, c, p);
    var stale := EntryOf(s, s.prodSeq).record;
    assert stale == EntryOf(s, p).record;
    Fifo.StepConserves(l, LimitsOf(s), Fifo.ReserveOp(stale));
    l' := Fifo.Step(l, LimitsOf(s), Fifo.ReserveOp(stale));
  }

  lemma FillReservation(s: Ring, c: nat, p: nat, q: nat, r: Record) returns (s': Ring, i: nat)
    requires Window(s, c, p) && Enabled(s, FillOp(q, r))
    ensures s' == Apply(s, FillOp(q, r)).1 && Window(s', c, p) && LimitsOf(s') == LimitsOf(s)
    ensures i == WrappingSub(q, s.consSeq)
    ensures i < p - c && !Abs(s, c, p).ring[i].committed && Abs(s', c, p) == Fifo.Put(Abs(s, c, p), i, r)
  {
    var n := NumberOfReservation(s, c, p, q);
    EntryAt(s, c, p, n);
    FillRefines(s, c, p, n, r);
    s', i := Fill(s, Index(n, s.capacity), r), n - c;
  }

  lemma StepFill(s: Ring, c: nat, p: nat, l: Fifo.Ledger, q: nat, r: Record) returns (l': Fifo.Ledger)
    requires Agrees(s, c, p, l) && Enabled(s, FillOp(q, r))
    ensures Agrees(Apply(s, FillOp(q, r)).1, c, p, l') && Follows(s, FillOp(q, r), l, l')
    ensures Steps(s, FillOp(q, r), l, l')
  {
    var s', i := FillReservation(s, c, p, q, r);
    Fifo.StepConserves(l, LimitsOf(s), Fifo.PutOp(i, r));
    l' := Fifo.Step(l, LimitsOf(s), Fifo.PutOp(i, r));
  }

  lemma CommitReservation(s: Ring, c: nat, p: nat, q: nat) returns (s': Ring, i: nat)
    requires Window(s, c, p) && Enabled(s, CommitOp(q))
    ensures s' == Apply(s, CommitOp(q)).1 && Window(s', c, p) && LimitsOf(s') == LimitsOf(s)
    ensures i == WrappingSub(q, s.consSeq)
    ensures i < p - c && !Abs(s, c, p).ring[i].committed && Abs(s, c, p).ring[i].record == EntryOf(s, q).record
    ensures Abs(s', c, p) == Fifo.Commit(Abs(s, c, p), i)
  {
    var n := NumberOfReservation(s, c, p, q);
    EntryAt(s, c, p, n);
    CommitRefines(s, c, p, n);
    s', i := SlotRing.Commit(s, Index(n, s.capacity), q), n - c;
  }

  lemma StepCommit(s: Ring, c: nat, p: nat, l: Fifo.Ledger, q: nat) returns (l': Fifo.Ledger)
    requires Agrees(s, c, p, l) && Enabled(s, CommitOp(q))
    ensures Agrees(Apply(s, CommitOp(q)).1, c, p, l') && Follows(s, CommitOp(q), l, l') && Steps(s, CommitOp(q), l, l')
  {
    var s', i := CommitReservation(s, c, p, q);
    Fifo.StepConserves(l, LimitsOf(s), Fifo.CommitOp(i));
    l' := Fifo.Step(l, LimitsOf(s), Fifo.CommitOp(i));
  }

  /** Each operation of the ring is a ledger operation with the same records in and out. */
  lemma StepAgrees(s: Ring, c: nat, p: nat, l: Fifo.Ledger, op: Op) returns (c': nat, p': nat, l': Fifo.Ledger)
    requires Agrees(s, c, p, l) && Enabled(s, op)
    ensures Agrees(Apply(s, op).1, c', p', l') && Follows(s, op, l, l') && Steps(s, op, l, l')
  {
    c', p', l' := c, p, l;
    match op
    case WriteOp(r) => p', l' := StepWrite(s, c, p, l, r);
    case ReadOp => c', p', l' := StepRead(s, c, p, l);
    case ReserveOp =>
      if HasRoom(s) {
        p' := p + 1;
        l' := StepReserve(s, c, p, l);
      }
    case FillOp(q, r) => l' := StepFill(s, c, p, l, q, r);
    case CommitOp(q) => l' := StepCommit(s, c, p, l, q);
  }

  /** A read, or a write of a record whose checksum holds. */
  ghost predicate PlainOp(op: Op) {
    op.ReadOp? || (op.WriteOp? && Fifo.Sound(op.record))
  }

  // ---- Runs ----

  ghost predicate EnabledRun(s: Ring, ops: seq<Op>)
    decreases |ops|
  {
    ops == [] || (SlotRing.Shape(s) && Enabled(s, ops[0]) && EnabledRun(Apply(s, ops[0]).1, ops[1..]))
  }

  function Run(s: Ring, ops: seq<Op>): Ring
    requires EnabledRun(s, ops)
    decreases |ops|
  {
    if ops == [] then s else Run(Apply(s, ops[0]).1, ops[1..])
  }

  /** Everything `read` returned over a run. */
  function Delivered(s: Ring, ops: seq<Op>): seq<Record>
    requires EnabledRun(s, ops)
    decreases |ops|
  {
    if ops == [] then [] else Apply(s, ops[0]).0 + Delivered(Apply(s, ops[0]).1, ops[1..])
  }

  /** Everything written, or committed through a reservation, over a run. */
  function Accepted(s: Ring, ops: seq<Op>): seq<Record>
    requires EnabledRun(s, ops)
    decreases |ops|
  {
    if ops == [] then [] else AcceptedBy(s, ops[0]) + Accepted(Apply(s, ops[0]).1, ops[1..])
  }

  /** Everything refused by its checksum over a run. */
  function Refused(s: Ring, ops: seq<Op>): seq<Record>
    requires EnabledRun(s, ops)
    decreases |ops|
  {
    if ops == [] then [] else RefusedBy(s, ops[0]) + Refused(Apply(s, ops[0]).1, ops[1..])
  }

  /** Everything dropped from the overflow queue over a run. */
  function Dropped(s: Ring, ops: seq<Op>): seq<Record>
    requires EnabledRun(s, ops)
    decreases |ops|
  {
    if ops == [] then [] else DroppedBy(s, ops[0]) + Dropped(Apply(s, ops[0]).1, ops[1..])
  }

  /** The same run on the abstract queue. */
  function QueueOps(s: Ring, ops: seq<Op>): seq<Fifo.Op>
    requires EnabledRun(s, ops)
    decreases |ops|
  {
    if ops == [] then [] else QueueOp(s, ops[0]) + QueueOps(Apply(s, ops[0]).1, ops[1..])
  }

  /** The books `l'` are `l` after `fops` on the abstract queue. */
  ghost predicate Runs(l: Fifo.Ledger, lim: Fifo.Limits, fops: seq<Fifo.Op>, l': Fifo.Ledger) {
    |l.q.ring| <= lim.capacity && Fifo.EnabledRun(l, lim, fops) && l' == Fifo.Run(l, lim, fops)
  }

  lemma RunsMore(s: Ring, op: Op, l: Fifo.Ledger, l1: Fifo.Ledger, lim: Fifo.Limits, fops: seq<Fifo.Op>,
                 l': Fifo.Ledger)
    requires SlotRing.Shape(s) && Enabled(s, op) && Steps(s, op, l, l1) && lim == LimitsOf(s)
    requires |l.q.ring| <= s.capacity
    requires Runs(l1, lim, fops, l')
    ensures Runs(l, lim, QueueOp(s, op) + fops, l')
  {
    if QueueOp(s, op) == [] {
      assert [] + fops == fops;
    } else {
      var fop := QueueOp(s, op)[0];
      assert QueueOp(s, op) == [fop];
      assert ([fop] + fops)[0] == fop && ([fop] + fops)[1..] == fops;
    }
  }

  lemma ApplyLimits(s: Ring, op: Op)
    requires SlotRing.Shape(s) && Enabled(s, op)
    ensures LimitsOf(Apply(s, op).1) == LimitsOf(s)
  {
    if op.ReadOp? {
      ReadLimits(s);
    }
  }

  /** A run that starts with one operation. */
  lemma RunCons(s: Ring, op: Op, s1: Ring, rest: seq<Op>)
    requires SlotRing.Shape(s) && Enabled(s, op) && s1 == Apply(s, op).1 && EnabledRun(s1, rest)
    ensures EnabledRun(s, [op] + rest) && Run(s, [op] + rest) == Run(s1, rest)
    ensures Accepted(s, [op] + rest) == AcceptedBy(s, op) + Accepted(s1, rest)
    ensures Delivered(s, [op] + rest) == Apply(s, op).0 + Delivered(s1, rest)
    ensures Refused(s, [op] + rest) == RefusedBy(s, op) + Refused(s1, rest)
    ensures Dropped(s, [op] + rest) == DroppedBy(s, op) + Dropped(s1, rest)
  {
    assert ([op] + rest)[0] == op && ([op] + rest)[1..] == rest;
  }

  lemma {:induction false} RunAgrees(s: Ring, c: nat, p: nat, l: Fifo.Ledger, ops: seq<Op>)
    returns (c': nat, p': nat, l': Fifo.Ledger)
    requires Agrees(s, c, p, l) && EnabledRun(s, ops)
    ensures Agrees(Run(s, ops), c', p', l')
    ensures l'.delivered == l.delivered + Delivered(s, ops) && l'.accepted == l.accepted + Accepted(s, ops)
    ensures l'.refused == l.refused + Refused(s, ops) && l'.dropped == l.dropped + Dropped(s, ops)
    ensures Runs(l, LimitsOf(s), QueueOps(s, ops), l')
    ensures Fifo.Ordered(l) && (forall op :: op in ops ==> PlainOp(op)) ==> Fifo.Ordered(l')
    decreases |ops|
  {
    if ops == [] {
      c', p', l' := c, p, l;
    } else {
      var c1, p1, l1 := StepAgrees(s, c, p, l, ops[0]);
      var s1 := Apply(s, ops[0]).1;
      c', p', l' := RunAgrees(s1, c1, p1, l1, ops[1..]);
      Fifo.Associate(l.delivered, Apply(s, ops[0]).0, Delivered(s1, ops[1..]));
      Fifo.Associate(l.accepted, AcceptedBy(s, ops[0]), Accepted(s1, ops[1..]));
      Fifo.Associate(l.refused, RefusedBy(s, ops[0]), Refused(s1, ops[1..]));
      Fifo.Associate(l.dropped, DroppedBy(s, ops[0]), Dropped(s1, ops[1..]));
      ApplyLimits(s, ops[0]);
      RunsMore(s, ops[0], l, l1, LimitsOf(s), QueueOps(s1, ops[1..]), l');
    }
  }

  lemma {:induction false} RefusedUnsound(s: Ring, budget: nat)
    requires SlotRing.Shape(s)
    ensures forall r :: r in RefusedLoop(s, budget) ==> r.header.crc32 != Crc32.Checksum(r.data)
    decreases budget
  {
    if budget != 0 && CanConsume(s) {
      RefusedUnsound(ConsumeOne(s), budget - 1);
    }
  }

  lemma {:induction false} RunRefusedUnsound(s: Ring, ops: seq<Op>)
    requires EnabledRun(s, ops)
    ensures forall r :: r in Refused(s, ops) ==> r.header.crc32 != Crc32.Checksum(r.data)
    decreases |ops|
  {
    if ops != [] {
      RefusedUnsound(s, s.capacity);
      RunRefusedUnsound(Apply(s, ops[0]).1, ops[1..]);
    }
  }

  lemma {:induction false} ReturnedSound(s: Ring, budget: nat)
    requires SlotRing.Shape(s)
    ensures forall r :: r in ConsumeLoop(s, budget).0 ==> r.header.crc32 == Crc32.Checksum(r.data)
    decreases budget
  {
    if budget != 0 && CanConsume(s) {
      ReturnedSound(ConsumeOne(s), budget - 1);
    }
  }

  lemma {:induction false} RunDeliveredSound(s: Ring, ops: seq<Op>)
    requires EnabledRun(s, ops)
    ensures forall r :: r in Delivered(s, ops) ==> r.header.crc32 == Crc32.Checksum(r.data)
    decreases |ops|
  {
    if ops != [] {
      ReturnedSound(s, s.capacity);
      RunDeliveredSound(Apply(s, ops[0]).1, ops[1..]);
    }
  }

  /**
   Over every run from a new ring, across any wrap-around of the counters: the ring and its
   overflow queue are the bounded queue under the same operations, reservations in the order of
   their numbers among them, and each record written or committed is in
   exactly one of delivered, refused, dropped, in the ring, or waiting, all but the last two
   being computed from the run; refused records have bad checksums and delivered ones good. For runs of writes and reads
   of sound records, what was delivered followed by what is pending is what was written, in order
   and without the dropped.
   */
  lemma RingConserves(capacity: nat, maxOverflow: nat, ops: seq<Op>) returns (s: Ring, c: nat, p: nat, l: Fifo.Ledger)
    requires Capacity(capacity) && EnabledRun(NewRing(capacity, maxOverflow), ops)
    ensures s == Run(NewRing(capacity, maxOverflow), ops)
    ensures Window(s, c, p) && WrappingSub(s.prodSeq, s.consSeq) == p - c <= s.capacity
    ensures l.q == Abs(s, c, p) && Recorded(NewRing(capacity, maxOverflow), ops, l)
    ensures Runs(Fifo.EMPTY, Fifo.Limits(capacity, maxOverflow), QueueOps(NewRing(capacity, maxOverflow), ops), l)
    ensures Fifo.Bounded(l.q, LimitsOf(s)) && Fifo.Conserved(l)
    ensures forall r :: r in l.refused ==> r.header.crc32 != Crc32.Checksum(r.data)
    ensures forall r :: r in l.delivered ==> r.header.crc32 == Crc32.Checksum(r.data)
    ensures (forall op :: op in ops ==> PlainOp(op)) ==> Fifo.Ordered(l)
  {
    var n := NewRing(capacity, maxOverflow);
    NewWindow(capacity, maxOverflow);
    EmptyOrdered();
    c, p, l := RunAgrees(n, 0, 0, Fifo.EMPTY, ops);
    FromEmpty(n, ops, l);
    s := Run(n, ops);
    RoomIffNotFull(s, c, p);
    RunRefusedUnsound(n, ops);
    RunDeliveredSound(n, ops);
  }

  /** The history columns of the books are those of the run. */
  ghost predicate Recorded(s: Ring, ops: seq<Op>, l: Fifo.Ledger)
    requires EnabledRun(s, ops)
  {
    && l.accepted == Accepted(s, ops) && l.delivered == Delivered(s, ops)
    && l.refused == Refused(s, ops) && l.dropped == Dropped(s, ops)
  }

  lemma FromEmpty(s: Ring, ops: seq<Op>, l: Fifo.Ledger)
    requires EnabledRun(s, ops)
    requires l.accepted == [] + Accepted(s, ops) && l.delivered == [] + Delivered(s, ops)
    requires l.refused == [] + Refused(s, ops) && l.dropped == [] + Dropped(s, ops)
    ensures Recorded(s, ops, l)
  {}

  /** In every reachable state a write drops a record exactly when the ring and its queue hold all they can. */
  lemma DropsOnlyWhenFull(capacity: nat, maxOverflow: nat, ops: seq<Op>, r: Record) returns (s: Ring)
    requires Capacity(capacity) && EnabledRun(NewRing(capacity, maxOverflow), ops) && FitsSlot(r)
    ensures s == Run(NewRing(capacity, maxOverflow), ops) && SlotRing.Shape(s)
    ensures DroppedBy(s, WriteOp(r)) != [] <==>
              WrappingSub(s.prodSeq, s.consSeq) == capacity && |s.overflow| == maxOverflow
    ensures DroppedBy(s, WriteOp(r)) != [] ==> DroppedBy(s, WriteOp(r)) == [(s.overflow + [r])[0]]
  {
    var c, p, l;
    s, c, p, l := RingConserves(capacity, maxOverflow, ops);
    RunLimits(NewRing(capacity, maxOverflow), ops);
    DropIff(s, c, p, l.q, r);
  }

  lemma DropIff(s: Ring, c: nat, p: nat, q: Fifo.Queue, r: Record)
    requires Window(s, c, p) && q == Abs(s, c, p) && Fifo.Bounded(q, LimitsOf(s))
    ensures DroppedBy(s, WriteOp(r)) != [] <==>
          WrappingSub(s.prodSeq, s.consSeq) == s.capacity && |s.overflow| == s.maxOverflow
  {
    RoomIffNotFull(s, c, p);
  }

  lemma {:induction false} RunLimits(s: Ring, ops: seq<Op>)
    requires EnabledRun(s, ops)
    ensures Run(s, ops).capacity == s.capacity && Run(s, ops).maxOverflow == s.maxOverflow
    decreases |ops|
  {
    if ops != [] {
      if ops[0].ReadOp? {
        ReadLimits(s);
      }
      RunLimits(Apply(s, ops[0]).1, ops[1..]);
    }
  }

  lemma EmptyOrdered()
    ensures Fifo.Ordered(Fifo.EMPTY) && Fifo.Conserved(Fifo.EMPTY)
  {
    assert Fifo.Embeds([], [], []);
  }
}
