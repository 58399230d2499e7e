/** What the volatile ring is for: every record made and written is delivered, in order and unchanged. */
module RingDelivery {
  import opened Bytes
  import opened Records
  import opened Sequences
  import opened SlotRing
  import RingRuns
  import Fifo

  /** A record as the constructor makes it, of at most the 232 bytes a slot takes. */
  ghost predicate IsNew(r: Record) {
    exists data: seq<byte>, tag: u32, now: u64 :: |data| <= 232 && r == NewRecord(data, tag, now)
  }

  /** Only reads, and writes of new records. */
  ghost predicate NewOps(ops: seq<RingRuns.Op>) {
    forall op :: op in ops ==> op.ReadOp? || (op.WriteOp? && IsNew(op.record))
  }

  /** A new record keeps its checksum and fits a slot. */
  lemma NewFits(r: Record)
    requires IsNew(r)
    ensures FitsSlot(r) && Fifo.Sound(r)
  {}

  lemma NewArePlain(ops: seq<RingRuns.Op>)
    requires NewOps(ops)
    ensures forall op :: op in ops ==> RingRuns.PlainOp(op)
  {
    forall op | op in ops ensures RingRuns.PlainOp(op) {
      if op.WriteOp? {
        NewFits(op.record);
      }
    }
  }

  lemma {:induction false} AcceptedNew(s: Ring, ops: seq<RingRuns.Op>)
    requires RingRuns.EnabledRun(s, ops) && NewOps(ops)
    ensures forall r :: r in RingRuns.Accepted(s, ops) ==> IsNew(r)
    decreases |ops|
  {
    if ops != [] {
      assert ops[0] in ops;
      AcceptedNew(RingRuns.Apply(s, ops[0]).1, ops[1..]);
    }
  }

  /** Records all accepted new are never refused. */
  lemma NoneRefused(l: Fifo.Ledger)
    requires Fifo.Conserved(l) && (forall r :: r in l.accepted ==> IsNew(r))
    requires forall r :: r in l.refused ==> !Fifo.Sound(r)
    ensures l.refused == []
  {
    if l.refused != [] {
      var r := l.refused[0];
      assert r in multiset(l.refused);
      assert r in multiset(l.accepted);
      NewFits(r);
    }
  }

  lemma {:induction false} AllReady(ring: seq<Fifo.Entry>)
    requires Fifo.AllCommitted(ring)
    ensures Fifo.Ready(ring) == |ring| && Fifo.Committed(ring) == Fifo.RecordsOf(ring)
  {
    if ring != [] {
      AllReady(ring[1..]);
    }
  }

  lemma PendingInBooks(l: Fifo.Ledger, pending: seq<Record>)
    requires Fifo.Conserved(l) && l.refused == [] && Fifo.AllCommitted(l.q.ring) && pending == Fifo.Line(l.q)
    ensures multiset(l.accepted) == multiset(l.delivered) + multiset(l.dropped) + multiset(pending)
  {
    AllReady(l.q.ring);
  }

  /** A read of sound committed records returns as many of the pending ones as the ring holds. */
  lemma ReadTakesPending(q: Fifo.Queue, lim: Fifo.Limits, pending: seq<Record>)
    requires Fifo.Bounded(q, lim) && Fifo.AllCommitted(q.ring) && pending == Fifo.Line(q) && Fifo.AllSound(pending)
    ensures Fifo.Read(q, lim).0 == pending[..Min(|pending|, lim.capacity)]
  {
    AllReady(q.ring);
    Fifo.ReadSound(q, lim);
    assert q.ring[..|q.ring|] == q.ring;
    assert pending[..|q.ring|] == Fifo.RecordsOf(q.ring);
    assert q.overflow == [] ==> |pending| == |q.ring|;
  }

  /**
   Over every run of reads and of writes of new records, from a new ring: nothing is refused; what
   was delivered followed by what is pending is what was written, in order and without the dropped
   records; and the next read returns the pending records, up to the capacity of the ring.
   */
  lemma NewRecordsDelivered(capacity: nat, maxOverflow: nat, ops: seq<RingRuns.Op>)
    returns (s: Ring, pending: seq<Record>)
    requires Capacity(capacity) && RingRuns.EnabledRun(RingRuns.NewRing(capacity, maxOverflow), ops) && NewOps(ops)
    ensures s == RingRuns.Run(RingRuns.NewRing(capacity, maxOverflow), ops) && Shape(s)
    ensures Read(s).0 == pending[..Min(|pending|, capacity)]
    ensures Balanced(RingRuns.NewRing(capacity, maxOverflow), ops, pending)
  {
    var n := RingRuns.NewRing(capacity, maxOverflow);
    var c, p, l;
    NewArePlain(ops);
    s, c, p, l := RingRuns.RingConserves(capacity, maxOverflow, ops);
    AcceptedNew(n, ops);
    NoneRefused(l);
    pending := Fifo.Line(l.q);
    PendingInBooks(l, pending);
    RingRuns.RunLimits(n, ops);
    ReadTakesPending(l.q, LimitsOf(s), pending);
    var _, _ := ReadRefines(s, c, p);
  }

  /** The books of a run in which nothing is refused. */
  ghost predicate Balanced(n: Ring, ops: seq<RingRuns.Op>, pending: seq<Record>)
    requires RingRuns.EnabledRun(n, ops)
  {
    var given, out, lost := RingRuns.Accepted(n, ops), RingRuns.Delivered(n, ops), RingRuns.Dropped(n, ops);
    && RingRuns.Refused(n, ops) == []
    && Fifo.Subsequence(out + pending, given)
    && multiset(given) == multiset(out) + multiset(lost) + multiset(pending)
    && (lost == [] ==> out + pending == given)
  }

  lemma OneRead(q: Fifo.Queue, lim: Fifo.Limits, r: Record)
    requires lim.capacity > 0 && q == Fifo.Write(Fifo.Queue([], []), lim, r) && Fifo.Sound(r)
    ensures Fifo.Read(q, lim).0 == [r]
  {
    assert Fifo.Line(q) == [r];
    ReadTakesPending(q, lim, [r]);
  }

  /** A record written to an empty ring is what the next read returns. */
  lemma WrittenThenRead(capacity: nat, maxOverflow: nat, data: seq<byte>, tag: u32, now: u64) returns (n: Ring)
    requires Capacity(capacity) && |data| <= 232
    ensures n == RingRuns.NewRing(capacity, maxOverflow) && Shape(n) && FitsSlot(NewRecord(data, tag, now))
    ensures Read(Write(n, NewRecord(data, tag, now))).0 == [NewRecord(data, tag, now)]
  {
    n := RingRuns.NewRing(capacity, maxOverflow);
    var r := NewRecord(data, tag, now);
    RingRuns.NewWindow(capacity, maxOverflow);
    assert IsNew(r);
    NewFits(r);
    var p := WriteRefines(n, 0, 0, r);
    var s := Write(n, r);
    var _, _ := ReadRefines(s, 0, p);
    assert LimitsOf(s) == LimitsOf(n);
    OneRead(Abs(s, 0, p), LimitsOf(n), r);
  }
}
