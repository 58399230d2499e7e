/** What a reservation dropped without a commit leaves behind: a slot anyone may take, and a number nobody reads. */
module RingRelease {
  import opened Bytes
  import opened Records
  import opened Sequences
  import opened SlotRing
  import Fifo

  lemma ReleaseShape(s: Ring, i: nat)
    requires Shape(s) && i < s.capacity
    ensures Shape(Release(s, i))
  {
    forall k | 0 <= k < |s.cells| ensures CellOk(Release(s, i).cells[k]) {
      assert CellOk(s.cells[k]);
    }
    forall k | 0 <= k < |s.overflow| ensures FitsSlot(Release(s, i).overflow[k]) {
      assert FitsSlot(s.overflow[k]);
    }
  }

  /** The consumer stops at the slot as it would have stopped at the reservation. */
  lemma TurnSkips(s: Ring, i: nat)
    requires Shape(s) && i < s.capacity && s.slots[i].state.Reserved?
    ensures Shape(Release(s, i)) && CanConsume(Release(s, i)) == CanConsume(s)
    ensures HeadRecord(Release(s, i)) == HeadRecord(s)
    ensures CanConsume(s) ==>
              ConsumeOne(Release(s, i)) == Release(ConsumeOne(s), i) && ConsumeOne(s).slots[i].state.Reserved?
  {
    ReleaseShape(s, i);
  }

  /** One turn on both rings. */
  lemma TurnTogether(s: Ring, i: nat) returns (s1: Ring)
    requires Shape(s) && i < s.capacity && s.slots[i].state.Reserved? && CanConsume(s)
    ensures s1 == ConsumeOne(s) && Shape(s1) && i < s1.capacity && s1.slots[i].state.Reserved?
    ensures Shape(Release(s, i)) && CanConsume(Release(s, i)) && HeadRecord(Release(s, i)) == HeadRecord(s)
    ensures ConsumeOne(Release(s, i)) == Release(s1, i)
  {
    TurnSkips(s, i);
    s1 := ConsumeOne(s);
  }

  /** The read loop meets the same entries as with the reservation still there, and stops at the same one. */
  lemma {:induction false} MeetsSame(s: Ring, i: nat, es: seq<Fifo.Entry>, r: Ring)
    requires Shape(s) && Meets(s, es) && i < s.capacity && s.slots[i].state.Reserved? && r == Release(s, i)
    ensures Shape(r) && Meets(r, es) && Behind(r, es).consSeq == Behind(s, es).consSeq
    decreases |es|
  {
    TurnSkips(s, i);
    if es != [] && es[0].committed {
      var s1 := TurnTogether(s, i);
      MeetsSame(s1, i, es[1..], Release(s1, i));
    }
  }

  /** The committed prefix ends at the latest before an uncommitted number. */
  lemma PrefixBefore(es: seq<Fifo.Entry>, i: nat) returns (k: nat)
    requires i < |es| && !es[i].committed
    ensures k == Fifo.Ready(es) <= i && Fifo.Returns(es) == Fifo.Valid(es[..k])
  {
    Fifo.ReadyIsLongest(es);
    Fifo.PrefixTaken(es);
    k := Fifo.Ready(es);
  }

  lemma StopsBehind(s: Ring, c: nat, p: nat, es: seq<Fifo.Entry>)
    requires Window(s, c, p) && es == Entries(s, c, p)
    ensures Meets(s, es) && Behind(s, es).consSeq == (c + Fifo.Ready(es)) % TWO64
  {
    WindowMeets(s, c, p, es);
    var t, left, n, c' := BehindWindow(s, c, p, es);
  }

  /**
   After the reservation of number `n` is dropped, a read returns records of the numbers before it
   at most, and stops at it at the latest.
   */
  lemma DroppedNotRead(s: Ring, c: nat, p: nat, n: nat, es: seq<Fifo.Entry>)
    returns (s': Ring, out: seq<Record>, t: Ring, k: nat)
    requires Window(s, c, p) && c <= n < p && SlotOf(s, n).state.Reserved? && es == Entries(s, c, p)
    ensures s' == Release(s, Index(n, s.capacity)) && Shape(s')
    ensures out == Read(s').0 && k <= n - c && out == Fifo.Valid(es[..k])
    ensures t == ConsumeLoop(s', s'.capacity).1 && t.consSeq == (c + k) % TWO64
  {
    UncommittedAt(s, c, p, n, es);
    s' := ReleasedMeets(s, c, p, Index(n, s.capacity), es);
    out, t, k := ReadStops(s', es, n - c, c);
  }

  lemma ReadStops(s: Ring, es: seq<Fifo.Entry>, i: nat, c: nat) returns (out: seq<Record>, t: Ring, k: nat)
    requires Shape(s) && Meets(s, es) && |es| <= s.capacity && Behind(s, es).consSeq == (c + Fifo.Ready(es)) % TWO64
    requires i < |es| && !es[i].committed
    ensures out == Read(s).0 && k <= i && out == Fifo.Valid(es[..k])
    ensures t == ConsumeLoop(s, s.capacity).1 && t.consSeq == (c + k) % TWO64
  {
    out, t := ReadMeets(s, es);
    k := PrefixBefore(es, i);
  }

  lemma ReleasedMeets(s: Ring, c: nat, p: nat, i: nat, es: seq<Fifo.Entry>) returns (s': Ring)
    requires Window(s, c, p) && es == Entries(s, c, p) && i < s.capacity && s.slots[i].state.Reserved?
    ensures s' == Release(s, i) && Shape(s') && Meets(s', es) && |es| <= s'.capacity
    ensures Behind(s', es).consSeq == (c + Fifo.Ready(es)) % TWO64
  {
    s' := Release(s, i);
    StopsBehind(s, c, p, es);
    MeetsSame(s, i, es, s');
  }

  lemma UncommittedAt(s: Ring, c: nat, p: nat, n: nat, es: seq<Fifo.Entry>)
    requires Window(s, c, p) && c <= n < p && SlotOf(s, n).state.Reserved? && es == Entries(s, c, p)
    ensures !es[n - c].committed
  {
    EntryAt(s, c, p, n);
  }

  lemma ReadMeets(s: Ring, es: seq<Fifo.Entry>) returns (out: seq<Record>, t: Ring)
    requires Shape(s) && Meets(s, es) && |es| <= s.capacity
    ensures t == Behind(s, es) && t == ConsumeLoop(s, s.capacity).1 && out == Read(s).0 && out == Fifo.Returns(es)
  {
    t := Behind(s, es);
    out := LoopIs(s, s.capacity, es, t);
  }

  /**
   Every number that falls on the slot of the dropped one finds it Empty, so that a full ring has
   room again when it is the slot's turn.
   */
  lemma DroppedIsFree(s: Ring, c: nat, p: nat, n: nat)
    requires Window(s, c, p) && c <= n < p && SlotOf(s, n).state.Reserved?
    ensures forall q {:trigger Index(q, s.capacity)} :: Index(q, s.capacity) == Index(n, s.capacity) ==>
              HasRoom(Release(s, Index(n, s.capacity)).(prodSeq := q))
    ensures p == n + s.capacity ==> !HasRoom(s) && HasRoom(Release(s, Index(n, s.capacity)))
  {
    RoomIffNotFull(s, c, p);
    IndexNextLap(n, s.capacity);
  }

  /**
   A reservation ends once: after its commit neither a drop nor another commit changes anything,
   nor after its drop.
  */
  lemma EndsOnce(s: Ring, i: nat, n: nat)
    requires i < |s.slots| && s.slots[i].state.Reserved?
    ensures Commit(s, i, n).slots[i] == Slot(Ready, n) && Release(s, i).slots[i].state.Empty?
    ensures Release(Commit(s, i, n), i) == Commit(s, i, n) && Commit(Commit(s, i, n), i, n) == Commit(s, i, n)
    ensures Commit(Release(s, i), i, n) == Release(s, i) && Release(Release(s, i), i) == Release(s, i)
  {}
}
