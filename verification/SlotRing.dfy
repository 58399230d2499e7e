/**
 The volatile ring as a value: slot states and sequence numbers, slot contents, the two 64-bit
 counters and the overflow queue. Each operation of src/memory/volatile.rs is a function on
 it, shown to act on the abstract queue of Fifo.dfy.
 */
module SlotRing {
  import opened Bytes
  import opened Records
  import opened Sequences
  import Fifo

  /** A 256-byte slot leaves 232 bytes behind the padded header. */
  const SLOT_SIZE: nat := 256
  const DATA_SIZE: nat := SLOT_SIZE - HEADER_SIZE

  datatype SlotState = Empty | Reserved | Ready | Consumed

  datatype Slot = Slot(state: SlotState, number: nat)

  /** The contents of a slot: the header struct and the bytes behind it. */
  datatype Cell = Cell(header: RecordHeader, bytes: seq<byte>)

  ghost predicate CellOk(c: Cell) {
    |c.bytes| == DATA_SIZE && c.header.size <= DATA_SIZE
  }

  /** The header describes the data and both fit a slot. */
  predicate FitsSlot(r: Record) {
    |r.data| <= DATA_SIZE && r.header.size == |r.data|
  }

  /** `Reservation::write`: the header and the data replace the front of the slot. */
  function StoreCell(c: Cell, r: Record): Cell
    requires |r.data| <= |c.bytes|
  {
    Cell(r.header, r.data + c.bytes[|r.data|..])
  }

  /** The copy `read` makes: as many bytes as the header says. */
  function LoadCell(c: Cell): Record
    requires c.header.size <= |c.bytes|
  {
    Record(c.header, c.bytes[..c.header.size])
  }

  lemma LoadStored(c: Cell, r: Record)
    requires CellOk(c) && FitsSlot(r)
    ensures CellOk(StoreCell(c, r)) && LoadCell(StoreCell(c, r)) == r
  {}

  datatype Ring = Ring(slots: seq<Slot>, cells: seq<Cell>, prodSeq: nat, consSeq: nat, capacity: nat,
                       overflow: seq<Record>, maxOverflow: nat)

  ghost predicate Shape(s: Ring) {
    && Capacity(s.capacity)
    && |s.slots| == |s.cells| == s.capacity
    && (forall i {:trigger CellOk(s.cells[i])} :: 0 <= i < |s.cells| ==> CellOk(s.cells[i]))
    && (forall i {:trigger FitsSlot(s.overflow[i])} :: 0 <= i < |s.overflow| ==> FitsSlot(s.overflow[i]))
  }

  // ---- Operations ----

  /** The slot the next reservation probes. */
  function Probed(s: Ring): (i: nat)
    requires s.capacity > 0
    ensures i < s.capacity
  {
    Index(s.prodSeq, s.capacity)
  }

  predicate HasRoom(s: Ring)
    requires |s.slots| == s.capacity > 0
  {
    s.slots[Probed(s)].state.Empty?
  }

  /** A successful reservation: the slot is taken, numbered, and the counter moves on. */
  function Reserve(s: Ring): Ring
    requires |s.slots| == s.capacity > 0
  {
    s.(slots := s.slots[Probed(s) := Slot(Reserved, s.prodSeq)], prodSeq := Succ(s.prodSeq))
  }

  function Fill(s: Ring, i: nat, r: Record): Ring
    requires i < |s.cells| && |r.data| <= |s.cells[i].bytes|
  {
    s.(cells := s.cells[i := StoreCell(s.cells[i], r)])
  }

  /** `commit`: Reserved becomes Ready; any other state is left alone. */
  function Commit(s: Ring, i: nat, seqNo: nat): Ring
    requires i < |s.slots|
  {
    if s.slots[i].state.Reserved? then s.(slots := s.slots[i := Slot(Ready, seqNo)]) else s
  }

  /** Dropping an uncommitted reservation: Reserved becomes Empty, the counter stays. */
  function Release(s: Ring, i: nat): Ring
    requires i < |s.slots|
  {
    if s.slots[i].state.Reserved? then s.(slots := s.slots[i := s.slots[i].(state := Empty)]) else s
  }

  /** Reserve, fill and commit without interruption. */
  function WriteDirect(s: Ring, r: Record): (s': Ring)
    requires Shape(s) && FitsSlot(r)
    ensures s'.capacity == s.capacity && s'.overflow == s.overflow && s'.maxOverflow == s.maxOverflow
  {
    var i := Probed(s);
    assert CellOk(s.cells[i]);
    Commit(Fill(Reserve(s), i, r), i, s.prodSeq)
  }

  /** `write`: directly when the probed slot is empty, otherwise into the overflow queue. */
  function Write(s: Ring, r: Record): Ring
    requires Shape(s) && FitsSlot(r)
  {
    if HasRoom(s) then WriteDirect(s, r)
    else if |s.overflow| < s.maxOverflow then s.(overflow := s.overflow + [r])
    else if s.overflow != [] then s.(overflow := s.overflow[1..] + [r])
    else s
  }

  /** The next slot is ready and carries the consumer's number. */
  predicate CanConsume(s: Ring)
    requires |s.slots| == s.capacity > 0
  {
    s.slots[Index(s.consSeq, s.capacity)] == Slot(Ready, s.consSeq)
  }

  /** One turn of the read loop: the slot is recycled and the counter moves on. */
  function ConsumeOne(s: Ring): (s': Ring)
    requires |s.slots| == s.capacity > 0
    ensures |s'.slots| == s'.capacity == s.capacity
  {
    var i := Index(s.consSeq, s.capacity);
    s.(slots := s.slots[i := s.slots[i].(state := Empty)], consSeq := Succ(s.consSeq))
  }

  function HeadRecord(s: Ring): Record
    requires Shape(s)
  {
    var i := Index(s.consSeq, s.capacity);
    assert CellOk(s.cells[i]);
    LoadCell(s.cells[i])
  }

  /** The read loop over at most `budget` slots: the records whose checksum holds, and the new state. */
  function ConsumeLoop(s: Ring, budget: nat): (res: (seq<Record>, Ring))
    requires Shape(s)
    ensures Shape(res.1) && res.1.overflow == s.overflow && res.1.capacity == s.capacity
    ensures res.1.maxOverflow == s.maxOverflow && res.1.prodSeq == s.prodSeq
    decreases budget, s
  {
    if budget == 0 || !CanConsume(s) then ([], s) else
      var r := HeadRecord(s);
      var rest := ConsumeLoop(ConsumeOne(s), budget - 1);
      ((if Fifo.Sound(r) then [r] else []) + rest.0, rest.1)
  }

  /** The refill loop: move waiting records into the ring while it has room. */
  function RefillLoop(s: Ring): (t: Ring)
    requires Shape(s)
    ensures Shape(t)
    decreases |s.overflow|
  {
    if s.overflow == [] || !HasRoom(s) then s else
      assert FitsSlot(s.overflow[0]);
      var s' := s.(overflow := s.overflow[1..]);
      TailShape(s);
      WriteShape(s', s.overflow[0]);
      RefillLoop(WriteDirect(s', s.overflow[0]))
  }

  lemma TailShape(s: Ring)
    requires Shape(s) && s.overflow != []
    ensures Shape(s.(overflow := s.overflow[1..]))
  {
    forall i | 0 <= i < |s.overflow| - 1 ensures FitsSlot(s.overflow[1..][i]) {
      assert FitsSlot(s.overflow[i + 1]);
    }
  }

  lemma WriteShape(s: Ring, r: Record)
    requires Shape(s) && FitsSlot(r)
    ensures Shape(WriteDirect(s, r))
  {
    var i := Probed(s);
    assert CellOk(s.cells[i]);
    LoadStored(s.cells[i], r);
    var s' := WriteDirect(s, r);
    forall k | 0 <= k < |s'.cells| ensures CellOk(s'.cells[k]) {
      if k != i {
        assert CellOk(s.cells[k]);
      }
    }
  }

  /** `read`: consume up to `capacity` slots; if the counter moved, refill from the overflow queue. */
  function Read(s: Ring): (out: (seq<Record>, Ring))
    requires Shape(s)
    ensures Shape(out.1)
  {
    var res := ConsumeLoop(s, s.capacity);
    (res.0, if CanConsume(s) then RefillLoop(res.1) else s)
  }

  // ---- The window invariant ----

  function SlotOf(s: Ring, n: nat): Slot
    requires |s.slots| == s.capacity > 0
  {
    s.slots[Index(n, s.capacity)]
  }

  ghost predicate Live(s: Ring, n: nat)
    requires |s.slots| == s.capacity > 0
  {
    (SlotOf(s, n).state.Reserved? || SlotOf(s, n).state.Ready?) && SlotOf(s, n).number == n % TWO64
  }

  /**
   The counters, unwrapped, are `c` and `p`: each number from `c` to `p` sits in its own slot
   and carries its (wrapped) sequence number, and every other slot is empty.
   */
  ghost predicate Window(s: Ring, c: nat, p: nat) {
    && Shape(s)
    && c <= p <= c + s.capacity
    && s.consSeq == c % TWO64 && s.prodSeq == p % TWO64
    && (forall n {:trigger Live(s, n)} :: c <= n < p ==> Live(s, n))
    && (forall n {:trigger SlotOf(s, n)} :: p <= n < c + s.capacity ==> SlotOf(s, n).state.Empty?)
  }

  function EntryOf(s: Ring, n: nat): Fifo.Entry
    requires Shape(s)
  {
    assert CellOk(s.cells[Index(n, s.capacity)]);
    Fifo.Entry(LoadCell(s.cells[Index(n, s.capacity)]), SlotOf(s, n).state.Ready?)
  }

  /** The entries of the numbers from `c` to `p`. */
  ghost function Entries(s: Ring, c: nat, p: nat): (es: seq<Fifo.Entry>)
    requires Shape(s) && c <= p
    ensures |es| == p - c
    decreases p - c
  {
    if c == p then [] else [EntryOf(s, c)] + Entries(s, c + 1, p)
  }

  lemma {:induction false} EntryAt(s: Ring, c: nat, p: nat, n: nat)
    requires Shape(s) && c <= n < p
    ensures Entries(s, c, p)[n - c] == EntryOf(s, n)
    decreases p - c
  {
    if c < n {
      EntryAt(s, c + 1, p, n);
    }
  }

  /** Entries depend only on the slots of their own numbers. */
  lemma {:induction false} EntriesSame(s: Ring, s': Ring, c: nat, p: nat)
    requires Shape(s) && Shape(s') && c <= p
    requires forall n :: c <= n < p ==> EntryOf(s', n) == EntryOf(s, n)
    ensures Entries(s', c, p) == Entries(s, c, p)
    decreases p - c
  {
    if c < p {
      EntriesSame(s, s', c + 1, p);
    }
  }

  lemma {:induction false} EntriesSplit(s: Ring, c: nat, m: nat, p: nat)
    requires Shape(s) && c <= m <= p
    ensures Entries(s, c, p) == Entries(s, c, m) + Entries(s, m, p)
    decreases m - c
  {
    if c < m {
      EntriesSplit(s, c + 1, m, p);
    }
  }

  /** The abstract queue a ring stands for. */
  ghost function Abs(s: Ring, c: nat, p: nat): Fifo.Queue
    requires Shape(s) && c <= p
  {
    Fifo.Queue(Entries(s, c, p), s.overflow)
  }

  ghost function LimitsOf(s: Ring): Fifo.Limits {
    Fifo.Limits(s.capacity, s.maxOverflow)
  }

  /** The probed slot is empty exactly when fewer than `capacity` numbers are in use. */
  lemma RoomIffNotFull(s: Ring, c: nat, p: nat)
    requires Window(s, c, p)
    ensures HasRoom(s) <==> p < c + s.capacity
    ensures Probed(s) == Index(p, s.capacity)
    ensures WrappingSub(s.prodSeq, s.consSeq) == p - c <= s.capacity
  {
    IndexOfWrapped(p, s.capacity);
    WrappedDistance(p, c);
    if p < c + s.capacity {
      assert SlotOf(s, p).state.Empty?;
    } else {
      IndexNextLap(c, s.capacity);
      assert Live(s, c);
    }
  }

  /** The consumer can proceed exactly when the oldest number is committed. */
  lemma ConsumeIffCommitted(s: Ring, c: nat, p: nat)
    requires Window(s, c, p)
    ensures CanConsume(s) <==> c < p && EntryOf(s, c).committed
    ensures Index(s.consSeq, s.capacity) == Index(c, s.capacity)
  {
    IndexOfWrapped(c, s.capacity);
    if c < p {
      assert Live(s, c);
    } else {
      assert SlotOf(s, c).state.Empty?;
    }
  }

  /** Slots in use in percent. */
  function Usage(s: Ring): real
    requires s.capacity > 0
  {
    Level(WrappingSub(s.prodSeq, s.consSeq), s.capacity)
  }

  function Level(used: nat, capacity: nat): real
    requires capacity > 0
  {
    (used as real / capacity as real) * 100.0
  }

  /**
   In every reachable state the usage is proportional to the numbers in use, and between 0 and
   100, which it is exactly when full.
  */
  lemma UsageCounts(s: Ring, c: nat, p: nat)
    requires Window(s, c, p)
    ensures Usage(s) == Level(p - c, s.capacity) && 0.0 <= Usage(s) <= 100.0
    ensures Usage(s) == 100.0 <==> !HasRoom(s)
    ensures Usage(s) * s.capacity as real == 100.0 * (p - c) as real
    ensures 2 * (p - c) == s.capacity ==> Usage(s) == 50.0
  {
    var used := UsageLevel(s, c, p);
    LevelBounds(used, s.capacity);
    LevelLinear(used, s.capacity);
  }

  lemma UsageLevel(s: Ring, c: nat, p: nat) returns (used: nat)
    requires Window(s, c, p)
    ensures used == p - c <= s.capacity && Usage(s) == Level(used, s.capacity) && (HasRoom(s) <==> used < s.capacity)
  {
    RoomIffNotFull(s, c, p);
    used := p - c;
  }

  /** The level is proportional to the slots in use: half of them are 50. */
  lemma LevelLinear(used: nat, capacity: nat)
    requires capacity > 0
    ensures Level(used, capacity) * capacity as real == 100.0 * used as real
    ensures 2 * used == capacity ==> Level(used, capacity) == 50.0
  {
    var q := used as real / capacity as real;
    Ratio(q, used as real, capacity as real);
    assert 2 * used == capacity ==> 2.0 * used as real == capacity as real;
  }

  lemma Ratio(q: real, u: real, c: real)
    requires c > 0.0 && q == u / c
    ensures (q * 100.0) * c == 100.0 * u
    ensures 2.0 * u == c ==> q * 100.0 == 50.0
  {
    assert q * c == u;
    Scale(q, c);
    if 2.0 * u == c {
      Half(q, c);
    }
  }

  lemma Scale(q: real, c: real)
    ensures (q * 100.0) * c == 100.0 * (q * c)
  {}

  lemma Half(q: real, c: real)
    requires c > 0.0 && 2.0 * (q * c) == c
    ensures q == 0.5
  {
    assert c * (2.0 * q - 1.0) == 0.0;
  }

  lemma LevelBounds(used: nat, capacity: nat)
    requires used <= capacity && capacity > 0
    ensures 0.0 <= Level(used, capacity) <= 100.0 && (Level(used, capacity) == 100.0 <==> used == capacity)
  {
    var q := used as real / capacity as real;
    assert q * capacity as real == used as real;
    assert q > 1.0 ==> q * capacity as real > capacity as real;
  }

  // ---- Each operation acts on the abstract queue ----

  /** Changing the slot of one number leaves the other numbers of the window alone. */
  lemma OtherSlots(s: Ring, s': Ring, c: nat, m: nat, n: nat)
    requires |s.slots| == s.capacity > 0 && |s'.slots| == s'.capacity == s.capacity
    requires |s.cells| == |s'.cells| == s.capacity
    requires c <= m < c + s.capacity && c <= n < c + s.capacity && n != m
    requires forall i :: 0 <= i < s.capacity && i != Index(m, s.capacity) ==>
                s'.slots[i] == s.slots[i] && s'.cells[i] == s.cells[i]
    ensures SlotOf(s', n) == SlotOf(s, n) && s'.cells[Index(n, s.capacity)] == s.cells[Index(n, s.capacity)]
  {
    IndexDistinctEither(m, n, s.capacity);
  }

  /** The states differ at most in the slot of `m`. */
  ghost predicate OnlyAt(s: Ring, s': Ring, m: nat) {
    && Shape(s) && Shape(s') && s'.capacity == s.capacity
    && forall i :: 0 <= i < s.capacity && i != Index(m, s.capacity) ==>
          s'.slots[i] == s.slots[i] && s'.cells[i] == s.cells[i]
  }

  /** Entries of numbers other than `m` do not change. */
  lemma EntriesAway(s: Ring, s': Ring, c: nat, m: nat, lo: nat, hi: nat)
    requires OnlyAt(s, s', m) && c <= m < c + s.capacity && c <= lo <= hi <= c + s.capacity && !(lo <= m < hi)
    ensures Entries(s', lo, hi) == Entries(s, lo, hi)
  {
    forall n | lo <= n < hi ensures EntryOf(s', n) == EntryOf(s, n) {
      OtherSlots(s, s', c, m, n);
    }
    EntriesSame(s, s', lo, hi);
  }

  lemma EntriesUpdate(s: Ring, s': Ring, c: nat, p: nat, m: nat)
    requires OnlyAt(s, s', m) && c <= m < p <= c + s.capacity
    ensures Entries(s', c, p) == Entries(s, c, p)[m - c := EntryOf(s', m)]
  {
    EntriesAway(s, s', c, m, c, m);
    EntriesAway(s, s', c, m, m + 1, p);
    EntriesAround(s, c, p, m, Entries(s, c, m), Entries(s, m + 1, p));
    EntriesAround(s', c, p, m, Entries(s, c, m), Entries(s, m + 1, p));
    UpdateMiddle(Entries(s, c, m), EntryOf(s, m), Entries(s, m + 1, p), EntryOf(s', m));
  }

  lemma EntriesAround(s: Ring, c: nat, p: nat, m: nat, x: seq<Fifo.Entry>, y: seq<Fifo.Entry>)
    requires Shape(s) && c <= m < p && x == Entries(s, c, m) && y == Entries(s, m + 1, p)
    ensures Entries(s, c, p) == x + ([EntryOf(s, m)] + y)
  {
    EntriesSplit(s, c, m, p);
  }

  lemma UpdateMiddle(x: seq<Fifo.Entry>, e: Fifo.Entry, y: seq<Fifo.Entry>, e': Fifo.Entry)
    ensures (x + ([e] + y))[|x| := e'] == x + ([e'] + y)
  {}

  /** A window keeps its other numbers when only the slot of `m` changes. */
  lemma WindowUpdate(s: Ring, s': Ring, c: nat, p: nat, m: nat)
    requires Window(s, c, p) && OnlyAt(s, s', m) && c <= m < p
    requires s'.consSeq == s.consSeq && s'.prodSeq == s.prodSeq && Live(s', m)
    ensures Window(s', c, p)
  {
    forall n | c <= n < p ensures Live(s', n) {
      if n != m {
        assert Live(s, n);
        OtherSlots(s, s', c, m, n);
      }
    }
    forall n | p <= n < c + s.capacity ensures SlotOf(s', n).state.Empty? {
      assert SlotOf(s, n).state.Empty?;
      OtherSlots(s, s', c, m, n);
    }
  }

  lemma ReserveWindow(s: Ring, c: nat, p: nat)
    requires Window(s, c, p) && HasRoom(s)
    ensures Window(Reserve(s), c, p + 1) && Live(Reserve(s), p) && SlotOf(Reserve(s), p).state.Reserved?
    ensures OnlyAt(s, Reserve(s), p)
  {
    RoomIffNotFull(s, c, p);
    SuccWrapped(p);
    var s' := Reserve(s);
    forall n | c <= n < p + 1 ensures Live(s', n) {
      if n != p {
        assert Live(s, n);
        OtherSlots(s, s', c, p, n);
      }
    }
    forall n | p + 1 <= n < c + s.capacity ensures SlotOf(s', n).state.Empty? {
      assert SlotOf(s, n).state.Empty?;
      OtherSlots(s, s', c, p, n);
    }
  }

  lemma EntriesSnoc(s: Ring, c: nat, p: nat)
    requires Shape(s) && c <= p
    ensures Entries(s, c, p + 1) == Entries(s, c, p) + [EntryOf(s, p)]
  {
    EntriesSplit(s, c, p, p + 1);
    assert Entries(s, p, p + 1) == [EntryOf(s, p)] + Entries(s, p + 1, p + 1) == [EntryOf(s, p)];
  }

  /** `reserve` appends one uncommitted entry, showing what the slot last held. */
  lemma ReserveRefines(s: Ring, c: nat, p: nat)
    requires Window(s, c, p) && HasRoom(s)
    ensures Window(Reserve(s), c, p + 1)
    ensures Abs(Reserve(s), c, p + 1) == Fifo.Reserve(Abs(s, c, p), EntryOf(s, p).record)
  {
    RoomIffNotFull(s, c, p);
    ReserveWindow(s, c, p);
    EntriesAway(s, Reserve(s), c, p, c, p);
    EntriesSnoc(Reserve(s), c, p);
  }

  lemma FillShape(s: Ring, n: nat, r: Record)
    requires Shape(s) && FitsSlot(r)
    ensures |s.cells[Index(n, s.capacity)].bytes| == DATA_SIZE
    ensures OnlyAt(s, Fill(s, Index(n, s.capacity), r), n)
    ensures EntryOf(Fill(s, Index(n, s.capacity), r), n) == EntryOf(s, n).(record := r)
  {
    var i := Index(n, s.capacity);
    assert CellOk(s.cells[i]);
    LoadStored(s.cells[i], r);
    var s' := Fill(s, i, r);
    forall k | 0 <= k < |s'.cells| ensures CellOk(s'.cells[k]) {
      if k != i {
        assert CellOk(s.cells[k]);
      }
    }
  }

  /** Filling a reservation changes its own entry only. */
  lemma FillRefines(s: Ring, c: nat, p: nat, n: nat, r: Record)
    requires Window(s, c, p) && c <= n < p && FitsSlot(r)
    ensures |s.cells[Index(n, s.capacity)].bytes| == DATA_SIZE
    ensures var s' := Fill(s, Index(n, s.capacity), r);
            Window(s', c, p) && Abs(s', c, p) == Fifo.Put(Abs(s, c, p), n - c, r)
  {
    FillShape(s, n, r);
    var s' := Fill(s, Index(n, s.capacity), r);
    assert Live(s, n);
    WindowUpdate(s, s', c, p, n);
    EntriesUpdate(s, s', c, p, n);
    EntryAt(s, c, p, n);
  }

  /** Committing a reservation commits its own entry only. */
  lemma CommitRefines(s: Ring, c: nat, p: nat, n: nat)
    requires Window(s, c, p) && c <= n < p && SlotOf(s, n).state.Reserved?
    ensures var s' := Commit(s, Index(n, s.capacity), n % TWO64);
            Window(s', c, p) && Abs(s', c, p) == Fifo.Commit(Abs(s, c, p), n - c)
  {
    var s' := Commit(s, Index(n, s.capacity), n % TWO64);
    assert Live(s', n);
    WindowUpdate(s, s', c, p, n);
    EntriesUpdate(s, s', c, p, n);
    EntryAt(s, c, p, n);
  }

  lemma DirectRefines(s: Ring, c: nat, p: nat, r: Record)
    requires Window(s, c, p) && HasRoom(s) && FitsSlot(r)
    ensures Window(WriteDirect(s, r), c, p + 1)
    ensures Abs(WriteDirect(s, r), c, p + 1).ring == Abs(s, c, p).ring + [Fifo.Entry(r, true)]
  {
    RoomIffNotFull(s, c, p);
    ReserveRefines(s, c, p);
    ReserveWindow(s, c, p);
    var s1 := Reserve(s);
    FillRefines(s1, c, p + 1, p, r);
    var s2 := Fill(s1, Index(p, s.capacity), r);
    CommitRefines(s2, c, p + 1, p);
  }

  /** `write` is the abstract write. */
  lemma WriteRefines(s: Ring, c: nat, p: nat, r: Record) returns (p': nat)
    requires Window(s, c, p) && FitsSlot(r)
    ensures Window(Write(s, r), c, p')
    ensures Abs(Write(s, r), c, p') == Fifo.Write(Abs(s, c, p), LimitsOf(s), r)
  {
    RoomIffNotFull(s, c, p);
    var s' := Write(s, r);
    if HasRoom(s) {
      p' := p + 1;
      DirectRefines(s, c, p, r);
    } else {
      p' := p;
      OverflowWindow(s, s', c, p);
    }
  }

  /** The overflow queue does not touch the slots. */
  lemma OverflowWindow(s: Ring, s': Ring, c: nat, p: nat)
    requires Window(s, c, p) && s' == s.(overflow := s'.overflow)
    requires forall i :: 0 <= i < |s'.overflow| ==> FitsSlot(s'.overflow[i])
    ensures Window(s', c, p) && Entries(s', c, p) == Entries(s, c, p)
  {
    EntriesSame(s, s', c, p);
    forall n | c <= n < p ensures Live(s', n) {
      assert Live(s, n);
    }
    forall n | p <= n < c + s.capacity ensures SlotOf(s', n).state.Empty? {
      assert SlotOf(s, n) == SlotOf(s', n);
    }
  }

  lemma ConsumeWindow(s: Ring, c: nat, p: nat)
    requires Window(s, c, p) && CanConsume(s)
    ensures c < p && Window(ConsumeOne(s), c + 1, p)
  {
    ConsumeIffCommitted(s, c, p);
    SuccWrapped(c);
    var s' := ConsumeOne(s);
    forall n | c + 1 <= n < p ensures Live(s', n) {
      assert Live(s, n);
      OtherSlots(s, s', c, c, n);
    }
    forall n | p <= n < c + 1 + s.capacity ensures SlotOf(s', n).state.Empty? {
      if n == c + s.capacity {
        IndexNextLap(c, s.capacity);
      } else {
        assert SlotOf(s, n).state.Empty?;
        OtherSlots(s, s', c, c, n);
      }
    }
  }

  lemma ConsumeEntries(s: Ring, c: nat, p: nat)
    requires Window(s, c, p) && CanConsume(s)
    ensures c < p && Entries(ConsumeOne(s), c + 1, p) == Entries(s, c, p)[1..]
    ensures HeadRecord(s) == EntryOf(s, c).record
  {
    ConsumeIffCommitted(s, c, p);
    var s' := ConsumeOne(s);
    forall n | c + 1 <= n < p ensures EntryOf(s', n) == EntryOf(s, n) {
      OtherSlots(s, s', c, c, n);
    }
    EntriesSame(s, s', c + 1, p);
  }

  /** What the read loop returns when it takes the longest committed prefix of `es` and stops at `c'`. */
  ghost predicate Takes(out: seq<Record>, left: seq<Fifo.Entry>, es: seq<Fifo.Entry>, n: nat) {
    n == Fifo.Ready(es) && out == Fifo.Valid(es[..n]) && left == es[n..]
  }

  /** The read loop will meet the committed prefix of `es`, and stop behind it. */
  ghost predicate Meets(s: Ring, es: seq<Fifo.Entry>)
    requires Shape(s)
    decreases |es|
  {
    if es == [] || !es[0].committed then !CanConsume(s)
    else CanConsume(s) && HeadRecord(s) == es[0].record && Meets(ConsumeOne(s), es[1..])
  }

  lemma {:induction false} WindowMeets(s: Ring, c: nat, p: nat, es: seq<Fifo.Entry>)
    requires Window(s, c, p) && es == Entries(s, c, p)
    ensures Meets(s, es)
    decreases |es|
  {
    if CanConsume(s) {
      var s1, tail := HeadTail(s, c, p, es);
      WindowMeets(s1, c + 1, p, tail);
    } else {
      StopsAt(s, c, p);
    }
  }

  /** The state behind the committed prefix. */
  ghost function Behind(s: Ring, es: seq<Fifo.Entry>): Ring
    requires Shape(s) && Meets(s, es)
    decreases |es|
  {
    if es == [] || !es[0].committed then s else Behind(ConsumeOne(s), es[1..])
  }

  /** One turn of the read loop. */
  lemma ConsumeTurn(s: Ring, budget: nat, out: seq<Record>, t: Ring) returns (s1: Ring, rest: seq<Record>)
    requires Shape(s) && CanConsume(s) && budget > 0
    requires out == ConsumeLoop(s, budget).0 && t == ConsumeLoop(s, budget).1
    ensures s1 == ConsumeOne(s) && Shape(s1) && rest == ConsumeLoop(s1, budget - 1).0
    ensures t == ConsumeLoop(s1, budget - 1).1
    ensures out == (if Fifo.Sound(HeadRecord(s)) then [HeadRecord(s)] else []) + rest
  {
    s1 := ConsumeOne(s);
    rest := ConsumeLoop(s1, budget - 1).0;
  }

  /** The loop returns the sound records of the committed prefix and stops behind it. */
  lemma {:induction false} ConsumeReturns(s: Ring, budget: nat, es: seq<Fifo.Entry>, out: seq<Record>, t: Ring)
    requires Shape(s) && Meets(s, es) && |es| <= budget
    requires out == ConsumeLoop(s, budget).0 && t == ConsumeLoop(s, budget).1
    ensures out == Fifo.Returns(es) && t == Behind(s, es)
    decreases budget
  {
    if es != [] && es[0].committed {
      var s1, rest := ConsumeTurn(s, budget, out, t);
      ConsumeReturns(s1, budget - 1, es[1..], rest, t);
    }
  }

  /** Behind the committed prefix the window and its entries go on. */
  lemma {:induction false} BehindWindow(s: Ring, c: nat, p: nat, es: seq<Fifo.Entry>)
    returns (t: Ring, left: seq<Fifo.Entry>, n: nat, c': nat)
    requires Window(s, c, p) && es == Entries(s, c, p) && Meets(s, es)
    ensures t == Behind(s, es) && c' == c + n && Window(t, c', p) && left == Entries(t, c', p)
    ensures n == Fifo.Ready(es) && left == Fifo.Leaves(es)
    decreases |es|
  {
    if es != [] && es[0].committed {
      var s1, tail := HeadTail(s, c, p, es);
      var m;
      t, left, m, c' := BehindWindow(s1, c + 1, p, tail);
      n := m + 1;
    } else {
      t, left, n, c' := s, es, 0, c;
    }
  }

  /** The read loop takes exactly the longest committed prefix. */
  lemma ConsumeRefines(s: Ring, c: nat, p: nat, budget: nat)
    returns (out: seq<Record>, t: Ring, left: seq<Fifo.Entry>, n: nat, c': nat)
    requires Window(s, c, p) && p - c <= budget
    ensures out == ConsumeLoop(s, budget).0 && t == ConsumeLoop(s, budget).1
    ensures c' == c + n && Window(t, c', p) && left == Entries(t, c', p)
    ensures Takes(out, left, Entries(s, c, p), n)
  {
    var es := Entries(s, c, p);
    WindowMeets(s, c, p, es);
    t, left, n, c' := BehindWindow(s, c, p, es);
    out := LoopIs(s, budget, es, t);
    Fifo.PrefixTaken(es);
  }

  lemma LoopIs(s: Ring, budget: nat, es: seq<Fifo.Entry>, t: Ring) returns (out: seq<Record>)
    requires Shape(s) && Meets(s, es) && |es| <= budget && t == Behind(s, es)
    ensures out == ConsumeLoop(s, budget).0 && t == ConsumeLoop(s, budget).1 && out == Fifo.Returns(es)
  {
    out := ConsumeLoop(s, budget).0;
    ConsumeReturns(s, budget, es, out, ConsumeLoop(s, budget).1);
  }

  lemma HeadTail(s: Ring, c: nat, p: nat, es: seq<Fifo.Entry>) returns (s1: Ring, tail: seq<Fifo.Entry>)
    requires Window(s, c, p) && CanConsume(s) && es == Entries(s, c, p)
    ensures c < p && s1 == ConsumeOne(s) && Window(s1, c + 1, p)
    ensures es != [] && es[0] == Fifo.Entry(HeadRecord(s), true) && tail == es[1..] && tail == Entries(s1, c + 1, p)
  {
    ConsumeWindow(s, c, p);
    HeadEntry(s, c, p);
    s1, tail := ConsumeOne(s), es[1..];
  }

  lemma StopsAt(s: Ring, c: nat, p: nat)
    requires Window(s, c, p) && !CanConsume(s)
    ensures Takes([], Entries(s, c, p), Entries(s, c, p), 0)
  {
    ConsumeIffCommitted(s, c, p);
    NothingReady(Entries(s, c, p));
  }

  lemma HeadEntry(s: Ring, c: nat, p: nat)
    requires Window(s, c, p) && CanConsume(s)
    ensures c < p && Entries(s, c, p)[0] == Fifo.Entry(HeadRecord(s), true)
    ensures Entries(s, c, p)[1..] == Entries(ConsumeOne(s), c + 1, p)
  {
    ConsumeIffCommitted(s, c, p);
    ConsumeEntries(s, c, p);
    assert Entries(s, c, p)[0] == EntryOf(s, c);
  }

  lemma NothingReady(es: seq<Fifo.Entry>)
    requires es == [] || !es[0].committed
    ensures Fifo.Ready(es) == 0 && Fifo.Valid(es[..0]) == [] && es[0..] == es
  {
    assert es[..0] == [];
  }

  /** One waiting record moves into the ring. */
  lemma RefillStep(s: Ring, c: nat, p: nat) returns (t: Ring, q: Fifo.Queue)
    requires Window(s, c, p) && s.overflow != [] && HasRoom(s)
    ensures Window(t, c, p + 1) && |t.overflow| < |s.overflow| && RefillLoop(s) == RefillLoop(t)
    ensures LimitsOf(t) == LimitsOf(s)
    ensures q == Abs(t, c, p + 1) && Fifo.Refill(Abs(s, c, p), LimitsOf(s)) == Fifo.Refill(q, LimitsOf(s))
  {
    RoomIffNotFull(s, c, p);
    assert FitsSlot(s.overflow[0]);
    var s' := s.(overflow := s.overflow[1..]);
    TailShape(s);
    assert forall i :: 0 <= i < |s'.overflow| ==> FitsSlot(s'.overflow[i]);
    OverflowWindow(s, s', c, p);
    DirectRefines(s', c, p, s.overflow[0]);
    Fifo.RefillOne(Abs(s, c, p), LimitsOf(s));
    t := WriteDirect(s', s.overflow[0]);
    q := Abs(t, c, p + 1);
  }

  lemma RefillStops(s: Ring, c: nat, p: nat)
    requires Window(s, c, p) && (s.overflow == [] || !HasRoom(s))
    ensures RefillLoop(s) == s && Fifo.Refill(Abs(s, c, p), LimitsOf(s)) == Abs(s, c, p)
  {
    RoomIffNotFull(s, c, p);
    Fifo.RefillDone(Abs(s, c, p), LimitsOf(s));
  }

  lemma {:induction false} RefillRefines(s: Ring, c: nat, p: nat) returns (p': nat)
    requires Window(s, c, p)
    ensures Window(RefillLoop(s), c, p')
    ensures Abs(RefillLoop(s), c, p') == Fifo.Refill(Abs(s, c, p), LimitsOf(s))
    decreases |s.overflow|
  {
    if s.overflow == [] || !HasRoom(s) {
      RefillStops(s, c, p);
      p' := p;
    } else {
      var t, q := RefillStep(s, c, p);
      p' := RefillRefines(t, c, p + 1);
    }
  }

  /** `read` is the abstract read: it returns the longest committed prefix and refills behind it. */
  lemma ReadRefines(s: Ring, c: nat, p: nat) returns (c': nat, p': nat)
    requires Window(s, c, p)
    ensures Window(Read(s).1, c', p')
    ensures Read(s).0 == Fifo.Read(Abs(s, c, p), LimitsOf(s)).0
    ensures Abs(Read(s).1, c', p') == Fifo.Read(Abs(s, c, p), LimitsOf(s)).1
  {
    ConsumeIffCommitted(s, c, p);
    var out, t, left, n;
    out, t, left, n, c' := ConsumeRefines(s, c, p, s.capacity);
    if CanConsume(s) {
      p' := RefillRefines(t, c', p);
      ReadTaken(Abs(s, c, p), LimitsOf(s), out, left, n);
    } else {
      p' := p;
      c' := c;
      NothingReady(Entries(s, c, p));
    }
  }

  lemma ReadTaken(q: Fifo.Queue, lim: Fifo.Limits, out: seq<Record>, left: seq<Fifo.Entry>, n: nat)
    requires |q.ring| <= lim.capacity && q.ring != [] && q.ring[0].committed && Takes(out, left, q.ring, n)
    ensures Fifo.Read(q, lim) == (out, Fifo.Refill(Fifo.Queue(left, q.overflow), lim))
  {}
}
