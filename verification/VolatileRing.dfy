/**
 The volatile ring as the code runs it, one operation at a time: slot and data arrays changed
 in place, reservations as objects that refer to their buffer, and the spin, consume and refill
 loops. `State()` is the value of SlotRing.dfy that each method transforms.
 */
module VolatileRing {
  import opened Bytes
  import opened Records
  import opened Sequences
  import opened SlotRing
  import RingRuns
  import Fifo

  const MAX_OVERFLOW: nat := 1000
  const MAX_SPINS: nat := 100

  class Buffer {
    const slots: array<Slot>
    const cells: array<Cell>
    const capacity: nat
    const maxOverflow: nat
    var prodSeq: nat
    var consSeq: nat
    var overflow: seq<Record>

    ghost function State(): Ring
      reads this, slots, cells
    {
      Ring(slots[..], cells[..], prodSeq, consSeq, capacity, overflow, maxOverflow)
    }

    ghost predicate Valid()
      reads this, slots, cells
    {
      && slots as object != cells as object
      && SlotRing.Shape(State())
    }

    /** `new`: the capacity is rounded up to a power of two. */
    constructor (requested: nat)
      requires requested <= Pow2(63)
      ensures Valid() && fresh(slots) && fresh(cells)
      ensures capacity == NextPowerOfTwo(requested, 0)
      ensures State() == RingRuns.NewRing(capacity, 1000)
    {
      var cap := NextPowerOfTwo(requested, 0);
      ghost var k := RoundedCapacity(requested, 0);
      Pow2Capacity(k);
      capacity := cap;
      maxOverflow := MAX_OVERFLOW;
      var blank: seq<byte> := seq(DATA_SIZE, _ => 0);
      slots := new Slot[cap](_ => Slot(Empty, 0));
      cells := new Cell[cap](_ => Cell(RecordHeader(0, 0, 0, 0), blank));
      prodSeq, consSeq, overflow := 0, 0, [];
      new;
      ghost var blankRing := RingRuns.NewRing(capacity, MAX_OVERFLOW);
      assert slots[..] == blankRing.slots;
      assert cells[..] == blankRing.cells;
      RingRuns.NewWindow(cap, MAX_OVERFLOW);
    }

    /**
     Non-blocking calls give up after eleven probes of a slot that is not empty. A blocking call
     on a full ring waits for another thread, so here it is made only when there is room.
     */
    method Reserve(size: nat, block: bool) returns (res: Reservation?)
      requires Valid() && size + HEADER_SIZE <= SLOT_SIZE
      requires block ==> HasRoom(State())
      modifies this`prodSeq, slots
      ensures Valid()
      ensures res == null <==> !old(HasRoom(State()))
      ensures res == null ==> State() == old(State())
      ensures res != null ==> State() == SlotRing.Reserve(old(State()))
      ensures res != null ==> fresh(res) && res.buffer == this && !res.committed && res.size == size + HEADER_SIZE
      ensures res != null ==> res.number == old(prodSeq) && res.slotIdx == Probed(old(State()))
    {
      var spins := 0;
      while spins < MAX_SPINS
        invariant Valid() && State() == old(State())
        invariant spins > 0 ==> !HasRoom(State())
      {
        var seqNo := prodSeq;
        var i := Index(seqNo, capacity);
        if slots[i].state.Empty? {
          slots[i] := Slot(Reserved, seqNo);
          prodSeq := Succ(seqNo);
          res := new Reservation(this, i, seqNo, size + HEADER_SIZE);
          return;
        }
        spins := spins + 1;
        if !block && spins > 10 {
          return null;
        }
      }
      return null;
    }

    /** Directly into the ring when the probed slot is empty, otherwise into the overflow queue. */
    method Write(r: Record) returns (direct: bool)
      requires Valid() && FitsSlot(r)
      modifies this`prodSeq, this`overflow, slots, cells
      ensures Valid() && State() == SlotRing.Write(old(State()), r)
      ensures direct == old(HasRoom(State()))
    {
      ghost var s := State();
      var res := Reserve(|r.data|, false);
      if res != null {
        WriteShape(s, r);
        res.Write(r);
        res.Commit();
        return true;
      }
      if |overflow| < maxOverflow {
        overflow := overflow + [r];
      } else if overflow != [] {
        overflow := overflow[1..] + [r];
      }
      WriteKeepsShape(s, r);
      return false;
    }

    /** The ring as the consumer sees it, with its own copy of the counter. */
    ghost function Seen(next: nat): Ring
      reads this, slots, cells
    {
      State().(consSeq := next)
    }

    /** One turn of the read loop: copy, check, mark consumed, recycle. */
    method ConsumeSlot(next: nat) returns (took: bool, got: seq<Record>)
      requires Valid()
      modifies slots
      ensures Valid() && took == CanConsume(old(Seen(next)))
      ensures !took ==> State() == old(State())
      ensures took ==> Seen(Succ(next)) == ConsumeOne(old(Seen(next)))
      ensures took ==> got == if Fifo.Sound(HeadRecord(old(Seen(next)))) then [HeadRecord(old(Seen(next)))] else []
    {
      got := [];
      var i := Index(next, capacity);
      took := slots[i] == Slot(Ready, next);
      if took {
        assert CellOk(State().cells[i]);
        var r := Record(cells[i].header, cells[i].bytes[..cells[i].header.size]);
        if Fifo.Sound(r) {
          got := [r];
        }
        slots[i] := slots[i].(state := Consumed);
        slots[i] := slots[i].(state := Empty);
      }
    }

    /** The read loop; the shared counter is stored only afterwards. */
    method Consume() returns (out: seq<Record>, next: nat, processed: nat)
      requires Valid()
      modifies slots
      ensures Valid() && out == ConsumeLoop(old(State()), capacity).0
      ensures Seen(next) == ConsumeLoop(old(State()), capacity).1
      ensures processed > 0 <==> old(CanConsume(State()))
      ensures processed == 0 ==> State() == old(State())
    {
      ghost var s := State();
      out, next, processed := [], consSeq, 0;
      ghost var t, left: nat := s, capacity;
      ghost var all, last := LoopStarts(s, left);
      while processed < capacity
        invariant processed + left == capacity && Valid() && t == Seen(next)
        invariant processed == 0 ==> t == s
        invariant processed > 0 ==> CanConsume(s)
        invariant Progress(all, last, out, t, left)
      {
        var took, got := ConsumeSlot(next);
        if !took {
          break;
        }
        t, left := LoopAdvances(all, last, out, got, t, left);
        out := out + got;
        next := Succ(next);
        processed := processed + 1;
      }
      LoopEnds(all, last, out, t, left);
    }

    /** All records up to the first slot that is not ready, in order; then the ring is refilled. */
    method Read() returns (out: seq<Record>)
      requires Valid()
      modifies this, slots, cells
      ensures Valid() && out == SlotRing.Read(old(State())).0 && State() == SlotRing.Read(old(State())).1
    {
      var next, processed;
      out, next, processed := Consume();
      if processed > 0 {
        consSeq := next;
        Refill();
      }
    }

    /** Waiting records move into the ring while it has room. */
    method Refill()
      requires Valid()
      modifies this`prodSeq, this`overflow, slots, cells
      ensures Valid() && State() == RefillLoop(old(State()))
    {
      while overflow != []
        invariant Valid() && RefillLoop(old(State())) == RefillLoop(State())
        decreases |overflow|
      {
        ghost var s := State();
        var r := overflow[0];
        assert FitsSlot(s.overflow[0]);
        TailShape(s);
        overflow := overflow[1..];
        ghost var s' := State();
        var res := Reserve(|r.data|, false);
        if res == null {
          overflow := [r] + overflow;
          assert State() == s;
          break;
        }
        WriteShape(s', r);
        res.Write(r);
        res.Commit();
      }
    }

    /** Slots in use, over the capacity, in percent. */
    method UsagePercent() returns (percent: real)
      requires Valid()
      ensures percent == Usage(State())
    {
      percent := (WrappingSub(prodSeq, consSeq) as real / capacity as real) * 100.0;
    }
  }

  /** A slot held for one writer, referring to the buffer it came from. */
  class Reservation {
    const buffer: Buffer
    const slotIdx: nat
    const number: nat
    const size: nat
    var committed: bool

    constructor (buffer: Buffer, slotIdx: nat, number: nat, size: nat)
      ensures this.buffer == buffer && this.slotIdx == slotIdx && this.number == number && this.size == size
      ensures !committed
    {
      this.buffer, this.slotIdx, this.number, this.size := buffer, slotIdx, number, size;
      committed := false;
    }

    /** Copies the header and the data into the slot. */
    method Write(r: Record)
      requires buffer.Valid() && slotIdx < buffer.capacity && HEADER_SIZE <= size <= SLOT_SIZE
      requires |r.data| <= size - HEADER_SIZE && r.header.size <= DATA_SIZE
      modifies buffer.cells
      ensures |old(buffer.State()).cells[slotIdx].bytes| == DATA_SIZE
      ensures buffer.Valid() && buffer.State() == Fill(old(buffer.State()), slotIdx, r)
    {
      ghost var s := buffer.State();
      assert CellOk(s.cells[slotIdx]);
      buffer.cells[slotIdx] := Cell(r.header, r.data + buffer.cells[slotIdx].bytes[|r.data|..]);
      ghost var s' := buffer.State();
      assert s'.cells == s.cells[slotIdx := StoreCell(s.cells[slotIdx], r)];
      forall k | 0 <= k < |s'.cells| ensures CellOk(s'.cells[k]) {
        if k != slotIdx {
          assert CellOk(s.cells[k]);
        }
      }
    }

    /** Makes the record visible, once. */
    method Commit()
      requires buffer.Valid() && slotIdx < buffer.capacity
      modifies this, buffer.slots
      ensures buffer.Valid()
      ensures buffer.State() ==
            if old(committed) then old(buffer.State()) else SlotRing.Commit(old(buffer.State()), slotIdx, number)
      ensures committed == (old(committed) || old(buffer.slots[slotIdx]).state.Reserved?)
    {
      if !committed && buffer.slots[slotIdx].state.Reserved? {
        buffer.slots[slotIdx] := buffer.slots[slotIdx].(state := Ready);
        committed := true;
        buffer.slots[slotIdx] := buffer.slots[slotIdx].(number := number);
      }
    }

    /** Dropped without a commit, the slot is given back but its number is not. */
    method Drop()
      requires buffer.Valid() && slotIdx < buffer.capacity
      modifies buffer.slots
      ensures buffer.Valid()
      ensures buffer.State() == if committed then old(buffer.State()) else Release(old(buffer.State()), slotIdx)
    {
      if !committed && buffer.slots[slotIdx].state.Reserved? {
        buffer.slots[slotIdx] := buffer.slots[slotIdx].(state := Empty);
      }
    }
  }

  lemma WriteKeepsShape(s: Ring, r: Record)
    requires SlotRing.Shape(s) && FitsSlot(r)
    ensures SlotRing.Shape(SlotRing.Write(s, r))
  {
    if HasRoom(s) {
      WriteShape(s, r);
    } else {
      forall i | 0 <= i < |SlotRing.Write(s, r).overflow| ensures FitsSlot(SlotRing.Write(s, r).overflow[i]) {
        if |s.overflow| < s.maxOverflow {
          if i < |s.overflow| {
            assert FitsSlot(s.overflow[i]);
          }
        } else if s.overflow != [] {
          if i < |s.overflow| - 1 {
            assert FitsSlot(s.overflow[i + 1]);
          }
        }
      }
    }
  }

  /**
   The read loop, having returned `out`, still has to run from `t` over `left` slots to return
   `all` and end in `last`.
  */
  ghost predicate Progress(all: seq<Record>, last: Ring, out: seq<Record>, t: Ring, left: nat) {
    SlotRing.Shape(t) && all == out + ConsumeLoop(t, left).0 && last == ConsumeLoop(t, left).1
  }

  lemma LoopStarts(s: Ring, budget: nat) returns (all: seq<Record>, last: Ring)
    requires SlotRing.Shape(s)
    ensures all == ConsumeLoop(s, budget).0 && last == ConsumeLoop(s, budget).1 && Progress(all, last, [], s, budget)
  {
    all, last := ConsumeLoop(s, budget).0, ConsumeLoop(s, budget).1;
    assert [] + all == all;
  }

  lemma LoopAdvances(all: seq<Record>, last: Ring, out: seq<Record>, got: seq<Record>, t: Ring, left: nat)
    returns (t': Ring, left': nat)
    requires Progress(all, last, out, t, left) && left > 0 && CanConsume(t)
    requires got == if Fifo.Sound(HeadRecord(t)) then [HeadRecord(t)] else []
    ensures t' == ConsumeOne(t) && left' == left - 1 && Progress(all, last, out + got, t', left')
  {
    left' := left - 1;
    var rest;
    t', rest := ConsumeTurn(t, left, ConsumeLoop(t, left).0, last);
    Fifo.Associate(out, got, rest);
  }

  lemma LoopEnds(all: seq<Record>, last: Ring, out: seq<Record>, t: Ring, left: nat)
    requires Progress(all, last, out, t, left) && (left == 0 || !CanConsume(t))
    ensures all == out && last == t
  {
    assert ConsumeLoop(t, left).0 == [];
    assert out + [] == out;
  }
}
