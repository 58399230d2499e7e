/** Cursors as objects that advance over a shared ring file. */
module Cursors {
  import opened Records
  import opened LapReader
  import opened PersistentRing
  import opened CursorRuns
  import Spec = CursorSpec

  class Cursor {
    const buffer: Ring
    var position: Spec.Position
    var atEnd: bool

    ghost function Value(): Spec.Cursor
      reads this
    {
      Spec.Cursor(position, atEnd)
    }

    ghost function View(): Spec.View
      reads buffer, buffer.mmap
    {
      ViewOf(buffer.State())
    }

    /** Starts at the given position, or at the buffer's read position. */
    constructor (buffer: Ring, at: Spec.Position, fromReadPos: bool)
      requires buffer.Valid()
      ensures this.buffer == buffer
      ensures Value() == Spec.NewCursor(ViewOf(buffer.State()),
                           if fromReadPos then Spec.Position(buffer.control.readPos, buffer.control.wrapCount) else at)
    {
      this.buffer := buffer;
      var pos := if fromReadPos then Spec.Position(buffer.control.readPos, buffer.control.wrapCount) else at;
      position := pos;
      atEnd := pos.offset == buffer.control.writePos && pos.wrapCount == buffer.control.wrapCount;
    }

    /** `v` is what the buffer currently shows. */
    ghost predicate Sees(v: Spec.View)
      reads this, buffer, buffer.mmap
    {
      && buffer.Valid() && Spec.Bounded(v) && buffer.Reads(v.at)
      && v.size == buffer.size && v.writePos == buffer.control.writePos && v.wrapCount == buffer.control.wrapCount
    }

    /** The view every method is specified against is the buffer's own. */
    lemma SeesOwnView()
      requires buffer.Valid()
      ensures Sees(View())
    {
      ViewBounded(buffer.State());
    }

    /** The next record; callers must not use a cursor on which the call would never return. */
    method Next(ghost v: Spec.View) returns (res: Spec.NextResult)
      requires Sees(v) && !Spec.Next(v, Value()).Diverges?
      modifies this
      ensures res == Spec.Next(v, old(Value())) && Value() == res.cursor
      decreases (if Spec.Behind(v, Value()) then v.size else v.writePos) - position.offset
    {
      if atEnd {
        return Spec.Done(Spec.Cursor(position, atEnd));
      }
      var step := buffer.Probe(position.offset, v.at);
      match step
      case Corrupt =>
        res := Spec.Error(Spec.Cursor(position, atEnd));
      case Found(r, n) =>
        position := position.(offset := position.offset + n);
        atEnd := position.offset == buffer.control.writePos && position.wrapCount == buffer.control.wrapCount;
        res := Spec.Item(r, Spec.Cursor(position, atEnd));
      case Nothing =>
        position := position.(offset := position.offset + HEADER_SIZE);
        atEnd := position.offset >= buffer.control.writePos && position.wrapCount >= buffer.control.wrapCount;
        if atEnd {
          res := Spec.Done(Spec.Cursor(position, atEnd));
        } else {
          res := Next(v);
        }
    }

    /** Up to `max` records; an error discards the records already collected, as in the code. */
    method ReadBatch(max: nat, ghost v: Spec.View) returns (res: Spec.BatchResult)
      requires Sees(v) && !Spec.ReadBatch(v, Value(), max).BatchDiverges?
      modifies this
      ensures res == Spec.ReadBatch(v, old(Value()), max) && Value() == res.cursor
    {
      var records: seq<Record> := [];
      var i := 0;
      while i < max
        invariant i <= max && Sees(v)
        invariant Spec.ReadBatch(v, old(Value()), max) == Spec.Prepend(records, Spec.ReadBatch(v, Value(), max - i))
      {
        var step := Next(v);
        match step {
          case Item(r, _) =>
            PrependAssoc(records, r, Spec.ReadBatch(v, Value(), max - i - 1));
            records := records + [r];
          case Done(_) =>
            return Spec.Batch(records, Spec.Cursor(position, atEnd));
          case Error(_) =>
            return Spec.BatchError(Spec.Cursor(position, atEnd));
        }
        i := i + 1;
      }
      return Spec.Batch(records, Spec.Cursor(position, atEnd));
    }

    method SeekTo(pos: Spec.Position)
      modifies this
      ensures Value() == Spec.SeekTo(View(), pos)
    {
      var c := buffer.control;
      if pos.wrapCount > c.wrapCount || (pos.wrapCount == c.wrapCount && pos.offset > c.writePos) {
        position, atEnd := Spec.Position(c.writePos, c.wrapCount), true;
      } else if pos.wrapCount < c.wrapCount {
        position, atEnd := Spec.Position(0, c.wrapCount), false;
      } else {
        position, atEnd := pos, pos.offset == c.writePos;
      }
    }

    method SeekToEnd()
      modifies this
      ensures Value() == Spec.SeekToEnd(View())
    {
      position, atEnd := Spec.Position(buffer.control.writePos, buffer.control.wrapCount), true;
    }

    /** Moves the buffer's read position; the cursor itself does not change. */
    method CommitPosition()
      requires buffer.Valid()
      modifies buffer`control, buffer.mmap
      ensures buffer.Valid() && buffer.State() == Commit(old(buffer.State()), Value())
    {
      var c := buffer.control;
      if position.wrapCount == c.wrapCount && position.offset > c.readPos && position.offset <= c.writePos {
        buffer.ResetRead();
      }
    }
  }

  lemma PrependAssoc(rs: seq<Record>, r: Record, b: Spec.BatchResult)
    ensures Spec.Prepend(rs, Spec.Prepend([r], b)) == Spec.Prepend(rs + [r], b)
  {
    if b.Batch? {
      assert rs + ([r] + b.records) == (rs + [r]) + b.records;
    }
  }
}
