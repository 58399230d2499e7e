/**
 Cursors over the persistent ring, as functions on what a cursor can see: `read_at`, the
 data-area size and the control block's write position and wrap count.
 */
module CursorSpec {
  import opened Bytes
  import opened Records
  import opened LapReader

  datatype View = View(at: Reader, size: nat, writePos: nat, wrapCount: nat)

  /** `read_at` stays inside the data area. */
  ghost predicate Bounded(v: View) {
    forall p: nat :: (v.at(p).Found? ==> p + v.at(p).total <= v.size) && (p >= v.size ==> v.at(p).Nothing?)
  }

  datatype Position = Position(offset: nat, wrapCount: nat)

  datatype Cursor = Cursor(pos: Position, atEnd: bool)

  /** `Cursor::new`, with the position already defaulted to the read position. */
  function NewCursor(v: View, pos: Position): Cursor {
    Cursor(pos, pos.offset == v.writePos && pos.wrapCount == v.wrapCount)
  }

  /** The cursor belongs to an older lap than the file. */
  predicate Behind(v: View, c: Cursor) {
    c.pos.wrapCount < v.wrapCount
  }

  // ---- next ----

  datatype NextResult = Diverges | Error(cursor: Cursor) | Done(cursor: Cursor) | Item(record: Record, cursor: Cursor)

  function AfterItem(v: View, c: Cursor, total: nat): Cursor {
    var pos := c.pos.(offset := c.pos.offset + total);
    Cursor(pos, pos.offset == v.writePos && pos.wrapCount == v.wrapCount)
  }

  function AfterSkip(v: View, c: Cursor): Cursor {
    var pos := c.pos.(offset := c.pos.offset + HEADER_SIZE);
    Cursor(pos, pos.offset >= v.writePos && pos.wrapCount >= v.wrapCount)
  }

  datatype Partial = Running | Returned(result: NextResult)

  /** The self-recursive code of `next`, cut off after `calls` nested calls. */
  function NextWithin(v: View, c: Cursor, calls: nat): Partial
    decreases calls
  {
    if calls == 0 then Running
    else if c.atEnd then Returned(Done(c))
    else
      match v.at(c.pos.offset)
      case Corrupt => Returned(Error(c))
      case Found(r, n) => Returned(Item(r, AfterItem(v, c, n)))
      case Nothing =>
        var c' := AfterSkip(v, c);
        if c'.atEnd then Returned(Done(c')) else NextWithin(v, c', calls - 1)
  }

  /** What `next` returns, or that it never does. */
  function Next(v: View, c: Cursor): (res: NextResult)
    requires Bounded(v)
    ensures res.Item? ==> c.pos.offset + HEADER_SIZE <= res.cursor.pos.offset <= v.size
    ensures res.Item? ==> res.cursor.pos.wrapCount == c.pos.wrapCount
    ensures res.Done? ==> res.cursor.atEnd && res.cursor.pos.wrapCount == c.pos.wrapCount
    ensures res.Diverges? ==> Behind(v, c)
    decreases (if Behind(v, c) then v.size else v.writePos) - c.pos.offset
  {
    if c.atEnd then Done(c) else
      match v.at(c.pos.offset)
      case Corrupt => Error(c)
      case Found(r, n) => Item(r, AfterItem(v, c, n))
      case Nothing =>
        var c' := AfterSkip(v, c);
        if c'.atEnd then Done(c')
        else if Behind(v, c) && c.pos.offset >= v.size then Diverges
        else Next(v, c')
  }

  /** `Next` is the limit of the cut-off code: it returns exactly what some number of calls returns. */
  lemma {:induction false} NextReturns(v: View, c: Cursor) returns (calls: nat)
    requires Bounded(v) && !Next(v, c).Diverges?
    ensures NextWithin(v, c, calls) == Returned(Next(v, c))
    decreases (if Behind(v, c) then v.size else v.writePos) - c.pos.offset
  {
    if c.atEnd || !v.at(c.pos.offset).Nothing? || AfterSkip(v, c).atEnd {
      calls := 1;
    } else {
      var k := NextReturns(v, AfterSkip(v, c));
      calls := k + 1;
    }
  }

  /** Where `Next` says it diverges, no number of calls is enough. */
  lemma {:induction false} NextDiverges(v: View, c: Cursor, calls: nat)
    requires Bounded(v) && Next(v, c).Diverges?
    ensures NextWithin(v, c, calls) == Running
    decreases calls
  {
    if calls != 0 {
      if c.pos.offset >= v.size {
        assert v.at(c.pos.offset).Nothing?;
        assert v.at(AfterSkip(v, c).pos.offset).Nothing?;
      }
      NextDiverges(v, AfterSkip(v, c), calls - 1);
    }
  }

  /** Having looked in vain at `m` places, `next` looks further: short of the write position, or on an older lap. */
  ghost predicate LooksOn(v: View, c: Cursor, m: nat) {
    m == 0 || Behind(v, c) || c.pos.offset + HEADER_SIZE * m < v.writePos
  }

  /**
   What a call of `next` that returns has done: it looked for a record at every header-sized step,
   short of the write position, and returned the first it met, or stopped behind the last place.
   */
  lemma {:induction false} NextFinds(v: View, c: Cursor) returns (k: nat, p: nat)
    requires Bounded(v) && !c.atEnd && !Next(v, c).Diverges?
    ensures p == c.pos.offset + HEADER_SIZE * k
    ensures forall m: nat {:trigger LooksOn(v, c, m)} :: m < k ==>
              LooksOn(v, c, m) && v.at(c.pos.offset + HEADER_SIZE * m).Nothing?
    ensures match Next(v, c)
            case Item(r, c') =>
              LooksOn(v, c, k) && v.at(p).Found? && v.at(p).record == r && c'.pos.offset == p + v.at(p).total
            case Error(c') => LooksOn(v, c, k) && v.at(p).Corrupt? && c'.pos.offset == p
            case Done(c') => k > 0 && !LooksOn(v, c, k) && c'.pos.offset == p
            case _ => true
    decreases (if Behind(v, c) then v.size else v.writePos) - c.pos.offset
  {
    var c1 := AfterSkip(v, c);
    if !v.at(c.pos.offset).Nothing? {
      k := 0;
    } else if c1.atEnd {
      k := 1;
    } else {
      k, p := NextFinds(v, c1);
      k := k + 1;
      forall m: nat | m < k ensures LooksOn(v, c, m) && v.at(c.pos.offset + HEADER_SIZE * m).Nothing? {
        if m > 0 {
          assert LooksOn(v, c1, m - 1);
          assert c.pos.offset + HEADER_SIZE * m == c1.pos.offset + HEADER_SIZE * (m - 1);
        }
      }
    }
    p := c.pos.offset + HEADER_SIZE * k;
  }

  /**
   `next` fails to return exactly for a cursor of an older lap, not at its end, with no record
   and no corrupt header at any multiple of the header size ahead.
   */
  lemma DivergesIff(v: View, c: Cursor)
    requires Bounded(v)
    ensures Next(v, c).Diverges? <==>
            Behind(v, c) && !c.atEnd && forall k: nat :: v.at(c.pos.offset + HEADER_SIZE * k).Nothing?
  {
    if Next(v, c).Diverges? {
      forall k: nat ensures v.at(c.pos.offset + HEADER_SIZE * k).Nothing? {
        SkippedAll(v, c, k);
      }
    } else if Behind(v, c) && !c.atEnd {
      var k := StopsSomewhere(v, c);
    }
  }

  lemma {:induction false} SkippedAll(v: View, c: Cursor, k: nat)
    requires Bounded(v) && Next(v, c).Diverges?
    ensures v.at(c.pos.offset + HEADER_SIZE * k).Nothing?
    decreases k
  {
    if k != 0 && c.pos.offset < v.size {
      SkippedAll(v, AfterSkip(v, c), k - 1);
    }
  }

  lemma {:induction false} StopsSomewhere(v: View, c: Cursor) returns (k: nat)
    requires Bounded(v) && Behind(v, c) && !c.atEnd && !Next(v, c).Diverges?
    ensures !v.at(c.pos.offset + HEADER_SIZE * k).Nothing?
    decreases v.size - c.pos.offset
  {
    if !v.at(c.pos.offset).Nothing? {
      k := 0;
    } else {
      var m := StopsSomewhere(v, AfterSkip(v, c));
      k := m + 1;
    }
  }

  // ---- read_batch and draining ----

  datatype BatchResult = BatchDiverges | BatchError(cursor: Cursor) | Batch(records: seq<Record>, cursor: Cursor)

  function ReadBatch(v: View, c: Cursor, max: nat): BatchResult
    requires Bounded(v)
    decreases max, c
  {
    if max == 0 then Batch([], c) else
      match Next(v, c)
      case Diverges => BatchDiverges
      case Error(c') => BatchError(c')
      case Done(c') => Batch([], c')
      case Item(r, c') => Prepend([r], ReadBatch(v, c', max - 1))
  }

  function Prepend(rs: seq<Record>, b: BatchResult): BatchResult {
    if b.Batch? then b.(records := rs + b.records) else b
  }

  /** From any state, over any bytes, one batch of `m + n` is a batch of `m` followed by one of `n`. */
  lemma {:induction false} BatchesCompose(v: View, c: Cursor, m: nat, n: nat)
    requires Bounded(v)
    ensures ReadBatch(v, c, m + n)
         == var b := ReadBatch(v, c, m); if b.Batch? then Prepend(b.records, ReadBatch(v, b.cursor, n)) else b
    decreases m
  {
    if m == 0 {
      var b := ReadBatch(v, c, n);
      assert b.Batch? ==> [] + b.records == b.records;
    } else {
      match Next(v, c)
      case Diverges =>
      case Error(_) =>
      case Done(c') =>
        assert ReadBatch(v, c', n) == Batch([], c');
      case Item(r, c') =>
        BatchesCompose(v, c', m - 1, n);
        var b := ReadBatch(v, c', m - 1);
        if b.Batch? {
          var e := ReadBatch(v, b.cursor, n);
          assert e.Batch? ==> [r] + (b.records + e.records) == ([r] + b.records) + e.records;
        }
    }
  }

  /** Reading until `next` stops yielding: the records, and how it stopped. */
  function Drain(v: View, c: Cursor): (res: (seq<Record>, NextResult))
    requires Bounded(v)
    ensures !res.1.Item?
    decreases v.size - c.pos.offset
  {
    match Next(v, c)
    case Item(r, c') =>
      var rest := Drain(v, c');
      ([r] + rest.0, rest.1)
    case stop => ([], stop)
  }

  /**
   Over arbitrary bytes a batch is the next records until `next` stops yielding; a stop by a
   corrupt record inside the batch makes the whole batch an error, whatever was read before.
   */
  lemma {:induction false} BatchOfDrain(v: View, c: Cursor, max: nat, rs: seq<Record>, stop: NextResult)
    requires Bounded(v) && rs == Drain(v, c).0 && stop == Drain(v, c).1
    ensures max <= |rs| ==> ReadBatch(v, c, max).Batch? && ReadBatch(v, c, max).records == rs[..max]
    ensures max > |rs| ==>
              match stop
              case Error(c') => ReadBatch(v, c, max) == BatchError(c')
              case Done(c') => ReadBatch(v, c, max) == Batch(rs, c')
              case _ => ReadBatch(v, c, max) == BatchDiverges
    decreases max
  {
    if max != 0 {
      match Next(v, c) {
        case Item(r, c') =>
          BatchOfDrain(v, c', max - 1, rs[1..], stop);
          assert rs == [r] + rs[1..];
          assert max <= |rs| ==> rs[..max] == [r] + rs[1..][..max - 1];
        case _ =>
      }
    }
  }

  /** A corrupt record behind the records of a lap is the end of every batch that would pass it: an error. */
  lemma {:induction false} CorruptStopsBatch(v: View, lap: seq<Record>, c: Cursor, i: nat, n: nat)
    requires Bounded(v) && Lists(v.at, lap) && v.at(End(lap)) == Corrupt && End(lap) < v.writePos
    requires i <= |lap| && c == Cursor(Position(Offset(lap, i), v.wrapCount), false) && n > |lap| - i
    ensures ReadBatch(v, c, n) == BatchError(Cursor(Position(End(lap), v.wrapCount), false))
    decreases |lap| - i
  {
    if i < |lap| {
      assert ListsAt(v.at, lap, i);
      OffsetGrows(lap, i + 1, |lap|);
      CorruptStopsBatch(v, lap, AfterItem(v, c, TotalSize(lap[i])), i + 1, n - 1);
    }
  }

  /**
   Over arbitrary bytes a cursor that is not behind is always drained by finitely many calls
   that all return, and yields at most one record per header that fits in the data area.
   */
  lemma {:induction false} DrainTerminates(v: View, c: Cursor)
    requires Bounded(v) && !Behind(v, c)
    ensures !Drain(v, c).1.Diverges?
    ensures HEADER_SIZE * |Drain(v, c).0| <= v.size
    ensures |Drain(v, c).0| <= v.size / HEADER_SIZE
    decreases v.size - c.pos.offset
  {
    DrainBound(v, c);
  }

  lemma {:induction false} DrainBound(v: View, c: Cursor)
    requires Bounded(v) && !Behind(v, c)
    ensures !Drain(v, c).1.Diverges?
    ensures Drain(v, c).0 != [] ==> c.pos.offset + HEADER_SIZE * |Drain(v, c).0| <= v.size
    decreases v.size - c.pos.offset
  {
    match Next(v, c)
    case Item(r, c') => DrainBound(v, c');
    case _ =>
  }

  // ---- Seeking ----

  function SeekTo(v: View, pos: Position): Cursor {
    if pos.wrapCount > v.wrapCount || (pos.wrapCount == v.wrapCount && pos.offset > v.writePos) then
      Cursor(Position(v.writePos, v.wrapCount), true)
    else if pos.wrapCount < v.wrapCount then
      Cursor(Position(0, v.wrapCount), false)
    else
      Cursor(pos, pos.offset == v.writePos)
  }

  function SeekToEnd(v: View): Cursor {
    Cursor(Position(v.writePos, v.wrapCount), true)
  }

  /** The position lies ahead of everything written. */
  predicate Ahead(v: View, pos: Position) {
    pos.wrapCount > v.wrapCount || (pos.wrapCount == v.wrapCount && pos.offset > v.writePos)
  }

  /**
   Seeking anywhere yields a cursor of the current lap inside the written area, so `next` returns:
   at the position itself if it is there, at the start of the lap if the position is of an older
   one, and at the end, with nothing to yield, if it is ahead or is the end.
   */
  lemma SeekEstablishes(v: View, pos: Position)
    requires Bounded(v)
    ensures var c := SeekTo(v, pos);
            && c.pos.wrapCount == v.wrapCount && c.pos.offset <= v.writePos && !Next(v, c).Diverges?
            && (pos.wrapCount == v.wrapCount && pos.offset <= v.writePos ==> c.pos == pos)
            && (pos.wrapCount < v.wrapCount ==> c.pos.offset == 0)
            && (Ahead(v, pos) ==> c.pos.offset == v.writePos)
            && (Ahead(v, pos) || pos == Position(v.writePos, v.wrapCount) ==>
                  Next(v, c) == Done(c) && forall n {:trigger ReadBatch(v, c, n)} :: ReadBatch(v, c, n) == Batch([], c))
  {}

  // ---- Cursors on a listed lap ----

  ghost predicate Shows(v: View, lap: seq<Record>) {
    Bounded(v) && Lists(v.at, lap) && v.writePos == End(lap)
  }

  /** The cursor stands before record `i` of the current lap; its end flag may be stale. */
  ghost predicate AtBoundary(v: View, lap: seq<Record>, c: Cursor, i: nat) {
    && i <= |lap|
    && c.pos == Position(Offset(lap, i), v.wrapCount)
    && (i == |lap| ==> c.atEnd)
  }

  /** The cursor's end flag is up to date. */
  ghost predicate Current(lap: seq<Record>, c: Cursor, i: nat) {
    c.atEnd <==> i == |lap|
  }

  lemma NewAtBoundary(v: View, lap: seq<Record>, i: nat)
    requires Shows(v, lap) && i <= |lap|
    ensures var pos := Position(Offset(lap, i), v.wrapCount);
            && AtBoundary(v, lap, NewCursor(v, pos), i) && Current(lap, NewCursor(v, pos), i)
            && AtBoundary(v, lap, SeekTo(v, pos), i) && Current(lap, SeekTo(v, pos), i)
  {
    OffsetGrows(lap, i, |lap|);
  }

  /** `next` on a listed lap yields the next record, or nothing once the end flag is set. */
  lemma NextAtBoundary(v: View, lap: seq<Record>, c: Cursor, i: nat)
    requires Shows(v, lap) && AtBoundary(v, lap, c, i)
    ensures c.atEnd ==> Next(v, c) == Done(c)
    ensures !c.atEnd ==> i < |lap| && Next(v, c).Item? && Next(v, c).record == lap[i]
                         && AtBoundary(v, lap, Next(v, c).cursor, i + 1) && Current(lap, Next(v, c).cursor, i + 1)
  {
    if !c.atEnd {
      assert ListsAt(v.at, lap, i);
      if i + 1 < |lap| {
        OffsetGrows(lap, i + 1, |lap|);
      }
    }
  }

  /** A batch from a boundary is the next records of the lap. */
  lemma {:induction false} BatchAtBoundary(v: View, lap: seq<Record>, c: Cursor, i: nat, n: nat)
    requires Shows(v, lap) && AtBoundary(v, lap, c, i) && Current(lap, c, i)
    ensures var j := Min(i + n, |lap|);
            var b := ReadBatch(v, c, n);
            && b.Batch? && b.records == lap[i..j]
            && AtBoundary(v, lap, b.cursor, j) && Current(lap, b.cursor, j)
    decreases n
  {
    if n != 0 {
      NextAtBoundary(v, lap, c, i);
      if i < |lap| {
        BatchAtBoundary(v, lap, Next(v, c).cursor, i + 1, n - 1);
        var j := Min(i + n, |lap|);
        assert lap[i..j] == [lap[i]] + lap[i + 1..j];
      }
    }
  }

  /** Draining from a boundary yields exactly the rest of the lap. */
  lemma {:induction false} DrainAtBoundary(v: View, lap: seq<Record>, c: Cursor, i: nat)
    requires Shows(v, lap) && AtBoundary(v, lap, c, i) && Current(lap, c, i)
    ensures Drain(v, c).0 == lap[i..]
    ensures Drain(v, c).1 == Done(Cursor(Position(v.writePos, v.wrapCount), true))
    decreases |lap| - i
  {
    NextAtBoundary(v, lap, c, i);
    if i < |lap| {
      DrainAtBoundary(v, lap, Next(v, c).cursor, i + 1);
      assert lap[i..] == [lap[i]] + lap[i + 1..];
    }
  }

  /**
   Seeking back to a saved boundary replays the same records, followed by any written since in
   the same lap.
   */
  lemma SeekReplays(v: View, lap: seq<Record>, more: seq<Record>, i: nat, n: nat)
    requires Shows(v, lap + more) && i <= |lap|
    ensures var b := ReadBatch(v, SeekTo(v, Position(Offset(lap, i), v.wrapCount)), n);
            b.Batch? && b.records == (lap + more)[i..Min(i + n, |lap + more|)]
  {
    OffsetPrefix(lap, more, i);
    NewAtBoundary(v, lap + more, i);
    BatchAtBoundary(v, lap + more, SeekTo(v, Position(Offset(lap, i), v.wrapCount)), i, n);
  }
}
