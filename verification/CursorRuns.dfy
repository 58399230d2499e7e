/** Whole runs of a ring file and its readers inside one lap. */
module CursorRuns {
  import opened Bytes
  import opened Records
  import opened DiskFormat
  import opened LapReader
  import opened RingFile
  import opened Recovery
  import opened CursorSpec

  function ViewOf(d: Disk): View {
    View(ReaderOf(d), d.size, d.control.writePos, d.control.wrapCount)
  }

  lemma ViewBounded(d: Disk)
    requires Shape(d)
    ensures Bounded(ViewOf(d))
  {
    forall p: nat
      ensures (ReaderOf(d)(p).Found? ==> p + ReaderOf(d)(p).total <= d.size)
      ensures (p >= d.size ==> ReaderOf(d)(p).Nothing?)
    {
      assert ReaderOf(d)(p) == ReadAt(d, p);
    }
  }

  lemma ViewShows(d: Disk, lap: seq<Record>)
    requires Layout(d, lap)
    ensures Shows(ViewOf(d), lap)
  {
    ViewBounded(d);
    LayoutLists(d, lap);
  }

  /** A refused record or one stored behind the last: no wrap. */
  predicate StaysInLap(d: Disk, r: Record) {
    Fits(d, r) ==> !Wraps(d, r)
  }

  function Extended(d: Disk, lap: seq<Record>, r: Record): seq<Record> {
    if Fits(d, r) then lap + [Stamped(r)] else lap
  }

  lemma WriteExtends(d: Disk, lap: seq<Record>, r: Record)
    requires Holds(d, lap) && Storable(r) && StaysInLap(d, r)
    ensures var d' := WriteRecord(d, r);
            && Holds(d', Extended(d, lap, r))
            && d'.control.wrapCount == d.control.wrapCount && d'.control.readPos == d.control.readPos
  {
    WriteHolds(d, lap, r);
    PrintEnd(lap);
  }

  lemma ExtendedOffset(d: Disk, lap: seq<Record>, r: Record, i: nat)
    requires i <= |lap|
    ensures i <= |Extended(d, lap, r)| && Offset(Extended(d, lap, r), i) == Offset(lap, i)
    ensures lap <= Extended(d, lap, r)
  {
    OffsetPrefix(lap, [Stamped(r)], i);
  }

  lemma JoinSlices(y: seq<Record>, a: seq<Record>, b: seq<Record>, i: nat, j: nat, k: nat)
    requires a <= b && i <= j <= |a| && j <= k <= |b|
    ensures (y + a[i..j]) + b[j..k] == y + b[i..k]
  {
    assert a[i..j] == b[i..j];
  }

  lemma JoinTails(x: seq<Record>, a: seq<Record>, b: seq<Record>, i: nat, j: nat)
    requires a <= b && i <= j <= |a|
    ensures (x + a[i..j]) + b[j..] == x + b[i..]
  {
    assert a[i..j] == b[i..j];
    assert b[i..j] + b[j..] == b[i..];
  }

  // ---- A cursor from offset 0 and read_all agree ----

  /**
   In every reachable state, after any number of wraps, a cursor started at offset 0 of the
   current lap drains to exactly the records written since the last wrap, which is also what
   `read_all` returns whenever the read position is 0.
   */
  lemma CursorAgreesWithReadAll(size: nat, range: CrcRange, ops: seq<Op>)
    requires size <= MAX_SIZE
    requires forall op :: op in ops ==> StorableOp(op)
    ensures var d := Run(Create(size, range), ops);
            var lap := LapAfter(size, [], ops);
            && Bounded(ViewOf(d))
            && Drain(ViewOf(d), NewCursor(ViewOf(d), Position(0, d.control.wrapCount)))
               == (lap, Done(Cursor(Position(d.control.writePos, d.control.wrapCount), true)))
            && (d.control.readPos == 0 ==> ReadAll(d).0 == LapReader.Records(lap, d.control.writePos))
  {
    CreateHolds(size, range);
    RunHolds(Create(size, range), [], ops);
    var d, lap := Run(Create(size, range), ops), LapAfter(size, [], ops);
    var v := ViewOf(d);
    ViewShows(d, lap);
    NewAtBoundary(v, lap, 0);
    DrainAtBoundary(v, lap, NewCursor(v, Position(0, d.control.wrapCount)), 0);
    assert lap[0..] == lap;
    if d.control.readPos == 0 {
      ReadAllUnread(d, lap, 0);
    }
  }

  /**
   A write that wraps strands the cursors of the lap before: each is behind, and seeking to its
   own position starts it again at the new lap, of which it yields exactly the one record, and
   committing it without a seek changes nothing.
   */
  lemma SeekAfterWrap(d: Disk, lap: seq<Record>, c: Cursor, i: nat, r: Record) returns (d': Disk)
    requires Holds(d, lap) && AtBoundary(ViewOf(d), lap, c, i)
    requires Storable(r) && Fits(d, r) && Wraps(d, r) && d.control.wrapCount + 1 < TWO64
    ensures d' == WriteRecord(d, r) && Behind(ViewOf(d'), c) && Bounded(ViewOf(d'))
    ensures Drain(ViewOf(d'), SeekTo(ViewOf(d'), c.pos)).0 == [Stamped(r)]
    ensures Commit(d', c) == d'
  {
    var lap';
    d', lap' := WrapStartsLap(d, lap, r);
    SeekFromBehind(d', lap', c);
    CommitChangesIff(d', c);
  }

  /**
   A cursor sent to the end yields nothing, not even once more has been written; seeking to its own
   position then makes it yield what was written.
   */
  lemma EndThenWrite(d: Disk, lap: seq<Record>, r: Record) returns (c: Cursor, d': Disk)
    requires Holds(d, lap) && Storable(r) && StaysInLap(d, r) && Fits(d, r)
    ensures c == SeekToEnd(ViewOf(d)) && d' == WriteRecord(d, r) && Bounded(ViewOf(d)) && Bounded(ViewOf(d'))
    ensures Next(ViewOf(d), c) == Done(c) && Next(ViewOf(d'), c) == Done(c)
    ensures Drain(ViewOf(d'), SeekTo(ViewOf(d'), c.pos)).0 == [Stamped(r)]
  {
    c, d' := SeekToEnd(ViewOf(d)), WriteRecord(d, r);
    ViewShows(d, lap);
    WriteExtends(d, lap, r);
    var lap' := lap + [Stamped(r)];
    ViewShows(d', lap');
    PrintEnd(lap);
    OffsetPrefix(lap, [Stamped(r)], |lap|);
    NewAtBoundary(ViewOf(d'), lap', |lap|);
    DrainAtBoundary(ViewOf(d'), lap', SeekTo(ViewOf(d'), c.pos), |lap|);
  }

  lemma WrapStartsLap(d: Disk, lap: seq<Record>, r: Record) returns (d': Disk, lap': seq<Record>)
    requires Holds(d, lap) && Storable(r) && Fits(d, r) && Wraps(d, r) && d.control.wrapCount + 1 < TWO64
    ensures d' == WriteRecord(d, r) && lap' == [Stamped(r)] && Holds(d', lap')
    ensures d'.control.wrapCount == d.control.wrapCount + 1
  {
    d', lap' := LapAfterWrap(d, lap, r);
    WrapCounts(d, r, d');
  }

  lemma LapAfterWrap(d: Disk, lap: seq<Record>, r: Record) returns (d': Disk, lap': seq<Record>)
    requires Holds(d, lap) && Storable(r) && Fits(d, r) && Wraps(d, r)
    ensures d' == WriteRecord(d, r) && lap' == [Stamped(r)] && Holds(d', lap')
  {
    WriteHolds(d, lap, r);
    d', lap' := WriteRecord(d, r), LapAfterWrite(d.size, lap, r);
  }

  lemma WrapCounts(d: Disk, r: Record, d': Disk)
    requires Shape(d) && Fits(d, r) && Wraps(d, r) && d.control.wrapCount + 1 < TWO64 && d' == WriteRecord(d, r)
    ensures d'.control.wrapCount == d.control.wrapCount + 1
  {
    var e := WriteCounts(d, r);
  }

  /** What a write does to the two counters. */
  lemma WriteCounts(d: Disk, r: Record) returns (d': Disk)
    requires Shape(d) && Fits(d, r)
    ensures d' == WriteRecord(d, r) && Shape(d') && d'.size == d.size
    ensures d'.control.wrapCount == if Wraps(d, r) then (d.control.wrapCount + 1) % TWO64 else d.control.wrapCount
    ensures d'.control.writePos == (if Wraps(d, r) then 0 else d.control.writePos) + TotalSize(r)
  {
    d' := WriteRecord(d, r);
  }

  lemma SeekFromBehind(d: Disk, lap: seq<Record>, c: Cursor)
    requires Holds(d, lap) && lap != [] && Behind(ViewOf(d), c)
    ensures Bounded(ViewOf(d)) && Drain(ViewOf(d), SeekTo(ViewOf(d), c.pos)).0 == lap
  {
    var v := ViewOf(d);
    ViewShows(d, lap);
    var at0 := SeekTo(v, c.pos);
    DrainAtBoundary(v, lap, at0, 0);
    assert lap[0..] == lap;
  }

  /**
   `next` can loop for ever: two empty records fill a file of 48 bytes, a third wraps, and a
   cursor opened at the position a cursor had at the end of the first lap finds nothing there,
   nor anywhere ahead, while its lap keeps it from ever reaching an end.
   */
  lemma StrandedCursorDiverges(size: nat, r: Record, range: CrcRange) returns (before: Disk, d: Disk, saved: Position)
    requires |r.data| == 0 && size == 2 * HEADER_SIZE
    ensures before == Run(Create(size, range), [Write(r), Write(r)]) && d == Run(before, [Write(r)])
    ensures saved == SeekToEnd(ViewOf(before)).pos
    ensures Bounded(ViewOf(d)) && Next(ViewOf(d), NewCursor(ViewOf(d), saved)).Diverges?
  {
    var d0 := NewFile(size, range);
    var d1;
    d1, before, d := FillAndWrap(d0, r);
    RunTwo(d0, r, d1, r, before);
    RunOne(before, r, d);
    saved := Position(size, 0);
    StrandedDiverges(d, saved);
  }

  lemma FillAndWrap(d0: Disk, r: Record) returns (d1: Disk, d2: Disk, d3: Disk)
    requires Shape(d0) && d0.size == 2 * HEADER_SIZE && |r.data| == 0
    requires d0.control.writePos == 0 && d0.control.wrapCount == 0
    ensures d1 == WriteRecord(d0, r) && d2 == WriteRecord(d1, r) && d3 == WriteRecord(d2, r)
    ensures Shape(d2) && d2.control.writePos == d0.size && d2.control.wrapCount == 0
    ensures Shape(d3) && d3.size == d0.size && d3.control.wrapCount == 1
  {
    d1 := StaysCounts(d0, r);
    d2 := StaysCounts(d1, r);
    d3 := MovesCounts(d2, r);
  }

  lemma MovesCounts(d: Disk, r: Record) returns (d': Disk)
    requires Shape(d) && Fits(d, r) && Wraps(d, r) && d.control.wrapCount == 0
    ensures d' == WriteRecord(d, r) && Shape(d') && d'.size == d.size && d'.control.wrapCount == 1
  {
    d' := WriteCounts(d, r);
  }

  lemma StaysCounts(d: Disk, r: Record) returns (d': Disk)
    requires Shape(d) && d.control.writePos + TotalSize(r) <= d.size
    ensures d' == WriteRecord(d, r) && Shape(d') && d'.size == d.size
    ensures d'.control.wrapCount == d.control.wrapCount && d'.control.writePos == d.control.writePos + TotalSize(r)
  {
    d' := WriteCounts(d, r);
  }

  lemma NewFile(size: nat, range: CrcRange) returns (d: Disk)
    requires size <= MAX_SIZE
    ensures d == Create(size, range) && Shape(d) && d.size == size && Holds(d, [])
    ensures d.control.writePos == 0 && d.control.readPos == 0 && d.control.wrapCount == 0
  {
    d := Create(size, range);
    CreateHolds(size, range);
  }

  lemma StrandedDiverges(d: Disk, pos: Position)
    requires Shape(d) && pos.offset >= d.size && pos.wrapCount < d.control.wrapCount
    ensures Bounded(ViewOf(d)) && Next(ViewOf(d), NewCursor(ViewOf(d), pos)).Diverges?
  {
    ViewBounded(d);
    DivergesIff(ViewOf(d), NewCursor(ViewOf(d), pos));
  }

  lemma RunOne(d: Disk, r: Record, d1: Disk)
    requires Shape(d) && d1 == WriteRecord(d, r)
    ensures d1 == Run(d, [Write(r)])
  {
    RunPrepend(d, Write(r), [], d1);
    assert [Write(r)] + [] == [Write(r)];
  }

  lemma RunPrepend(d: Disk, op: Op, rest: seq<Op>, d1: Disk)
    requires Shape(d) && d1 == Apply(d, op)
    ensures Run(d, [op] + rest) == Run(d1, rest)
  {
    assert ([op] + rest)[0] == op && ([op] + rest)[1..] == rest;
  }

  lemma RunTwo(d: Disk, r: Record, d1: Disk, r': Record, d2: Disk)
    requires Shape(d) && d1 == WriteRecord(d, r) && d2 == WriteRecord(d1, r')
    ensures d2 == Run(d, [Write(r), Write(r')])
  {
    RunOne(d1, r', d2);
    RunPrepend(d, Write(r), [Write(r')], d1);
    assert [Write(r)] + [Write(r')] == [Write(r), Write(r')];
  }

  // ---- Writes interleaved with one cursor ----

  datatype Event = Append(record: Record) | CallNext | Resume

  datatype Session = Session(disk: Disk, cursor: Cursor, yielded: seq<Record>)

  /** One event: a write, a `next`, or `seek_to(position())`. */
  function Step(s: Session, e: Event): (s': Session)
    requires Shape(s.disk)
    ensures Shape(s'.disk)
  {
    match e
    case Append(r) => s.(disk := WriteRecord(s.disk, r))
    case Resume => s.(cursor := SeekTo(ViewOf(s.disk), s.cursor.pos))
    case CallNext =>
      ViewBounded(s.disk);
      match Next(ViewOf(s.disk), s.cursor)
      case Item(r, c) => s.(cursor := c, yielded := s.yielded + [r])
      case Done(c) => s.(cursor := c)
      case Error(c) => s.(cursor := c)
      case Diverges => s
  }

  function Steps(s: Session, es: seq<Event>): Session
    requires Shape(s.disk)
    decreases |es|
  {
    if es == [] then s else Steps(Step(s, es[0]), es[1..])
  }

  /** No write of the run wraps, and every record is below 4 GiB. */
  predicate OneLap(s: Session, es: seq<Event>)
    requires Shape(s.disk)
    decreases |es|
  {
    es == [] || (
      && (es[0].Append? ==> |es[0].record.data| < 0x1_0000_0000 && StaysInLap(s.disk, es[0].record))
      && OneLap(Step(s, es[0]), es[1..]))
  }

  ghost predicate SessionAt(s: Session, lap: seq<Record>, i: nat) {
    Holds(s.disk, lap) && AtBoundary(ViewOf(s.disk), lap, s.cursor, i)
  }

  lemma AppendSession(s: Session, lap: seq<Record>, i: nat, r: Record) returns (s': Session, lap': seq<Record>)
    requires SessionAt(s, lap, i) && Storable(r) && StaysInLap(s.disk, r)
    ensures s' == Step(s, Append(r)) && SessionAt(s', lap', i) && lap <= lap' && s'.yielded == s.yielded
  {
    WriteExtends(s.disk, lap, r);
    ExtendedOffset(s.disk, lap, r, i);
    s', lap' := s.(disk := WriteRecord(s.disk, r)), Extended(s.disk, lap, r);
  }

  lemma ResumeSession(s: Session, lap: seq<Record>, i: nat) returns (s': Session)
    requires SessionAt(s, lap, i)
    ensures s' == Step(s, Resume) && SessionAt(s', lap, i) && s'.yielded == s.yielded && Current(lap, s'.cursor, i)
  {
    ViewShows(s.disk, lap);
    NewAtBoundary(ViewOf(s.disk), lap, i);
    s' := s.(cursor := SeekTo(ViewOf(s.disk), s.cursor.pos));
  }

  lemma NextSession(s: Session, lap: seq<Record>, i: nat) returns (s': Session, i': nat)
    requires SessionAt(s, lap, i)
    ensures s' == Step(s, CallNext) && SessionAt(s', lap, i')
    ensures i' == if s.cursor.atEnd then i else i + 1
    ensures s'.yielded == s.yielded + lap[i..i']
  {
    ViewShows(s.disk, lap);
    NextAtBoundary(ViewOf(s.disk), lap, s.cursor, i);
    s' := Step(s, CallNext);
    i' := if s.cursor.atEnd then i else i + 1;
    assert !s.cursor.atEnd ==> lap[i..i'] == [lap[i]];
    assert s.cursor.atEnd ==> s.yielded + lap[i..i] == s.yielded;
  }

  lemma StepSession(s: Session, lap: seq<Record>, i: nat, e: Event) returns (s': Session, lap': seq<Record>, i': nat)
    requires SessionAt(s, lap, i)
    requires e.Append? ==> Storable(e.record) && StaysInLap(s.disk, e.record)
    ensures s' == Step(s, e) && SessionAt(s', lap', i') && lap <= lap' && i <= i' <= |lap'|
    ensures s'.yielded == s.yielded + lap'[i..i']
    ensures e.Resume? ==> Current(lap', s'.cursor, i')
    ensures e.CallNext? && !s.cursor.atEnd ==> i' == i + 1
  {
    lap', i' := lap, i;
    match e {
      case Append(r) => s', lap' := AppendSession(s, lap, i, r);
      case Resume => s' := ResumeSession(s, lap, i);
      case CallNext => s', i' := NextSession(s, lap, i);
    }
    assert i == i' ==> s.yielded + lap'[i..i'] == s.yielded;
  }

  /**
   For every interleaving of writes that stay in the lap with `next` and `seek_to(position())`
   calls on a cursor started at a record boundary, the cursor yields exactly the consecutive
   records from that boundary on: none skipped, none repeated, none torn.
   */
  lemma {:induction false} InterleavedCursor(s: Session, lap: seq<Record>, i: nat, es: seq<Event>)
    returns (lap': seq<Record>, i': nat)
    requires SessionAt(s, lap, i) && OneLap(s, es)
    ensures SessionAt(Steps(s, es), lap', i') && lap <= lap' && i <= i' <= |lap'|
    ensures Steps(s, es).yielded == s.yielded + lap'[i..i']
    decreases |es|
  {
    if es == [] {
      lap', i' := lap, i;
    } else {
      var s1, lap1, i1 := StepSession(s, lap, i, es[0]);
      lap', i' := InterleavedCursor(s1, lap1, i1, es[1..]);
      JoinSlices(s.yielded, lap1, lap', i, i1, i');
    }
  }

  // ---- Commit ----

  /** `Cursor::commit`: the position only decides whether the read position jumps to the write position. */
  function Commit(d: Disk, c: Cursor): (d': Disk)
    requires Shape(d)
    ensures Shape(d')
  {
    if c.pos.wrapCount == d.control.wrapCount && d.control.readPos < c.pos.offset <= d.control.writePos
    then ResetReadPosition(d) else d
  }

  /** A commit changes the file exactly for a cursor of the current lap between the two positions. */
  lemma CommitChangesIff(d: Disk, c: Cursor)
    requires Shape(d)
    ensures Commit(d, c) != d <==>
              c.pos.wrapCount == d.control.wrapCount && d.control.readPos < c.pos.offset <= d.control.writePos
    ensures c.pos.wrapCount != d.control.wrapCount ==> Commit(d, c) == d
  {}

  /**
   The documented effect, the cursor's position becoming the read position when it is ahead,
   holds exactly for cursors that are not ahead or that have reached the end of the lap.
   */
  lemma CommitIff(d: Disk, lap: seq<Record>, j: nat, c: Cursor, i: nat)
    requires Holds(d, lap) && ReadUpTo(d, lap, j) && AtBoundary(ViewOf(d), lap, c, i)
    ensures Holds(Commit(d, c), lap) && ReadUpTo(Commit(d, c), lap, if i <= j then j else |lap|)
    ensures ReadUpTo(Commit(d, c), lap, if i <= j then j else i) <==> i <= j || i == |lap|
  {
    PrintEnd(lap);
    OffsetGrows(lap, i, |lap|);
    ReadPositionHolds(d, lap, d.control.writePos);
    if i <= j {
      OffsetGrows(lap, i, j);
    } else {
      OffsetGrows(lap, j, i);
      if i < |lap| {
        OffsetGrows(lap, i, |lap|);
      }
    }
  }

  /**
   Commit can skip a record: of two stored ones a cursor yields the first and commits; the
   read position passes the second, which `read_all` then does not return.
   */
  lemma CommitSkipsRecord(size: nat, range: CrcRange, r: Record, r': Record) returns (d: Disk, c: Cursor)
    requires Storable(r) && Storable(r') && TotalSize(r) + TotalSize(r') <= size <= MAX_SIZE
    ensures d == Run(Create(size, range), [Write(r), Write(r')]) && Bounded(ViewOf(d))
    ensures Next(ViewOf(d), NewCursor(ViewOf(d), Position(0, d.control.wrapCount))) == Item(Stamped(r), c)
    ensures ReadAll(d).0 == LapReader.Records([Stamped(r), Stamped(r')], d.control.writePos)
    ensures ReadAll(Commit(d, c)).0 == LapReader.Records([], d.control.writePos)
  {
    var lap := [Stamped(r), Stamped(r')];
    d := TwoStored(size, range, r, r');
    var v := ViewOf(d);
    ViewShows(d, lap);
    NewAtBoundary(v, lap, 0);
    NextAtBoundary(v, lap, NewCursor(v, Position(0, d.control.wrapCount)), 0);
    c := Next(v, NewCursor(v, Position(0, d.control.wrapCount))).cursor;
    ReadAllUnread(d, lap, 0);
    CommitIff(d, lap, 0, c, 1);
    ReadAllUnread(Commit(d, c), lap, 2);
  }

  lemma TwoStored(size: nat, range: CrcRange, r: Record, r': Record) returns (d: Disk)
    requires Storable(r) && Storable(r') && TotalSize(r) + TotalSize(r') <= size <= MAX_SIZE
    ensures d == Run(Create(size, range), [Write(r), Write(r')])
    ensures Holds(d, [Stamped(r), Stamped(r')]) && ReadUpTo(d, [Stamped(r), Stamped(r')], 0)
  {
    var d0 := NewFile(size, range);
    var d1;
    d1, d := StoreTwo(d0, r, r');
    RunTwo(d0, r, d1, r', d);
  }

  lemma StoreTwo(d0: Disk, r: Record, r': Record) returns (d1: Disk, d2: Disk)
    requires Holds(d0, []) && Storable(r) && Storable(r') && TotalSize(r) + TotalSize(r') <= d0.size
    requires d0.control.writePos == 0 && d0.control.readPos == 0
    ensures d1 == WriteRecord(d0, r) && d2 == WriteRecord(d1, r')
    ensures Holds(d2, [Stamped(r), Stamped(r')]) && ReadUpTo(d2, [Stamped(r), Stamped(r')], 0)
  {
    d1 := StoreMore(d0, [], r);
    assert [] + [Stamped(r)] == [Stamped(r)];
    d2 := StoreMore(d1, [Stamped(r)], r');
    assert [Stamped(r)] + [Stamped(r')] == [Stamped(r), Stamped(r')];
  }

  lemma StoreMore(d: Disk, lap: seq<Record>, r: Record) returns (d': Disk)
    requires Holds(d, lap) && Storable(r) && d.control.writePos + TotalSize(r) <= d.size && d.control.readPos == 0
    ensures d' == WriteRecord(d, r) && Holds(d', lap + [Stamped(r)]) && d'.control.readPos == 0
    ensures d'.size == d.size && d'.control.writePos == d.control.writePos + TotalSize(r)
  {
    WriteExtends(d, lap, r);
    d' := WriteCounts(d, r);
  }

  // ---- Exactly-once reading ----

  /** A record a cursor returned, and the offset behind it. */
  datatype Yield = Yield(end: nat, record: Record)

  datatype Tracked = Tracked(cursor: Cursor, got: seq<Yield>)

  /** A file, any number of cursors open on it, and the records its readers have consumed. */
  datatype Reading = Reading(disk: Disk, open: seq<Tracked>, consumed: seq<Record>)

  datatype Action = Put(record: Record) | TakeAll | OpenCursor | NextOn(k: nat) | ResumeOn(k: nat) | CommitOn(k: nat)

  function Advanced(d: Disk, o: Tracked): Tracked
    requires Shape(d)
  {
    ViewBounded(d);
    match Next(ViewOf(d), o.cursor)
    case Item(r, c) => Tracked(c, o.got + [Yield(c.pos.offset, r)])
    case Done(c) => o.(cursor := c)
    case Error(c) => o.(cursor := c)
    case Diverges => o
  }

  /** The yields that end behind `lo` and not behind `hi`. */
  function Passed(ys: seq<Yield>, lo: nat, hi: nat): seq<Record> {
    if ys == [] then [] else
      var y := ys[|ys| - 1];
      Passed(ys[..|ys| - 1], lo, hi) + if lo < y.end <= hi then [y.record] else []
  }

  /**
   `read_all` consumes what it returns; a commit consumes what its cursor had yielded of the
   records it moves the read position past.
   */
  function Act(s: Reading, a: Action): (t: Reading)
    requires Shape(s.disk)
    ensures Shape(t.disk)
  {
    match a
    case Put(r) => s.(disk := WriteRecord(s.disk, r))
    case TakeAll =>
      var out := ReadAll(s.disk);
      s.(disk := out.1, consumed := s.consumed + if out.0.Records? then out.0.records else [])
    case OpenCursor =>
      s.(open := s.open +
            [Tracked(NewCursor(ViewOf(s.disk), Position(s.disk.control.readPos, s.disk.control.wrapCount)), [])])
    case NextOn(k) => if k >= |s.open| then s else s.(open := s.open[k := Advanced(s.disk, s.open[k])])
    case ResumeOn(k) =>
      if k >= |s.open| then s else
        s.(open := s.open[k := s.open[k].(cursor := SeekTo(ViewOf(s.disk), s.open[k].cursor.pos))])
    case CommitOn(k) =>
      if k >= |s.open| then s else
        var d' := Commit(s.disk, s.open[k].cursor);
        s.(disk := d', consumed := s.consumed + Passed(s.open[k].got, s.disk.control.readPos, d'.control.readPos))
  }

  function Acts(s: Reading, acts: seq<Action>): Reading
    requires Shape(s.disk)
    decreases |acts|
  {
    if acts == [] then s else Acts(Act(s, acts[0]), acts[1..])
  }

  /** No write wraps, and a cursor commits only when it stands at the end of the lap. */
  predicate Careful(s: Reading, a: Action)
    requires Shape(s.disk)
  {
    && (a.Put? ==> |a.record.data| < 0x1_0000_0000 && StaysInLap(s.disk, a.record))
    && (a.CommitOn? && a.k < |s.open| ==>
          s.open[a.k].cursor.pos == Position(s.disk.control.writePos, s.disk.control.wrapCount))
  }

  predicate CarefulRun(s: Reading, acts: seq<Action>)
    requires Shape(s.disk)
    decreases |acts|
  {
    acts == [] || (Careful(s, acts[0]) && CarefulRun(Act(s, acts[0]), acts[1..]))
  }

  /** What a cursor that went from record `lo` to record `hi` yielded. */
  function YieldsOf(lap: seq<Record>, lo: nat, hi: nat): seq<Yield>
    requires hi <= |lap|
  {
    if hi <= lo then [] else YieldsOf(lap, lo, hi - 1) + [Yield(Offset(lap, hi), lap[hi - 1])]
  }

  lemma {:induction false} YieldsExtend(lap: seq<Record>, lap': seq<Record>, lo: nat, hi: nat)
    requires hi <= |lap| && lap <= lap'
    ensures YieldsOf(lap', lo, hi) == YieldsOf(lap, lo, hi)
    decreases hi
  {
    if hi > lo {
      YieldsExtend(lap, lap', lo, hi - 1);
      assert lap' == lap + lap'[|lap|..];
      OffsetPrefix(lap, lap'[|lap|..], hi);
    }
  }

  lemma PassedSnoc(ys: seq<Yield>, y: Yield, lo: nat, hi: nat)
    ensures Passed(ys + [y], lo, hi) == Passed(ys, lo, hi) + if lo < y.end <= hi then [y.record] else []
  {
    assert (ys + [y])[..|ys|] == ys;
  }

  /** Of a cursor that started at or before record `j`, what ends behind `j` is the records from `j` on. */
  lemma {:induction false} PassedYields(lap: seq<Record>, lo: nat, hi: nat, j: nat, a: nat, b: nat)
    returns (out: seq<Record>)
    requires lo <= j <= |lap| && hi <= |lap| && a == Offset(lap, j) && b == End(lap)
    ensures out == Passed(YieldsOf(lap, lo, hi), a, b)
    ensures out == if hi <= j then [] else lap[j..hi]
    decreases hi
  {
    if hi > lo {
      var rest := PassedYields(lap, lo, hi - 1, j, a, b);
      out := PassedMore(lap, lo, hi, j, a, b, rest);
    } else {
      out := [];
    }
  }

  lemma PassedMore(lap: seq<Record>, lo: nat, hi: nat, j: nat, a: nat, b: nat, rest: seq<Record>)
    returns (out: seq<Record>)
    requires lo <= j <= |lap| && lo < hi <= |lap| && a == Offset(lap, j) && b == End(lap)
    requires rest == Passed(YieldsOf(lap, lo, hi - 1), a, b) && rest == if hi - 1 <= j then [] else lap[j..hi - 1]
    ensures out == Passed(YieldsOf(lap, lo, hi), a, b)
    ensures out == if hi <= j then [] else lap[j..hi]
  {
    PassedSnoc(YieldsOf(lap, lo, hi - 1), Yield(Offset(lap, hi), lap[hi - 1]), a, b);
    EndsBehind(lap, hi, j);
    out := OneMore(lap, j, hi, rest);
  }

  lemma OneMore(lap: seq<Record>, j: nat, hi: nat, rest: seq<Record>) returns (out: seq<Record>)
    requires j <= |lap| && 0 < hi <= |lap| && rest == if hi - 1 <= j then [] else lap[j..hi - 1]
    ensures out == rest + (if j < hi then [lap[hi - 1]] else []) && out == if hi <= j then [] else lap[j..hi]
  {
    out := if hi <= j then [] else lap[j..hi];
  }

  lemma EndsBehind(lap: seq<Record>, hi: nat, j: nat)
    requires hi <= |lap| && j <= |lap|
    ensures Offset(lap, j) < Offset(lap, hi) <= End(lap) <==> j < hi
  {
    OffsetGrows(lap, hi, |lap|);
    if hi <= j {
      OffsetGrows(lap, hi, j);
    } else {
      OffsetGrows(lap, j, hi);
    }
  }

  /** A cursor opened at record `lo`, then the read position, has yielded up to record `hi`. */
  ghost predicate OpenAt(d: Disk, lap: seq<Record>, j: nat, o: Tracked, lo: nat, hi: nat) {
    lo <= j && lo <= hi <= |lap| && AtBoundary(ViewOf(d), lap, o.cursor, hi) && o.got == YieldsOf(lap, lo, hi)
  }

  ghost predicate OpenOk(d: Disk, lap: seq<Record>, j: nat, o: Tracked) {
    exists lo: nat, hi: nat {:trigger OpenAt(d, lap, j, o, lo, hi)} :: OpenAt(d, lap, j, o, lo, hi)
  }

  /** The first `j` records of the lap have been consumed, and every cursor is in order. */
  ghost predicate ReadingOk(s: Reading, lap: seq<Record>, j: nat) {
    && Holds(s.disk, lap) && ReadUpTo(s.disk, lap, j)
    && forall k {:trigger OpenOk(s.disk, lap, j, s.open[k])} :: 0 <= k < |s.open| ==> OpenOk(s.disk, lap, j, s.open[k])
  }

  /** Open cursors stay in order when the lap and the read position only grow. */
  lemma OpenKept(d: Disk, lap: seq<Record>, j: nat, d': Disk, lap': seq<Record>, j': nat, o: Tracked)
    requires OpenOk(d, lap, j, o) && lap <= lap' && j <= j' <= |lap'| && d'.control.wrapCount == d.control.wrapCount
    ensures OpenOk(d', lap', j', o)
  {
    var lo: nat, hi: nat :| OpenAt(d, lap, j, o, lo, hi);
    YieldsExtend(lap, lap', lo, hi);
    assert lap' == lap + lap'[|lap|..];
    OffsetPrefix(lap, lap'[|lap|..], hi);
    assert OpenAt(d', lap', j', o, lo, hi);
  }

  lemma AllKept(s: Reading, lap: seq<Record>, j: nat, t: Reading, lap': seq<Record>, j': nat)
    requires ReadingOk(s, lap, j) && t.open == s.open && t.disk.control.wrapCount == s.disk.control.wrapCount
    requires Holds(t.disk, lap') && ReadUpTo(t.disk, lap', j') && lap <= lap' && j <= j'
    ensures ReadingOk(t, lap', j')
  {
    forall k | 0 <= k < |t.open| ensures OpenOk(t.disk, lap', j', t.open[k]) {
      OpenKept(s.disk, lap, j, t.disk, lap', j', s.open[k]);
    }
  }

  lemma PutOnce(s: Reading, lap: seq<Record>, j: nat, r: Record) returns (t: Reading, lap': seq<Record>)
    requires ReadingOk(s, lap, j) && Storable(r) && StaysInLap(s.disk, r)
    ensures t == Act(s, Put(r)) && ReadingOk(t, lap', j) && lap <= lap' && t.consumed == s.consumed
  {
    WriteExtends(s.disk, lap, r);
    ExtendedOffset(s.disk, lap, r, j);
    t, lap' := s.(disk := WriteRecord(s.disk, r)), Extended(s.disk, lap, r);
    AllKept(s, lap, j, t, lap', j);
  }

  lemma TakeAllOnce(s: Reading, lap: seq<Record>, j: nat) returns (t: Reading)
    requires ReadingOk(s, lap, j)
    ensures t == Act(s, TakeAll) && ReadingOk(t, lap, |lap|) && t.consumed == s.consumed + lap[j..]
  {
    ReadAllUnread(s.disk, lap, j);
    t := Act(s, TakeAll);
    AllKept(s, lap, j, t, lap, |lap|);
  }

  lemma OpenOnce(s: Reading, lap: seq<Record>, j: nat) returns (t: Reading)
    requires ReadingOk(s, lap, j)
    ensures t == Act(s, OpenCursor) && ReadingOk(t, lap, j) && t.consumed == s.consumed
  {
    ViewShows(s.disk, lap);
    NewAtBoundary(ViewOf(s.disk), lap, j);
    t := Act(s, OpenCursor);
    assert OpenAt(t.disk, lap, j, t.open[|s.open|], j, j);
    forall k | 0 <= k < |t.open| ensures OpenOk(t.disk, lap, j, t.open[k]) {
      assert k < |s.open| ==> OpenOk(s.disk, lap, j, s.open[k]);
    }
  }

  lemma NextOk(d: Disk, lap: seq<Record>, j: nat, o: Tracked) returns (o': Tracked)
    requires Holds(d, lap) && OpenOk(d, lap, j, o)
    ensures o' == Advanced(d, o) && OpenOk(d, lap, j, o')
  {
    var lo: nat, hi: nat :| OpenAt(d, lap, j, o, lo, hi);
    var upTo;
    o', upTo := NextAt(d, lap, j, o, lo, hi);
  }

  lemma NextAt(d: Disk, lap: seq<Record>, j: nat, o: Tracked, lo: nat, hi: nat) returns (o': Tracked, upTo: nat)
    requires Holds(d, lap) && OpenAt(d, lap, j, o, lo, hi)
    ensures o' == Advanced(d, o) && OpenAt(d, lap, j, o', lo, upTo)
  {
    ViewShows(d, lap);
    NextAtBoundary(ViewOf(d), lap, o.cursor, hi);
    o' := Advanced(d, o);
    upTo := if o.cursor.atEnd then hi else hi + 1;
  }

  lemma ResumeOk(d: Disk, lap: seq<Record>, j: nat, o: Tracked)
    requires Holds(d, lap) && OpenOk(d, lap, j, o)
    ensures OpenOk(d, lap, j, o.(cursor := SeekTo(ViewOf(d), o.cursor.pos)))
  {
    var lo: nat, hi: nat :| OpenAt(d, lap, j, o, lo, hi);
    ViewShows(d, lap);
    NewAtBoundary(ViewOf(d), lap, hi);
    assert OpenAt(d, lap, j, o.(cursor := SeekTo(ViewOf(d), o.cursor.pos)), lo, hi);
  }

  lemma MoveOnce(s: Reading, lap: seq<Record>, j: nat, k: nat, o: Tracked) returns (t: Reading)
    requires ReadingOk(s, lap, j) && k < |s.open| && OpenOk(s.disk, lap, j, o)
    ensures t == s.(open := s.open[k := o]) && ReadingOk(t, lap, j)
  {
    t := s.(open := s.open[k := o]);
    forall m | 0 <= m < |t.open| ensures OpenOk(t.disk, lap, j, t.open[m]) {
      assert m != k ==> OpenOk(s.disk, lap, j, s.open[m]);
    }
  }

  lemma AtEnd(d: Disk, lap: seq<Record>, j: nat, o: Tracked) returns (lo: nat)
    requires Holds(d, lap) && OpenOk(d, lap, j, o)
    requires o.cursor.pos == Position(d.control.writePos, d.control.wrapCount)
    ensures OpenAt(d, lap, j, o, lo, |lap|)
  {
    var first: nat, hi: nat :| OpenAt(d, lap, j, o, first, hi);
    PrintEnd(lap);
    OffsetInjective(lap, hi, |lap|);
    lo := first;
  }

  lemma CommitAtEnd(d: Disk, lap: seq<Record>, j: nat, o: Tracked, lo: nat) returns (d': Disk, out: seq<Record>)
    requires Holds(d, lap) && ReadUpTo(d, lap, j) && OpenAt(d, lap, j, o, lo, |lap|)
    ensures d' == Commit(d, o.cursor) && Holds(d', lap) && ReadUpTo(d', lap, |lap|)
    ensures d'.control.wrapCount == d.control.wrapCount
    ensures out == Passed(o.got, d.control.readPos, d'.control.readPos) && out == lap[j..]
  {
    CommitIff(d, lap, j, o.cursor, |lap|);
    d' := Commit(d, o.cursor);
    out := PassedYields(lap, lo, |lap|, j, Offset(lap, j), End(lap));
  }

  /** A commit at the end consumes exactly what was unread, all of which its cursor had yielded. */
  lemma CommitOnce(s: Reading, lap: seq<Record>, j: nat, k: nat) returns (t: Reading)
    requires ReadingOk(s, lap, j) && k < |s.open| && Careful(s, CommitOn(k))
    ensures t == Act(s, CommitOn(k)) && ReadingOk(t, lap, |lap|) && t.consumed == s.consumed + lap[j..]
  {
    assert OpenOk(s.disk, lap, j, s.open[k]);
    var lo := AtEnd(s.disk, lap, j, s.open[k]);
    var d', out := CommitAtEnd(s.disk, lap, j, s.open[k], lo);
    t := s.(disk := d', consumed := s.consumed + out);
    AllKept(s, lap, j, t, lap, |lap|);
  }

  lemma ActOnce(s: Reading, lap: seq<Record>, j: nat, a: Action) returns (t: Reading, lap': seq<Record>, j': nat)
    requires ReadingOk(s, lap, j) && Careful(s, a)
    ensures t == Act(s, a) && ReadingOk(t, lap', j') && lap <= lap' && j <= j' <= |lap'|
    ensures t.consumed == s.consumed + lap'[j..j']
    ensures a.TakeAll? || (a.CommitOn? && a.k < |s.open|) ==> j' == |lap'|
  {
    t, lap', j' := s, lap, j;
    match a {
      case Put(r) => t, lap' := PutOnce(s, lap, j, r);
      case TakeAll =>
        t := TakeAllOnce(s, lap, j);
        j' := |lap|;
      case OpenCursor => t := OpenOnce(s, lap, j);
      case NextOn(k) =>
        if k < |s.open| {
          assert OpenOk(s.disk, lap, j, s.open[k]);
          var o := NextOk(s.disk, lap, j, s.open[k]);
          t := MoveOnce(s, lap, j, k, o);
        }
      case ResumeOn(k) =>
        if k < |s.open| {
          assert OpenOk(s.disk, lap, j, s.open[k]);
          ResumeOk(s.disk, lap, j, s.open[k]);
          t := MoveOnce(s, lap, j, k, s.open[k].(cursor := SeekTo(ViewOf(s.disk), s.open[k].cursor.pos)));
        }
      case CommitOn(k) =>
        if k < |s.open| {
          t := CommitOnce(s, lap, j, k);
          j' := |lap|;
        }
    }
    assert j' == j ==> s.consumed + lap'[j..j'] == s.consumed;
  }

  /**
   Exactly-once reading within a lap: for every interleaving of writes, `read_all` calls, and any
   number of cursors opened at the read position, advanced, resumed, and committed when they
   stand at the end, what the readers consumed followed by what is still unread is everything
   stored from the first read position on, in order, and the read position stays a record
   boundary.
   */
  lemma {:induction false} ExactlyOnce(s: Reading, lap: seq<Record>, j: nat, acts: seq<Action>)
    returns (t: Reading, lap': seq<Record>, j': nat)
    requires ReadingOk(s, lap, j) && CarefulRun(s, acts)
    ensures t == Acts(s, acts) && ReadingOk(t, lap', j') && lap <= lap' && j <= j' <= |lap'|
    ensures t.consumed + lap'[j'..] == s.consumed + lap'[j..]
    decreases |acts|
  {
    if acts == [] {
      t, lap', j' := s, lap, j;
    } else {
      var s1, lap1, j1 := ActOnce(s, lap, j, acts[0]);
      t, lap', j' := ExactlyOnce(s1, lap1, j1, acts[1..]);
      JoinTails(s.consumed, lap1, lap', j, j1);
    }
  }
}
