/**
 The persistent ring as a value: the bytes of the file, the control block held in memory and
 the data-area size. Every operation of src/disk/persistent.rs is a function on it; the class
 in PersistentRing.dfy performs the same operations in place.
 */
module RingFile {
  import opened Bytes
  import opened Records
  import opened DiskFormat
  import opened LapReader

  /** File lengths are limited to signed 64-bit offsets; half of that leaves room for position sums. */
  const MAX_SIZE: nat := 0x4000_0000_0000_0000

  datatype Disk = Disk(file: seq<byte>, control: ControlBlock, size: nat, range: CrcRange)

  /** What the code relies on before every operation. */
  ghost predicate Shape(d: Disk) {
    && d.size <= MAX_SIZE
    && |d.file| == CONTROL_SIZE + d.size
    && d.control.writePos <= d.size
  }

  /** `b` stored over `f` from position `at`. */
  function Splice(f: seq<byte>, at: nat, b: seq<byte>): (g: seq<byte>)
    requires at + |b| <= |f|
    ensures |g| == |f|
  {
    f[..at] + b + f[at + |b|..]
  }

  lemma SpliceSlices(f: seq<byte>, at: nat, b: seq<byte>, lo: nat, hi: nat)
    requires at + |b| <= |f| && lo <= hi <= |f|
    ensures Splice(f, at, b)[at..at + |b|] == b
    ensures hi <= at || at + |b| <= lo ==> Splice(f, at, b)[lo..hi] == f[lo..hi]
  {}

  // ---- Opening ----

  datatype OpenResult = InvalidBuffer | Opened(disk: Disk)

  /** A file of the given size with a fresh control block and zeroed data. */
  function Create(size: nat, range: CrcRange): Disk
    requires size <= MAX_SIZE
  {
    var control := NewControl(size, range);
    Disk(EncodeControl(control) + Zeros(size), control, size, range)
  }

  function Zeros(n: nat): (s: seq<byte>)
    ensures |s| == n
  {
    seq(n, _ => 0)
  }

  /** `PersistentRingBuffer::new` on a file's current bytes; an empty file is created. */
  function Open(file: seq<byte>, size: nat, range: CrcRange): OpenResult
    requires file == [] || CONTROL_SIZE <= |file|
    requires size <= MAX_SIZE
  {
    if file == [] then
      Opened(Create(size, range))
    else
      var control := DecodeControl(file[..CONTROL_SIZE]);
      if control.magic != MAGIC || !VerifyCrc(control, range) then
        InvalidBuffer
      else
        Opened(Disk(file, control, control.bufferSize, range))
  }

  // ---- Operations ----

  /** The control block is updated in memory, checksummed, and copied over the file's first bytes. */
  function StoreControl(d: Disk, c: ControlBlock): (d': Disk)
    requires |d.file| >= CONTROL_SIZE
    ensures d'.control == UpdateCrc(c, d.range)
    ensures |d'.file| == |d.file| && d'.size == d.size && d'.range == d.range
    ensures d'.file[CONTROL_SIZE..] == d.file[CONTROL_SIZE..]
    ensures d'.file[..CONTROL_SIZE] == EncodeControl(d'.control)
  {
    var c' := UpdateCrc(c, d.range);
    d.(control := c', file := Splice(d.file, 0, EncodeControl(c')))
  }

  predicate Fits(d: Disk, r: Record) {
    TotalSize(r) <= d.size
  }

  predicate Wraps(d: Disk, r: Record) {
    d.control.writePos + TotalSize(r) > d.size
  }

  /** The control block with the wrap applied, before the record is stored. */
  function WrapControl(d: Disk, r: Record): ControlBlock {
    if Wraps(d, r) then d.control.(writePos := 0, wrapCount := (d.control.wrapCount + 1) % TWO64) else d.control
  }

  /** The record's bytes in place, the control block not yet updated. */
  function StoreRecord(d: Disk, r: Record): (f: seq<byte>)
    requires Shape(d) && Fits(d, r)
    ensures |f| == |d.file|
  {
    Splice(d.file, CONTROL_SIZE + WrapControl(d, r).writePos, RecordBytes(r))
  }

  /** `write`: `None` in place of the error for a record larger than the data area. */
  function WriteRecord(d: Disk, r: Record): (d': Disk)
    requires Shape(d)
    ensures Shape(d') && d'.size == d.size && d'.range == d.range
  {
    if !Fits(d, r) then d else
      var c := WrapControl(d, r);
      StoreControl(d.(file := StoreRecord(d, r)), c.(writePos := c.writePos + TotalSize(r)))
  }

  /** `read_at`: a position without room for a header holds nothing. */
  function ReadAt(d: Disk, pos: nat): (res: ReadResult)
    ensures res.Found? ==> HEADER_SIZE <= res.total && CONTROL_SIZE + pos + res.total <= |d.file|
    ensures pos >= d.size ==> res.Nothing?
  {
    var abs := CONTROL_SIZE + pos;
    if pos >= d.size || abs + HEADER_SIZE > |d.file| then Nothing
    else ReadBody(d.file, abs + HEADER_SIZE, DecodeHeader(d.file[abs..abs + HEADER_SIZE]))
  }

  /** The part of `read_at` behind the header: marker, bounds and checksum. */
  function ReadBody(file: seq<byte>, at: nat, h: DiskHeader): (res: ReadResult)
    ensures res.Found? ==> res.total == HEADER_SIZE + h.size && at + h.size <= |file|
  {
    if h.marker != MARKER || at + h.size > |file| then Nothing else
      var data := file[at..at + h.size];
      var header := RecordHeader(h.size, h.crc32, h.timestampUs, h.tag);
      if !CrcMatches(header, data) then Corrupt
      else Found(Record(header, data), HEADER_SIZE + h.size)
  }

  /** The file seen through `read_at`. */
  function ReaderOf(d: Disk): Reader {
    (pos: nat) => ReadAt(d, pos)
  }

  /** The loop of `read_all` on this file. */
  function ScanFrom(d: Disk, pos: nat): (res: ReadAllResult)
    requires Shape(d)
    ensures res.Records? ==> pos <= res.end && (res.end == pos || res.end < 3 * MAX_SIZE)
  {
    ReadFromEnd(ReaderOf(d), d.control.writePos, pos, d.size + HEADER_SIZE);
    ReadFrom(ReaderOf(d), d.control.writePos, pos)
  }

  /** `read_all`: the result, and the state with the read position moved. */
  function ReadAll(d: Disk): (res: (ReadAllResult, Disk))
    requires Shape(d)
    ensures Shape(res.1) && res.1.size == d.size && res.1.range == d.range
  {
    if d.control.readPos == d.control.writePos then (Records([], d.control.readPos), d) else
      var out := ScanFrom(d, d.control.readPos);
      match out
      case Failed => (out, d)
      case Records(_, end) => (out, StoreControl(d, d.control.(readPos := end)))
  }

  /** `reset_read_position`. */
  function ResetReadPosition(d: Disk): (d': Disk)
    requires Shape(d)
    ensures Shape(d') && d'.size == d.size && d'.range == d.range
  {
    StoreControl(d, d.control.(readPos := d.control.writePos))
  }

  // ---- Layout: the data area is the printed current lap ----

  /** The bytes of a list of records, one after the other. */
  function Print(rs: seq<Record>): seq<byte> {
    if rs == [] then [] else RecordBytes(rs[0]) + Print(rs[1..])
  }

  ghost predicate Storable(r: Record) {
    |r.data| < 0x1_0000_0000
  }

  ghost predicate AllCanonical(rs: seq<Record>) {
    forall i {:trigger Canonical(rs[i])} :: 0 <= i < |rs| ==> Canonical(rs[i])
  }

  /** The data area holds exactly the records of `lap`, from offset 0 up to the write position. */
  ghost predicate Layout(d: Disk, lap: seq<Record>) {
    && Shape(d)
    && AllCanonical(lap)
    && d.control.writePos == |Print(lap)|
    && d.file[CONTROL_SIZE..CONTROL_SIZE + d.control.writePos] == Print(lap)
  }

  /** The file starts with an encoded copy of the control block in memory. */
  ghost predicate Saved(d: Disk) {
    && |d.file| >= CONTROL_SIZE
    && d.file[..CONTROL_SIZE] == EncodeControl(d.control)
    && d.control.magic == MAGIC && d.control.bufferSize == d.size
    && (d.range == Documented ==> VerifyCrc(d.control, Documented))
  }

  /** The representation invariant: a printed lap behind a saved control block. */
  ghost predicate Holds(d: Disk, lap: seq<Record>) {
    Layout(d, lap) && Saved(d)
  }

  lemma {:induction false} PrintConcat(a: seq<Record>, b: seq<Record>)
    ensures Print(a + b) == Print(a) + Print(b)
  {
    if a == [] {
      assert a + b == b;
    } else {
      assert (a + b)[1..] == a[1..] + b;
      PrintConcat(a[1..], b);
    }
  }

  lemma {:induction false} OffsetPrint(lap: seq<Record>, i: nat)
    requires i <= |lap|
    ensures |Print(lap[..i])| == Offset(lap, i)
  {
    if i != 0 {
      OffsetPrint(lap, i - 1);
      assert lap[..i] == lap[..i - 1] + [lap[i - 1]];
      PrintConcat(lap[..i - 1], [lap[i - 1]]);
      PrintOne(lap[i - 1]);
    }
  }

  lemma PrintOne(r: Record)
    ensures Print([r]) == RecordBytes(r)
  {
    assert [r][1..] == [];
    assert Print([r]) == RecordBytes(r) + Print([]);
  }

  /** The bytes of the `i`-th record lie between its offset and the next. */
  lemma PrintAt(lap: seq<Record>, i: nat)
    requires i < |lap|
    ensures Offset(lap, i + 1) <= |Print(lap)|
    ensures Print(lap)[Offset(lap, i)..Offset(lap, i + 1)] == RecordBytes(lap[i])
  {
    var a, b, c := lap[..i], [lap[i]], lap[i + 1..];
    assert lap == a + (b + c);
    PrintConcat(a, b + c);
    PrintConcat(b, c);
    PrintOne(lap[i]);
    OffsetPrint(lap, i);
    assert Print(lap) == Print(a) + (RecordBytes(lap[i]) + Print(c));
    MiddleSlice(Print(a), RecordBytes(lap[i]), Print(c));
  }

  lemma MiddleSlice(x: seq<byte>, y: seq<byte>, z: seq<byte>)
    ensures (x + (y + z))[|x|..|x| + |y|] == y
  {
    assert (x + (y + z))[|x|..] == y + z;
  }

  lemma PrintEnd(lap: seq<Record>)
    ensures End(lap) == |Print(lap)|
  {
    OffsetPrint(lap, |lap|);
    assert lap[..|lap|] == lap;
  }

  /** Record `x` lies at `abs` under header `h`. */
  ghost predicate Lies(file: seq<byte>, abs: nat, h: DiskHeader, x: Record) {
    && abs + HEADER_SIZE + |x.data| <= |file|
    && DecodeHeader(file[abs..abs + HEADER_SIZE]) == h
    && h.marker == MARKER && h.size == |x.data| && x.header == RecordHeader(h.size, h.crc32, h.timestampUs, h.tag)
    && file[abs + HEADER_SIZE..abs + HEADER_SIZE + |x.data|] == x.data
    && CrcMatches(x.header, x.data)
  }

  lemma FoundLies(d: Disk, pos: nat, x: Record) returns (f: seq<byte>, abs: nat, h: DiskHeader)
    requires Shape(d) && ReadAt(d, pos) == Found(x, TotalSize(x))
    ensures pos + TotalSize(x) <= d.size && f == d.file && abs == CONTROL_SIZE + pos && Lies(f, abs, h, x)
  {
    f, abs, h := FoundHeader(d, pos, x);
    FoundBody(f, abs + HEADER_SIZE, h, x);
  }

  lemma FoundHeader(d: Disk, pos: nat, x: Record) returns (f: seq<byte>, abs: nat, h: DiskHeader)
    requires Shape(d) && ReadAt(d, pos) == Found(x, TotalSize(x))
    ensures f == d.file && abs == CONTROL_SIZE + pos && abs + HEADER_SIZE <= |f|
    ensures DecodeHeader(f[abs..abs + HEADER_SIZE]) == h && ReadBody(f, abs + HEADER_SIZE, h) == Found(x, TotalSize(x))
  {
    f, abs := d.file, CONTROL_SIZE + pos;
    h := DecodeHeader(f[abs..abs + HEADER_SIZE]);
  }

  lemma FoundBody(f: seq<byte>, at: nat, h: DiskHeader, x: Record)
    requires ReadBody(f, at, h) == Found(x, TotalSize(x))
    ensures at + |x.data| <= |f| && f[at..at + |x.data|] == x.data && CrcMatches(x.header, x.data)
    ensures h.marker == MARKER && h.size == |x.data| && x.header == RecordHeader(h.size, h.crc32, h.timestampUs, h.tag)
  {}

  lemma LiesFound(d: Disk, pos: nat, f: seq<byte>, abs: nat, h: DiskHeader, x: Record)
    requires Shape(d) && f == d.file && abs == CONTROL_SIZE + pos && Lies(f, abs, h, x)
    ensures ReadAt(d, pos) == Found(x, TotalSize(x))
  {
    BodyFound(f, abs + HEADER_SIZE, h, x);
    ReadAtHeader(d, pos, f, abs, h);
  }

  lemma BodyFound(f: seq<byte>, at: nat, h: DiskHeader, x: Record)
    requires at + |x.data| <= |f| && f[at..at + |x.data|] == x.data && CrcMatches(x.header, x.data)
    requires h.marker == MARKER && h.size == |x.data| && x.header == RecordHeader(h.size, h.crc32, h.timestampUs, h.tag)
    ensures ReadBody(f, at, h) == Found(x, TotalSize(x))
  {}

  /** The parser undoes the printer: reading where a record's bytes lie gives that record. */
  lemma ReadStored(d: Disk, pos: nat, r: Record)
    requires Shape(d) && Canonical(r) && pos + TotalSize(r) <= d.size
    requires d.file[CONTROL_SIZE + pos..CONTROL_SIZE + pos + TotalSize(r)] == RecordBytes(r)
    ensures ReadAt(d, pos) == Found(r, TotalSize(r))
  {
    var f, abs, h := StoredLies(d.file, CONTROL_SIZE + pos, r);
    LiesFound(d, pos, f, abs, h, r);
  }

  lemma StoredLies(file: seq<byte>, at: nat, r: Record) returns (f: seq<byte>, abs: nat, h: DiskHeader)
    requires at + TotalSize(r) <= |file| && file[at..at + TotalSize(r)] == RecordBytes(r) && Canonical(r)
    ensures f == file && abs == at && Lies(f, abs, h, r)
  {
    f, abs := file, at;
    h := StoredParts(file, at, r);
    HeaderDescribes(r, h);
  }

  lemma HeaderDescribes(r: Record, h: DiskHeader)
    requires Canonical(r) && h == HeaderFor(r)
    ensures h.marker == MARKER && h.size == |r.data| && r.header == RecordHeader(h.size, h.crc32, h.timestampUs, h.tag)
  {}

  lemma ReadAtHeader(d: Disk, pos: nat, f: seq<byte>, abs: nat, h: DiskHeader)
    requires Shape(d) && f == d.file && abs == CONTROL_SIZE + pos && abs + HEADER_SIZE <= |f|
    requires DecodeHeader(f[abs..abs + HEADER_SIZE]) == h
    ensures ReadAt(d, pos) == ReadBody(f, abs + HEADER_SIZE, h)
  {}

  lemma StoredParts(file: seq<byte>, abs: nat, r: Record) returns (h: DiskHeader)
    requires abs + TotalSize(r) <= |file|
    requires file[abs..abs + TotalSize(r)] == RecordBytes(r)
    ensures h == HeaderFor(r) && DecodeHeader(file[abs..abs + HEADER_SIZE]) == h
    ensures file[abs + HEADER_SIZE..abs + HEADER_SIZE + |r.data|] == r.data
  {
    h := HeaderFor(r);
    PartsOf(file, abs, EncodeHeader(h), r.data);
    HeaderRoundTrip(h);
  }

  lemma PartsOf(file: seq<byte>, abs: nat, x: seq<byte>, y: seq<byte>)
    requires abs + |x| + |y| <= |file| && file[abs..abs + |x| + |y|] == x + y
    ensures file[abs..abs + |x|] == x && file[abs + |x|..abs + |x| + |y|] == y
  {
    var s := file[abs..abs + |x| + |y|];
    assert file[abs..abs + |x|] == s[..|x|];
    assert file[abs + |x|..abs + |x| + |y|] == s[|x|..];
  }

  lemma StoredInLap(d: Disk, lap: seq<Record>, i: nat)
    requires Layout(d, lap) && i < |lap|
    ensures Offset(lap, i + 1) == Offset(lap, i) + TotalSize(lap[i]) <= d.control.writePos
    ensures d.file[CONTROL_SIZE + Offset(lap, i)..CONTROL_SIZE + Offset(lap, i + 1)] == RecordBytes(lap[i])
  {
    PrintAt(lap, i);
    SubSlice(d.file, CONTROL_SIZE, Print(lap), Offset(lap, i), Offset(lap, i + 1), RecordBytes(lap[i]));
  }

  lemma SubSlice(f: seq<byte>, a: nat, s: seq<byte>, p: nat, q: nat, t: seq<byte>)
    requires a + |s| <= |f| && f[a..a + |s|] == s
    requires p <= q <= |s| && s[p..q] == t
    ensures f[a + p..a + q] == t
  {
    forall i | 0 <= i < q - p ensures f[a + p..a + q][i] == t[i] {
      assert f[a + p..a + q][i] == s[p + i];
    }
  }

  lemma ReadInLap(d: Disk, lap: seq<Record>, i: nat)
    requires Layout(d, lap) && i < |lap|
    ensures ReadAt(d, Offset(lap, i)) == Found(lap[i], TotalSize(lap[i]))
  {
    var pos, r := RecordInLap(d, lap, i);
    ReadStored(d, pos, r);
  }

  lemma RecordInLap(d: Disk, lap: seq<Record>, i: nat) returns (pos: nat, r: Record)
    requires Layout(d, lap) && i < |lap|
    ensures pos == Offset(lap, i) && r == lap[i] && Canonical(r) && pos + TotalSize(r) <= d.control.writePos <= d.size
    ensures d.file[CONTROL_SIZE + pos..CONTROL_SIZE + pos + TotalSize(r)] == RecordBytes(r)
  {
    pos, r := Offset(lap, i), lap[i];
    assert Canonical(lap[i]);
    StoredInLap(d, lap, i);
  }

  /** A file with a printed lap lists that lap. */
  lemma LayoutLists(d: Disk, lap: seq<Record>)
    requires Layout(d, lap)
    ensures Lists(ReaderOf(d), lap) && d.control.writePos == End(lap)
  {
    PrintEnd(lap);
    forall i: nat ensures ListsAt(ReaderOf(d), lap, i) {
      if i < |lap| {
        ReadInLap(d, lap, i);
      }
    }
  }

  /** The file parses from offset 0 to exactly the current lap. */
  lemma LapParses(d: Disk, lap: seq<Record>)
    requires Layout(d, lap)
    ensures ScanFrom(d, 0) == Records(lap, d.control.writePos)
  {
    LayoutLists(d, lap);
    ReadFromBoundary(ReaderOf(d), lap, 0);
    assert lap[0..] == lap;
  }

  // ---- Every operation keeps the layout ----

  lemma CreateHolds(size: nat, range: CrcRange)
    requires size <= MAX_SIZE
    ensures Holds(Create(size, range), []) && Create(size, range).control.readPos == 0
  {
    DocumentedCrcVerifies(ControlBlock(MAGIC, VERSION, size, 0, 0, 0, 0));
  }

  lemma StoreControlSaves(d: Disk, c: ControlBlock)
    requires |d.file| >= CONTROL_SIZE && c.magic == MAGIC && c.bufferSize == d.size
    ensures Saved(StoreControl(d, c))
  {
    DocumentedCrcVerifies(c);
  }

  lemma StoreControlLayout(d: Disk, lap: seq<Record>, c: ControlBlock)
    requires Layout(d.(control := c), lap)
    ensures Layout(StoreControl(d, c), lap)
  {
    var d' := StoreControl(d, c);
    var end := CONTROL_SIZE + c.writePos;
    assert d'.file[CONTROL_SIZE..end] == d'.file[CONTROL_SIZE..][..c.writePos];
    assert d.file[CONTROL_SIZE..end] == d.file[CONTROL_SIZE..][..c.writePos];
  }

  /** The lap after a write: extended, restarted by a wrap, or unchanged when the record is refused. */
  function LapAfterWrite(size: nat, lap: seq<Record>, r: Record): seq<Record> {
    if TotalSize(r) > size then lap
    else if |Print(lap)| + TotalSize(r) > size then [Stamped(r)]
    else lap + [Stamped(r)]
  }

  lemma PrintSnoc(lap: seq<Record>, r: Record)
    requires Storable(r)
    ensures Print(lap + [Stamped(r)]) == Print(lap) + RecordBytes(r)
  {
    PrintConcat(lap, [Stamped(r)]);
    StampedCanonical(r);
    PrintOne(Stamped(r));
  }

  /** Bytes stored right behind a printed lap print the lap with the record added. */
  lemma AppendLayout(f: seq<byte>, lap: seq<Record>, r: Record)
    requires Storable(r)
    requires CONTROL_SIZE + |Print(lap)| + TotalSize(r) <= |f|
    requires f[CONTROL_SIZE..CONTROL_SIZE + |Print(lap)|] == Print(lap)
    ensures var g := Splice(f, CONTROL_SIZE + |Print(lap)|, RecordBytes(r));
            g[CONTROL_SIZE..CONTROL_SIZE + |Print(lap)| + TotalSize(r)] == Print(lap + [Stamped(r)])
  {
    SpliceBehind(f, CONTROL_SIZE, Print(lap), RecordBytes(r));
    PrintSnoc(lap, r);
  }

  lemma SpliceBehind(f: seq<byte>, a: nat, x: seq<byte>, b: seq<byte>)
    requires a + |x| + |b| <= |f| && f[a..a + |x|] == x
    ensures Splice(f, a + |x|, b)[a..a + |x| + |b|] == x + b
  {
    var g, m := Splice(f, a + |x|, b), a + |x|;
    SpliceSlices(f, m, b, a, m);
    assert g[a..m + |b|] == g[a..m] + g[m..m + |b|];
  }

  lemma AppendedLayout(d: Disk, lap: seq<Record>, r: Record, c: ControlBlock)
    requires Shape(d) && AllCanonical(lap) && Storable(r)
    requires |Print(lap)| + TotalSize(r) == c.writePos <= d.size
    requires d.file[CONTROL_SIZE..CONTROL_SIZE + |Print(lap)|] == Print(lap)
    ensures Layout(d.(file := Splice(d.file, CONTROL_SIZE + |Print(lap)|, RecordBytes(r)), control := c), lap +
          [Stamped(r)])
  {
    AppendLayout(d.file, lap, r);
    StampedCanonical(r);
    PrintSnoc(lap, r);
    CanonicalSnoc(lap, Stamped(r));
  }

  lemma CanonicalSnoc(lap: seq<Record>, r: Record)
    requires AllCanonical(lap) && Canonical(r)
    ensures AllCanonical(lap + [r])
  {
    forall i | 0 <= i < |lap| + 1 ensures Canonical((lap + [r])[i]) {
      if i < |lap| {
        assert Canonical(lap[i]);
      }
    }
  }

  lemma StoredLayout(d: Disk, lap: seq<Record>, r: Record, c: ControlBlock)
    requires Shape(d) && AllCanonical(lap) && Storable(r)
    requires |Print(lap)| == c.writePos && c.writePos + TotalSize(r) <= d.size
    requires d.file[CONTROL_SIZE..CONTROL_SIZE + |Print(lap)|] == Print(lap)
    ensures var f := Splice(d.file, CONTROL_SIZE + c.writePos, RecordBytes(r));
            Layout(StoreControl(d.(file := f), c.(writePos := c.writePos + TotalSize(r))), lap + [Stamped(r)])
  {
    var c' := c.(writePos := c.writePos + TotalSize(r));
    AppendedLayout(d, lap, r, c');
    StoreControlLayout(d.(file := Splice(d.file, CONTROL_SIZE + c.writePos, RecordBytes(r))), lap + [Stamped(r)], c');
  }

  lemma WrapLayout(d: Disk, lap: seq<Record>, r: Record)
    requires Layout(d, lap) && Storable(r) && Fits(d, r) && Wraps(d, r)
    ensures Layout(WriteRecord(d, r), [Stamped(r)])
  {
    assert d.file[CONTROL_SIZE..CONTROL_SIZE] == Print([]);
    StoredLayout(d, [], r, WrapControl(d, r));
    assert [] + [Stamped(r)] == [Stamped(r)];
  }

  lemma StayLayout(d: Disk, lap: seq<Record>, r: Record)
    requires Layout(d, lap) && Storable(r) && Fits(d, r) && !Wraps(d, r)
    ensures Layout(WriteRecord(d, r), lap + [Stamped(r)])
  {
    StoredLayout(d, lap, r, d.control);
  }

  lemma WriteLayout(d: Disk, lap: seq<Record>, r: Record)
    requires Layout(d, lap) && Storable(r)
    ensures Layout(WriteRecord(d, r), LapAfterWrite(d.size, lap, r))
  {
    if Fits(d, r) {
      if Wraps(d, r) {
        WrapLayout(d, lap, r);
      } else {
        StayLayout(d, lap, r);
      }
    }
  }

  lemma WriteHolds(d: Disk, lap: seq<Record>, r: Record)
    requires Holds(d, lap) && Storable(r)
    ensures Holds(WriteRecord(d, r), LapAfterWrite(d.size, lap, r))
    ensures WriteRecord(d, r).control.readPos == d.control.readPos
  {
    WriteLayout(d, lap, r);
    WriteSaves(d, r);
  }

  lemma WriteSaves(d: Disk, r: Record)
    requires Shape(d) && Saved(d)
    ensures Saved(WriteRecord(d, r))
  {
    if Fits(d, r) {
      var c := WrapControl(d, r);
      StoreControlSaves(d.(file := StoreRecord(d, r)), c.(writePos := c.writePos + TotalSize(r)));
    }
  }

  /** Record stores stay inside the data area and leave the rest of it alone. */
  lemma WriteFootprint(d: Disk, r: Record, i: nat)
    requires Shape(d) && Fits(d, r) && i < |d.file|
    ensures var at := CONTROL_SIZE + WrapControl(d, r).writePos;
            && CONTROL_SIZE <= at && at + TotalSize(r) <= |d.file|
            && StoreRecord(d, r)[..CONTROL_SIZE] == d.file[..CONTROL_SIZE]
            && (CONTROL_SIZE <= i && !(at <= i < at + TotalSize(r)) ==> WriteRecord(d, r).file[i] == d.file[i])
  {
    var at := CONTROL_SIZE + WrapControl(d, r).writePos;
    SpliceSlices(d.file, at, RecordBytes(r), 0, CONTROL_SIZE);
    var d1 := d.(file := StoreRecord(d, r));
    var d2 := WriteRecord(d, r);
    if CONTROL_SIZE <= i {
      assert d2.file[i] == d2.file[CONTROL_SIZE..][i - CONTROL_SIZE] == d1.file[CONTROL_SIZE..][i - CONTROL_SIZE];
    }
  }

  lemma ReadPositionHolds(d: Disk, lap: seq<Record>, pos: u64)
    requires Holds(d, lap)
    ensures Holds(StoreControl(d, d.control.(readPos := pos)), lap)
  {
    StoreControlLayout(d, lap, d.control.(readPos := pos));
    StoreControlSaves(d, d.control.(readPos := pos));
  }

  lemma ReadAllHolds(d: Disk, lap: seq<Record>)
    requires Holds(d, lap)
    ensures Holds(ReadAll(d).1, lap)
  {
    if d.control.readPos != d.control.writePos {
      var out := ScanFrom(d, d.control.readPos);
      if out.Records? {
        ReadPositionHolds(d, lap, out.end);
      }
    }
  }

  // ---- Runs ----

  datatype Op = Write(record: Record) | ReadAllOp | ResetOp

  function Apply(d: Disk, op: Op): (d': Disk)
    requires Shape(d)
    ensures Shape(d') && d'.size == d.size
  {
    match op
    case Write(r) => WriteRecord(d, r)
    case ReadAllOp => ReadAll(d).1
    case ResetOp => ResetReadPosition(d)
  }

  function Run(d: Disk, ops: seq<Op>): (d': Disk)
    requires Shape(d)
    ensures Shape(d') && d'.size == d.size
    decreases |ops|
  {
    if ops == [] then d else Run(Apply(d, ops[0]), ops[1..])
  }

  function LapAfterOp(size: nat, lap: seq<Record>, op: Op): seq<Record> {
    if op.Write? then LapAfterWrite(size, lap, op.record) else lap
  }

  function LapAfter(size: nat, lap: seq<Record>, ops: seq<Op>): seq<Record>
    decreases |ops|
  {
    if ops == [] then lap else LapAfter(size, LapAfterOp(size, lap, ops[0]), ops[1..])
  }

  ghost predicate StorableOp(op: Op) {
    op.Write? ==> Storable(op.record)
  }

  lemma ApplyHolds(d: Disk, lap: seq<Record>, op: Op)
    requires Holds(d, lap) && StorableOp(op)
    ensures Holds(Apply(d, op), LapAfterOp(d.size, lap, op))
  {
    match op
    case Write(r) => WriteHolds(d, lap, r);
    case ReadAllOp => ReadAllHolds(d, lap);
    case ResetOp => ReadPositionHolds(d, lap, d.control.writePos);
  }

  lemma {:induction false} RunHolds(d: Disk, lap: seq<Record>, ops: seq<Op>)
    requires Holds(d, lap)
    requires forall op :: op in ops ==> StorableOp(op)
    ensures Holds(Run(d, ops), LapAfter(d.size, lap, ops))
    decreases |ops|
  {
    if ops != [] {
      ApplyHolds(d, lap, ops[0]);
      RunHolds(Apply(d, ops[0]), LapAfterOp(d.size, lap, ops[0]), ops[1..]);
    }
  }

  /**
   In every state any run of operations reaches from a new file, after any number of wraps,
   the write position is inside the data area and the file parses from offset 0 to exactly the
   records written since the last wrap, ending at the write position.
   */
  lemma ReachableFileParses(size: nat, range: CrcRange, ops: seq<Op>)
    requires size <= MAX_SIZE
    requires forall op :: op in ops ==> StorableOp(op)
    ensures var d := Run(Create(size, range), ops);
            var lap := LapAfter(size, [], ops);
            && d.control.writePos == |Print(lap)| <= size
            && ScanFrom(d, 0) == Records(lap, d.control.writePos)
  {
    CreateHolds(size, range);
    RunHolds(Create(size, range), [], ops);
    LapParses(Run(Create(size, range), ops), LapAfter(size, [], ops));
  }
}
