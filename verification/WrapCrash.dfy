/** Crashes inside a write that wraps: exactly when the unread records survive, and a case where they do not. */
module WrapCrash {
  import opened Bytes
  import opened Records
  import opened DiskFormat
  import opened LapReader
  import opened RingFile
  import opened Recovery
  import Crc32

  /**
   A wrapping write is not crash-atomic. Stopped after `k` bytes the file still reopens, with the
   old control block; the old lap is whole exactly when those bytes were already there; and
   `read_all` returns the unread records if and only if of each of them the bytes stored kept
   all that `read_at` looks at. So nothing unread is lost when nothing is unread, or when the
   bytes overwritten had all been read.
   */
  lemma CrashInWrap(d: Disk, lap: seq<Record>, j: nat, r: Record, k: nat, size: nat) returns (d': Disk)
    requires Holds(d, lap) && ReadUpTo(d, lap, j) && d.range == Documented && size <= MAX_SIZE
    requires Fits(d, r) && Wraps(d, r) && k <= TotalSize(r)
    ensures d' == d.(file := CrashFile(d, r, Storing(k))) && Open(d'.file, size, Documented) == Opened(d')
    ensures var m := Min(k, d.control.writePos); Layout(d', lap) <==> RecordBytes(r)[..m] == Print(lap)[..m]
    ensures ReadAll(d').0 == LapReader.Records(lap[j..], d.control.writePos) <==>
          UnreadKept(d, lap, j, RecordBytes(r)[..k])
    ensures Layout(d', lap) || k <= Offset(lap, j) ==> ReadAll(d').0 == LapReader.Records(lap[j..], d.control.writePos)
  {
    d' := TornFile(d, r, k);
    OpenSaved(d', size);
    WholeIff(d, lap, r, k);
    ReadAllTornIff(d, lap, j, RecordBytes(r)[..k], d');
    if Layout(d', lap) {
      ReadAllUnread(d', lap, j);
    } else if k <= Offset(lap, j) {
      BehindTear(d, lap, j, RecordBytes(r)[..k]);
    }
  }

  // ---- What a tear must keep ----

  /** Storing `b` from offset 0 changes nothing that `read_at` looks at in the `n` bytes of a record at `pos`. */
  ghost predicate Kept(f: seq<byte>, b: seq<byte>, pos: nat, n: nat) {
    forall i: nat {:trigger b[i]} ::
      pos <= i < pos + n && i < |b| && CONTROL_SIZE + i < |f| && !(pos + HEADER_USED <= i < pos + HEADER_SIZE) ==>
        b[i] == f[CONTROL_SIZE + i]
  }

  ghost predicate RecordKept(d: Disk, lap: seq<Record>, b: seq<byte>, m: nat) {
    m < |lap| ==> Kept(d.file, b, Offset(lap, m), TotalSize(lap[m]))
  }

  ghost predicate UnreadKept(d: Disk, lap: seq<Record>, j: nat, b: seq<byte>) {
    forall m: nat {:trigger RecordKept(d, lap, b, m)} :: j <= m ==> RecordKept(d, lap, b, m)
  }

  lemma BehindTear(d: Disk, lap: seq<Record>, j: nat, b: seq<byte>)
    requires j <= |lap| && |b| <= Offset(lap, j)
    ensures UnreadKept(d, lap, j, b)
  {
    forall m: nat | j <= m ensures RecordKept(d, lap, b, m) {
      if m < |lap| {
        OffsetGrows(lap, j, m);
      }
    }
  }

  /** The two files agree on all that `read_at` looks at in the `n` bytes at `abs`. */
  ghost predicate Survives(f: seq<byte>, g: seq<byte>, abs: nat, n: nat) {
    && |g| == |f| && HEADER_SIZE <= n && abs + n <= |f|
    && f[abs..abs + HEADER_USED] == g[abs..abs + HEADER_USED]
    && f[abs + HEADER_SIZE..abs + n] == g[abs + HEADER_SIZE..abs + n]
  }

  lemma SliceFront(f: seq<byte>, abs: nat, n: nat, m: nat)
    requires abs + n <= |f| && m <= n
    ensures f[abs..abs + n][..m] == f[abs..abs + m]
  {}

  lemma SurvivorLies(f: seq<byte>, g: seq<byte>, abs: nat, h: DiskHeader, x: Record) returns (h': DiskHeader)
    requires Lies(f, abs, h, x) && Survives(f, g, abs, TotalSize(x))
    ensures Lies(g, abs, h', x)
  {
    var a, b := f[abs..abs + HEADER_SIZE], g[abs..abs + HEADER_SIZE];
    SliceFront(f, abs, HEADER_SIZE, HEADER_USED);
    SliceFront(g, abs, HEADER_SIZE, HEADER_USED);
    HeadersAgreeIff(a, b);
    h' := DecodeHeader(b);
  }

  lemma LiesSurvives(f: seq<byte>, g: seq<byte>, abs: nat, h: DiskHeader, h': DiskHeader, x: Record)
    requires |g| == |f| && Lies(f, abs, h, x) && Lies(g, abs, h', x)
    ensures Survives(f, g, abs, TotalSize(x))
  {
    var a, b := f[abs..abs + HEADER_SIZE], g[abs..abs + HEADER_SIZE];
    HeadersAgreeIff(a, b);
    SliceFront(f, abs, HEADER_SIZE, HEADER_USED);
    SliceFront(g, abs, HEADER_SIZE, HEADER_USED);
  }

  lemma ReadIff(d: Disk, d': Disk, pos: nat, x: Record)
    requires Shape(d) && Shape(d') && |d'.file| == |d.file| && ReadAt(d, pos) == Found(x, TotalSize(x))
    ensures ReadAt(d', pos) == Found(x, TotalSize(x)) <==> Survives(d.file, d'.file, CONTROL_SIZE + pos, TotalSize(x))
  {
    var f, abs, h := FoundLies(d, pos, x);
    if Survives(d.file, d'.file, CONTROL_SIZE + pos, TotalSize(x)) {
      ReadSurvivor(f, d', pos, abs, h, x);
    }
    if ReadAt(d', pos) == Found(x, TotalSize(x)) {
      FoundSurvives(f, d', pos, abs, h, x);
    }
  }

  lemma FoundSurvives(f: seq<byte>, d': Disk, pos: nat, abs: nat, h: DiskHeader, x: Record)
    requires Shape(d') && |d'.file| == |f| && abs == CONTROL_SIZE + pos && Lies(f, abs, h, x)
    requires ReadAt(d', pos) == Found(x, TotalSize(x))
    ensures Survives(f, d'.file, abs, TotalSize(x))
  {
    var g, at, h' := FoundLies(d', pos, x);
    LiesSurvives(f, g, abs, h, h', x);
  }

  lemma ReadSurvivor(f: seq<byte>, d': Disk, pos: nat, abs: nat, h: DiskHeader, x: Record)
    requires Shape(d') && abs == CONTROL_SIZE + pos && Lies(f, abs, h, x) && Survives(f, d'.file, abs, TotalSize(x))
    ensures ReadAt(d', pos) == Found(x, TotalSize(x))
  {
    var g := d'.file;
    var h' := SurvivorLies(f, g, abs, h, x);
    LiesFound(d', pos, g, abs, h', x);
  }

  lemma KeptIff(f: seq<byte>, b: seq<byte>, pos: nat, n: nat, g: seq<byte>)
    requires CONTROL_SIZE + |b| <= |f| && CONTROL_SIZE + pos + n <= |f| && HEADER_SIZE <= n
    requires g == Splice(f, CONTROL_SIZE, b)
    ensures Survives(f, g, CONTROL_SIZE + pos, n) <==> Kept(f, b, pos, n)
  {
    var abs := CONTROL_SIZE + pos;
    SliceSameIff(f, g, b, abs, abs + HEADER_USED);
    SliceSameIff(f, g, b, abs + HEADER_SIZE, abs + n);
  }

  lemma SliceSameIff(f: seq<byte>, g: seq<byte>, b: seq<byte>, lo: nat, hi: nat)
    requires CONTROL_SIZE + |b| <= |f| && g == Splice(f, CONTROL_SIZE, b) && CONTROL_SIZE <= lo <= hi <= |f|
    ensures f[lo..hi] == g[lo..hi] <==>
              forall i: nat {:trigger b[i]} :: lo <= CONTROL_SIZE + i < hi && i < |b| ==> b[i] == f[CONTROL_SIZE + i]
  {
    forall i | lo <= i < hi ensures g[i] == if i < CONTROL_SIZE + |b| then b[i - CONTROL_SIZE] else f[i] {}
    if f[lo..hi] == g[lo..hi] {
      forall i: nat | lo <= CONTROL_SIZE + i < hi && i < |b| ensures b[i] == f[CONTROL_SIZE + i] {
        assert f[lo..hi][CONTROL_SIZE + i - lo] == g[lo..hi][CONTROL_SIZE + i - lo];
      }
    }
  }

  lemma DiskMeasured(d: Disk)
    ensures Measured(ReaderOf(d))
  {}

  /** The reader of the torn file finds the records from `j` on exactly when their bytes were kept. */
  lemma ListsTornIff(d: Disk, lap: seq<Record>, j: nat, b: seq<byte>, d': Disk)
    requires Layout(d, lap) && j <= |lap| && CONTROL_SIZE + |b| <= |d.file|
    requires d' == d.(file := Splice(d.file, CONTROL_SIZE, b))
    ensures ListsFrom(ReaderOf(d'), lap, j) <==> UnreadKept(d, lap, j, b)
  {
    forall m: nat | j <= m ensures ListsAt(ReaderOf(d'), lap, m) <==> RecordKept(d, lap, b, m) {
      if m < |lap| {
        var pos, x := FoundInLap(d, lap, m);
        ReadIff(d, d', pos, x);
        KeptIff(d.file, b, pos, TotalSize(x), d'.file);
      }
    }
  }

  lemma ReadAllTornIff(d: Disk, lap: seq<Record>, j: nat, b: seq<byte>, d': Disk)
    requires Holds(d, lap) && ReadUpTo(d, lap, j) && CONTROL_SIZE + |b| <= |d.file|
    requires d' == d.(file := Splice(d.file, CONTROL_SIZE, b))
    ensures ReadAll(d').0 == LapReader.Records(lap[j..], d.control.writePos) <==> UnreadKept(d, lap, j, b)
  {
    ListsTornIff(d, lap, j, b, d');
    PrintEnd(lap);
    ReadAllIff(d', lap, j);
  }

  /** `read_all` returns the records from the read position on exactly when the file lists them. */
  lemma ReadAllIff(d: Disk, lap: seq<Record>, j: nat)
    requires Shape(d) && ReadUpTo(d, lap, j) && d.control.writePos == End(lap)
    ensures ReadAll(d).0 == LapReader.Records(lap[j..], d.control.writePos) <==> ListsFrom(ReaderOf(d), lap, j)
  {
    if d.control.readPos == d.control.writePos {
      OffsetInjective(lap, j, |lap|);
    } else {
      DiskMeasured(d);
      if ListsFrom(ReaderOf(d), lap, j) {
        ReadFromBoundary(ReaderOf(d), lap, j);
      }
      if ReadAll(d).0 == LapReader.Records(lap[j..], d.control.writePos) {
        ReadFromOnlyIf(ReaderOf(d), lap, j);
      }
    }
  }

  lemma TornFile(d: Disk, r: Record, k: nat) returns (d': Disk)
    requires Shape(d) && Saved(d) && Fits(d, r) && Wraps(d, r) && k <= TotalSize(r)
    ensures d' == d.(file := CrashFile(d, r, Storing(k))) && Shape(d') && Saved(d')
    ensures d'.file == Splice(d.file, CONTROL_SIZE, RecordBytes(r)[..k])
  {
    d' := d.(file := CrashFile(d, r, Storing(k)));
    SpliceSlices(d.file, CONTROL_SIZE, RecordBytes(r)[..k], 0, CONTROL_SIZE);
  }

  lemma WholeIff(d: Disk, lap: seq<Record>, r: Record, k: nat)
    requires Holds(d, lap) && Fits(d, r) && Wraps(d, r) && k <= TotalSize(r)
    ensures var m := Min(k, d.control.writePos);
            Layout(d.(file := CrashFile(d, r, Storing(k))), lap) <==> RecordBytes(r)[..m] == Print(lap)[..m]
  {
    var m := Min(k, d.control.writePos);
    var front := RecordBytes(r)[..k];
    var g := SplicedWindow(d.file, CONTROL_SIZE, front, Print(lap), m);
    assert front[..m] == RecordBytes(r)[..m];
  }

  /**
   Stopped behind the new record's header, with nothing of the lap read yet, `read_all` takes
   the new header with data that is partly old, and fails unless the checksums happen to agree.
   */
  lemma TornWrapFails(d: Disk, lap: seq<Record>, r: Record, k: nat) returns (d': Disk, mixed: seq<byte>)
    requires Holds(d, lap) && lap != [] && ReadUpTo(d, lap, 0) && Storable(r)
    requires Fits(d, r) && Wraps(d, r) && HEADER_SIZE <= k <= TotalSize(r)
    ensures d' == d.(file := CrashFile(d, r, Storing(k))) && |mixed| == |r.data|
    ensures mixed == r.data[..k - HEADER_SIZE] + d.file[CONTROL_SIZE + k..CONTROL_SIZE + TotalSize(r)]
    ensures Crc32.Checksum(mixed) != Crc32.Checksum(r.data) ==> ReadAll(d') == (LapReader.Failed, d')
  {
    d' := TornFile(d, r, k);
    var h;
    h, mixed := TornParts(d.file, r, k, d'.file);
    if Crc32.Checksum(mixed) != Crc32.Checksum(r.data) {
      ReadCorruptParts(d', 0, d'.file, CONTROL_SIZE, h, mixed);
      OffsetGrows(lap, 0, |lap|);
      PrintEnd(lap);
    }
  }

  /**
   A wrapping crash does lose records: in a file that one record fills, a second write of as many
   bytes, different only within four of them, wraps, stores its header and stops. Before it
   `read_all` returned the first record; after reopening it fails.
   */
  lemma WrapCrashLoses(size: nat, r: Record, r': Record, at: nat)
    returns (d: Disk, d': Disk)
    requires Storable(r) && Storable(r') && TotalSize(r) == size <= MAX_SIZE
    requires Crc32.DifferInBurst(r.data, r'.data, at) && r.data != r'.data
    ensures d == WriteRecord(Create(size, Documented), r) && Fits(d, r') && Wraps(d, r')
    ensures ReadAll(d).0 == LapReader.Records([Stamped(r)], size)
    ensures d' == d.(file := CrashFile(d, r', Storing(HEADER_SIZE))) && Open(d'.file, size, Documented) == Opened(d')
    ensures ReadAll(d') == (LapReader.Failed, d')
  {
    var lap := [Stamped(r)];
    d := OneRecord(size, r);
    ReadAllUnread(d, lap, 0);
    var mixed;
    d', mixed := TornWrapFails(d, lap, r', HEADER_SIZE);
    var e := TornFile(d, r', HEADER_SIZE);
    OpenSaved(e, size);
    OldData(d, r, r', mixed);
    Crc32.BurstDetected(r.data, r'.data, at);
  }

  lemma OneRecord(size: nat, r: Record) returns (d: Disk)
    requires Storable(r) && TotalSize(r) == size <= MAX_SIZE
    ensures d == WriteRecord(Create(size, Documented), r) && Holds(d, [Stamped(r)]) && ReadUpTo(d, [Stamped(r)], 0)
    ensures d.control.writePos == size && d.size == size && d.range == Documented
  {
    var d0 := Create(size, Documented);
    CreateHolds(size, Documented);
    WriteHolds(d0, [], r);
    d := WriteRecord(d0, r);
    assert [] + [Stamped(r)] == [Stamped(r)];
  }

  /** Behind the new header the old data is still there. */
  lemma OldData(d: Disk, r: Record, r': Record, mixed: seq<byte>)
    requires Layout(d, [Stamped(r)]) && |r'.data| == |r.data|
    requires CONTROL_SIZE + TotalSize(r') <= |d.file|
    requires mixed == r'.data[..0] + d.file[CONTROL_SIZE + HEADER_SIZE..CONTROL_SIZE + TotalSize(r')]
    ensures mixed == r.data
  {
    var pos, x := FoundInLap(d, [Stamped(r)], 0);
    var f, abs, h := FoundLies(d, pos, x);
  }

  lemma TornParts(f: seq<byte>, r: Record, k: nat, g: seq<byte>) returns (h: DiskHeader, mixed: seq<byte>)
    requires CONTROL_SIZE + TotalSize(r) <= |f| && HEADER_SIZE <= k <= TotalSize(r) && Storable(r)
    requires g == Splice(f, CONTROL_SIZE, RecordBytes(r)[..k])
    ensures h.marker == MARKER && h.size == |r.data| && h.crc32 == Crc32.Checksum(r.data)
    ensures DecodeHeader(g[CONTROL_SIZE..CONTROL_SIZE + HEADER_SIZE]) == h
    ensures mixed == r.data[..k - HEADER_SIZE] + f[CONTROL_SIZE + k..CONTROL_SIZE + TotalSize(r)]
    ensures g[CONTROL_SIZE + HEADER_SIZE..CONTROL_SIZE + HEADER_SIZE + |r.data|] == mixed
  {
    h := HeaderFor(r);
    HeaderRoundTrip(h);
    mixed := SplicedHalves(f, CONTROL_SIZE, EncodeHeader(h), r.data, k - HEADER_SIZE, g);
  }

  lemma SplicedHalves(f: seq<byte>, at: nat, x: seq<byte>, y: seq<byte>, n: nat, g: seq<byte>)
    returns (mixed: seq<byte>)
    requires at + |x| + |y| <= |f| && n <= |y| && g == Splice(f, at, (x + y)[..|x| + n])
    ensures g[at..at + |x|] == x
    ensures mixed == y[..n] + f[at + |x| + n..at + |x| + |y|] && g[at + |x|..at + |x| + |y|] == mixed
  {
    var b := (x + y)[..|x| + n];
    assert b == x + y[..n];
    mixed := g[at + |x|..at + |x| + |y|];
    SpliceSlices(f, at, b, at + |b|, at + |x| + |y|);
    assert g[at..at + |x|] == g[at..at + |b|][..|x|];
    assert g[at + |x|..at + |b|] == g[at..at + |b|][|x|..];
    assert mixed == g[at + |x|..at + |b|] + g[at + |b|..at + |x| + |y|];
  }

  lemma SplicedWindow(f: seq<byte>, at: nat, b: seq<byte>, s: seq<byte>, m: nat) returns (g: seq<byte>)
    requires at + |b| <= |f| && at + |s| <= |f| && f[at..at + |s|] == s
    requires m == if |b| <= |s| then |b| else |s|
    ensures g == Splice(f, at, b) && |g| == |f| && (g[at..at + |s|] == s <==> b[..m] == s[..m])
  {
    g := Splice(f, at, b);
    var w := g[at..at + |s|];
    forall i | 0 <= i < |s| ensures w[i] == if i < m then b[i] else s[i] {
      assert w[i] == g[at + i] && s[i] == f[at + i];
    }
    if b[..m] == s[..m] {
      forall i | 0 <= i < |s| ensures w[i] == s[i] {
        assert i < m ==> b[i] == b[..m][i] == s[..m][i] == s[i];
      }
    } else {
      assert b[..m] == w[..m];
    }
  }
}
