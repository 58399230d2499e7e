/** Reopening a ring file: after a clean stop, after a crash inside `write`, and after corruption. */
module Recovery {
  import opened Bytes
  import opened Records
  import opened DiskFormat
  import opened LapReader
  import opened RingFile
  import Crc32

  // ---- Clean reopening ----

  lemma OpenSaved(d: Disk, size: nat)
    requires Saved(d) && size <= MAX_SIZE
    ensures Open(d.file, size, d.range) == if VerifyCrc(d.control, d.range) then Opened(d) else InvalidBuffer
  {
    ControlRoundTrip(d.control);
  }

  /** With the documented checksum range, reopening restores exactly the state that was saved. */
  lemma ReopenRestores(d: Disk, lap: seq<Record>, size: nat)
    requires Holds(d, lap) && d.range == Documented && size <= MAX_SIZE
    ensures Open(d.file, size, d.range) == Opened(d)
  {
    OpenSaved(d, size);
  }

  /**
   With the range as written, reopening after a control-block update works exactly when the
   checksum did not change.
  */
  lemma ReopenAsWritten(d: Disk, c: ControlBlock, size: nat)
    requires d.range == AsWritten && |d.file| >= CONTROL_SIZE && size <= MAX_SIZE
    requires c.magic == MAGIC && c.bufferSize == d.size
    ensures var d' := StoreControl(d, c);
            Open(d'.file, size, AsWritten) == if d'.control.crc32 == c.crc32 then Opened(d') else InvalidBuffer
  {
    StoreControlSaves(d, c);
    OpenSaved(StoreControl(d, c), size);
    AsWrittenCrcVerifies(c);
  }

  // ---- Unread records ----

  /** The first `j` records of the lap have been read. */
  ghost predicate ReadUpTo(d: Disk, lap: seq<Record>, j: nat) {
    j <= |lap| && d.control.readPos == Offset(lap, j)
  }

  /** `read_all` returns exactly the unread records and marks them read. */
  lemma ReadAllUnread(d: Disk, lap: seq<Record>, j: nat)
    requires Holds(d, lap) && ReadUpTo(d, lap, j)
    ensures ReadAll(d).0 == LapReader.Records(lap[j..], d.control.writePos)
    ensures Holds(ReadAll(d).1, lap) && ReadUpTo(ReadAll(d).1, lap, |lap|)
    ensures ReadAll(d).1.control.writePos == d.control.writePos && ReadAll(d).1.control.wrapCount == d.control.wrapCount
  {
    ReadAllHolds(d, lap);
    LayoutLists(d, lap);
    ReadFromBoundary(ReaderOf(d), lap, j);
    if d.control.readPos == d.control.writePos {
      OffsetInjective(lap, j, |lap|);
    }
  }

  /** After `reset_read_position` everything stored counts as read: `read_all` returns nothing. */
  lemma ResetReadsNothing(d: Disk, lap: seq<Record>)
    requires Holds(d, lap)
    ensures Holds(ResetReadPosition(d), lap) && ReadUpTo(ResetReadPosition(d), lap, |lap|)
    ensures ReadAll(ResetReadPosition(d)) == (LapReader.Records([], d.control.writePos), ResetReadPosition(d))
  {
    ReadPositionHolds(d, lap, d.control.writePos);
    PrintEnd(lap);
  }

  /**
   A write never moves the read position. So after one that wraps `read_all` returns the new lap
   if it starts at 0, and nothing at all if it starts behind the new record.
   */
  lemma ReadAfterWrap(d: Disk, lap: seq<Record>, r: Record) returns (d': Disk)
    requires Holds(d, lap) && Storable(r) && Fits(d, r) && Wraps(d, r)
    ensures d' == WriteRecord(d, r) && Holds(d', [Stamped(r)])
    ensures d'.control.readPos == d.control.readPos && d'.control.writePos == 24 + |r.data|
    ensures d.control.readPos == 0 ==> ReadAll(d').0 == LapReader.Records([Stamped(r)], 24 + |r.data|)
    ensures d.control.readPos >= 24 + |r.data| ==> ReadAll(d').0 == LapReader.Records([], d.control.readPos)
  {
    WriteHolds(d, lap, r);
    d' := WriteRecord(d, r);
    if d.control.readPos == 0 {
      ReadAllUnread(d', [Stamped(r)], 0);
      assert [Stamped(r)][0..] == [Stamped(r)];
    }
  }

  // ---- Crashes ----

  /** Anything may lie behind the write position: the file still reopens to the same lap. */
  lemma TornTail(d: Disk, lap: seq<Record>, g: seq<byte>, size: nat)
    requires Holds(d, lap) && d.range == Documented && size <= MAX_SIZE
    requires |g| == |d.file|
    requires var end := CONTROL_SIZE + d.control.writePos; g[..end] == d.file[..end]
    ensures Open(g, size, Documented) == Opened(d.(file := g)) && Holds(d.(file := g), lap)
  {
    var d' := SameFront(d, lap, g);
    OpenSaved(d', size);
  }

  lemma SameFront(d: Disk, lap: seq<Record>, g: seq<byte>) returns (d': Disk)
    requires Holds(d, lap) && |g| == |d.file|
    requires var end := CONTROL_SIZE + d.control.writePos; g[..end] == d.file[..end]
    ensures d' == d.(file := g) && Holds(d', lap)
  {
    var end := CONTROL_SIZE + d.control.writePos;
    PrefixSlice(g, d.file, end, 0, CONTROL_SIZE);
    PrefixSlice(g, d.file, end, CONTROL_SIZE, end);
    d' := d.(file := g);
  }

  /** Where a `write` stops: after some of the record's bytes, or after the control-block store. */
  datatype CrashPoint = Storing(stored: nat) | Complete

  function CrashFile(d: Disk, r: Record, p: CrashPoint): (g: seq<byte>)
    requires Shape(d) && Fits(d, r) && (p.Storing? ==> p.stored <= TotalSize(r))
    ensures |g| == |d.file|
  {
    match p
    case Storing(k) => Splice(d.file, CONTROL_SIZE + WrapControl(d, r).writePos, RecordBytes(r)[..k])
    case Complete => WriteRecord(d, r).file
  }

  /**
   A write that does not wrap is crash-atomic: wherever it stops, reopening succeeds, the file
   holds the old lap or the old lap with the new record, and `read_all` returns exactly the old
   unread records or those and the new one.
   */
  lemma CrashAtomic(d: Disk, lap: seq<Record>, j: nat, r: Record, p: CrashPoint, size: nat)
    requires Holds(d, lap) && ReadUpTo(d, lap, j) && d.range == Documented
    requires Storable(r) && Fits(d, r) && !Wraps(d, r) && size <= MAX_SIZE
    requires p.Storing? ==> p.stored <= TotalSize(r)
    ensures var lap' := if p.Storing? then lap else lap + [Stamped(r)];
            var o := Open(CrashFile(d, r, p), size, Documented);
            && o.Opened? && Holds(o.disk, lap') && ReadUpTo(o.disk, lap', j)
            && ReadAll(o.disk).0 == LapReader.Records(lap'[j..], o.disk.control.writePos)
  {
    match p
    case Storing(k) =>
      var at := CONTROL_SIZE + d.control.writePos;
      SpliceSlices(d.file, at, RecordBytes(r)[..k], 0, at);
      TornTail(d, lap, CrashFile(d, r, p), size);
      ReadAllUnread(d.(file := CrashFile(d, r, p)), lap, j);
    case Complete =>
      var d' := WriteRecord(d, r);
      PrintEnd(lap);
      WriteHolds(d, lap, r);
      ReopenRestores(d', lap + [Stamped(r)], size);
      OffsetPrefix(lap, [Stamped(r)], j);
      ReadAllUnread(d', lap + [Stamped(r)], j);
  }

  // ---- Corruption ----

  /** The file with a record's data replaced. */
  function Corrupted(d: Disk, pos: nat, data: seq<byte>): Disk
    requires Shape(d) && pos + HEADER_SIZE + |data| <= d.size
  {
    d.(file := Splice(d.file, CONTROL_SIZE + pos + HEADER_SIZE, data))
  }

  /** Where `read_at` finds a record, any change of its data within four consecutive bytes makes it invalid. */
  lemma BurstMakesCorrupt(d: Disk, pos: nat, r: Record, data: seq<byte>, k: nat)
    requires Shape(d) && ReadAt(d, pos) == Found(r, TotalSize(r))
    requires Crc32.DifferInBurst(r.data, data, k) && data != r.data
    ensures pos + HEADER_SIZE + |data| <= d.size && ReadAt(Corrupted(d, pos, data), pos) == Corrupt
  {
    Crc32.BurstDetected(r.data, data, k);
    var d' := ChangeMakesCorrupt(d, pos, r, data);
  }

  /** So does any change of the data that changes its checksum. */
  lemma ChangeMakesCorrupt(d: Disk, pos: nat, r: Record, data: seq<byte>) returns (d': Disk)
    requires Shape(d) && ReadAt(d, pos) == Found(r, TotalSize(r))
    requires |data| == |r.data| && Crc32.Checksum(data) != Crc32.Checksum(r.data)
    ensures pos + HEADER_SIZE + |data| <= d.size && d' == Corrupted(d, pos, data) && ReadAt(d', pos) == Corrupt
  {
    var f, abs, h := FoundLies(d, pos, r);
    var g := SplicedParts(f, abs, data);
    d' := d.(file := g);
    ReadCorruptParts(d', pos, g, abs, h, data);
  }

  lemma SplicedParts(file: seq<byte>, abs: nat, data: seq<byte>) returns (g: seq<byte>)
    requires abs + HEADER_SIZE + |data| <= |file|
    ensures g == Splice(file, abs + HEADER_SIZE, data) && |g| == |file|
    ensures g[abs..abs + HEADER_SIZE] == file[abs..abs + HEADER_SIZE]
    ensures g[abs + HEADER_SIZE..abs + HEADER_SIZE + |data|] == data
  {
    g := Splice(file, abs + HEADER_SIZE, data);
    SpliceSlices(file, abs + HEADER_SIZE, data, abs, abs + HEADER_SIZE);
  }

  lemma ReadCorruptParts(d: Disk, pos: nat, g: seq<byte>, abs: nat, h: DiskHeader, data: seq<byte>)
    requires Shape(d) && g == d.file && abs == CONTROL_SIZE + pos && abs + HEADER_SIZE + |data| <= |g|
    requires DecodeHeader(g[abs..abs + HEADER_SIZE]) == h
    requires g[abs + HEADER_SIZE..abs + HEADER_SIZE + |data|] == data
    requires h.marker == MARKER && h.size == |data| && h.crc32 != Crc32.Checksum(data)
    ensures ReadAt(d, pos) == Corrupt
  {
    BodyCorrupt(g, abs + HEADER_SIZE, h, data);
    ReadAtHeader(d, pos, g, abs, h);
  }

  lemma BodyCorrupt(file: seq<byte>, at: nat, h: DiskHeader, data: seq<byte>)
    requires at + |data| <= |file| && file[at..at + |data|] == data
    requires h.marker == MARKER && h.size == |data| && h.crc32 != Crc32.Checksum(data)
    ensures ReadBody(file, at, h) == Corrupt
  {}

  /** Such a change anywhere among the unread records makes `read_all` fail and leaves the read position alone. */
  lemma BurstStopsReadAll(d: Disk, lap: seq<Record>, j: nat, i: nat, data: seq<byte>, k: nat)
    requires Holds(d, lap) && ReadUpTo(d, lap, j) && j <= i < |lap|
    requires Crc32.DifferInBurst(lap[i].data, data, k) && data != lap[i].data
    requires Offset(lap, i) + HEADER_SIZE + |data| <= d.size
    ensures var d' := Corrupted(d, Offset(lap, i), data); ReadAll(d') == (LapReader.Failed, d')
  {
    var pos, r := FoundInLap(d, lap, i);
    var d' := CorruptedDisk(d, pos, r, data, k);
    PrefixListed(d, lap, i, d');
    ReadAllStops(d', lap, j, i);
  }

  lemma CorruptedDisk(d: Disk, pos: nat, r: Record, data: seq<byte>, k: nat) returns (d': Disk)
    requires Shape(d) && ReadAt(d, pos) == Found(r, TotalSize(r))
    requires Crc32.DifferInBurst(r.data, data, k) && data != r.data && pos + HEADER_SIZE + |data| <= d.size
    ensures d' == Corrupted(d, pos, data) && Shape(d') && d'.size == d.size && d'.control == d.control
    ensures d'.file[..CONTROL_SIZE + pos] == d.file[..CONTROL_SIZE + pos] && ReadAt(d', pos) == Corrupt
  {
    BurstMakesCorrupt(d, pos, r, data, k);
    d' := Corrupted(d, pos, data);
    SpliceSlices(d.file, CONTROL_SIZE + pos + HEADER_SIZE, data, 0, CONTROL_SIZE + pos);
  }

  lemma ReadAllStops(d: Disk, lap: seq<Record>, j: nat, i: nat)
    requires Shape(d) && j <= i < |lap| && d.control.readPos == Offset(lap, j) && Offset(lap, i) < d.control.writePos
    requires Lists(ReaderOf(d), lap[..i]) && ReadAt(d, Offset(lap, i)) == Corrupt
    ensures ReadAll(d) == (LapReader.Failed, d)
  {
    StopsBefore(lap, i, j);
    ReadFromCorrupt(ReaderOf(d), lap[..i], d.control.writePos, j);
  }

  lemma FoundInLap(d: Disk, lap: seq<Record>, i: nat) returns (pos: nat, r: Record)
    requires Layout(d, lap) && i < |lap|
    ensures pos == Offset(lap, i) && r == lap[i] && pos + TotalSize(r) <= d.control.writePos
    ensures ReadAt(d, pos) == Found(r, TotalSize(r))
  {
    pos, r := RecordInLap(d, lap, i);
    ReadStored(d, pos, r);
  }

  lemma StopsBefore(lap: seq<Record>, i: nat, j: nat)
    requires j <= i < |lap|
    ensures Offset(lap[..i], j) == Offset(lap, j) && End(lap[..i]) == Offset(lap, i)
    ensures Offset(lap, j) <= Offset(lap, i)
  {
    OffsetGrows(lap, j, i);
    assert lap == lap[..i] + lap[i..];
    OffsetPrefix(lap[..i], lap[i..], i);
    OffsetPrefix(lap[..i], lap[i..], j);
  }

  /** Records before a change stay readable. */
  lemma PrefixListed(d: Disk, lap: seq<Record>, i: nat, d': Disk)
    requires Layout(d, lap) && i <= |lap| && Offset(lap, i) <= d.size
    requires Shape(d') && d'.size == d.size
    requires var end := CONTROL_SIZE + Offset(lap, i); d'.file[..end] == d.file[..end]
    ensures Lists(ReaderOf(d'), lap[..i])
  {
    assert lap == lap[..i] + lap[i..];
    forall m: nat ensures ListsAt(ReaderOf(d'), lap[..i], m) {
      if m < i {
        OffsetPrefix(lap[..i], lap[i..], m);
        ReadBefore(d, lap, i, m, d');
      }
    }
  }

  lemma ReadBefore(d: Disk, lap: seq<Record>, i: nat, m: nat, d': Disk)
    requires Layout(d, lap) && m < i <= |lap| && Offset(lap, i) <= d.size
    requires Shape(d') && d'.size == d.size
    requires var end := CONTROL_SIZE + Offset(lap, i); d'.file[..end] == d.file[..end]
    ensures ReadAt(d', Offset(lap, m)) == Found(lap[m], TotalSize(lap[m]))
  {
    var pos, r := StoredBefore(d, lap, i, m, d'.file);
    ReadStored(d', pos, r);
  }

  lemma StoredBefore(d: Disk, lap: seq<Record>, i: nat, m: nat, g: seq<byte>) returns (pos: nat, r: Record)
    requires Layout(d, lap) && m < i <= |lap| && Offset(lap, i) <= d.size && |g| == |d.file|
    requires var end := CONTROL_SIZE + Offset(lap, i); g[..end] == d.file[..end]
    ensures pos == Offset(lap, m) && r == lap[m] && Canonical(r) && pos + TotalSize(r) <= d.size
    ensures g[CONTROL_SIZE + pos..CONTROL_SIZE + pos + TotalSize(r)] == RecordBytes(r)
  {
    pos, r := RecordInLap(d, lap, m);
    OffsetGrows(lap, m + 1, i);
    PrefixSlice(g, d.file, CONTROL_SIZE + Offset(lap, i), CONTROL_SIZE + pos, CONTROL_SIZE + pos + TotalSize(r));
  }

  lemma PrefixSlice(f: seq<byte>, g: seq<byte>, end: nat, p: nat, q: nat)
    requires end <= |f| && end <= |g| && f[..end] == g[..end] && p <= q <= end
    ensures f[p..q] == g[p..q]
  {
    assert f[p..q] == f[..end][p..q] && g[p..q] == g[..end][p..q];
  }
}
