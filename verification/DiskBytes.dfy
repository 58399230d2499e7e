/** The ring file byte by byte: what a control block and a stored record look like, and what is accepted. */
module DiskBytes {
  import opened Bytes
  import opened Records
  import opened DiskFormat
  import opened LapReader
  import opened RingFile
  import opened Recovery
  import Crc32

  // ---- The control block ----

  /** Decoding loses nothing but the padding. */
  lemma EncodeOfDecode(s: seq<byte>)
    requires |s| == CONTROL_SIZE
    ensures EncodeControl(DecodeControl(s))[..44] == s[..44]
  {
    ControlSlices(s);
    LeOfBytes(s[0..4]);
    LeOfBytes(s[4..8]);
    LeOfBytes(s[8..16]);
    LeOfBytes(s[16..24]);
    LeOfBytes(s[24..32]);
    LeOfBytes(s[32..40]);
    LeOfBytes(s[40..44]);
    SevenFields(s);
  }

  lemma SevenFields(s: seq<byte>)
    requires |s| == CONTROL_SIZE
    ensures s[0..4] + s[4..8] + s[8..16] + s[16..24] + s[24..32] + s[32..40] + s[40..44] == s[..44]
  {}

  lemma MagicBytes(s: seq<byte>)
    requires |s| == 4
    ensures FromLe(s) == MAGIC <==> s == [0x4C, 0x52, 0x48, 0x53]
  {
    var m: seq<byte> := [0x4C, 0x52, 0x48, 0x53];
    assert m[1..] == [0x52, 0x48, 0x53] && m[2..] == [0x48, 0x53] && m[3..] == [0x53];
    assert FromLe(m) == 0x5348_524C;
    if FromLe(s) == FromLe(m) {
      FromLeInjective(s, m);
    }
  }

  /** The checksum a control block must carry is that of the file's first 40 bytes, or 44 as written. */
  lemma ChecksumOfFile(file: seq<byte>, range: CrcRange)
    requires |file| >= CONTROL_SIZE
    ensures ControlChecksum(DecodeControl(file[..48]), range) ==
              Crc32.Checksum(if range.Documented? then file[..40] else file[..44])
  {
    var s := file[..48];
    EncodeOfDecode(s);
    assert EncodeControl(DecodeControl(s))[..40] == EncodeControl(DecodeControl(s))[..44][..40];
    assert s[..44] == file[..44] && file[..44][..40] == file[..40];
  }

  /** The fields of the control block, where they lie in the file. */
  lemma ControlInFile(file: seq<byte>) returns (c: ControlBlock)
    requires |file| >= 48
    ensures c == DecodeControl(file[..48]) && c.magic == FromLe(file[..4]) && c.crc32 == LeAt(file, 40, 4)
    ensures c.bufferSize == LeAt(file, 8, 8) && c.writePos == LeAt(file, 16, 8) && c.readPos == LeAt(file, 24, 8)
    ensures c.wrapCount == LeAt(file, 32, 8)
  {
    var s := file[..48];
    c := DecodeControl(s);
    ControlSlices(s);
    LeInSlice(file, 0, s, 8, 8);
    LeInSlice(file, 0, s, 16, 8);
    LeInSlice(file, 0, s, 24, 8);
    LeInSlice(file, 0, s, 32, 8);
    LeInSlice(file, 0, s, 40, 4);
    assert s[0..4] == file[..4];
  }

  /**
   A file with a control block opens if and only if it starts with the magic number and the number
   in bytes 40 to 43 is the checksum of those before; the size is then the one stored at byte 8.
   */
  lemma OpensIff(file: seq<byte>, size: nat, range: CrcRange) returns (magic: seq<byte>, covered: seq<byte>)
    requires |file| >= 48 && size <= MAX_SIZE
    ensures magic == file[..4] && covered == if range.Documented? then file[..40] else file[..44]
    ensures Open(file, size, range).Opened? <==>
              magic == [0x4C, 0x52, 0x48, 0x53] && LeAt(file, 40, 4) == Crc32.Checksum(covered)
    ensures Open(file, size, range).Opened? ==>
              var d := Open(file, size, range).disk;
              && d.file == file && d.range == range && d.size == LeAt(file, 8, 8)
              && d.control.writePos == LeAt(file, 16, 8) && d.control.readPos == LeAt(file, 24, 8)
              && d.control.wrapCount == LeAt(file, 32, 8)
  {
    magic, covered := file[..4], if range.Documented? then file[..40] else file[..44];
    var c := ControlInFile(file);
    ChecksumOfFile(file, range);
    MagicBytes(magic);
  }

  // ---- The first opening ----

  /**
   Opening an empty file makes a ring of the requested size with nothing in it: `read_all` returns
   nothing, and closing and opening again gives the same state, as written exactly when the
   checksum of the new block happens to be the zero it was computed over.
   */
  lemma OpensEmpty(size: nat, range: CrcRange, other: nat) returns (d: Disk)
    requires size <= MAX_SIZE && other <= MAX_SIZE
    ensures Open([], size, range) == Opened(d)
    ensures d.size == size && d.range == range && |d.file| == 48 + size && Holds(d, [])
    ensures d.file[..8] == [0x4C, 0x52, 0x48, 0x53, 1, 0, 0, 0] && forall i :: 48 <= i < |d.file| ==> d.file[i] == 0
    ensures d.control.writePos == d.control.readPos == d.control.wrapCount == 0
    ensures ReadAll(d) == (LapReader.Records([], 0), d)
    ensures Open(d.file, other, range) ==
              if range.Documented? || d.control.crc32 == 0 then Opened(d) else InvalidBuffer
  {
    d := Create(size, range);
    CreateHolds(size, range);
    OpenSaved(d, other);
    AsWrittenCrcVerifies(ControlBlock(MAGIC, VERSION, size, 0, 0, 0, 0));
    NewFileBytes(size, range);
  }

  lemma NewFileBytes(size: nat, range: CrcRange)
    requires size <= MAX_SIZE
    ensures var f := Create(size, range).file;
            f[..8] == [0x4C, 0x52, 0x48, 0x53, 1, 0, 0, 0] && forall i :: 48 <= i < |f| ==> f[i] == 0
  {
    VersionBytes();
    var head := EncodeControl(NewControl(size, range));
    assert head[..8] == ToLe(MAGIC, 4) + ToLe(VERSION, 4);
    assert (head + Zeros(size))[..8] == head[..8];
  }

  lemma VersionBytes()
    ensures ToLe(MAGIC, 4) + ToLe(VERSION, 4) == [0x4C, 0x52, 0x48, 0x53, 1, 0, 0, 0]
  {
    assert ToLe(MAGIC, 4) == [0x4C, 0x52, 0x48, 0x53] by {
      MagicBytes(ToLe(MAGIC, 4));
      RadixValues();
      LeRoundTrip(MAGIC, 4);
    }
    assert ToLe(1, 4) == [1] + ToLe(0, 3);
    assert ToLe(0, 3) == [0, 0, 0];
  }

  /**
   The first record written to a new file, if it fits, is what `read_all` then returns, before and
   after closing and opening again; one that does not fit changes nothing.
   */
  lemma FirstWrite(size: nat, range: CrcRange, r: Record, other: nat) returns (d: Disk, d': Disk)
    requires size <= MAX_SIZE && other <= MAX_SIZE && Canonical(r)
    ensures Open([], size, range) == Opened(d) && Shape(d) && d' == WriteRecord(d, r)
    ensures 24 + |r.data| > size ==> d' == d
    ensures 24 + |r.data| <= size ==> ReadAll(d').0 == LapReader.Records([r], 24 + |r.data|)
    ensures range.Documented? ==> Open(d'.file, other, range) == Opened(d')
  {
    d := OpensEmpty(size, range, other);
    d' := WriteRecord(d, r);
    StampedCanonical(r);
    if TotalSize(r) <= size {
      var lap := WrittenLap(d, r);
      ReadAllUnread(d', lap, 0);
    }
    WriteHolds(d, [], r);
    if range.Documented? {
      ReopenRestores(d', LapAfterWrite(d.size, [], r), other);
    }
  }

  lemma WrittenLap(d: Disk, r: Record) returns (lap: seq<Record>)
    requires Holds(d, []) && d.control.readPos == d.control.writePos == 0 && Fits(d, r) && Canonical(r)
    ensures lap == [r] && lap[0..] == [r] && Holds(WriteRecord(d, r), lap) && ReadUpTo(WriteRecord(d, r), lap, 0)
    ensures WriteRecord(d, r).control.writePos == TotalSize(r)
  {
    StampedCanonical(r);
    WriteHolds(d, [], r);
    assert Print([]) == [];
    lap := [r];
    assert [] + [Stamped(r)] == lap;
  }

  // ---- Records ----

  /** What `write` stores: four little-endian numbers, the marker AA55, two zero bytes, and the data. */
  lemma StoredBytes(r: Record, s: seq<byte>)
    requires s == RecordBytes(r) && |r.data| < 0x1_0000_0000
    ensures |s| == 24 + |r.data| && s[24..] == r.data
    ensures LeAt(s, 0, 4) == |r.data| && LeAt(s, 4, 4) == Crc32.Checksum(r.data)
    ensures LeAt(s, 8, 8) == r.header.timestampUs && LeAt(s, 16, 4) == r.header.tag
    ensures s[20..24] == [0x55, 0xAA, 0, 0]
  {
    var head := EncodedHeader(r);
    HeaderFields(Stamped(r).header, [0x55, 0xAA, 0, 0], r.data);
    BehindHead(head, r.data, s, [0x55, 0xAA, 0, 0]);
  }

  lemma BehindHead(head: seq<byte>, data: seq<byte>, s: seq<byte>, pad: seq<byte>)
    requires |head| == 24 && head[20..] == pad && s == head + data
    ensures s[24..] == data && s[20..24] == pad
  {
    assert s[20..24] == head[20..];
  }

  lemma EncodedHeader(r: Record) returns (head: seq<byte>)
    requires |r.data| < 0x1_0000_0000
    ensures head == EncodeHeader(HeaderFor(r)) && head == HeaderBytes(Stamped(r).header, [0x55, 0xAA, 0, 0])
  {
    head := EncodeHeader(HeaderFor(r));
    MarkerBytes();
  }

  lemma MarkerBytes()
    ensures ToLe(MARKER, 2) + ToLe(0, 2) == [0x55, 0xAA, 0, 0]
  {
    assert ToLe(MARKER, 2) == [0x55] + ToLe(0xAA, 1);
    assert ToLe(0xAA, 1) == [0xAA] + ToLe(0, 0);
    assert ToLe(0, 2) == [0] + ToLe(0, 1);
  }

  lemma MarkerIff(s: seq<byte>)
    requires |s| == 2
    ensures FromLe(s) == MARKER <==> s == [0x55, 0xAA]
  {
    var m: seq<byte> := [0x55, 0xAA];
    assert m[1..] == [0xAA];
    assert FromLe(m) == 0xAA55;
    if FromLe(s) == FromLe(m) {
      FromLeInjective(s, m);
    }
  }

  /** There is room for a header, it carries the marker, and the data it announces lies in the file. */
  ghost predicate Announced(d: Disk, pos: nat)
    requires Shape(d)
  {
    && pos + 24 <= d.size && d.file[48 + pos + 20..48 + pos + 22] == [0x55, 0xAA]
    && pos + 24 + LeAt(d.file, 48 + pos, 4) <= d.size
  }

  /**
   `read_at` reports nothing unless a record is announced there; then it returns the header's
   numbers and the data when the checksum is that of the data, and an invalid record when not.
   */
  lemma ReadAtBytes(d: Disk, pos: nat)
    requires Shape(d)
    ensures !Announced(d, pos) ==> ReadAt(d, pos) == Nothing
    ensures Announced(d, pos) ==>
              ReadAt(d, pos) ==
                if LeAt(d.file, 48 + pos + 4, 4) != Crc32.Checksum(DataAt(d.file, 48 + pos)) then Corrupt
                else Found(RecordAt(d.file, 48 + pos), 24 + |DataAt(d.file, 48 + pos)|)
  {
    if pos + 24 <= d.size {
      var h := HeaderAt(d.file, 48 + pos);
      var res := ReadsBody(d, pos, h);
      BodyBytes(d.file, 48 + pos, h, res);
    }
  }

  lemma ReadsBody(d: Disk, pos: nat, h: DiskHeader) returns (res: ReadResult)
    requires Shape(d) && pos + 24 <= d.size && h == DecodeHeader(d.file[48 + pos..48 + pos + 24])
    ensures res == ReadAt(d, pos) && res == ReadBody(d.file, 48 + pos + 24, h)
  {
    res := ReadAt(d, pos);
  }

  lemma BodyBytes(file: seq<byte>, at: nat, h: DiskHeader, res: ReadResult)
    requires at + 24 <= |file| && res == ReadBody(file, at + 24, h)
    requires h.size == LeAt(file, at, 4) && h.crc32 == LeAt(file, at + 4, 4) && h.timestampUs == LeAt(file, at + 8, 8)
    requires h.tag == LeAt(file, at + 16, 4)
    ensures h.marker != MARKER || at + 24 + h.size > |file| ==> res == Nothing
    ensures h.marker == MARKER && at + 24 + h.size <= |file| ==>
              res == if h.crc32 != Crc32.Checksum(DataAt(file, at)) then Corrupt
                     else Found(RecordAt(file, at), 24 + |DataAt(file, at)|)
  {}

  /** The header at a position of the file. */
  lemma HeaderAt(file: seq<byte>, at: nat) returns (h: DiskHeader)
    requires at + 24 <= |file|
    ensures h == DecodeHeader(file[at..at + 24]) && (h.marker == MARKER <==> file[at + 20..at + 22] == [0x55, 0xAA])
    ensures h.size == LeAt(file, at, 4) && h.crc32 == LeAt(file, at + 4, 4) && h.timestampUs == LeAt(file, at + 8, 8)
    ensures h.tag == LeAt(file, at + 16, 4)
  {
    var s := file[at..at + 24];
    h := DecodeHeader(s);
    HeaderSlices(s);
    MarkerIff(s[20..22]);
    HeaderInFile(file, at, s);
  }

  /** As many bytes behind the header as it says. */
  function DataAt(file: seq<byte>, at: nat): (data: seq<byte>)
    requires at + 24 <= |file| && at + 24 + LeAt(file, at, 4) <= |file|
    ensures |data| == LeAt(file, at, 4)
  {
    file[at + 24..at + 24 + LeAt(file, at, 4)]
  }

  function RecordAt(file: seq<byte>, at: nat): Record
    requires at + 24 <= |file| && at + 24 + LeAt(file, at, 4) <= |file|
  {
    Record(RecordHeader(U32At(file, at), U32At(file, at + 4), U64At(file, at + 8), U32At(file, at + 16)),
           DataAt(file, at))
  }

  lemma HeaderInFile(file: seq<byte>, at: nat, s: seq<byte>)
    requires at + 24 <= |file| && s == file[at..at + 24]
    ensures FromLe(s[0..4]) == LeAt(file, at, 4) && FromLe(s[4..8]) == LeAt(file, at + 4, 4)
    ensures FromLe(s[8..16]) == LeAt(file, at + 8, 8) && FromLe(s[16..20]) == LeAt(file, at + 16, 4)
    ensures s[20..22] == file[at + 20..at + 22]
  {
    LeInSlice(file, at, s, 0, 4);
    LeInSlice(file, at, s, 4, 4);
    LeInSlice(file, at, s, 8, 8);
    LeInSlice(file, at, s, 16, 4);
    SliceInSlice(file, at, s, 20, 2);
  }
}
