/** Byte layout of the control block and of record headers in the ring file. */
module DiskFormat {
  import opened Bytes
  import opened Records
  import Crc32

  const CONTROL_SIZE: nat := 48
  const MAGIC: u32 := 0x5348_524C
  const VERSION: u32 := 1
  const MARKER: u16 := 0xAA55

  // ---- Control block ----

  datatype ControlBlock = ControlBlock(magic: u32, version: u32, bufferSize: u64, writePos: u64,
                                       readPos: u64, wrapCount: u64, crc32: u32)

  /** The 40 bytes before the checksum field. */
  function ControlFields(c: ControlBlock): (s: seq<byte>)
    ensures |s| == 40
  {
    ToLe(c.magic, 4) + ToLe(c.version, 4) + ToLe(c.bufferSize, 8) + ToLe(c.writePos, 8) + ToLe(c.readPos, 8)
    + ToLe(c.wrapCount, 8)
  }

  /** The whole block; the four padding bytes are taken as zero. */
  function EncodeControl(c: ControlBlock): (s: seq<byte>)
    ensures |s| == CONTROL_SIZE
  {
    ControlFields(c) + ToLe(c.crc32, 4) + [0, 0, 0, 0]
  }

  function U32At(s: seq<byte>, at: nat): u32
    requires at + 4 <= |s|
  {
    RadixValues();
    LeAt(s, at, 4)
  }

  function U64At(s: seq<byte>, at: nat): u64
    requires at + 8 <= |s|
  {
    RadixValues();
    LeAt(s, at, 8)
  }

  function U16At(s: seq<byte>, at: nat): u16
    requires at + 2 <= |s|
  {
    RadixValues();
    LeAt(s, at, 2)
  }

  function DecodeControl(s: seq<byte>): ControlBlock
    requires |s| == CONTROL_SIZE
  {
    ControlBlock(U32At(s, 0), U32At(s, 4), U64At(s, 8), U64At(s, 16), U64At(s, 24), U64At(s, 32), U32At(s, 40))
  }

  /** The fields of a control block, as slices. */
  lemma ControlSlices(s: seq<byte>)
    requires |s| == CONTROL_SIZE
    ensures var c := DecodeControl(s);
            && c.magic == FromLe(s[0..4]) && c.version == FromLe(s[4..8]) && c.bufferSize == FromLe(s[8..16])
            && c.writePos == FromLe(s[16..24]) && c.readPos == FromLe(s[24..32]) && c.wrapCount == FromLe(s[32..40])
            && c.crc32 == FromLe(s[40..44])
  {
    LeAtSlice(s, 0, 4);
    LeAtSlice(s, 4, 4);
    LeAtSlice(s, 8, 8);
    LeAtSlice(s, 16, 8);
    LeAtSlice(s, 24, 8);
    LeAtSlice(s, 32, 8);
    LeAtSlice(s, 40, 4);
  }

  lemma ControlRoundTrip(c: ControlBlock)
    ensures DecodeControl(EncodeControl(c)) == c
  {
    RadixValues();
    ControlSlices(EncodeControl(c));
    var s := EncodeControl(c);
    assert s[0..4] == ToLe(c.magic, 4);
    assert s[4..8] == ToLe(c.version, 4);
    assert s[8..16] == ToLe(c.bufferSize, 8);
    assert s[16..24] == ToLe(c.writePos, 8);
    assert s[24..32] == ToLe(c.readPos, 8);
    assert s[32..40] == ToLe(c.wrapCount, 8);
    assert s[40..44] == ToLe(c.crc32, 4);
    LeRoundTrip(c.magic, 4);
    LeRoundTrip(c.version, 4);
    LeRoundTrip(c.bufferSize, 8);
    LeRoundTrip(c.writePos, 8);
    LeRoundTrip(c.readPos, 8);
    LeRoundTrip(c.wrapCount, 8);
    LeRoundTrip(c.crc32, 4);
  }

  /**
   What the control-block checksum covers. The comments exclude the checksum field; the code
   hashes `SIZE - 4` = 44 bytes of the padded block, which still includes it.
   */
  datatype CrcRange = Documented | AsWritten

  function Covered(range: CrcRange): nat {
    match range
    case Documented => 40
    case AsWritten => 44
  }

  function ControlChecksum(c: ControlBlock, range: CrcRange): u32 {
    Crc32.Checksum(EncodeControl(c)[..Covered(range)])
  }

  /** `ControlBlock::update_crc`. */
  function UpdateCrc(c: ControlBlock, range: CrcRange): ControlBlock {
    c.(crc32 := ControlChecksum(c, range))
  }

  /** `ControlBlock::verify_crc`. */
  predicate VerifyCrc(c: ControlBlock, range: CrcRange) {
    c.crc32 == ControlChecksum(c, range)
  }

  function NewControl(size: u64, range: CrcRange): ControlBlock {
    UpdateCrc(ControlBlock(MAGIC, VERSION, size, 0, 0, 0, 0), range)
  }

  /** Over the documented range every updated block verifies. */
  lemma DocumentedCrcVerifies(c: ControlBlock)
    ensures VerifyCrc(UpdateCrc(c, Documented), Documented)
  {
    var c' := UpdateCrc(c, Documented);
    assert EncodeControl(c')[..40] == ControlFields(c') == ControlFields(c) == EncodeControl(c)[..40];
  }

  lemma AsWrittenBytes(c: ControlBlock)
    ensures EncodeControl(c)[..44] == ControlFields(c) + ToLe(c.crc32, 4)
  {}

  /** Over the range as written an updated block verifies exactly when its checksum did not change. */
  lemma AsWrittenCrcVerifies(c: ControlBlock)
    ensures VerifyCrc(UpdateCrc(c, AsWritten), AsWritten) <==> UpdateCrc(c, AsWritten).crc32 == c.crc32
  {
    var c' := UpdateCrc(c, AsWritten);
    AsWrittenBytes(c);
    AsWrittenBytes(c');
    var d, e := ControlFields(c) + ToLe(c.crc32, 4), ControlFields(c) + ToLe(c'.crc32, 4);
    if c'.crc32 != c.crc32 {
      if d == e {
        assert ToLe(c.crc32, 4) == d[40..] == e[40..] == ToLe(c'.crc32, 4);
        RadixValues();
        LeInjective(c.crc32, c'.crc32, 4);
      }
      Crc32.BurstDetected(d, e, 40);
    }
  }

  /** The first 44 bytes of a new control block, before its checksum is set. */
  lemma NewControlBytes(size: u32)
    ensures EncodeControl(ControlBlock(MAGIC, VERSION, size, 0, 0, 0, 0))[..44]
         == (ToLe(MAGIC, 4) + ToLe(VERSION, 4)) + ToLe(size, 4) + ([0, 0, 0, 0] + ToLe(0, 8) + ToLe(0, 8) +
               ToLe(0, 8) + ToLe(0, 4))
  {
    AsWrittenBytes(ControlBlock(MAGIC, VERSION, size, 0, 0, 0, 0));
    LeSplit8(size);
  }

  lemma MiddleDiffers(head: seq<byte>, x: seq<byte>, y: seq<byte>, tail: seq<byte>)
    requires |head| == 8 && |x| == |y| == 4 && x != y
    ensures Crc32.Checksum(head + x + tail) != Crc32.Checksum(head + y + tail)
  {
    var d, e := head + x + tail, head + y + tail;
    assert d[8..12] == x && e[8..12] == y;
    assert forall i :: 0 <= i < |d| && !(8 <= i < 12) ==> d[i] == e[i];
    Crc32.BurstDetected(d, e, 8);
  }

  /**
   As written, of any two buffer sizes below 4 GiB at most one yields a new file whose control
   block verifies, so at most one can ever be reopened unchanged.
   */
  lemma AsWrittenNewRarelyVerifies(size: u32, other: u32)
    requires size != other
    ensures !(VerifyCrc(NewControl(size, AsWritten), AsWritten) && VerifyCrc(NewControl(other, AsWritten), AsWritten))
  {
    AsWrittenCrcVerifies(ControlBlock(MAGIC, VERSION, size, 0, 0, 0, 0));
    AsWrittenCrcVerifies(ControlBlock(MAGIC, VERSION, other, 0, 0, 0, 0));
    NewControlBytes(size);
    NewControlBytes(other);
    if ToLe(size, 4) == ToLe(other, 4) {
      RadixValues();
      LeInjective(size, other, 4);
    }
    MiddleDiffers(ToLe(MAGIC, 4) + ToLe(VERSION, 4), ToLe(size, 4), ToLe(other, 4),
                  [0, 0, 0, 0] + ToLe(0, 8) + ToLe(0, 8) + ToLe(0, 8) + ToLe(0, 4));
  }

  /** A 64-bit field holding a 32-bit value is its four low bytes and four zeros. */
  lemma LeSplit8(n: u32)
    ensures ToLe(n, 8) == ToLe(n, 4) + [0, 0, 0, 0]
  {
    var n1 := n / 256;
    var n2 := n1 / 256;
    var n3 := n2 / 256;
    assert n3 / 256 == 0;
    assert ToLe(0, 4) == [0] + ToLe(0, 3) == [0, 0] + ToLe(0, 2) == [0, 0, 0, 0];
    assert ToLe(n, 8) == [n % 256] + ToLe(n1, 7) && ToLe(n, 4) == [n % 256] + ToLe(n1, 3);
    assert ToLe(n1, 7) == [n1 % 256] + ToLe(n2, 6) && ToLe(n1, 3) == [n1 % 256] + ToLe(n2, 2);
    assert ToLe(n2, 6) == [n2 % 256] + ToLe(n3, 5) && ToLe(n2, 2) == [n2 % 256] + ToLe(n3, 1);
    assert ToLe(n3, 5) == [n3 % 256] + ToLe(0, 4) && ToLe(n3, 1) == [n3 % 256];
  }

  // ---- Record headers ----

  datatype DiskHeader = DiskHeader(size: u32, crc32: u32, timestampUs: u64, tag: u32, marker: u16, reserved: u16)

  function EncodeHeader(h: DiskHeader): (s: seq<byte>)
    ensures |s| == HEADER_SIZE
  {
    ToLe(h.size, 4) + ToLe(h.crc32, 4) + ToLe(h.timestampUs, 8) + ToLe(h.tag, 4) + ToLe(h.marker, 2)
    + ToLe(h.reserved, 2)
  }

  function DecodeHeader(s: seq<byte>): DiskHeader
    requires |s| == HEADER_SIZE
  {
    DiskHeader(U32At(s, 0), U32At(s, 4), U64At(s, 8), U32At(s, 16), U16At(s, 20), U16At(s, 22))
  }

  /** The fields of a header, as slices. */
  lemma HeaderSlices(s: seq<byte>)
    requires |s| == HEADER_SIZE
    ensures var h := DecodeHeader(s);
            && h.size == FromLe(s[0..4]) && h.crc32 == FromLe(s[4..8]) && h.timestampUs == FromLe(s[8..16])
            && h.tag == FromLe(s[16..20]) && h.marker == FromLe(s[20..22]) && h.reserved == FromLe(s[22..24])
  {
    LeAtSlice(s, 0, 4);
    LeAtSlice(s, 4, 4);
    LeAtSlice(s, 8, 8);
    LeAtSlice(s, 16, 4);
    LeAtSlice(s, 20, 2);
    LeAtSlice(s, 22, 2);
  }

  lemma HeaderRoundTrip(h: DiskHeader)
    ensures DecodeHeader(EncodeHeader(h)) == h
  {
    RadixValues();
    HeaderSlices(EncodeHeader(h));
    var s := EncodeHeader(h);
    assert s[0..4] == ToLe(h.size, 4);
    assert s[4..8] == ToLe(h.crc32, 4);
    assert s[8..16] == ToLe(h.timestampUs, 8);
    assert s[16..20] == ToLe(h.tag, 4);
    assert s[20..22] == ToLe(h.marker, 2);
    assert s[22..24] == ToLe(h.reserved, 2);
    LeRoundTrip(h.size, 4);
    LeRoundTrip(h.crc32, 4);
    LeRoundTrip(h.timestampUs, 8);
    LeRoundTrip(h.tag, 4);
    LeRoundTrip(h.marker, 2);
    LeRoundTrip(h.reserved, 2);
  }

  /** What `read_at` looks at of a header: all but the reserved field. */
  const HEADER_USED: nat := 22

  /** Headers agree but for their reserved fields exactly when their first 22 bytes do. */
  lemma HeadersAgreeIff(a: seq<byte>, b: seq<byte>)
    requires |a| == HEADER_SIZE && |b| == HEADER_SIZE
    ensures DecodeHeader(a).(reserved := 0) == DecodeHeader(b).(reserved := 0) <==> a[..HEADER_USED] == b[..HEADER_USED]
  {
    var x, y := a[..HEADER_USED], b[..HEADER_USED];
    FieldsSplit(a);
    FieldsSplit(b);
    HeaderSlices(a);
    HeaderSlices(b);
    if x == y {
      assert a[0..4] == x[0..4] && a[4..8] == x[4..8] && a[8..16] == x[8..16] && a[16..20] == x[16..20] &&
            a[20..22] == x[20..22];
      assert b[0..4] == y[0..4] && b[4..8] == y[4..8] && b[8..16] == y[8..16] && b[16..20] == y[16..20] &&
            b[20..22] == y[20..22];
    }
    if DecodeHeader(a).(reserved := 0) == DecodeHeader(b).(reserved := 0) {
      FromLeInjective(a[0..4], b[0..4]);
      FromLeInjective(a[4..8], b[4..8]);
      FromLeInjective(a[8..16], b[8..16]);
      FromLeInjective(a[16..20], b[16..20]);
      FromLeInjective(a[20..22], b[20..22]);
    }
  }

  lemma FieldsSplit(a: seq<byte>)
    requires |a| == HEADER_SIZE
    ensures a[..HEADER_USED] == a[0..4] + a[4..8] + a[8..16] + a[16..20] + a[20..22]
  {}

  /** `Header::new` followed by `update_crc`, as `write` builds it. */
  function HeaderFor(r: Record): DiskHeader {
    DiskHeader(|r.data| % 0x1_0000_0000, Crc32.Checksum(r.data), r.header.timestampUs, r.header.tag, MARKER, 0)
  }

  /** The bytes `write` stores for one record. */
  function RecordBytes(r: Record): (s: seq<byte>)
    ensures |s| == HEADER_SIZE + |r.data|
  {
    EncodeHeader(HeaderFor(r)) + r.data
  }

  /** What reading a stored record gives back: the header is rebuilt from the data. */
  function Stamped(r: Record): Record {
    Record(RecordHeader(|r.data| % 0x1_0000_0000, Crc32.Checksum(r.data), r.header.timestampUs, r.header.tag), r.data)
  }

  lemma StampedCanonical(r: Record)
    requires |r.data| < 0x1_0000_0000
    ensures Canonical(Stamped(r)) && RecordBytes(Stamped(r)) == RecordBytes(r)
    ensures Canonical(r) ==> Stamped(r) == r
  {}
}
