/** Records and their in-memory headers. */
module Records {
  import opened Bytes
  import Crc32

  /** Size of the padded in-memory header, and so of the disk header. */
  const HEADER_SIZE: nat := 24

  datatype RecordHeader = RecordHeader(size: u32, crc32: u32, timestampUs: u64, tag: u32)

  datatype Record = Record(header: RecordHeader, data: seq<byte>)

  /** `RecordHeader::verify_crc`. */
  predicate CrcMatches(h: RecordHeader, data: seq<byte>) {
    h.crc32 == Crc32.Checksum(data)
  }

  /** `Record::new`, with the clock reading as a parameter; the length is cast to 32 bits. */
  function NewRecord(data: seq<byte>, tag: u32, now: u64): (r: Record)
    ensures r.data == data && r.header.tag == tag && r.header.timestampUs == now
    ensures CrcMatches(r.header, r.data)
    ensures |data| < 0x1_0000_0000 ==> Canonical(r)
  {
    Record(RecordHeader(|data| % 0x1_0000_0000, Crc32.Checksum(data), now, tag), data)
  }

  /** The header describes the data: true of every `Record::new` below 4 GiB. */
  predicate Canonical(r: Record) {
    r.header.size == |r.data| && CrcMatches(r.header, r.data)
  }

  /** The header struct as it lies in memory, with whatever its four bytes of padding hold. */
  function HeaderBytes(h: RecordHeader, pad: seq<byte>): (bytes: seq<byte>)
    requires |pad| == 4
    ensures |bytes| == HEADER_SIZE && bytes[20..] == pad
  {
    ToLe(h.size, 4) + ToLe(h.crc32, 4) + ToLe(h.timestampUs, 8) + ToLe(h.tag, 4) + pad
  }

  /** The four fields, each read where it was stored. */
  lemma HeaderFields(h: RecordHeader, pad: seq<byte>, rest: seq<byte>)
    requires |pad| == 4
    ensures LeAt(HeaderBytes(h, pad) + rest, 0, 4) == h.size && LeAt(HeaderBytes(h, pad) + rest, 4, 4) == h.crc32
    ensures LeAt(HeaderBytes(h, pad) + rest, 8, 8) == h.timestampUs
    ensures LeAt(HeaderBytes(h, pad) + rest, 16, 4) == h.tag
  {
    RadixValues();
    var a, b, c, d := ToLe(h.size, 4), ToLe(h.crc32, 4), ToLe(h.timestampUs, 8), ToLe(h.tag, 4);
    var s := HeaderBytes(h, pad) + rest;
    assert s == [] + a + (b + c + d + pad + rest);
    assert s == a + b + (c + d + pad + rest);
    assert s == (a + b) + c + (d + pad + rest);
    assert s == (a + b + c) + d + (pad + rest);
    FieldAt([], h.size, 4, b + c + d + pad + rest);
    FieldAt(a, h.crc32, 4, c + d + pad + rest);
    FieldAt(a + b, h.timestampUs, 8, d + pad + rest);
    FieldAt(a + b + c, h.tag, 4, pad + rest);
  }
}
