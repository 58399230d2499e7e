/**
 The persistent ring as the code runs it: a mapped file overwritten in place and a control
 block kept in memory. `State()` is the value of RingFile.dfy that each method transforms.
 */
module PersistentRing {
  import opened Bytes
  import opened Records
  import opened DiskFormat
  import opened LapReader
  import opened RingFile

  datatype Outcome = Ok | InvalidRecord

  class Ring {
    const mmap: array<byte>
    const size: nat
    const range: CrcRange
    var control: ControlBlock

    ghost function State(): Disk
      reads this, mmap
    {
      Disk(mmap[..], control, size, range)
    }

    ghost predicate Valid()
      reads this, mmap
    {
      Shape(State())
    }

    /** A new file: the control block is written in front of the zeroed data area. */
    constructor Create(size: nat, range: CrcRange)
      requires size <= MAX_SIZE
      ensures Valid() && fresh(mmap) && State() == RingFile.Create(size, range)
    {
      this.size := size;
      this.range := range;
      var c := NewControl(size, range);
      control := c;
      var bytes := EncodeControl(c) + Zeros(size);
      mmap := new byte[|bytes|](i requires 0 <= i < |bytes| => bytes[i]);
      new;
      assert mmap[..] == bytes;
    }

    /** An existing file whose control block passed its checks. */
    constructor Map(d: Disk)
      requires Shape(d)
      ensures Valid() && fresh(mmap) && State() == d
    {
      size := d.size;
      range := d.range;
      control := d.control;
      mmap := new byte[|d.file|](i requires 0 <= i < |d.file| => d.file[i]);
      new;
      assert mmap[..] == d.file;
    }

    /** `copy_from_slice` into the mapping. */
    method Store(at: nat, bytes: seq<byte>)
      requires at + |bytes| <= mmap.Length
      modifies mmap
      ensures mmap[..] == Splice(old(mmap[..]), at, bytes)
    {
      var i := 0;
      while i < |bytes|
        invariant i <= |bytes|
        invariant forall k :: 0 <= k < mmap.Length ==>
                    mmap[k] == if at <= k < at + i then bytes[k - at] else old(mmap[k])
      {
        mmap[at + i] := bytes[i];
        i := i + 1;
      }
    }

    method SaveControl(c: ControlBlock)
      requires mmap.Length >= CONTROL_SIZE
      modifies this`control, mmap
      ensures State() == StoreControl(old(State()), c)
    {
      control := UpdateCrc(c, range);
      Store(0, EncodeControl(control));
    }

    /** Appends a record, wrapping to offset 0 when it does not fit behind the last one. */
    method Write(r: Record) returns (out: Outcome)
      requires Valid()
      modifies this`control, mmap
      ensures Valid() && State() == WriteRecord(old(State()), r)
      ensures out == if 24 + |r.data| <= size then Ok else InvalidRecord
    {
      var total := HEADER_SIZE + |r.data|;
      if total > size {
        return InvalidRecord;
      }
      ghost var d := State();
      var c := control;
      if CONTROL_SIZE + c.writePos + total > CONTROL_SIZE + size {
        c := c.(writePos := 0, wrapCount := (c.wrapCount + 1) % TWO64);
      }
      assert c == WrapControl(d, r);
      Store(CONTROL_SIZE + c.writePos, RecordBytes(r));
      assert State() == d.(file := StoreRecord(d, r));
      SaveControl(c.(writePos := c.writePos + total));
      return Ok;
    }

    /** The record at a position, if its header, bounds and checksum are good. */
    method ReadRecord(pos: nat) returns (res: ReadResult)
      requires Valid()
      ensures res == ReadAt(State(), pos)
    {
      if pos >= size {
        return Nothing;
      }
      var abs := CONTROL_SIZE + pos;
      if abs + HEADER_SIZE > mmap.Length {
        return Nothing;
      }
      res := ReadFramed(pos, abs);
    }

    method ReadFramed(pos: nat, abs: nat) returns (res: ReadResult)
      requires Valid() && abs == CONTROL_SIZE + pos && abs + HEADER_SIZE <= mmap.Length
      ensures res == ReadAt(State(), pos)
    {
      ghost var h;
      res, h := ReadParts(abs);
      ReadAtHeader(State(), pos, mmap[..], abs, h);
    }

    method ReadParts(abs: nat) returns (res: ReadResult, ghost h: DiskHeader)
      requires abs + HEADER_SIZE <= mmap.Length
      ensures h == DecodeHeader(mmap[..][abs..abs + HEADER_SIZE]) && res == ReadBody(mmap[..], abs + HEADER_SIZE, h)
    {
      var header := ReadHeader(abs);
      res := ReadData(abs + HEADER_SIZE, header);
      h := header;
    }

    method ReadHeader(abs: nat) returns (h: DiskHeader)
      requires abs + HEADER_SIZE <= mmap.Length
      ensures h == DecodeHeader(mmap[..][abs..abs + HEADER_SIZE])
    {
      var bytes := mmap[abs..abs + HEADER_SIZE];
      assert mmap[..][abs..abs + HEADER_SIZE] == bytes;
      h := DecodeHeader(bytes);
    }

    method ReadData(at: nat, h: DiskHeader) returns (res: ReadResult)
      ensures res == ReadBody(mmap[..], at, h)
    {
      if h.marker != MARKER || at + h.size > mmap.Length {
        return Nothing;
      }
      var data := mmap[at..at + h.size];
      assert mmap[..][at..at + h.size] == data;
      var header := RecordHeader(h.size, h.crc32, h.timestampUs, h.tag);
      if !CrcMatches(header, data) {
        return Corrupt;
      }
      return Found(Record(header, data), HEADER_SIZE + h.size);
    }

    /** Everything between the read and the write position; a corrupt record aborts the call. */
    method ReadEverything() returns (res: ReadAllResult)
      requires Valid()
      modifies this`control, mmap
      ensures Valid() && (res, State()) == ReadAll(old(State()))
    {
      if control.readPos == control.writePos {
        return LapReader.Records([], control.readPos);
      }
      res := Scan(control.readPos);
      if res.Records? {
        SaveControl(control.(readPos := res.end));
      }
    }

    method Scan(start: nat) returns (res: ReadAllResult)
      requires Valid()
      ensures res == ScanFrom(State(), start)
    {
      res := ScanWith(start, ReaderOf(State()));
    }

    /** `reader` is this file seen through `read_at`. */
    ghost predicate Reads(reader: Reader)
      reads this, mmap
    {
      forall p: nat {:trigger ReadAt(State(), p)} :: reader(p) == ReadAt(State(), p)
    }

    method Probe(pos: nat, ghost reader: Reader) returns (res: ReadResult)
      requires Valid() && Reads(reader)
      ensures res == reader(pos)
    {
      res := ReadRecord(pos);
    }

    method ScanWith(start: nat, ghost reader: Reader) returns (res: ReadAllResult)
      requires Valid() && Reads(reader)
      ensures res == ReadFrom(reader, control.writePos, start)
    {
      var records: seq<Record> := [];
      var pos := start;
      while pos < control.writePos
        invariant ReadFrom(reader, control.writePos, start)
               == Prefixed(records, ReadFrom(reader, control.writePos, pos))
        decreases control.writePos - pos
      {
        var step := Probe(pos, reader);
        match step
        case Corrupt =>
          return Failed;
        case Found(r, n) =>
          PrefixedAssoc(records, r, ReadFrom(reader, control.writePos, pos + n));
          records := records + [r];
          pos := pos + n;
        case Nothing =>
          pos := pos + HEADER_SIZE;
      }
      return LapReader.Records(records, pos);
    }

    method ResetRead()
      requires Valid()
      modifies this`control, mmap
      ensures Valid() && State() == ResetReadPosition(old(State()))
    {
      SaveControl(control.(readPos := control.writePos));
    }
  }

  /** Opens the file with the given bytes; null stands for the invalid-buffer error. */
  method OpenRing(file: seq<byte>, size: nat, range: CrcRange) returns (ring: Ring?)
    requires file == [] || CONTROL_SIZE <= |file|
    requires size <= MAX_SIZE
    requires Open(file, size, range).Opened? ==> Shape(Open(file, size, range).disk)
    ensures Open(file, size, range) == InvalidBuffer <==> ring == null
    ensures file == [] ==> ring != null && ring.size == size && ring.control.writePos == ring.control.readPos == 0
    ensures ring != null ==>
          fresh(ring) && fresh(ring.mmap) && ring.Valid() && ring.State() == Open(file, size, range).disk
  {
    if file == [] {
      ring := new Ring.Create(size, range);
    } else {
      var control := DecodeControl(file[..CONTROL_SIZE]);
      if control.magic != MAGIC || !VerifyCrc(control, range) {
        return null;
      }
      ring := new Ring.Map(Disk(file, control, control.bufferSize, range));
    }
  }

  function Prefixed(rs: seq<Record>, res: ReadAllResult): ReadAllResult {
    match res
    case Failed => Failed
    case Records(more, end) => LapReader.Records(rs + more, end)
  }

  lemma PrefixedAssoc(rs: seq<Record>, r: Record, res: ReadAllResult)
    ensures Prefixed(rs, Prefixed([r], res)) == Prefixed(rs + [r], res)
  {
    if res.Records? {
      assert rs + ([r] + res.records) == (rs + [r]) + res.records;
    }
  }
}
