/** A record stored byte by byte into a slot is delivered as that record. */
module StepRecords {
  import opened Bytes
  import opened Records
  import opened SlotRing
  import opened StepModel
  import opened StepStores
  import StepRefinement

  /** The stores of `bytes` at the front of a slot, in order. */
  function StoresOf(bytes: seq<byte>): (stores: seq<Store>)
    ensures |stores| == |bytes|
  {
    if bytes == [] then [] else
      var n := |bytes| - 1;
      StoresOf(bytes[..n]) + [Store(n, bytes[n])]
  }

  /** They replace the front of the slot. */
  lemma {:induction false} StoresReplaceFront(found: seq<byte>, bytes: seq<byte>)
    requires |bytes| <= |found|
    ensures Folded(found, StoresOf(bytes)) == bytes + found[|bytes|..]
    decreases |bytes|
  {
    if bytes != [] {
      var n := |bytes| - 1;
      StoresReplaceFront(found, bytes[..n]);
      FoldedSnoc(found, StoresOf(bytes[..n]), Store(n, bytes[n]));
    }
  }

  /** The consumer copies the header and all of the data, and nothing behind them. */
  lemma CopiesRecord(r: Record, pad: seq<byte>, rest: seq<byte>)
    requires r.header.size == |r.data| && |pad| == 4
    ensures Copied(HeaderBytes(r.header, pad) + r.data + rest) == HeaderBytes(r.header, pad) + r.data
  {
    var s := HeaderBytes(r.header, pad) + r.data + rest;
    assert s == HeaderBytes(r.header, pad) + (r.data + rest);
    HeaderFields(r.header, pad, r.data + rest);
    LeAtSlice(s, 0, 4);
    assert s[0..4] == s[..4];
  }

  /** A slot that holds a record's header and data is read as that record. */
  lemma StoredRecordRead(r: Record, pad: seq<byte>, rest: seq<byte>)
    requires r.header.size == |r.data| && |pad| == 4
    ensures StepRefinement.SlotRecord(HeaderBytes(r.header, pad) + r.data + rest) == r
  {
    CopiesRecord(r, pad, rest);
    HeaderFields(r.header, pad, r.data);
    assert (HeaderBytes(r.header, pad) + r.data)[HEADER_SIZE..] == r.data;
  }

  /**
   Whatever the interleaving: if the reservation behind a delivery stored a record's header and
   data into its slot, the delivery reads as that record.
   */
  lemma RecordDelivered(s0: State, steps: seq<Step>, k: nat, r: Record, pad: seq<byte>) returns (s: State, h: Tale)
    requires Initial(s0) && FitsSlot(r) && |pad| == 4
    ensures s == Run(s0, steps, Parent) && h == TaleOf(s0, steps, Untold(|s0.producers|))
    ensures k < |s.delivered| ==> s.delivered[k].ticket < |h.log|
    ensures k < |s.delivered| && Stored(h.log[s.delivered[k].ticket].story, HeaderBytes(r.header, pad) + r.data) ==>
              StepRefinement.SlotRecord(s.delivered[k].bytes) == r
  {
    s, h := StoresDelivered(s0, steps);
    if k < |s.delivered| && Stored(h.log[s.delivered[k].ticket].story, HeaderBytes(r.header, pad) + r.data) {
      var d := s.delivered[k];
      StoryRead(h.log[d.ticket].story, r, pad, d.bytes);
    }
  }

  /** The reservation of a whole slot stored these bytes at its front, and no others. */
  ghost predicate Stored(story: Story, bytes: seq<byte>) {
    |story.found| == 256 && story.stores == StoresOf(bytes)
  }

  lemma StoryRead(story: Story, r: Record, pad: seq<byte>, copy: seq<byte>)
    requires FitsSlot(r) && |pad| == 4 && Stored(story, HeaderBytes(r.header, pad) + r.data)
    requires copy == Copied(Folded(story.found, story.stores))
    ensures StepRefinement.SlotRecord(copy) == r
  {
    var bytes := HeaderBytes(r.header, pad) + r.data;
    StoresReplaceFront(story.found, bytes);
    CopiesRecord(r, pad, story.found[|bytes|..]);
    assert bytes == bytes + [];
    StoredRecordRead(r, pad, []);
  }
}
