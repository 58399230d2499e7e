/** What the daemon's adaptive batch size is for: how large a batch is, and when a turn keeps every record. */
module FlushBatches {
  import opened Bytes
  import opened Records
  import opened SlotRing
  import opened FlushSpec
  import opened LapReader
  import RingFile

  /** `n` is `halves` halves of `max`, rounded down, but at least one. */
  ghost predicate Rounded(n: nat, halves: nat, max: nat) {
    if halves * max < 2 then n == 1 else 2 * n <= halves * max < 2 * n + 2
  }

  /**
   A turn decides to flush exactly when it is notified or the usage has reached the watermark. Its
   batch is then half again the configured one above the watermark, half of it below half the
   watermark, and the configured one in between, rounded down and never zero.
   */
  lemma TurnBatch(w: World, cfg: Config, notified: bool) returns (n: nat)
    requires SlotRing.Shape(w.ring)
    ensures Sample(w, cfg, notified) == w.(batch := n)
    ensures n > 0 <==> notified || Usage(w.ring) >= cfg.highWatermark
    ensures n > 0 && Usage(w.ring) > cfg.highWatermark ==> Rounded(n, 3, cfg.maxRecords)
    ensures n > 0 && cfg.highWatermark >= Usage(w.ring) >= cfg.highWatermark / 2.0 ==> Rounded(n, 2, cfg.maxRecords)
    ensures n > 0 && Usage(w.ring) <= cfg.highWatermark && Usage(w.ring) < cfg.highWatermark / 2.0 ==>
              Rounded(n, 1, cfg.maxRecords)
  {
    n := Sample(w, cfg, notified).batch;
  }

  /** A fuller ring never gets a smaller batch. */
  lemma FullerTakesMore(w: World, v: World, cfg: Config, wake: bool, again: bool)
    requires SlotRing.Shape(w.ring) && SlotRing.Shape(v.ring) && Usage(w.ring) <= Usage(v.ring)
    requires Sample(w, cfg, wake).batch > 0 && Sample(v, cfg, again).batch > 0
    ensures Sample(w, cfg, wake).batch <= Sample(v, cfg, again).batch
  {}

  /** A batch keeps `k` records exactly when it is that large. */
  lemma RoundedKeeps(n: nat, halves: nat, max: nat, k: nat)
    requires Rounded(n, halves, max)
    ensures k <= n <==> k <= 1 || 2 * k <= halves * max
  {}

  /** What the turn reads, if the file takes each record. */
  ghost predicate AllFit(w: World, rs: seq<Record>) {
    forall r :: r in rs ==> TotalSize(r) <= w.disk.size
  }

  /**
   A turn above the watermark loses nothing exactly when it finds at most half again the
   configured number of records, or one, and each fits the file; it then writes them all.
   */
  lemma HighTurnKeepsAll(w: World, cfg: Config, notified: bool) returns (rs: seq<Record>)
    requires SlotRing.Shape(w.ring) && RingFile.Shape(w.disk) && Usage(w.ring) > cfg.highWatermark
    ensures rs == Read(w.ring).0
    ensures Flush(w, cfg, notified).discarded == w.discarded <==>
              (|rs| <= 1 || 2 * |rs| <= 3 * cfg.maxRecords) && AllFit(w, rs)
    ensures Flush(w, cfg, notified).discarded == w.discarded ==> Flush(w, cfg, notified).history == w.history + rs
  {
    rs := TurnKeepsAllIff(w, cfg, notified, 3);
  }

  lemma TurnKeepsAllIff(w: World, cfg: Config, notified: bool, halves: nat) returns (rs: seq<Record>)
    requires SlotRing.Shape(w.ring) && RingFile.Shape(w.disk)
    requires Sample(w, cfg, notified).batch > 0 && Rounded(Sample(w, cfg, notified).batch, halves, cfg.maxRecords)
    ensures rs == Read(w.ring).0
    ensures Flush(w, cfg, notified).discarded == w.discarded <==>
              (|rs| <= 1 || 2 * |rs| <= halves * cfg.maxRecords) && AllFit(w, rs)
    ensures Flush(w, cfg, notified).discarded == w.discarded ==> Flush(w, cfg, notified).history == w.history + rs
  {
    rs := Read(w.ring).0;
    var v := Sample(w, cfg, notified);
    DrainKeepsAllIff(v);
    RoundedKeeps(v.batch, halves, cfg.maxRecords, |rs|);
    DrainSplits(v, rs);
  }

  /** A drain that discards nothing has written everything. */
  lemma DrainSplits(v: World, rs: seq<Record>)
    requires SlotRing.Shape(v.ring) && RingFile.Shape(v.disk) && v.batch > 0 && rs == Read(v.ring).0
    ensures Drain(v).discarded == v.discarded ==> Drain(v).history == v.history + rs
  {
    var k := Persist(v.disk, rs[..Min(v.batch, |rs|)]).0;
    assert |Drain(v).discarded| == |v.discarded| + (|rs| - k);
    assert k == |rs| ==> rs[..k] == rs;
  }

  /** Persisting writes exactly the records in front of the first that does not fit. */
  lemma {:induction false} PersistStops(d: RingFile.Disk, rs: seq<Record>, k: nat)
    requires RingFile.Shape(d) && k == Persist(d, rs).0
    ensures forall i :: 0 <= i < k ==> TotalSize(rs[i]) <= d.size
    ensures k < |rs| ==> TotalSize(rs[k]) > d.size
    decreases |rs|
  {
    if rs != [] && RingFile.Fits(d, rs[0]) {
      var d1, tail := RingFile.WriteRecord(d, rs[0]), rs[1..];
      PersistStops(d1, tail, k - 1);
      assert forall i :: 0 < i <= |tail| ==> rs[i] == tail[i - 1];
    }
  }

  /**
   What a drain does with what it read: it writes the first `k` records, up to the batch and the
   first that does not fit the file, and the rest is gone.
   */
  lemma DrainWrites(w: World) returns (rs: seq<Record>, k: nat)
    requires SlotRing.Shape(w.ring) && RingFile.Shape(w.disk) && w.batch > 0
    ensures rs == Read(w.ring).0 && k <= |rs| && k <= w.batch
    ensures Drain(w).history == w.history + rs[..k] && Drain(w).discarded == w.discarded + rs[k..]
    ensures forall i :: 0 <= i < k ==> TotalSize(rs[i]) <= w.disk.size
    ensures k < |rs| && k < w.batch ==> TotalSize(rs[k]) > w.disk.size
  {
    var batch;
    rs, batch, k := DrainParts(w);
    PersistStops(w.disk, batch, k);
    FrontOf(rs, batch, k, w.batch, w.disk.size);
  }

  lemma DrainParts(w: World) returns (rs: seq<Record>, batch: seq<Record>, k: nat)
    requires SlotRing.Shape(w.ring) && RingFile.Shape(w.disk) && w.batch > 0
    ensures rs == Read(w.ring).0 && batch == rs[..Min(w.batch, |rs|)] && k == Persist(w.disk, batch).0 && k <= |batch|
    ensures Drain(w).history == w.history + rs[..k] && Drain(w).discarded == w.discarded + rs[k..]
  {
    rs := Read(w.ring).0;
    batch := rs[..Min(w.batch, |rs|)];
    k := Persist(w.disk, batch).0;
  }

  lemma FrontOf(rs: seq<Record>, batch: seq<Record>, k: nat, n: nat, size: nat)
    requires batch == rs[..Min(n, |rs|)] && k <= |batch|
    requires (forall i :: 0 <= i < k ==> TotalSize(batch[i]) <= size) && (k < |batch| ==> TotalSize(batch[k]) > size)
    ensures forall i :: 0 <= i < k ==> TotalSize(rs[i]) <= size
    ensures k < |rs| && k < n ==> TotalSize(rs[k]) > size
  {
    assert forall i :: 0 <= i < |batch| ==> rs[i] == batch[i];
  }
}
