/** The flush daemon as the code runs it, on the two rings in place. */
module FlushDaemon {
  import opened Bytes
  import opened Records
  import opened FlushSpec
  import SlotRing
  import RingFile
  import VolatileRing
  import PersistentRing

  /** The loop over a batch: write until the first error, counting successes. */
  method PersistBatch(disk: PersistentRing.Ring, batch: seq<Record>) returns (written: nat)
    requires disk.Valid()
    modifies disk`control, disk.mmap
    ensures disk.Valid()
    ensures written == Persist(old(disk.State()), batch).0 && disk.State() == Persist(old(disk.State()), batch).1
  {
    written := 0;
    ghost var d := disk.State();
    Starts(d, batch);
    ghost var t := d;
    while written < |batch|
      invariant written <= |batch| && disk.Valid()
      invariant t == disk.State() && Continues(d, batch, written, t)
    {
      var out := disk.Write(batch[written]);
      if out.InvalidRecord? {
        break;
      }
      t := Advances(d, batch, written, t);
      written := written + 1;
    }
    Ends(d, batch, written, t);
  }

  /** After writing the first `k` records the rest of the batch is persisted from `t`. */
  ghost predicate Continues(d: RingFile.Disk, batch: seq<Record>, k: nat, t: RingFile.Disk) {
    && RingFile.Shape(d) && RingFile.Shape(t) && k <= |batch|
    && Persist(d, batch).0 == k + Persist(t, batch[k..]).0 && Persist(d, batch).1 == Persist(t, batch[k..]).1
  }

  lemma Starts(d: RingFile.Disk, batch: seq<Record>)
    requires RingFile.Shape(d)
    ensures Continues(d, batch, 0, d)
  {
    assert batch[0..] == batch;
  }

  lemma Advances(d: RingFile.Disk, batch: seq<Record>, k: nat, t: RingFile.Disk) returns (t': RingFile.Disk)
    requires Continues(d, batch, k, t) && k < |batch| && RingFile.Fits(t, batch[k])
    ensures t' == RingFile.WriteRecord(t, batch[k]) && Continues(d, batch, k + 1, t')
  {
    t' := RingFile.WriteRecord(t, batch[k]);
    PersistOne(t, batch[k..], t', batch[k + 1..], Persist(t', batch[k + 1..]));
  }

  lemma PersistOne(t: RingFile.Disk, rs: seq<Record>, t': RingFile.Disk, rest: seq<Record>, res: (nat, RingFile.Disk))
    requires RingFile.Shape(t) && RingFile.Shape(t') && rs != [] && rest == rs[1..]
    requires RingFile.Fits(t, rs[0]) && t' == RingFile.WriteRecord(t, rs[0]) && res == Persist(t', rest)
    ensures Persist(t, rs).0 == 1 + res.0 && Persist(t, rs).1 == res.1
  {}

  lemma Ends(d: RingFile.Disk, batch: seq<Record>, k: nat, t: RingFile.Disk)
    requires Continues(d, batch, k, t) && (k < |batch| ==> !RingFile.Fits(t, batch[k]))
    ensures Persist(d, batch).0 == k && Persist(d, batch).1 == t
  {}

  class Daemon {
    const memory: VolatileRing.Buffer
    const disk: PersistentRing.Ring
    const cfg: Config
    ghost var history: seq<Record>
    ghost var discarded: seq<Record>

    constructor (memory: VolatileRing.Buffer, disk: PersistentRing.Ring, cfg: Config)
      ensures this.memory == memory && this.disk == disk && this.cfg == cfg
      ensures history == [] && discarded == []
    {
      this.memory, this.disk, this.cfg := memory, disk, cfg;
      history, discarded := [], [];
    }

    ghost function State(): World
      reads this, memory, memory.slots, memory.cells, disk, disk.mmap
    {
      World(memory.State(), disk.State(), 0, history, discarded)
    }

    ghost predicate Valid()
      reads this, memory, memory.slots, memory.cells, disk, disk.mmap
    {
      memory.Valid() && disk.Valid()
    }

    /** One turn: size the batch, decide, drain the memory ring and write a batch of it. */
    method Turn(notified: bool)
      requires Valid()
      modifies this, memory, memory.slots, memory.cells, disk`control, disk.mmap
      ensures Valid() && State() == Flush(old(State()), cfg, notified)
    {
      var usage := memory.UsagePercent();
      var batchSize;
      if usage > cfg.highWatermark {
        batchSize := 3 * cfg.maxRecords / 2;
      } else if usage < cfg.highWatermark / 2.0 {
        batchSize := cfg.maxRecords / 2;
      } else {
        batchSize := cfg.maxRecords;
      }
      if batchSize < 1 {
        batchSize := 1;
      }
      if usage >= cfg.highWatermark || notified {
        DrainBatch(batchSize);
      }
    }

    /** Everything ready leaves the memory ring; at most a batch of it is written. */
    method DrainBatch(batchSize: nat)
      requires Valid() && batchSize > 0
      modifies this, memory, memory.slots, memory.cells, disk`control, disk.mmap
      ensures Valid() && State() == Drain(old(State()).(batch := batchSize))
    {
      var records := memory.Read();
      var written := 0;
      if records != [] {
        written := PersistBatch(disk, records[..Min(batchSize, |records|)]);
      }
      history, discarded := history + records[..written], discarded + records[written..];
    }

    /** The daemon's loop; each turn's wait ends with a notification or without one. */
    method Loop(wakes: seq<bool>)
      requires Valid()
      modifies this, memory, memory.slots, memory.cells, disk`control, disk.mmap
      ensures Valid() && State() == Turns(old(State()), cfg, wakes)
      ensures AllowedRun(old(State()), cfg, EventsOf(wakes)) && State() == Run(old(State()), cfg, EventsOf(wakes))
    {
      ghost var w := State();
      var i := 0;
      while i < |wakes|
        invariant i <= |wakes| && Valid()
        invariant Turns(w, cfg, wakes) == Turns(State(), cfg, wakes[i..])
      {
        Turn(wakes[i]);
        i := i + 1;
      }
      TurnsAreRun(w, cfg, wakes);
    }
  }
}
