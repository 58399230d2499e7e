/**
 Orderly interleavings refine the operation-level queue: every atomic step is a move of the
 queue of Fifo.dfy or leaves it alone, and the deliveries are the queue's output.
 */
module StepRefinement {
  import opened Bytes
  import opened Records
  import opened StepModel
  import opened StepOwnership
  import opened StepStores
  import opened StepNumbers
  import opened StepWindow
  import Crc32
  import DiskFormat
  import Fifo

  /** How the bytes of a slot are read as a record; any way at all. */
  type Decoder = seq<byte> -> Record

  /** Reading the copy the consumer makes is reading the slot. */
  ghost predicate ReadsNoMore(d: Decoder, image: seq<byte>) {
    d(image) == d(Copied(image))
  }

  ghost predicate Frugal(d: Decoder) {
    forall image {:trigger ReadsNoMore(d, image)} :: ReadsNoMore(d, image)
  }

  function EntryAt(s: State, d: Decoder, n: nat): Fifo.Entry
    requires |s.slots| > 0
  {
    Fifo.Entry(d(s.slots[At(s, n)].bytes), s.slots[At(s, n)].state.Ready?)
  }

  function Entries(s: State, d: Decoder, c: nat, p: nat): (es: seq<Fifo.Entry>)
    requires |s.slots| > 0 && c <= p
    ensures |es| == p - c
    ensures forall k {:trigger es[k]} :: 0 <= k < p - c ==> es[k] == EntryAt(s, d, c + k)
    decreases p - c
  {
    if c == p then [] else [EntryAt(s, d, c)] + Entries(s, d, c + 1, p)
  }

  /** The queue the slots stand for. */
  function Abs(s: State, d: Decoder): (q: Fifo.Queue)
    requires |s.slots| > 0 && s.consSeq <= s.prodSeq
  {
    Fifo.Queue(Entries(s, d, s.consSeq, s.prodSeq), [])
  }

  /** What the queue sees of a step. */
  datatype Move = Nothing | Reserves(stale: Record) | Puts(i: nat, record: Record) | Commits(i: nat) | TakesFirst

  /** The move of an action by producer `a`: publishing reserves, and its own entry is filled and committed. */
  ghost function ProducerMove(s: State, a: nat, act: Act, d: Decoder): Move
    requires Is(s, a)
  {
    var ph := s.producers[a];
    if act.Publish? && ph.Won? then
      Reserves(d(s.slots[At(s, ph.number)].bytes))
    else if act.Poke? && ph.Holding? && s.consSeq <= ph.number then
      Puts(ph.number - s.consSeq, d(Put(s.slots[At(s, ph.number)].bytes, act.at, act.value)))
    else if act.CommitWhole? && ph.Holding? && s.consSeq <= ph.number then
      Commits(ph.number - s.consSeq)
    else Nothing
  }

  ghost function MoveOf(s: State, step: Step, d: Decoder): Move
    requires |s.slots| > 0
  {
    match step
    case Produce(a, act) => if a < |s.producers| then ProducerMove(s, a, act, d) else Nothing
    case Consume(turn) => if turn.Take? && CopyDone(s) then TakesFirst else Nothing
  }

  /** The moves of a run, one for each step. */
  ghost function MovesOf(s: State, steps: seq<Step>, d: Decoder): seq<Move>
    requires |s.slots| > 0
    decreases |steps|
  {
    if steps == [] then [] else [MoveOf(s, steps[0], d)] + MovesOf(Next(s, steps[0], Parent), steps[1..], d)
  }

  ghost predicate Possible(q: Fifo.Queue, cap: nat, m: Move) {
    match m
    case Nothing => true
    case Reserves(_) => |q.ring| < cap
    case Puts(i, _) => i < |q.ring| && !q.ring[i].committed
    case Commits(i) => i < |q.ring| && !q.ring[i].committed
    case TakesFirst => q.ring != [] && q.ring[0].committed
  }

  ghost function Moved(q: Fifo.Queue, cap: nat, m: Move): Fifo.Queue
    requires Possible(q, cap, m)
  {
    match m
    case Nothing => q
    case Reserves(r) => Fifo.Reserve(q, r)
    case Puts(i, r) => Fifo.Put(q, i, r)
    case Commits(i) => Fifo.Commit(q, i)
    case TakesFirst => q.(ring := q.ring[1..])
  }

  /** The queue moves as the step does. */
  ghost predicate Follows(s: State, t: State, d: Decoder, m: Move) {
    && |s.slots| > 0 && |t.slots| == |s.slots| && s.consSeq <= s.prodSeq && t.consSeq <= t.prodSeq
    && Possible(Abs(s, d), |s.slots|, m) && Abs(t, d) == Moved(Abs(s, d), |s.slots|, m)
  }

  /** The slots of the numbers in use read the same in both states. */
  ghost predicate SameEntries(s: State, t: State, d: Decoder, lo: nat, hi: nat)
    requires |s.slots| > 0 && |t.slots| > 0
  {
    forall n {:trigger EntryAt(t, d, n)} :: lo <= n < hi ==> EntryAt(t, d, n) == EntryAt(s, d, n)
  }

  lemma EntriesSame(s: State, t: State, d: Decoder, lo: nat, hi: nat)
    requires |s.slots| > 0 && |t.slots| > 0 && lo <= hi && SameEntries(s, t, d, lo, hi)
    ensures Entries(t, d, lo, hi) == Entries(s, d, lo, hi)
  {}

  lemma PublishMoves(s: State, a: nat, d: Decoder) returns (m: Move)
    requires Windowed(s) && Is(s, a) && s.producers[a].Won?
    ensures m == ProducerMove(s, a, Publish, d) && Follows(s, DoPublish(s, a), d, m)
  {
    assert PhaseOk(s, a);
    m := Reserves(EntryAt(s, d, s.prodSeq).record);
    ProducerNumbered(s, a, Publish);
    PublishWindow(s, a);
    assert ProducerOk(s, a);
    var t := DoPublish(s, a);
    var es, es' := Abs(s, d).ring, Abs(t, d).ring;
    assert EntryAt(t, d, s.prodSeq) == Fifo.Entry(EntryAt(s, d, s.prodSeq).record, false);
    assert es' == es + [EntryAt(t, d, s.prodSeq)];
  }

  /** One entry changes, the one of the reservation's number. */
  lemma EntryMoves(s: State, t: State, d: Decoder, a: nat, n: nat, e: Fifo.Entry)
    requires Windowed(s) && Narrow(s, t, a, n) && t.prodSeq == s.prodSeq && s.consSeq <= n < s.prodSeq
    requires e == EntryAt(t, d, n)
    ensures Abs(t, d).ring == Abs(s, d).ring[n - s.consSeq := e] && Abs(s, d).ring[n - s.consSeq] == EntryAt(s, d, n)
  {
    forall m | s.consSeq <= m < s.prodSeq && m != n ensures EntryAt(t, d, m) == EntryAt(s, d, m) {
      Apart(s, n, m);
    }
    EntriesUpdate(s, t, d, s.consSeq, s.prodSeq, n);
  }

  lemma EntriesUpdate(s: State, t: State, d: Decoder, c: nat, p: nat, n: nat)
    requires |s.slots| > 0 && |t.slots| > 0 && c <= n < p
    requires forall m {:trigger EntryAt(t, d, m)} :: c <= m < p && m != n ==> EntryAt(t, d, m) == EntryAt(s, d, m)
    ensures Entries(t, d, c, p) == Entries(s, d, c, p)[n - c := EntryAt(t, d, n)]
  {}

  lemma PokeMoves(s: State, a: nat, at: nat, value: byte, d: Decoder) returns (m: Move)
    requires Windowed(s) && Is(s, a) && s.producers[a].Holding?
    ensures m == ProducerMove(s, a, Poke(at, value), d) && Follows(s, DoPoke(s, a, at, value, Parent), d, m)
  {
    InWindow(s, a);
    assert ProducerOk(s, a);
    var t, n := DoPoke(s, a, at, value, Parent), s.producers[a].number;
    m := Puts(n - s.consSeq, EntryAt(t, d, n).record);
    EntryMoves(s, t, d, a, n, Fifo.Entry(m.record, false));
  }

  /** Committing marks the entry of the reservation's number. */
  lemma CommitMoves(s: State, a: nat, d: Decoder) returns (m: Move)
    requires Windowed(s) && Is(s, a) && s.producers[a].Holding?
    ensures m == ProducerMove(s, a, CommitWhole, d) && Follows(s, DoCommitWhole(s, a, Parent), d, m)
  {
    InWindow(s, a);
    var t, i := CommitEffect(s, a);
    var n := s.producers[a].number;
    m := Commits(n - s.consSeq);
    EntryMoves(s, t, d, a, n, Fifo.Entry(EntryAt(s, d, n).record, true));
  }

  /** Delivering takes the first entry, whose bytes the consumer has copied. */
  lemma TakeMoves(s: State, d: Decoder)
    requires Windowed(s) && CopyDone(s)
    ensures Follows(s, DoTake(s), d, TakesFirst)
  {
    ReadyHead(s);
    var t, c := DoTake(s), s.consSeq;
    forall n | c < n < s.prodSeq ensures EntryAt(t, d, n) == EntryAt(s, d, n) {
      Apart(s, c, n);
    }
    EntriesSame(s, t, d, c + 1, s.prodSeq);
    assert Abs(s, d).ring[0] == EntryAt(s, d, c);
  }

  // ---- Whole runs ----

  lemma QuietMoves(s: State, t: State, d: Decoder)
    requires |s.slots| > 0 && |t.slots| == |s.slots| && s.consSeq == t.consSeq <= s.prodSeq == t.prodSeq
    requires SameEntries(s, t, d, s.consSeq, s.prodSeq)
    ensures Follows(s, t, d, Nothing)
  {
    EntriesSame(s, t, d, s.consSeq, s.prodSeq);
  }

  /** Reserving a slot before publishing it, and recycling one, happen outside the window. */
  lemma OutsideMoves(s: State, t: State, d: Decoder, m: nat)
    requires Windowed(s) && |t.slots| == |s.slots| && t.consSeq == s.consSeq && t.prodSeq == s.prodSeq
    requires Low(s) <= m < Low(s) + |s.slots| && !(s.consSeq <= m < s.prodSeq)
    requires forall j :: 0 <= j < |s.slots| && j != At(s, m) ==> t.slots[j] == s.slots[j]
    ensures Follows(s, t, d, Nothing)
  {
    forall n | s.consSeq <= n < s.prodSeq ensures EntryAt(t, d, n) == EntryAt(s, d, n) {
      Apart(s, m, n);
    }
    QuietMoves(s, t, d);
  }

  lemma AcquireMoves(s: State, a: nat, d: Decoder)
    requires Windowed(s) && Is(s, a) && s.producers[a].Probed? && OrderlyStep(s, Produce(a, Acquire))
    ensures Follows(s, DoAcquire(s, a), d, Nothing)
  {
    var q := s.producers[a].number;
    if s.slots[At(s, q)].state.Empty? {
      RoomForWon(s, At(s, q));
      OutsideMoves(s, DoAcquire(s, a), d, q);
    } else {
      QuietMoves(s, DoAcquire(s, a), d);
    }
  }

  lemma SetNumberMoves(s: State, a: nat, d: Decoder)
    requires Windowed(s) && Is(s, a) && s.producers[a].Published?
    ensures Follows(s, DoSetNumber(s, a), d, Nothing)
  {
    QuietMoves(s, DoSetNumber(s, a), d);
  }

  lemma ProducerMoves(s: State, a: nat, act: Act, d: Decoder) returns (m: Move)
    requires Windowed(s) && Is(s, a) && OrderlyStep(s, Produce(a, act))
    ensures m == ProducerMove(s, a, act, d) && Follows(s, ProducerStep(s, a, act, Parent), d, m)
  {
    var ph := s.producers[a];
    assert Simple(s, a);
    if act.Publish? && ph.Won? {
      m := PublishMoves(s, a, d);
    } else if act.Poke? && ph.Holding? {
      m := PokeMoves(s, a, act.at, act.value, d);
    } else if act.CommitWhole? && ph.Holding? {
      m := CommitMoves(s, a, d);
    } else {
      m := Nothing;
      if act.Acquire? && ph.Probed? {
        AcquireMoves(s, a, d);
      } else if act.SetNumber? && ph.Published? {
        SetNumberMoves(s, a, d);
      } else {
        QuietMoves(s, ProducerStep(s, a, act, Parent), d);
      }
    }
  }

  lemma ConsumerMoves(s: State, turn: Turn, d: Decoder) returns (m: Move)
    requires Windowed(s)
    ensures Follows(s, ConsumerStep(s, turn), d, m) && m == if turn.Take? && CopyDone(s) then TakesFirst else Nothing
  {
    m := if turn.Take? && CopyDone(s) then TakesFirst else Nothing;
    if m.TakesFirst? {
      TakeMoves(s, d);
    } else if turn.Recycle? && s.consumer.Recycling? {
      OutsideMoves(s, ConsumerStep(s, turn), d, Low(s));
    } else {
      QuietMoves(s, ConsumerStep(s, turn), d);
    }
  }

  /** What a move puts out. */
  ghost function Output(q: Fifo.Queue, cap: nat, m: Move): seq<Record>
    requires Possible(q, cap, m)
  {
    if m.TakesFirst? then [q.ring[0].record] else []
  }

  /** The outputs are what the delivered bytes read as. */
  ghost predicate Delivers(ds: seq<Delivery>, d: Decoder, out: seq<Record>) {
    |out| == |ds| && forall k {:trigger out[k]} {:trigger ds[k]} :: 0 <= k < |out| ==> out[k] == d(ds[k].bytes)
  }

  lemma TakeDelivers(s: State, d: Decoder, out: seq<Record>)
    requires Windowed(s) && CopyDone(s) && Delivers(s.delivered, d, out) && Frugal(d)
    ensures Abs(s, d).ring != [] && Delivers(DoTake(s).delivered, d, out + [Abs(s, d).ring[0].record])
  {
    ReadyHead(s);
    assert Abs(s, d).ring[0] == EntryAt(s, d, s.consSeq);
    var image := s.slots[At(s, s.consSeq)].bytes;
    CopyEnds(s.consumer.buf, image);
    assert ReadsNoMore(d, image);
  }

  /** The state stands for queue `q`, has a window, and has delivered `out`. */
  ghost predicate Stands(s: State, d: Decoder, q: Fifo.Queue, out: seq<Record>) {
    Windowed(s) && Frugal(d) && q == Abs(s, d) && Delivers(s.delivered, d, out)
  }

  lemma DeliveredKept(s: State, a: nat, act: Act)
    requires Is(s, a)
    ensures ProducerStep(s, a, act, Parent).delivered == s.delivered
  {}

  lemma ProducerStands(s: State, a: nat, act: Act, d: Decoder, q: Fifo.Queue, out: seq<Record>)
    returns (t: State, m: Move, q': Fifo.Queue)
    requires Stands(s, d, q, out) && Is(s, a) && OrderlyStep(s, Produce(a, act))
    ensures t == ProducerStep(s, a, act, Parent) && m == ProducerMove(s, a, act, d) && Stands(t, d, q', out)
    ensures Possible(q, |s.slots|, m) && q' == Moved(q, |s.slots|, m) && Output(q, |s.slots|, m) == []
  {
    t := ProducerStep(s, a, act, Parent);
    ProducerWindow(s, a, act);
    m := ProducerMoves(s, a, act, d);
    DeliveredKept(s, a, act);
    q' := Abs(t, d);
  }

  lemma ConsumerStands(s: State, turn: Turn, d: Decoder, q: Fifo.Queue, out: seq<Record>)
    returns (t: State, m: Move, q': Fifo.Queue)
    requires Stands(s, d, q, out)
    ensures t == ConsumerStep(s, turn) && m == MoveOf(s, Consume(turn), d)
    ensures Possible(q, |s.slots|, m) && q' == Moved(q, |s.slots|, m) && Stands(t, d, q', out + Output(q, |s.slots|, m))
  {
    t := ConsumerStep(s, turn);
    ConsumerWindow(s, turn);
    m := ConsumerMoves(s, turn, d);
    q' := Abs(t, d);
    if m.TakesFirst? {
      TakeDelivers(s, d, out);
    } else {
      assert out + [] == out;
    }
  }

  /** Every orderly step keeps the window and is its move of the queue. */
  lemma StepMoves(s: State, step: Step, d: Decoder, q: Fifo.Queue, out: seq<Record>)
    returns (t: State, m: Move, q': Fifo.Queue, now: seq<Record>)
    requires Stands(s, d, q, out) && OrderlyStep(s, step)
    ensures t == Next(s, step, Parent) && |t.slots| == |s.slots| && m == MoveOf(s, step, d)
    ensures Possible(q, |s.slots|, m) && q' == Moved(q, |s.slots|, m) && now == Output(q, |s.slots|, m)
    ensures Stands(t, d, q', out + now)
  {
    t, m, q' := s, Nothing, q;
    match step {
      case Produce(a, act) => if a < |s.producers| { t, m, q' := ProducerStands(s, a, act, d, q, out); }
      case Consume(turn) => t, m, q' := ConsumerStands(s, turn, d, q, out);
    }
    now := Output(q, |s.slots|, m);
    assert now == [] ==> out + now == out;
  }

  /** A run of the queue: the moves are possible, end in `t` and put out `out`. */
  ghost predicate QueueRun(q: Fifo.Queue, cap: nat, moves: seq<Move>, t: Fifo.Queue, out: seq<Record>)
    decreases |moves|
  {
    if moves == [] then t == q && out == [] else
      && Possible(q, cap, moves[0])
      && var now := Output(q, cap, moves[0]);
         now <= out && QueueRun(Moved(q, cap, moves[0]), cap, moves[1..], t, out[|now|..])
  }

  lemma QueueRunCons(q: Fifo.Queue, cap: nat, m: Move, q': Fifo.Queue, now: seq<Record>, moves: seq<Move>,
                     t: Fifo.Queue, later: seq<Record>)
    requires Possible(q, cap, m) && q' == Moved(q, cap, m) && now == Output(q, cap, m)
    requires QueueRun(q', cap, moves, t, later)
    ensures QueueRun(q, cap, [m] + moves, t, now + later)
  {
    assert ([m] + moves)[1..] == moves;
    assert (now + later)[|now|..] == later;
  }

  lemma RunUnfolds(s: State, steps: seq<Step>, s1: State, d: Decoder)
    requires |s.slots| > 0 && steps != [] && OrderlyRun(s, steps) && s1 == Next(s, steps[0], Parent)
    ensures OrderlyStep(s, steps[0]) && OrderlyRun(s1, steps[1..])
    ensures Run(s, steps, Parent) == Run(s1, steps[1..], Parent)
    ensures MovesOf(s, steps, d) == [MoveOf(s, steps[0], d)] + MovesOf(s1, steps[1..], d)
  {}

  lemma {:induction false} RunMoves(s: State, steps: seq<Step>, d: Decoder, q: Fifo.Queue, out: seq<Record>)
    returns (t: State, moves: seq<Move>, q': Fifo.Queue, more: seq<Record>)
    requires Stands(s, d, q, out) && OrderlyRun(s, steps)
    ensures t == Run(s, steps, Parent) && Stands(t, d, q', out + more)
    ensures moves == MovesOf(s, steps, d) && QueueRun(q, |s.slots|, moves, q', more)
    decreases |steps|
  {
    if steps == [] {
      t, moves, q', more := s, [], q, [];
      assert out + more == out;
    } else {
      var s1, m, q1, now := StepMoves(s, steps[0], d, q, out);
      RunUnfolds(s, steps, s1, d);
      var rest, later;
      t, rest, q', later := RunMoves(s1, steps[1..], d, q1, out + now);
      Fifo.Associate(out, now, later);
      QueueRunCons(q, |s.slots|, m, q1, now, rest, q', later);
      moves, more := [m] + rest, now + later;
    }
  }

  /** A commit is delivered in its number's turn, or waits in its number's slot. */
  ghost predicate Kept(s: State, ticket: nat)
    requires |s.slots| > 0 && ticket < |s.commits|
  {
    var n := s.commits[ticket].number;
    if n < s.consSeq then n < |s.delivered| && s.delivered[n].ticket == ticket
    else n < s.prodSeq && s.slots[At(s, n)].state.Ready? && s.slots[At(s, n)].ticket == ticket
  }

  lemma CommitKept(s: State, ticket: nat)
    requires Windowed(s) && ticket < |s.commits|
    ensures Kept(s, ticket)
  {
    var n := s.commits[ticket].number;
    assert n in Numbers(s.commits);
    if n < s.consSeq {
      OneTicket(s, ticket, s.delivered[n].ticket);
    } else {
      assert StepWindow.Live(s, n);
      var place := s.slots[At(s, n)];
      if place.state.Reserved? {
        ReservedUncommitted(s, n);
      }
      OneTicket(s, ticket, place.ticket);
    }
  }

  lemma ReservedUncommitted(s: State, n: nat)
    requires Windowed(s) && StepWindow.Live(s, n) && s.slots[At(s, n)].state.Reserved?
    requires n < s.prodSeq
    ensures n !in Numbers(s.commits)
  {
    assert PhaseOk(s, s.slots[At(s, n)].owner);
  }

  lemma OneTicket(s: State, i: nat, j: nat)
    requires Sequenced(s.commits, s.delivered) && i < |s.commits| && j < |s.commits|
    requires s.commits[i].number == s.commits[j].number
    ensures i == j
  {}

  /**
   Every orderly interleaving, from a new buffer, is a run of the bounded queue, step by step:
   its moves are those of the steps, its output is what the delivered bytes read as, the k-th
   delivery is of number k's commit, and every commit is delivered in its number's turn or waits
   in its slot.
   */
  lemma OrderlyRunsAreFifo(s0: State, steps: seq<Step>, d: Decoder)
    returns (s: State, q: Fifo.Queue, out: seq<Record>)
    requires Initial(s0) && OrderlyRun(s0, steps) && Frugal(d)
    ensures s == Run(s0, steps, Parent) && s.consSeq <= s.prodSeq && q == Abs(s, d) && |q.ring| <= |s.slots|
    ensures QueueRun(Fifo.Queue([], []), |s0.slots|, MovesOf(s0, steps, d), q, out)
    ensures Delivers(s.delivered, d, out) && InNumberOrder(s.commits, s.delivered)
    ensures DeliveriesOk(s.commits, s.delivered)
    ensures forall t {:trigger Kept(s, t)} :: 0 <= t < |s.commits| ==> Kept(s, t)
  {
    InitialWindow(s0);
    var moves;
    s, moves, q, out := RunMoves(s0, steps, d, Fifo.Queue([], []), []);
    assert [] + out == out;
    forall t | 0 <= t < |s.commits| ensures Kept(s, t) {
      CommitKept(s, t);
    }
  }

  /** The record in a slot: the header's fields and as much data as it says. */
  function SlotRecord(image: seq<byte>): Record {
    var bytes := Copied(image);
    if |bytes| < HEADER_SIZE then Record(RecordHeader(0, 0, 0, 0), []) else
      Record(RecordHeader(DiskFormat.U32At(bytes, 0), DiskFormat.U32At(bytes, 4), DiskFormat.U64At(bytes, 8),
            DiskFormat.U32At(bytes, 16)), bytes[HEADER_SIZE..])
  }

  /** The consumer copies all that `SlotRecord` looks at. */
  lemma SlotRecordFrugal()
    ensures Frugal(SlotRecord)
  {
    forall image ensures ReadsNoMore(SlotRecord, image) {
      CopyAgain(image);
    }
  }

  lemma CopyAgain(image: seq<byte>)
    ensures Copied(Copied(image)) == Copied(image)
  {
    var bytes := Copied(image);
    if |image| >= HEADER_SIZE {
      assert bytes[..4] == image[..4];
    }
  }

  /**
   Taking entries until none is committed, and keeping the records with good checksums, is the
   operation-level `read`.
  */
  lemma TakesMakeRead(q: Fifo.Queue, cap: nat) returns (moves: seq<Move>, t: Fifo.Queue, out: seq<Record>)
    requires |q.ring| <= cap && q.overflow == []
    ensures (forall m :: m in moves ==> m.TakesFirst?) && QueueRun(q, cap, moves, t, out)
    ensures t == Fifo.Read(q, Fifo.Limits(cap, 0)).1
    ensures out == Fifo.RecordsOf(q.ring[..Fifo.Ready(q.ring)])
    ensures Fifo.Read(q, Fifo.Limits(cap, 0)).0 == Fifo.OnlySound(out)
    ensures forall r :: r in Fifo.OnlySound(out) <==> r in out && r.header.crc32 == Crc32.Checksum(r.data)
    ensures (forall r :: r in out ==> r.header.crc32 == Crc32.Checksum(r.data)) ==> Fifo.OnlySound(out) == out
  {
    var left;
    moves, left, out := Takes(q.ring, cap);
    t := Fifo.Queue(left, []);
    assert q == Fifo.Queue(q.ring, []);
    ReadEmptyOverflow(q, cap);
    Fifo.ValidIsSound(q.ring[..Fifo.Ready(q.ring)]);
    Fifo.OnlySoundKeeps(out);
  }

  lemma {:induction false} Takes(ring: seq<Fifo.Entry>, cap: nat)
    returns (moves: seq<Move>, left: seq<Fifo.Entry>, out: seq<Record>)
    ensures (forall m :: m in moves ==> m.TakesFirst?)
    ensures QueueRun(Fifo.Queue(ring, []), cap, moves, Fifo.Queue(left, []), out)
    ensures left == ring[Fifo.Ready(ring)..] && out == Fifo.RecordsOf(ring[..Fifo.Ready(ring)])
    decreases |ring|
  {
    if ring == [] || !ring[0].committed {
      moves, left, out := [], ring, [];
      assert ring[..0] == [] && ring[0..] == ring;
    } else {
      var rest, later;
      rest, left, later := Takes(ring[1..], cap);
      Fifo.TakeOne(ring);
      moves, out := [TakesFirst] + rest, [ring[0].record] + later;
      QueueRunCons(Fifo.Queue(ring, []), cap, TakesFirst, Fifo.Queue(ring[1..], []), [ring[0].record], rest,
                   Fifo.Queue(left, []), later);
      TakenRecords(ring);
    }
  }

  lemma TakenRecords(ring: seq<Fifo.Entry>)
    requires ring != [] && ring[0].committed
    ensures Fifo.RecordsOf(ring[..Fifo.Ready(ring)]) ==
          [ring[0].record] + Fifo.RecordsOf(ring[1..][..Fifo.Ready(ring[1..])])
  {
    var n := Fifo.Ready(ring);
    assert ring[..n][1..] == ring[1..][..n - 1];
  }

  lemma ReadEmptyOverflow(q: Fifo.Queue, cap: nat)
    requires |q.ring| <= cap && q.overflow == []
    ensures Fifo.Read(q, Fifo.Limits(cap, 0)).1 == q.(ring := q.ring[Fifo.Ready(q.ring)..])
    ensures Fifo.Read(q, Fifo.Limits(cap, 0)).0 == Fifo.Valid(q.ring[..Fifo.Ready(q.ring)])
  {
    assert q.ring[..0] == [];
  }
}
