/**
 The volatile ring at the grain of single atomic actions: any number of producers and the one
 consumer interleave their loads, stores, compare-and-swaps and byte copies in any order, under
 sequential consistency. Sequence numbers are unbounded here.
 */
module StepModel {
  import opened Bytes
  import opened Records
  import opened Sequences
  import opened SlotRing

  /**
   Where one reservation attempt stands, with the number it loaded from `prod_seq`. From its
   compare-and-swap on it also carries its own idea of the slot's bytes.
   */
  datatype Phase =
    | Idle
    | Loaded(number: nat)
    | Probed(number: nat)
    | Won(number: nat, image: seq<byte>)
    | Published(number: nat, image: seq<byte>)
    | Holding(number: nat, image: seq<byte>)
    | Dropping(number: nat, image: seq<byte>)
    | Late(number: nat)

  /** A slot; `owner` and `ticket` are history: who last acquired it, and its last commit. No action looks at them. */
  datatype Place = Place(state: SlotState, number: nat, bytes: seq<byte>, owner: nat, ticket: nat)

  datatype ConsumerPhase = Waiting | SeenReady | Copying(buf: seq<byte>) | Recycling(slot: nat)

  datatype Committed = Committed(producer: nat, number: nat, slot: nat, image: seq<byte>)

  datatype Delivery = Delivery(ticket: nat, bytes: seq<byte>)

  /** `commits`, `delivered` and `dropped` are the run's history, in order. */
  datatype State = State(slots: seq<Place>, prodSeq: nat, producers: seq<Phase>, consSeq: nat, consumer: ConsumerPhase,
                         commits: seq<Committed>, delivered: seq<Delivery>, dropped: seq<nat>)

  /** The buffer a reservation acts on: the parent, as documented, or the clone the code stores. */
  datatype Target = Parent | Clone

  datatype Act =
    | Load | Probe | Acquire | Publish | SetNumber | Poke(at: nat, value: byte)
    | CommitSwap | LateNumber | CommitWhole | GiveUp | DropSwap

  datatype Turn = See | Match | Copy | Take | Recycle

  datatype Step = Produce(a: nat, act: Act) | Consume(turn: Turn)

  /** The slot of a sequence number. */
  function At(s: State, n: nat): (i: nat)
    requires |s.slots| > 0
    ensures i < |s.slots|
  {
    Index(n, |s.slots|)
  }

  function WithPhase(s: State, a: nat, ph: Phase): State
    requires a < |s.producers|
  {
    s.(producers := s.producers[a := ph])
  }

  function WithPlace(s: State, i: nat, p: Place): State
    requires i < |s.slots|
  {
    s.(slots := s.slots[i := p])
  }

  predicate Is(s: State, a: nat) {
    |s.slots| > 0 && a < |s.producers|
  }

  // ---- reserve ----

  function DoProbe(s: State, a: nat): State
    requires Is(s, a) && s.producers[a].Loaded?
  {
    var q := s.producers[a].number;
    WithPhase(s, a, if s.slots[At(s, q)].state.Empty? then Probed(q) else Idle)
  }

  /** The compare-and-swap from Empty to Reserved, with whatever number was loaded. */
  function DoAcquire(s: State, a: nat): State
    requires Is(s, a) && s.producers[a].Probed?
  {
    var q := s.producers[a].number;
    var i := At(s, q);
    if !s.slots[i].state.Empty? then WithPhase(s, a, Idle) else
      WithPhase(WithPlace(s, i, s.slots[i].(state := Reserved, owner := a)), a, Won(q, s.slots[i].bytes))
  }

  function DoPublish(s: State, a: nat): State
    requires Is(s, a) && s.producers[a].Won?
  {
    var ph := s.producers[a];
    WithPhase(s, a, Published(ph.number, ph.image)).(prodSeq := ph.number + 1)
  }

  function DoSetNumber(s: State, a: nat): State
    requires Is(s, a) && s.producers[a].Published?
  {
    var ph := s.producers[a];
    var i := At(s, ph.number);
    WithPhase(WithPlace(s, i, s.slots[i].(number := ph.number)), a, Holding(ph.number, ph.image))
  }

  // ---- Reservation ----

  /** One byte of `write`, into the parent's slot or, as the code has it, into the clone's. */
  function DoPoke(s: State, a: nat, at: nat, value: byte, target: Target): State
    requires Is(s, a) && s.producers[a].Holding?
  {
    var ph := s.producers[a];
    var i := At(s, ph.number);
    if target.Clone? || at >= |s.slots[i].bytes| || at >= |ph.image| then s else
      WithPhase(WithPlace(s, i, s.slots[i].(bytes := s.slots[i].bytes[at := value])), a, Holding(ph.number,
            ph.image[at := value]))
  }

  /** The state a reservation finds in its slot; every slot of a clone is Empty. */
  function Found(s: State, i: nat, target: Target): SlotState
    requires i < |s.slots|
  {
    match target
    case Parent => s.slots[i].state
    case Clone => Empty
  }

  /** The slot after a successful commit by `a`, and the history that goes with it. */
  function Commits(s: State, a: nat, ph: Phase): State
    requires Is(s, a) && ph.Holding?
  {
    var i := At(s, ph.number);
    WithPlace(s, i, s.slots[i].(state := Ready, ticket := |s.commits|))
      .(commits := s.commits + [Committed(a, ph.number, i, ph.image)])
  }

  /** The compare-and-swap of `commit`; the number is stored later. */
  function DoCommitSwap(s: State, a: nat, target: Target): State
    requires Is(s, a) && s.producers[a].Holding?
  {
    var ph := s.producers[a];
    if Found(s, At(s, ph.number), target).Reserved? then WithPhase(Commits(s, a, ph), a, Late(ph.number))
    else WithPhase(s, a, Dropping(ph.number, ph.image))
  }

  function DoLateNumber(s: State, a: nat): State
    requires Is(s, a) && s.producers[a].Late?
  {
    var q := s.producers[a].number;
    WithPhase(WithPlace(s, At(s, q), s.slots[At(s, q)].(number := q)), a, Idle)
  }

  /** `commit` taken as one action. */
  function DoCommitWhole(s: State, a: nat, target: Target): State
    requires Is(s, a) && s.producers[a].Holding?
  {
    var s' := DoCommitSwap(s, a, target);
    if s'.producers[a].Late? then DoLateNumber(s', a) else s'
  }

  function DoGiveUp(s: State, a: nat): State
    requires Is(s, a) && s.producers[a].Holding?
  {
    WithPhase(s, a, Dropping(s.producers[a].number, s.producers[a].image))
  }

  /** The compare-and-swap of `drop`. */
  function DoDropSwap(s: State, a: nat, target: Target): State
    requires Is(s, a) && s.producers[a].Dropping?
  {
    var q := s.producers[a].number;
    var i := At(s, q);
    if !Found(s, i, target).Reserved? then WithPhase(s, a, Idle) else
      WithPhase(WithPlace(s, i, s.slots[i].(state := Empty)), a, Idle).(dropped := s.dropped + [q])
  }

  /** One action of producer `a`; out of turn it does nothing. */
  function ProducerStep(s: State, a: nat, act: Act, target: Target): State
    requires Is(s, a)
  {
    var ph := s.producers[a];
    match act
    case Load => if ph.Idle? then WithPhase(s, a, Loaded(s.prodSeq)) else s
    case Probe => if ph.Loaded? then DoProbe(s, a) else s
    case Acquire => if ph.Probed? then DoAcquire(s, a) else s
    case Publish => if ph.Won? then DoPublish(s, a) else s
    case SetNumber => if ph.Published? then DoSetNumber(s, a) else s
    case Poke(at, value) => if ph.Holding? then DoPoke(s, a, at, value, target) else s
    case CommitSwap => if ph.Holding? then DoCommitSwap(s, a, target) else s
    case LateNumber => if ph.Late? then DoLateNumber(s, a) else s
    case CommitWhole => if ph.Holding? then DoCommitWhole(s, a, target) else s
    case GiveUp => if ph.Holding? then DoGiveUp(s, a) else s
    case DropSwap => if ph.Dropping? then DoDropSwap(s, a, target) else s
  }

  // ---- read ----

  /**
   How much of a slot of `room` bytes the consumer copies, as far as it can tell from what it
   has: the header, and then as many bytes as the header's first field says.
   */
  function CopyLength(buf: seq<byte>, room: nat): (n: nat)
    ensures n <= room
  {
    if |buf| < HEADER_SIZE then Min(HEADER_SIZE, room) else Min(HEADER_SIZE + FromLe(buf[..4]), room)
  }

  /** What a complete copy of a slot holds. */
  function Copied(image: seq<byte>): seq<byte> {
    image[..CopyLength(image, |image|)]
  }

  predicate CopyDone(s: State)
    requires |s.slots| > 0
  {
    s.consumer.Copying? && |s.consumer.buf| >= CopyLength(s.consumer.buf, |s.slots[At(s, s.consSeq)].bytes|)
  }

  /** Delivered: the copy is complete, the slot is marked and the consumer's counter moves on. */
  function DoTake(s: State): State
    requires |s.slots| > 0 && CopyDone(s)
  {
    var i := At(s, s.consSeq);
    WithPlace(s, i, s.slots[i].(state := Consumed))
      .(consSeq := s.consSeq + 1, consumer := Recycling(i),
        delivered := s.delivered + [Delivery(s.slots[i].ticket, s.consumer.buf)])
  }

  function DoRecycle(s: State): State
    requires s.consumer.Recycling?
  {
    var i := s.consumer.slot;
    if i >= |s.slots| then s else
      WithPlace(s, i, s.slots[i].(state := Empty)).(consumer := Waiting)
  }

  function DoCopy(s: State): State
    requires |s.slots| > 0 && s.consumer.Copying?
  {
    var bytes, buf := s.slots[At(s, s.consSeq)].bytes, s.consumer.buf;
    if CopyDone(s) then s else s.(consumer := Copying(buf + [bytes[|buf|]]))
  }

  /** One action of the consumer. */
  function ConsumerStep(s: State, turn: Turn): State
    requires |s.slots| > 0
  {
    var place := s.slots[At(s, s.consSeq)];
    match turn
    case See => if s.consumer.Waiting? && place.state.Ready? then s.(consumer := SeenReady) else s
    case Match =>
      if s.consumer.SeenReady? then s.(consumer := if place.number == s.consSeq then Copying([]) else Waiting) else s
    case Copy => if s.consumer.Copying? then DoCopy(s) else s
    case Take => if CopyDone(s) then DoTake(s) else s
    case Recycle => if s.consumer.Recycling? then DoRecycle(s) else s
  }

  function Next(s: State, step: Step, target: Target): (t: State)
    requires |s.slots| > 0
    ensures |t.slots| == |s.slots| && |t.producers| == |s.producers|
  {
    match step
    case Produce(a, act) => if a < |s.producers| then ProducerStep(s, a, act, target) else s
    case Consume(turn) => ConsumerStep(s, turn)
  }

  /** Any interleaving of steps, whoever takes them. */
  function Run(s: State, steps: seq<Step>, target: Target): (t: State)
    requires |s.slots| > 0
    ensures |t.slots| == |s.slots| && |t.producers| == |s.producers|
    decreases |steps|
  {
    if steps == [] then s else Run(Next(s, steps[0], target), steps[1..], target)
  }

  /** A new buffer: every slot Empty, no producer started, nothing in the history. */
  ghost predicate Initial(s: State) {
    && |s.slots| > 0
    && (forall i {:trigger s.slots[i]} :: 0 <= i < |s.slots| ==> s.slots[i].state.Empty?)
    && (forall a {:trigger s.producers[a]} :: 0 <= a < |s.producers| ==> s.producers[a].Idle?)
    && s.prodSeq == 0 && s.consSeq == 0 && s.consumer.Waiting?
    && s.commits == [] && s.delivered == [] && s.dropped == []
  }
}
