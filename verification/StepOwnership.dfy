/**
 Slot ownership in every interleaving, stale loads and late stores included: a Reserved slot has
 exactly one live reservation, nobody else writes to it, and what the consumer copies out of a
 Ready slot is what the one reservation that committed it had written.
 */
module StepOwnership {
  import opened Bytes
  import opened StepModel

  /** From its compare-and-swap until it commits or drops, an attempt owns a slot. */
  predicate Owns(ph: Phase) {
    ph.Won? || ph.Published? || ph.Holding? || ph.Dropping?
  }

  /** An owner's slot is Reserved, is marked as its own, and holds the bytes the owner thinks it does. */
  ghost predicate ProducerOk(s: State, a: nat)
    requires Is(s, a)
  {
    var ph := s.producers[a];
    Owns(ph) ==>
      var place := s.slots[At(s, ph.number)];
      place.state.Reserved? && place.owner == a && place.bytes == ph.image
  }

  /** A ticket not yet delivered whose reservation committed slot `i` with these bytes. */
  ghost predicate TicketOk(s: State, i: nat, place: Place) {
    && place.ticket < |s.commits|
    && s.commits[place.ticket].slot == i
    && s.commits[place.ticket].image == place.bytes
    && Undelivered(s.delivered, place.ticket)
  }

  ghost predicate Undelivered(ds: seq<Delivery>, ticket: nat) {
    forall k {:trigger ds[k]} :: 0 <= k < |ds| ==> ds[k].ticket != ticket
  }

  ghost predicate PlaceOk(s: State, i: nat)
    requires i < |s.slots|
  {
    var place := s.slots[i];
    match place.state
    case Empty => true
    case Reserved =>
      && place.owner < |s.producers|
      && Owns(s.producers[place.owner])
      && At(s, s.producers[place.owner].number) == i
    case Ready => TicketOk(s, i, place)
    case Consumed => s.consumer == Recycling(i)
  }

  /** Part of a copy of `image`, and no more than the header asks for. */
  ghost predicate PartlyCopied(buf: seq<byte>, image: seq<byte>) {
    buf <= image && |buf| <= CopyLength(buf, |image|)
  }

  lemma CopyGrows(buf: seq<byte>, image: seq<byte>)
    requires PartlyCopied(buf, image) && |buf| < CopyLength(buf, |image|)
    ensures PartlyCopied(buf + [image[|buf|]], image)
  {
    assert |buf| >= 4 ==> (buf + [image[|buf|]])[..4] == buf[..4];
  }

  lemma CopyEnds(buf: seq<byte>, image: seq<byte>)
    requires PartlyCopied(buf, image) && |buf| >= CopyLength(buf, |image|)
    ensures buf == Copied(image)
  {
    assert |buf| >= 4 ==> buf[..4] == image[..4];
  }

  /** The consumer looks only at a slot that is Ready, and what it copied is a prefix of it. */
  ghost predicate ConsumerOk(s: State)
    requires |s.slots| > 0
  {
    var place := s.slots[At(s, s.consSeq)];
    match s.consumer
    case Waiting => true
    case SeenReady => place.state.Ready?
    case Copying(buf) => place.state.Ready? && PartlyCopied(buf, place.bytes)
    case Recycling(i) => i < |s.slots| && s.slots[i].state.Consumed?
  }

  /** Each delivery is the complete copy of its commit's image, and no ticket is delivered twice. */
  ghost predicate DeliveriesOk(commits: seq<Committed>, ds: seq<Delivery>) {
    && (forall k {:trigger ds[k]} :: 0 <= k < |ds| ==>
          ds[k].ticket < |commits| && ds[k].bytes == Copied(commits[ds[k].ticket].image))
    && (forall j, k {:trigger ds[j], ds[k]} :: 0 <= j < k < |ds| ==> ds[j].ticket != ds[k].ticket)
  }

  ghost predicate Owned(s: State) {
    && |s.slots| > 0
    && (forall a {:trigger ProducerOk(s, a)} :: 0 <= a < |s.producers| ==> ProducerOk(s, a))
    && (forall i {:trigger PlaceOk(s, i)} :: 0 <= i < |s.slots| ==> PlaceOk(s, i))
    && ConsumerOk(s)
    && DeliveriesOk(s.commits, s.delivered)
  }

  /** The states differ at most in producer `a`, slot `i`, the counter and appended history. */
  ghost predicate LocalTo(s: State, t: State, a: nat, i: nat) {
    && |t.slots| == |s.slots| > i && |t.producers| == |s.producers| > a
    && (forall b :: 0 <= b < |s.producers| && b != a ==> t.producers[b] == s.producers[b])
    && (forall j :: 0 <= j < |s.slots| && j != i ==> t.slots[j] == s.slots[j])
    && t.consSeq == s.consSeq && t.consumer == s.consumer && t.delivered == s.delivered
    && s.commits <= t.commits
  }

  /** A step of one producer on its own slot, or on a free one, keeps everyone's ownership. */
  lemma ProducerFrame(s: State, t: State, a: nat, i: nat)
    requires Owned(s) && LocalTo(s, t, a, i)
    requires Owns(s.producers[a]) ==> At(s, s.producers[a].number) == i
    requires s.slots[i].state.Reserved? ==>
          s.slots[i].owner == a || t.slots[i].(number := 0) == s.slots[i].(number := 0)
    requires ProducerOk(t, a) && PlaceOk(t, i)
    requires s.slots[i].state.Ready? ==> t.slots[i].state.Ready? && t.slots[i].bytes == s.slots[i].bytes
    requires s.slots[i].state.Consumed? ==> t.slots[i].state.Consumed?
    ensures Owned(t)
  {
    forall b | 0 <= b < |t.producers| ensures ProducerOk(t, b) {
      assert ProducerOk(s, b);
    }
    forall j | 0 <= j < |t.slots| ensures PlaceOk(t, j) {
      assert PlaceOk(s, j);
      assert ProducerOk(s, a);
    }
  }

  // ---- Every action keeps it ----

  lemma AcquireOwned(s: State, a: nat)
    requires Owned(s) && Is(s, a) && s.producers[a].Probed?
    ensures Owned(DoAcquire(s, a))
  {
    var i := At(s, s.producers[a].number);
    assert PlaceOk(s, i);
    ProducerFrame(s, DoAcquire(s, a), a, i);
  }

  lemma PublishOwned(s: State, a: nat)
    requires Owned(s) && Is(s, a) && s.producers[a].Won?
    ensures Owned(DoPublish(s, a))
  {
    assert ProducerOk(s, a);
    ProducerFrame(s, DoPublish(s, a), a, At(s, s.producers[a].number));
  }

  lemma SetNumberOwned(s: State, a: nat)
    requires Owned(s) && Is(s, a) && s.producers[a].Published?
    ensures Owned(DoSetNumber(s, a))
  {
    assert ProducerOk(s, a);
    ProducerFrame(s, DoSetNumber(s, a), a, At(s, s.producers[a].number));
  }

  lemma PokeOwned(s: State, a: nat, at: nat, value: byte)
    requires Owned(s) && Is(s, a) && s.producers[a].Holding?
    ensures Owned(DoPoke(s, a, at, value, Parent))
  {
    assert ProducerOk(s, a);
    ProducerFrame(s, DoPoke(s, a, at, value, Parent), a, At(s, s.producers[a].number));
  }

  /** A commit's compare-and-swap never fails, and its ticket is new. */
  lemma CommitSwapOwned(s: State, a: nat)
    requires Owned(s) && Is(s, a) && s.producers[a].Holding?
    ensures Owned(DoCommitSwap(s, a, Parent)) && DoCommitSwap(s, a, Parent).producers[a].Late?
  {
    assert ProducerOk(s, a);
    ProducerFrame(s, DoCommitSwap(s, a, Parent), a, At(s, s.producers[a].number));
  }

  lemma LateNumberOwned(s: State, a: nat)
    requires Owned(s) && Is(s, a) && s.producers[a].Late?
    ensures Owned(DoLateNumber(s, a))
  {
    var i := At(s, s.producers[a].number);
    assert PlaceOk(s, i);
    ProducerFrame(s, DoLateNumber(s, a), a, i);
  }

  lemma DropSwapOwned(s: State, a: nat)
    requires Owned(s) && Is(s, a) && s.producers[a].Dropping?
    ensures Owned(DoDropSwap(s, a, Parent))
  {
    assert ProducerOk(s, a);
    ProducerFrame(s, DoDropSwap(s, a, Parent), a, At(s, s.producers[a].number));
  }

  /** A producer that changes phase without gaining or losing ownership. */
  lemma PhaseOwned(s: State, a: nat, ph: Phase)
    requires Owned(s) && Is(s, a)
    requires Owns(ph) == Owns(s.producers[a])
    requires Owns(ph) ==> ph.number == s.producers[a].number && ph.image == s.producers[a].image
    ensures Owned(WithPhase(s, a, ph))
  {
    var i := if Owns(ph) then At(s, ph.number) else 0;
    assert ProducerOk(s, a);
    assert PlaceOk(s, i);
    ProducerFrame(s, WithPhase(s, a, ph), a, i);
  }

  lemma ProducerOwned(s: State, a: nat, act: Act)
    requires Owned(s) && Is(s, a)
    ensures Owned(ProducerStep(s, a, act, Parent))
  {
    var ph := s.producers[a];
    match act
    case Load => if ph.Idle? { PhaseOwned(s, a, Loaded(s.prodSeq)); }
    case Probe => if ph.Loaded? { PhaseOwned(s, a, Probed(ph.number)); PhaseOwned(s, a, Idle); }
    case Acquire => if ph.Probed? { AcquireOwned(s, a); }
    case Publish => if ph.Won? { PublishOwned(s, a); }
    case SetNumber => if ph.Published? { SetNumberOwned(s, a); }
    case Poke(at, value) => if ph.Holding? { PokeOwned(s, a, at, value); }
    case CommitSwap => if ph.Holding? { CommitSwapOwned(s, a); }
    case LateNumber => if ph.Late? { LateNumberOwned(s, a); }
    case CommitWhole => if ph.Holding? { CommitSwapOwned(s, a); LateNumberOwned(DoCommitSwap(s, a, Parent), a); }
    case GiveUp => if ph.Holding? { PhaseOwned(s, a, Dropping(ph.number, ph.image)); }
    case DropSwap => if ph.Dropping? { DropSwapOwned(s, a); }
  }

  /** The consumer touches no slot but the Ready one it copied, and the Consumed one it recycles. */
  lemma ConsumerFrame(s: State, t: State, i: nat)
    requires Owned(s) && |t.slots| == |s.slots| > i && t.producers == s.producers && t.commits == s.commits
    requires forall j :: 0 <= j < |s.slots| && j != i ==> t.slots[j] == s.slots[j]
    requires !s.slots[i].state.Reserved? && !t.slots[i].state.Reserved? && PlaceOk(t, i)
    requires s.consumer.Recycling? ==> s.consumer.slot == i
    requires forall j :: 0 <= j < |s.slots| && j != i && s.slots[j].state.Ready? ==>
                Undelivered(t.delivered, s.slots[j].ticket)
    requires ConsumerOk(t) && DeliveriesOk(t.commits, t.delivered)
    ensures Owned(t)
  {
    forall b | 0 <= b < |t.producers| ensures ProducerOk(t, b) {
      assert ProducerOk(s, b);
    }
    forall j | 0 <= j < |t.slots| ensures PlaceOk(t, j) {
      assert PlaceOk(s, j);
    }
  }

  lemma TakeOwned(s: State)
    requires Owned(s) && CopyDone(s)
    ensures Owned(DoTake(s))
  {
    CopyEnds(s.consumer.buf, s.slots[At(s, s.consSeq)].bytes);
    var i := At(s, s.consSeq);
    var t := DoTake(s);
    assert PlaceOk(s, i);
    forall j | 0 <= j < |s.slots| && j != i &&
          s.slots[j].state.Ready? ensures Undelivered(t.delivered, s.slots[j].ticket) {
      assert PlaceOk(s, j);
    }
    ConsumerFrame(s, t, i);
  }

  lemma RecycleOwned(s: State)
    requires Owned(s) && s.consumer.Recycling?
    ensures Owned(DoRecycle(s))
  {
    forall j | 0 <= j < |s.slots| && s.slots[j].state.Ready? ensures Undelivered(s.delivered, s.slots[j].ticket) {
      assert PlaceOk(s, j);
    }
    ConsumerFrame(s, DoRecycle(s), s.consumer.slot);
  }

  /** A consumer step that changes nothing but its own phase. */
  lemma LookOwned(s: State, ph: ConsumerPhase)
    requires Owned(s) && !s.consumer.Recycling? && !ph.Recycling? && ConsumerOk(s.(consumer := ph))
    ensures Owned(s.(consumer := ph))
  {
    var t := s.(consumer := ph);
    forall b | 0 <= b < |t.producers| ensures ProducerOk(t, b) {
      assert ProducerOk(s, b);
    }
    forall j | 0 <= j < |t.slots| ensures PlaceOk(t, j) {
      assert PlaceOk(s, j);
    }
  }

  lemma ConsumerOwned(s: State, turn: Turn)
    requires Owned(s)
    ensures Owned(ConsumerStep(s, turn))
  {
    match turn
    case See => if s.consumer.Waiting? && s.slots[At(s, s.consSeq)].state.Ready? { LookOwned(s, SeenReady); }
    case Match => if s.consumer.SeenReady? { LookOwned(s, Copying([])); LookOwned(s, Waiting); }
    case Copy =>
      if s.consumer.Copying? {
        var bytes, buf := s.slots[At(s, s.consSeq)].bytes, s.consumer.buf;
        if |buf| < CopyLength(buf, |bytes|) {
          CopyGrows(buf, bytes);
          LookOwned(s, Copying(buf + [bytes[|buf|]]));
        }
      }
    case Take => if CopyDone(s) { TakeOwned(s); }
    case Recycle => if s.consumer.Recycling? { RecycleOwned(s); }
  }

  lemma InitialOwned(s: State)
    requires Initial(s)
    ensures Owned(s)
  {
    forall a | 0 <= a < |s.producers| ensures ProducerOk(s, a) {
      assert s.producers[a].Idle?;
    }
    forall i | 0 <= i < |s.slots| ensures PlaceOk(s, i) {
      assert s.slots[i].state.Empty?;
    }
  }

  lemma StepOwned(s: State, step: Step)
    requires Owned(s)
    ensures Owned(Next(s, step, Parent))
  {
    match step
    case Produce(a, act) => if a < |s.producers| { ProducerOwned(s, a, act); }
    case Consume(turn) => ConsumerOwned(s, turn);
  }

  lemma {:induction false} RunOwned(s: State, steps: seq<Step>)
    requires Owned(s)
    ensures Owned(Run(s, steps, Parent))
    decreases |steps|
  {
    if steps != [] {
      StepOwned(s, steps[0]);
      RunOwned(Next(s, steps[0], Parent), steps[1..]);
    }
  }

  // ---- What it means ----

  /** Producer `a` owns slot `i`. */
  predicate OwnsSlot(s: State, a: nat, i: nat)
    requires Is(s, a)
  {
    Owns(s.producers[a]) && At(s, s.producers[a].number) == i
  }

  /** A slot is Reserved exactly when some reservation owns it, and then exactly one does. */
  ghost predicate OneOwner(s: State, i: nat)
    requires i < |s.slots|
  {
    && (s.slots[i].state.Reserved? <==>
          exists a {:trigger OwnsSlot(s, a, i)} :: 0 <= a < |s.producers| && OwnsSlot(s, a, i))
    && (forall a, b {:trigger OwnsSlot(s, a, i), OwnsSlot(s, b, i)} ::
          0 <= a < |s.producers| && 0 <= b < |s.producers| && OwnsSlot(s, a, i) && OwnsSlot(s, b, i) ==> a == b)
  }

  lemma OwnedMeansOneOwner(s: State, i: nat)
    requires Owned(s) && i < |s.slots|
    ensures OneOwner(s, i)
  {
    assert PlaceOk(s, i);
    if s.slots[i].state.Reserved? {
      assert OwnsSlot(s, s.slots[i].owner, i);
    }
    forall a | 0 <= a < |s.producers| && OwnsSlot(s, a, i)
      ensures s.slots[i].state.Reserved? && s.slots[i].owner == a
    {
      assert ProducerOk(s, a);
    }
  }

  /** The slot of an owner holds exactly what the owner wrote over what it found. */
  ghost predicate Undisturbed(s: State, a: nat)
    requires Is(s, a)
  {
    Owns(s.producers[a]) ==> s.slots[At(s, s.producers[a].number)].bytes == s.producers[a].image
  }

  /**
   In every state any interleaving reaches: a slot is Reserved exactly when one reservation
   owns it, an owner's slot holds exactly the bytes it wrote, and every delivery is the header
   and as many bytes as it says of one commit, no commit being delivered twice.
   */
  lemma SlotsHaveOneOwner(s0: State, steps: seq<Step>) returns (s: State)
    requires Initial(s0)
    ensures s == Run(s0, steps, Parent)
    ensures forall i {:trigger OneOwner(s, i)} :: 0 <= i < |s.slots| ==> OneOwner(s, i)
    ensures forall a {:trigger Undisturbed(s, a)} :: 0 <= a < |s.producers| ==> Undisturbed(s, a)
    ensures DeliveriesOk(s.commits, s.delivered)
  {
    InitialOwned(s0);
    RunOwned(s0, steps);
    s := Run(s0, steps, Parent);
    forall i | 0 <= i < |s.slots| ensures OneOwner(s, i) {
      OwnedMeansOneOwner(s, i);
    }
    forall a | 0 <= a < |s.producers| ensures Undisturbed(s, a) {
      assert ProducerOk(s, a);
    }
  }
}
