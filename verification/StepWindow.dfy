/**
 Interleavings in which every reserving compare-and-swap used the current `prod_seq`, commits
 are single actions and nothing is abandoned: the slots are a window of the sequence numbers.
 */
module StepWindow {
  import opened Bytes
  import opened Sequences
  import opened SlotRing
  import opened StepModel
  import opened StepOwnership
  import opened StepNumbers

  /** Neither a commit in two actions nor an abandoned reservation, nor a stale compare-and-swap. */
  predicate OrderlyStep(s: State, step: Step)
    requires |s.slots| > 0
  {
    CurrentStep(s, step) && (step.Produce? ==> !step.act.CommitSwap? && !step.act.GiveUp?)
  }

  predicate OrderlyRun(s: State, steps: seq<Step>)
    requires |s.slots| > 0
    decreases |steps|
  {
    steps == [] || (OrderlyStep(s, steps[0]) && OrderlyRun(Next(s, steps[0], Parent), steps[1..]))
  }

  /** The oldest number whose slot is not free again. */
  function Low(s: State): int {
    if s.consumer.Recycling? then s.consSeq - 1 else s.consSeq
  }

  /** Number `n` is in its slot: with its holder, or committed under its own number. */
  ghost predicate Live(s: State, n: nat)
    requires |s.slots| > 0
  {
    var place := s.slots[At(s, n)];
    || (&& place.state.Reserved? && place.owner < |s.producers|
        && Owns(s.producers[place.owner]) && s.producers[place.owner].number == n)
    || (place.state.Ready? && place.number == n && place.ticket < |s.commits| && s.commits[place.ticket].number == n)
  }

  /** The slot of `n` is free, or its next holder has yet to publish. */
  ghost predicate Free(s: State, n: nat)
    requires |s.slots| > 0
  {
    var place := s.slots[At(s, n)];
    place.state.Empty?
    || (place.state.Reserved? && place.owner < |s.producers| && s.producers[place.owner].Won?)
  }

  ghost predicate Simple(s: State, a: nat)
    requires Is(s, a)
  {
    var ph := s.producers[a];
    !ph.Late? && !ph.Dropping? && (ph.Holding? ==> s.slots[At(s, ph.number)].number == ph.number)
  }

  /** Every number is committed once, and the k-th delivery is number k's commit. */
  ghost predicate Sequenced(commits: seq<Committed>, ds: seq<Delivery>) {
    && (forall j, k {:trigger commits[j], commits[k]} :: 0 <= j < k < |commits| ==>
          commits[j].number != commits[k].number)
    && InNumberOrder(commits, ds)
  }

  ghost predicate Windowed(s: State) {
    && Numbered(s)
    && 0 <= Low(s) && s.consSeq <= s.prodSeq <= Low(s) + |s.slots|
    && (s.consumer.Recycling? ==> s.consumer.slot == At(s, Low(s)))
    && (forall n {:trigger Live(s, n)} :: s.consSeq <= n < s.prodSeq ==> Live(s, n))
    && (forall n {:trigger Free(s, n)} :: s.prodSeq <= n < Low(s) + |s.slots| ==> Free(s, n))
    && (forall a {:trigger Simple(s, a)} :: 0 <= a < |s.producers| ==> Simple(s, a))
    && Sequenced(s.commits, s.delivered)
  }

  /** Different numbers of the window have different slots. */
  lemma Apart(s: State, m: nat, n: nat)
    requires |s.slots| > 0 && m != n && m < n + |s.slots| && n < m + |s.slots|
    ensures At(s, m) != At(s, n)
  {
    IndexDistinctEither(m, n, |s.slots|);
  }

  /** A producer that owns the slot of the next number finds the window not full. */
  lemma RoomForWon(s: State, i: nat)
    requires Windowed(s) && i == At(s, s.prodSeq)
    requires Free(s, s.prodSeq)
    ensures s.prodSeq < Low(s) + |s.slots|
  {
    assert PlaceOk(s, i);
    assert s.slots[i].state.Reserved? ==> PhaseOk(s, s.slots[i].owner);
    assert !s.consumer.Recycling? && s.consSeq < s.prodSeq ==> Live(s, s.consSeq);
    IndexNextLap(Low(s), |s.slots|);
  }

  /** The numbers stand as they did, but for what producer `a` did to the slot of `m`. */
  ghost predicate Narrow(s: State, t: State, a: nat, m: nat)
    requires |s.slots| > 0
  {
    && LocalTo(s, t, a, At(s, m)) && Low(s) <= m < Low(s) + |s.slots|
    && (Owns(s.producers[a]) ==> s.producers[a].number == m)
    && (Owns(t.producers[a]) ==> t.producers[a].number == m)
  }

  lemma LiveElsewhere(s: State, t: State, a: nat, m: nat, n: nat)
    requires Windowed(s) && Narrow(s, t, a, m) && s.consSeq <= n < s.prodSeq && n != m
    ensures Live(t, n)
  {
    assert Live(s, n);
    Apart(s, m, n);
  }

  lemma FreeElsewhere(s: State, t: State, a: nat, m: nat, n: nat)
    requires Windowed(s) && Narrow(s, t, a, m) && s.prodSeq <= n < Low(s) + |s.slots| && n != m
    ensures Free(t, n)
  {
    assert Free(s, n);
    Apart(s, m, n);
    var i := At(s, n);
    assert PlaceOk(s, i);
    assert s.slots[i].state.Reserved? ==> PhaseOk(s, s.slots[i].owner);
  }

  /** What a producer does to the slot of one number leaves the window standing. */
  lemma WindowFrame(s: State, t: State, a: nat, m: nat)
    requires Windowed(s) && Narrow(s, t, a, m) && Numbered(t) && t.prodSeq == s.prodSeq
    requires s.consSeq <= m < s.prodSeq ==> Live(t, m)
    requires s.prodSeq <= m ==> Free(t, m)
    requires t.slots[At(s, m)].number == s.slots[At(s, m)].number || Owns(s.producers[a])
    requires Simple(t, a) && Sequenced(t.commits, t.delivered)
    ensures Windowed(t)
  {
    forall n | t.consSeq <= n < t.prodSeq ensures Live(t, n) {
      if n != m {
        LiveElsewhere(s, t, a, m, n);
      }
    }
    forall n | t.prodSeq <= n < Low(t) + |t.slots| ensures Free(t, n) {
      if n != m {
        FreeElsewhere(s, t, a, m, n);
      }
    }
    OthersSimple(s, t, a, m);
  }

  lemma OthersSimple(s: State, t: State, a: nat, m: nat)
    requires Windowed(s) && Narrow(s, t, a, m) && Simple(t, a)
    requires t.slots[At(s, m)].number == s.slots[At(s, m)].number || Owns(s.producers[a])
    ensures forall b {:trigger Simple(t, b)} :: 0 <= b < |t.producers| ==> Simple(t, b)
  {
    forall b | 0 <= b < |t.producers| ensures Simple(t, b) {
      assert Simple(s, b) && ProducerOk(s, b) && ProducerOk(s, a);
    }
  }

  /** A reservation's number is in the window. */
  lemma InWindow(s: State, a: nat)
    requires Windowed(s) && Is(s, a) && (s.producers[a].Published? || s.producers[a].Holding?)
    ensures s.consSeq <= s.producers[a].number < s.prodSeq
  {
    assert PhaseOk(s, a);
    if s.producers[a].number < s.consSeq {
      PassedCommitted(s, s.producers[a].number);
    }
  }

  lemma PhaseWindow(s: State, a: nat, ph: Phase)
    requires Windowed(s) && Is(s, a) && !Owns(s.producers[a]) && !Owns(ph) && !ph.Late?
    requires Numbered(WithPhase(s, a, ph))
    ensures Windowed(WithPhase(s, a, ph))
  {
    var t := WithPhase(s, a, ph);
    forall n | t.consSeq <= n < t.prodSeq ensures Live(t, n) {
      assert Live(s, n);
    }
    forall n | t.prodSeq <= n < Low(t) + |t.slots| ensures Free(t, n) {
      assert Free(s, n);
    }
    forall b | 0 <= b < |t.producers| ensures Simple(t, b) {
      assert Simple(s, b);
    }
  }

  lemma AcquireWindow(s: State, a: nat)
    requires Windowed(s) && Is(s, a) && s.producers[a].Probed? && s.producers[a].number == s.prodSeq
    requires s.slots[At(s, s.prodSeq)].state.Empty? && Numbered(DoAcquire(s, a))
    ensures Windowed(DoAcquire(s, a))
  {
    RoomForWon(s, At(s, s.prodSeq));
    WindowFrame(s, DoAcquire(s, a), a, s.prodSeq);
  }

  lemma PublishWindow(s: State, a: nat)
    requires Windowed(s) && Is(s, a) && s.producers[a].Won? && Numbered(DoPublish(s, a))
    ensures Windowed(DoPublish(s, a)) && s.producers[a].number == s.prodSeq < s.consSeq + |s.slots|
  {
    var t, m := DoPublish(s, a), s.prodSeq;
    assert PhaseOk(s, a) && ProducerOk(s, a);
    RoomForWon(s, At(s, m));
    forall n | t.consSeq <= n < t.prodSeq ensures Live(t, n) {
      if n != m {
        LiveElsewhere(s, t, a, m, n);
      }
    }
    forall n | t.prodSeq <= n < Low(t) + |t.slots| ensures Free(t, n) {
      FreeElsewhere(s, t, a, m, n);
    }
    OthersSimple(s, t, a, m);
  }

  lemma SetNumberWindow(s: State, a: nat)
    requires Windowed(s) && Is(s, a) && s.producers[a].Published? && Numbered(DoSetNumber(s, a))
    ensures Windowed(DoSetNumber(s, a))
  {
    InWindow(s, a);
    assert ProducerOk(s, a);
    WindowFrame(s, DoSetNumber(s, a), a, s.producers[a].number);
  }

  lemma PokeWindow(s: State, a: nat, at: nat, value: byte)
    requires Windowed(s) && Is(s, a) && s.producers[a].Holding? && Numbered(DoPoke(s, a, at, value, Parent))
    ensures Windowed(DoPoke(s, a, at, value, Parent))
  {
    InWindow(s, a);
    assert ProducerOk(s, a) && Simple(s, a);
    WindowFrame(s, DoPoke(s, a, at, value, Parent), a, s.producers[a].number);
  }

  /** A commit in one action: what it leaves in the slot and the history. */
  lemma CommitEffect(s: State, a: nat) returns (t: State, i: nat)
    requires Windowed(s) && Is(s, a) && s.producers[a].Holding?
    ensures t == DoCommitWhole(s, a, Parent) && i == At(s, s.producers[a].number) && s.slots[i].state.Reserved?
    ensures t == WithPlace(WithPhase(s, a, Idle), i, s.slots[i].(state := Ready, ticket := |s.commits|))
                 .(commits := s.commits + [Committed(a, s.producers[a].number, i, s.producers[a].image)])
  {
    t, i := DoCommitWhole(s, a, Parent), At(s, s.producers[a].number);
    assert ProducerOk(s, a) && Simple(s, a);
    assert t.producers == s.producers[a := Idle];
    assert t.slots == s.slots[i := s.slots[i].(state := Ready, ticket := |s.commits|)];
  }

  lemma CommitWindow(s: State, a: nat)
    requires Windowed(s) && Is(s, a) && s.producers[a].Holding? && Numbered(DoCommitWhole(s, a, Parent))
    ensures Windowed(DoCommitWhole(s, a, Parent))
  {
    InWindow(s, a);
    var t, i := CommitEffect(s, a);
    assert PhaseOk(s, a) && Simple(s, a);
    SequencedCommit(s.commits, s.delivered, t.commits[|s.commits|]);
    WindowFrame(s, t, a, s.producers[a].number);
  }

  lemma SequencedCommit(commits: seq<Committed>, ds: seq<Delivery>, c: Committed)
    requires Sequenced(commits, ds) && c.number !in Numbers(commits)
    ensures Sequenced(commits + [c], ds)
  {
    forall j | 0 <= j < |commits| ensures commits[j].number != c.number {
      assert commits[j].number in Numbers(commits);
    }
  }

  lemma ProducerWindow(s: State, a: nat, act: Act)
    requires Windowed(s) && Is(s, a) && OrderlyStep(s, Produce(a, act))
    ensures Windowed(ProducerStep(s, a, act, Parent))
  {
    var ph := s.producers[a];
    ProducerNumbered(s, a, act);
    assert Simple(s, a);
    match act
    case Load => if ph.Idle? { PhaseWindow(s, a, Loaded(s.prodSeq)); }
    case Probe => if ph.Loaded? { PhaseWindow(s, a, DoProbe(s, a).producers[a]); }
    case Acquire =>
      if ph.Probed? {
        if s.slots[At(s, ph.number)].state.Empty? {
          AcquireWindow(s, a);
        } else {
          PhaseWindow(s, a, Idle);
        }
      }
    case Publish => if ph.Won? { PublishWindow(s, a); }
    case SetNumber => if ph.Published? { SetNumberWindow(s, a); }
    case Poke(at, value) => if ph.Holding? { PokeWindow(s, a, at, value); }
    case LateNumber =>
    case CommitWhole => if ph.Holding? { CommitWindow(s, a); }
    case DropSwap =>
  }

  // ---- The consumer ----

  /** A consumer that has seen a Ready slot stands inside the window, on its own number's commit. */
  lemma ReadyHead(s: State)
    requires Windowed(s) && (s.consumer.SeenReady? || s.consumer.Copying?)
    ensures s.consSeq < s.prodSeq && s.slots[At(s, s.consSeq)].number == s.consSeq
    ensures TicketOk(s, At(s, s.consSeq), s.slots[At(s, s.consSeq)])
    ensures s.commits[s.slots[At(s, s.consSeq)].ticket].number == s.consSeq
  {
    assert PlaceOk(s, At(s, s.consSeq));
    assert s.consSeq == s.prodSeq ==> Free(s, s.consSeq);
    assert Live(s, s.consSeq);
  }

  lemma LookWindow(s: State, ph: ConsumerPhase)
    requires Windowed(s) && !s.consumer.Recycling? && !ph.Recycling? && Numbered(s.(consumer := ph))
    ensures Windowed(s.(consumer := ph))
  {
    var t := s.(consumer := ph);
    forall n | t.consSeq <= n < t.prodSeq ensures Live(t, n) {
      assert Live(s, n);
    }
    forall n | t.prodSeq <= n < Low(t) + |t.slots| ensures Free(t, n) {
      assert Free(s, n);
    }
    forall b | 0 <= b < |t.producers| ensures Simple(t, b) {
      assert Simple(s, b);
    }
  }

  /** The slot of a number that has been taken changes; producers and other slots do not. */
  lemma ConsumerSimple(s: State, t: State, i: nat)
    requires Windowed(s) && t.producers == s.producers && |t.slots| == |s.slots| > i
    requires forall j :: 0 <= j < |s.slots| && j != i ==> t.slots[j] == s.slots[j]
    requires t.slots[i].number == s.slots[i].number
    ensures forall b {:trigger Simple(t, b)} :: 0 <= b < |t.producers| ==> Simple(t, b)
  {
    forall b | 0 <= b < |t.producers| ensures Simple(t, b) {
      assert Simple(s, b);
    }
  }

  lemma TakeWindow(s: State)
    requires Windowed(s) && CopyDone(s) && Numbered(DoTake(s))
    ensures Windowed(DoTake(s))
  {
    var t, c := DoTake(s), s.consSeq;
    ReadyHead(s);
    forall n | t.consSeq <= n < t.prodSeq ensures Live(t, n) {
      assert Live(s, n);
      Apart(s, c, n);
    }
    forall n | t.prodSeq <= n < Low(t) + |t.slots| ensures Free(t, n) {
      assert Free(s, n);
      Apart(s, c, n);
    }
    ConsumerSimple(s, t, At(s, c));
  }

  lemma RecycleWindow(s: State)
    requires Windowed(s) && s.consumer.Recycling? && Numbered(DoRecycle(s))
    ensures Windowed(DoRecycle(s))
  {
    var t, m: nat := DoRecycle(s), Low(s);
    forall n | t.consSeq <= n < t.prodSeq ensures Live(t, n) {
      assert Live(s, n);
      Apart(s, m, n);
    }
    forall n | t.prodSeq <= n < Low(t) + |t.slots| ensures Free(t, n) {
      if n == m + |s.slots| {
        IndexNextLap(m, |s.slots|);
      } else {
        assert Free(s, n);
        Apart(s, m, n);
      }
    }
    ConsumerSimple(s, t, At(s, m));
  }

  lemma ConsumerWindow(s: State, turn: Turn)
    requires Windowed(s)
    ensures Windowed(ConsumerStep(s, turn))
  {
    ConsumerNumbered(s, turn);
    var t := ConsumerStep(s, turn);
    match turn
    case See => if s.consumer.Waiting? { LookWindow(s, t.consumer); }
    case Match => if s.consumer.SeenReady? { LookWindow(s, t.consumer); }
    case Copy => if s.consumer.Copying? { LookWindow(s, t.consumer); }
    case Take => if CopyDone(s) { TakeWindow(s); }
    case Recycle => if s.consumer.Recycling? { RecycleWindow(s); }
  }

  lemma InitialWindow(s: State)
    requires Initial(s)
    ensures Windowed(s)
  {
    InitialNumbered(s);
    forall n | s.prodSeq <= n < Low(s) + |s.slots| ensures Free(s, n) {
      assert s.slots[At(s, n)].state.Empty?;
    }
    forall b | 0 <= b < |s.producers| ensures Simple(s, b) {
      assert s.producers[b].Idle?;
    }
  }
}
