/**
 Sequence numbers. In every run the records are delivered in the order of their numbers; in runs whose
 reserving compare-and-swaps all used the current `prod_seq`, each number is reserved once.
 */
module StepNumbers {
  import opened StepModel
  import opened StepOwnership

  /** The numbers of the reservations that committed. */
  function Numbers(commits: seq<Committed>): set<nat> {
    set k: nat | k < |commits| :: commits[k].number
  }

  lemma NumbersSnoc(commits: seq<Committed>, c: Committed)
    ensures Numbers(commits + [c]) == Numbers(commits) + {c.number}
  {
    var more := commits + [c];
    assert more[|commits|] == c;
    forall n ensures n in Numbers(more) <==> n in Numbers(commits) || n == c.number {
      if n in Numbers(commits) {
        var k: nat :| k < |commits| && commits[k].number == n;
        assert more[k] == commits[k];
      }
    }
  }

  // ---- Every run ----

  /** The slot shows number `q`, or one the consumer has passed, stored late. */
  predicate Shows(s: State, i: nat, q: nat)
    requires i < |s.slots|
  {
    s.slots[i].number == q || s.slots[i].number < s.consSeq
  }

  /** Slot `i` is Ready with a commit of number `q`. */
  predicate ReadyAs(s: State, i: nat, q: nat)
    requires i < |s.slots|
  {
    s.slots[i].state.Ready? && s.slots[i].ticket < |s.commits| && s.commits[s.slots[i].ticket].number == q
  }

  /** A number still to be stored late has been passed, or is that of the commit in its slot. */
  ghost predicate ShownOk(s: State, a: nat)
    requires Is(s, a)
  {
    match s.producers[a]
    case Holding(q, _) => Shows(s, At(s, q), q)
    case Late(q) => q < s.consSeq || ReadyAs(s, At(s, q), q)
    case _ => true
  }

  ghost predicate ReadyOk(s: State, i: nat)
    requires i < |s.slots|
  {
    s.slots[i].state.Ready? ==> s.slots[i].ticket < |s.commits| && Shows(s, i, s.commits[s.slots[i].ticket].number)
  }

  /** The `k`-th delivery is of a commit of number `k`. */
  ghost predicate InNumberOrder(commits: seq<Committed>, ds: seq<Delivery>) {
    forall k {:trigger ds[k]} :: 0 <= k < |ds| ==> ds[k].ticket < |commits| && commits[ds[k].ticket].number == k
  }

  /** The consumer takes commits of one number after the other. */
  ghost predicate TakenOk(s: State)
    requires |s.slots| > 0
  {
    && (s.consumer.Copying? ==> ReadyAs(s, At(s, s.consSeq), s.consSeq))
    && |s.delivered| == s.consSeq && InNumberOrder(s.commits, s.delivered)
  }

  ghost predicate Shown(s: State) {
    && Owned(s)
    && (forall a {:trigger ShownOk(s, a)} :: 0 <= a < |s.producers| ==> ShownOk(s, a))
    && (forall i {:trigger ReadyOk(s, i)} :: 0 <= i < |s.slots| ==> ReadyOk(s, i))
    && TakenOk(s)
  }

  /** What the consumer has passed was committed. */
  lemma PassedCommitted(s: State, q: nat)
    requires Shown(s) && q < s.consSeq
    ensures q in Numbers(s.commits)
  {
    assert s.commits[s.delivered[q].ticket].number == q;
  }

  /** A producer stores a number only into its own slot, or one that has been passed, or its commit's. */
  lemma ShownFrame(s: State, t: State, a: nat, i: nat)
    requires Shown(s) && Owned(t) && LocalTo(s, t, a, i) && t.commits == s.commits
    requires ShownOk(t, a) && ReadyOk(t, i)
    requires s.slots[i].state.Ready? ==> t.slots[i].state.Ready? && t.slots[i].ticket == s.slots[i].ticket
    requires t.slots[i].number == s.slots[i].number || t.slots[i].number < s.consSeq || t.slots[i].state.Ready?
             || (Owns(s.producers[a]) && At(s, s.producers[a].number) == i)
    ensures Shown(t)
  {
    forall b | 0 <= b < |t.producers| ensures ShownOk(t, b) {
      assert ShownOk(s, b) && ProducerOk(s, b) && ProducerOk(s, a) && ProducerOk(t, b);
    }
    forall j | 0 <= j < |t.slots| ensures ReadyOk(t, j) {
      assert ReadyOk(s, j);
    }
  }

  lemma CommitShown(s: State, a: nat)
    requires Shown(s) && Is(s, a) && s.producers[a].Holding?
    ensures Shown(DoCommitSwap(s, a, Parent)) && DoCommitSwap(s, a, Parent).producers[a].Late?
    ensures Numbers(DoCommitSwap(s, a, Parent).commits) == Numbers(s.commits) + {s.producers[a].number}
  {
    CommitSwapOwned(s, a);
    var t := DoCommitSwap(s, a, Parent);
    var ph := s.producers[a];
    assert ShownOk(s, a) && ProducerOk(s, a);
    NumbersSnoc(s.commits, Committed(a, ph.number, At(s, ph.number), ph.image));
    forall b | 0 <= b < |t.producers| ensures ShownOk(t, b) {
      assert ShownOk(s, b);
    }
    forall j | 0 <= j < |t.slots| ensures ReadyOk(t, j) {
      assert ReadyOk(s, j);
    }
  }

  lemma LateShown(s: State, a: nat)
    requires Shown(s) && Is(s, a) && s.producers[a].Late?
    ensures Shown(DoLateNumber(s, a))
  {
    LateNumberOwned(s, a);
    var i := At(s, s.producers[a].number);
    assert ShownOk(s, a) && ReadyOk(s, i);
    ShownFrame(s, DoLateNumber(s, a), a, i);
  }

  lemma ProducerShown(s: State, a: nat, act: Act)
    requires Shown(s) && Is(s, a)
    ensures Shown(ProducerStep(s, a, act, Parent))
  {
    var ph := s.producers[a];
    ProducerOwned(s, a, act);
    if act.CommitSwap? && ph.Holding? {
      CommitShown(s, a);
    } else if act.CommitWhole? && ph.Holding? {
      CommitShown(s, a);
      LateShown(DoCommitSwap(s, a, Parent), a);
    } else if act.LateNumber? && ph.Late? {
      LateShown(s, a);
    } else {
      OtherActShown(s, a, act, ProducerStep(s, a, act, Parent));
    }
  }

  /** An action that neither commits nor stores a number late. */
  lemma OtherActShown(s: State, a: nat, act: Act, t: State)
    requires Shown(s) && Is(s, a) && Owned(t) && t == ProducerStep(s, a, act, Parent)
    requires (!act.CommitSwap? && !act.CommitWhole? && !act.LateNumber?) || t == s
    ensures Shown(t)
  {
    var ph := s.producers[a];
    var i := if ph.Idle? then 0 else At(s, ph.number);
    assert ShownOk(s, a) && ProducerOk(s, a) && ReadyOk(s, i);
    ShownFrame(s, t, a, i);
  }

  lemma ConsumerShown(s: State, turn: Turn)
    requires Shown(s)
    ensures Shown(ConsumerStep(s, turn))
  {
    ConsumerOwned(s, turn);
    var t := ConsumerStep(s, turn);
    assert ReadyOk(s, At(s, s.consSeq));
    forall b | 0 <= b < |t.producers| ensures ShownOk(t, b) {
      assert ShownOk(s, b);
    }
    forall j | 0 <= j < |t.slots| ensures ReadyOk(t, j) {
      assert ReadyOk(s, j);
    }
  }

  lemma StepShown(s: State, step: Step)
    requires Shown(s)
    ensures Shown(Next(s, step, Parent))
  {
    match step
    case Produce(a, act) => if a < |s.producers| { ProducerShown(s, a, act); }
    case Consume(turn) => ConsumerShown(s, turn);
  }

  lemma InitialShown(s: State)
    requires Initial(s)
    ensures Shown(s)
  {
    InitialOwned(s);
    forall a | 0 <= a < |s.producers| ensures ShownOk(s, a) {
      assert s.producers[a].Idle?;
    }
    forall i | 0 <= i < |s.slots| ensures ReadyOk(s, i) {
      assert s.slots[i].state.Empty?;
    }
  }

  lemma {:induction false} RunShown(s: State, steps: seq<Step>)
    requires Shown(s)
    ensures Shown(Run(s, steps, Parent))
    decreases |steps|
  {
    if steps != [] {
      StepShown(s, steps[0]);
      RunShown(Next(s, steps[0], Parent), steps[1..]);
    }
  }

  /**
   In every interleaving, stale loads and late stores included, the k-th delivery is of a
   reservation with number k, so the consumer has passed a number, dropped or not, only if a
   reservation with that number committed and its record was delivered.
   */
  lemma OnlyCommittedNumbersPassed(s0: State, steps: seq<Step>) returns (s: State)
    requires Initial(s0)
    ensures s == Run(s0, steps, Parent) && |s.delivered| == s.consSeq
    ensures forall k {:trigger s.delivered[k]} :: 0 <= k < |s.delivered| ==>
              s.delivered[k].ticket < |s.commits| && s.commits[s.delivered[k].ticket].number == k
  {
    InitialShown(s0);
    RunShown(s0, steps);
    s := Run(s0, steps, Parent);
  }

  // ---- Runs without a stale compare-and-swap ----

  /** The step is not a compare-and-swap that succeeds with an outdated number. */
  predicate CurrentStep(s: State, step: Step)
    requires |s.slots| > 0
  {
    step.Produce? && step.act.Acquire? && step.a < |s.producers| && s.producers[step.a].Probed?
      && s.slots[At(s, s.producers[step.a].number)].state.Empty?
    ==> s.producers[step.a].number == s.prodSeq
  }

  predicate CurrentRun(s: State, steps: seq<Step>)
    requires |s.slots| > 0
    decreases |steps|
  {
    steps == [] || (CurrentStep(s, steps[0]) && CurrentRun(Next(s, steps[0], Parent), steps[1..]))
  }

  /** A number in use is below `prod_seq` and neither committed nor dropped. */
  predicate Pending(s: State, q: nat) {
    q < s.prodSeq && q !in Numbers(s.commits) && q !in s.dropped
  }

  ghost predicate PhaseOk(s: State, a: nat)
    requires Is(s, a)
  {
    var ph := s.producers[a];
    (ph.Won? ==> ph.number == s.prodSeq) && (ph.Published? || ph.Holding? || ph.Dropping? ==> Pending(s, ph.number))
  }

  ghost predicate HistoryOk(s: State) {
    && (forall q :: q in Numbers(s.commits) ==> q < s.prodSeq)
    && (forall q :: q in s.dropped ==> q < s.prodSeq && q !in Numbers(s.commits))
  }

  ghost predicate Numbered(s: State) {
    && Shown(s)
    && (forall a {:trigger PhaseOk(s, a)} :: 0 <= a < |s.producers| ==> PhaseOk(s, a))
    && HistoryOk(s)
  }

  /** Two owners never share a number, as they would share its slot. */
  lemma OwnersDiffer(s: State, a: nat, b: nat)
    requires Owned(s) && Is(s, a) && Is(s, b) && a != b && Owns(s.producers[a]) && Owns(s.producers[b])
    ensures s.producers[a].number != s.producers[b].number
  {
    assert ProducerOk(s, a) && ProducerOk(s, b);
  }

  /** Moving on, committing or dropping uses up the producer's own number and no other. */
  lemma NumbersFrame(s: State, t: State, a: nat)
    requires Numbered(s) && Shown(t) && Is(s, a) && |t.producers| == |s.producers|
    requires forall b :: 0 <= b < |s.producers| && b != a ==> t.producers[b] == s.producers[b]
    requires PhaseOk(t, a) && HistoryOk(t) && t.prodSeq >= s.prodSeq
    requires forall q :: q in Numbers(t.commits) && q !in Numbers(s.commits) ==>
                Owns(s.producers[a]) && q == s.producers[a].number
    requires forall q :: q in t.dropped && q !in s.dropped ==> Owns(s.producers[a]) && q == s.producers[a].number
    requires t.prodSeq > s.prodSeq ==> s.producers[a].Won?
    ensures Numbered(t)
  {
    assert PhaseOk(s, a);
    forall b | 0 <= b < |t.producers| ensures PhaseOk(t, b) {
      assert PhaseOk(s, b);
      if b != a && Owns(s.producers[b]) && Owns(s.producers[a]) {
        OwnersDiffer(s, a, b);
      }
    }
  }

  lemma CommitNumbered(s: State, a: nat, t: State)
    requires Numbered(s) && Is(s, a) && s.producers[a].Holding? && Shown(t)
    requires t == DoCommitSwap(s, a, Parent) || t == DoCommitWhole(s, a, Parent)
    ensures Numbered(t)
  {
    assert PhaseOk(s, a);
    CommitShown(s, a);
    NumbersFrame(s, t, a);
  }

  lemma ProducerNumbered(s: State, a: nat, act: Act)
    requires Numbered(s) && Is(s, a) && CurrentStep(s, Produce(a, act))
    ensures Numbered(ProducerStep(s, a, act, Parent))
  {
    ProducerShown(s, a, act);
    assert PhaseOk(s, a);
    var t := ProducerStep(s, a, act, Parent);
    if (act.CommitSwap? || act.CommitWhole?) && s.producers[a].Holding? {
      CommitNumbered(s, a, t);
    } else {
      NumbersFrame(s, t, a);
    }
  }

  lemma ConsumerNumbered(s: State, turn: Turn)
    requires Numbered(s)
    ensures Numbered(ConsumerStep(s, turn))
  {
    ConsumerShown(s, turn);
    var t := ConsumerStep(s, turn);
    forall b | 0 <= b < |t.producers| ensures PhaseOk(t, b) {
      assert PhaseOk(s, b);
    }
  }

  lemma InitialNumbered(s: State)
    requires Initial(s)
    ensures Numbered(s)
  {
    InitialShown(s);
    forall a | 0 <= a < |s.producers| ensures PhaseOk(s, a) {
      assert s.producers[a].Idle?;
    }
  }

  lemma StepNumbered(s: State, step: Step)
    requires Numbered(s) && CurrentStep(s, step)
    ensures Numbered(Next(s, step, Parent))
  {
    match step
    case Produce(a, act) => if a < |s.producers| { ProducerNumbered(s, a, act); }
    case Consume(turn) => ConsumerNumbered(s, turn);
  }

  lemma {:induction false} RunNumbered(s: State, steps: seq<Step>)
    requires Numbered(s) && CurrentRun(s, steps)
    ensures Numbered(Run(s, steps, Parent))
    decreases |steps|
  {
    if steps != [] {
      StepNumbered(s, steps[0]);
      RunNumbered(Next(s, steps[0], Parent), steps[1..]);
    }
  }

  /**
   At most one producer is ever between its compare-and-swap and its store of `prod_seq`, which it
   moves on by one.
  */
  lemma OnePublisher(s0: State, steps: seq<Step>, a: nat) returns (s: State)
    requires Initial(s0) && CurrentRun(s0, steps)
    requires Is(Run(s0, steps, Parent), a) && Run(s0, steps, Parent).producers[a].Won?
    ensures s == Run(s0, steps, Parent) && s.producers[a].number == s.prodSeq
    ensures forall b {:trigger s.producers[b]} :: 0 <= b < |s.producers| && s.producers[b].Won? ==> b == a
  {
    InitialNumbered(s0);
    RunNumbered(s0, steps);
    s := Run(s0, steps, Parent);
    assert PhaseOk(s, a);
    forall b | 0 <= b < |s.producers| && s.producers[b].Won? ensures b == a {
      assert PhaseOk(s, b);
      if b != a {
        OwnersDiffer(s, a, b);
      }
    }
  }
}
