/**
 Abandoned reservations: a number that has been dropped stops the consumer for good, unless a
 later compare-and-swap wins that very number again, which takes a stale one.
 */
module StepDrops {
  import opened StepModel
  import opened StepOwnership
  import opened StepNumbers

  /** The step is a compare-and-swap that succeeds with number `q`. */
  predicate Wins(s: State, step: Step, q: nat)
    requires |s.slots| > 0
  {
    && step.Produce? && step.act.Acquire? && step.a < |s.producers| && s.producers[step.a] == Probed(q)
    && s.slots[At(s, q)].state.Empty?
  }

  predicate NeverWon(s: State, steps: seq<Step>, q: nat)
    requires |s.slots| > 0
    decreases |steps|
  {
    steps == [] || (!Wins(s, steps[0], q) && NeverWon(Next(s, steps[0], Parent), steps[1..], q))
  }

  predicate HeldBy(s: State, a: nat, q: nat)
    requires Is(s, a)
  {
    Owns(s.producers[a]) && s.producers[a].number == q
  }

  /** Nobody has committed number `q`, and nobody holds a reservation with it. */
  ghost predicate Gone(s: State, q: nat)
    requires |s.slots| > 0
  {
    && q !in Numbers(s.commits)
    && forall a {:trigger HeldBy(s, a, q)} :: 0 <= a < |s.producers| ==> !HeldBy(s, a, q)
  }

  lemma CommitGone(s: State, a: nat, q: nat, t: State)
    requires Is(s, a) && Gone(s, q) && s.producers[a].Holding?
    requires t == DoCommitSwap(s, a, Parent) || t == DoCommitWhole(s, a, Parent)
    ensures Gone(t, q)
  {
    var ph := s.producers[a];
    assert !HeldBy(s, a, q);
    NumbersSnoc(s.commits, Committed(a, ph.number, At(s, ph.number), ph.image));
    forall b | 0 <= b < |t.producers| ensures !HeldBy(t, b, q) {
      assert !HeldBy(s, b, q);
    }
  }

  /** Only a compare-and-swap that wins the number brings it back. */
  lemma StepGone(s: State, step: Step, q: nat)
    requires |s.slots| > 0 && Gone(s, q) && !Wins(s, step, q)
    ensures Gone(Next(s, step, Parent), q)
  {
    var t := Next(s, step, Parent);
    if step.Produce? && step.a < |s.producers| && s.producers[step.a].Holding? &&
          (step.act.CommitSwap? || step.act.CommitWhole?) {
      CommitGone(s, step.a, q, t);
    } else {
      forall b | 0 <= b < |t.producers| ensures !HeldBy(t, b, q) {
        assert !HeldBy(s, b, q);
      }
    }
  }

  lemma {:induction false} RunGone(s: State, steps: seq<Step>, q: nat)
    requires |s.slots| > 0 && Gone(s, q) && NeverWon(s, steps, q)
    ensures Gone(Run(s, steps, Parent), q)
    decreases |steps|
  {
    if steps != [] {
      StepGone(s, steps[0], q);
      RunGone(Next(s, steps[0], Parent), steps[1..], q);
    }
  }

  /** No record of a reservation with number `q` or a later one has been delivered. */
  ghost predicate BlockedAt(s: State, q: nat) {
    && s.consSeq <= q
    && forall k {:trigger s.delivered[k]} :: 0 <= k < |s.delivered| ==>
         s.delivered[k].ticket < |s.commits| && s.commits[s.delivered[k].ticket].number < q
  }

  lemma GoneBlocks(s: State, q: nat)
    requires Shown(s) && Gone(s, q)
    ensures BlockedAt(s, q)
  {
    if q < s.consSeq {
      PassedCommitted(s, q);
    }
  }

  /**
   After any interleaving, stale or not, in a state where number `q` is neither committed nor
   held: unless some compare-and-swap wins `q` again, no record of a reservation with number `q`
   or a later one is ever delivered.
   */
  lemma UnwonNumberBlocks(s0: State, before: seq<Step>, after: seq<Step>, q: nat) returns (s: State, t: State)
    requires Initial(s0) && Gone(Run(s0, before, Parent), q) && NeverWon(Run(s0, before, Parent), after, q)
    ensures s == Run(s0, before, Parent) && t == Run(s, after, Parent) && BlockedAt(t, q)
  {
    InitialShown(s0);
    RunShown(s0, before);
    s := Run(s0, before, Parent);
    RunShown(s, after);
    RunGone(s, after, q);
    t := Run(s, after, Parent);
    GoneBlocks(t, q);
  }

  /** Dropping a number that nobody committed leaves it neither committed nor held. */
  lemma DropLeavesGone(s: State, a: nat)
    requires Owned(s) && Is(s, a) && s.producers[a].Dropping? && s.producers[a].number !in Numbers(s.commits)
    ensures Gone(DoDropSwap(s, a, Parent), s.producers[a].number)
  {
    var q, t := s.producers[a].number, DoDropSwap(s, a, Parent);
    forall b | 0 <= b < |t.producers| ensures !HeldBy(t, b, q) {
      if b != a && Owns(s.producers[b]) {
        OwnersDiffer(s, a, b);
      }
    }
  }

  // ---- Which stale compare-and-swaps matter ----

  /** A compare-and-swap that succeeds with an outdated number succeeds with one behind `q`. */
  predicate StaleAbove(s: State, step: Step, q: nat)
    requires |s.slots| > 0
  {
    CurrentStep(s, step) || s.producers[step.a].number > q
  }

  predicate StaleAboveRun(s: State, steps: seq<Step>, q: nat)
    requires |s.slots| > 0
    decreases |steps|
  {
    steps == [] || (StaleAbove(s, steps[0], q) && StaleAboveRun(Next(s, steps[0], Parent), steps[1..], q))
  }

  /** `prod_seq` is past `q`, and nobody is about to set it back to `q` or before. */
  ghost predicate Past(s: State, q: nat) {
    && q < s.prodSeq
    && forall a {:trigger s.producers[a]} :: 0 <= a < |s.producers| && s.producers[a].Won? ==> s.producers[a].number > q
  }

  lemma StepPast(s: State, step: Step, q: nat)
    requires |s.slots| > 0 && Past(s, q) && StaleAbove(s, step, q)
    ensures Past(Next(s, step, Parent), q) && !Wins(s, step, q)
  {
    if step.Produce? && step.a < |s.producers| {
      ProducerPast(s, step.a, step.act, q);
    }
  }

  lemma ProducerPast(s: State, a: nat, act: Act, q: nat)
    requires Is(s, a) && Past(s, q) && StaleAbove(s, Produce(a, act), q)
    ensures Past(ProducerStep(s, a, act, Parent), q)
  {
    var t := ProducerStep(s, a, act, Parent);
    assert t.prodSeq != s.prodSeq ==> s.producers[a].Won? && t.prodSeq == s.producers[a].number + 1;
    assert t.producers[a].Won? && !s.producers[a].Won? ==> t.producers[a].number == s.producers[a].number > q;
  }

  lemma {:induction false} RunPast(s: State, steps: seq<Step>, q: nat)
    requires |s.slots| > 0 && Past(s, q) && StaleAboveRun(s, steps, q)
    ensures NeverWon(s, steps, q)
    decreases |steps|
  {
    if steps != [] {
      StepPast(s, steps[0], q);
      RunPast(Next(s, steps[0], Parent), steps[1..], q);
    }
  }

  /**
   Once `prod_seq` is past a number that is neither committed nor held, only a stale
   compare-and-swap that wins a number up to it can let the consumer pass.
   */
  lemma PastNumberBlocks(s0: State, before: seq<Step>, after: seq<Step>, q: nat) returns (s: State, t: State)
    requires Initial(s0) && Gone(Run(s0, before, Parent), q) && Past(Run(s0, before, Parent), q)
    requires StaleAboveRun(Run(s0, before, Parent), after, q)
    ensures s == Run(s0, before, Parent) && t == Run(s, after, Parent) && BlockedAt(t, q)
  {
    RunPast(Run(s0, before, Parent), after, q);
    s, t := UnwonNumberBlocks(s0, before, after, q);
  }

  lemma DroppedPast(s: State, q: nat)
    requires Numbered(s) && q in s.dropped
    ensures Gone(s, q) && Past(s, q)
  {
    forall a | 0 <= a < |s.producers| ensures !HeldBy(s, a, q) && (s.producers[a].Won? ==> s.producers[a].number > q) {
      assert PhaseOk(s, a);
    }
  }

  /**
   Once a reservation is dropped uncommitted, in a run without a stale compare-and-swap up to
   then, no reservation with its number or a later one ever has its record delivered, however
   the run goes on, as long as no stale compare-and-swap wins a number up to the dropped one: the
   consumer never passes it, even though the slot is Empty again and may be reserved a lap later.
   */
  lemma AbandonedNumberBlocks(s0: State, before: seq<Step>, after: seq<Step>, q: nat) returns (s: State, t: State)
    requires Initial(s0) && CurrentRun(s0, before) && q in Run(s0, before, Parent).dropped
    requires StaleAboveRun(Run(s0, before, Parent), after, q)
    ensures s == Run(s0, before, Parent) && t == Run(s, after, Parent) && BlockedAt(t, q)
  {
    InitialNumbered(s0);
    RunNumbered(s0, before);
    DroppedPast(Run(s0, before, Parent), q);
    s, t := PastNumberBlocks(s0, before, after, q);
  }

  /** A run without stale compare-and-swaps has none that matters. */
  lemma {:induction false} CurrentIsAbove(s: State, steps: seq<Step>, q: nat)
    requires |s.slots| > 0 && CurrentRun(s, steps)
    ensures StaleAboveRun(s, steps, q)
    decreases |steps|
  {
    if steps != [] {
      CurrentIsAbove(Next(s, steps[0], Parent), steps[1..], q);
    }
  }
}
