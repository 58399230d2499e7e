/**
 The code as written: `reserve` gives the reservation a clone of the buffer, whose slots are all
 Empty, in place of a reference to the parent. In every interleaving the parent's slots only
 ever go from Empty to Reserved, so nothing is delivered and reservations run out.
 */
module StepClone {
  import opened StepModel

  ghost predicate Stuck(place: Place) {
    place.state.Empty? || place.state.Reserved?
  }

  ghost predicate Inert(s: State) {
    && |s.slots| > 0
    && (forall i {:trigger s.slots[i]} :: 0 <= i < |s.slots| ==> Stuck(s.slots[i]))
    && s.consumer.Waiting? && s.consSeq == 0
    && s.commits == [] && s.delivered == [] && s.dropped == []
    && (forall a {:trigger s.producers[a]} :: 0 <= a < |s.producers| ==> !s.producers[a].Late?)
  }

  /** The parent's Reserved slots. */
  function Taken(s: State): set<nat> {
    set i: nat | i < |s.slots| && s.slots[i].state.Reserved?
  }

  /** The step is a reserving compare-and-swap that succeeds. */
  predicate Acquires(s: State, step: Step)
    requires |s.slots| > 0
  {
    step.Produce? && step.act.Acquire? && step.a < |s.producers| && s.producers[step.a].Probed?
    && s.slots[At(s, s.producers[step.a].number)].state.Empty?
  }

  lemma StepInert(s: State, step: Step)
    requires Inert(s)
    ensures Inert(Next(s, step, Clone))
    ensures Taken(Next(s, step, Clone)) ==
          Taken(s) + if Acquires(s, step) then {At(s, s.producers[step.a].number)} else {}
  {
    var t := Next(s, step, Clone);
    forall i | 0 <= i < |s.slots| ensures Stuck(t.slots[i]) {
      assert Stuck(s.slots[i]);
    }
    assert Stuck(s.slots[At(s, s.consSeq)]);
    if !Acquires(s, step) {
      forall i | 0 <= i < |s.slots| ensures t.slots[i].state == s.slots[i].state {}
    }
  }

  /** How many reservations succeed in a run. */
  function Acquisitions(s: State, steps: seq<Step>): nat
    requires |s.slots| > 0
    decreases |steps|
  {
    if steps == [] then 0 else
      (if Acquires(s, steps[0]) then 1 else 0) + Acquisitions(Next(s, steps[0], Clone), steps[1..])
  }

  lemma {:induction false} RunInert(s: State, steps: seq<Step>)
    requires Inert(s)
    ensures Inert(Run(s, steps, Clone))
    ensures |Taken(Run(s, steps, Clone))| == |Taken(s)| + Acquisitions(s, steps)
    decreases |steps|
  {
    if steps != [] {
      StepInert(s, steps[0]);
      RunInert(Next(s, steps[0], Clone), steps[1..]);
    }
  }

  lemma {:induction false} BelowBound(xs: set<nat>, n: nat)
    requires forall x :: x in xs ==> x < n
    ensures |xs| <= n
    decreases n
  {
    if n == 0 {
      assert xs == {};
    } else {
      BelowBound(xs - {n - 1}, n - 1);
    }
  }

  /**
   As the code is written, in every run from a new buffer the parent's slots are only Empty or
   Reserved, `read` delivers nothing, and at most `capacity` reservations ever succeed.
   */
  lemma AsWrittenNothingDelivered(s0: State, steps: seq<Step>) returns (s: State)
    requires Initial(s0)
    ensures s == Run(s0, steps, Clone)
    ensures forall i :: 0 <= i < |s.slots| ==> s.slots[i].state.Empty? || s.slots[i].state.Reserved?
    ensures s.delivered == [] && s.commits == [] && s.consSeq == 0
    ensures Acquisitions(s0, steps) <= |s0.slots|
  {
    RunInert(s0, steps);
    s := Run(s0, steps, Clone);
    assert forall i :: 0 <= i < |s.slots| ==> Stuck(s.slots[i]);
    BelowBound(Taken(s), |s.slots|);
    assert Taken(s0) == {};
  }
}
