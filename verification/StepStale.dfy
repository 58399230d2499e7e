/**
 What a stale load of `prod_seq` can do, on the smallest ring: a producer that loaded number 0
 and saw its slot Empty reserves it again after another producer has dropped number 0, so the
 consumer passes a dropped number and delivers a later one.
 */
module StepStale {
  import opened SlotRing
  import opened StepModel
  import opened StepNumbers

  lemma {:induction false} RunSnoc(s: State, steps: seq<Step>, step: Step)
    requires |s.slots| > 0
    ensures Run(s, steps + [step], Parent) == Next(Run(s, steps, Parent), step, Parent)
    decreases |steps|
  {
    if steps == [] {
      assert [step][1..] == [] && steps + [step] == [step];
      assert Run(Next(s, step, Parent), [], Parent) == Next(s, step, Parent);
    } else {
      assert (steps + [step])[0] == steps[0] && (steps + [step])[1..] == steps[1..] + [step];
      RunSnoc(Next(s, steps[0], Parent), steps[1..], step);
    }
  }

  /** One more step of a run. */
  lemma Extend(s0: State, steps: seq<Step>, s: State, step: Step) returns (steps': seq<Step>, t: State)
    requires |s0.slots| > 0 && s == Run(s0, steps, Parent)
    ensures t == Next(s, step, Parent) && t == Run(s0, steps', Parent)
  {
    RunSnoc(s0, steps, step);
    steps', t := steps + [step], Next(s, step, Parent);
  }

  /** A whole reservation by producer `a` of number `q` that finds the only slot Empty, up to holding it. */
  lemma Reserves(s0: State, steps: seq<Step>, s: State, a: nat, q: nat) returns (steps': seq<Step>, t: State)
    requires |s0.slots| == 1 && s == Run(s0, steps, Parent) && a < |s.producers|
    requires s.producers[a] == Probed(q) && At(s, q) == 0 && s.slots[0].state.Empty?
    ensures t == Run(s0, steps', Parent)
    ensures t == s.(slots := [s.slots[0].(state := Reserved, owner := a, number := q)], prodSeq := q + 1,
                    producers := s.producers[a := Holding(q, s.slots[0].bytes)])
  {
    var s1, s2;
    steps', s1 := Extend(s0, steps, s, Produce(a, Acquire));
    steps', s2 := Extend(s0, steps', s1, Produce(a, Publish));
    steps', t := Extend(s0, steps', s2, Produce(a, SetNumber));
    assert t.producers == s.producers[a := Holding(q, s.slots[0].bytes)];
    assert t.slots == [s.slots[0].(state := Reserved, owner := a, number := q)];
  }

  lemma LoadsAndProbes(s0: State, steps: seq<Step>, s: State, a: nat) returns (steps': seq<Step>, t: State)
    requires |s0.slots| == 1 && s == Run(s0, steps, Parent) && a < |s.producers| && s.producers[a].Idle?
    requires At(s, s.prodSeq) == 0 && s.slots[0].state.Empty?
    ensures t == Run(s0, steps', Parent) && t == s.(producers := s.producers[a := Probed(s.prodSeq)])
  {
    var s1;
    steps', s1 := Extend(s0, steps, s, Produce(a, Load));
    steps', t := Extend(s0, steps', s1, Produce(a, Probe));
    assert t.producers == s.producers[a := Probed(s.prodSeq)];
  }

  /** The consumer copies until the copy is complete. */
  lemma {:induction false} Copies(s0: State, steps: seq<Step>, s: State) returns (steps': seq<Step>, t: State)
    requires |s0.slots| == 1 && s == Run(s0, steps, Parent) && s.consumer.Copying?
    ensures t == Run(s0, steps', Parent) && CopyDone(t) && t == s.(consumer := t.consumer)
    decreases |s.slots[At(s, s.consSeq)].bytes| - |s.consumer.buf|
  {
    if CopyDone(s) {
      steps', t := steps, s;
    } else {
      steps', t := Extend(s0, steps, s, Consume(Copy));
      steps', t := Copies(s0, steps', t);
    }
  }

  /** Producer `a` commits number `q`, the consumer's next, and the consumer delivers it. */
  lemma CommitsAndDelivers(s0: State, steps: seq<Step>, s: State, a: nat, q: nat) returns (steps': seq<Step>, t: State)
    requires |s0.slots| == 1 && s == Run(s0, steps, Parent) && a < |s.producers| && s.producers[a].Holding?
    requires s.producers[a].number == q == s.consSeq && At(s, q) == 0 && s.slots[0].state.Reserved?
    requires s.consumer.Waiting?
    ensures t == Run(s0, steps', Parent) && t.consSeq == q + 1 && t.consumer.Waiting? && t.slots[0].state.Empty?
    ensures |t.delivered| == |s.delivered| + 1
    ensures t.dropped == s.dropped && t.prodSeq == s.prodSeq && t.producers == s.producers[a := Idle]
  {
    var s1, s2, s3, s4, s5;
    steps', s1 := Extend(s0, steps, s, Produce(a, CommitWhole));
    assert s1.slots[0] == s.slots[0].(state := Ready, ticket := |s.commits|, number := q);
    steps', s2 := Extend(s0, steps', s1, Consume(See));
    steps', s3 := Extend(s0, steps', s2, Consume(Match));
    steps', s4 := Copies(s0, steps', s3);
    steps', s5 := Extend(s0, steps', s4, Consume(Take));
    steps', t := Extend(s0, steps', s5, Consume(Recycle));
    assert s1.producers == s.producers[a := Idle];
  }

  lemma Drops(s0: State, steps: seq<Step>, s: State, a: nat) returns (steps': seq<Step>, t: State)
    requires |s0.slots| == 1 && s == Run(s0, steps, Parent) && a < |s.producers| && s.producers[a].Holding?
    requires At(s, s.producers[a].number) == 0 && s.slots[0].state.Reserved?
    ensures t == Run(s0, steps', Parent)
    ensures t == s.(slots := [s.slots[0].(state := Empty)], producers := s.producers[a := Idle],
                    dropped := s.dropped + [s.producers[a].number])
  {
    var s1;
    steps', s1 := Extend(s0, steps, s, Produce(a, GiveUp));
    steps', t := Extend(s0, steps', s1, Produce(a, DropSwap));
    assert t.producers == s.producers[a := Idle];
    assert t.slots == [s.slots[0].(state := Empty)];
  }

  /** Producer 0 has seen slot 0 Empty; producer 1 has dropped number 0 since. */
  ghost predicate Dropped(s: State) {
    && |s.slots| == 1 && s.slots[0].state.Empty? && s.prodSeq == 1 && s.consSeq == 0 && s.consumer.Waiting?
    && s.producers == [Probed(0), Idle] && s.dropped == [0] && s.delivered == []
  }

  lemma DropsNumberZero() returns (s0: State, steps: seq<Step>, s: State)
    ensures Initial(s0) && |s0.slots| == 1 && s == Run(s0, steps, Parent) && Dropped(s)
  {
    s0 := State([Place(Empty, 0, seq(SLOT_SIZE, _ => 0), 0, 0)], 0, [Idle, Idle], 0, Waiting, [], [], []);
    steps, s := LoadsAndProbes(s0, [], s0, 0);
    steps, s := LoadsAndProbes(s0, steps, s, 1);
    steps, s := Reserves(s0, steps, s, 1, 0);
    steps, s := Drops(s0, steps, s, 1);
  }

  /** Producer `a` reserves the consumer's next number `q`, having probed, and has it delivered. */
  lemma ReservesAndDelivers(s0: State, steps: seq<Step>, s: State, a: nat, q: nat) returns (steps': seq<Step>, t: State)
    requires |s0.slots| == 1 && s == Run(s0, steps, Parent) && a < |s.producers| && s.producers[a] == Probed(q)
    requires q == s.consSeq && At(s, q) == 0 && s.slots[0].state.Empty? && s.consumer.Waiting?
    ensures t == Run(s0, steps', Parent) && t.consSeq == q + 1 == t.prodSeq && t.consumer.Waiting?
    ensures t.slots[0].state.Empty?
    ensures |t.delivered| == |s.delivered| + 1
    ensures t.dropped == s.dropped && t.producers == s.producers[a := Idle]
  {
    var s1;
    steps', s1 := Reserves(s0, steps, s, a, q);
    steps', t := CommitsAndDelivers(s0, steps', s1, a, q);
  }

  /** A run with a stale compare-and-swap in which number 0 is dropped and number 1 is delivered. */
  lemma StaleLoadPassesDroppedNumber() returns (s0: State, steps: seq<Step>, s: State)
    ensures Initial(s0) && s == Run(s0, steps, Parent) && !CurrentRun(s0, steps)
    ensures 0 in s.dropped && |s.delivered| == 2 && s.delivered[1].ticket < |s.commits|
    ensures s.commits[s.delivered[1].ticket].number == 1
  {
    s0, steps, s := DropsNumberZero();
    steps, s := ReservesAndDelivers(s0, steps, s, 0, 0);
    assert At(s, 1) == 0;
    steps, s := LoadsAndProbes(s0, steps, s, 1);
    steps, s := ReservesAndDelivers(s0, steps, s, 1, 1);
    var same := OnlyCommittedNumbersPassed(s0, steps);
    if CurrentRun(s0, steps) {
      DropStopsConsumer(s0, steps, s, 0);
    }
  }

  lemma DropStopsConsumer(s0: State, steps: seq<Step>, s: State, q: nat)
    requires Initial(s0) && CurrentRun(s0, steps) && s == Run(s0, steps, Parent)
    ensures q in s.dropped ==> s.consSeq <= q
  {
    InitialNumbered(s0);
    RunNumbered(s0, steps);
    if q < s.consSeq {
      PassedCommitted(s, q);
    }
  }
}
