/**
 What a reservation stored, told by the steps alone: the bytes its compare-and-swap found and its
 own byte stores since, in order. Whatever the interleaving, that is what it commits and what is
 delivered.
 */
module StepStores {
  import opened Bytes
  import opened StepModel
  import opened StepOwnership

  datatype Store = Store(at: nat, value: byte)

  /** A reservation: the bytes it found, and its stores so far. */
  datatype Story = Story(found: seq<byte>, stores: seq<Store>)

  datatype Signed = Signed(producer: nat, story: Story)

  /** The current story of every producer, and the stories committed, in order. */
  datatype Tale = Tale(held: seq<Story>, log: seq<Signed>)

  /** A store beyond the end of the slot does not happen. */
  function Put(bytes: seq<byte>, at: nat, value: byte): (r: seq<byte>)
    ensures |r| == |bytes|
  {
    if at < |bytes| then bytes[at := value] else bytes
  }

  function Folded(found: seq<byte>, stores: seq<Store>): (r: seq<byte>)
    ensures |r| == |found|
    decreases |stores|
  {
    if stores == [] then found else
      var n := |stores| - 1;
      Put(Folded(found, stores[..n]), stores[n].at, stores[n].value)
  }

  /** What one action of a producer adds to the tale. */
  function Heard(s: State, a: nat, act: Act, h: Tale): (h': Tale)
    requires Is(s, a) && |h.held| == |s.producers|
    ensures |h'.held| == |h.held|
  {
    var ph := s.producers[a];
    match act
    case Acquire =>
      if ph.Probed? && s.slots[At(s, ph.number)].state.Empty? then
        h.(held := h.held[a := Story(s.slots[At(s, ph.number)].bytes, [])])
      else h
    case Poke(at, value) =>
      if ph.Holding? then h.(held := h.held[a := Story(h.held[a].found, h.held[a].stores + [Store(at, value)])]) else h
    case CommitSwap => if Publishes(s, a) then h.(log := h.log + [Signed(a, h.held[a])]) else h
    case CommitWhole => if Publishes(s, a) then h.(log := h.log + [Signed(a, h.held[a])]) else h
    case _ => h
  }

  /** A commit by `a` now would find its slot Reserved. */
  predicate Publishes(s: State, a: nat)
    requires Is(s, a)
  {
    s.producers[a].Holding? && s.slots[At(s, s.producers[a].number)].state.Reserved?
  }

  function TaleOf(s: State, steps: seq<Step>, h: Tale): (h': Tale)
    requires |s.slots| > 0 && |h.held| == |s.producers|
    ensures |h'.held| == |h.held|
    decreases |steps|
  {
    if steps == [] then h else
      TaleOf(Next(s, steps[0], Parent), steps[1..],
             match steps[0]
             case Produce(a, act) => if a < |s.producers| then Heard(s, a, act, h) else h
             case Consume(_) => h)
  }

  function Untold(n: nat): Tale {
    Tale(seq(n, _ => Story([], [])), [])
  }

  // ---- The tale is true ----

  ghost predicate HeldTold(s: State, h: Tale, a: nat)
    requires Is(s, a) && |h.held| == |s.producers|
  {
    Owns(s.producers[a]) ==> s.producers[a].image == Folded(h.held[a].found, h.held[a].stores)
  }

  ghost predicate CommitsTold(commits: seq<Committed>, log: seq<Signed>) {
    && |log| == |commits|
    && forall k {:trigger log[k]} {:trigger commits[k]} :: 0 <= k < |log| ==>
         commits[k].producer == log[k].producer && commits[k].image == Folded(log[k].story.found, log[k].story.stores)
  }

  ghost predicate Told(s: State, h: Tale) {
    && |s.slots| > 0 && |h.held| == |s.producers|
    && (forall a {:trigger HeldTold(s, h, a)} :: 0 <= a < |s.producers| ==> HeldTold(s, h, a))
    && CommitsTold(s.commits, h.log)
  }

  lemma FoldedSnoc(found: seq<byte>, stores: seq<Store>, st: Store)
    ensures Folded(found, stores + [st]) == Put(Folded(found, stores), st.at, st.value)
  {
    assert (stores + [st])[..|stores|] == stores;
  }

  /** The tale holds for producer `a`, and nothing else changed in it or in the others. */
  lemma ToldFrame(s: State, t: State, h: Tale, h': Tale, a: nat)
    requires Told(s, h) && Is(s, a) && |t.slots| > 0 && |t.producers| == |s.producers| == |h'.held|
    requires forall b :: 0 <= b < |s.producers| && b != a ==>
               t.producers[b] == s.producers[b] && h'.held[b] == h.held[b]
    requires HeldTold(t, h', a) && CommitsTold(t.commits, h'.log)
    ensures Told(t, h')
  {
    forall b | 0 <= b < |t.producers| ensures HeldTold(t, h', b) {
      assert HeldTold(s, h, b);
    }
  }

  lemma PokeTold(s: State, a: nat, at: nat, value: byte, h: Tale)
    requires Owned(s) && Told(s, h) && Is(s, a) && s.producers[a].Holding?
    ensures Told(DoPoke(s, a, at, value, Parent), Heard(s, a, Poke(at, value), h))
  {
    var t, h' := DoPoke(s, a, at, value, Parent), Heard(s, a, Poke(at, value), h);
    assert ProducerOk(s, a) && HeldTold(s, h, a);
    FoldedSnoc(h.held[a].found, h.held[a].stores, Store(at, value));
    ToldFrame(s, t, h, h', a);
  }

  lemma CommitTold(s: State, a: nat, act: Act, h: Tale)
    requires Owned(s) && Told(s, h) && Is(s, a) && s.producers[a].Holding? && (act.CommitSwap? || act.CommitWhole?)
    ensures Told(ProducerStep(s, a, act, Parent), Heard(s, a, act, h))
  {
    var t, h' := ProducerStep(s, a, act, Parent), Heard(s, a, act, h);
    assert ProducerOk(s, a) && HeldTold(s, h, a);
    ToldFrame(s, t, h, h', a);
  }

  lemma ProducerTold(s: State, a: nat, act: Act, h: Tale)
    requires Owned(s) && Told(s, h) && Is(s, a)
    ensures Told(ProducerStep(s, a, act, Parent), Heard(s, a, act, h))
  {
    var ph := s.producers[a];
    if act.Poke? && ph.Holding? {
      PokeTold(s, a, act.at, act.value, h);
    } else if (act.CommitSwap? || act.CommitWhole?) && ph.Holding? {
      CommitTold(s, a, act, h);
    } else {
      assert HeldTold(s, h, a);
      ToldFrame(s, ProducerStep(s, a, act, Parent), h, Heard(s, a, act, h), a);
    }
  }

  lemma ConsumerTold(s: State, turn: Turn, h: Tale)
    requires Told(s, h)
    ensures Told(ConsumerStep(s, turn), h)
  {
    var t := ConsumerStep(s, turn);
    forall a | 0 <= a < |t.producers| ensures HeldTold(t, h, a) {
      assert HeldTold(s, h, a);
    }
  }

  lemma {:induction false} RunTold(s: State, steps: seq<Step>, h: Tale)
    requires Owned(s) && Told(s, h)
    ensures Told(Run(s, steps, Parent), TaleOf(s, steps, h))
    decreases |steps|
  {
    if steps != [] {
      var t := Next(s, steps[0], Parent);
      StepOwned(s, steps[0]);
      match steps[0] {
        case Produce(a, act) =>
          if a < |s.producers| {
            ProducerTold(s, a, act, h);
            RunTold(t, steps[1..], Heard(s, a, act, h));
          } else {
            RunTold(t, steps[1..], h);
          }
        case Consume(turn) =>
          ConsumerTold(s, turn, h);
          RunTold(t, steps[1..], h);
      }
    }
  }

  /**
   In every interleaving each commit's bytes are those its reservation found with its own stores
   made, in their order, and nobody else's; each delivery is what the header asks for of one of
   them; and the slot of every reservation under way holds its own so far.
   */
  lemma StoresDelivered(s0: State, steps: seq<Step>) returns (s: State, h: Tale)
    requires Initial(s0)
    ensures s == Run(s0, steps, Parent) && h == TaleOf(s0, steps, Untold(|s0.producers|))
    ensures CommitsTold(s.commits, h.log)
    ensures forall k {:trigger s.delivered[k]} :: 0 <= k < |s.delivered| ==>
              var d := s.delivered[k];
              d.ticket < |h.log| && d.bytes == Copied(Folded(h.log[d.ticket].story.found, h.log[d.ticket].story.stores))
    ensures forall a {:trigger s.producers[a]} :: 0 <= a < |s.producers| && Owns(s.producers[a]) ==>
              s.slots[At(s, s.producers[a].number)].bytes == Folded(h.held[a].found, h.held[a].stores)
  {
    h := TaleOf(s0, steps, Untold(|s0.producers|));
    InitialOwned(s0);
    RunOwned(s0, steps);
    RunTold(s0, steps, Untold(|s0.producers|));
    s := Run(s0, steps, Parent);
    forall a | 0 <= a < |s.producers| && Owns(s.producers[a])
      ensures s.slots[At(s, s.producers[a].number)].bytes == Folded(h.held[a].found, h.held[a].stores)
    {
      assert ProducerOk(s, a) && HeldTold(s, h, a);
    }
  }
}
