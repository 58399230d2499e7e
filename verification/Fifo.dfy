/**
 What the volatile ring and its overflow queue mean together: one bounded first-in first-out
 queue whose entries are reserved, filled and committed, and a ledger of what became of every
 record over a whole run.
 */
module Fifo {
  import opened Records
  import Crc32

  /** A ring entry: the record its slot holds, and whether the writer has committed it. */
  datatype Entry = Entry(record: Record, committed: bool)

  datatype Queue = Queue(ring: seq<Entry>, overflow: seq<Record>)

  datatype Limits = Limits(capacity: nat, maxOverflow: nat)

  /** Between operations a record waits in the overflow queue only while the ring is full. */
  ghost predicate Bounded(q: Queue, lim: Limits) {
    && lim.capacity > 0
    && |q.ring| <= lim.capacity
    && |q.overflow| <= lim.maxOverflow
    && (q.overflow != [] ==> |q.ring| == lim.capacity)
  }

  // ---- Operations ----

  /** The longest committed prefix of the ring. */
  function Ready(ring: seq<Entry>): (n: nat)
    ensures n <= |ring|
  {
    if ring == [] || !ring[0].committed then 0 else 1 + Ready(ring[1..])
  }

  /** `Ready` is the longest committed prefix. */
  lemma {:induction false} ReadyIsLongest(ring: seq<Entry>)
    ensures forall i :: 0 <= i < Ready(ring) ==> ring[i].committed
    ensures Ready(ring) < |ring| ==> !ring[Ready(ring)].committed
  {
    if ring != [] && ring[0].committed {
      ReadyIsLongest(ring[1..]);
      assert forall i :: 0 < i < Ready(ring) ==> ring[i] == ring[1..][i - 1];
    }
  }

  /** The records of a list of entries whose checksums hold. */
  function Valid(es: seq<Entry>): seq<Record> {
    if es == [] then [] else
      (if Sound(es[0].record) then [es[0].record] else []) + Valid(es[1..])
  }

  function Filled(rs: seq<Record>): (es: seq<Entry>)
    ensures |es| == |rs|
    ensures forall i :: 0 <= i < |rs| ==> es[i] == Entry(rs[i], true)
  {
    if rs == [] then [] else [Entry(rs[0], true)] + Filled(rs[1..])
  }

  /** How many waiting records move up when `free` slots are free. */
  function Moved(q: Queue, free: nat): nat {
    if |q.overflow| <= free then |q.overflow| else free
  }

  function Refill(q: Queue, lim: Limits): Queue
    requires |q.ring| <= lim.capacity
  {
    var k := Moved(q, lim.capacity - |q.ring|);
    Queue(q.ring + Filled(q.overflow[..k]), q.overflow[k..])
  }

  /** `read`: take the committed prefix; if anything was taken, refill the ring from the overflow queue. */
  function Read(q: Queue, lim: Limits): (res: (seq<Record>, Queue))
    requires |q.ring| <= lim.capacity
  {
    var n := Ready(q.ring);
    if n == 0 then ([], q) else (Valid(q.ring[..n]), Refill(q.(ring := q.ring[n..]), lim))
  }

  predicate Full(q: Queue, lim: Limits) {
    |q.ring| == lim.capacity
  }

  /** A write drops the oldest waiting record exactly when every place is taken. */
  predicate Drops(q: Queue, lim: Limits) {
    Full(q, lim) && |q.overflow| >= lim.maxOverflow
  }

  /** `write`: into the ring when it has room, otherwise into the bounded overflow queue. */
  function Write(q: Queue, lim: Limits, r: Record): Queue {
    if !Full(q, lim) then q.(ring := q.ring + [Entry(r, true)])
    else if |q.overflow| < lim.maxOverflow then q.(overflow := q.overflow + [r])
    else if q.overflow != [] then q.(overflow := q.overflow[1..] + [r])
    else q
  }

  /** `reserve`: a new uncommitted entry showing whatever its slot last held. */
  function Reserve(q: Queue, stale: Record): Queue {
    q.(ring := q.ring + [Entry(stale, false)])
  }

  function Put(q: Queue, i: nat, r: Record): Queue
    requires i < |q.ring|
  {
    q.(ring := q.ring[i := Entry(r, q.ring[i].committed)])
  }

  function Commit(q: Queue, i: nat): Queue
    requires i < |q.ring|
  {
    q.(ring := q.ring[i := Entry(q.ring[i].record, true)])
  }

  lemma ValidOne(e: Entry)
    ensures Valid([e]) == if Sound(e.record) then [e.record] else []
  {
    assert [e][1..] == [];
  }

  /** What a read returns, one entry at a time. */
  function Returns(ring: seq<Entry>): seq<Record> {
    if ring == [] || !ring[0].committed then [] else
      (if Sound(ring[0].record) then [ring[0].record] else []) + Returns(ring[1..])
  }

  /** What it leaves in the ring. */
  function Leaves(ring: seq<Entry>): seq<Entry> {
    if ring == [] || !ring[0].committed then ring else Leaves(ring[1..])
  }

  /** One entry at a time comes to the same as the whole committed prefix. */
  lemma {:induction false} PrefixTaken(ring: seq<Entry>)
    ensures Returns(ring) == Valid(ring[..Ready(ring)]) && Leaves(ring) == ring[Ready(ring)..]
  {
    if ring != [] && ring[0].committed {
      PrefixTaken(ring[1..]);
      TakeOne(ring);
      ValidOne(ring[0]);
    }
  }

  /** Taking the committed prefix one entry at a time. */
  lemma TakeOne(ring: seq<Entry>)
    requires ring != [] && ring[0].committed
    ensures var n := Ready(ring); var m := Ready(ring[1..]);
            && n == m + 1
            && Valid(ring[..n]) == Valid([ring[0]]) + Valid(ring[1..][..m])
            && ring[n..] == ring[1..][m..]
  {
    var n := Ready(ring);
    assert ring[..n] == [ring[0]] + ring[1..][..n - 1];
    ValidCons(ring[0], ring[1..][..n - 1]);
  }

  lemma ValidCons(e: Entry, es: seq<Entry>)
    ensures Valid([e] + es) == Valid([e]) + Valid(es)
  {
    ValidOne(e);
    assert ([e] + es)[1..] == es;
  }

  /** Refilling one record at a time. */
  lemma RefillOne(q: Queue, lim: Limits)
    requires |q.ring| < lim.capacity && q.overflow != []
    ensures Refill(q, lim) == Refill(Queue(q.ring + [Entry(q.overflow[0], true)], q.overflow[1..]), lim)
  {
    var k := Moved(q, lim.capacity - |q.ring|);
    FilledCons(q.overflow, k);
    assert q.ring + ([Entry(q.overflow[0], true)] + Filled(q.overflow[1..][..k - 1]))
        == (q.ring + [Entry(q.overflow[0], true)]) + Filled(q.overflow[1..][..k - 1]);
  }

  lemma FilledCons(rs: seq<Record>, k: nat)
    requires 0 < k <= |rs|
    ensures Filled(rs[..k]) == [Entry(rs[0], true)] + Filled(rs[1..][..k - 1])
    ensures rs[k..] == rs[1..][k - 1..]
  {}

  lemma RefillDone(q: Queue, lim: Limits)
    requires |q.ring| <= lim.capacity && (q.overflow == [] || |q.ring| == lim.capacity)
    ensures Refill(q, lim) == q
  {
    assert Filled([]) == [];
    assert q.ring + [] == q.ring;
  }

  // ---- Refilling keeps the queue bounded and its order ----

  /** The records of the ring followed by the waiting ones. */
  function Line(q: Queue): seq<Record> {
    RecordsOf(q.ring) + q.overflow
  }

  function RecordsOf(es: seq<Entry>): (rs: seq<Record>)
    ensures |rs| == |es|
    ensures forall i :: 0 <= i < |es| ==> rs[i] == es[i].record
  {
    if es == [] then [] else [es[0].record] + RecordsOf(es[1..])
  }

  lemma RefillBounded(q: Queue, lim: Limits)
    requires lim.capacity > 0 && |q.ring| <= lim.capacity && |q.overflow| <= lim.maxOverflow
    ensures Bounded(Refill(q, lim), lim) && Line(Refill(q, lim)) == Line(q)
  {
    var k := Moved(q, lim.capacity - |q.ring|);
    assert RecordsOf(q.ring + Filled(q.overflow[..k])) == RecordsOf(q.ring) + q.overflow[..k];
    assert q.overflow[..k] + q.overflow[k..] == q.overflow;
  }

  lemma RecordsSplit(es: seq<Entry>, n: nat)
    requires n <= |es|
    ensures RecordsOf(es) == RecordsOf(es[..n]) + RecordsOf(es[n..])
  {}

  /** The longest committed prefix leaves the front of the line; nothing else changes place. */
  lemma ReadLine(q: Queue, lim: Limits)
    requires Bounded(q, lim)
    ensures Bounded(Read(q, lim).1, lim)
    ensures Line(q) == RecordsOf(q.ring[..Ready(q.ring)]) + Line(Read(q, lim).1)
  {
    var n := Ready(q.ring);
    if n == 0 {
      assert RecordsOf(q.ring[..0]) == [];
    } else {
      var rest := q.(ring := q.ring[n..]);
      RefillBounded(rest, lim);
      RecordsSplit(q.ring, n);
      Associate(RecordsOf(q.ring[..n]), RecordsOf(rest.ring), q.overflow);
    }
  }

  /** The record's checksum describes its data. */
  predicate Sound(r: Record) {
    CrcMatches(r.header, r.data)
  }

  lemma SoundChecksums(rs: seq<Record>)
    ensures AllSound(rs) <==> forall r :: r in rs ==> r.header.crc32 == Crc32.Checksum(r.data)
  {
    if AllSound(rs) {
      forall r | r in rs ensures r.header.crc32 == Crc32.Checksum(r.data) {
        var i :| 0 <= i < |rs| && rs[i] == r;
        assert Sound(rs[i]);
      }
    }
  }

  ghost predicate AllSound(rs: seq<Record>) {
    forall i {:trigger Sound(rs[i])} :: 0 <= i < |rs| ==> Sound(rs[i])
  }

  /** The checksum filter on the records themselves. */
  function OnlySound(rs: seq<Record>): seq<Record> {
    if rs == [] then [] else (if Sound(rs[0]) then [rs[0]] else []) + OnlySound(rs[1..])
  }

  /** It keeps the records whose checksum is that of their data, all of them when all are. */
  lemma {:induction false} OnlySoundKeeps(rs: seq<Record>)
    ensures forall r :: r in OnlySound(rs) <==> r in rs && r.header.crc32 == Crc32.Checksum(r.data)
    ensures (forall r :: r in rs ==> r.header.crc32 == Crc32.Checksum(r.data)) ==> OnlySound(rs) == rs
  {
    if rs != [] {
      OnlySoundKeeps(rs[1..]);
      assert rs == [rs[0]] + rs[1..];
    }
  }

  lemma {:induction false} ValidIsSound(es: seq<Entry>)
    ensures Valid(es) == OnlySound(RecordsOf(es))
  {
    if es != [] {
      ValidIsSound(es[1..]);
      assert RecordsOf(es)[1..] == RecordsOf(es[1..]);
    }
  }

  lemma {:induction false} ValidAll(es: seq<Entry>)
    requires AllSound(RecordsOf(es))
    ensures Valid(es) == RecordsOf(es)
  {
    if es != [] {
      RecordsSplit(es, 1);
      var tail := RecordsOf(es[1..]);
      assert forall i :: 0 <= i < |tail| ==> tail[i] == RecordsOf(es)[i + 1];
      assert Sound(RecordsOf(es)[0]);
      forall i | 0 <= i < |tail| ensures Sound(tail[i]) {
        assert Sound(RecordsOf(es)[i + 1]);
      }
      ValidAll(es[1..]);
      assert RecordsOf(es[..1]) == [es[0].record];
    }
  }

  /** One element removed. */
  function Without(s: seq<Record>, i: nat): seq<Record>
    requires i < |s|
  {
    s[..i] + s[i + 1..]
  }

  /** A write joins the end of the line, at the cost of the oldest waiting record when every place is taken. */
  lemma WriteLine(q: Queue, lim: Limits, r: Record)
    requires Bounded(q, lim)
    ensures Bounded(Write(q, lim, r), lim)
    ensures !Drops(q, lim) ==> Line(Write(q, lim, r)) == Line(q) + [r]
    ensures Drops(q, lim) ==> |Line(q)| == lim.capacity + lim.maxOverflow
    ensures Drops(q, lim) && lim.maxOverflow > 0 ==> Line(Write(q, lim, r)) == Without(Line(q), lim.capacity) + [r]
    ensures Drops(q, lim) && lim.maxOverflow == 0 ==> Line(Write(q, lim, r)) == Line(q)
  {
    if !Full(q, lim) {
      assert RecordsOf(q.ring + [Entry(r, true)]) == RecordsOf(q.ring) + [r];
    }
  }

  // ---- Runs of writes and reads: order ----

  /** `f` gives the place in `b` of each element of `a`, in order. */
  ghost predicate Embeds(f: seq<nat>, a: seq<Record>, b: seq<Record>) {
    && |f| == |a|
    && (forall i :: 0 <= i < |f| ==> f[i] < |b| && b[f[i]] == a[i])
    && (forall i, j :: 0 <= i < j < |f| ==> f[i] < f[j])
  }

  /** `a` is `b` with some elements left out. */
  ghost predicate Subsequence(a: seq<Record>, b: seq<Record>) {
    exists f: seq<nat> :: Embeds(f, a, b)
  }

  lemma SubsequenceSnoc(a: seq<Record>, b: seq<Record>, x: Record)
    requires Subsequence(a, b)
    ensures Subsequence(a + [x], b + [x])
  {
    var f: seq<nat> :| Embeds(f, a, b);
    assert Embeds(f + [|b|], a + [x], b + [x]);
  }

  lemma SubsequenceLonger(a: seq<Record>, b: seq<Record>, x: Record)
    requires Subsequence(a, b)
    ensures Subsequence(a, b + [x])
  {
    var f: seq<nat> :| Embeds(f, a, b);
    assert Embeds(f, a, b + [x]);
  }

  lemma SubsequenceWithout(a: seq<Record>, b: seq<Record>, i: nat)
    requires Subsequence(a, b) && i < |a|
    ensures Subsequence(Without(a, i), b)
  {
    var f: seq<nat> :| Embeds(f, a, b);
    assert Embeds(f[..i] + f[i + 1..], Without(a, i), b);
  }

  // ---- The ledger ----

  datatype Op = WriteOp(record: Record) | ReadOp | ReserveOp(stale: Record) | PutOp(at: nat, record: Record)
      | CommitOp(at: nat)

  /**
   The queue with the history of a run: records accepted (written, or committed through a
   reservation), delivered, refused by the checksum on delivery, and dropped.
   */
  datatype Ledger = Ledger(q: Queue, accepted: seq<Record>, delivered: seq<Record>, refused: seq<Record>,
                           dropped: seq<Record>)

  predicate Enabled(l: Ledger, lim: Limits, op: Op) {
    match op
    case WriteOp(_) => true
    case ReadOp => true
    case ReserveOp(_) => !Full(l.q, lim)
    case PutOp(i, _) => i < |l.q.ring| && !l.q.ring[i].committed
    case CommitOp(i) => i < |l.q.ring| && !l.q.ring[i].committed
  }

  function Invalid(es: seq<Entry>): seq<Record> {
    if es == [] then [] else
      (if Sound(es[0].record) then [] else [es[0].record]) + Invalid(es[1..])
  }

  /** The refused of the committed prefix, one entry at a time. */
  function Refusals(ring: seq<Entry>): seq<Record> {
    if ring == [] || !ring[0].committed then [] else
      (if Sound(ring[0].record) then [] else [ring[0].record]) + Refusals(ring[1..])
  }

  lemma {:induction false} RefusalsAreInvalid(ring: seq<Entry>)
    ensures Refusals(ring) == Invalid(ring[..Ready(ring)])
  {
    if ring != [] && ring[0].committed {
      var front := ring[..Ready(ring)];
      assert front[1..] == ring[1..][..Ready(ring[1..])] && front[0] == ring[0];
      RefusalsAreInvalid(ring[1..]);
    }
  }

  function DroppedBy(q: Queue, lim: Limits, r: Record): seq<Record> {
    if !Drops(q, lim) then [] else if q.overflow != [] then [q.overflow[0]] else [r]
  }

  function Step(l: Ledger, lim: Limits, op: Op): Ledger
    requires |l.q.ring| <= lim.capacity && Enabled(l, lim, op)
  {
    match op
    case WriteOp(r) => l.(q := Write(l.q, lim, r), accepted := l.accepted + [r],
                          dropped := l.dropped + DroppedBy(l.q, lim, r))
    case ReadOp =>
      var es := l.q.ring[..Ready(l.q.ring)];
      l.(q := Read(l.q, lim).1, delivered := l.delivered + Read(l.q, lim).0, refused := l.refused + Invalid(es))
    case ReserveOp(stale) => l.(q := Reserve(l.q, stale))
    case PutOp(i, r) => l.(q := Put(l.q, i, r))
    case CommitOp(i) => l.(q := Commit(l.q, i), accepted := l.accepted + [l.q.ring[i].record])
  }

  /** The records of the committed entries. */
  function Committed(es: seq<Entry>): seq<Record> {
    if es == [] then [] else (if es[0].committed then [es[0].record] else []) + Committed(es[1..])
  }

  /** Every accepted record is in exactly one place. */
  ghost predicate Conserved(l: Ledger) {
    multiset(l.accepted) == multiset(l.delivered) + multiset(l.refused) + multiset(l.dropped)
                            + multiset(Committed(l.q.ring)) + multiset(l.q.overflow)
  }

  lemma {:induction false} CommittedConcat(a: seq<Entry>, b: seq<Entry>)
    ensures Committed(a + b) == Committed(a) + Committed(b)
  {
    if a == [] {
      assert a + b == b;
    } else {
      var tail := a[1..] + b;
      assert (a + b)[1..] == tail && (a + b)[0] == a[0];
      CommittedConcat(a[1..], b);
    }
  }

  lemma {:induction false} CommittedFilled(rs: seq<Record>)
    ensures Committed(Filled(rs)) == rs
  {
    if rs != [] {
      CommittedFilled(rs[1..]);
      assert Filled(rs)[1..] == Filled(rs[1..]);
    }
  }

  lemma {:induction false} CommittedSplit(es: seq<Entry>)
    requires forall i :: 0 <= i < |es| ==> es[i].committed
    ensures multiset(Committed(es)) == multiset(Valid(es)) + multiset(Invalid(es))
  {
    if es != [] {
      CommittedSplit(es[1..]);
    }
  }

  /** Replacing one uncommitted entry. */
  lemma CommittedUpdate(es: seq<Entry>, i: nat, e: Entry)
    requires i < |es| && !es[i].committed
    ensures multiset(Committed(es[i := e])) ==
          multiset(Committed(es)) + multiset(if e.committed then [e.record] else [])
  {
    var a, b := es[..i], es[i + 1..];
    assert es == a + ([es[i]] + b) && es[i := e] == a + ([e] + b);
    CommittedConcat(a, [es[i]] + b);
    CommittedConcat(a, [e] + b);
    CommittedConcat([es[i]], b);
    CommittedConcat([e], b);
  }

  lemma CommittedOne(e: Entry)
    ensures Committed([e]) == if e.committed then [e.record] else []
  {}

  lemma Rearrange(front: seq<Record>, rest: seq<Record>, moved: seq<Record>, left: seq<Record>, out: seq<Record>,
                  inv: seq<Record>)
    requires multiset(front) == multiset(out) + multiset(inv)
    ensures multiset(front + rest) + multiset(moved + left)
         == multiset(out) + multiset(inv) + multiset(rest + moved) + multiset(left)
  {}

  lemma ReadConserves(q: Queue, lim: Limits)
    requires Bounded(q, lim)
    ensures multiset(Committed(q.ring)) + multiset(q.overflow)
         == multiset(Read(q, lim).0) + multiset(Invalid(q.ring[..Ready(q.ring)]))
            + multiset(Committed(Read(q, lim).1.ring)) + multiset(Read(q, lim).1.overflow)
  {
    var n := Ready(q.ring);
    if n == 0 {
      assert q.ring[..n] == [];
    } else {
      ReadyIsLongest(q.ring);
      TakenConserves(q, lim, n, Read(q, lim).1);
    }
  }

  lemma TakenConserves(q: Queue, lim: Limits, n: nat, t: Queue)
    requires n <= |q.ring| <= lim.capacity && t == Refill(q.(ring := q.ring[n..]), lim)
    requires forall i :: 0 <= i < n ==> q.ring[i].committed
    ensures multiset(Committed(q.ring)) + multiset(q.overflow)
         == multiset(Valid(q.ring[..n])) + multiset(Invalid(q.ring[..n]))
            + multiset(Committed(t.ring)) + multiset(t.overflow)
  {
    var front, rest := q.ring[..n], q.ring[n..];
    var moved, left := RefillParts(Queue(rest, q.overflow), lim, t);
    assert q.ring == front + rest && q.overflow == moved + left;
    CommittedConcat(front, rest);
    CommittedSplit(front);
    CommittedConcat(rest, Filled(moved));
    CommittedFilled(moved);
    Rearrange(Committed(front), Committed(rest), moved, left, Valid(front), Invalid(front));
  }

  lemma RefillParts(q: Queue, lim: Limits, t: Queue) returns (moved: seq<Record>, left: seq<Record>)
    requires |q.ring| <= lim.capacity && t == Refill(q, lim)
    ensures q.overflow == moved + left && t == Queue(q.ring + Filled(moved), left)
  {
    var k := Moved(q, lim.capacity - |q.ring|);
    moved, left := q.overflow[..k], q.overflow[k..];
  }

  lemma WriteConserves(q: Queue, lim: Limits, r: Record)
    requires Bounded(q, lim)
    ensures multiset(Committed(Write(q, lim, r).ring)) + multiset(Write(q, lim, r).overflow) +
          multiset(DroppedBy(q, lim, r))
         == multiset(Committed(q.ring)) + multiset(q.overflow) + multiset([r])
  {
    if !Full(q, lim) {
      CommittedConcat(q.ring, [Entry(r, true)]);
      CommittedOne(Entry(r, true));
    } else if q.overflow != [] {
      assert q.overflow == [q.overflow[0]] + q.overflow[1..];
    }
  }

  /** Moving records between the columns of the books. */
  lemma Rebook(l: Ledger, l': Ledger, newly: seq<Record>, out: seq<Record>, bad: seq<Record>, lost: seq<Record>)
    requires Conserved(l)
    requires l'.accepted == l.accepted + newly && l'.delivered == l.delivered + out
    requires l'.refused == l.refused + bad && l'.dropped == l.dropped + lost
    requires multiset(Committed(l.q.ring)) + multiset(l.q.overflow) + multiset(newly)
          == multiset(out) + multiset(bad) + multiset(lost) + multiset(Committed(l'.q.ring)) + multiset(l'.q.overflow)
    ensures Conserved(l')
  {
    Balance(multiset(l.accepted), multiset(l.delivered), multiset(l.refused), multiset(l.dropped),
            multiset(Committed(l.q.ring)) + multiset(l.q.overflow), multiset(newly), multiset(out), multiset(bad),
            multiset(lost), multiset(Committed(l'.q.ring)), multiset(l'.q.overflow));
  }

  lemma Balance(a: multiset<Record>, d: multiset<Record>, f: multiset<Record>, x: multiset<Record>, p: multiset<Record>,
                newly: multiset<Record>, out: multiset<Record>, bad: multiset<Record>, lost: multiset<Record>,
                c: multiset<Record>, w: multiset<Record>)
    requires a == d + f + x + p && p + newly == out + bad + lost + c + w
    ensures a + newly == (d + out) + (f + bad) + (x + lost) + c + w
  {
    assert a + newly == d + f + x + (p + newly);
  }

  lemma WriteStep(l: Ledger, lim: Limits, r: Record)
    requires Bounded(l.q, lim) && Conserved(l)
    ensures Conserved(Step(l, lim, WriteOp(r)))
  {
    WriteConserves(l.q, lim, r);
    var lost := DroppedBy(l.q, lim, r);
    var l' := Ledger(Write(l.q, lim, r), l.accepted + [r], l.delivered, l.refused, l.dropped + lost);
    Rebook(l, l', [r], [], [], lost);
  }

  lemma ReadStep(l: Ledger, lim: Limits)
    requires Bounded(l.q, lim) && Conserved(l)
    ensures Conserved(Step(l, lim, ReadOp))
  {
    var out, bad, q := ReadParts(l.q, lim);
    var l' := ReadBooks(l, lim, out, bad, q);
    Rebook(l, l', [], out, bad, []);
  }

  lemma ReadBooks(l: Ledger, lim: Limits, out: seq<Record>, bad: seq<Record>, q: Queue) returns (l': Ledger)
    requires Bounded(l.q, lim)
    requires out == Read(l.q, lim).0 && q == Read(l.q, lim).1 && bad == Invalid(l.q.ring[..Ready(l.q.ring)])
    ensures l' == Step(l, lim, ReadOp) && l'.q == q && l'.accepted == l.accepted + [] && l'.dropped == l.dropped + []
    ensures l'.delivered == l.delivered + out && l'.refused == l.refused + bad
  {
    l' := Step(l, lim, ReadOp);
  }

  lemma ReadParts(q: Queue, lim: Limits) returns (out: seq<Record>, bad: seq<Record>, q': Queue)
    requires Bounded(q, lim)
    ensures out == Read(q, lim).0 && q' == Read(q, lim).1 && bad == Invalid(q.ring[..Ready(q.ring)])
    ensures multiset(Committed(q.ring)) + multiset(q.overflow)
         == multiset(out) + multiset(bad) + multiset(Committed(q'.ring)) + multiset(q'.overflow)
  {
    ReadConserves(q, lim);
    out, bad, q' := Read(q, lim).0, Invalid(q.ring[..Ready(q.ring)]), Read(q, lim).1;
  }

  lemma ReserveStep(l: Ledger, lim: Limits, stale: Record)
    requires Conserved(l) && |l.q.ring| < lim.capacity
    ensures Conserved(Step(l, lim, ReserveOp(stale)))
  {
    CommittedConcat(l.q.ring, [Entry(stale, false)]);
    CommittedOne(Entry(stale, false));
    assert Committed(l.q.ring) + [] == Committed(l.q.ring);
  }

  lemma PutStep(l: Ledger, lim: Limits, i: nat, r: Record)
    requires Conserved(l) && i < |l.q.ring| <= lim.capacity && !l.q.ring[i].committed
    ensures Conserved(Step(l, lim, PutOp(i, r)))
  {
    CommittedUpdate(l.q.ring, i, Entry(r, false));
    Rebook(l, Step(l, lim, PutOp(i, r)), [], [], [], []);
  }

  lemma CommitStep(l: Ledger, lim: Limits, i: nat)
    requires Conserved(l) && i < |l.q.ring| <= lim.capacity && !l.q.ring[i].committed
    ensures Conserved(Step(l, lim, CommitOp(i)))
  {
    var r := l.q.ring[i].record;
    CommittedUpdate(l.q.ring, i, Entry(r, true));
    Rebook(l, Step(l, lim, CommitOp(i)), [r], [], [], []);
  }

  lemma StepBounded(l: Ledger, lim: Limits, op: Op)
    requires Bounded(l.q, lim) && Enabled(l, lim, op)
    ensures Bounded(Step(l, lim, op).q, lim)
    ensures Step(l, lim, op).dropped != l.dropped ==> |l.q.ring| + |l.q.overflow| == lim.capacity + lim.maxOverflow
  {
    match op
    case WriteOp(r) => WriteLine(l.q, lim, r);
    case ReadOp => ReadLine(l.q, lim);
    case ReserveOp(_) =>
    case PutOp(_, _) =>
    case CommitOp(_) =>
  }

  /** Every operation keeps the bounds and the books; a drop needs every place taken. */
  lemma StepConserves(l: Ledger, lim: Limits, op: Op)
    requires Bounded(l.q, lim) && Conserved(l) && Enabled(l, lim, op)
    ensures Bounded(Step(l, lim, op).q, lim) && Conserved(Step(l, lim, op))
    ensures Step(l, lim, op).dropped != l.dropped ==> |l.q.ring| + |l.q.overflow| == lim.capacity + lim.maxOverflow
  {
    StepBounded(l, lim, op);
    match op
    case WriteOp(r) => WriteStep(l, lim, r);
    case ReadOp => ReadStep(l, lim);
    case ReserveOp(stale) => ReserveStep(l, lim, stale);
    case PutOp(i, r) => PutStep(l, lim, i, r);
    case CommitOp(i) => CommitStep(l, lim, i);
  }

  predicate EnabledRun(l: Ledger, lim: Limits, ops: seq<Op>)
    requires |l.q.ring| <= lim.capacity
    decreases |ops|
  {
    ops == [] || (Enabled(l, lim, ops[0]) && |Step(l, lim, ops[0]).q.ring| <= lim.capacity
                  && EnabledRun(Step(l, lim, ops[0]), lim, ops[1..]))
  }

  function Run(l: Ledger, lim: Limits, ops: seq<Op>): Ledger
    requires |l.q.ring| <= lim.capacity && EnabledRun(l, lim, ops)
    decreases |ops|
  {
    if ops == [] then l else Run(Step(l, lim, ops[0]), lim, ops[1..])
  }

  const EMPTY: Ledger := Ledger(Queue([], []), [], [], [], [])

  ghost predicate BadChecksums(rs: seq<Record>) {
    forall r :: r in rs ==> r.header.crc32 != Crc32.Checksum(r.data)
  }

  lemma {:induction false} InvalidBad(es: seq<Entry>)
    ensures BadChecksums(Invalid(es))
  {
    if es != [] {
      InvalidBad(es[1..]);
    }
  }

  lemma StepRefuses(l: Ledger, lim: Limits, op: Op)
    requires |l.q.ring| <= lim.capacity && Enabled(l, lim, op) && BadChecksums(l.refused)
    ensures BadChecksums(Step(l, lim, op).refused)
  {
    InvalidBad(l.q.ring[..Ready(l.q.ring)]);
  }

  /**
   Over every run of reserves, fills, commits, writes and reads, each accepted record is in
   exactly one of: delivered, refused by its checksum, dropped, in the ring, or waiting.
   */
  lemma {:induction false} RunConserves(l: Ledger, lim: Limits, ops: seq<Op>)
    requires Bounded(l.q, lim) && Conserved(l) && EnabledRun(l, lim, ops)
    ensures Bounded(Run(l, lim, ops).q, lim) && Conserved(Run(l, lim, ops))
    ensures BadChecksums(l.refused) ==> BadChecksums(Run(l, lim, ops).refused)
    decreases |ops|
  {
    if ops != [] {
      StepConserves(l, lim, ops[0]);
      if BadChecksums(l.refused) {
        StepRefuses(l, lim, ops[0]);
      }
      RunConserves(Step(l, lim, ops[0]), lim, ops[1..]);
    }
  }

  // ---- Order over runs of writes and reads ----

  ghost predicate AllCommitted(es: seq<Entry>) {
    forall i :: 0 <= i < |es| ==> es[i].committed
  }

  ghost predicate SoundOp(op: Op) {
    match op
    case WriteOp(r) => Sound(r)
    case ReadOp => true
    case _ => false
  }

  /** What has been delivered followed by what is pending, in order. */
  function History(l: Ledger): seq<Record> {
    l.delivered + Line(l.q)
  }

  ghost predicate Ordered(l: Ledger) {
    && AllSound(Line(l.q))
    && AllCommitted(l.q.ring)
    && Subsequence(History(l), l.accepted)
    && (l.dropped == [] ==> History(l) == l.accepted)
  }

  lemma SoundParts(a: seq<Record>, b: seq<Record>)
    requires AllSound(a + b)
    ensures AllSound(a) && AllSound(b)
  {
    forall i | 0 <= i < |a| ensures Sound(a[i]) {
      assert Sound((a + b)[i]);
    }
    forall i | 0 <= i < |b| ensures Sound(b[i]) {
      assert Sound((a + b)[|a| + i]);
    }
  }

  lemma SoundConcat(a: seq<Record>, b: seq<Record>)
    requires AllSound(a) && AllSound(b)
    ensures AllSound(a + b)
  {
    forall i | 0 <= i < |a + b| ensures Sound((a + b)[i]) {
      if i < |a| {
        assert Sound(a[i]);
      } else {
        assert Sound(b[i - |a|]);
      }
    }
  }

  /** On sound records `read` returns exactly the longest committed prefix. */
  lemma ReadSound(q: Queue, lim: Limits)
    requires Bounded(q, lim) && AllSound(Line(q))
    ensures Read(q, lim).0 == RecordsOf(q.ring[..Ready(q.ring)])
    ensures AllSound(Line(Read(q, lim).1))
  {
    var n := Ready(q.ring);
    ReadLine(q, lim);
    SoundParts(RecordsOf(q.ring[..n]), Line(Read(q, lim).1));
    ValidAll(q.ring[..n]);
    if n == 0 {
      assert q.ring[..0] == [];
    }
  }

  /**
   A read takes the committed prefix off the front of the line and returns its sound records; on
   sound records the line is what `read` returns followed by the line it leaves.
   */
  lemma ReadSplitsLine(q: Queue, lim: Limits)
    requires Bounded(q, lim)
    ensures Line(q) == RecordsOf(q.ring[..Ready(q.ring)]) + Line(Read(q, lim).1)
    ensures Read(q, lim).0 == Valid(q.ring[..Ready(q.ring)])
    ensures (forall r :: r in Line(q) ==> r.header.crc32 == Crc32.Checksum(r.data)) ==>
              Line(q) == Read(q, lim).0 + Line(Read(q, lim).1)
  {
    ReadLine(q, lim);
    if forall r :: r in Line(q) ==> r.header.crc32 == Crc32.Checksum(r.data) {
      ReadSound(q, lim);
    }
    assert q.ring[..0] == [];
  }

  lemma Associate(x: seq<Record>, y: seq<Record>, z: seq<Record>)
    ensures (x + y) + z == x + (y + z)
  {}

  lemma ReadHistory(l: Ledger, lim: Limits)
    requires Bounded(l.q, lim) && AllSound(Line(l.q))
    ensures History(Step(l, lim, ReadOp)) == History(l)
  {
    ReadSplitsLine(l.q, lim);
    SoundChecksums(Line(l.q));
    Associate(l.delivered, Read(l.q, lim).0, Line(Read(l.q, lim).1));
  }

  lemma ReadCommitted(q: Queue, lim: Limits)
    requires Bounded(q, lim) && AllCommitted(q.ring)
    ensures AllCommitted(Read(q, lim).1.ring)
  {}

  lemma ReadOrdered(l: Ledger, lim: Limits)
    requires Bounded(l.q, lim) && Ordered(l)
    ensures Ordered(Step(l, lim, ReadOp))
  {
    ReadHistory(l, lim);
    ReadSound(l.q, lim);
    ReadCommitted(l.q, lim);
  }

  lemma WriteSound(q: Queue, lim: Limits, r: Record)
    requires Bounded(q, lim) && AllSound(Line(q)) && Sound(r)
    ensures AllSound(Line(Write(q, lim, r)))
  {
    WriteLine(q, lim, r);
    SoundConcat(Line(q), [r]);
    if Drops(q, lim) && lim.maxOverflow > 0 {
      var i := lim.capacity;
      assert Line(q) == Line(q)[..i] + Line(q)[i..] && Line(q)[i..] == [Line(q)[i]] + Line(q)[i + 1..];
      SoundParts(Line(q)[..i], Line(q)[i..]);
      SoundParts([Line(q)[i]], Line(q)[i + 1..]);
      SoundConcat(Line(q)[..i], Line(q)[i + 1..]);
      SoundConcat(Without(Line(q), i), [r]);
    }
  }

  lemma WithoutConcat(x: seq<Record>, y: seq<Record>, i: nat, r: Record)
    requires i < |y|
    ensures x + (Without(y, i) + [r]) == Without(x + y, |x| + i) + [r]
  {
    assert (x + y)[..|x| + i] == x + y[..i] && (x + y)[|x| + i + 1..] == y[i + 1..];
  }

  lemma WriteHistory(l: Ledger, lim: Limits, r: Record)
    requires Bounded(l.q, lim) && Subsequence(History(l), l.accepted)
    ensures var l' := Step(l, lim, WriteOp(r));
            Subsequence(History(l'), l'.accepted) && (!Drops(l.q, lim) ==> History(l') == History(l) + [r])
  {
    WriteLine(l.q, lim, r);
    var h, line := History(l), Line(l.q);
    if !Drops(l.q, lim) {
      assert l.delivered + (line + [r]) == h + [r];
      SubsequenceSnoc(h, l.accepted, r);
    } else if lim.maxOverflow > 0 {
      var i := |l.delivered| + lim.capacity;
      SubsequenceWithout(h, l.accepted, i);
      SubsequenceSnoc(Without(h, i), l.accepted, r);
      WithoutConcat(l.delivered, line, lim.capacity, r);
    } else {
      SubsequenceLonger(h, l.accepted, r);
    }
  }

  lemma WriteOrdered(l: Ledger, lim: Limits, r: Record)
    requires Bounded(l.q, lim) && Ordered(l) && Sound(r)
    ensures Ordered(Step(l, lim, WriteOp(r)))
  {
    WriteSound(l.q, lim, r);
    WriteHistory(l, lim, r);
    WriteLine(l.q, lim, r);
  }

  /**
   Over every run of writes and reads of sound records, what was delivered followed by what is
   pending is the accepted records in their order, minus the dropped ones; with no drop it is
   all of them.
   */
  lemma {:induction false} RunOrdered(l: Ledger, lim: Limits, ops: seq<Op>)
    requires Bounded(l.q, lim) && Ordered(l) && EnabledRun(l, lim, ops)
    requires forall i :: 0 <= i < |ops| ==> SoundOp(ops[i])
    ensures Ordered(Run(l, lim, ops))
    decreases |ops|
  {
    if ops != [] {
      assert SoundOp(ops[0]);
      match ops[0] {
        case WriteOp(r) =>
          WriteOrdered(l, lim, r);
          WriteLine(l.q, lim, r);
        case ReadOp =>
          ReadOrdered(l, lim);
          ReadLine(l.q, lim);
      }
      RunOrdered(Step(l, lim, ops[0]), lim, ops[1..]);
    }
  }
}
