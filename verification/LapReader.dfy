/**
 Reading a list of records through a position-indexed reader (`read_at`), independently of the
 bytes behind it: the loop of `read_all`, and what it returns when the reader lists a lap.
 */
module LapReader {
  import opened Records

  datatype ReadResult = Corrupt | Nothing | Found(record: Record, total: nat)

  /** A reader never yields a record shorter than its header. */
  type Reader = at: nat -> ReadResult | Advances(at) witness (_ => Nothing)

  ghost predicate Advances(at: nat -> ReadResult) {
    forall p :: at(p).Found? ==> at(p).total >= HEADER_SIZE
  }

  function TotalSize(r: Record): nat {
    HEADER_SIZE + |r.data|
  }

  /** Offset of the `i`-th record of a lap. */
  function Offset(lap: seq<Record>, i: nat): nat
    requires i <= |lap|
    decreases i, lap
  {
    if i == 0 then 0 else Offset(lap, i - 1) + TotalSize(lap[i - 1])
  }

  function End(lap: seq<Record>): nat {
    Offset(lap, |lap|)
  }

  ghost predicate ListsAt(at: Reader, lap: seq<Record>, i: nat) {
    i < |lap| ==> at(Offset(lap, i)) == Found(lap[i], TotalSize(lap[i]))
  }

  /** The reader finds each record of the lap at its offset. */
  ghost predicate Lists(at: Reader, lap: seq<Record>) {
    forall i :: ListsAt(at, lap, i)
  }

  datatype ReadAllResult = Failed | Records(records: seq<Record>, end: nat)

  /** The loop of `read_all` from `pos`: collect records, skip a header where there is none. */
  function ReadFrom(at: Reader, writePos: nat, pos: nat): ReadAllResult
    decreases writePos - pos
  {
    if pos >= writePos then Records([], pos) else
      match at(pos)
      case Corrupt => Failed
      case Nothing => ReadFrom(at, writePos, pos + HEADER_SIZE)
      case Found(r, n) =>
        match ReadFrom(at, writePos, pos + n)
        case Failed => Failed
        case Records(rs, end) => Records([r] + rs, end)
  }

  lemma {:induction false} OffsetPrefix(lap: seq<Record>, more: seq<Record>, i: nat)
    requires i <= |lap|
    ensures Offset(lap + more, i) == Offset(lap, i)
  {
    if i != 0 {
      OffsetPrefix(lap, more, i - 1);
    }
  }

  /** Offsets grow by at least a header per record. */
  lemma {:induction false} OffsetGrows(lap: seq<Record>, i: nat, j: nat)
    requires i <= j <= |lap|
    ensures Offset(lap, i) + HEADER_SIZE * (j - i) <= Offset(lap, j)
    decreases j
  {
    if i < j {
      OffsetGrows(lap, i, j - 1);
    }
  }

  /** Distinct indices have distinct offsets. */
  lemma OffsetInjective(lap: seq<Record>, i: nat, j: nat)
    requires i <= |lap| && j <= |lap| && Offset(lap, i) == Offset(lap, j)
    ensures i == j
  {
    if i < j {
      OffsetGrows(lap, i, j);
    } else {
      OffsetGrows(lap, j, i);
    }
  }

  /** The reader finds each record of the lap from index `i` on at its offset. */
  ghost predicate ListsFrom(at: Reader, lap: seq<Record>, i: nat) {
    forall m: nat {:trigger ListsAt(at, lap, m)} :: i <= m ==> ListsAt(at, lap, m)
  }

  /** Reading from a record boundary yields the rest of the lap and stops exactly at its end. */
  lemma {:induction false} ReadFromBoundary(at: Reader, lap: seq<Record>, i: nat)
    requires ListsFrom(at, lap, i) && i <= |lap|
    ensures ReadFrom(at, End(lap), Offset(lap, i)) == Records(lap[i..], End(lap))
    decreases |lap| - i
  {
    if i < |lap| {
      assert ListsAt(at, lap, i);
      OffsetGrows(lap, i, |lap|);
      ReadFromBoundary(at, lap, i + 1);
      assert lap[i..] == [lap[i]] + lap[i + 1..];
    }
  }

  /** A record found takes as many bytes as it is long. */
  ghost predicate Measured(at: Reader) {
    forall p: nat {:trigger at(p)} :: at(p).Found? ==> at(p).total == TotalSize(at(p).record)
  }

  /** The loop ends at least as far on as the records it returns are long. */
  lemma {:induction false} ReadFromLength(at: Reader, writePos: nat, pos: nat)
    requires Measured(at)
    ensures var res := ReadFrom(at, writePos, pos); res.Records? ==> res.end >= pos + End(res.records)
    decreases writePos - pos
  {
    if pos < writePos {
      match at(pos)
      case Corrupt =>
      case Nothing => ReadFromLength(at, writePos, pos + HEADER_SIZE);
      case Found(r, n) =>
        ReadFromLength(at, writePos, pos + n);
        var rest := ReadFrom(at, writePos, pos + n);
        if rest.Records? {
          EndCons(r, rest.records);
        }
    }
  }

  lemma {:induction false} EndCons(r: Record, rs: seq<Record>)
    ensures End([r] + rs) == TotalSize(r) + End(rs)
    decreases |rs|
  {
    if rs == [] {
      assert [r] + rs == [r];
      assert Offset([r], 1) == Offset([r], 0) + TotalSize(r);
    } else {
      var front := rs[..|rs| - 1];
      EndCons(r, front);
      assert rs == front + [rs[|rs| - 1]] && [r] + rs == ([r] + front) + [rs[|rs| - 1]];
      OffsetPrefix(front, [rs[|rs| - 1]], |front|);
      OffsetPrefix([r] + front, [rs[|rs| - 1]], |front| + 1);
    }
  }

  /** The loop returns the rest of the lap and stops at its end only if each of its records is found. */
  lemma {:induction false} ReadFromOnlyIf(at: Reader, lap: seq<Record>, i: nat)
    requires Measured(at) && i <= |lap| && ReadFrom(at, End(lap), Offset(lap, i)) == Records(lap[i..], End(lap))
    ensures ListsFrom(at, lap, i)
    decreases |lap| - i
  {
    if i < |lap| {
      var pos := Offset(lap, i);
      OffsetGrows(lap, i, |lap|);
      EndFrom(lap, i);
      match at(pos) {
        case Corrupt =>
        case Nothing =>
          ReadFromLength(at, End(lap), pos + HEADER_SIZE);
        case Found(r, n) =>
          var rest := ReadFrom(at, End(lap), pos + n);
          assert rest.Records? && lap[i..] == [r] + rest.records;
          assert lap[i..][0] == r && lap[i..][1..] == rest.records && lap[i + 1..] == lap[i..][1..];
          ReadFromOnlyIf(at, lap, i + 1);
      }
      forall m: nat | i <= m ensures ListsAt(at, lap, m) {
        if m == i {
          assert at(pos).Found?;
        }
      }
    }
  }

  lemma {:induction false} EndFrom(lap: seq<Record>, i: nat)
    requires i <= |lap|
    ensures End(lap) == Offset(lap, i) + End(lap[i..])
    decreases |lap| - i
  {
    if i == |lap| {
      assert lap[i..] == [];
    } else {
      EndFrom(lap, i + 1);
      EndCons(lap[i], lap[i + 1..]);
      assert lap[i..] == [lap[i]] + lap[i + 1..];
    }
  }

  /** A corrupt record stops the loop, however many good records precede it. */
  lemma {:induction false} ReadFromCorrupt(at: Reader, lap: seq<Record>, writePos: nat, i: nat)
    requires Lists(at, lap) && i <= |lap|
    requires at(End(lap)) == Corrupt && End(lap) < writePos
    ensures ReadFrom(at, writePos, Offset(lap, i)) == Failed
    decreases |lap| - i
  {
    if i < |lap| {
      assert ListsAt(at, lap, i);
      OffsetGrows(lap, i, |lap|);
      ReadFromCorrupt(at, lap, writePos, i + 1);
    }
  }

  /** Where nothing is found the loop goes on in steps of a header, until it has passed the write position. */
  lemma {:induction false} SkipsHeaders(at: Reader, writePos: nat, pos: nat, k: nat)
    requires forall m: nat {:trigger at(pos + HEADER_SIZE * m)} :: m < k ==> at(pos + HEADER_SIZE * m).Nothing?
    requires k > 0 ==> pos + HEADER_SIZE * (k - 1) < writePos
    ensures ReadFrom(at, writePos, pos) == ReadFrom(at, writePos, pos + HEADER_SIZE * k)
    ensures pos + HEADER_SIZE * k >= writePos ==> ReadFrom(at, writePos, pos) == Records([], pos + HEADER_SIZE * k)
    decreases k
  {
    if k > 0 {
      assert at(pos + HEADER_SIZE * 0).Nothing?;
      forall m: nat | m < k - 1 ensures at(pos + HEADER_SIZE + HEADER_SIZE * m).Nothing? {
        assert at(pos + HEADER_SIZE * (m + 1)).Nothing?;
      }
      SkipsHeaders(at, writePos, pos + HEADER_SIZE, k - 1);
    }
  }

  /** A reader lists at most one lap with a given end. */
  lemma ListsUnique(at: Reader, lap: seq<Record>, other: seq<Record>)
    requires Lists(at, lap) && Lists(at, other) && End(lap) == End(other)
    ensures lap == other
  {
    ReadFromBoundary(at, lap, 0);
    ReadFromBoundary(at, other, 0);
    assert lap[0..] == lap && other[0..] == other;
  }

  /** The loop never runs far past the write position. */
  lemma {:induction false} ReadFromEnd(at: Reader, writePos: nat, pos: nat, room: nat)
    requires HEADER_SIZE <= room && forall p: nat :: at(p).Found? ==> at(p).total <= room
    ensures var res := ReadFrom(at, writePos, pos); res.Records? ==>
          pos <= res.end && (res.end == pos || res.end < writePos + room)
    decreases writePos - pos
  {
    if pos < writePos {
      match at(pos)
      case Corrupt =>
      case Nothing => ReadFromEnd(at, writePos, pos + HEADER_SIZE, room);
      case Found(r, n) => ReadFromEnd(at, writePos, pos + n, room);
    }
  }
}
