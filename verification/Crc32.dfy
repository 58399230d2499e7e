/**
 CRC-32 as section 8 of RFC 1952 defines it (the checksum crc32fast computes), written as
 the bit-serial shift register, and the fact that it detects every change confined to four
 consecutive bytes.
 */
module Crc32 {
  import opened Bytes

  /** The register, least significant bit first. */
  type Register = c: seq<bool> | |c| == 32 witness seq(32, i requires 0 <= i < 32 => Polynomial(i))

  /** The bits of the reflected generator polynomial 0xEDB88320. */
  predicate Polynomial(i: nat) {
    || i == 5 || i == 8 || i == 9 || i == 15 || i == 19 || i == 20 || i == 21
    || i == 23 || i == 24 || i == 26 || i == 27 || i == 29 || i == 30 || i == 31
  }

  function Ones(): Register {
    seq(32, _ => true)
  }

  /** One step: the input bit meets the low bit, which decides whether the polynomial is added. */
  function Shift(c: Register, b: bool): Register {
    seq(32, i requires 0 <= i < 32 => (i < 31 && c[i + 1]) != ((c[0] != b) && Polynomial(i)))
  }

  function Feed(c: Register, bits: seq<bool>): Register
    decreases |bits|
  {
    if bits == [] then c else Feed(Shift(c, bits[0]), bits[1..])
  }

  /** The low `k` bits of `n`, least significant first. */
  function LowBits(n: nat, k: nat): (bits: seq<bool>)
    ensures |bits| == k
    decreases k, n
  {
    if k == 0 then [] else [n % 2 == 1] + LowBits(n / 2, k - 1)
  }

  function Bits(d: seq<byte>): (bits: seq<bool>)
    ensures |bits| == 8 * |d|
  {
    if d == [] then [] else LowBits(d[0], 8) + Bits(d[1..])
  }

  function Value(bits: seq<bool>): nat {
    if bits == [] then 0 else (if bits[0] then 1 else 0) + 2 * Value(bits[1..])
  }

  function Complement(c: Register): Register {
    seq(32, i requires 0 <= i < 32 => !c[i])
  }

  function Checksum(d: seq<byte>): u32 {
    var c := Complement(Feed(Ones(), Bits(d)));
    ValueBound(c);
    Value(c)
  }

  // ---- Bits and numbers ----

  lemma {:induction false} ValueBelow(bits: seq<bool>)
    ensures Value(bits) < Pow2(|bits|)
  {
    if bits != [] {
      ValueBelow(bits[1..]);
    }
  }

  lemma ValueBound(c: Register)
    ensures Value(c) < 0x1_0000_0000
  {
    ValueBelow(c);
    assert Pow2(8) == 256;
    assert Pow2(16) == 256 * Pow2(8) by {
      assert Pow2(12) == 16 * Pow2(8);
      assert Pow2(16) == 16 * Pow2(12);
    }
    assert Pow2(24) == 256 * Pow2(16) by {
      assert Pow2(20) == 16 * Pow2(16);
      assert Pow2(24) == 16 * Pow2(20);
    }
    assert Pow2(28) == 16 * Pow2(24);
    assert Pow2(32) == 16 * Pow2(28);
  }

  lemma {:induction false} ValueInjective(x: seq<bool>, y: seq<bool>)
    requires |x| == |y| && Value(x) == Value(y)
    ensures x == y
  {
    if x != [] {
      ValueInjective(x[1..], y[1..]);
      assert x == [x[0]] + x[1..] && y == [y[0]] + y[1..];
    }
  }

  lemma {:induction false} ValueOfLowBits(n: nat, k: nat)
    requires n < Pow2(k)
    ensures Value(LowBits(n, k)) == n
    decreases k
  {
    if k != 0 {
      ValueOfLowBits(n / 2, k - 1);
      assert LowBits(n, k)[1..] == LowBits(n / 2, k - 1);
    }
  }

  lemma {:induction false} BitsInjective(d: seq<byte>, e: seq<byte>)
    requires |d| == |e| && Bits(d) == Bits(e)
    ensures d == e
  {
    if d != [] {
      assert LowBits(d[0], 8) == Bits(d)[..8] && LowBits(e[0], 8) == Bits(e)[..8];
      assert Bits(d[1..]) == Bits(d)[8..] && Bits(e[1..]) == Bits(e)[8..];
      ValueOfLowBits(d[0], 8);
      ValueOfLowBits(e[0], 8);
      BitsInjective(d[1..], e[1..]);
      assert d == [d[0]] + d[1..] && e == [e[0]] + e[1..];
    }
  }

  lemma {:induction false} BitsConcat(d: seq<byte>, e: seq<byte>)
    ensures Bits(d + e) == Bits(d) + Bits(e)
  {
    if d == [] {
      assert d + e == e;
    } else {
      assert (d + e)[1..] == d[1..] + e;
      BitsConcat(d[1..], e);
    }
  }

  // ---- A window of up to 32 bits enters the register injectively ----

  lemma {:induction false} FeedConcat(c: Register, x: seq<bool>, y: seq<bool>)
    ensures Feed(c, x + y) == Feed(Feed(c, x), y)
    decreases |x|
  {
    if x == [] {
      assert x + y == y;
    } else {
      assert (x + y)[1..] == x[1..] + y;
      FeedConcat(Shift(c, x[0]), x[1..], y);
    }
  }

  /** The registers differ exactly where the input windows do. */
  ghost predicate DifferAs(a: Register, b: Register, x: seq<bool>, y: seq<bool>)
    requires |x| == |y|
  {
    forall i :: 0 <= i < 32 ==> (a[i] != b[i] <==> i < |x| && x[i] != y[i])
  }

  lemma ShiftBack(a: Register, b: Register, x: seq<bool>, y: seq<bool>)
    requires 0 < |x| == |y| <= 32
    requires DifferAs(Shift(a, x[0]), Shift(b, y[0]), x[1..], y[1..])
    ensures DifferAs(a, b, x, y)
  {
    var s, t := Shift(a, x[0]), Shift(b, y[0]);
    assert s[31] == (a[0] != x[0]) && t[31] == (b[0] != y[0]);
    assert s[31] == t[31];
    forall i | 0 <= i < 32 ensures a[i] != b[i] <==> i < |x| && x[i] != y[i] {
      if i > 0 {
        assert s[i - 1] != t[i - 1] <==> i < |x| && x[1..][i - 1] != y[1..][i - 1];
      }
    }
  }

  /** Two runs over at most 32 bits that end alike started apart by exactly the bits that differ. */
  lemma {:induction false} WindowDifference(a: Register, b: Register, x: seq<bool>, y: seq<bool>)
    requires |x| == |y| <= 32
    requires Feed(a, x) == Feed(b, y)
    ensures DifferAs(a, b, x, y)
    decreases |x|
  {
    if x != [] {
      WindowDifference(Shift(a, x[0]), Shift(b, y[0]), x[1..], y[1..]);
      ShiftBack(a, b, x, y);
    }
  }

  lemma {:induction false} FeedInjective(a: Register, b: Register, bits: seq<bool>)
    requires Feed(a, bits) == Feed(b, bits)
    ensures a == b
    decreases |bits|
  {
    if bits != [] {
      FeedInjective(Shift(a, bits[0]), Shift(b, bits[0]), bits[1..]);
      ShiftBack(a, b, [bits[0]], [bits[0]]);
    }
  }

  // ---- Bursts of at most four bytes are always detected ----

  /** `d` and `e` have one length and agree outside the four positions from `k`. */
  ghost predicate DifferInBurst(d: seq<byte>, e: seq<byte>, k: nat) {
    |d| == |e| && forall i :: 0 <= i < |d| && !(k <= i < k + 4) ==> d[i] == e[i]
  }

  lemma FeedWindow(c: Register, head: seq<bool>, x: seq<bool>, y: seq<bool>, tail: seq<bool>)
    requires |x| == |y| <= 32
    requires Feed(c, head + (x + tail)) == Feed(c, head + (y + tail))
    ensures x == y
  {
    FeedConcat(c, head, x + tail);
    FeedConcat(c, head, y + tail);
    var s := Feed(c, head);
    FeedConcat(s, x, tail);
    FeedConcat(s, y, tail);
    FeedInjective(Feed(s, x), Feed(s, y), tail);
    WindowDifference(s, s, x, y);
  }

  lemma BitsOfParts(head: seq<byte>, d: seq<byte>, tail: seq<byte>)
    ensures Bits(head + (d + tail)) == Bits(head) + (Bits(d) + Bits(tail))
  {
    BitsConcat(head, d + tail);
    BitsConcat(d, tail);
  }

  lemma FeedBurst(head: seq<byte>, d: seq<byte>, e: seq<byte>, tail: seq<byte>)
    requires |d| == |e| <= 4
    requires Feed(Ones(), Bits(head + (d + tail))) == Feed(Ones(), Bits(head + (e + tail)))
    ensures d == e
  {
    BitsOfParts(head, d, tail);
    BitsOfParts(head, e, tail);
    FeedWindow(Ones(), Bits(head), Bits(d), Bits(e), Bits(tail));
    BitsInjective(d, e);
  }

  lemma ChecksumInjective(d: seq<byte>, e: seq<byte>)
    requires Checksum(d) == Checksum(e)
    ensures Feed(Ones(), Bits(d)) == Feed(Ones(), Bits(e))
  {
    ComplementInjective(Feed(Ones(), Bits(d)), Feed(Ones(), Bits(e)));
  }

  lemma ComplementInjective(x: Register, y: Register)
    requires Value(Complement(x)) == Value(Complement(y))
    ensures x == y
  {
    ValueInjective(Complement(x), Complement(y));
    assert forall i :: 0 <= i < 32 ==> x[i] == !Complement(x)[i] && y[i] == !Complement(y)[i];
  }

  lemma BurstParts(d: seq<byte>, e: seq<byte>, k: nat)
    returns (head: seq<byte>, x: seq<byte>, y: seq<byte>, tail: seq<byte>)
    requires DifferInBurst(d, e, k)
    ensures d == head + (x + tail) && e == head + (y + tail) && |x| == |y| <= 4
  {
    var i := if k < |d| then k else |d|;
    var j := if k + 4 < |d| then k + 4 else |d|;
    head, x, y, tail := d[..i], d[i..j], e[i..j], d[j..];
    assert e[..i] == head && e[j..] == tail;
  }

  /** Changing data only within four consecutive bytes, anywhere, changes the checksum. */
  lemma BurstDetected(d: seq<byte>, e: seq<byte>, k: nat)
    requires DifferInBurst(d, e, k) && d != e
    ensures Checksum(d) != Checksum(e)
  {
    if Checksum(d) == Checksum(e) {
      ChecksumInjective(d, e);
      var head, x, y, tail := BurstParts(d, e, k);
      FeedBurst(head, x, y, tail);
    }
  }
}
