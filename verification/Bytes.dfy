/** Machine integers and the little-endian layout of `repr(C)` fields. */
module Bytes {

  type byte = x: int | 0 <= x < 0x100
  type u16 = x: int | 0 <= x < 0x1_0000
  type u32 = x: int | 0 <= x < 0x1_0000_0000
  type u64 = x: int | 0 <= x < 0x1_0000_0000_0000_0000

  const TWO64: int := 0x1_0000_0000_0000_0000

  /** 256 to the power `k`. */
  function Radix(k: nat): (r: nat)
    ensures r >= 1
  {
    if k == 0 then 1 else 256 * Radix(k - 1)
  }

  lemma RadixValues()
    ensures Radix(2) == 0x1_0000 && Radix(4) == 0x1_0000_0000 && Radix(8) == TWO64
  {
    assert Radix(2) == 256 * Radix(1) == 256 * 256;
    assert Radix(4) == 256 * Radix(3) == 256 * 256 * Radix(2);
    assert Radix(8) == 256 * Radix(7) == 256 * 256 * Radix(6) == 256 * 256 * 256 * Radix(5) ==
          256 * 256 * 256 * 256 * Radix(4);
  }

  /** The low `k` bytes of `n`, least significant first. */
  function ToLe(n: nat, k: nat): (s: seq<byte>)
    ensures |s| == k
    decreases k, n
  {
    if k == 0 then [] else [n % 256] + ToLe(n / 256, k - 1)
  }

  function FromLe(s: seq<byte>): (n: nat)
    ensures n < Radix(|s|)
  {
    if s == [] then 0 else s[0] + 256 * FromLe(s[1..])
  }

  /** The number in the `k` bytes at `at`. */
  function LeAt(s: seq<byte>, at: nat, k: nat): (n: nat)
    requires at + k <= |s|
    ensures n < Radix(k)
    decreases k, s
  {
    if k == 0 then 0 else s[at] + 256 * LeAt(s, at + 1, k - 1)
  }

  lemma {:induction false} LeAtSlice(s: seq<byte>, at: nat, k: nat)
    requires at + k <= |s|
    ensures LeAt(s, at, k) == FromLe(s[at..at + k])
    decreases k
  {
    if k != 0 {
      LeAtSlice(s, at + 1, k - 1);
      assert s[at..at + k][1..] == s[at + 1..at + k];
    }
  }

  lemma {:induction false} LeRoundTrip(n: nat, k: nat)
    requires n < Radix(k)
    ensures FromLe(ToLe(n, k)) == n
    decreases k
  {
    if k != 0 {
      LeRoundTrip(n / 256, k - 1);
      assert ToLe(n, k)[1..] == ToLe(n / 256, k - 1);
    }
  }

  /** A number stored between other bytes is read back from there. */
  lemma FieldAt(head: seq<byte>, n: nat, k: nat, tail: seq<byte>)
    requires n < Radix(k)
    ensures LeAt(head + ToLe(n, k) + tail, |head|, k) == n
  {
    var s := head + ToLe(n, k) + tail;
    LeAtSlice(s, |head|, k);
    assert s[|head|..|head| + k] == ToLe(n, k);
    LeRoundTrip(n, k);
  }

  /** A number inside a slice is the number inside the whole. */
  lemma LeInSlice(s: seq<byte>, at: nat, part: seq<byte>, i: nat, k: nat)
    requires at + |part| <= |s| && part == s[at..at + |part|] && i + k <= |part|
    ensures FromLe(part[i..i + k]) == LeAt(s, at + i, k)
  {
    LeAtSlice(s, at + i, k);
    SliceInSlice(s, at, part, i, k);
  }

  lemma SliceInSlice(s: seq<byte>, at: nat, part: seq<byte>, i: nat, k: nat)
    requires at + |part| <= |s| && part == s[at..at + |part|] && i + k <= |part|
    ensures part[i..i + k] == s[at + i..at + i + k]
  {
    var x, y := part[i..i + k], s[at + i..at + i + k];
    forall j | 0 <= j < k ensures x[j] == y[j] {
      assert x[j] == part[i + j] && y[j] == s[at + i + j];
    }
  }

  lemma {:induction false} LeOfBytes(s: seq<byte>)
    ensures ToLe(FromLe(s), |s|) == s
  {
    if s != [] {
      LeOfBytes(s[1..]);
      assert (s[0] + 256 * FromLe(s[1..])) / 256 == FromLe(s[1..]);
    }
  }

  /** Distinct bytes of one length are distinct numbers. */
  lemma {:induction false} FromLeInjective(a: seq<byte>, b: seq<byte>)
    requires |a| == |b| && FromLe(a) == FromLe(b)
    ensures a == b
    decreases |a|
  {
    if a != [] {
      var x, y := FromLe(a[1..]), FromLe(b[1..]);
      assert a[0] + 256 * x == b[0] + 256 * y;
      assert x == y && a[0] == b[0];
      FromLeInjective(a[1..], b[1..]);
      assert a == [a[0]] + a[1..] && b == [b[0]] + b[1..];
    }
  }

  /** Distinct numbers have distinct encodings. */
  lemma LeInjective(m: nat, n: nat, k: nat)
    requires m < Radix(k) && n < Radix(k)
    requires ToLe(m, k) == ToLe(n, k)
    ensures m == n
  {
    LeRoundTrip(m, k);
    LeRoundTrip(n, k);
  }

  function Min(a: nat, b: nat): nat {
    if a <= b then a else b
  }

  function Pow2(k: nat): (r: nat)
    ensures r >= 1
  {
    if k == 0 then 1 else 2 * Pow2(k - 1)
  }
}
