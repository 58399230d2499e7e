/** Sequence numbers: 64-bit counters that wrap, masked to a power-of-two number of slots. */
module Sequences {
  import opened Bytes

  /** `next_power_of_two`: the least power of two that is at least `n`. */
  function NextPowerOfTwo(n: nat, k: nat): nat
    decreases n - Pow2(k)
  {
    if n <= Pow2(k) then Pow2(k) else NextPowerOfTwo(n, k + 1)
  }

  /** A capacity that divides the counters' modulus, so that wrapping does not disturb the mask. */
  ghost predicate Capacity(cap: nat) {
    0 < cap < TWO64 && Index(TWO64, cap) == 0
  }

  lemma {:induction false} Pow2Capacity(k: nat)
    requires k < 64
    ensures Capacity(Pow2(k)) && TWO64 == Pow2(k) * Pow2(64 - k)
  {
    Pow2Sum(k, 64 - k);
    Pow2Of64();
    assert Pow2(64 - k) >= 2 by {
      assert Pow2(64 - k) == 2 * Pow2(63 - k);
    }
    MulMod(Pow2(k), Pow2(64 - k));
    IndexIsRemainder(TWO64, Pow2(k));
  }

  lemma MulMod(a: nat, b: nat)
    requires a > 0 && b >= 2
    ensures (a * b) % a == 0 && a < a * b
  {
    ModUnique(a * b, a, b, 0);
    assert a * b >= a * 2;
  }

  lemma {:induction false} Pow2Sum(a: nat, b: nat)
    ensures Pow2(a) * Pow2(b) == Pow2(a + b)
  {
    if a != 0 {
      Pow2Sum(a - 1, b);
    }
  }

  lemma Pow2Of64()
    ensures Pow2(64) == TWO64
  {
    assert Pow2(8) == 256 by {
      assert Pow2(4) == 16;
      Pow2Sum(4, 4);
    }
    Pow2Sum(8, 8);
    Pow2Sum(16, 16);
    Pow2Sum(32, 32);
  }

  /** Rounding up gives a power of two, the least that is large enough. */
  lemma {:induction false} RoundedCapacity(n: nat, k: nat) returns (m: nat)
    requires k <= 63 && n <= Pow2(63) && (k > 0 ==> Pow2(k - 1) < n)
    ensures NextPowerOfTwo(n, k) == Pow2(m) && m <= 63
    ensures n <= Pow2(m) && (m > 0 ==> Pow2(m - 1) < n || m == k)
    decreases n - Pow2(k)
  {
    if n <= Pow2(k) {
      m := k;
    } else {
      m := RoundedCapacity(n, k + 1);
    }
  }

  /** Bitwise and. */
  function And(a: nat, b: nat): nat
    decreases a + b
  {
    if a == 0 || b == 0 then 0 else (if a % 2 == 1 && b % 2 == 1 then 1 else 0) + 2 * And(a / 2, b / 2)
  }

  /** Masking with `capacity - 1` is the remainder, for every power of two. */
  lemma {:induction false} MaskIsRemainder(x: nat, k: nat)
    ensures And(x, Pow2(k) - 1) == x % Pow2(k)
    decreases k
  {
    if k != 0 {
      var h := Pow2(k - 1);
      MaskIsRemainder(x / 2, k - 1);
      HalfRemainder(x, h);
      assert (2 * h - 1) / 2 == h - 1 && (2 * h - 1) % 2 == 1;
    }
  }

  lemma HalfRemainder(x: nat, h: nat)
    requires h > 0
    ensures x % (2 * h) == 2 * (x / 2 % h) + x % 2
  {
    var q, r := x / 2 / h, x / 2 % h;
    assert x / 2 == h * q + r;
    assert (2 * h) * q == 2 * (h * q);
    ModUnique(x, 2 * h, q, 2 * r + x % 2);
  }

  lemma MulBound(m: int, d: int)
    requires m > 0
    ensures d >= 1 ==> m * d >= m
    ensures d <= -1 ==> m * d <= -m
  {}

  lemma Distribute(m: int, a: int, b: int)
    ensures m * (a - b) == m * a - m * b && m * (a + b) == m * a + m * b
  {}

  /** A remainder is determined by the equation it solves. */
  lemma QuotientUnique(m: int, q: int, r: int, q': int, r': int)
    requires m > 0 && m * q + r == m * q' + r' && 0 <= r < m && 0 <= r' < m
    ensures r == r'
  {
    Distribute(m, q, q');
    MulBound(m, q - q');
  }

  lemma ModUnique(x: int, m: int, q: int, r: int)
    requires m > 0 && x == m * q + r && 0 <= r < m
    ensures x % m == r
  {
    var q', r' := x / m, x % m;
    QuotientUnique(m, q, r, q', r');
  }

  // ---- Slots of a window of sequence numbers ----

  /** The slot of sequence number `n`: its remainder, by repeated subtraction. */
  function Index(n: nat, cap: nat): (i: nat)
    requires cap > 0
    ensures i < cap
    decreases n, cap
  {
    if n < cap then n else Index(n - cap, cap)
  }

  lemma {:induction false} IndexIsRemainder(n: nat, cap: nat)
    requires cap > 0
    ensures Index(n, cap) == n % cap
    decreases n
  {
    if n < cap {
      ModUnique(n, cap, 0, n);
    } else {
      IndexIsRemainder(n - cap, cap);
      var q, r := (n - cap) / cap, (n - cap) % cap;
      Distribute(cap, q, 1);
      ModUnique(n, cap, q + 1, r);
    }
  }

  /** The code's masked index is this slot, for every power-of-two capacity. */
  lemma MaskedIndex(n: nat, k: nat)
    ensures And(n, Pow2(k) - 1) == Index(n, Pow2(k))
  {
    MaskIsRemainder(n, k);
    IndexIsRemainder(n, Pow2(k));
  }

  /** Sequence numbers less than one lap apart have different slots. */
  lemma {:induction false} IndexDistinct(m: nat, n: nat, cap: nat)
    requires cap > 0 && m < n < m + cap
    ensures Index(m, cap) != Index(n, cap)
    decreases m
  {
    if m >= cap {
      IndexDistinct(m - cap, n - cap, cap);
    } else if n >= cap {
      assert Index(n, cap) == Index(n - cap, cap) == n - cap;
    }
  }

  lemma IndexDistinctEither(m: nat, n: nat, cap: nat)
    requires cap > 0 && m != n && m < n + cap && n < m + cap
    ensures Index(m, cap) != Index(n, cap)
  {
    if m < n {
      IndexDistinct(m, n, cap);
    } else {
      IndexDistinct(n, m, cap);
    }
  }

  /** One lap on, the slot is the same. */
  lemma IndexNextLap(n: nat, cap: nat)
    requires cap > 0
    ensures Index(n + cap, cap) == Index(n, cap)
  {}

  lemma {:induction false} IndexAdd(m: nat, n: nat, cap: nat)
    requires cap > 0 && Index(m, cap) == 0
    ensures Index(m + n, cap) == Index(n, cap)
    decreases m
  {
    if m >= cap {
      IndexAdd(m - cap, n, cap);
      assert m + n - cap == m - cap + n;
    }
  }

  /** The wrapped counter selects the same slot as the unbounded one. */
  lemma {:induction false} IndexOfWrapped(n: nat, cap: nat)
    requires Capacity(cap)
    ensures Index(n % TWO64, cap) == Index(n, cap)
    decreases n
  {
    if n >= TWO64 {
      WrapBack(n);
      IndexOfWrapped(n - TWO64, cap);
      IndexAdd(TWO64, n - TWO64, cap);
    } else {
      ModUnique(n, TWO64, 0, n);
    }
  }

  lemma WrapBack(n: nat)
    requires n >= TWO64
    ensures n % TWO64 == (n - TWO64) % TWO64
  {
    ModUnique(n, TWO64, (n - TWO64) / TWO64 + 1, (n - TWO64) % TWO64);
  }

  /** `wrapping_add(1)`. */
  function Succ(n: nat): nat {
    (n + 1) % TWO64
  }

  lemma SuccWrapped(n: nat)
    ensures Succ(n % TWO64) == (n + 1) % TWO64
  {
    WrapAdd(n, 1);
  }

  lemma WrapAdd(n: nat, k: nat)
    ensures (n % TWO64 + k) % TWO64 == (n + k) % TWO64
  {
    var q, r := n / TWO64, n % TWO64;
    var q', r' := (r + k) / TWO64, (r + k) % TWO64;
    assert n + k == TWO64 * (q + q') + r';
    ModUnique(n + k, TWO64, q + q', r');
  }

  /** `wrapping_sub`. */
  function WrappingSub(a: nat, b: nat): nat {
    (a - b) % TWO64
  }

  /** The wrapped difference of two counters is their true distance, below one modulus. */
  lemma WrappedDistance(p: nat, c: nat)
    requires c <= p < c + TWO64
    ensures WrappingSub(p % TWO64, c % TWO64) == p - c
  {
    var a, b := p / TWO64, c / TWO64;
    assert p % TWO64 - c % TWO64 == TWO64 * (b - a) + (p - c);
    ModUnique(p % TWO64 - c % TWO64, TWO64, b - a, p - c);
  }

  /** Distinct numbers less than one modulus apart stay distinct when wrapped. */
  lemma WrappedDistinct(m: nat, n: nat)
    requires m <= n < m + TWO64 && m % TWO64 == n % TWO64
    ensures m == n
  {
    WrappedDistance(n, m);
  }
}
