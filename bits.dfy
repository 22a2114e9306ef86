/**
 * The bit arithmetic behind the Fenwick layout, on unbounded naturals.
 * Dafny has no `&` or `|` on `int`, so the least significant set bit is
 * defined by recursion: `i & (i - 1)` is `i - Lowbit(i)` and, for a
 * 0-based index `j`, `j | (j + 1)` is `j + Lowbit(j + 1)`.
 */
module Bits {

  function Pow2(k: nat): (r: nat)
    ensures r >= 1
  {
    if k == 0 then 1 else 2 * Pow2(k - 1)
  }

  /** The number of trailing zero bits of a positive number. */
  function TrailingZeros(n: nat): nat
    requires n > 0
  {
    if n % 2 == 1 then 0 else 1 + TrailingZeros(n / 2)
  }

  /** `n & -n`: the value of the least significant set bit of `n`. */
  function Lowbit(n: nat): (r: nat)
    requires n > 0
    ensures 1 <= r <= n
  {
    if n % 2 == 1 then 1 else 2 * Lowbit(n / 2)
  }

  /** The lowbit is the power of two given by the trailing zeros. */
  lemma {:induction false} LowbitIsPow2(n: nat)
    requires n > 0
    ensures Lowbit(n) == Pow2(TrailingZeros(n))
  {
    if n % 2 == 0 {
      LowbitIsPow2(n / 2);
    }
  }

  /** 1-based slot `n` of a Fenwick layout covers position `i` (1-based). */
  predicate Covers(n: nat, i: nat)
    requires n > 0
  {
    n - Lowbit(n) < i <= n
  }

  // ---------------------------------------------------------------------
  // Arithmetic facts

  lemma {:induction false} MulAtLeast(p: nat, d: int)
    requires d >= 1
    ensures p * d >= p
  {
    if d > 1 {
      MulAtLeast(p, d - 1);
      assert p * d == p * (d - 1) + p;
    }
  }

  /** Euclidean division of `p * q + r` by `p` is `q` with remainder `r`. */
  lemma DivModOf(p: nat, q: int, r: nat)
    requires 0 <= r < p
    ensures (p * q + r) / p == q && (p * q + r) % p == r
  {
    var a := p * q + r;
    var q', r' := a / p, a % p;
    assert a == p * q' + r';
    assert p * (q - q') == r' - r;
    if q - q' >= 1 {
      MulAtLeast(p, q - q');
    } else if q' - q >= 1 {
      MulAtLeast(p, q' - q);
    }
  }

  /** Adding the modulus leaves the Euclidean remainder unchanged. */
  lemma ShiftMod(a: int, n: nat)
    requires n > 0
    ensures (a + n) % n == a % n
  {
    DivModOf(n, a / n + 1, a % n);
  }

  lemma {:induction false} Pow2Monotone(a: nat, b: nat)
    requires a < b
    ensures Pow2(a) < Pow2(b)
  {
    if a + 1 < b {
      Pow2Monotone(a, b - 1);
    }
  }

  lemma Pow2Order(a: nat, b: nat)
    ensures Pow2(a) < Pow2(b) <==> a < b
    ensures Pow2(a) <= Pow2(b) <==> a <= b
  {
    if a < b { Pow2Monotone(a, b); }
    if b < a { Pow2Monotone(b, a); }
  }

  /** A block size `2^t` with `t` below the trailing zeros of `n` is under `lowbit(n)`, and so is its double. */
  lemma BlockWithinLowbit(n: nat, t: nat)
    requires n > 0 && t < TrailingZeros(n)
    ensures Pow2(t) < Pow2(t + 1) <= Lowbit(n)
  {
    LowbitIsPow2(n);
    Pow2Order(t + 1, TrailingZeros(n));
  }

  // ---------------------------------------------------------------------
  // Trailing zeros

  /** `2^k` has exactly `k` trailing zeros. */
  lemma {:induction false} TrailingZerosOfPow2(k: nat)
    ensures TrailingZeros(Pow2(k)) == k
  {
    if k > 0 {
      TrailingZerosOfPow2(k - 1);
    }
  }

  /** A number below `2^e` has fewer than `e` trailing zeros. */
  lemma TrailingZerosBelow(n: nat, e: nat)
    requires 0 < n < Pow2(e)
    ensures TrailingZeros(n) < e
  {
    Pow2Order(TrailingZeros(n), e);
  }

  /** A positive number of at most `2^e` has at most `e` trailing zeros. */
  lemma TrailingZerosAtMost(n: nat, e: nat)
    requires 0 < n <= Pow2(e)
    ensures TrailingZeros(n) <= e
  {
    Pow2Order(TrailingZeros(n), e);
  }

  /** Remainder by `2p` through the remainder of `n / 2` by `p`. */
  lemma ModDouble(n: nat, p: nat)
    requires p > 0
    ensures n % (2 * p) == 0 <==> n % 2 == 0 && (n / 2) % p == 0
  {
    var h := n / 2;
    var q, r := h / p, h % p;
    assert h == p * q + r;
    var b := n % 2;
    assert n == 2 * h + b;
    assert n == (2 * p) * q + (2 * r + b);
    DivModOf(2 * p, q, 2 * r + b);
  }

  /** `n % 2^m == 0` exactly when `n` has at least `m` trailing zeros. */
  lemma {:induction false} ModPow2(n: nat, m: nat)
    requires n > 0
    ensures n % Pow2(m) == 0 <==> TrailingZeros(n) >= m
  {
    if m > 0 {
      ModDouble(n, Pow2(m - 1));
      if n % 2 == 0 {
        ModPow2(n / 2, m - 1);
      }
    }
  }

  /**
   * Adding a number below `2^e` to a number with at least `e` trailing
   * zeros keeps the smaller number's trailing zeros.
   */
  lemma {:induction false} TrailingZerosOfSum(c: nat, d: nat, e: nat)
    requires c == 0 || TrailingZeros(c) >= e
    requires 0 < d < Pow2(e)
    ensures TrailingZeros(c + d) == TrailingZeros(d)
  {
    if c > 0 && d % 2 == 0 {
      TrailingZerosOfSum(c / 2, d / 2, e - 1);
    }
  }

  /** Adding `2^e` to a number with at least `e` trailing zeros keeps at least `e`. */
  lemma {:induction false} TrailingZerosStep(a: nat, e: nat)
    requires a == 0 || TrailingZeros(a) >= e
    ensures TrailingZeros(a + Pow2(e)) >= e
  {
    if a == 0 {
      TrailingZerosOfPow2(e);
    } else if e > 0 {
      var h := a / 2;
      assert a == 2 * h;
      TrailingZerosStep(h, e - 1);
      assert a + Pow2(e) == 2 * (h + Pow2(e - 1));
    }
  }

  /** Below a number with more than `m` trailing zeros, `2^m` lower, sits one with exactly `m`. */
  lemma {:induction false} TrailingZerosOfDifference(n: nat, m: nat)
    requires n > 0 && m < TrailingZeros(n)
    ensures Pow2(m + 1) <= Lowbit(n)
    ensures TrailingZeros(n - Pow2(m)) == m
  {
    BlockWithinLowbit(n, m);
    var h := n / 2;
    assert n == 2 * h;
    if m > 0 {
      TrailingZerosOfDifference(h, m - 1);
      assert n - Pow2(m) == 2 * (h - Pow2(m - 1));
    } else {
      assert n - Pow2(m) == 2 * (h - 1) + 1;
    }
  }

  /** Adding its lowbit to `c` yields a number with more trailing zeros. */
  lemma {:induction false} TrailingZerosGrow(c: nat)
    requires c > 0
    ensures TrailingZeros(c + Lowbit(c)) > TrailingZeros(c)
  {
    if c % 2 == 0 {
      TrailingZerosGrow(c / 2);
      assert (c + Lowbit(c)) / 2 == c / 2 + Lowbit(c / 2);
    }
  }

  /**
   * One step of the upward walk `j |= j + 1`: from a slot `c` that covers
   * position `i`, the next slot `c + Lowbit(c)` covers `i` too, and no slot
   * strictly between them does.
   */
  lemma WalkUpStep(c: nat, i: nat)
    requires c > 0 && Covers(c, i)
    ensures Covers(c + Lowbit(c), i)
    ensures forall n :: c < n < c + Lowbit(c) ==> !Covers(n, i)
  {
    var l := Lowbit(c);
    LowbitIsPow2(c);
    LowbitIsPow2(c + l);
    TrailingZerosGrow(c);
    Pow2Order(TrailingZeros(c) + 1, TrailingZeros(c + l));
    assert Lowbit(c + l) >= 2 * l;
    forall n | c < n < c + l
      ensures !Covers(n, i)
    {
      TrailingZerosOfSum(c, n - c, TrailingZeros(c));
      LowbitIsPow2(n);
      LowbitIsPow2(n - c);
      assert Lowbit(n) == Lowbit(n - c);
    }
  }
}
