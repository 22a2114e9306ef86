/**
 * The Fenwick layout as a reference definition, with the facts that the
 * operations of both BIT classes rely on. The operator is integer
 * addition, so the fold of a run is its sum.
 */
module Fenwick {
  import opened Bits

  /** Left-to-right fold of `+` over the run `xs[lo..hi]`; an empty run sums to 0. */
  function Sum(xs: seq<int>, lo: nat, hi: nat): int
    requires lo <= hi <= |xs|
    decreases hi - lo
  {
    if lo == hi then 0 else Sum(xs, lo, hi - 1) + xs[hi - 1]
  }

  lemma {:induction false} SumSplit(xs: seq<int>, lo: nat, mid: nat, hi: nat)
    requires lo <= mid <= hi <= |xs|
    ensures Sum(xs, lo, hi) == Sum(xs, lo, mid) + Sum(xs, mid, hi)
    decreases hi - mid
  {
    if mid < hi {
      SumSplit(xs, lo, mid, hi - 1);
    }
  }

  /** The sum of a run depends only on the values in it. */
  lemma {:induction false} SumAgree(xs: seq<int>, ys: seq<int>, lo: nat, hi: nat)
    requires lo <= hi <= |xs| && hi <= |ys|
    requires forall i :: lo <= i < hi ==> xs[i] == ys[i]
    ensures Sum(xs, lo, hi) == Sum(ys, lo, hi)
    decreases hi - lo
  {
    if lo < hi {
      SumAgree(xs, ys, lo, hi - 1);
    }
  }

  /** Replacing one element changes the sum of every run holding it by the difference. */
  lemma {:induction false} SumReplace(xs: seq<int>, k: nat, w: int, lo: nat, hi: nat)
    requires k < |xs| && lo <= hi <= |xs|
    ensures Sum(xs[k := w], lo, hi) == Sum(xs, lo, hi) + (if lo <= k < hi then w - xs[k] else 0)
    decreases hi - lo
  {
    if lo < hi {
      SumReplace(xs, k, w, lo, hi - 1);
    }
  }

  /** First 0-based position of the run that 0-based slot `x` aggregates. */
  function BlockStart(x: nat): nat
  {
    x + 1 - Lowbit(x + 1)
  }

  /**
   * The Fenwick layout of `xs`: 1-based slot `i` holds the sum of the
   * values at 1-based positions `i - lowbit(i) + 1 .. i`.
   */
  function Layout(xs: seq<int>): seq<int>
  {
    seq(|xs|, x requires 0 <= x < |xs| => Sum(xs, BlockStart(x), x + 1))
  }

  /** `BIT([1, 2, 5])` stores `[1, 3, 5]`, as the test suite's repr check expects. */
  lemma LayoutExampleShort()
    ensures Layout([1, 2, 5]) == [1, 3, 5]
  {
    assert Lowbit(2) == 2 && Lowbit(3) == 1;
  }

  /** `[1, 2, 3, 4, 5]` is stored as `[1, 3, 3, 10, 5]`. */
  lemma LayoutExampleFive()
    ensures Layout([1, 2, 3, 4, 5]) == [1, 3, 3, 10, 5]
  {
    assert Lowbit(2) == 2 && Lowbit(3) == 1 && Lowbit(4) == 4 && Lowbit(5) == 1;
  }

  /** Appending a value leaves every slot of the layout as it was and adds one. */
  lemma LayoutSnoc(xs: seq<int>, v: int)
    ensures Layout(xs + [v]) == Layout(xs) + [Sum(xs + [v], BlockStart(|xs|), |xs| + 1)]
  {
    LayoutPrefixAll(xs, v);
    SnocEqual(Layout(xs + [v]), Layout(xs), Sum(xs + [v], BlockStart(|xs|), |xs| + 1));
  }

  /** The layout after an append: the old slots and one new slot `v`. */
  lemma AppendLayout(xs: seq<int>, value: int, v: int)
    requires v == Sum(xs + [value], BlockStart(|xs|), |xs| + 1)
    ensures Layout(xs) + [v] == Layout(xs + [value])
  {
    LayoutSnoc(xs, value);
  }

  /** After an even number of values the new 1-based slot is odd and holds the value alone. */
  lemma AppendEven(xs: seq<int>, value: int)
    requires |xs| % 2 == 0
    ensures Sum(xs + [value], BlockStart(|xs|), |xs| + 1) == value
  {
    var n := |xs|;
    var h := n / 2;
    assert n + 1 == 2 * h + 1;
    assert Lowbit(n + 1) == 1;
    assert BlockStart(n) == n;
    assert (xs + [value])[n] == value;
  }

  lemma LayoutPrefixAll(xs: seq<int>, v: int)
    ensures forall x :: 0 <= x < |xs| ==> Layout(xs + [v])[x] == Layout(xs)[x]
  {
    var ys := xs + [v];
    assert ys[..|xs|] == xs;
    forall x | 0 <= x < |xs|
      ensures Layout(ys)[x] == Layout(xs)[x]
    {
      LayoutPrefix(xs, ys, x);
    }
  }

  lemma SnocEqual(a: seq<int>, b: seq<int>, e: int)
    requires |a| == |b| + 1 && a[|b|] == e
    requires forall i :: 0 <= i < |b| ==> a[i] == b[i]
    ensures a == b + [e]
  {
  }

  /** A slot's value depends only on the values up to its own position. */
  lemma LayoutPrefix(xs: seq<int>, ys: seq<int>, x: nat)
    requires x < |xs| <= |ys| && ys[..|xs|] == xs
    ensures Layout(ys)[x] == Layout(xs)[x]
  {
    var lo := BlockStart(x);
    assert forall i :: lo <= i < x + 1 ==> ys[i] == xs[i];
    SumAgree(ys, xs, lo, x + 1);
  }

  /** 1-based slot `n` holds the run of length `lowbit(n)` that ends at `n`. */
  lemma LayoutSlot(xs: seq<int>, n: nat)
    requires 0 < n <= |xs|
    ensures Layout(xs)[n - 1] == Sum(xs, n - Lowbit(n), n)
  {
    var x := n - 1;
    assert x + 1 == n;
    assert BlockStart(x) == n - Lowbit(n);
  }

  /** Replacing position `k` by `w` changes exactly the slots that cover it, by `w - xs[k]`. */
  lemma LayoutReplace(xs: seq<int>, k: nat, w: int, x: nat)
    requires k < |xs| && x < |xs|
    ensures Layout(xs[k := w])[x] == Layout(xs)[x] + (if Covers(x + 1, k + 1) then w - xs[k] else 0)
  {
    SumReplace(xs, k, w, BlockStart(x), x + 1);
  }

  /** One step of the prefix-sum loop of `__getitem__`, on the accumulator. */
  lemma PrefixAdvance(xs: seq<int>, c: nat, hi: nat, acc: int, slot: int)
    requires 0 < c <= hi <= |xs| && acc == Sum(xs, c, hi) && slot == Layout(xs)[c - 1]
    ensures acc + slot == Sum(xs, c - Lowbit(c), hi)
  {
    PrefixStep(xs, c, hi);
  }

  /** A prefix sum ending at `hi` takes in slot `c` and continues below its run. */
  lemma PrefixStep(xs: seq<int>, c: nat, hi: nat)
    requires 0 < c <= hi <= |xs|
    ensures Sum(xs, c - Lowbit(c), hi) == Layout(xs)[c - 1] + Sum(xs, c, hi)
  {
    LayoutSlot(xs, c);
    SumSplit(xs, c - Lowbit(c), c, hi);
  }

  /** A slot at an even 0-based index (an odd 1-based slot) holds the value at its own position and nothing else. */
  lemma LayoutAtEven(xs: seq<int>, x: nat)
    requires x < |xs| && x % 2 == 0
    ensures Layout(xs)[x] == xs[x]
  {
    LayoutSlot(xs, x + 1);
    assert Lowbit(x + 1) == 1;
  }

  /**
   * The slot `2^t` below 1-based slot `n`, for `t` below the trailing zeros
   * of `n`, holds the run of length `2^t` that ends there.
   */
  lemma BlockBelow(xs: seq<int>, n: nat, t: nat)
    requires 0 < n <= |xs| + 1 && t < TrailingZeros(n)
    ensures Pow2(t + 1) <= Lowbit(n)
    ensures Layout(xs)[n - 1 - Pow2(t)] == Sum(xs, n - Pow2(t + 1), n - Pow2(t))
  {
    TrailingZerosOfDifference(n, t);
    var m := n - Pow2(t);
    LowbitIsPow2(m);
    LayoutSlot(xs, m);
    assert m - Lowbit(m) == n - Pow2(t + 1);
  }

  /**
   * Peeling one lower block off the run that 1-based slot `n` holds: the
   * run with the blocks of lengths `1 .. 2^(t-1)` removed loses the next one.
   */
  lemma PeelStep(xs: seq<int>, n: nat, t: nat)
    requires 0 < n <= |xs| && t < TrailingZeros(n)
    ensures Pow2(t + 1) <= Lowbit(n)
    ensures Sum(xs, n - Lowbit(n), n - Pow2(t)) - Layout(xs)[n - 1 - Pow2(t)]
            == Sum(xs, n - Lowbit(n), n - Pow2(t + 1))
  {
    BlockBelow(xs, n, t);
    SumSplit(xs, n - Lowbit(n), n - Pow2(t + 1), n - Pow2(t));
  }

  /** One step of the peeling loop, on the value being peeled. */
  lemma PeelAdvance(xs: seq<int>, n: nat, t: nat, cur: int, below: int)
    requires 0 < n <= |xs| && t < TrailingZeros(n) && Pow2(t) < Lowbit(n)
    requires cur == Sum(xs, n - Lowbit(n), n - Pow2(t)) + xs[n - 1]
    requires below == Layout(xs)[n - 1 - Pow2(t)]
    ensures Pow2(t + 1) <= Lowbit(n)
    ensures cur - below == Sum(xs, n - Lowbit(n), n - Pow2(t + 1)) + xs[n - 1]
  {
    PeelStep(xs, n, t);
  }

  /** The run held by 1-based slot `n` is its lower blocks followed by the value itself. */
  lemma PeelStart(xs: seq<int>, n: nat)
    requires 0 < n <= |xs|
    ensures Layout(xs)[n - 1] == Sum(xs, n - Lowbit(n), n - Pow2(0)) + xs[n - 1]
  {
    LayoutSlot(xs, n);
  }

  /**
   * Gathering one more lower block in front of the run that a new last
   * slot `n == |xs| + 1` will hold.
   */
  lemma GatherStep(xs: seq<int>, n: nat, t: nat)
    requires n == |xs| + 1 && t < TrailingZeros(n)
    ensures Pow2(t + 1) <= Lowbit(n)
    ensures Sum(xs, n - Pow2(t), n - 1) + Layout(xs)[n - 1 - Pow2(t)]
            == Sum(xs, n - Pow2(t + 1), n - 1)
  {
    BlockBelow(xs, n, t);
    SumSplit(xs, n - Pow2(t + 1), n - Pow2(t), n - 1);
  }

  /** One step of the gathering loop of `append`, on the value being gathered. */
  lemma GatherAdvance(xs: seq<int>, n: nat, t: nat, v: int, value: int, below: int)
    requires n == |xs| + 1 && t < TrailingZeros(n) && Pow2(t) < Lowbit(n)
    requires v == value + Sum(xs, n - Pow2(t), n - 1)
    requires below == Layout(xs)[n - 1 - Pow2(t)]
    ensures Pow2(t + 1) <= Lowbit(n)
    ensures v + below == value + Sum(xs, n - Pow2(t + 1), n - 1)
  {
    GatherStep(xs, n, t);
  }

  /** The run a new last slot holds: the values before it, then the new value. */
  lemma GatherEnd(xs: seq<int>, value: int, v: int)
    requires v == value + Sum(xs, |xs| + 1 - Lowbit(|xs| + 1), |xs|)
    ensures v == Sum(xs + [value], BlockStart(|xs|), |xs| + 1)
  {
    SumAgree(xs + [value], xs, |xs| + 1 - Lowbit(|xs| + 1), |xs|);
  }

  // ---------------------------------------------------------------------
  // The passes of `bit_layout`

  /** The run length of 1-based slot `n` once the passes for block sizes below `2^k` are done. */
  function CapLow(n: nat, k: nat): (r: nat)
    requires n > 0
    ensures 1 <= r <= Lowbit(n)
  {
    var e := if TrailingZeros(n) < k then TrailingZeros(n) else k;
    Pow2Order(e, TrailingZeros(n));
    LowbitIsPow2(n);
    Pow2(e)
  }

  /** The array after the passes for block sizes `1 .. 2^(k-1)`. */
  ghost predicate PassesDone(a: seq<int>, xs: seq<int>, k: nat)
  {
    |a| == |xs| &&
    forall x {:trigger a[x]} :: 0 <= x < |a| ==> a[x] == Sum(xs, x + 1 - CapLow(x + 1, k), x + 1)
  }

  /**
   * One pass with block size `2^k`: every slot `j` with `j + 1` a multiple
   * of `2^(k+1)` combines the slot `2^k` below it into itself.
   */
  ghost function PassResult(a: seq<int>, k: nat): seq<int>
  {
    seq(|a|, x requires 0 <= x < |a| =>
      if x >= Pow2(k) && TrailingZeros(x + 1) > k then a[x] + a[x - Pow2(k)] else a[x])
  }

  /** Between two slots that the pass for `2^k` writes, it changes nothing. */
  lemma PassGap(a: seq<int>, k: nat, j: nat)
    requires TrailingZeros(j + 1) > k
    ensures forall x :: j < x < j + 2 * Pow2(k) && x < |a| ==> PassResult(a, k)[x] == a[x]
  {
    forall x | j < x < j + 2 * Pow2(k) && x < |a|
      ensures PassResult(a, k)[x] == a[x]
    {
      assert Pow2(k + 1) == 2 * Pow2(k);
      TrailingZerosOfSum(j + 1, x - j, k + 1);
      TrailingZerosBelow(x - j, k + 1);
      assert TrailingZeros(x + 1) <= k;
      PassResultAt(a, k, x);
    }
  }

  /** `cur` is the pass for `2^k` over `a`, carried out on every slot below `j`. */
  ghost predicate PassUpTo(cur: seq<int>, a: seq<int>, k: nat, j: nat)
  {
    |cur| == |a| &&
    (forall x {:trigger cur[x]} :: 0 <= x < |a| && x < j ==> cur[x] == PassResult(a, k)[x]) &&
    (forall x {:trigger cur[x]} :: j <= x < |a| ==> cur[x] == a[x])
  }

  /** Below the first slot that the pass for `2^k` writes, it changes nothing. */
  lemma PassUpToStart(a: seq<int>, k: nat)
    ensures TrailingZeros(2 * Pow2(k)) > k
    ensures PassUpTo(a, a, k, 2 * Pow2(k) - 1)
  {
    assert Pow2(k + 1) == 2 * Pow2(k);
    TrailingZerosOfPow2(k + 1);
    forall x | 0 <= x < 2 * Pow2(k) - 1 && x < |a|
      ensures PassResult(a, k)[x] == a[x]
    {
      PassKeepsFirst(a, k, x);
    }
  }

  lemma PassKeepsFirst(a: seq<int>, k: nat, x: nat)
    requires x < |a| && x + 1 < 2 * Pow2(k)
    ensures PassResult(a, k)[x] == a[x]
  {
    assert Pow2(k + 1) == 2 * Pow2(k);
    TrailingZerosBelow(x + 1, k + 1);
    PassKeepsLow(a, k, x);
  }

  /** The pass for `2^k` writes slot `j` from slot `j - 2^k`, which it leaves alone. */
  lemma PassWrite(a: seq<int>, k: nat, j: nat)
    requires TrailingZeros(j + 1) > k && j < |a|
    ensures j >= Pow2(k)
    ensures PassResult(a, k)[j - Pow2(k)] == a[j - Pow2(k)]
    ensures PassResult(a, k)[j] == a[j] + a[j - Pow2(k)]
  {
    TrailingZerosOfDifference(j + 1, k);
    assert Pow2(k + 1) == 2 * Pow2(k);
    PassKeepsLow(a, k, j - Pow2(k));
    PassWritesSlot(a, k, j);
  }

  lemma PassWritesSlot(a: seq<int>, k: nat, j: nat)
    requires TrailingZeros(j + 1) > k && Pow2(k) <= j < |a|
    ensures PassResult(a, k)[j] == a[j] + a[j - Pow2(k)]
  {
  }

  /** A slot whose 1-based index has at most `k` trailing zeros is not written by the pass for `2^k`. */
  lemma PassKeepsLow(a: seq<int>, k: nat, low: nat)
    requires low < |a| && TrailingZeros(low + 1) <= k
    ensures PassResult(a, k)[low] == a[low]
  {
  }

  /** The next slot the pass for `2^k` writes lies `2^(k+1)` further on. */
  lemma PassNext(k: nat, j: nat, next: nat)
    requires TrailingZeros(j + 1) > k && next == j + 2 * Pow2(k)
    ensures TrailingZeros(next + 1) > k
  {
    TrailingZerosStep(j + 1, k + 1);
    assert j + 1 + Pow2(k + 1) == next + 1;
  }

  /** Writing slot `j` and skipping the slots up to the next one the pass writes. */
  lemma PassUpToStep(cur: seq<int>, a: seq<int>, k: nat, j: nat, v: int, next: nat)
    requires PassUpTo(cur, a, k, j) && TrailingZeros(j + 1) > k && j < |a|
    requires j >= Pow2(k) && v == cur[j] + cur[j - Pow2(k)]
    requires next == j + 2 * Pow2(k)
    ensures j >= Pow2(k)
    ensures TrailingZeros(next + 1) > k
    ensures PassUpTo(cur[j := v], a, k, next)
  {
    PassWrite(a, k, j);
    PassNext(k, j, next);
    PassGap(a, k, j);
    var c := cur[j := v];
    assert c[j] == PassResult(a, k)[j];
    forall x | 0 <= x < |a| && x < j
      ensures c[x] == PassResult(a, k)[x]
    {
    }
    forall x | j < x < |a| && x < next
      ensures c[x] == PassResult(a, k)[x]
    {
      assert c[x] == a[x];
    }
    forall x | next <= x < |a|
      ensures c[x] == a[x]
    {
    }
  }

  lemma PassUpToEnd(cur: seq<int>, a: seq<int>, k: nat, j: nat)
    requires PassUpTo(cur, a, k, j) && j >= |a|
    ensures cur == PassResult(a, k)
  {
  }

  /** The pass for `2^k` carried out on the slots below `j`: the state of `arr` inside the loop. */
  ghost function PassPartial(a: seq<int>, k: nat, j: nat): (r: seq<int>)
    ensures |r| == |a| && PassUpTo(r, a, k, j)
  {
    seq(|a|, x requires 0 <= x < |a| => if x < j then PassResult(a, k)[x] else a[x])
  }

  lemma PassPartialIs(cur: seq<int>, a: seq<int>, k: nat, j: nat)
    requires PassUpTo(cur, a, k, j)
    ensures cur == PassPartial(a, k, j)
  {
    var p := PassPartial(a, k, j);
    assert forall x :: 0 <= x < |cur| ==> cur[x] == p[x];
  }

  lemma PassPartialStart(a: seq<int>, k: nat)
    ensures TrailingZeros(2 * Pow2(k)) > k
    ensures PassPartial(a, k, 2 * Pow2(k) - 1) == a
  {
    PassUpToStart(a, k);
    PassPartialIs(a, a, k, 2 * Pow2(k) - 1);
  }

  /** One write of the pass, from the slot `2^k` below, moves the partial pass to the next written slot. */
  lemma PassPartialStep(c: seq<int>, a: seq<int>, k: nat, j: nat, v: int, next: nat)
    requires c == PassPartial(a, k, j)
    requires TrailingZeros(j + 1) > k && Pow2(k) <= j < |a| && next == j + 2 * Pow2(k)
    requires v == c[j] + c[j - Pow2(k)]
    ensures TrailingZeros(next + 1) > k
    ensures c[j := v] == PassPartial(a, k, next)
  {
    PassUpToStep(c, a, k, j, v, next);
    PassPartialIs(c[j := v], a, k, next);
  }

  lemma PassPartialEnd(a: seq<int>, k: nat, j: nat)
    requires j >= |a|
    ensures PassPartial(a, k, j) == PassResult(a, k)
  {
    PassUpToEnd(PassPartial(a, k, j), a, k, j);
  }

  lemma PassesStart(xs: seq<int>)
    ensures PassesDone(xs, xs, 0)
  {
    forall x | 0 <= x < |xs|
      ensures xs[x] == Sum(xs, x + 1 - CapLow(x + 1, 0), x + 1)
    {
    }
  }

  /** The effect of one pass on one slot. */
  lemma PassSlot(a: seq<int>, xs: seq<int>, k: nat, x: nat)
    requires PassesDone(a, xs, k) && x < |a|
    ensures PassResult(a, k)[x] == Sum(xs, x + 1 - CapLow(x + 1, k + 1), x + 1)
  {
    PassResultAt(a, k, x);
    if TrailingZeros(x + 1) > k {
      PassMerge(a, xs, k, x);
    } else {
      PassKeepsDone(a, xs, k, x);
    }
  }

  /** A slot that the pass for `2^k` leaves alone already holds its whole run. */
  lemma PassKeepsDone(a: seq<int>, xs: seq<int>, k: nat, x: nat)
    requires PassesDone(a, xs, k) && x < |a| && TrailingZeros(x + 1) <= k
    ensures a[x] == Sum(xs, x + 1 - CapLow(x + 1, k + 1), x + 1)
  {
    assert CapLow(x + 1, k + 1) == CapLow(x + 1, k);
    assert a[x] == Sum(xs, x + 1 - CapLow(x + 1, k), x + 1);
  }

  lemma PassResultAt(a: seq<int>, k: nat, x: nat)
    requires x < |a|
    ensures PassResult(a, k)[x] ==
      if x >= Pow2(k) && TrailingZeros(x + 1) > k then a[x] + a[x - Pow2(k)] else a[x]
  {
  }

  /** A slot that the pass for `2^k` writes now holds a run of length `2^(k+1)`. */
  lemma PassMerge(a: seq<int>, xs: seq<int>, k: nat, x: nat)
    requires PassesDone(a, xs, k) && x < |a| && TrailingZeros(x + 1) > k
    ensures x >= Pow2(k)
    ensures a[x] + a[x - Pow2(k)] == Sum(xs, x + 1 - CapLow(x + 1, k + 1), x + 1)
  {
    var n, s := x + 1, Pow2(k);
    TrailingZerosOfDifference(n, k);
    var y := x - s;
    assert CapLow(n, k) == s;
    assert CapLow(y + 1, k) == s;
    assert CapLow(n, k + 1) == 2 * s;
    assert a[x] == Sum(xs, x + 1 - CapLow(x + 1, k), x + 1);
    assert a[y] == Sum(xs, y + 1 - CapLow(y + 1, k), y + 1);
    SumSplit(xs, n - 2 * s, n - s, n);
  }

  lemma PassStep(a: seq<int>, xs: seq<int>, k: nat)
    requires PassesDone(a, xs, k)
    ensures PassesDone(PassResult(a, k), xs, k + 1)
  {
    forall x | 0 <= x < |a|
      ensures PassResult(a, k)[x] == Sum(xs, x + 1 - CapLow(x + 1, k + 1), x + 1)
    {
      PassSlot(a, xs, k, x);
    }
  }

  /** Once `2^k` reaches slot `x + 1`, a slot that the passes have filled holds its layout value. */
  lemma SlotDone(xs: seq<int>, k: nat, x: nat, v: int)
    requires x < |xs| && x + 1 <= Pow2(k)
    requires v == Sum(xs, x + 1 - CapLow(x + 1, k), x + 1)
    ensures v == Layout(xs)[x]
  {
    TrailingZerosAtMost(x + 1, k);
    LowbitIsPow2(x + 1);
    assert CapLow(x + 1, k) == Lowbit(x + 1);
  }

  lemma PassesEnd(a: seq<int>, xs: seq<int>, k: nat)
    requires PassesDone(a, xs, k) && |xs| <= Pow2(k)
    ensures a == Layout(xs)
  {
    forall x | 0 <= x < |xs|
      ensures a[x] == Layout(xs)[x]
    {
      SlotDone(xs, k, x, a[x]);
    }
  }

  /**
   * The state of `original_layout` once every even slot at position `i` or
   * above holds its original value again: even slots above `i` are peeled,
   * the rest still hold the layout.
   */
  ghost predicate PeeledAbove(a: seq<int>, xs: seq<int>, i: nat)
  {
    |a| == |xs| &&
    forall x :: 0 <= x < |a| ==>
      a[x] == if x + 1 > i && (x + 1) % 2 == 0 then xs[x] else Layout(xs)[x]
  }

  /** Before any slot is peeled: the even length at or just below `|xs|`. */
  lemma PeeledStart(xs: seq<int>, i: nat)
    requires i % 2 == 0 && (i == |xs| || i + 1 == |xs|)
    ensures PeeledAbove(Layout(xs), xs, i)
  {
  }

  /** Restoring slot `i - 1` moves the peeled boundary down by two. */
  lemma PeeledNext(a: seq<int>, xs: seq<int>, i: nat, b: seq<int>)
    requires PeeledAbove(a, xs, i) && 2 <= i <= |a| && i % 2 == 0
    requires |b| == |a| && b[i - 1] == xs[i - 1]
    requires forall x :: 0 <= x < |a| && x != i - 1 ==> b[x] == a[x]
    ensures PeeledAbove(b, xs, i - 2)
  {
  }

  /** Below the boundary nothing has been peeled yet. */
  lemma PeeledBelow(a: seq<int>, xs: seq<int>, i: nat)
    requires PeeledAbove(a, xs, i) && i <= |a|
    ensures forall x :: 0 <= x < i ==> a[x] == Layout(xs)[x]
  {
  }

  /** Once the boundary reaches zero, every slot holds its original value. */
  lemma PeeledAll(a: seq<int>, xs: seq<int>)
    requires PeeledAbove(a, xs, 0)
    ensures a == xs
  {
    forall x | 0 <= x < |a|
      ensures a[x] == xs[x]
    {
      if x % 2 == 0 {
        LayoutAtEven(xs, x);
      }
    }
  }

  // ---------------------------------------------------------------------
  // The upward walk of `update` and `__setitem__`

  /** After `t` steps of an upward walk, the slots visited so far have moved by `delta`. */
  ghost predicate Bumped(cur: seq<int>, base: seq<int>, walk: seq<nat>, t: nat, delta: int)
    requires t <= |walk|
  {
    |cur| == |base| &&
    forall x :: 0 <= x < |cur| ==> cur[x] == base[x] + (if x in walk[..t] then delta else 0)
  }

  /** In a strictly increasing walk, no slot comes up twice. */
  lemma WalkFresh(walk: seq<nat>, t: nat)
    requires t < |walk| && forall t, u :: 0 <= t < u < |walk| ==> walk[t] < walk[u]
    ensures walk[t] !in walk[..t]
  {
    forall s | 0 <= s < t
      ensures walk[..t][s] != walk[t]
    {
      assert walk[s] < walk[t];
    }
  }

  /** Visiting one more slot, one not visited before. */
  lemma BumpedStep(cur: seq<int>, base: seq<int>, walk: seq<nat>, t: nat, delta: int, c: int)
    requires t < |walk| && walk[t] < |cur| && walk[t] !in walk[..t]
    requires Bumped(cur, base, walk, t, delta) && c == cur[walk[t]] + delta
    ensures Bumped(cur[walk[t] := c], base, walk, t + 1, delta)
  {
    assert walk[..t + 1] == walk[..t] + [walk[t]];
  }

  /**
   * A walk that visits exactly the slots covering position `k` turns the
   * layout of `xs` into the layout of `xs` with `k` replaced by `w`.
   */
  lemma BumpedDone(cur: seq<int>, xs: seq<int>, walk: seq<nat>, k: nat, w: int)
    requires k < |xs| && Bumped(cur, Layout(xs), walk, |walk|, w - xs[k])
    requires forall x: nat {:trigger x in walk} :: x in walk <==> x < |xs| && Covers(x + 1, k + 1)
    ensures cur == Layout(xs[k := w])
  {
    assert walk[..|walk|] == walk;
    forall x | 0 <= x < |cur|
      ensures cur[x] == Layout(xs[k := w])[x]
    {
      LayoutReplace(xs, k, w, x);
    }
  }

  /**
   * The upward walk `index = index | index + 1` from position `k`, stopped
   * before slot `i`: the slots below `i` that cover `k` have moved by `delta`.
   */
  ghost predicate RaisedBelow(cur: seq<int>, base: seq<int>, k: nat, i: nat, delta: int)
  {
    |cur| == |base| &&
    forall x :: 0 <= x < |cur| ==>
      cur[x] == base[x] + (if k <= x < i && Covers(x + 1, k + 1) then delta else 0)
  }

  /** One step of the walk: slot `i` moves, and the slots it skips do not cover `k`. */
  lemma RaisedStep(cur: seq<int>, base: seq<int>, k: nat, i: nat, delta: int, c: int)
    requires RaisedBelow(cur, base, k, i, delta) && k <= i < |cur| && Covers(i + 1, k + 1)
    requires c == cur[i] + delta
    ensures Covers(i + Lowbit(i + 1) + 1, k + 1)
    ensures RaisedBelow(cur[i := c], base, k, i + Lowbit(i + 1), delta)
  {
    WalkUpStep(i + 1, k + 1);
    var next := i + Lowbit(i + 1);
    var d := cur[i := c];
    forall x | 0 <= x < |d|
      ensures d[x] == base[x] + (if k <= x < next && Covers(x + 1, k + 1) then delta else 0)
    {
      if i < x < next {
        assert !Covers(x + 1, k + 1);
      }
    }
  }

  /** Once the walk leaves the array, it has replaced position `k` of `xs` by `w`. */
  lemma RaisedDone(cur: seq<int>, xs: seq<int>, k: nat, i: nat, w: int)
    requires k < |xs| <= i && RaisedBelow(cur, Layout(xs), k, i, w - xs[k])
    ensures cur == Layout(xs[k := w])
  {
    forall x | 0 <= x < |cur|
      ensures cur[x] == Layout(xs[k := w])[x]
    {
      LayoutReplace(xs, k, w, x);
    }
  }
}
