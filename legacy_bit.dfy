/**
 * Model of the top-level bit.py: the older `BIT`.  It keeps the same
 * Fenwick layout in `_st`, but takes a plain two-argument operator, has
 * `sub` written in as the inverse, answers exclusive prefix sums, and
 * walks the index bits with inline loops instead of generators.
 */
module LegacyBit {
  import opened Results
  import opened BinaryOps
  import opened Bits
  import opened Fenwick
  import FenwickTree

  /** `operator.add`, the default operator. */
  const OperatorAdd: (int, int) -> int := (x: int, y: int) => x + y

  /** The operator is integer addition. */
  ghost predicate Adds(op: (int, int) -> int)
  {
    forall x: int, y: int :: op(x, y) == x + y
  }

  lemma AddsOperatorAdd()
    ensures Adds(OperatorAdd)
  {
  }

  /** A plain operator that adds is an addition `BinaryOp`, inverse or not. */
  lemma AddsIsAddition(op: (int, int) -> int)
    requires Adds(op)
    ensures IsAddition(BinaryOp(op, None)) && InvertsAddition(BinaryOp(op, None))
  {
  }

  lemma AddsCall(op: (int, int) -> int, x: int, y: int)
    requires Adds(op)
    ensures op(x, y) == x + y
  {
  }

  /**
   * The state of a peeling loop `while n % j == 0: step, j = j // 2, j << 1;
   * v = v - st[n - 1 - step]` after `t` steps: the value of 1-based slot `n`
   * with its lowest blocks `1 .. 2^(t-1)` taken off.
   */
  ghost predicate PeelState(xs: seq<int>, n: nat, t: nat, j: int, v: int)
  {
    0 < n <= |xs| && t <= TrailingZeros(n) && j == Pow2(t + 1) && Pow2(t) <= Lowbit(n) &&
    v == Sum(xs, n - Lowbit(n), n - Pow2(t)) + xs[n - 1]
  }

  /** Before the first step, slot `n` holds its whole run. */
  lemma PeelStateStart(xs: seq<int>, n: nat)
    requires 0 < n <= |xs|
    ensures PeelState(xs, n, 0, 2, Layout(xs)[n - 1])
  {
    PeelStart(xs, n);
  }

  /** While `n` is divisible by `j == 2^(t+1)`, the next block `j / 2` lies below the lowbit of `n`. */
  lemma StepBound(n: nat, t: nat, j: int)
    requires 0 < n && t <= TrailingZeros(n) && j == Pow2(t + 1) && n % j == 0
    ensures t < TrailingZeros(n) && j / 2 == Pow2(t) < Lowbit(n) <= n
  {
    var p := Pow2(t);
    assert j == 2 * p && j / 2 == p;
    ModPow2(n, t + 1);
    BlockWithinLowbit(n, t);
  }

  lemma PeelStateStep(xs: seq<int>, n: nat, t: nat, j: int, v: int, below: int)
    requires PeelState(xs, n, t, j, v) && t < TrailingZeros(n) && j / 2 == Pow2(t) < Lowbit(n)
    requires below == Layout(xs)[n - 1 - j / 2]
    ensures PeelState(xs, n, t + 1, j * 2, v - below)
  {
    PeelAdvance(xs, n, t, v, below);
  }

  /** When `n` is no longer divisible by `j`, every block is off and the original value is left. */
  lemma PeelStateEnd(xs: seq<int>, n: nat, t: nat, j: int, v: int)
    requires PeelState(xs, n, t, j, v) && n % j != 0
    ensures v == xs[n - 1]
  {
    ModPow2(n, t + 1);
    LowbitIsPow2(n);
  }

  /**
   * The state of the gathering loop of `append` after `t` steps, for a new
   * last slot `n == |xs| + 1`: the new value with the blocks `1 .. 2^(t-1)`
   * below it gathered in.
   */
  ghost predicate GatherState(xs: seq<int>, n: nat, t: nat, j: int, v: int, value: int)
  {
    n == |xs| + 1 && t <= TrailingZeros(n) && j == Pow2(t + 1) && Pow2(t) <= Lowbit(n) &&
    v == value + Sum(xs, n - Pow2(t), n - 1)
  }

  lemma GatherStateStep(xs: seq<int>, n: nat, t: nat, j: int, v: int, value: int, below: int)
    requires GatherState(xs, n, t, j, v, value) && t < TrailingZeros(n) && j / 2 == Pow2(t) < Lowbit(n)
    requires below == Layout(xs)[n - 1 - j / 2]
    ensures GatherState(xs, n, t + 1, j * 2, v + below, value)
  {
    GatherAdvance(xs, n, t, v, value, below);
  }

  lemma GatherStateEnd(xs: seq<int>, n: nat, t: nat, j: int, v: int, value: int)
    requires GatherState(xs, n, t, j, v, value) && n % j != 0
    ensures v == Sum(xs + [value], BlockStart(|xs|), |xs| + 1)
  {
    ModPow2(n, t + 1);
    LowbitIsPow2(n);
    GatherEnd(xs, value, v);
  }

  class BIT {
    var st: seq<int>
    const binop: (int, int) -> int
    /** The original values the storage encodes. */
    ghost var orig: seq<int>

    ghost predicate Valid()
      reads this
    {
      Adds(binop) && st == Layout(orig)
    }

    /** `BIT(iterable, binary_op)`: lays out the values. */
    constructor (iterable: seq<int>, binaryOp: (int, int) -> int)
      requires Adds(binaryOp)
      ensures Valid() && orig == iterable && binop == binaryOp
    {
      var arr := BitLayout(iterable, binaryOp);
      st := arr;
      binop := binaryOp;
      orig := iterable;
    }

    /** `len(B)`. */
    function Length(): (r: nat)
      reads this
      requires Valid()
      ensures r == |orig|
    {
      |st|
    }

    /**
     * `bit_layout`: the same passes as the newer module, one per block size
     * `i = 1, 2, 4, ...` below the length.
     */
    static method BitLayout(iterable: seq<int>, binaryOp: (int, int) -> int) returns (r: seq<int>)
      requires Adds(binaryOp)
      ensures r == Layout(iterable)
    {
      AddsIsAddition(binaryOp);
      r := FenwickTree.BIT.BitLayout(iterable, BinaryOp(binaryOp, None));
    }

    /**
     * `B[index]`: the sum of the first `index` values; `B[0]` is `0`.  A
     * negative index is not checked: `_st[index - 1]` counts from the end
     * of the storage and the loop never runs, so a raw slot comes back.
     */
    method GetItem(index: int) returns (r: Result<int>)
      requires Valid()
      ensures var n := |orig|;
        if index > n then r == Err(IndexError)
        else if index < 0 then (if index - 1 + n < 0 then r == Err(IndexError) else r == Ok(Layout(orig)[index - 1 + n]))
        else r == Ok(Sum(orig, 0, index))
    {
      var length := |st|;
      if index > length {
        return Err(IndexError);
      }
      if index == 0 {
        return Ok(0);
      }
      if index < 0 {
        if index - 1 + length < 0 {
          return Err(IndexError);
        }
        return Ok(st[index - 1 + length]);
      }
      var acc := st[index - 1];
      LayoutSlot(orig, index);
      var i := index - Lowbit(index);
      while i > 0
        invariant 0 <= i <= index && acc == Sum(orig, i, index)
        decreases i
      {
        var slot := st[i - 1];
        PrefixAdvance(orig, i, index, acc, slot);
        AddsCall(binop, acc, slot);
        acc := binop(acc, slot);
        i := i - Lowbit(i);
      }
      return Ok(acc);
    }

    /**
     * The peeling loop of `__setitem__` for an odd `index`: takes slot
     * `index - 1` off with `sub`, then the blocks `2, 4, ...` while
     * `index + 1` is divisible by `4, 8, ...`.  `a` holds the layout of
     * `xs` up to `index`.
     */
    static method PeelOdd(a: seq<int>, index: nat, ghost xs: seq<int>) returns (prior: int)
      requires index % 2 == 1 && index < |a| == |xs|
      requires forall x :: 0 <= x <= index ==> a[x] == Layout(xs)[x]
      ensures prior == xs[index]
    {
      var n := index + 1;
      PeelStateStart(xs, n);
      prior := a[index];
      StepBound(n, 0, 2);
      PeelStateStep(xs, n, 0, 2, prior, a[index - 1]);
      prior := prior - a[index - 1];
      var j := 4;
      ghost var t: nat := 1;
      while n % j == 0
        invariant PeelState(xs, n, t, j, prior)
        decreases TrailingZeros(n) - t
      {
        j, prior := PeelOddStep(a, index, xs, t, j, prior);
        t := t + 1;
      }
      PeelStateEnd(xs, n, t, j, prior);
    }

    /** The body of the loop of `PeelOdd`: `step, j = j // 2, j << 1`, then `sub` slot `index - step`. */
    static method PeelOddStep(a: seq<int>, index: nat, ghost xs: seq<int>, ghost t: nat, j: int, prior: int)
      returns (next: int, rest: int)
      requires index < |a| == |xs| && forall x :: 0 <= x <= index ==> a[x] == Layout(xs)[x]
      requires PeelState(xs, index + 1, t, j, prior) && (index + 1) % j == 0
      ensures t < TrailingZeros(index + 1) && next == j * 2
      ensures PeelState(xs, index + 1, t + 1, next, rest)
    {
      var n := index + 1;
      StepBound(n, t, j);
      var step := j / 2;
      var below := a[index - step];
      PeelStateStep(xs, n, t, j, prior, below);
      next, rest := j * 2, prior - below;
    }

    /** `B[index] = value`: replaces the original value at `index`, with `sub` as the inverse. */
    method SetItem(index: nat, value: int) returns (r: Outcome)
      requires Valid()
      modifies this
      ensures Valid()
      ensures if index >= |old(orig)| then r == Fail(IndexError) && orig == old(orig)
              else r == Pass && orig == old(orig)[index := value]
    {
      if index >= |st| {
        return Fail(IndexError);
      }
      var prior := st[index];
      if index % 2 == 1 {
        prior := PeelOdd(st, index, orig);
      } else {
        LayoutAtEven(orig, index);
      }
      r := ReplaceAlong(index, prior, value);
    }

    /**
     * The second half of `B[index] = value`: walks right from `index`, taking
     * the old value `prior` out of every slot covering it and putting `value` in.
     */
    method ReplaceAlong(index: nat, prior: int, value: int) returns (r: Outcome)
      requires Valid() && index < |orig| && prior == orig[index]
      modifies this
      ensures Valid() && r == Pass && orig == old(orig)[index := value]
    {
      var i := index;
      ghost var st0 := st;
      while i < |st|
        invariant |st| == |st0| && orig == old(orig) && index <= i && Covers(i + 1, index + 1)
        invariant RaisedBelow(st, st0, index, i, value - prior)
        decreases |st| - i
      {
        ghost var cur := st;
        AddsCall(binop, cur[i] - prior, value);
        RaisedStep(cur, st0, index, i, value - prior, binop(cur[i] - prior, value));
        st := st[i := st[i] - prior];
        st := st[i := binop(st[i], value)];
        assert st == cur[i := binop(cur[i] - prior, value)];
        i := i + Lowbit(i + 1);
      }
      RaisedDone(st, orig, index, i, value);
      orig := orig[index := value];
      return Pass;
    }

    /** `del B[index]`: a stub that leaves the tree as it is. */
    method DelItem(index: int)
      requires Valid()
      ensures Valid() && st == old(st) && orig == old(orig)
    {
    }

    /** `B.update(index, value)`: adds `value` to the original value at `index`. */
    method Update(index: nat, value: int) returns (r: Outcome)
      requires Valid()
      modifies this
      ensures Valid()
      ensures if index >= |old(orig)| then r == Fail(IndexError) && orig == old(orig)
              else r == Pass && orig == old(orig)[index := old(orig)[index] + value]
    {
      var length := |st|;
      if index >= length {
        return Fail(IndexError);
      }
      r := AddAlong(index, value);
    }

    /** The walk of `update`: adds `value` to every slot from `index` on that covers it. */
    method AddAlong(index: nat, value: int) returns (r: Outcome)
      requires Valid() && index < |orig|
      modifies this
      ensures Valid() && r == Pass && orig == old(orig)[index := old(orig)[index] + value]
    {
      var length := |st|;
      var i := index;
      ghost var st0 := st;
      while i < length
        invariant |st| == length && orig == old(orig) && index <= i && Covers(i + 1, index + 1)
        invariant RaisedBelow(st, st0, index, i, value)
        decreases length - i
      {
        AddsCall(binop, st[i], value);
        RaisedStep(st, st0, index, i, value, binop(st[i], value));
        st := st[i := binop(st[i], value)];
        i := i + Lowbit(i + 1);
      }
      RaisedDone(st, orig, index, i, orig[index] + value);
      orig := orig[index := orig[index] + value];
      return Pass;
    }

    /**
     * The gathering loop of `append` for an odd length: adds the last slot
     * with `+`, then the blocks `2, 4, ...` with `binop` while the new
     * length is divisible by `4, 8, ...`.  `a` holds the layout of `xs`.
     */
    static method Gather(a: seq<int>, value: int, binaryOp: (int, int) -> int, ghost xs: seq<int>)
      returns (v: int)
      requires Adds(binaryOp) && |a| == |xs| && |a| % 2 == 1
      requires forall x :: 0 <= x < |a| ==> a[x] == Layout(xs)[x]
      ensures v == Sum(xs + [value], BlockStart(|xs|), |xs| + 1)
    {
      var length := |a|;
      var n := length + 1;
      BlockWithinLowbit(n, 0);
      GatherAdvance(xs, n, 0, value, value, a[length - 1]);
      v := value + a[length - 1];
      var j := 4;
      ghost var t: nat := 1;
      while n % j == 0
        invariant GatherState(xs, n, t, j, v, value)
        decreases TrailingZeros(n) - t
      {
        StepBound(n, t, j);
        ghost var below := a[n - 1 - j / 2];
        GatherStateStep(xs, n, t, j, v, value, below);
        var step;
        step, j := j / 2, j * 2;
        AddsCall(binaryOp, v, a[n - 1 - step]);
        v := binaryOp(v, a[n - 1 - step]);
        t := t + 1;
      }
      GatherStateEnd(xs, n, t, j, v, value);
    }

    /** `B.append(value)`: verbatim at an even length, gathered at an odd one. */
    method Append(value: int)
      requires Valid()
      modifies this
      ensures Valid()
      ensures orig == old(orig) + [value]
      ensures |st| == |old(st)| + 1 && st[..|old(st)|] == old(st)
      ensures |old(st)| % 2 == 0 ==> st[|old(st)|] == value
    {
      var v := value;
      if |st| % 2 == 1 {
        v := Gather(st, value, binop, orig);
      } else {
        AppendEven(orig, value);
      }
      AppendLayout(orig, value, v);
      st := st + [v];
      orig := orig + [value];
    }

    /**
     * The peeling loop of `original_layout` for one even slot `i`: takes
     * off the blocks `1, 2, 4, ...` with `sub` while `i` is divisible by
     * `2, 4, 8, ...`.  `a` holds the layout of `xs` up to slot `i`.
     */
    static method PeelEven(a: seq<int>, i: nat, ghost xs: seq<int>) returns (v: int)
      requires 0 < i <= |a| == |xs| && i % 2 == 0
      requires forall x :: 0 <= x < i ==> a[x] == Layout(xs)[x]
      ensures v == xs[i - 1]
    {
      PeelStateStart(xs, i);
      v := a[i - 1];
      var j := 2;
      ghost var t: nat := 0;
      while i % j == 0
        invariant PeelState(xs, i, t, j, v)
        decreases TrailingZeros(i) - t
      {
        StepBound(i, t, j);
        ghost var below := a[i - 1 - j / 2];
        PeelStateStep(xs, i, t, j, v, below);
        var step;
        step, j := j / 2, j * 2;
        v := v - a[i - 1 - step];
        t := t + 1;
      }
      PeelStateEnd(xs, i, t, j, v);
    }

    /**
     * `original_layout`: undoes the layout from the largest even slot down,
     * with `sub`; a last slot at an odd length already holds its value.
     */
    method OriginalLayout() returns (r: seq<int>)
      requires Valid()
      ensures r == orig
    {
      var length := |st|;
      if length % 2 == 1 {
        length := length - 1;
      }
      var stored := st;
      var arr := new int[|stored|](x requires 0 <= x < |stored| => stored[x]);
      assert arr[..] == st;
      PeeledStart(orig, length);
      var i := length;
      while i > 0
        invariant 0 <= i <= length <= arr.Length && i % 2 == 0
        invariant PeeledAbove(arr[..], orig, i)
        decreases i
      {
        PeeledBelow(arr[..], orig, i);
        var v := PeelEven(arr[..], i, orig);
        ghost var before := arr[..];
        arr[i - 1] := v;
        PeeledNext(before, orig, i, arr[..]);
        i := i - 2;
      }
      PeeledAll(arr[..], orig);
      return arr[..];
    }

    /** `B.insert(index, value)`: rebuilds from the original values with `add`. */
    method Insert(index: int, value: int)
      requires Valid()
      modifies this
      ensures Valid()
      ensures var k := FenwickTree.InsertPosition(index, |old(orig)|);
        orig == old(orig)[..k] + [value] + old(orig)[k..]
    {
      var arr := OriginalLayout();
      var k := FenwickTree.InsertPosition(index, |arr|);
      var xs := arr[..k] + [value] + arr[k..];
      AddsOperatorAdd();
      st := BitLayout(xs, OperatorAdd);
      orig := xs;
    }
  }
}
