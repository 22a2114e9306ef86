/**
 * Model of bit/bit.py: class `BIT`, a Fenwick tree kept in one list `_st`
 * whose 1-based slot `i` holds the sum of the original values at positions
 * `i - lowbit(i) + 1 .. i`. The operator is integer addition; the inverse,
 * when the operator carries one, is subtraction.
 */
module FenwickTree {
  import opened Results
  import opened BinaryOps
  import opened Bits
  import opened Fenwick

  /** Python's index normalisation: a negative index counts from the end. */
  function Normalize(index: int, length: nat): (r: int)
    ensures 0 <= r < length <==> 0 <= index + length && index < length
    ensures length > 0 ==> r % length == index % length
  {
    if index < 0 then (if length > 0 then ShiftMod(index, length); index + length else index)
    else index
  }

  /**
   * Where `list.insert(index, x)` puts `x` in a list of `length` values:
   * a negative index counts from the end, and one out of range is clamped
   * to the nearer end.
   */
  function InsertPosition(index: int, length: nat): (r: nat)
    ensures r <= length
    ensures 0 <= index <= length ==> r == index
    ensures index < 0 <= index + length ==> r == index + length
    ensures index > length ==> r == length
    ensures index + length < 0 ==> r == 0
  {
    if index < 0 then (if index + length < 0 then 0 else index + length)
    else if index > length then length
    else index
  }

  /** The yields of `_powers_of_two`, `1, 2, 4, ...`, sum to one less than the lowbit. */
  lemma {:induction false} PowersSum(r: seq<nat>, m: nat)
    requires m <= |r|
    requires forall t {:trigger r[t]} :: 0 <= t < |r| ==> r[t] == Pow2(t)
    ensures Sum(r, 0, m) == Pow2(m) - 1
  {
    if m > 0 {
      PowersSum(r, m - 1);
    }
  }

  class BIT {
    var st: seq<int>
    const binop: BinaryOp
    /** The original values the storage encodes. */
    ghost var orig: seq<int>

    ghost predicate Valid()
      reads this
    {
      IsAddition(binop) && InvertsAddition(binop) && st == Layout(orig)
    }

    /** `BIT(iterable, binary_op)`: lays out the values. */
    constructor (iterable: seq<int>, binaryOp: BinaryOp)
      requires IsAddition(binaryOp) && InvertsAddition(binaryOp)
      ensures Valid() && orig == iterable && binop == binaryOp
    {
      var arr := BitLayout(iterable, binaryOp);
      st := arr;
      binop := binaryOp;
      orig := iterable;
    }

    /** `len(B)`. */
    function Length(): (r: nat)
      reads this
      requires Valid()
      ensures r == |orig|
    {
      |st|
    }

    /**
     * `bit_layout`: one pass per block size `i = 1, 2, 4, ...` below the
     * length, each adding slot `j - i` into every slot `j` with `j + 1` a
     * multiple of `2i`.
     */
    static method BitLayout(iterable: seq<int>, binaryOp: BinaryOp) returns (r: seq<int>)
      requires IsAddition(binaryOp)
      ensures r == Layout(iterable)
    {
      var arr := new int[|iterable|](x requires 0 <= x < |iterable| => iterable[x]);
      var i, length := 1, arr.Length;
      ghost var k: nat := 0;
      assert arr[..] == iterable;
      PassesStart(iterable);
      while i < length
        invariant arr.Length == length == |iterable|
        invariant i == Pow2(k)
        invariant PassesDone(arr[..], iterable, k)
        decreases length - i
      {
        ghost var a0 := arr[..];
        LayoutPass(arr, binaryOp, i, k);
        PassStep(a0, iterable, k);
        i := 2 * i;
        k := k + 1;
      }
      PassesEnd(arr[..], iterable, k);
      r := arr[..];
    }

    /** One pass of `bit_layout`, for block size `i == 2^k`. */
    static method LayoutPass(arr: array<int>, binaryOp: BinaryOp, i: nat, ghost k: nat)
      requires IsAddition(binaryOp) && i == Pow2(k)
      modifies arr
      ensures arr[..] == PassResult(old(arr[..]), k)
    {
      ghost var a0 := arr[..];
      var length := arr.Length;
      var j := 2 * i - 1;
      PassPartialStart(a0, k);
      while j < length
        invariant TrailingZeros(j + 1) > k
        invariant arr[..] == PassPartial(a0, k, j)
        decreases length - j
      {
        j := PassWrite(arr, binaryOp, i, k, j, a0);
      }
      PassPartialEnd(a0, k, j);
    }

    /** The body of the pass loop: `arr[j] = binop(arr[j], arr[j - i])`, then on to `j + 2 * i`. */
    static method PassWrite(arr: array<int>, binaryOp: BinaryOp, i: nat, ghost k: nat, j: nat, ghost a0: seq<int>)
      returns (next: nat)
      requires IsAddition(binaryOp) && i == Pow2(k) && j < arr.Length
      requires TrailingZeros(j + 1) > k && arr[..] == PassPartial(a0, k, j)
      modifies arr
      ensures next == j + 2 * i && TrailingZeros(next + 1) > k
      ensures arr[..] == PassPartial(a0, k, next)
    {
      ghost var cur := arr[..];
      BlockWithinLowbit(j + 1, k);
      var x, y := arr[j], arr[j - i];
      assert x == cur[j] && y == cur[j - i];
      AdditionCall(binaryOp, x, y);
      var v := Call(binaryOp, x, y);
      next := j + 2 * i;
      PassPartialStep(cur, a0, k, j, v, next);
      arr[j] := v;
    }

    /** `_follow_left(index, stop)`: the slots reached by `index |= index + 1` below `stop`. */
    static method FollowLeft(index: nat, stop: nat) returns (r: seq<nat>)
      ensures forall t {:trigger r[t]} :: 0 <= t < |r| ==> index <= r[t] < stop && Covers(r[t] + 1, index + 1)
      ensures forall x: nat {:trigger x in r} :: index <= x < stop && Covers(x + 1, index + 1) ==> x in r
      ensures forall t, u :: 0 <= t < u < |r| ==> r[t] < r[u]
    {
      r := [];
      var i := index;
      while i < stop
        invariant i >= index && Covers(i + 1, index + 1)
        invariant forall t {:trigger r[t]} :: 0 <= t < |r| ==> index <= r[t] < i && r[t] < stop
        invariant forall t {:trigger r[t]} :: 0 <= t < |r| ==> Covers(r[t] + 1, index + 1)
        invariant forall x: nat {:trigger x in r} :: index <= x < i && x < stop && Covers(x + 1, index + 1) ==> x in r
        invariant forall t, u :: 0 <= t < u < |r| ==> r[t] < r[u]
        decreases stop - i
      {
        var c := i + 1;
        var next := i + Lowbit(c);
        WalkUpStep(c, index + 1);
        assert c + Lowbit(c) == next + 1;
        r := r + [i];
        i := next;
      }
    }

    /** `_follow_right(index, stop)`: the values reached by `index &= index - 1` above `stop`. */
    static method FollowRight(index: nat, stop: nat) returns (r: seq<nat>)
      ensures forall t {:trigger r[t]} :: 0 <= t < |r| ==> stop < r[t] <= index
      ensures |r| == 0 <==> index <= stop
      ensures |r| > 0 ==> r[0] == index && r[|r| - 1] - Lowbit(r[|r| - 1]) <= stop
      ensures forall t, u {:trigger r[t], r[u]} :: 0 <= t && u == t + 1 < |r| ==> r[u] == r[t] - Lowbit(r[t])
    {
      r := [];
      var i := index;
      while i > stop
        invariant i <= index
        invariant forall t {:trigger r[t]} :: 0 <= t < |r| ==> stop < r[t] <= index
        invariant |r| == 0 ==> i == index
        invariant |r| > 0 ==> r[0] == index && i == r[|r| - 1] - Lowbit(r[|r| - 1])
        invariant forall t, u {:trigger r[t], r[u]} :: 0 <= t && u == t + 1 < |r| ==> r[u] == r[t] - Lowbit(r[t])
        decreases i
      {
        r := r + [i];
        i := i - Lowbit(i);
      }
    }

    /**
     * `_powers_of_two(index)`: one power of two per trailing zero bit,
     * `1, 2, 4, ...`; it would loop forever on 0.
     */
    static method PowersOfTwo(index: nat) returns (r: seq<nat>)
      requires index > 0
      ensures |r| == TrailingZeros(index)
      ensures forall t {:trigger r[t]} :: 0 <= t < |r| ==> r[t] == Pow2(t)
      ensures Sum(r, 0, |r|) == Lowbit(index) - 1
    {
      r := [];
      var n, start := index, 2;
      while n % 2 == 0
        invariant n > 0 && |r| + TrailingZeros(n) == TrailingZeros(index)
        invariant start == 2 * Pow2(|r|)
        invariant forall t {:trigger r[t]} :: 0 <= t < |r| ==> r[t] == Pow2(t)
        decreases n
      {
        var half := n / 2;
        assert half > 0 && TrailingZeros(n) == 1 + TrailingZeros(half);
        var p := start / 2;
        assert p == Pow2(|r|);
        r := r + [p];
        assert Pow2(|r|) == 2 * p;
        start := start * 2;
        n := half;
      }
      PowersSum(r, |r|);
      LowbitIsPow2(index);
    }

    /**
     * `B[index]` as written: the sum of the original values up to and
     * including `index`.  An index still negative after adding the length
     * is not rejected: `_st[index - 1]` then counts from the end of the
     * storage, `_follow_right` yields nothing, and the raw slot comes back.
     */
    method GetItem(index: int) returns (r: Result<int>)
      requires Valid()
      ensures var n := |orig|; var k := Normalize(index, n);
        if k >= n || n == 0 then r == Err(IndexError)
        else if k < 0 then (if k + n < 0 then r == Err(IndexError) else r == Ok(Layout(orig)[k + n]))
        else r == Ok(Sum(orig, 0, k + 1))
    {
      var length := |st|;
      var idx := Normalize(index, length);
      if idx >= length || length == 0 {
        return Err(IndexError);
      }
      if idx < 0 {
        if idx + length < 0 {
          return Err(IndexError);
        }
        return Ok(st[idx + length]);
      }
      var acc := PrefixAlong(st, idx);
      return Ok(acc);
    }

    /** For `BIT([1, 2])`, `B[-3]` is the slot `_st[-1] == 3` instead of an `IndexError`. */
    static lemma GetItemBelowRange()
      ensures var k := Normalize(-3, 2); k < 0 && 0 <= k + 2 && Layout([1, 2])[k + 2] == 3
    {
      assert Lowbit(2) == 2;
      LayoutSlot([1, 2], 2);
    }

    /**
     * `B[index]` as documented: an index outside `-len(B) .. len(B) - 1`
     * raises `IndexError`, and any other gives the prefix sum.
     */
    method GetItemChecked(index: int) returns (r: Result<int>)
      requires Valid()
      ensures var k := Normalize(index, |orig|);
        if 0 <= k < |orig| then r == Ok(Sum(orig, 0, k + 1)) else r == Err(IndexError)
    {
      if Normalize(index, |st|) < 0 {
        return Err(IndexError);
      }
      r := GetItem(index);
    }

    /**
     * The walk of `__getitem__` from 1-based slot `k + 1` down through
     * `_follow_right`, adding up the slots of `a`, which holds the layout.
     */
    method PrefixAlong(a: seq<int>, k: nat) returns (acc: int)
      requires IsAddition(binop) && |orig| == |a| && k < |a|
      requires forall x :: 0 <= x < |a| ==> a[x] == Layout(orig)[x]
      ensures acc == Sum(orig, 0, k + 1)
    {
      var idx := k + 1;
      acc := a[idx - 1];
      LayoutSlot(orig, idx);
      idx := idx - Lowbit(idx);
      var walk := FollowRight(idx, 0);
      ghost var lo: nat := idx;
      for t := 0 to |walk|
        invariant lo == (if t < |walk| then walk[t] else 0)
        invariant lo <= k + 1
        invariant acc == Sum(orig, lo, k + 1)
      {
        var c := walk[t];
        var slot := a[c - 1];
        PrefixAdvance(orig, c, k + 1, acc, slot);
        AdditionCall(binop, acc, slot);
        acc := Call(binop, acc, slot);
        lo := c - Lowbit(c);
        assert t + 1 < |walk| ==> walk[t + 1] == lo;
      }
    }

    /**
     * The loop over `_powers_of_two(i)` shared by `__setitem__`,
     * `original_layout` and `pop`: takes the blocks `1, 2, 4, ...` below
     * 1-based slot `i` off the value laid out there, recovering the original
     * value.  `a` holds the layout up to slot `i`.  Fails at the first step
     * when the operator has no inverse.
     */
    method PeelSlot(a: seq<int>, i: nat) returns (r: Result<int>)
      requires InvertsAddition(binop) && 0 < i <= |a| && i % 2 == 0
      requires |orig| == |a| && forall x :: 0 <= x < i ==> a[x] == Layout(orig)[x]
      ensures if binop.inverseOp.None? then r == Err(TypeError) else r == Ok(orig[i - 1])
    {
      var steps := PowersOfTwo(i);
      PeelStart(orig, i);
      var cur := a[i - 1];
      for t := 0 to |steps|
        invariant Pow2(t) <= Lowbit(i)
        invariant binop.inverseOp.None? ==> t == 0
        invariant cur == Sum(orig, i - Lowbit(i), i - Pow2(t)) + orig[i - 1]
      {
        BlockWithinLowbit(i, t);
        var below := a[i - 1 - steps[t]];
        var d := Inverse(binop, cur, below);
        if d.Err? {
          return Err(TypeError);
        }
        SubtractionInverse(binop, cur, below);
        PeelAdvance(orig, i, t, cur, below);
        cur := d.value;
      }
      LowbitIsPow2(i);
      return Ok(cur);
    }

    /**
     * The original value at `idx`, as `__setitem__` recovers it: the stored
     * slot, minus the lower blocks when `idx` is odd.
     */
    method OriginalAt(idx: nat) returns (r: Result<int>)
      requires Valid() && idx < |st|
      ensures if idx % 2 == 1 && binop.inverseOp.None? then r == Err(TypeError) else r == Ok(orig[idx])
    {
      if idx % 2 == 1 {
        r := PeelSlot(st, idx + 1);
      } else {
        LayoutAtEven(orig, idx);
        r := Ok(st[idx]);
      }
    }

    /** `B[index] = value`: replaces the original value at `index`. */
    method SetItem(index: int, value: int) returns (r: Outcome)
      requires Valid() && (|st| == 0 || -|st| <= index)
      modifies this
      ensures Valid()
      ensures var k := Normalize(index, |old(orig)|);
        if k >= |old(orig)| || |old(orig)| == 0 then r == Fail(IndexError) && orig == old(orig)
        else if binop.inverseOp.None? then r == Fail(TypeError) && orig == old(orig)
        else r == Pass && orig == old(orig)[k := value]
    {
      var length := |st|;
      var idx := Normalize(index, length);
      if idx >= length || length == 0 {
        return Fail(IndexError);
      }
      var found := OriginalAt(idx);
      if found.Err? {
        return Fail(TypeError);
      }
      r := ReplaceAlong(idx, found.value, value);
    }

    /**
     * The second loop of `__setitem__`: every slot covering `idx` takes off
     * the old value `prior` and takes in `value`.
     */
    method ReplaceAlong(idx: nat, prior: int, value: int) returns (r: Outcome)
      requires Valid() && idx < |st| && prior == orig[idx]
      modifies this
      ensures Valid()
      ensures if binop.inverseOp.None? then r == Fail(TypeError) && orig == old(orig)
              else r == Pass && orig == old(orig)[idx := value]
    {
      var length := |st|;
      var walk := FollowLeft(idx, length);
      assert idx in walk;
      ghost var st0 := st;
      for t := 0 to |walk|
        invariant |st| == length && orig == old(orig)
        invariant binop.inverseOp.None? ==> t == 0
        invariant t == 0 ==> st == st0
        invariant Bumped(st, st0, walk, t, value - prior)
      {
        var j := walk[t];
        var d := Inverse(binop, st[j], prior);
        if d.Err? {
          return Fail(TypeError);
        }
        SubtractionInverse(binop, st[j], prior);
        AdditionCall(binop, d.value, value);
        assert j !in walk[..t];
        BumpedStep(st, st0, walk, t, value - prior, Call(binop, d.value, value));
        st := st[j := d.value];
        st := st[j := Call(binop, st[j], value)];
      }
      BumpedDone(st, orig, walk, idx, value);
      orig := orig[idx := value];
      return Pass;
    }

    /** `B.update(index, value)`: adds `value` to the original value at `index`. */
    method Update(index: int, value: int) returns (r: Outcome)
      requires Valid() && (|st| == 0 || -|st| <= index)
      modifies this
      ensures Valid()
      ensures var k := Normalize(index, |old(orig)|);
        if k >= |old(orig)| || |old(orig)| == 0 then r == Fail(IndexError) && orig == old(orig)
        else r == Pass && orig == old(orig)[k := old(orig)[k] + value]
    {
      var length := |st|;
      var idx := Normalize(index, length);
      if idx >= length || length == 0 {
        return Fail(IndexError);
      }
      var walk := FollowLeft(idx, length);
      ghost var st0 := st;
      for t := 0 to |walk|
        invariant |st| == length && orig == old(orig)
        invariant Bumped(st, st0, walk, t, value)
      {
        var j := walk[t];
        AdditionCall(binop, st[j], value);
        WalkFresh(walk, t);
        BumpedStep(st, st0, walk, t, value, Call(binop, st[j], value));
        st := st[j := Call(binop, st[j], value)];
      }
      BumpedDone(st, orig, walk, idx, orig[idx] + value);
      orig := orig[idx := orig[idx] + value];
      return Pass;
    }

    /** `B.append(value)`: gathers the lower blocks when the new slot is even. */
    method Append(value: int)
      requires Valid()
      modifies this
      ensures Valid()
      ensures orig == old(orig) + [value]
      ensures |st| == |old(st)| + 1 && st[..|old(st)|] == old(st)
      ensures |old(st)| % 2 == 0 ==> st[|old(st)|] == value
    {
      var v := value;
      if |st| % 2 == 1 {
        v := GatherSlot(st, value);
      } else {
        AppendEven(orig, value);
      }
      AppendLayout(orig, value, v);
      st := st + [v];
      orig := orig + [value];
    }

    /**
     * The loop of `append` when the new 1-based slot `|a| + 1` is even:
     * gathers the lower blocks `1, 2, 4, ...` into the new value.  `a` holds
     * the layout of the current values.
     */
    method GatherSlot(a: seq<int>, value: int) returns (v: int)
      requires IsAddition(binop) && |a| == |orig| && |a| % 2 == 1
      requires forall x :: 0 <= x < |a| ==> a[x] == Layout(orig)[x]
      ensures v == Sum(orig + [value], BlockStart(|orig|), |orig| + 1)
    {
      var length := |a|;
      var n := length + 1;
      var steps := PowersOfTwo(n);
      v := value;
      for t := 0 to |steps|
        invariant Pow2(t) <= Lowbit(n)
        invariant v == value + Sum(orig, n - Pow2(t), length)
      {
        BlockWithinLowbit(n, t);
        var below := a[length - steps[t]];
        AdditionCall(binop, v, below);
        GatherAdvance(orig, n, t, v, value, below);
        v := Call(binop, v, below);
      }
      LowbitIsPow2(n);
      GatherEnd(orig, value, v);
    }

    /** `B.extend(iterable)` for a list: appends every value in turn. */
    method Extend(iterable: seq<int>)
      requires Valid()
      modifies this
      ensures Valid() && orig == old(orig) + iterable
    {
      for t := 0 to |iterable|
        invariant Valid() && orig == old(orig) + iterable[..t]
      {
        assert iterable[..t + 1] == iterable[..t] + [iterable[t]];
        Append(iterable[t]);
      }
      assert iterable[..|iterable|] == iterable;
    }

    /**
     * `B.extend(other)` for another tree: the values appended are those of
     * `self.original_layout()`, not of `other`.
     */
    method ExtendFromTree(other: BIT) returns (r: Outcome)
      requires Valid()
      modifies this
      ensures Valid()
      ensures if binop.inverseOp.None? && |old(orig)| >= 2 then r == Fail(TypeError) && orig == old(orig)
              else r == Pass && orig == old(orig) + old(orig)
    {
      var arr := OriginalLayout();
      if arr.Err? {
        return Fail(arr.error);
      }
      Extend(arr.value);
      return Pass;
    }

    /** `B += iterable` for a list. */
    method IAdd(iterable: seq<int>)
      requires Valid()
      modifies this
      ensures Valid() && orig == old(orig) + iterable
    {
      Extend(iterable);
    }

    /** `B += other` for another tree: `extend` takes its tree branch. */
    method IAddTree(other: BIT) returns (r: Outcome)
      requires Valid()
      modifies this
      ensures Valid()
      ensures if binop.inverseOp.None? && |old(orig)| >= 2 then r == Fail(TypeError) && orig == old(orig)
              else r == Pass && orig == old(orig) + old(orig)
    {
      r := ExtendFromTree(other);
    }

    /**
     * `original_layout`: undoes the layout from the largest even slot down,
     * each even slot taking off the blocks `1, 2, 4, ...` below it, which
     * are still laid out when it is reached.
     */
    method OriginalLayout() returns (r: Result<seq<int>>)
      requires Valid()
      ensures if binop.inverseOp.None? && |orig| >= 2 then r == Err(TypeError) else r == Ok(orig)
    {
      var length := |st|;
      if length % 2 == 1 {
        length := length - 1;
      }
      var stored := st;
      var arr := new int[|stored|](x requires 0 <= x < |stored| => stored[x]);
      assert arr[..] == st;
      PeeledStart(orig, length);
      var i := length;
      while i > 0
        invariant 0 <= i <= length <= arr.Length && i % 2 == 0
        invariant binop.inverseOp.None? ==> i == length
        invariant PeeledAbove(arr[..], orig, i)
        decreases i
      {
        PeeledBelow(arr[..], orig, i);
        var peeled := PeelSlot(arr[..], i);
        if peeled.Err? {
          return Err(TypeError);
        }
        ghost var before := arr[..];
        arr[i - 1] := peeled.value;
        PeeledNext(before, orig, i, arr[..]);
        i := i - 2;
      }
      PeeledAll(arr[..], orig);
      return Ok(arr[..]);
    }

    /** `B.insert(index, value)`: rebuilds from the original values, with `Add`. */
    method Insert(index: int, value: int) returns (r: Outcome)
      requires Valid()
      modifies this
      ensures Valid()
      ensures var k := InsertPosition(index, |old(orig)|);
        if binop.inverseOp.None? && |old(orig)| >= 2 then r == Fail(TypeError) && orig == old(orig)
        else r == Pass && orig == old(orig)[..k] + [value] + old(orig)[k..]
    {
      var arr := OriginalLayout();
      if arr.Err? {
        return Fail(arr.error);
      }
      var k := InsertPosition(index, |arr.value|);
      var xs := arr.value[..k] + [value] + arr.value[k..];
      AddIsAddition();
      st := BitLayout(xs, Add);
      orig := xs;
      return Pass;
    }

    /**
     * `B.pop(index)`: removing the last element pops the raw slot, which is
     * returned as it is stored; any other index rebuilds from the original
     * values without the removed one.
     */
    method Pop(index: int) returns (r: Result<int>)
      requires Valid()
      modifies this
      ensures Valid()
      ensures var n := |old(orig)|; var k := Normalize(index, n); var p := Normalize(k, n);
        if k == n - 1 then
          (if n == 0 then r == Err(IndexError) && orig == old(orig)
           else r == Ok(old(st)[n - 1]) && orig == old(orig)[..n - 1] && st == old(st)[..n - 1])
        else if binop.inverseOp.None? && n >= 2 then r == Err(TypeError) && orig == old(orig)
        else if !(0 <= p < n) then r == Err(IndexError) && orig == old(orig)
        else r == Ok(old(orig)[p]) && orig == old(orig)[..p] + old(orig)[p + 1..]
    {
      var length := |st|;
      var idx := Normalize(index, length);
      if idx == length - 1 {
        if length == 0 {
          return Err(IndexError);
        }
        var v := st[length - 1];
        DropLast();
        return Ok(v);
      }
      var arr := OriginalLayout();
      if arr.Err? {
        return Err(arr.error);
      }
      var xs := arr.value;
      var pos := Normalize(idx, |xs|);
      if !(0 <= pos < |xs|) {
        return Err(IndexError);
      }
      var v := xs[pos];
      var ys := xs[..pos] + xs[pos + 1..];
      st := BitLayout(ys, binop);
      orig := ys;
      return Ok(v);
    }

    /** `self._st.pop()`: the layout of all but the last value is the storage without its last slot. */
    method DropLast()
      requires Valid() && |st| > 0
      modifies this
      ensures Valid()
      ensures orig == old(orig)[..|old(orig)| - 1] && st == old(st)[..|old(st)| - 1]
    {
      var n := |st|;
      assert orig == orig[..n - 1] + [orig[n - 1]];
      LayoutSnoc(orig[..n - 1], orig[n - 1]);
      st := st[..n - 1];
      orig := orig[..n - 1];
    }

    /**
     * `pop` as evidently intended: the last element's original value is
     * recovered by peeling the lower blocks off its slot before it is
     * dropped; the other indices behave as in `Pop`.
     */
    method PopPeeled(index: int) returns (r: Result<int>)
      requires Valid()
      modifies this
      ensures Valid()
      ensures var n := |old(orig)|; var k := Normalize(index, n); var p := Normalize(k, n);
        if k == n - 1 then
          (if n == 0 then r == Err(IndexError) && orig == old(orig)
           else if n % 2 == 0 && binop.inverseOp.None? then r == Err(TypeError) && orig == old(orig)
           else r == Ok(old(orig)[n - 1]) && orig == old(orig)[..n - 1])
        else if binop.inverseOp.None? && n >= 2 then r == Err(TypeError) && orig == old(orig)
        else if !(0 <= p < n) then r == Err(IndexError) && orig == old(orig)
        else r == Ok(old(orig)[p]) && orig == old(orig)[..p] + old(orig)[p + 1..]
    {
      var length := |st|;
      var idx := Normalize(index, length);
      if idx == length - 1 {
        if length == 0 {
          return Err(IndexError);
        }
        var v := OriginalAt(length - 1);
        if v.Err? {
          return v;
        }
        DropLast();
        return v;
      }
      r := Pop(index);
    }

    /**
     * What `pop()` returns for the last element is its raw slot, which is
     * the element itself exactly when the values below it in its block sum
     * to zero.
     */
    static lemma PopLastSlot(xs: seq<int>)
      requires |xs| > 0
      ensures Layout(xs)[|xs| - 1] == xs[|xs| - 1] <==> Sum(xs, |xs| - Lowbit(|xs|), |xs| - 1) == 0
    {
      var n := |xs|;
      LayoutSlot(xs, n);
      SumSplit(xs, n - Lowbit(n), n - 1, n);
    }

    /** `BIT([1, 2]).pop()` returns the slot value 3 rather than the element 2. */
    static lemma PopLastExample()
      ensures var xs := [1, 2]; Layout(xs)[1] == 3 && xs[1] == 2
    {
      assert Lowbit(2) == 2;
      LayoutSlot([1, 2], 2);
    }

    /** `del B[index]`: `pop` with the value discarded. */
    method DelItem(index: int) returns (r: Outcome)
      requires Valid()
      modifies this
      ensures Valid()
      ensures var n := |old(orig)|; var k := Normalize(index, n); var p := Normalize(k, n);
        if k == n - 1 then
          (if n == 0 then r == Fail(IndexError) && orig == old(orig)
           else r == Pass && orig == old(orig)[..n - 1])
        else if binop.inverseOp.None? && n >= 2 then r == Fail(TypeError) && orig == old(orig)
        else if !(0 <= p < n) then r == Fail(IndexError) && orig == old(orig)
        else r == Pass && orig == old(orig)[..p] + old(orig)[p + 1..]
    {
      var popped := Pop(index);
      r := if popped.Ok? then Pass else Fail(popped.error);
    }
  }
}
