# Fenwick tree (Binary Indexed Tree) in Dafny

This project models the Python package `bit`. The package provides a
Fenwick tree, also called a Binary Indexed Tree: a list `_st` in which
1-based slot `i` holds the combination of the original values at
1-based positions `i - lowbit(i) + 1 .. i`. The model covers three
parts.

- The newer class `BIT` of `bit/bit.py`, in module `FenwickTree`.
- The older class `BIT` of the top-level `bit.py`, in module
  `LegacyBit`. Its prefix query is exclusive, `sub` is written in as
  its inverse, and its `__delitem__` does nothing.
- The operator wrapper `BinaryOP` of `bit/binaryops.py`, in module
  `BinaryOps`, with its `TypeError` when no inverse was given.

How it is modelled:

- **The operator.** It is integer addition, and the inverse, when one
  is present, is subtraction. Both tree classes require this of their
  operator; the predicates are `BinaryOps.IsAddition`,
  `BinaryOps.InvertsAddition` and `LegacyBit.Adds`.
- **The reference layout.** `Fenwick.Layout` defines the layout by the
  invariant itself, and `Fenwick.Sum` is the left-to-right sum of a run.
- **The tree state.** Each class has a ghost field `orig` holding the
  original values and a predicate `Valid()`, which says `st ==
  Layout(orig)`. Every operation keeps `Valid()` and states its effect
  on `orig`, including every error path: `IndexError` and `TypeError`
  are returned as `Err`/`Fail` values.
- **Bit arithmetic.** `&`, `|` and `>>` on indices become recursive
  functions in module `Bits`:
  - `i & (i - 1)` is `i - Lowbit(i)`;
  - for a 0-based `j`, `j | (j + 1)` is `j + Lowbit(j + 1)`.
- **In-place loops stay in place.** The layout passes of `bit_layout`
  and the descending peel of `original_layout` mutate an `array<int>`.
- **The tree's list is a field.** `_st` is a `seq<int>` field that the
  methods reassign.
- **Generators.** `_follow_left`, `_follow_right` and `_powers_of_two`
  are methods that return the sequence of values they would yield.

Where the code and the package's own description of its behaviour
disagree, the model follows the code:

- `original_layout` without an inverse raises only when it reaches a
  peeling step, that is, at length 2 or more.
- `extend` given a tree appends the receiver's own values.
- `insert` rebuilds with `Add`.
- An index below `-len` is not rejected by `__getitem__`; this is
  listed under Findings.
- `pop()` of the last element returns the raw slot; this is listed
  under Findings.

## Model

| member | source | states |
|---|---|---|
| BinaryOps.Inverse | bit/binaryops.py:28-33 | `inverse` fails exactly when no inverse was given, always with `TypeError`; otherwise it returns the inverse applied to the arguments |
| BinaryOps.MissingInverseRaises | bit/binaryops.py:33 | without an inverse, every call of `inverse` raises `TypeError`, whatever its arguments |
| BinaryOps.Call | bit/binaryops.py:24-26 | `__call__` applies the wrapped operator; on an operator that adds it returns `a + b` |
| BinaryOps.AdditionCall | bit/binaryops.py:24-26 | `__call__` on an operator that adds returns `a + b` |
| BinaryOps.SubtractionInverse | bit/binaryops.py:30-32 | an inverse that undoes addition makes `inverse(a, b)` return `a - b` |
| BinaryOps.AddIsAddition | bit/binaryops.py:37 | `Add` pairs addition with subtraction, and its inverse is present |
| BinaryOps.AddInverseUndoes | bit/binaryops.py:37 | `Add.inverse(Add(a, b), b) == a` for every pair of integers |
| Bits.WalkUpStep | bit/bit.py:246-248 | the upward step of `_follow_left`, which sets the lowest zero bit, leads from a slot covering a position to the next slot covering it and skips no covering slot |
| Fenwick.LayoutExampleShort | tests/test_bit_nums_add.py:34 | `[1, 2, 5]` is laid out as `[1, 3, 5]` |
| Fenwick.LayoutExampleFive | bit/bit.py:230-238 | the passes of `bit_layout` turn `[1, 2, 3, 4, 5]` into `[1, 3, 3, 10, 5]` |
| Fenwick.LayoutAtEven | bit/bit.py:98-102 | a slot at an even 0-based index holds its original value unchanged, which is why only odd indices are peeled |
| Fenwick.LayoutSnoc | bit/bit.py:121-134 | appending a value keeps every earlier slot of the layout and adds one slot, holding the run that ends at the new value |
| Fenwick.LayoutReplace | bit/bit.py:104-107 | replacing original `k` by `w` changes exactly the slots that cover `k`, each by `w - orig[k]` |
| Fenwick.PassesEnd | bit/bit.py:232-238 | once the block size passes the length, the array of the passes is the layout |
| FenwickTree.Normalize | bit/bit.py:67 | the index normalisation of `__getitem__`, `__setitem__`, `update` and `pop` (also lines 93, 114 and 157): exactly the indices `-len .. len - 1` land in `0 .. len - 1`, and the result is congruent to the index modulo `len` |
| FenwickTree.InsertPosition | bit/bit.py:143 | where `list.insert` puts the value: a negative index counts from the end, and an index out of range is clamped to the nearer end |
| FenwickTree.BIT.constructor | bit/bit.py:36-47 | the new tree holds the given values in layout, with the given operator |
| FenwickTree.BIT.Length | bit/bit.py:55-58 | `len(B)` is the number of original values |
| FenwickTree.BIT.BitLayout | bit/bit.py:221-238 | `bit_layout` returns the Fenwick layout of its input, whose length is that of the input |
| FenwickTree.BIT.LayoutPass | bit/bit.py:232-236 | one pass for block size `i == 2^k` combines into every slot `j` with `j + 1` a multiple of `2i` the slot `i` below it, and changes no other slot |
| FenwickTree.BIT.PassWrite | bit/bit.py:235-236 | one write of a pass, `arr[j] = binop(arr[j], arr[j - i])` followed by `j += 2 * i`, moves the array from the pass's state before slot `j` to its state before slot `j + 2i` |
| FenwickTree.BIT.FollowLeft | bit/bit.py:243-248 | `_follow_left(index, stop)` yields, in increasing order, exactly the slots below `stop`, from `index` on, that cover `index` |
| FenwickTree.BIT.FollowRight | bit/bit.py:250-255 | `_follow_right(index, stop)` starts at `index`, clears the lowest set bit at each step, stays above `stop`, and yields nothing when `index <= stop` |
| FenwickTree.BIT.PowersOfTwo | bit/bit.py:257-265 | `_powers_of_two(n)` yields `1, 2, 4, ...`, one value per trailing zero bit of `n`, and the values sum to `lowbit(n) - 1` |
| FenwickTree.BIT.GetItem | bit/bit.py:60-80 | `B[k]`, with `len` added to a negative `k`: `IndexError` when the index is at least `len` or the tree is empty; the sum of originals `0..k` inclusive otherwise; a still-negative index returns the raw slot it reaches from the end, or raises `IndexError` past it |
| FenwickTree.BIT.GetItemBelowRange | bit/bit.py:66-69 | for `BIT([1, 2])`, `B[-3]` reaches the slot holding 3 instead of raising |
| FenwickTree.BIT.GetItemChecked | bit/bit.py:60-63 | `B[k]` as documented: `IndexError` unless `-len <= k < len`, and otherwise the inclusive prefix sum |
| FenwickTree.BIT.PrefixAlong | bit/bit.py:71-80 | the walk down `_follow_right` from slot `k + 1` adds up to the sum of originals `0..k` |
| FenwickTree.BIT.PeelSlot | bit/bit.py:216-218 | taking the blocks `_powers_of_two(i)` off even slot `i` gives original `i - 1`; without an inverse the first step raises `TypeError` |
| FenwickTree.BIT.OriginalAt | bit/bit.py:96-102 | the old value `__setitem__` recovers is the original at `index`; without an inverse an odd index raises `TypeError` |
| FenwickTree.BIT.SetItem | bit/bit.py:84-107 | `B[k] = v`: `IndexError` on an index at least `len` or on an empty tree, `TypeError` without an inverse, otherwise original `k` becomes `v` and every other original is kept |
| FenwickTree.BIT.ReplaceAlong | bit/bit.py:104-107 | the walk up `_follow_left` subtracts the old value from and adds the new one to every covering slot, which replaces original `k`; without an inverse it raises at the first slot, before any write |
| FenwickTree.BIT.Update | bit/bit.py:109-119 | `update(k, v)`: `IndexError` on an index at least `len` or on an empty tree, otherwise only original `k` changes, to `orig[k] + v` |
| FenwickTree.BIT.Append | bit/bit.py:121-134 | `append(v)` appends `v` to the originals, keeps every existing slot, adds one slot, and appends `v` verbatim when the old length is even |
| FenwickTree.BIT.GatherSlot | bit/bit.py:127-133 | combining `v` with the slots `length - step` for `_powers_of_two(length + 1)` gives the new slot of the layout of `orig + [v]` |
| FenwickTree.BIT.Extend | bit/bit.py:184-191 | `extend(list)` appends the list's values in order |
| FenwickTree.BIT.ExtendFromTree | bit/bit.py:184-191 | `extend(tree)` appends the receiver's own original values, not the argument's; it raises `TypeError` without an inverse at length 2 or more |
| FenwickTree.BIT.IAdd | bit/bit.py:178-182 | `B += list` appends the list's values in order |
| FenwickTree.BIT.IAddTree | bit/bit.py:178-189 | `B += other` for a tree appends the receiver's own original values, as `extend` does; it raises `TypeError` without an inverse at length 2 or more |
| FenwickTree.BIT.OriginalLayout | bit/bit.py:199-219 | `original_layout` returns exactly the original values; without an inverse it raises `TypeError` once the length is 2 or more |
| FenwickTree.BIT.Insert | bit/bit.py:137-144 | `insert(i, v)` places `v` where `list.insert` would and rebuilds the layout with `Add`; it raises `TypeError` without an inverse at length 2 or more |
| FenwickTree.BIT.Pop | bit/bit.py:153-168 | `pop(i)`: at the last index it drops the last slot and returns that raw slot; at any other index it raises `IndexError` out of range, or `TypeError` without an inverse, and otherwise removes original `i` and returns it |
| FenwickTree.BIT.DropLast | bit/bit.py:158-160 | dropping the last slot leaves the layout of all but the last original value |
| FenwickTree.BIT.PopLastSlot | bit/bit.py:158-160 | the raw last slot equals the last original exactly when the values below it in its block sum to zero |
| FenwickTree.BIT.PopLastExample | bit/bit.py:158-160 | the last slot of `[1, 2]` is 3, while the last value is 2 |
| FenwickTree.BIT.PopPeeled | bit/bit.py:153-168 | `pop` returning the original value at the last index too: it peels an even last slot, which needs the inverse |
| FenwickTree.BIT.DelItem | bit/bit.py:147-151 | `del B[i]` has the effect and the errors of `pop(i)`, without the value |
| LegacyBit.AddsOperatorAdd | bit.py:35 | the default operator `add` is integer addition |
| LegacyBit.BIT.constructor | bit.py:35-37 | the new tree holds the given values in layout, with the given operator |
| LegacyBit.BIT.Length | bit.py:94-96 | `len(B)` is the number of original values |
| LegacyBit.BIT.BitLayout | bit.py:166-180 | `bit_layout` returns the Fenwick layout of its input |
| LegacyBit.BIT.GetItem | bit.py:44-62 | `B[k]`: `IndexError` for `k > len`, `0` for `k == 0`, otherwise the sum of the first `k` originals (exclusive prefix); a negative `k` returns the raw slot `_st[k - 1]` reaches from the end, or raises `IndexError` past it |
| LegacyBit.BIT.PeelOdd | bit.py:73-81 | at an odd index, taking slot `index - 1`, then the blocks `2, 4, ...` while `index + 1` is divisible by `4, 8, ...`, off the stored value gives the original value |
| LegacyBit.BIT.PeelOddStep | bit.py:79-81 | one turn of the peeling loop of `__setitem__`, while `index + 1` is divisible by `j`: `j` doubles and the next lower block comes off the value |
| LegacyBit.BIT.SetItem | bit.py:65-88 | `B[k] = v` with `sub`: `IndexError` for `k >= len`, otherwise original `k` becomes `v` and every other original is kept |
| LegacyBit.BIT.ReplaceAlong | bit.py:85-88 | the walk up, setting the lowest zero bit at each step, subtracts the old value from and adds the new one to every covering slot |
| LegacyBit.BIT.DelItem | bit.py:91-92 | `del B[i]` leaves the storage and the originals as they were |
| LegacyBit.BIT.Update | bit.py:98-105 | `update(k, v)`: `IndexError` for `k >= len`, otherwise only original `k` changes, to `orig[k] + v` |
| LegacyBit.BIT.AddAlong | bit.py:103-105 | the walk up, setting the lowest zero bit at each step, adds `v` to every slot covering `k` |
| LegacyBit.BIT.Gather | bit.py:121-130 | `value + st[length - 1]`, then `binop` with the slots `length - 1 - step` while the new length is divisible by `4, 8, ...`, gives the new slot of the layout of `orig + [value]` |
| LegacyBit.BIT.Append | bit.py:107-131 | `append(v)` appends `v` to the originals, keeps every existing slot, adds one slot, and appends `v` verbatim when the old length is even |
| LegacyBit.BIT.PeelEven | bit.py:160-163 | at even slot `i`, subtracting the blocks `1, 2, 4, ...` while `i` is divisible by `2, 4, 8, ...` gives original `i - 1` |
| LegacyBit.BIT.OriginalLayout | bit.py:141-164 | `original_layout`, with `sub` written in, returns exactly the original values, at every length |
| LegacyBit.BIT.Insert | bit.py:133-139 | `insert(i, v)` places `v` where `list.insert` would and rebuilds with `add` |

## Left out

- `__repr__` of both classes: it only renders the storage, which the model exposes as the field `st`.
- `BinaryOP.__repr__`: it renders the names of the operator and its inverse, and functions have no names in the model. It appears only in the message of the `TypeError`.
- The stubs `remove`, `index` and `count`, the `MutableSequence` registration and base class, and the inherited mixin methods are not modelled. They hold no Fenwick logic.
- The operator is first-class (the same `BinaryOp` datatype), but both tree classes are proved only for integer addition with subtraction as the inverse. The package's other operator `Mul` uses floating-point `truediv`, and the tests also use `Decimal`, `Counter` and set operators; none of these is modelled.
- FenwickTree.BIT.SetItem: requires `-len <= index` on a non-empty tree. Below that the index stays negative after normalisation, and the outcome depends on Python's bit operations on negative numbers. The source then does one of three things, none of which is modelled:
  - it raises `IndexError` at `_st[index]` (line 97), or at `_st[index - step]` (line 102), once `_powers_of_two` of a non-positive even number runs its steps past the front of the storage;
  - it raises `TypeError` without an inverse, at line 102 or line 106;
  - it loops forever in `_follow_left`, which never leaves `-1`.
- FenwickTree.BIT.Update: requires `-len <= index` on a non-empty tree. Below that, `_follow_left` writes `_st[index]` and either raises `IndexError` there or loops forever at `-1`.
- LegacyBit.BIT.SetItem: takes a natural-number index. For a negative index the source loops forever in the upward walk, which never leaves `-1`, or it raises `IndexError` at `_st[index]` (line 72), `_st[index - 1]` (line 75) or `_st[index - step]` (line 81). Index `-1` is one case: `(index + 1) % j == 0` holds for every `j`, so the peel runs off the front of the storage. None of these paths is modelled.
- LegacyBit.BIT.Update: takes a natural-number index. For a negative index the source raises `IndexError` at `_st[index]` or loops forever at `-1`, as for the older `__setitem__`.
- FenwickTree.BIT.PowersOfTwo: requires `index > 0`. On `0` the generator never stops, and no caller passes it `0`.
- FenwickTree.BIT.PowersOfTwo: the `start` parameter is not modelled. It always has its default value 2.
- The generators are modelled as methods, so each one is run to completion before its caller's loop starts. Their elements and their order are the same; only the interleaving of yields with the caller's writes is not modelled.
- Both `original_layout` methods write `arr[i - 1]` at every peeling step (bit/bit.py:218, bit.py:163). The model accumulates the peel in a local and writes it once per slot, which gives the same result: a slot being peeled never reads itself.
- Default arguments are not modelled as such. Every call passes them explicitly:
  - `BIT(iterable=None, binary_op=Add)` and the older `BIT(binary_op=add)`;
  - `pop(index=-1)`;
  - `bit_layout(binary_op=Add)`;
  - `_follow_right(stop=0)`.

  A missing iterable is the empty sequence.
- The test modules call a three-argument constructor, `range_sum` and slicing. No shown source implements any of them, so none is modelled.
- The tests expect `original_layout` to raise `TypeError` on a tree built with the default operator. The code's default is `Add`, which has an inverse, so the model returns the original values.

## Findings

| source | as written | input that shows it | evidently intended | confidence | as-written member | corrected member |
|---|---|---|---|---|---|---|
| bit/bit.py:158-160 | `pop()` of the last index returns `self._st.pop()`, the raw aggregated slot | `BIT([1, 2]).pop()` returns 3 (`FenwickTree.BIT.PopLastExample`) | return the removed element, 2, as the docstring says; an even last slot has to be peeled, which needs the inverse | high; not executed | FenwickTree.BIT.Pop | FenwickTree.BIT.PopPeeled |
| bit/bit.py:66-69 | an index still negative after adding `len` passes the bound check | `BIT([1, 2])[-3]` returns slot `_st[-1] == 3` (`FenwickTree.BIT.GetItemBelowRange`) | raise `IndexError`, as the docstring's bounds say | high; not executed | FenwickTree.BIT.GetItem | FenwickTree.BIT.GetItemChecked |

`FenwickTree.BIT.DelItem` keeps the as-written `Pop`. Deleting discards the value, and peeling the last slot would add a `TypeError` that the code does not raise.
