/** The binary indexed tree of tree_form_array.c. Index 0 of both arrays is unused. */
module Fenwick {
  // n & m on the low `width` bits; Dafny's / and % by 2 floor, as two's complement shifts do.
  function BitAnd(n: int, m: int, width: nat): nat
    decreases width
  {
    if width == 0 then 0
    else (if n % 2 == 1 && m % 2 == 1 then 1 else 0) + 2 * BitAnd(n / 2, m / 2, width - 1)
  }

  // The largest power of two that divides n.
  function LowBit(n: nat): (r: nat)
    requires n > 0
    ensures 1 <= r <= n
  {
    if n % 2 == 1 then 1 else 2 * LowBit(n / 2)
  }

  function Pow2(w: nat): nat {
    if w == 0 then 1 else 2 * Pow2(w - 1)
  }

  lemma {:induction false} AndZero(n: int, width: nat)
    ensures BitAnd(n, -n - 1, width) == 0
    decreases width
  {
    if width > 0 {
      assert (-n - 1) / 2 == -(n / 2) - 1;
      AndZero(n / 2, width - 1);
    }
  }

  // lowbit: n & (-n) is the largest power of two dividing n.
  lemma {:induction false} LowBitIsAnd(n: int, width: nat)
    requires 0 < n < Pow2(width)
    ensures BitAnd(n, -n, width) == LowBit(n)
    decreases width
  {
    if n % 2 == 1 {
      assert (-n) / 2 == -(n / 2) - 1;
      AndZero(n / 2, width - 1);
    } else {
      assert (-n) / 2 == -(n / 2);
      LowBitIsAnd(n / 2, width - 1);
    }
  }

  // ---- Which entries hold which element ----

  // Entry i holds the sum of elements i - lowbit(i) + 1 .. i.
  ghost predicate Holds(i: nat, p: nat) {
    i > 0 && i - LowBit(i) < p <= i
  }

  // The chain p, p + lowbit(p), ... meets exactly the entries that hold p.
  lemma {:induction false} NextHolder(i: nat, p: nat)
    requires p > 0 && p < i
    ensures Holds(i, p) <==> Holds(i, p + LowBit(p))
    decreases p
  {
    if p % 2 == 0 && i % 2 == 0 {
      NextHolder(i / 2, p / 2);
    }
  }

  // ---- Sums ----

  function Sum(s: seq<int>, lo: nat, hi: nat): int
    requires lo <= hi <= |s|
  {
    if lo == hi then 0 else Sum(s, lo, hi - 1) + s[hi - 1]
  }

  lemma {:induction false} SumSplits(s: seq<int>, lo: nat, mid: nat, hi: nat)
    requires lo <= mid <= hi <= |s|
    ensures Sum(s, lo, hi) == Sum(s, lo, mid) + Sum(s, mid, hi)
  {
    if mid < hi {
      SumSplits(s, lo, mid, hi - 1);
    }
  }

  // Changing one element changes the sums of the ranges that contain it.
  lemma {:induction false} SumUpdate(s: seq<int>, p: nat, v: int, lo: nat, hi: nat)
    requires lo <= hi <= |s| && p < |s|
    ensures Sum(s[p := v], lo, hi) == Sum(s, lo, hi) + if lo <= p < hi then v - s[p] else 0
  {
    if lo < hi {
      SumUpdate(s, p, v, lo, hi - 1);
    }
  }

  lemma {:induction false} SumShift(s: seq<int>, t: seq<int>, lo: nat, hi: nat)
    requires lo <= hi <= |s| && |t| == |s| + 1 && t[1..] == s
    ensures Sum(t, lo + 1, hi + 1) == Sum(s, lo, hi)
  {
    if lo < hi {
      SumShift(s, t, lo, hi - 1);
      assert t[hi] == t[1..][hi - 1];
    }
  }

  class NumArray {
    const nums: array<int>
    const sums: array<int>
    const size: nat

    ghost predicate EntryOk(i: nat)
      reads nums, sums
      requires 0 < i < nums.Length && i < sums.Length
    {
      sums[i] == Sum(nums[..], i - LowBit(i) + 1, i + 1)
    }

    ghost predicate Valid()
      reads nums, sums
    {
      && nums != sums && nums.Length == sums.Length == size + 1
      && forall i | 0 < i <= size :: EntryOk(i)
    }

    ghost function Elements(): seq<int>
      reads nums
      requires nums.Length == size + 1
    {
      nums[1..]
    }

    constructor (elements: array<int>)
      ensures Valid() && Elements() == elements[..] && fresh(nums) && fresh(sums)
    {
      var n := elements.Length;
      size := n;
      nums := new int[n + 1];
      sums := new int[n + 1];
      new;
      var i := 0;
      while i < n
        invariant 0 <= i <= n
        invariant forall k | 0 <= k < i :: nums[k + 1] == elements[k]
      {
        nums[i + 1] := elements[i];
        i := i + 1;
      }
      assert nums[1..] == elements[..];
      ghost var s := nums[..];
      i := 1;
      while i <= n
        invariant 1 <= i <= n + 1 && nums[..] == s
        invariant forall k | 0 < k < i :: sums[k] == Sum(s, k - LowBit(k) + 1, k + 1)
      {
        FillEntry(i);
        i := i + 1;
      }
    }

    // The inner loop that fills one entry.
    method FillEntry(i: nat)
      requires nums != sums && 0 < i < nums.Length == sums.Length
      modifies sums
      ensures sums[..] == old(sums[..])[i := Sum(nums[..], i - LowBit(i) + 1, i + 1)]
    {
      hide LowBit;
      ghost var s := nums[..];
      sums[i] := nums[i];
      var j := i - 1;
      while j > i - LowBit(i)
        invariant i - LowBit(i) <= j < i && nums[..] == s
        invariant sums[..] == old(sums[..])[i := Sum(s, j + 1, i + 1)]
      {
        sums[i] := sums[i] + nums[j];
        SumSplits(s, j, j + 1, i + 1);
        assert Sum(s, j, j + 1) == s[j];
        j := j - 1;
      }
    }

    method Update(i: nat, val: int)
      requires Valid() && i < size
      modifies nums, sums
      ensures Valid() && Elements() == old(Elements())[i := val]
    {
      hide LowBit, Sum;
      ghost var was, had := nums[..], sums[..];
      forall k | 0 < k <= size ensures had[k] == Sum(was, k - LowBit(k) + 1, k + 1) {
        assert EntryOk(k);
      }
      var p := i + 1;
      var diff := val - nums[p];
      nums[p] := val;
      assert nums[..] == was[p := val];
      var j := p;
      while j <= size
        invariant p <= j && nums[..] == was[p := val]
        invariant forall k | 0 < k <= size :: sums[k] == had[k] + if Holds(k, p) && k < j then diff else 0
        invariant forall k | j <= k <= size :: Holds(k, p) <==> Holds(k, j)
      {
        ghost var next := j + LowBit(j);
        forall k | next <= k <= size ensures Holds(k, p) <==> Holds(k, next) {
          NextHolder(k, j);
        }
        forall k | j < k < next && k <= size ensures !Holds(k, p) {
          NextHolder(k, j);
        }
        sums[j] := sums[j] + diff;
        j := j + LowBit(j);
      }
      forall k | 0 < k <= size ensures EntryOk(k) {
        SumUpdate(was, p, val, k - LowBit(k) + 1, k + 1);
      }
    }

    // Both loops of sumRange: the sum of elements 1..j.
    method Prefix(j: nat) returns (sum: int)
      requires Valid() && j <= size
      ensures sum == Sum(nums[..], 1, j + 1)
    {
      sum := 0;
      var k := j;
      while k >= 1
        invariant 0 <= k <= j
        invariant sum + Sum(nums[..], 1, k + 1) == Sum(nums[..], 1, j + 1)
      {
        assert EntryOk(k);
        sum := sum + sums[k];
        SumSplits(nums[..], 1, k - LowBit(k) + 1, k + 1);
        k := k - LowBit(k);
      }
    }

    method SumRange(i: nat, j: nat) returns (ans: int)
      requires Valid() && i < size && j < size
      ensures i <= j ==> ans == Sum(Elements(), i, j + 1)
      ensures ans == Sum(Elements(), 0, j + 1) - Sum(Elements(), 0, i)
    {
      var sum1 := Prefix(j + 1);
      var sum2 := Prefix(i + 1);
      ans := sum1 - sum2 + nums[i + 1];
      SumShift(Elements(), nums[..], 0, j + 1);
      SumShift(Elements(), nums[..], 0, i);
      if i <= j {
        SumSplits(Elements(), 0, i, j + 1);
      }
    }
  }
}
