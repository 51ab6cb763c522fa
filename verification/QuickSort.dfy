/** The quicksort of sort/quick_sort.c. Its left call keeps the pivot's position, so it may be
    given the very same range again; it still terminates. */
module QuickSort {
  ghost predicate SortedBetween(s: seq<int>, low: int, high: int)
  {
    forall i, j | 0 <= low <= i < j <= high < |s| :: s[i] <= s[j]
  }

  ghost predicate Below(s: seq<int>, low: int, high: int, v: int) {
    forall i | 0 <= low <= i <= high < |s| :: s[i] <= v
  }

  ghost predicate Above(s: seq<int>, low: int, high: int, v: int) {
    forall i | 0 <= low <= i <= high < |s| :: v <= s[i]
  }

  // t rearranges the entries low..high of s and leaves the others alone.
  ghost predicate Rearranges(s: seq<int>, t: seq<int>, low: int, high: int) {
    && |s| == |t| && 0 <= low && high < |s|
    && multiset(s) == multiset(t)
    && (forall i | 0 <= i < |s| && !(low <= i <= high) :: s[i] == t[i])
  }

  lemma ThreeParts(s: seq<int>, a: int, b: int)
    requires 0 <= a <= b <= |s|
    ensures multiset(s[a..b]) == multiset(s) - (multiset(s[..a]) + multiset(s[b..]))
  {
    assert s == s[..a] + s[a..b] + s[b..];
  }

  // Rearranging a range keeps bounds on it: its entries are the same ones.
  lemma RangeMultiset(s: seq<int>, t: seq<int>, low: int, high: int)
    requires Rearranges(s, t, low, high) && low <= high + 1
    ensures multiset(s[low..high + 1]) == multiset(t[low..high + 1])
  {
    ThreeParts(s, low, high + 1);
    ThreeParts(t, low, high + 1);
    assert s[..low] == t[..low] && s[high + 1..] == t[high + 1..];
  }

  lemma KeepsBounds(s: seq<int>, t: seq<int>, low: int, high: int, v: int)
    requires Rearranges(s, t, low, high) && low <= high + 1
    ensures Below(s, low, high, v) ==> Below(t, low, high, v)
    ensures Above(s, low, high, v) ==> Above(t, low, high, v)
  {
    RangeMultiset(s, t, low, high);
    forall i | low <= i <= high ensures exists j :: low <= j <= high && s[j] == t[i] {
      assert t[i] == t[low..high + 1][i - low];
      assert t[i] in multiset(s[low..high + 1]);
      assert t[i] in s[low..high + 1];
      var k :| 0 <= k < |s[low..high + 1]| && s[low..high + 1][k] == t[i];
      assert s[low + k] == t[i];
    }
  }

  // The hole at k is filled from j, and the hole moves to j.
  lemma MoveHole(s: seq<int>, k: int, j: int, pivot: int)
    requires 0 <= k < |s| && 0 <= j < |s|
    ensures multiset(s[k := s[j]][j := pivot]) == multiset(s[k := pivot])
  {
  }

  // The first inner loop: from the right, the first entry below the pivot.
  method ScanDown(a: array<int>, lo: int, high: int, pivot: int) returns (hi: int)
    requires 0 <= lo <= high < a.Length
    ensures lo <= hi <= high && (lo < hi ==> a[hi] < pivot)
    ensures forall i | hi < i <= high :: pivot <= a[i]
  {
    hi := high;
    while lo < hi && a[hi] >= pivot
      invariant lo <= hi <= high
      invariant forall i | hi < i <= high :: pivot <= a[i]
    {
      hi := hi - 1;
    }
  }

  // The second inner loop: from the left, the first entry above the pivot.
  method ScanUp(a: array<int>, low: int, hi: int, pivot: int) returns (lo: int)
    requires 0 <= low <= hi < a.Length
    ensures low <= lo <= hi && (lo < hi ==> a[lo] > pivot)
    ensures forall i | low <= i < lo :: a[i] <= pivot
  {
    lo := low;
    while lo < hi && a[lo] <= pivot
      invariant low <= lo <= hi
      invariant forall i | low <= i < lo :: a[i] <= pivot
    {
      lo := lo + 1;
    }
  }

  // a[k] = a[j], seen as moving the hole that waits for the pivot from k to j.
  method FillHole(a: array<int>, k: int, j: int, ghost pivot: int)
    requires 0 <= k < a.Length && 0 <= j < a.Length
    modifies a
    ensures a[k] == old(a[j]) && forall i | 0 <= i < a.Length && i != k :: a[i] == old(a[i])
    ensures multiset(a[..][j := pivot]) == multiset(old(a[..])[k := pivot])
  {
    MoveHole(a[..], k, j, pivot);
    ghost var s := a[..];
    a[k] := a[j];
    assert a[..] == s[k := s[j]];
  }

  // One turn of the outer loop: a small entry moves to the left, a large one to the right.
  method Turn(a: array<int>, low: int, high: int, pivot: int) returns (lo: int, hi: int)
    requires 0 <= low < high < a.Length
    modifies a
    ensures low <= lo <= hi <= high && hi - lo < high - low
    ensures multiset(a[..][lo := pivot]) == multiset(old(a[..])[low := pivot])
    ensures forall i | 0 <= i < a.Length && !(low <= i <= high) :: a[i] == old(a[i])
    ensures (forall i | low <= i < lo :: a[i] <= pivot) && (forall i | hi < i <= high :: pivot <= a[i])
    ensures hi == high ==> pivot > old(a[high])
  {
    hi := ScanDown(a, low, high, pivot);
    FillHole(a, low, hi, pivot);
    lo := ScanUp(a, low, hi, pivot);
    FillHole(a, hi, lo, pivot);
  }

  method Partition(a: array<int>, low: int, high: int) returns (pos: int)
    requires 0 <= low <= high < a.Length
    modifies a
    ensures low <= pos <= high && a[pos] == old(a[low])
    ensures Below(a[..], low, pos, a[pos]) && Above(a[..], pos, high, a[pos])
    ensures Rearranges(old(a[..]), a[..], low, high)
    ensures pos == high && low < high ==> old(a[low]) > old(a[high])
  {
    var lo, hi := low, high;
    var pivot := a[lo];
    ghost var was := a[..];
    assert a[..][lo := pivot] == was;
    while lo < hi
      invariant low <= lo <= hi <= high
      invariant multiset(a[..][lo := pivot]) == multiset(was)
      invariant forall i | 0 <= i < a.Length && !(low <= i <= high) :: a[i] == was[i]
      invariant forall i | low <= i < lo :: a[i] <= pivot
      invariant forall i | hi < i <= high :: pivot <= a[i]
      invariant hi == high ==> (lo == low && a[high] == was[high]) || (low < high ==> pivot > was[high])
    {
      lo, hi := Turn(a, lo, hi, pivot);
    }
    a[lo] := pivot;
    assert a[..] == a[..][lo := pivot];
    pos := lo;
  }

  lemma Widen(s: seq<int>, t: seq<int>, low: int, high: int, low': int, high': int)
    requires Rearranges(s, t, low, high) && 0 <= low' <= low && high <= high' < |s|
    ensures Rearranges(s, t, low', high')
  {
  }

  // Sorting both sides of the pivot sorts the range.
  lemma SidesSorted(s: seq<int>, t: seq<int>, u: seq<int>, low: int, pos: int, high: int)
    requires 0 <= low <= pos <= high < |s|
    requires Below(s, low, pos, s[pos]) && Above(s, pos, high, s[pos])
    requires Rearranges(s, t, low, pos) && SortedBetween(t, low, pos)
    requires if pos < high then Rearranges(t, u, pos + 1, high) && SortedBetween(u, pos + 1, high) else u == t
    ensures Rearranges(s, u, low, high) && SortedBetween(u, low, high)
  {
    KeepsBounds(s, t, low, pos, s[pos]);
    Widen(s, t, low, pos, low, high);
    if pos < high {
      assert Above(t, pos + 1, high, s[pos]);
      KeepsBounds(t, u, pos + 1, high, s[pos]);
      Widen(t, u, pos + 1, high, low, high);
      assert forall i | low <= i <= pos :: u[i] == t[i] && u[i] <= s[pos];
    }
  }

  method QuickSort(a: array<int>, low: int, high: int)
    requires 0 <= low && high < a.Length
    modifies a
    ensures low <= high ==> SortedBetween(a[..], low, high) && Rearranges(old(a[..]), a[..], low, high)
    ensures low > high ==> a[..] == old(a[..])
    decreases high - low, if low < high && a[low] > a[high] then 1 else 0
  {
    if low < high {
      var pos := Partition(a, low, high);
      ghost var s := a[..];
      assert Below(s, low, pos, s[pos]) && s[low] <= s[pos];
      QuickSort(a, low, pos);
      ghost var t := a[..];
      QuickSort(a, pos + 1, high);
      SidesSorted(s, t, a[..], low, pos, high);
    }
  }

  // quick_sort(a, 0, n - 1) sorts the whole array.
  method Sort(a: array<int>)
    modifies a
    ensures forall i, j | 0 <= i < j < a.Length :: a[i] <= a[j]
    ensures multiset(a[..]) == multiset(old(a[..]))
  {
    QuickSort(a, 0, a.Length - 1);
  }
}
