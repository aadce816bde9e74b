/** The in-place quicksort and delete of KRE/Utility, at the element type they are used with. */
module Sorting {
  import opened Regions

  ghost predicate AllLeq(s: seq<MemoryRegion>, x: MemoryRegion) {
    forall i :: 0 <= i < |s| ==> s[i].Leq(x)
  }

  ghost predicate AllGeq(s: seq<MemoryRegion>, x: MemoryRegion) {
    forall i :: 0 <= i < |s| ==> x.Leq(s[i])
  }

  lemma BoundsPermutation(s: seq<MemoryRegion>, t: seq<MemoryRegion>, x: MemoryRegion)
    requires multiset(s) == multiset(t)
    ensures AllLeq(s, x) ==> AllLeq(t, x)
    ensures AllGeq(s, x) ==> AllGeq(t, x)
  {
    assert forall i :: 0 <= i < |t| ==> t[i] in multiset(s);
  }

  lemma SwapPermutes<T>(s: seq<T>, i: int, j: int)
    requires 0 <= i < |s| && 0 <= j < |s|
    ensures multiset(s[i := s[j]][j := s[i]]) == multiset(s)
  {
  }

  method Partition(a: array<MemoryRegion>, left: int, high: int) returns (p: int)
    requires 0 <= left <= high < a.Length
    modifies a
    ensures left <= p <= high
    ensures AllLeq(a[left..p], a[p]) && AllGeq(a[p + 1..high + 1], a[p])
    ensures a[p] == old(a[high])
    ensures multiset(a[left..high + 1]) == old(multiset(a[left..high + 1]))
    ensures a[..left] == old(a[..left]) && a[high + 1..] == old(a[high + 1..])
  {
    var pivot := a[high];
    var idx := left - 1;
    var j := left;
    while j <= high - 1
      invariant left - 1 <= idx < j <= high
      invariant a[high] == pivot
      invariant forall k :: left <= k <= idx ==> a[k].Leq(pivot)
      invariant forall k :: idx < k < j ==> pivot.Leq(a[k])
      invariant multiset(a[left..high + 1]) == old(multiset(a[left..high + 1]))
      invariant a[..left] == old(a[..left]) && a[high + 1..] == old(a[high + 1..])
    {
      if a[j].Leq(pivot) {
        idx := idx + 1;
        Swap(a, idx, j, left, high);
      }
      j := j + 1;
    }
    Swap(a, idx + 1, high, left, high);
    p := idx + 1;
  }

  method Swap(a: array<MemoryRegion>, i: int, j: int, ghost left: int, ghost high: int)
    requires 0 <= left <= i <= high < a.Length && left <= j <= high
    modifies a
    ensures a[i] == old(a[j]) && a[j] == old(a[i])
    ensures forall k :: 0 <= k < a.Length && k != i && k != j ==> a[k] == old(a[k])
    ensures multiset(a[left..high + 1]) == old(multiset(a[left..high + 1]))
    ensures a[..left] == old(a[..left]) && a[high + 1..] == old(a[high + 1..])
  {
    ghost var s := a[..];
    var temp := a[i];
    a[i] := a[j];
    a[j] := temp;
    SwapWindow(s, a[..], i, j, left, high);
    SameWindow(s, old(a[left..high + 1]), left, high);
    SameWindow(a[..], a[left..high + 1], left, high);
  }

  lemma SameWindow<T>(s: seq<T>, w: seq<T>, left: int, high: int)
    requires 0 <= left <= high < |s| && |w| == high + 1 - left
    requires forall k :: 0 <= k < |w| ==> w[k] == s[left + k]
    ensures w == s[left..high + 1]
  {
  }

  lemma SwapWindow<T>(s: seq<T>, t: seq<T>, i: int, j: int, left: int, high: int)
    requires 0 <= left <= i <= high < |s| && left <= j <= high && |s| == |t|
    requires t[i] == s[j] && t[j] == s[i]
    requires forall k :: 0 <= k < |s| && k != i && k != j ==> t[k] == s[k]
    ensures multiset(t[left..high + 1]) == multiset(s[left..high + 1])
    ensures t[..left] == s[..left] && t[high + 1..] == s[high + 1..]
  {
    var w := s[left..high + 1];
    assert t[left..high + 1] == w[i - left := w[j - left]][j - left := w[i - left]];
    SwapPermutes(w, i - left, j - left);
  }

  method QuickSort(a: array<MemoryRegion>, low: int, high: int)
    requires 0 <= low <= high + 1 <= a.Length
    modifies a
    ensures Sorted(a[low..high + 1])
    ensures multiset(a[low..high + 1]) == old(multiset(a[low..high + 1]))
    ensures a[..low] == old(a[..low]) && a[high + 1..] == old(a[high + 1..])
    decreases high - low + 1
  {
    if low < high {
      var pivot := Partition(a, low, high);
      label Split:
      QuickSort(a, low, pivot - 1);
      label Half:
      BoundsPermutation(old@Split(a[low..pivot]), a[low..pivot], old@Split(a[pivot]));
      TailAgrees(old@Split(a[..]), a[..], pivot, high);
      QuickSort(a, pivot + 1, high);
      BoundsPermutation(old@Split(a[pivot + 1..high + 1]), a[pivot + 1..high + 1], old@Split(a[pivot]));
      HeadAgrees(old@Half(a[..]), a[..], low, pivot);
      Glue(a[..], low, pivot, high);
      GluePermutes(old@Split(a[..]), a[..], low, pivot, high);
    }
  }

  lemma TailAgrees(s: seq<MemoryRegion>, t: seq<MemoryRegion>, p: int, high: int)
    requires |s| == |t| && 0 <= p <= high < |s| && s[p..] == t[p..]
    ensures s[p] == t[p] && s[p + 1..high + 1] == t[p + 1..high + 1] && s[high + 1..] == t[high + 1..]
  {
    assert forall k :: p <= k < |s| ==> s[k] == s[p..][k - p] == t[p..][k - p];
  }

  lemma HeadAgrees(s: seq<MemoryRegion>, t: seq<MemoryRegion>, low: int, p: int)
    requires |s| == |t| && 0 <= low <= p < |s| && s[..p + 1] == t[..p + 1]
    ensures s[p] == t[p] && s[low..p] == t[low..p] && s[..low] == t[..low]
  {
    assert forall k :: 0 <= k <= p ==> s[k] == s[..p + 1][k] == t[..p + 1][k];
  }

  /** Two sorted halves around a pivot that bounds them make one sorted stretch. */
  lemma Glue(s: seq<MemoryRegion>, low: int, p: int, high: int)
    requires 0 <= low <= p <= high < |s|
    requires Sorted(s[low..p]) && Sorted(s[p + 1..high + 1])
    requires AllLeq(s[low..p], s[p]) && AllGeq(s[p + 1..high + 1], s[p])
    ensures Sorted(s[low..high + 1])
  {
    var w, l, r := s[low..high + 1], s[low..p], s[p + 1..high + 1];
    forall i, j | 0 <= i < j < |w|
      ensures w[i].Leq(w[j])
    {
      var q := p - low;
      assert i < q ==> w[i] == l[i] && w[i].Leq(s[p]);
      assert j < q ==> w[j] == l[j];
      assert i > q ==> w[i] == r[i - q - 1];
      assert j > q ==> w[j] == r[j - q - 1] && s[p].Leq(w[j]);
      RegionOrderIsTotal(w[i], s[p], w[j]);
      RegionOrderIsTotal(s[p], s[p], s[p]);
    }
  }

  lemma GluePermutes(s: seq<MemoryRegion>, t: seq<MemoryRegion>, low: int, p: int, high: int)
    requires |s| == |t| && 0 <= low <= p <= high < |s| && s[p] == t[p]
    requires multiset(s[low..p]) == multiset(t[low..p])
    requires multiset(s[p + 1..high + 1]) == multiset(t[p + 1..high + 1])
    ensures multiset(s[low..high + 1]) == multiset(t[low..high + 1])
  {
    assert s[low..high + 1] == s[low..p] + [s[p]] + s[p + 1..high + 1];
    assert t[low..high + 1] == t[low..p] + [t[p]] + t[p + 1..high + 1];
  }

  /** Sorts the first n elements and leaves the rest alone. */
  method Sort(a: array<MemoryRegion>, n: nat)
    requires n <= a.Length
    modifies a
    ensures Sorted(a[..n])
    ensures multiset(a[..n]) == old(multiset(a[..n]))
    ensures a[n..] == old(a[n..])
  {
    assert a[0..n] == a[..n];
    QuickSort(a, 0, n - 1);
    assert a[0..n] == a[..n];
  }

  /** Moves everything after idx one place down; the last of the count elements keeps its old copy. */
  method ArrayDelete(a: array<MemoryRegion>, idx: nat, count: nat) returns (left: nat)
    requires idx < count <= a.Length
    modifies a
    ensures left == count - 1
    ensures a[..left] == old(a[..idx] + a[idx + 1..count])
    ensures a[left..] == old(a[left..])
  {
    var k := idx;
    while k < count - 1
      invariant idx <= k <= count - 1
      invariant forall m :: 0 <= m < idx ==> a[m] == old(a[m])
      invariant forall m :: idx <= m < k ==> a[m] == old(a[m + 1])
      invariant forall m :: k <= m < a.Length ==> a[m] == old(a[m])
    {
      a[k] := a[k + 1];
      k := k + 1;
    }
    left := count - 1;
  }
}
