/** kapi_qsort of kernel/api/kapi_sort.c. */
module QuickSort {
  import opened SortOrder

  /** What the partition leaves: everything up to `j` at most the pivot there, everything after above it. */
  ghost predicate Split<T>(cmp: Cmp<T>, s: seq<T>, lo: nat, j: nat, hi: nat) {
    && lo <= j < hi <= |s|
    && (forall k :: lo <= k < j ==> Le(cmp, s[k], s[j]))
    && (forall k :: j < k < hi ==> !Le(cmp, s[k], s[j]))
  }

  /** The elements from `lo` up to `i` are at most the pivot at `lo`. */
  ghost predicate AtMost<T>(cmp: Cmp<T>, s: seq<T>, lo: nat, i: nat) {
    lo < i <= |s| && forall k :: lo <= k < i ==> Le(cmp, s[k], s[lo])
  }

  /** The elements after `j` up to `high` are above the pivot at `lo`. */
  ghost predicate Above<T>(cmp: Cmp<T>, s: seq<T>, lo: nat, j: nat, high: nat) {
    lo <= j <= high < |s| && forall k :: j < k <= high ==> !Le(cmp, s[k], s[lo])
  }

  method ScanUp<T>(a: array<T>, low: nat, from: nat, high: nat, cmp: Cmp<T>) returns (i: nat)
    requires low < high < a.Length && from <= high + 1 && AtMost(cmp, a[..], low, from)
    ensures from <= i <= high + 1 && AtMost(cmp, a[..], low, i) && (i <= high ==> !Le(cmp, a[i], a[low]))
  {
    i := from;
    while i <= high && cmp(a[i], a[low]) <= 0
      invariant from <= i <= high + 1 && AtMost(cmp, a[..], low, i)
    {
      i := i + 1;
    }
  }

  method ScanDown<T>(a: array<T>, low: nat, from: nat, high: nat, cmp: Cmp<T>) returns (j: nat)
    requires low < high < a.Length && Above(cmp, a[..], low, from, high)
    ensures j <= from && Above(cmp, a[..], low, j, high) && (j > low ==> Le(cmp, a[j], a[low]))
  {
    j := from;
    while j > low && cmp(a[j], a[low]) > 0
      invariant j <= from && Above(cmp, a[..], low, j, high)
    {
      j := j - 1;
    }
  }

  /** The two scans do not pass each other by more than one. */
  lemma {:induction false} ScansMeet<T>(cmp: Cmp<T>, s: seq<T>, lo: nat, i: nat, j: nat, high: nat)
    requires AtMost(cmp, s, lo, i) && Above(cmp, s, lo, j, high) && i <= high + 1
    ensures i <= j + 1
  {
    assert j < high ==> !Le(cmp, s[j + 1], s[lo]);
  }

  lemma {:induction false} SwapKeeps<T>(cmp: Cmp<T>, s: seq<T>, lo: nat, i: nat, j: nat, high: nat)
    requires AtMost(cmp, s, lo, i) && Above(cmp, s, lo, j, high) && i < j && Le(cmp, s[j], s[lo])
    ensures var t := Exchanged(s, (i, j)); AtMost(cmp, t, lo, i) && Above(cmp, t, lo, j, high) && Le(cmp, t[i], t[lo])
  {
  }

  /** The pivot goes between the two sides. */
  lemma {:induction false} PlacePivot<T>(cmp: Cmp<T>, s: seq<T>, lo: nat, j: nat, high: nat)
    requires AtMost(cmp, s, lo, j + 1) && Above(cmp, s, lo, j, high)
    ensures Split(cmp, Exchanged(s, (lo, j)), lo, j, high + 1)
  {
  }

  /** The scans, with an exchange wherever they stop; it ends because an exchange makes both move on. */
  method ScanBoth<T(!new)>(a: array<T>, low: nat, high: nat, cmp: Cmp<T>) returns (j: nat)
    requires low < high < a.Length && TotalPreorder(cmp)
    modifies a
    ensures Reached(old(a[..]), a[..], low, high + 1)
    ensures AtMost(cmp, a[..], low, j + 1) && Above(cmp, a[..], low, j, high)
  {
    ReachedStart(a[..], low, high + 1);
    var i: nat := low + 1;
    j := high;
    assert Either(cmp, a[low], a[low]);
    while i <= j
      invariant i <= high + 1 && i <= j + 1 && Reached(old(a[..]), a[..], low, high + 1)
      invariant AtMost(cmp, a[..], low, i) && Above(cmp, a[..], low, j, high)
      decreases j - i, if i <= high && !Le(cmp, a[i], a[low]) then 1 else 0
    {
      i := ScanUp(a, low, i, high, cmp);
      j := ScanDown(a, low, j, high, cmp);
      ScansMeet(cmp, a[..], low, i, j, high);
      if i < j {
        SwapKeeps(cmp, a[..], low, i, j, high);
        ReachedMore(old(a[..]), a[..], low, high + 1, i, j);
        Swap(a, i, j);
      }
    }
  }

  /** The partition: the pivot, at `low` before, ends up between the two sides. */
  method Partition<T(!new)>(a: array<T>, low: nat, high: nat, cmp: Cmp<T>) returns (j: nat)
    requires low < high < a.Length && TotalPreorder(cmp)
    modifies a
    ensures Reached(old(a[..]), a[..], low, high + 1) && Split(cmp, a[..], low, j, high + 1)
  {
    j := ScanBoth(a, low, high, cmp);
    PlacePivot(cmp, a[..], low, j, high);
    if j > low {
      ReachedMore(old(a[..]), a[..], low, high + 1, low, j);
      Swap(a, low, j);
    }
  }

  lemma {:induction false} SidesJoin<T(!new)>(cmp: Cmp<T>, s: seq<T>, m: seq<T>, t: seq<T>, lo: nat, j: nat, hi: nat)
    requires TotalPreorder(cmp) && Split(cmp, s, lo, j, hi)
    requires Rearranged(s, m, lo, j) && Rearranged(m, t, j + 1, hi)
    requires Sorted(cmp, m[lo..j]) && Sorted(cmp, t[j + 1..hi])
    ensures Sorted(cmp, t[lo..hi])
  {
    var left, right, p := t[lo..j], t[j + 1..hi], [s[j]];
    assert left == m[lo..j] && m[j + 1..hi] == s[j + 1..hi] && t[j] == s[j];
    forall k | j < k < hi ensures Le(cmp, s[j], s[k]) {
      assert Either(cmp, s[j], s[k]);
    }
    assert Below(cmp, s[lo..j], p) && Below(cmp, p, s[j + 1..hi]);
    BelowPermuted(cmp, s[lo..j], p, left, p);
    BelowPermuted(cmp, p, s[j + 1..hi], p, right);
    JoinSorted(cmp, p, right);
    BelowBoth(cmp, left, s[j], right);
    JoinSorted(cmp, left, p + right);
    assert t[lo..hi] == left + (p + right);
  }

  /** Sorting both sides of a partition sorts the whole. */
  lemma {:induction false} SidesSorted<T(!new)>(cmp: Cmp<T>, s: seq<T>, m: seq<T>, t: seq<T>, lo: nat, j: nat, hi: nat)
    requires TotalPreorder(cmp) && Split(cmp, s, lo, j, hi)
    requires Reached(s, m, lo, j) && Reached(m, t, j + 1, hi)
    requires |m| == |s| == |t| && Sorted(cmp, m[lo..j]) && Sorted(cmp, t[j + 1..hi])
    ensures Reached(s, t, lo, hi) && Sorted(cmp, t[lo..hi])
  {
    ReachedRearranges(s, m, lo, j);
    ReachedRearranges(m, t, j + 1, hi);
    SidesJoin(cmp, s, m, t, lo, j, hi);
    ReachedWiden(s, m, lo, j, lo, hi);
    ReachedWiden(m, t, j + 1, hi, lo, hi);
    ReachedChain(s, m, t, lo, hi);
  }

  lemma {:induction false} BelowBoth<T(!new)>(cmp: Cmp<T>, left: seq<T>, p: T, right: seq<T>)
    requires TotalPreorder(cmp) && Below(cmp, left, [p]) && Below(cmp, [p], right)
    ensures Below(cmp, left, [p] + right)
  {
    forall i, j | 0 <= i < |left| && 0 <= j < |[p] + right| ensures Le(cmp, left[i], ([p] + right)[j]) {
      assert Le(cmp, left[i], [p][0]);
      if j > 0 {
        assert Le(cmp, [p][0], right[j - 1]) && Chains(cmp, left[i], p, right[j - 1]);
      }
    }
  }

  /** The end of the range from `low` to `high`, which may be empty. */
  ghost function End(low: nat, high: nat): nat {
    if low <= high then high + 1 else low
  }

  /** kapi_qsort_internal. */
  method SortRange<T(!new)>(a: array<T>, low: nat, high: nat, cmp: Cmp<T>)
    requires high < a.Length && low <= a.Length && TotalPreorder(cmp)
    modifies a
    ensures Reached(old(a[..]), a[..], low, End(low, high)) && Sorted(cmp, a[..][low..End(low, high)])
    decreases if low < high then high - low else 0, 1
  {
    ghost var was := a[..];
    ReachedStart(was, low, End(low, high));
    if low >= high {
      return;
    }
    var j := Partition(a, low, high, cmp);
    ghost var s := a[..];
    SortSides(a, low, j, high, cmp);
    ReachedChain(was, s, a[..], low, high + 1);
  }

  /** Both sides of a partition. */
  method SortSides<T(!new)>(a: array<T>, low: nat, j: nat, high: nat, cmp: Cmp<T>)
    requires low <= j <= high < a.Length && low < high && TotalPreorder(cmp) && Split(cmp, a[..], low, j, high + 1)
    modifies a
    ensures Reached(old(a[..]), a[..], low, high + 1) && Sorted(cmp, a[..][low..high + 1])
    decreases high - low, 0
  {
    ghost var s := a[..];
    ReachedStart(s, low, j);
    if j > 0 {
      SortRange(a, low, j - 1, cmp);
    }
    ghost var m := a[..];
    SortRange(a, j + 1, high, cmp);
    assert j > 0 ==> End(low, j - 1) == j;
    SidesSorted(cmp, s, m, a[..], low, j, high + 1);
  }

  /** kapi_qsort. */
  method QuickSort<T(!new)>(a: array<T>, cmp: Cmp<T>)
    requires TotalPreorder(cmp)
    modifies a
    ensures Sorted(cmp, a[..]) && multiset(a[..]) == multiset(old(a[..]))
  {
    if a.Length < 2 {
      return;
    }
    SortRange(a, 0, a.Length - 1, cmp);
    ReachedRearranges(old(a[..]), a[..], 0, a.Length);
    assert a[0..a.Length] == a[..] && old(a[..])[0..a.Length] == old(a[..]);
  }
}
