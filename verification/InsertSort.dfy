/** kapi_insertsort of kernel/api/kapi_sort.c: sorted, a permutation, and stable. */
module InsertSort {
  import opened SortOrder

  /** `x` goes after the last element that is not above it. */
  ghost function Insert<T>(cmp: Cmp<T>, s: seq<T>, x: T): seq<T> {
    if s == [] || Le(cmp, s[|s| - 1], x) then s + [x]
    else Insert(cmp, s[..|s| - 1], x) + [s[|s| - 1]]
  }

  ghost function Arranged<T>(cmp: Cmp<T>, s: seq<T>): seq<T> {
    if s == [] then [] else Insert(cmp, Arranged(cmp, s[..|s| - 1]), s[|s| - 1])
  }

  lemma {:induction false} InsertPermutes<T>(cmp: Cmp<T>, s: seq<T>, x: T)
    ensures multiset(Insert(cmp, s, x)) == multiset(s) + multiset{x}
    ensures |Insert(cmp, s, x)| == |s| + 1
  {
    if s != [] && !Le(cmp, s[|s| - 1], x) {
      InsertPermutes(cmp, s[..|s| - 1], x);
      assert s == s[..|s| - 1] + [s[|s| - 1]];
    }
  }

  lemma {:induction false} InsertSorts<T(!new)>(cmp: Cmp<T>, s: seq<T>, x: T)
    requires TotalPreorder(cmp) && Sorted(cmp, s)
    ensures Sorted(cmp, Insert(cmp, s, x))
  {
    if s != [] {
      var n := |s| - 1;
      if Le(cmp, s[n], x) {
        forall i | 0 <= i <= n ensures Le(cmp, s[i], x) {
          assert Chains(cmp, s[i], s[n], x);
        }
      } else {
        InsertSorts(cmp, s[..n], x);
        InsertPermutes(cmp, s[..n], x);
        assert Either(cmp, s[n], x);
        assert Below(cmp, s[..n] + [x], [s[n]]);
        BelowPermuted(cmp, s[..n] + [x], [s[n]], Insert(cmp, s[..n], x), [s[n]]);
        JoinSorted(cmp, Insert(cmp, s[..n], x), [s[n]]);
      }
    }
  }

  predicate Same<T>(cmp: Cmp<T>, x: T, y: T) {
    Le(cmp, x, y) && Le(cmp, y, x)
  }

  /** The elements that compare equal to `k`, in order. */
  ghost function Class<T>(cmp: Cmp<T>, s: seq<T>, k: T): seq<T> {
    if s == [] then []
    else Class(cmp, s[..|s| - 1], k) + if Same(cmp, s[|s| - 1], k) then [s[|s| - 1]] else []
  }

  /** Insertion keeps equal elements in order, the new one last. */
  lemma {:induction false} InsertStable<T(!new)>(cmp: Cmp<T>, s: seq<T>, x: T, k: T)
    requires TotalPreorder(cmp)
    ensures Class(cmp, Insert(cmp, s, x), k) == Class(cmp, s, k) + if Same(cmp, x, k) then [x] else []
  {
    var n := |s| - 1;
    if s == [] || Le(cmp, s[n], x) {
      assert (s + [x])[..|s|] == s;
    } else {
      InsertStable(cmp, s[..n], x, k);
      var front := Insert(cmp, s[..n], x);
      assert (front + [s[n]])[..|front|] == front;
      assert Chains(cmp, s[n], k, x);
    }
  }

  /** The result of the sort: ordered, the same elements, equal ones in their old order. */
  lemma {:induction false} ArrangedIs<T(!new)>(cmp: Cmp<T>, s: seq<T>)
    requires TotalPreorder(cmp)
    ensures Sorted(cmp, Arranged(cmp, s)) && multiset(Arranged(cmp, s)) == multiset(s)
    ensures forall k :: Class(cmp, Arranged(cmp, s), k) == Class(cmp, s, k)
  {
    if s != [] {
      var n := |s| - 1;
      ArrangedIs(cmp, s[..n]);
      assert s == s[..n] + [s[n]];
      InsertSorts(cmp, Arranged(cmp, s[..n]), s[n]);
      InsertPermutes(cmp, Arranged(cmp, s[..n]), s[n]);
      forall k ensures Class(cmp, Arranged(cmp, s), k) == Class(cmp, s, k) {
        InsertStable(cmp, Arranged(cmp, s[..n]), s[n], k);
      }
    }
  }

  lemma {:induction false} InsertSplit<T>(cmp: Cmp<T>, s: seq<T>, x: T, j: nat)
    requires j <= |s| && (j == 0 || Le(cmp, s[j - 1], x)) && forall k :: j <= k < |s| ==> !Le(cmp, s[k], x)
    ensures Insert(cmp, s, x) == s[..j] + [x] + s[j..]
  {
    if j < |s| {
      var n := |s| - 1;
      InsertSplit(cmp, s[..n], x, j);
      assert s[j..] == s[..n][j..] + [s[n]] && s[..n][..j] == s[..j];
    } else {
      assert s[..j] == s;
    }
  }

  /** The inner loop: elements above the new one move up by one and it fills the gap. */
  method InsertAt<T>(a: array<T>, i: nat, cmp: Cmp<T>)
    requires i < a.Length
    modifies a
    ensures a[..] == Insert(cmp, old(a[..])[..i], old(a[..])[i]) + old(a[..])[i + 1..]
  {
    var tmp := a[i];
    var j := i;
    ghost var s := a[..];
    while j > 0 && cmp(a[j - 1], tmp) > 0
      invariant 0 <= j <= i && (forall k :: 0 <= k < j || i < k < a.Length ==> a[k] == s[k])
      invariant (forall k :: j < k <= i ==> a[k] == s[k - 1]) && (forall k :: j <= k < i ==> !Le(cmp, s[k], tmp))
    {
      a[j] := a[j - 1];
      j := j - 1;
    }
    a[j] := tmp;
    InsertSplit(cmp, s[..i], tmp, j);
    assert a[..] == s[..j] + [tmp] + s[j..i] + s[i + 1..];
    assert s[..i][..j] == s[..j] && s[..i][j..] == s[j..i];
  }

  /** The first `i` elements are sorted, the others are where they were. */
  ghost predicate Progress<T>(cmp: Cmp<T>, now: seq<T>, s: seq<T>, i: nat) {
    i <= |s| && |Arranged(cmp, s[..i])| == i && now == Arranged(cmp, s[..i]) + s[i..]
  }

  lemma {:induction false} ProgressStart<T>(cmp: Cmp<T>, s: seq<T>)
    requires s != []
    ensures Progress(cmp, s, s, 1)
  {
    assert s[..1][..0] == [] && Arranged(cmp, s[..1]) == s[..1];
  }

  lemma {:induction false} ProgressStep<T>(cmp: Cmp<T>, was: seq<T>, s: seq<T>, i: nat)
    requires i < |s| && Progress(cmp, was, s, i)
    ensures i < |was| && Progress(cmp, Insert(cmp, was[..i], was[i]) + was[i + 1..], s, i + 1)
  {
    assert s[..i + 1][..i] == s[..i] && was[..i] == Arranged(cmp, s[..i]) && was[i + 1..] == s[i + 1..];
    InsertPermutes(cmp, was[..i], was[i]);
  }

  lemma {:induction false} ProgressEnd<T>(cmp: Cmp<T>, now: seq<T>, s: seq<T>)
    requires Progress(cmp, now, s, |s|)
    ensures now == Arranged(cmp, s)
  {
    assert s[..|s|] == s;
  }

  /** kapi_insertsort for elements of at most 256 bytes. */
  method InsertionSort<T(!new)>(a: array<T>, cmp: Cmp<T>)
    requires TotalPreorder(cmp)
    modifies a
    ensures Sorted(cmp, a[..]) && multiset(a[..]) == multiset(old(a[..]))
    ensures forall k :: Class(cmp, a[..], k) == Class(cmp, old(a[..]), k)
  {
    if a.Length < 2 {
      return;
    }
    ghost var s := a[..];
    var i := 1;
    ProgressStart(cmp, s);
    while i < a.Length
      invariant 1 <= i <= a.Length && Progress(cmp, a[..], s, i)
    {
      ProgressStep(cmp, a[..], s, i);
      InsertAt(a, i, cmp);
      i := i + 1;
    }
    ProgressEnd(cmp, a[..], s);
    ArrangedIs(cmp, s);
  }
}
