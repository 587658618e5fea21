/** kapi_heapsort of kernel/api/kapi_sort.c. */
module HeapSort {
  import opened SortOrder

  /** Neither child of `k` below `num` is above it. */
  ghost predicate Node<T>(cmp: Cmp<T>, s: seq<T>, k: nat, num: nat)
    requires num <= |s|
  {
    && (2 * k + 1 < num ==> Le(cmp, s[2 * k + 1], s[k]))
    && (2 * k + 2 < num ==> Le(cmp, s[2 * k + 2], s[k]))
  }

  ghost predicate Heap<T>(cmp: Cmp<T>, s: seq<T>, lo: nat, num: nat) {
    num <= |s| && forall k {:trigger Node(cmp, s, k, num)} :: lo <= k < num ==> Node(cmp, s, k, num)
  }

  /** A heap but for the element at `root`, whose children are not above its parent. */
  ghost predicate Sifting<T>(cmp: Cmp<T>, s: seq<T>, lo: nat, root: nat, num: nat) {
    && lo <= root < num <= |s|
    && (forall k {:trigger Node(cmp, s, k, num)} :: lo <= k < num && k != root ==> Node(cmp, s, k, num))
    && (root > lo ==> (2 * root + 1 < num ==> (root - 1) / 2 >= lo && Le(cmp, s[2 * root + 1], s[(root - 1) / 2])))
    && (root > lo ==> (2 * root + 2 < num ==> Le(cmp, s[2 * root + 2], s[(root - 1) / 2])))
  }

  /** The larger child of `root`. */
  ghost predicate TopChild<T>(cmp: Cmp<T>, s: seq<T>, root: nat, child: nat, num: nat) {
    && child < num <= |s| && (child == 2 * root + 1 || child == 2 * root + 2)
    && Le(cmp, s[2 * root + 1], s[child]) && (2 * root + 2 < num ==> Le(cmp, s[2 * root + 2], s[child]))
  }

  /** The element sinks below its larger child. */
  lemma {:induction false} SiftStep<T(!new)>(cmp: Cmp<T>, s: seq<T>, lo: nat, root: nat, child: nat, num: nat)
    requires TotalPreorder(cmp) && Sifting(cmp, s, lo, root, num) && TopChild(cmp, s, root, child, num)
    requires !Le(cmp, s[child], s[root])
    ensures Sifting(cmp, Exchanged(s, (root, child)), lo, child, num)
  {
    var t := Exchanged(s, (root, child));
    assert Either(cmp, s[child], s[root]);
    assert Node(cmp, s, child, num);
    forall k | lo <= k < num && k != child ensures Node(cmp, t, k, num) {
      if k != root {
        assert Node(cmp, s, k, num);
      }
    }
  }

  lemma {:induction false} SiftDone<T(!new)>(cmp: Cmp<T>, s: seq<T>, lo: nat, root: nat, child: nat, num: nat)
    requires TotalPreorder(cmp) && Sifting(cmp, s, lo, root, num)
    requires 2 * root + 1 >= num || (TopChild(cmp, s, root, child, num) && Le(cmp, s[child], s[root]))
    ensures Heap(cmp, s, lo, num)
  {
    if 2 * root + 1 < num {
      assert Chains(cmp, s[2 * root + 1], s[child], s[root]);
      if 2 * root + 2 < num {
        assert Chains(cmp, s[2 * root + 2], s[child], s[root]);
      }
    }
    assert Node(cmp, s, root, num);
  }

  method LargerChild<T(!new)>(a: array<T>, root: nat, num: nat, cmp: Cmp<T>) returns (child: nat)
    requires 2 * root + 1 < num <= a.Length && TotalPreorder(cmp)
    ensures TopChild(cmp, a[..], root, child, num)
  {
    child := 2 * root + 1;
    assert Either(cmp, a[child], a[child]);
    if child + 1 < num && cmp(a[child + 1], a[child]) > 0 {
      assert Either(cmp, a[child + 1], a[child]) && Either(cmp, a[child + 1], a[child + 1]);
      child := child + 1;
    }
  }

  /** kapi_sift_down. */
  method SiftDown<T(!new)>(a: array<T>, lo: nat, num: nat, cmp: Cmp<T>)
    requires lo < num <= a.Length && TotalPreorder(cmp) && Heap(cmp, a[..], lo + 1, num)
    modifies a
    ensures Heap(cmp, a[..], lo, num) && Reached(old(a[..]), a[..], lo, num)
  {
    var root := lo;
    ReachedStart(a[..], lo, num);
    while true
      invariant Sifting(cmp, a[..], lo, root, num) && Reached(old(a[..]), a[..], lo, num)
      decreases num - root
    {
      if 2 * root + 1 >= num {
        SiftDone(cmp, a[..], lo, root, 0, num);
        return;
      }
      var child := LargerChild(a, root, num, cmp);
      if cmp(a[child], a[root]) <= 0 {
        SiftDone(cmp, a[..], lo, root, child, num);
        return;
      }
      SiftStep(cmp, a[..], lo, root, child, num);
      ReachedMore(old(a[..]), a[..], lo, num, root, child);
      Swap(a, root, child);
      root := child;
    }
  }

  /** The top of a heap is above everything in it. */
  lemma {:induction false} HeapTop<T(!new)>(cmp: Cmp<T>, s: seq<T>, num: nat, k: nat)
    requires TotalPreorder(cmp) && Heap(cmp, s, 0, num) && k < num
    ensures Le(cmp, s[k], s[0])
  {
    if k == 0 {
      assert Either(cmp, s[0], s[0]);
    } else {
      var q := (k - 1) / 2;
      HeapTop(cmp, s, num, q);
      assert Node(cmp, s, q, num) && Chains(cmp, s[k], s[q], s[0]);
    }
  }

  /** From `i` on everything is in place, and the rest is a heap below it. */
  ghost predicate HalfSorted<T>(cmp: Cmp<T>, s: seq<T>, i: nat) {
    i <= |s| && Heap(cmp, s, 0, i) && Sorted(cmp, s[i..]) && Below(cmp, s[..i], s[i..])
  }

  /** After the exchange of the top with the last of the heap. */
  lemma {:induction false} TakeTop<T(!new)>(cmp: Cmp<T>, s: seq<T>, i: nat)
    requires TotalPreorder(cmp) && 1 <= i < |s| && HalfSorted(cmp, s, i + 1)
    ensures var t := Exchanged(s, (0, i));
      Heap(cmp, t, 1, i) && Sorted(cmp, t[i..]) && Below(cmp, t[..i], t[i..])
  {
    var t := Exchanged(s, (0, i));
    forall k | 1 <= k < i ensures Node(cmp, t, k, i) {
      assert Node(cmp, s, k, i + 1);
    }
    forall k | 0 <= k <= i ensures Le(cmp, s[k], s[0]) {
      HeapTop(cmp, s, i + 1, k);
    }
    forall k, m | 0 <= k <= i < m < |s| ensures Le(cmp, s[k], s[m]) {
      assert Le(cmp, s[..i + 1][k], s[i + 1..][m - i - 1]);
    }
    assert t[i..] == [s[0]] + s[i + 1..];
    forall k | 0 <= k < i ensures t[k] == s[if k == 0 then i else k] {
    }
  }

  /** After the new top has sunk. */
  lemma {:induction false} SinkTop<T>(cmp: Cmp<T>, t: seq<T>, u: seq<T>, i: nat)
    requires 1 <= i < |t| == |u| && Sorted(cmp, t[i..]) && Below(cmp, t[..i], t[i..])
    requires Heap(cmp, u, 0, i) && Reached(t, u, 0, i)
    ensures HalfSorted(cmp, u, i)
  {
    ReachedRearranges(t, u, 0, i);
    assert u[i..] == t[i..] && u[0..i] == u[..i] && t[0..i] == t[..i];
    BelowPermuted(cmp, t[..i], t[i..], u[..i], u[i..]);
  }

  /** The first loop of kapi_heapsort. */
  method BuildHeap<T(!new)>(a: array<T>, cmp: Cmp<T>)
    requires TotalPreorder(cmp)
    modifies a
    ensures Heap(cmp, a[..], 0, a.Length) && Reached(old(a[..]), a[..], 0, a.Length)
  {
    var i: nat := a.Length / 2;
    ReachedStart(a[..], 0, a.Length);
    while i > 0
      invariant i <= a.Length / 2 && Heap(cmp, a[..], i, a.Length) && Reached(old(a[..]), a[..], 0, a.Length)
    {
      ghost var s := a[..];
      SiftDown(a, i - 1, a.Length, cmp);
      ReachedWiden(s, a[..], i - 1, a.Length, 0, a.Length);
      ReachedChain(old(a[..]), s, a[..], 0, a.Length);
      i := i - 1;
    }
  }

  /** One turn of the second loop: the top of the heap goes to its place. */
  method PlaceTop<T(!new)>(a: array<T>, i: nat, cmp: Cmp<T>)
    requires TotalPreorder(cmp) && 1 <= i < a.Length && HalfSorted(cmp, a[..], i + 1)
    modifies a
    ensures HalfSorted(cmp, a[..], i) && Reached(old(a[..]), a[..], 0, a.Length)
  {
    TakeTop(cmp, a[..], i);
    ReachedStart(a[..], 0, a.Length);
    ReachedMore(a[..], a[..], 0, a.Length, 0, i);
    Swap(a, 0, i);
    ghost var t := a[..];
    SiftDown(a, 0, i, cmp);
    SinkTop(cmp, t, a[..], i);
    ReachedWiden(t, a[..], 0, i, 0, a.Length);
    ReachedChain(old(a[..]), t, a[..], 0, a.Length);
  }

  /** kapi_heapsort. */
  method Heapsort<T(!new)>(a: array<T>, cmp: Cmp<T>)
    requires TotalPreorder(cmp)
    modifies a
    ensures Sorted(cmp, a[..]) && multiset(a[..]) == multiset(old(a[..]))
  {
    if a.Length < 2 {
      return;
    }
    BuildHeap(a, cmp);
    var i: nat := a.Length - 1;
    while i > 0
      invariant i < a.Length && HalfSorted(cmp, a[..], i + 1) && Reached(old(a[..]), a[..], 0, a.Length)
    {
      ghost var s := a[..];
      PlaceTop(a, i, cmp);
      ReachedChain(old(a[..]), s, a[..], 0, a.Length);
      i := i - 1;
    }
    Finished(cmp, old(a[..]), a[..]);
  }

  lemma {:induction false} Finished<T>(cmp: Cmp<T>, was: seq<T>, now: seq<T>)
    requires 0 < |was| == |now| && HalfSorted(cmp, now, 1) && Reached(was, now, 0, |was|)
    ensures Sorted(cmp, now) && multiset(now) == multiset(was)
  {
    ReachedRearranges(was, now, 0, |was|);
    JoinSorted(cmp, now[..1], now[1..]);
    assert now[..1] + now[1..] == now && now[0..|now|] == now && was[0..|was|] == was;
  }
}
