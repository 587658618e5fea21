/** What kernel/api/kapi_sort.c sorts by, and what sorted, permuted and stable mean. */
module SortOrder {

  type Cmp<!T> = (T, T) -> int

  predicate Le<T>(cmp: Cmp<T>, x: T, y: T) {
    cmp(x, y) <= 0
  }

  ghost predicate Either<T>(cmp: Cmp<T>, x: T, y: T) {
    Le(cmp, x, y) || Le(cmp, y, x)
  }

  ghost predicate Chains<T>(cmp: Cmp<T>, x: T, y: T, z: T) {
    Le(cmp, x, y) && Le(cmp, y, z) ==> Le(cmp, x, z)
  }

  /** A comparison that any two elements pass one way or the other, and that chains. */
  ghost predicate TotalPreorder<T(!new)>(cmp: Cmp<T>) {
    && (forall x, y {:trigger Either(cmp, x, y)} :: Either(cmp, x, y))
    && (forall x, y, z {:trigger Chains(cmp, x, y, z)} :: Chains(cmp, x, y, z))
  }

  ghost predicate Sorted<T>(cmp: Cmp<T>, s: seq<T>) {
    forall i, j :: 0 <= i < j < |s| ==> Le(cmp, s[i], s[j])
  }

  /** Every element of `s` comes before every element of `t`. */
  ghost predicate Below<T>(cmp: Cmp<T>, s: seq<T>, t: seq<T>) {
    forall i, j {:trigger s[i], t[j]} :: 0 <= i < |s| && 0 <= j < |t| ==> Le(cmp, s[i], t[j])
  }

  lemma {:induction false} JoinSorted<T>(cmp: Cmp<T>, s: seq<T>, t: seq<T>)
    requires Sorted(cmp, s) && Sorted(cmp, t) && Below(cmp, s, t)
    ensures Sorted(cmp, s + t)
  {
  }

  /** Being below does not depend on the order. */
  lemma {:induction false} BelowPermuted<T>(cmp: Cmp<T>, s: seq<T>, t: seq<T>, s': seq<T>, t': seq<T>)
    requires Below(cmp, s, t) && multiset(s) == multiset(s') && multiset(t) == multiset(t')
    ensures Below(cmp, s', t')
  {
    forall i, j | 0 <= i < |s'| && 0 <= j < |t'| ensures Le(cmp, s'[i], t'[j]) {
      assert s'[i] in multiset(s) && t'[j] in multiset(t);
      var k :| 0 <= k < |s| && s[k] == s'[i];
      var m :| 0 <= m < |t| && t[m] == t'[j];
    }
  }

  ghost function Exchanged<T>(s: seq<T>, p: (nat, nat)): (t: seq<T>)
    ensures |t| == |s|
  {
    if p.0 < |s| && p.1 < |s| then s[p.0 := s[p.1]][p.1 := s[p.0]] else s
  }

  /** The sequence after a list of exchanges. */
  ghost function After<T>(s: seq<T>, ps: seq<(nat, nat)>): (t: seq<T>)
    ensures |t| == |s|
    decreases |ps|
  {
    if ps == [] then s else Exchanged(After(s, ps[..|ps| - 1]), ps[|ps| - 1])
  }

  lemma {:induction false} AfterOneMore<T>(s: seq<T>, ps: seq<(nat, nat)>, p: (nat, nat))
    ensures After(s, ps + [p]) == Exchanged(After(s, ps), p)
  {
    assert (ps + [p])[..|ps|] == ps;
  }

  ghost predicate PairsWithin(ps: seq<(nat, nat)>, lo: nat, hi: nat) {
    forall k :: 0 <= k < |ps| ==> lo <= ps[k].0 < hi && lo <= ps[k].1 < hi
  }

  /** `now` comes from `was` by exchanges between `lo` and `hi`. */
  ghost predicate Reached<T>(was: seq<T>, now: seq<T>, lo: nat, hi: nat) {
    exists ps :: Trace(was, now, lo, hi, ps)
  }

  ghost predicate Trace<T>(was: seq<T>, now: seq<T>, lo: nat, hi: nat, ps: seq<(nat, nat)>) {
    PairsWithin(ps, lo, hi) && now == After(was, ps)
  }

  lemma {:induction false} ReachedStart<T>(s: seq<T>, lo: nat, hi: nat)
    ensures Reached(s, s, lo, hi)
  {
    assert Trace(s, s, lo, hi, []);
  }

  lemma {:induction false} ReachedMore<T>(was: seq<T>, now: seq<T>, lo: nat, hi: nat, i: nat, j: nat)
    requires Reached(was, now, lo, hi) && lo <= i < hi && lo <= j < hi
    ensures Reached(was, Exchanged(now, (i, j)), lo, hi)
  {
    var ps :| Trace(was, now, lo, hi, ps);
    AfterOneMore(was, ps, (i, j));
    assert Trace(was, Exchanged(now, (i, j)), lo, hi, ps + [(i, j)]);
  }

  lemma {:induction false} AfterSum<T>(s: seq<T>, ps: seq<(nat, nat)>, qs: seq<(nat, nat)>)
    ensures After(s, ps + qs) == After(After(s, ps), qs)
    decreases |qs|
  {
    if qs == [] {
      assert ps + qs == ps;
    } else {
      var n := |qs| - 1;
      assert ps + qs == (ps + qs[..n]) + [qs[n]];
      AfterOneMore(s, ps + qs[..n], qs[n]);
      AfterSum(s, ps, qs[..n]);
    }
  }

  lemma {:induction false} ReachedChain<T>(s: seq<T>, t: seq<T>, u: seq<T>, lo: nat, hi: nat)
    requires Reached(s, t, lo, hi) && Reached(t, u, lo, hi)
    ensures Reached(s, u, lo, hi)
  {
    var ps :| Trace(s, t, lo, hi, ps);
    var qs :| Trace(t, u, lo, hi, qs);
    AfterSum(s, ps, qs);
    assert Trace(s, u, lo, hi, ps + qs);
  }

  lemma {:induction false} ReachedWiden<T>(s: seq<T>, t: seq<T>, from: nat, to: nat, lo: nat, hi: nat)
    requires Reached(s, t, from, to) && lo <= from && to <= hi
    ensures Reached(s, t, lo, hi)
  {
    var ps :| Trace(s, t, from, to, ps);
    assert Trace(s, t, lo, hi, ps);
  }

  lemma {:induction false} ExchangePermutes<T>(s: seq<T>, p: (nat, nat))
    ensures multiset(Exchanged(s, p)) == multiset(s)
  {
  }

  /** Only the elements from `lo` to `hi` have moved, among themselves. */
  ghost predicate Rearranged<T>(was: seq<T>, now: seq<T>, lo: nat, hi: nat) {
    && |was| == |now| && lo <= hi <= |was|
    && (forall k :: 0 <= k < lo || hi <= k < |was| ==> now[k] == was[k])
    && multiset(now[lo..hi]) == multiset(was[lo..hi])
  }

  lemma {:induction false} ExchangeRearranges<T>(s: seq<T>, t: seq<T>, p: (nat, nat), lo: nat, hi: nat)
    requires Rearranged(s, t, lo, hi) && lo <= p.0 < hi && lo <= p.1 < hi
    ensures Rearranged(s, Exchanged(t, p), lo, hi)
  {
    var part, q := t[lo..hi], (p.0 - lo, p.1 - lo);
    ExchangePermutes(part, q);
    assert Exchanged(t, p)[lo..hi] == Exchanged(part, q);
  }

  /** Exchanges inside a range only rearrange it. */
  lemma {:induction false} AfterRearranges<T>(s: seq<T>, ps: seq<(nat, nat)>, lo: nat, hi: nat)
    requires lo <= hi <= |s| && PairsWithin(ps, lo, hi)
    ensures Rearranged(s, After(s, ps), lo, hi)
    decreases |ps|
  {
    if ps != [] {
      var n := |ps| - 1;
      AfterRearranges(s, ps[..n], lo, hi);
      ExchangeRearranges(s, After(s, ps[..n]), ps[n], lo, hi);
    }
  }

  lemma {:induction false} ReachedRearranges<T>(was: seq<T>, now: seq<T>, lo: nat, hi: nat)
    requires lo <= hi <= |was| && Reached(was, now, lo, hi)
    ensures Rearranged(was, now, lo, hi)
  {
    var ps :| Trace(was, now, lo, hi, ps);
    AfterRearranges(was, ps, lo, hi);
  }

  method Swap<T>(a: array<T>, i: nat, j: nat)
    requires i < a.Length && j < a.Length
    modifies a
    ensures a[..] == Exchanged(old(a[..]), (i, j))
  {
    a[i], a[j] := a[j], a[i];
    assert a[..] == Exchanged(old(a[..]), (i, j));
  }
}
