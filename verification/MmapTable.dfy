/** The area table of kernel/arch/x86_64/mmap.c as a value: which addresses it covers, and what
    replacing one slot does to them. */
module MmapTable {
  import opened Bits

  const MAX_AREAS: nat := 256
  const SEARCH_START: nat := 0x7F00_0000_0000
  const MIN_ADDR: nat := 0x1000_0000

  datatype Area = Area(start: nat, length: nat, prot: nat, flags: nat, offset: nat, refs: int, active: bool) {
    function End(): nat { start + length }

    /** The address lies in this active area. */
    ghost predicate Has(x: int) { active && start <= x < start + length }
  }

  const BLANK: Area := Area(0, 0, 0, 0, 0, 0, false)

  /** The code's overlap test against [addr, w), w being the wrapped end. */
  predicate Overlaps(a: Area, addr: nat, w: nat) {
    a.active && addr < a.End() && w > a.start
  }

  ghost predicate Mapped(s: seq<Area>, x: int) {
    exists i :: 0 <= i < |s| && s[i].Has(x)
  }

  /** Active areas are not empty and do not reach 2^64. */
  ghost predicate Sized(s: seq<Area>) {
    forall i :: 0 <= i < |s| && s[i].active ==> s[i].length > 0 && s[i].End() < TWO64
  }

  ghost predicate Separate(a: Area, b: Area) {
    a.End() <= b.start || b.End() <= a.start
  }

  ghost predicate Disjoint(s: seq<Area>) {
    forall i, j :: 0 <= i < j < |s| && s[i].active && s[j].active ==> Separate(s[i], s[j])
  }

  ghost function Active(s: seq<Area>): nat {
    if s == [] then 0 else (if s[0].active then 1 else 0) + Active(s[1..])
  }

  /** Areas the range still overlaps. */
  ghost function Hits(s: seq<Area>, addr: nat, w: nat): nat {
    if s == [] then 0 else (if Overlaps(s[0], addr, w) then 1 else 0) + Hits(s[1..], addr, w)
  }

  ghost function One(b: bool): nat {
    if b then 1 else 0
  }

  lemma {:induction false} CountUpdate(s: seq<Area>, i: nat, a: Area, addr: nat, w: nat)
    requires i < |s|
    ensures Active(s[i := a]) == Active(s) - One(s[i].active) + One(a.active)
    ensures Hits(s[i := a], addr, w) == Hits(s, addr, w) - One(Overlaps(s[i], addr, w)) + One(Overlaps(a, addr, w))
  {
    if i == 0 {
      assert s[i := a][1..] == s[1..];
    } else {
      assert s[i := a][1..] == s[1..][i - 1 := a];
      CountUpdate(s[1..], i - 1, a, addr, w);
    }
  }

  lemma {:induction false} MappedUpdate(s: seq<Area>, i: nat, a: Area, x: int)
    requires i < |s|
    ensures Mapped(s[i := a], x) <==> a.Has(x) || exists k :: 0 <= k < |s| && k != i && s[k].Has(x)
  {
    var t := s[i := a];
    if Mapped(t, x) {
      var k :| 0 <= k < |t| && t[k].Has(x);
      assert k != i ==> s[k].Has(x);
    }
    if a.Has(x) {
      assert t[i].Has(x);
    }
    if exists k :: 0 <= k < |s| && k != i && s[k].Has(x) {
      var k :| 0 <= k < |s| && k != i && s[k].Has(x);
      assert t[k].Has(x);
    }
  }

  lemma {:induction false} MappedSplit(s: seq<Area>, i: nat, x: int)
    requires i < |s|
    ensures Mapped(s, x) <==> s[i].Has(x) || exists k :: 0 <= k < |s| && k != i && s[k].Has(x)
  {
    MappedUpdate(s, i, s[i], x);
    assert s[i := s[i]] == s;
  }

  /** An address belongs to at most one area. */
  lemma {:induction false} OneOwner(s: seq<Area>, i: nat, k: nat, x: int)
    requires Disjoint(s) && i < |s| && k < |s| && i != k && s[i].Has(x)
    ensures !s[k].Has(x)
  {
    if s[k].active {
      assert if i < k then Separate(s[i], s[k]) else Separate(s[k], s[i]);
    }
  }

  /** Slot `i` is replaced by something covering a part of what it covered. */
  lemma {:induction false} Shrink(s: seq<Area>, i: nat, a: Area)
    requires i < |s| && s[i].active && Sized(s)
    requires a.active ==> s[i].start <= a.start && a.End() <= s[i].End() && a.length > 0
    ensures Sized(s[i := a]) && (Disjoint(s) ==> Disjoint(s[i := a]))
    ensures forall x :: Disjoint(s) ==> (Mapped(s[i := a], x) <==> Mapped(s, x) && (s[i].Has(x) ==> a.Has(x)))
  {
    var t := s[i := a];
    if Disjoint(s) {
      forall p, q | 0 <= p < q < |t| && t[p].active && t[q].active ensures Separate(t[p], t[q]) {
        assert Separate(s[p], s[q]);
      }
      forall x ensures Mapped(t, x) <==> Mapped(s, x) && (s[i].Has(x) ==> a.Has(x)) {
        MappedUpdate(s, i, a, x);
        MappedSplit(s, i, x);
        if s[i].Has(x) {
          forall k | 0 <= k < |s| && k != i ensures !s[k].Has(x) {
            OneOwner(s, i, k, x);
          }
        }
      }
    }
  }

  /** A free slot `j` takes an area apart from all others. */
  lemma {:induction false} Place(s: seq<Area>, j: nat, a: Area)
    requires j < |s| && !s[j].active && Sized(s)
    requires a.active && a.length > 0 && a.End() < TWO64
    ensures Sized(s[j := a])
    ensures forall x :: Mapped(s[j := a], x) <==> Mapped(s, x) || a.Has(x)
    ensures Disjoint(s) && (forall k :: 0 <= k < |s| && s[k].active ==> Separate(s[k], a)) ==> Disjoint(s[j := a])
  {
    forall x ensures Mapped(s[j := a], x) <==> Mapped(s, x) || a.Has(x) {
      MappedUpdate(s, j, a, x);
      MappedSplit(s, j, x);
    }
  }
}
