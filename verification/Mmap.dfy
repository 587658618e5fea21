/** Virtual areas: search, mapping and unmapping of kernel/arch/x86_64/mmap.c. */
module Mmap {
  import opened Bits
  import opened MmapTable
  import opened MmapCut

  const MAP_SHARED: nat := 0x01
  const MAP_PRIVATE: nat := 0x02
  const MAP_FIXED: nat := 0x10
  const MAP_ANONYMOUS: nat := 0x20
  const MAX_LENGTH: nat := 0x100_0000_0000

  /** No active area meets [s, s + n). */
  ghost predicate FreeRange(t: seq<Area>, s: nat, n: nat) {
    forall i :: 0 <= i < |t| ==> !Overlaps(t[i], s, s + n)
  }

  /** A free range is one with no mapped address in it. */
  lemma {:induction false} FreeMeansUnmapped(t: seq<Area>, s: nat, n: nat)
    requires Sized(t) && n > 0
    ensures FreeRange(t, s, n) <==> forall x :: s <= x < s + n ==> !Mapped(t, x)
  {
    if FreeRange(t, s, n) {
      forall x | s <= x < s + n ensures !Mapped(t, x) {
        forall i | 0 <= i < |t| ensures !t[i].Has(x) {
          assert !Overlaps(t[i], s, s + n);
        }
      }
    } else {
      var i :| 0 <= i < |t| && Overlaps(t[i], s, s + n);
      var x := if s > t[i].start then s else t[i].start;
      assert t[i].Has(x);
      assert Mapped(t, x);
    }
  }

  /** No free range of `n` bytes between the minimum address and the search start. */
  ghost predicate NoRoom(t: seq<Area>, n: nat) {
    forall s :: 0x1000_0000 <= s && s + n <= 0x7F00_0000_0000 ==> !FreeRange(t, s, n)
  }

  class MmapContext {
    const areas: array<Area>
    var count: int

    /** Areas are not empty, do not overlap, and are counted. */
    ghost predicate Valid()
      reads this, areas
    {
      Counted() && Disjoint(areas[..])
    }

    ghost predicate Counted()
      reads this, areas
    {
      areas.Length == MAX_AREAS && Sized(areas[..]) && count == Active(areas[..])
    }

    constructor ()
      ensures Valid() && fresh(areas) && forall x :: !Mapped(areas[..], x)
      ensures areas[..] == seq(256, _ => BLANK)
    {
      areas := new Area[MAX_AREAS](_ => BLANK);
      count := 0;
      new;
      NoneActive(areas[..]);
    }

    static lemma {:induction false} NoneActive(s: seq<Area>)
      requires forall i :: 0 <= i < |s| ==> !s[i].active
      ensures Active(s) == 0
    {
      if s != [] { NoneActive(s[1..]); }
    }

    // ---------------------------------------------------------------- searches

    /** mmap_find_covering_area: the first slot the range overlaps, or -1. */
    method FindCovering(addr: nat, w: nat) returns (r: int)
      requires areas.Length == MAX_AREAS
      ensures r == if Untouched(areas[..], addr, w) then -1 else FirstHit(areas[..], addr, w)
    {
      var i := 0;
      while i < MAX_AREAS
        invariant 0 <= i <= MAX_AREAS && forall j :: 0 <= j < i ==> !Overlaps(areas[j], addr, w)
      {
        if areas[i].active && addr < areas[i].End() && w > areas[i].start {
          assert Overlaps(areas[..][i], addr, w);
          return i;
        }
        i := i + 1;
      }
      return -1;
    }

    /** mmap_alloc_slot: the first free slot, or -1 when the table is full. */
    method AllocSlot() returns (r: int)
      requires areas.Length == MAX_AREAS
      ensures r == if Full(areas[..]) then -1 else FreeSlot(areas[..])
    {
      var i := 0;
      while i < MAX_AREAS
        invariant 0 <= i <= MAX_AREAS && forall j :: 0 <= j < i ==> areas[j].active
      {
        if !areas[i].active {
          assert !areas[..][i].active;
          return i;
        }
        i := i + 1;
      }
      return -1;
    }

    /** mmap_find_free_area: the highest free start below the search start, 0 if there is none
        down to the minimum address.  If the sum of that address and the length wraps, what is
        found is not below the search start: it runs past 2^64. */
    method FindFreeArea(length: nat) returns (r: nat)
      requires Counted() && length < TWO64
      ensures length == 0 ==> r == 0
      ensures length > 0 && MIN_ADDR + AlignUp(length) < TWO64 ==>
        && (r != 0 ==> MIN_ADDR <= r && r + AlignUp(length) <= SEARCH_START && FreeRange(areas[..], r, AlignUp(length)))
        && (forall s :: MIN_ADDR <= s && s > r && s + AlignUp(length) <= SEARCH_START ==> !FreeRange(areas[..], s, AlignUp(length)))
      ensures r != 0 ==> (r + AlignUp(length) <= SEARCH_START <==> MIN_ADDR + AlignUp(length) < TWO64)
    {
      if length == 0 {
        return 0;
      }
      var n := AlignUp(length);
      ghost var normal := MIN_ADDR + n < TWO64;
      var candidate := SEARCH_START;
      while candidate >= Wrap64(MIN_ADDR + n)
        invariant 0 <= candidate <= SEARCH_START
        invariant normal ==> forall s :: MIN_ADDR <= s && candidate < s + n <= SEARCH_START ==> !FreeRange(areas[..], s, n)
        decreases candidate
      {
        var start := Wrap64(candidate - n);
        var i := FindCovering(start, Wrap64(start + n));
        if i < 0 {
          return start;
        }
        if normal {
          HighestCandidate(areas[..], i, candidate, n);
        }
        candidate := areas[i].start;
      }
      return 0;
    }

    /** If the range ending at the candidate meets an area, so does every range ending above that
        area's start. */
    static lemma {:induction false} HighestCandidate(t: seq<Area>, i: nat, candidate: nat, n: nat)
      requires i < |t| && n <= candidate && Overlaps(t[i], candidate - n, candidate)
      ensures forall s: nat :: t[i].start < s + n <= candidate ==> !FreeRange(t, s, n)
    {
      forall s: nat | t[i].start < s + n <= candidate ensures !FreeRange(t, s, n) {
        assert Overlaps(t[i], s, s + n);
      }
    }

    // ---------------------------------------------------------------- unmapping

    /** One turn of the unmap loop on slot `i`: removal, head trim, tail trim or split. */
    method Cut(i: nat, addr: nat, w: nat)
      requires Counted() && i < MAX_AREAS && Overlaps(areas[i], addr, w)
      modifies areas, `count
      ensures Counted() && areas[..] == CutTable(old(areas[..]), i, addr, w)
      ensures Hits(areas[..], addr, w) < old(Hits(areas[..], addr, w))
    {
      ghost var s := areas[..];
      CutCounts(s, i, addr, w);
      var a := areas[i];
      var from := if addr > a.start then addr else a.start;
      var to := if w < a.End() then w else a.End();
      if from == a.start && to == a.End() {
        areas[i] := BLANK;
        count := count - 1;
        CountUpdate(s, i, BLANK, addr, w);
      } else if from == a.start {
        var removed := to - a.start;
        var b := a.(start := a.start + removed, length := a.length - removed,
                    offset := if a.offset != 0 then Wrap64(a.offset + removed) else 0);
        areas[i] := b;
        CountUpdate(s, i, b, addr, w);
      } else if to == a.End() {
        var b := a.(length := a.length - (to - from));
        areas[i] := b;
        CountUpdate(s, i, b, addr, w);
      } else {
        Split(i, addr, w);
      }
    }

    /** The range lies strictly inside slot `i`: the tail moves to a free slot if there is one. */
    method Split(i: nat, addr: nat, w: nat)
      requires Counted() && i < MAX_AREAS && Inside(areas[i], addr, w)
      modifies areas, `count
      ensures Counted() && areas[..] == SplitTable(old(areas[..]), i, addr, w)
    {
      SplitCounts(areas[..], i, addr, w);
      var a := areas[i];
      var slot := AllocSlot();
      if slot >= 0 {
        areas[slot] := Area(w, a.End() - w, a.prot, a.flags, Wrap64(a.offset + (w - a.start)), 1, true);
        count := count + 1;
      }
      areas[i] := a.(length := addr - a.start);
    }

    /** Unmaps a range.  Exactly the range goes, unless an area has to be split with the table full:
        then, and only then, all of that area from the address on goes.  A range that wraps around
        2^64 is not refused: it cuts an area that reaches below its end and past its start into two
        halves that overlap. */
    method Munmap(addr: nat, length: nat) returns (r: int)
      requires Valid() && addr < TWO64 && length < TWO64
      modifies areas, `count
      ensures Counted()
      ensures length == 0 ==> r == -1 && areas[..] == old(areas[..])
      ensures length > 0 ==>
        var w := Wrap64(addr + AlignUp(length));
        && r == (if old(Untouched(areas[..], addr, w)) then -1 else 0)
        && areas[..] == Unmapped(old(areas[..]), addr, w)
        && Untouched(areas[..], addr, w) && Cleared(old(areas[..]), areas[..], addr, w)
        && (Valid() <==> addr <= w || old(Full(areas[..])) || old(Untouched(areas[..], addr, w)))
    {
      if length > 0 {
        ghost var s, w := areas[..], Wrap64(addr + AlignUp(length));
        UnmapApart(s, addr, w);
        UnmapExact(s, addr, w);
        BackwardHits(s, addr, w);
      }
      r := Unmap(addr, length);
    }

    /** mmap_do_munmap. */
    method Unmap(addr: nat, length: nat) returns (r: int)
      requires Counted()
      modifies areas, `count
      ensures Counted()
      ensures length == 0 ==> r == -1 && areas[..] == old(areas[..])
      ensures length > 0 ==> areas[..] == Unmapped(old(areas[..]), addr, Wrap64(addr + AlignUp(length)))
      ensures length > 0 ==> r == if old(Untouched(areas[..], addr, Wrap64(addr + AlignUp(length)))) then -1 else 0
    {
      if length == 0 {
        return -1;
      }
      var found := CutAll(addr, Wrap64(addr + AlignUp(length)));
      return if found then 0 else -1;
    }

    /** The unmap loop. */
    method CutAll(addr: nat, w: nat) returns (found: bool)
      requires Counted()
      modifies areas, `count
      ensures Counted() && areas[..] == Unmapped(old(areas[..]), addr, w)
      ensures found <==> !old(Untouched(areas[..], addr, w))
    {
      ghost var s := areas[..];
      found := false;
      while true
        invariant Counted() && Unmapped(areas[..], addr, w) == Unmapped(s, addr, w)
        invariant if found then !Untouched(s, addr, w) else areas[..] == s
        decreases Hits(areas[..], addr, w)
      {
        ghost var t := areas[..];
        var i := FindCovering(addr, w);
        if i < 0 {
          break;
        }
        Cut(i, addr, w);
        found := true;
      }
    }

    /** A backward range meets exactly the areas it would split. */
    static lemma {:induction false} BackwardHits(s: seq<Area>, addr: nat, w: nat)
      ensures w < addr ==> (Untouched(s, addr, w) <==> !SomeInside(s, addr, w))
    {
      if i :| 0 <= i < |s| && Overlaps(s[i], addr, w) {
        assert w < addr ==> Inside(s[i], addr, w);
      }
    }

    // ---------------------------------------------------------------- mapping

    /** The argument checks that precede any change. */
    static predicate BadRequest(addr: nat, length: nat, prot: nat, flags: nat, offset: nat) {
      || length == 0 || length > MAX_LENGTH
      || (prot % 8 == 0 && prot != 0)
      || (And(flags, MAP_SHARED) != 0 && And(flags, MAP_PRIVATE) != 0)
      || (And(flags, MAP_ANONYMOUS) == 0 && offset % PAGE != 0)
      || (addr != 0 && addr % PAGE != 0)
    }

    /** The mapping fails after its area was entered if its pages cannot be provided. */
    static predicate NeedsPages(flags: nat) {
      And(flags, MAP_ANONYMOUS) != 0 || (And(flags, MAP_PRIVATE) == 0 && And(flags, MAP_SHARED) != 0)
    }

    /** MMAP_FLAG_POPULATED or MMAP_FLAG_COW is added. */
    static function Marked(flags: nat): nat {
      Or(flags, if NeedsPages(flags) then 0x4000 else if And(flags, MAP_PRIVATE) != 0 then 0x2000 else 0)
    }

    /** The flags are bits 0 (shared), 1 (private), 4 (fixed) and 5 (anonymous). */
    static lemma {:induction false} FlagBits(flags: nat)
      ensures And(flags, MAP_SHARED) != 0 <==> flags % 2 == 1
      ensures And(flags, MAP_PRIVATE) != 0 <==> flags / 2 % 2 == 1
      ensures And(flags, MAP_FIXED) != 0 <==> flags / 16 % 2 == 1
      ensures And(flags, MAP_ANONYMOUS) != 0 <==> flags / 32 % 2 == 1
    {
      assert Pow2(0) == 1 && Pow2(1) == 2 && Pow2(4) == 16 && Pow2(5) == 32;
      AndBit(flags, 0);
      AndBit(flags, 1);
      AndBit(flags, 4);
      AndBit(flags, 5);
      ShrBit(flags, 0);
      ShrBit(flags, 1);
      ShrBit(flags, 4);
      ShrBit(flags, 5);
    }

    /** Which requests are refused, and which mappings need their pages at once. */
    static lemma {:induction false} RequestIs(addr: nat, length: nat, prot: nat, flags: nat, offset: nat)
      ensures BadRequest(addr, length, prot, flags, offset) <==>
        || length == 0 || length > 0x100_0000_0000 || (prot % 8 == 0 && prot > 0)
        || (flags % 2 == 1 && flags / 2 % 2 == 1) || (flags / 32 % 2 == 0 && offset % 4096 > 0) || addr % 4096 > 0
      ensures NeedsPages(flags) <==> flags / 32 % 2 == 1 || (flags % 2 == 1 && flags / 2 % 2 == 0)
      ensures Fixed(addr, flags) <==> addr > 0 && flags / 16 % 2 == 1
    {
      FlagBits(flags);
    }

    /** Bit 14 marks an area whose pages are there, bit 13 one that is copied on writing. */
    static lemma {:induction false} MarkedIs(flags: nat)
      ensures Marked(flags) - flags ==
        if NeedsPages(flags) then (if flags / 0x4000 % 2 == 1 then 0 else 0x4000)
        else if flags / 2 % 2 == 1 then (if flags / 0x2000 % 2 == 1 then 0 else 0x2000)
        else 0
    {
      FlagBits(flags);
      assert Pow2(4) == 16 && Pow2(9) == 512;
      assert Pow2(13) == 0x2000 && Pow2(14) == 0x4000 by {
        Pow2Sum(9, 4);
        assert Pow2(14) == 2 * Pow2(13);
      }
      OrBit(flags, 13);
      OrBit(flags, 14);
      ShrBit(flags, 13);
      ShrBit(flags, 14);
      OrZero(flags);
    }

    /** The slot a mapping leaves: active if it succeeded. */
    static function Outcome(a: Area, ok: bool): Area {
      if ok then a.(flags := Marked(a.flags), active := true) else a.(active := false)
    }

    static ghost function EnterTable(s: seq<Area>, a: Area): seq<Area> {
      if Full(s) then s else s[FreeSlot(s) := a]
    }

    /** Enters an area in the first free slot; on a full table, or when its pages cannot be
        provided, nothing stays mapped. */
    method Enter(a: Area, pages: bool) returns (ok: bool)
      requires areas.Length == MAX_AREAS && count == Active(areas[..]) && a.active
      modifies areas, `count
      ensures count == Active(areas[..])
      ensures ok == (!old(Full(areas[..])) && (NeedsPages(a.flags) ==> pages))
      ensures areas[..] == EnterTable(old(areas[..]), Outcome(a, ok))
    {
      var slot := AllocSlot();
      if slot < 0 {
        return false;
      }
      ghost var s := areas[..];
      areas[slot] := a;
      count := count + 1;
      ok := NeedsPages(a.flags) ==> pages;
      if ok {
        areas[slot] := areas[slot].(flags := Marked(a.flags));
      } else {
        areas[slot] := areas[slot].(active := false);
        count := count - 1;
      }
      CountUpdate(s, slot, areas[slot], 0, 0);
      assert areas[..] == s[slot := areas[slot]];
    }

    /** Entering an area unmaps nothing. */
    static lemma {:induction false} StillMapped(s: seq<Area>, a: Area)
      ensures forall x :: Mapped(s, x) ==> Mapped(EnterTable(s, a), x)
    {
      forall x | Mapped(s, x) ensures Mapped(EnterTable(s, a), x) {
        var k :| 0 <= k < |s| && s[k].Has(x);
        assert EnterTable(s, a)[k] == s[k];
      }
    }

    /** A free slot that stays inactive changes no mapping. */
    static lemma {:induction false} StaysOut(s: seq<Area>, slot: nat, a: Area)
      requires slot < |s| && !s[slot].active && !a.active
      ensures Sized(s[slot := a]) == Sized(s) && Disjoint(s[slot := a]) == Disjoint(s)
      ensures forall x :: Mapped(s[slot := a], x) <==> Mapped(s, x)
    {
      var t := s[slot := a];
      assert forall k :: 0 <= k < |s| && k != slot ==> t[k] == s[k];
      forall x ensures Mapped(t, x) <==> Mapped(s, x) {
        MappedUpdate(s, slot, a, x);
        MappedSplit(s, slot, x);
      }
      if Disjoint(t) {
        forall i, j | 0 <= i < j < |s| && s[i].active && s[j].active ensures Separate(s[i], s[j]) {
          assert Separate(t[i], t[j]);
        }
      }
      if Sized(t) {
        forall i | 0 <= i < |s| && s[i].active ensures s[i].length > 0 && s[i].End() < TWO64 {
          assert t[i].active;
        }
      }
    }

    /** A new area in a free slot. */
    static lemma {:induction false} GoesIn(s: seq<Area>, slot: nat, a: Area)
      requires slot < |s| && !s[slot].active && a.active && a.length > 0 && Sized(s)
      ensures Sized(s[slot := a]) <==> a.End() < TWO64
      ensures Disjoint(s[slot := a]) <==> Disjoint(s) && FreeRange(s, a.start, a.length)
      ensures a.End() < TWO64 ==> forall x :: Mapped(s[slot := a], x) <==> Mapped(s, x) || a.Has(x)
    {
      var t := s[slot := a];
      assert t[slot] == a;
      if a.End() < TWO64 {
        Place(s, slot, a);
      }
      ApartIff(s, slot, a);
    }

    static lemma {:induction false} ApartIff(s: seq<Area>, slot: nat, a: Area)
      requires slot < |s| && !s[slot].active && a.active && a.length > 0 && Sized(s)
      ensures Disjoint(s[slot := a]) <==> Disjoint(s) && FreeRange(s, a.start, a.length)
    {
      var t := s[slot := a];
      assert forall k :: 0 <= k < |s| && k != slot ==> t[k] == s[k];
      if Disjoint(t) {
        forall i, j | 0 <= i < j < |s| && s[i].active && s[j].active ensures Separate(s[i], s[j]) {
          assert Separate(t[i], t[j]);
        }
        forall k | 0 <= k < |s| ensures !Overlaps(s[k], a.start, a.start + a.length) {
          if s[k].active {
            assert if k < slot then Separate(t[k], t[slot]) else Separate(t[slot], t[k]);
          }
        }
      }
      if Disjoint(s) && FreeRange(s, a.start, a.length) {
        forall i, j | 0 <= i < j < |t| && t[i].active && t[j].active ensures Separate(t[i], t[j]) {
          if i == slot {
            assert !Overlaps(s[j], a.start, a.start + a.length);
          } else if j == slot {
            assert !Overlaps(s[i], a.start, a.start + a.length);
          } else {
            assert Separate(s[i], s[j]);
          }
        }
      }
    }

    static predicate Fixed(addr: nat, flags: nat) {
      addr != 0 && And(flags, MAP_FIXED) != 0
    }

    /** Exactly the new range, which was free, is mapped as well; nothing changes on failure. */
    static ghost predicate Added(s: seq<Area>, now: seq<Area>, r: int, n: nat) {
      && (forall x :: Mapped(now, x) <==> Mapped(s, x) || (r >= 0 && r <= x < r + n))
      && (r >= 0 ==> FreeRange(s, r, n))
    }

    /** The address asked for, if the overlap test passes it; else the highest free range. */
    static ghost predicate Chosen(s: seq<Area>, r: nat, addr: nat, n: nat) {
      if addr != 0 && Untouched(s, addr, Wrap64(addr + n)) then r == addr
      else MIN_ADDR <= r && r + n <= SEARCH_START && forall p :: p > r && p + n <= SEARCH_START ==> !FreeRange(s, p, n)
    }

    /** What entering an area whose range is free, unless it ends past 2^64, does. */
    static lemma {:induction false} EnterFree(s: seq<Area>, a: Area, ok: bool)
      requires Sized(s) && Disjoint(s) && a.length > 0 && (a.End() < TWO64 ==> FreeRange(s, a.start, a.length))
      requires ok ==> !Full(s)
      ensures var now := EnterTable(s, Outcome(a, ok));
        if ok && a.End() >= TWO64 then !Sized(now)
        else Sized(now) && Disjoint(now) && Added(s, now, if ok then a.start else -1, a.length)
    {
      if ok {
        var b := Outcome(a, true);
        GoesIn(s, FreeSlot(s), b);
        if a.End() < TWO64 {
          forall x ensures Mapped(EnterTable(s, b), x) <==> Mapped(s, x) || a.start <= x < a.End() {
            assert Mapped(s[FreeSlot(s) := b], x) <==> Mapped(s, x) || b.Has(x);
          }
        }
      } else if !Full(s) {
        StaysOut(s, FreeSlot(s), Outcome(a, false));
      }
    }

    /** Without MAP_FIXED: the address asked for if its range is free, else the highest free range.
        The overlap test is on the wrapped end, so that a range past 2^64 can be entered. */
    method MapAnywhere(a: Area, pages: bool) returns (r: int)
      requires Valid() && a.active && a.start < TWO64 && 0 < a.length <= MAX_LENGTH && AlignUp(a.length) == a.length
      modifies areas, `count
      ensures -1 <= r
      ensures Valid() <==> r + a.length < TWO64
      ensures r + a.length >= TWO64 <==> Escapes(old(areas[..]), a, pages)
      ensures r + a.length < TWO64 ==> Added(old(areas[..]), areas[..], r, a.length)
      ensures r >= 0 ==> Chosen(old(areas[..]), r, a.start, a.length)
      ensures r >= 0 ==> areas[..] == EnterTable(old(areas[..]), Outcome(a.(start := r), true))
      ensures forall x :: old(Mapped(areas[..], x)) ==> Mapped(areas[..], x)
      ensures r >= 0 ==> !old(Full(areas[..])) && (NeedsPages(a.flags) ==> pages)
      ensures r == -1 ==> old(Full(areas[..])) || (NeedsPages(a.flags) && !pages) || old(NoRoom(areas[..], a.length))
    {
      ghost var s := areas[..];
      var at := a.start;
      var taken := -1;
      if at != 0 {
        taken := FindCovering(at, Wrap64(at + a.length));
      }
      if at == 0 || taken >= 0 {
        at := FindFreeArea(a.length);
        if at == 0 {
          return -1;
        }
      }
      var b := a.(start := at);
      var ok := Enter(b, pages);
      EnterFree(s, b, ok);
      StillMapped(s, Outcome(b, ok));
      return if ok then at else -1;
    }

    /** The request ends past 2^64, and neither the wrapped overlap test nor anything else stops it. */
    static ghost predicate Escapes(s: seq<Area>, a: Area, pages: bool) {
      a.End() >= TWO64 && Untouched(s, a.start, Wrap64(a.End())) && !Full(s) && (NeedsPages(a.flags) ==> pages)
    }

    /** The table once a range is unmapped and an area, active or not, entered in its place. */
    static ghost function Replaced(s: seq<Area>, a: Area, w: nat): seq<Area>
      requires Sized(s)
    {
      EnterTable(Unmapped(s, a.start, w), a)
    }

    /** Exactly the range has changed: it is mapped if the call succeeded, and free otherwise.  If the
        unmapping lost a tail the call has failed, and only that area has changed. */
    static ghost predicate MovedIn(s: seq<Area>, now: seq<Area>, a: Area, ok: bool) {
      && (!LosesTail(s, a.start, a.End()) ==>
            forall x :: Mapped(now, x) <==> if a.start <= x < a.End() then ok else Mapped(s, x))
      && (forall i :: 0 <= i < |s| && Full(s) && Inside(s[i], a.start, a.End()) ==>
            !ok && ClearedFrom(s, now, a.start, s[i].End()))
    }

    static lemma {:induction false} ReplacedForward(s: seq<Area>, a: Area, ok: bool)
      requires Sized(s) && Disjoint(s) && a.length > 0 && a.End() < TWO64
      requires ok ==> !Full(Unmapped(s, a.start, a.End()))
      ensures var now := Replaced(s, Outcome(a, ok), a.End());
        Sized(now) && Disjoint(now) && MovedIn(s, now, a, ok)
    {
      UnmapApart(s, a.start, a.End());
      UnmapExact(s, a.start, a.End());
      EnterFree(Unmapped(s, a.start, a.End()), a, ok);
    }

    static lemma {:induction false} ReplacedBackward(s: seq<Area>, a: Area, ok: bool, able: bool, w: nat)
      requires Sized(s) && Disjoint(s) && a.length > 0 && a.End() >= TWO64 && w < a.start
      requires ok == (!Full(Unmapped(s, a.start, w)) && able)
      ensures var now := Replaced(s, Outcome(a, ok), w);
        Sized(now) && Disjoint(now) <==> Full(s) || (Untouched(s, a.start, w) && !able)
    {
      var t := Unmapped(s, a.start, w);
      UnmapApart(s, a.start, w);
      UnmapExact(s, a.start, w);
      BackwardHits(s, a.start, w);
      if Full(t) {
      } else if ok {
        GoesIn(t, FreeSlot(t), Outcome(a, true));
      } else {
        StaysOut(t, FreeSlot(t), Outcome(a, false));
      }
    }

    method Replace(a: Area, pages: bool) returns (ok: bool)
      requires Counted() && a.active && AlignUp(a.length) == a.length > 0
      modifies areas, `count
      ensures count == Active(areas[..])
      ensures ok == (!Full(Unmapped(old(areas[..]), a.start, Wrap64(a.End()))) && (NeedsPages(a.flags) ==> pages))
      ensures areas[..] == Replaced(old(areas[..]), Outcome(a, ok), Wrap64(a.End()))
    {
      var _ := Unmap(a.start, a.length);
      ghost var t := areas[..];
      ok := Enter(a, pages);
      assert areas[..] == EnterTable(t, Outcome(a, ok));
    }

    /** With MAP_FIXED: the range is unmapped and entered. */
    method MapFixed(a: Area, pages: bool) returns (r: int)
      requires Valid() && a.active && 0 < a.start < TWO64 && 0 < a.length <= MAX_LENGTH && AlignUp(a.length) == a.length
      modifies areas, `count
      ensures r == if Full(Unmapped(old(areas[..]), a.start, Wrap64(a.End()))) || (NeedsPages(a.flags) && !pages) then -1 else a.start
      ensures areas[..] == Replaced(old(areas[..]), Outcome(a, r >= 0), Wrap64(a.End()))
      ensures a.End() < TWO64 ==> Valid() && MovedIn(old(areas[..]), areas[..], a, r >= 0)
      ensures a.End() >= TWO64 ==>
        (Valid() <==> old(Full(areas[..])) || (old(Untouched(areas[..], a.start, Wrap64(a.End()))) && NeedsPages(a.flags) && !pages))
    {
      ghost var s := areas[..];
      var ok := Replace(a, pages);
      if a.End() < TWO64 {
        ReplacedForward(s, a, ok);
      } else {
        ReplacedBackward(s, a, ok, NeedsPages(a.flags) ==> pages, Wrap64(a.End()));
      }
      return if ok then a.start else -1;
    }

    /** Maps `length` bytes; -1 is failure.  `pages` says whether the pages can be provided. */
    method DoMmap(addr: nat, length: nat, prot: nat, flags: nat, offset: nat, pages: bool) returns (r: int)
      requires Valid() && addr < TWO64 && length < TWO64
      modifies areas, `count
      ensures BadRequest(addr, length, prot, flags, offset) ==> r == -1 && areas[..] == old(areas[..])
      ensures !BadRequest(addr, length, prot, flags, offset) && !Fixed(addr, flags) ==>
        var a := Area(addr, AlignUp(length), prot, flags, offset, 1, true);
        && -1 <= r && (Valid() <==> r + a.length < TWO64)
        && (r + a.length >= TWO64 <==> Escapes(old(areas[..]), a, pages))
        && (r + a.length < TWO64 ==> Added(old(areas[..]), areas[..], r, a.length))
        && (r >= 0 ==> areas[..] == EnterTable(old(areas[..]), Outcome(a.(start := r), true)))
        && (r >= 0 ==> Chosen(old(areas[..]), r, addr, a.length) && !old(Full(areas[..])) && (NeedsPages(flags) ==> pages))
        && (r == -1 ==> old(Full(areas[..])) || (NeedsPages(flags) && !pages) || old(NoRoom(areas[..], a.length)))
      ensures !BadRequest(addr, length, prot, flags, offset) && Fixed(addr, flags) ==>
        var a := Area(addr, AlignUp(length), prot, flags, offset, 1, true);
        var w := Wrap64(a.End());
        && r == (if Full(Unmapped(old(areas[..]), addr, w)) || (NeedsPages(flags) && !pages) then -1 else addr)
        && areas[..] == Replaced(old(areas[..]), Outcome(a, r >= 0), w)
        && (a.End() < TWO64 ==> Valid() && MovedIn(old(areas[..]), areas[..], a, r >= 0))
        && (a.End() >= TWO64 ==>
              (Valid() <==> old(Full(areas[..])) || (old(Untouched(areas[..], addr, w)) && NeedsPages(flags) && !pages)))
      ensures flags / 16 % 2 == 0 ==> forall x :: old(Mapped(areas[..], x)) ==> Mapped(areas[..], x)
      ensures addr > 0 && flags / 16 % 2 == 1 && r >= 0 ==> r == addr
    {
      FlagBits(flags);
      if BadRequest(addr, length, prot, flags, offset) {
        return -1;
      }
      var a := Area(addr, AlignUp(length), prot, flags, offset, 1, true);
      assert AlignUp(a.length) == a.length;
      if Fixed(addr, flags) {
        r := MapFixed(a, pages);
      } else {
        r := MapAnywhere(a, pages);
      }
    }
  }

  /** Two pages asked for at the last page of the address space: the area is entered and ends outside. */
  method PastTheEnd() returns (c: MmapContext, r: int)
    ensures r == TWO64 - PAGE && !c.Valid()
  {
    c := new MmapContext();
    assert AlignUp(2 * PAGE) == 2 * PAGE;
    assert And(MAP_PRIVATE, MAP_SHARED) == And(MAP_PRIVATE, MAP_FIXED) == And(MAP_PRIVATE, MAP_ANONYMOUS) == 0;
    assert !c.areas[..][0].active;
    r := c.DoMmap(TWO64 - PAGE, 2 * PAGE, 1, MAP_PRIVATE, 0, true);
  }

  /** A mapping at 0x2000_0000 and a second one with that address as a hint only: the first stays,
      and the second goes to the highest free page. */
  method HintTaken() returns (c: MmapContext, first: int, second: int)
    ensures first == 0x2000_0000 && second == 0x7EFF_FFFF_F000 && c.Valid()
    ensures forall x :: Mapped(c.areas[..], x) <==> first <= x < first + 4096 || second <= x < second + 4096
  {
    c := new MmapContext();
    assert AlignUp(4096) == 4096;
    MmapContext.RequestIs(0x2000_0000, 4096, 1, 0x22, 0);
    FreeMeansUnmapped(c.areas[..], 0x2000_0000, 4096);
    assert !c.areas[..][0].active;
    first := c.DoMmap(0x2000_0000, 4096, 1, 0x22, 0, true);
    FreeMeansUnmapped(c.areas[..], 0x2000_0000, 4096);
    FreeMeansUnmapped(c.areas[..], 0x7EFF_FFFF_F000, 4096);
    assert Mapped(c.areas[..], 0x2000_0000);
    assert !c.areas[..][1].active;
    second := c.DoMmap(0x2000_0000, 4096, 1, 0x22, 0, true);
  }

  // ------------------------------------------------------------------ calls that overlap in time

  /** What a call does under the lock: mmap finds its range first, and enters it under a lock of its
      own. */
  datatype Region = Remove(addr: nat, w: nat) | Put(area: Area, pages: bool)

  ghost function After(s: seq<Area>, g: Region): seq<Area>
    requires Sized(s)
  {
    match g
    case Remove(addr, w) => Unmapped(s, addr, w)
    case Put(a, pages) => MmapContext.EnterTable(s, MmapContext.Outcome(a, PutOk(s, a, pages)))
  }

  ghost predicate PutOk(s: seq<Area>, a: Area, pages: bool) {
    !Full(s) && (MmapContext.NeedsPages(a.flags) ==> pages)
  }

  /** The range that was found is still free when it is entered, and ends inside the address space. */
  ghost predicate InTime(s: seq<Area>, g: Region) {
    match g
    case Remove(addr, w) => addr <= w || Full(s) || !SomeInside(s, addr, w)
    case Put(a, pages) => PutOk(s, a, pages) ==> a.End() < TWO64 && FreeRange(s, a.start, a.length)
  }

  /** Areas stay apart exactly if that is so. */
  lemma {:induction false} RegionIff(s: seq<Area>, g: Region)
    requires Sized(s) && Disjoint(s) && (g.Put? ==> g.area.length > 0)
    ensures Sized(After(s, g)) && Disjoint(After(s, g)) <==> InTime(s, g)
  {
    match g
    case Remove(addr, w) => UnmapApart(s, addr, w);
    case Put(a, pages) =>
      if PutOk(s, a, pages) {
        MmapContext.GoesIn(s, FreeSlot(s), MmapContext.Outcome(a, true));
      } else if !Full(s) {
        MmapContext.StaysOut(s, FreeSlot(s), MmapContext.Outcome(a, false));
      }
  }

  ghost predicate AllInTime(s: seq<Area>, gs: seq<Region>)
    requires Sized(s) && Disjoint(s)
    decreases gs
  {
    gs == [] ||
    (&& (gs[0].Put? ==> gs[0].area.length > 0) && InTime(s, gs[0])
     && (RegionIff(s, gs[0]); AllInTime(After(s, gs[0]), gs[1..])))
  }

  ghost function AfterAll(s: seq<Area>, gs: seq<Region>): (t: seq<Area>)
    requires Sized(s) && Disjoint(s) && AllInTime(s, gs)
    ensures Sized(t) && Disjoint(t)
    decreases gs
  {
    if gs == [] then s
    else
      RegionIff(s, gs[0]);
      AfterAll(After(s, gs[0]), gs[1..])
  }

  /** Two calls that both search before either enters find the same range, and enter it twice. */
  method FoundTwice() returns (c: MmapContext, first: nat, second: nat)
    ensures first == second == 0x7EFF_FFFF_F000 && !c.Valid()
  {
    c := new MmapContext();
    assert AlignUp(PAGE) == PAGE;
    assert FreeRange(c.areas[..], SEARCH_START - PAGE, PAGE);
    first := c.FindFreeArea(PAGE);
    second := c.FindFreeArea(PAGE);
    var a := Area(first, PAGE, 1, MAP_ANONYMOUS, 0, 1, true);
    assert !c.areas[..][0].active && !c.areas[..][1].active;
    var ok := c.Enter(a, true);
    assert c.areas[..][0].active && c.areas[..][0].start == first && c.areas[..][0].length == PAGE;
    ok := c.Enter(a, true);
    assert c.areas[..][1].active && !Separate(c.areas[..][0], c.areas[..][1]);
  }
}
