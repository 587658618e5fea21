/** Unmapping on the area table as a value, mmap_do_munmap of kernel/arch/x86_64/mmap.c.  A range is
    an address and the wrapped 64-bit end `w`, which may lie below the address. */
module MmapCut {
  import opened Bits
  import opened MmapTable

  /** Every slot is in use. */
  ghost predicate Full(s: seq<Area>) {
    forall i :: 0 <= i < |s| ==> s[i].active
  }

  /** The first free slot; past the end if there is none. */
  ghost function FreeSlot(s: seq<Area>): (i: nat)
    ensures i <= |s| && (i < |s| ==> !s[i].active)
    ensures forall j :: 0 <= j < i ==> s[j].active
    ensures i == |s| <==> Full(s)
  {
    if s == [] || !s[0].active then 0
    else
      var k := FreeSlot(s[1..]);
      assert forall j :: 1 <= j < |s| ==> s[j] == s[1..][j - 1];
      k + 1
  }

  /** The first area the range overlaps; past the end if there is none. */
  ghost function FirstHit(s: seq<Area>, addr: nat, w: nat): (i: nat)
    ensures i <= |s| && (i < |s| ==> Overlaps(s[i], addr, w))
    ensures forall j :: 0 <= j < i ==> !Overlaps(s[j], addr, w)
  {
    if s == [] || Overlaps(s[0], addr, w) then 0
    else
      var k := FirstHit(s[1..], addr, w);
      assert forall j :: 1 <= j < k + 1 ==> s[j] == s[1..][j - 1];
      k + 1
  }

  ghost predicate Untouched(s: seq<Area>, addr: nat, w: nat) {
    forall i :: 0 <= i < |s| ==> !Overlaps(s[i], addr, w)
  }

  /** Both ends of the range lie strictly inside the area, so that it must be split. */
  ghost predicate Inside(a: Area, addr: nat, w: nat) {
    a.active && a.start < addr < a.End() && a.start < w < a.End()
  }

  ghost predicate SomeInside(s: seq<Area>, addr: nat, w: nat) {
    exists i :: 0 <= i < |s| && Inside(s[i], addr, w)
  }

  function Head(a: Area, addr: nat): Area
    requires a.start <= addr
  {
    a.(length := addr - a.start)
  }

  function Tail(a: Area, w: nat): Area
    requires w <= a.End()
  {
    Area(w, a.End() - w, a.prot, a.flags, Wrap64(a.offset + (w - a.start)), 1, true)
  }

  /** The area without its first bytes, up to `w`. */
  function Behead(a: Area, w: nat): Area
    requires w <= a.End()
  {
    a.(start := w, length := a.End() - w, offset := if a.offset != 0 then Wrap64(a.offset + (w - a.start)) else 0)
  }

  /** What is left of an area that is removed or loses one end. */
  ghost function Trimmed(a: Area, addr: nat, w: nat): Area
    requires !Inside(a, addr, w)
  {
    if !Overlaps(a, addr, w) then a
    else if addr <= a.start && w >= a.End() then BLANK
    else if addr <= a.start then Behead(a, w)
    else Head(a, addr)
  }

  /** Slot `i` is split, and its tail dropped if there is no slot for it. */
  ghost function SplitTable(s: seq<Area>, i: nat, addr: nat, w: nat): seq<Area>
    requires i < |s| && Inside(s[i], addr, w)
  {
    var k := FreeSlot(s);
    if k < |s| then s[k := Tail(s[i], w)][i := Head(s[i], addr)] else s[i := Head(s[i], addr)]
  }

  /** One turn of the unmap loop. */
  ghost function CutTable(s: seq<Area>, i: nat, addr: nat, w: nat): seq<Area>
    requires i < |s| && Overlaps(s[i], addr, w)
  {
    if Inside(s[i], addr, w) then SplitTable(s, i, addr, w) else s[i := Trimmed(s[i], addr, w)]
  }

  lemma {:induction false} SplitCounts(s: seq<Area>, i: nat, addr: nat, w: nat)
    requires i < |s| && Inside(s[i], addr, w) && Sized(s)
    ensures Sized(SplitTable(s, i, addr, w))
    ensures Hits(SplitTable(s, i, addr, w), addr, w) < Hits(s, addr, w)
    ensures Active(SplitTable(s, i, addr, w)) == Active(s) + One(!Full(s))
  {
    var h, k := Head(s[i], addr), FreeSlot(s);
    CountUpdate(s, i, h, addr, w);
    if k < |s| {
      var t := s[i := h];
      CountUpdate(t, k, Tail(s[i], w), addr, w);
      assert SplitTable(s, i, addr, w) == t[k := Tail(s[i], w)];
    }
  }

  lemma {:induction false} CutCounts(s: seq<Area>, i: nat, addr: nat, w: nat)
    requires i < |s| && Overlaps(s[i], addr, w) && Sized(s)
    ensures Sized(CutTable(s, i, addr, w)) && |CutTable(s, i, addr, w)| == |s|
    ensures Hits(CutTable(s, i, addr, w), addr, w) < Hits(s, addr, w)
  {
    if Inside(s[i], addr, w) {
      SplitCounts(s, i, addr, w);
    } else {
      CountUpdate(s, i, Trimmed(s[i], addr, w), addr, w);
    }
  }

  /** The whole unmap loop. */
  ghost function Unmapped(s: seq<Area>, addr: nat, w: nat): seq<Area>
    requires Sized(s)
    decreases Hits(s, addr, w)
  {
    var i := FirstHit(s, addr, w);
    if i == |s| then s
    else
      CutCounts(s, i, addr, w);
      Unmapped(CutTable(s, i, addr, w), addr, w)
  }

  // ------------------------------------------------------------------ no area has to be split

  ghost function TrimAll(s: seq<Area>, addr: nat, w: nat): (t: seq<Area>)
    requires !SomeInside(s, addr, w)
    ensures |t| == |s| && forall i :: 0 <= i < |s| ==> t[i] == Trimmed(s[i], addr, w)
  {
    seq(|s|, i requires 0 <= i < |s| => Trimmed(s[i], addr, w))
  }

  /** The loop, which changes one slot at a time and starts over, trims every area once. */
  lemma {:induction false} UnmapTrims(s: seq<Area>, addr: nat, w: nat)
    requires Sized(s) && !SomeInside(s, addr, w)
    ensures Unmapped(s, addr, w) == TrimAll(s, addr, w)
    decreases Hits(s, addr, w)
  {
    var i := FirstHit(s, addr, w);
    if i < |s| {
      var b := Trimmed(s[i], addr, w);
      var t := s[i := b];
      CutCounts(s, i, addr, w);
      assert forall k :: 0 <= k < |t| ==> t[k] == if k == i then b else s[k];
      UnmapTrims(t, addr, w);
      assert TrimAll(t, addr, w) == TrimAll(s, addr, w);
    } else {
      assert TrimAll(s, addr, w) == s;
    }
  }

  lemma {:induction false} TrimMapped(s: seq<Area>, addr: nat, w: nat)
    requires Sized(s) && !SomeInside(s, addr, w)
    ensures Sized(TrimAll(s, addr, w)) && Untouched(TrimAll(s, addr, w), addr, w)
    ensures Disjoint(s) ==> Disjoint(TrimAll(s, addr, w))
    ensures forall x :: Mapped(TrimAll(s, addr, w), x) <==> Mapped(s, x) && !(addr <= x < w)
  {
    var t := TrimAll(s, addr, w);
    forall x ensures Mapped(t, x) <==> Mapped(s, x) && !(addr <= x < w) {
      forall i | 0 <= i < |s| ensures t[i].Has(x) <==> s[i].Has(x) && !(addr <= x < w) {
      }
    }
    if Disjoint(s) {
      forall i, j | 0 <= i < j < |t| && t[i].active && t[j].active ensures Separate(t[i], t[j]) {
        assert s[i].active && s[j].active && Separate(s[i], s[j]);
      }
    }
  }

  // ------------------------------------------------------------------ one area is split

  /** The area around the range is the only one it meets. */
  lemma {:induction false} InsideAlone(s: seq<Area>, i: nat, k: nat, addr: nat, w: nat)
    requires Disjoint(s) && i < |s| && k < |s| && i != k && Inside(s[i], addr, w)
    ensures !Overlaps(s[k], addr, w)
  {
    if s[k].active {
      assert if i < k then Separate(s[i], s[k]) else Separate(s[k], s[i]);
    }
  }

  lemma {:induction false} UnmapSplits(s: seq<Area>, i: nat, addr: nat, w: nat)
    requires Sized(s) && Disjoint(s) && i < |s| && Inside(s[i], addr, w)
    ensures Unmapped(s, addr, w) == SplitTable(s, i, addr, w)
    ensures Sized(SplitTable(s, i, addr, w)) && Untouched(SplitTable(s, i, addr, w), addr, w)
  {
    var t := SplitTable(s, i, addr, w);
    forall k | 0 <= k < |s| && k != i ensures !Overlaps(s[k], addr, w) {
      InsideAlone(s, i, k, addr, w);
    }
    assert FirstHit(s, addr, w) == i && t == CutTable(s, i, addr, w);
    CutCounts(s, i, addr, w);
    forall k | 0 <= k < |t| ensures !Overlaps(t[k], addr, w) {
      assert k != i && k != FreeSlot(s) ==> t[k] == s[k];
    }
    assert FirstHit(t, addr, w) == |t|;
    assert Unmapped(t, addr, w) == t;
  }

  /** With a slot for the tail exactly the range is gone.  The two halves are apart exactly if the
      range does not run backwards. */
  lemma {:induction false} SplitRoom(s: seq<Area>, i: nat, addr: nat, w: nat)
    requires Sized(s) && Disjoint(s) && i < |s| && Inside(s[i], addr, w) && !Full(s)
    ensures forall x :: Mapped(SplitTable(s, i, addr, w), x) <==> Mapped(s, x) && !(addr <= x < w)
    ensures Disjoint(SplitTable(s, i, addr, w)) <==> addr <= w
  {
    var h, tail, k := Head(s[i], addr), Tail(s[i], w), FreeSlot(s);
    var t := s[i := h];
    assert SplitTable(s, i, addr, w) == t[k := tail];
    Shrink(s, i, h);
    Place(t, k, tail);
    forall x ensures Mapped(t[k := tail], x) <==> Mapped(s, x) && !(addr <= x < w) {
      if s[i].Has(x) {
        assert Mapped(s, x);
      }
    }
    if addr <= w {
      forall j | 0 <= j < |t| && t[j].active ensures Separate(t[j], tail) {
        if j != i {
          assert if i < j then Separate(s[i], s[j]) else Separate(s[j], s[i]);
        }
      }
    } else {
      assert t[k := tail][i] == h && t[k := tail][k] == tail && !Separate(h, tail) && !Separate(tail, h);
    }
  }

  /** Without one, everything from the address to the end of the area is gone. */
  lemma {:induction false} SplitFull(s: seq<Area>, i: nat, addr: nat, w: nat)
    requires Sized(s) && Disjoint(s) && i < |s| && Inside(s[i], addr, w) && Full(s)
    ensures forall x :: Mapped(SplitTable(s, i, addr, w), x) <==> Mapped(s, x) && !(addr <= x < s[i].End())
    ensures Disjoint(SplitTable(s, i, addr, w)) && Full(SplitTable(s, i, addr, w))
  {
    var h := Head(s[i], addr);
    Shrink(s, i, h);
    forall x | addr <= x < s[i].End() ensures s[i].Has(x) {
    }
  }

  // ------------------------------------------------------------------ what unmapping does

  /** Some area must be split, and there is no slot for its tail. */
  ghost predicate LosesTail(s: seq<Area>, addr: nat, w: nat) {
    Full(s) && SomeInside(s, addr, w)
  }

  /** The loop ends with nothing left to cut.  Areas stay apart exactly if the range does not run
      backwards, or the table is full, or no area must be split. */
  lemma {:induction false} UnmapApart(s: seq<Area>, addr: nat, w: nat)
    requires Sized(s) && Disjoint(s)
    ensures Sized(Unmapped(s, addr, w)) && |Unmapped(s, addr, w)| == |s| && Untouched(Unmapped(s, addr, w), addr, w)
    ensures Disjoint(Unmapped(s, addr, w)) <==> addr <= w || Full(s) || !SomeInside(s, addr, w)
  {
    if i :| 0 <= i < |s| && Inside(s[i], addr, w) {
      UnmapSplits(s, i, addr, w);
      if Full(s) {
        SplitFull(s, i, addr, w);
      } else {
        SplitRoom(s, i, addr, w);
      }
    } else {
      UnmapTrims(s, addr, w);
      TrimMapped(s, addr, w);
    }
  }

  /** Exactly the range is gone, or, exactly if the tail found no slot, all of that area from the
      address on. */
  ghost predicate Cleared(s: seq<Area>, now: seq<Area>, addr: nat, w: nat) {
    && (!LosesTail(s, addr, w) <==> forall x :: Mapped(now, x) <==> Mapped(s, x) && !(addr <= x < w))
    && (forall i :: 0 <= i < |s| && Full(s) && Inside(s[i], addr, w) ==> ClearedFrom(s, now, addr, s[i].End()))
  }

  ghost predicate ClearedFrom(s: seq<Area>, now: seq<Area>, addr: nat, end: nat) {
    Full(now) && forall x :: Mapped(now, x) <==> Mapped(s, x) && !(addr <= x < end)
  }

  lemma {:induction false} UnmapExact(s: seq<Area>, addr: nat, w: nat)
    requires Sized(s) && Disjoint(s)
    ensures Cleared(s, Unmapped(s, addr, w), addr, w)
  {
    if SomeInside(s, addr, w) {
      forall i | 0 <= i < |s| && Inside(s[i], addr, w)
        ensures Unmapped(s, addr, w) == SplitTable(s, i, addr, w)
        ensures !Full(s) ==> forall x :: Mapped(Unmapped(s, addr, w), x) <==> Mapped(s, x) && !(addr <= x < w)
        ensures Full(s) ==> ClearedFrom(s, Unmapped(s, addr, w), addr, s[i].End())
      {
        UnmapSplits(s, i, addr, w);
        if Full(s) {
          SplitFull(s, i, addr, w);
        } else {
          SplitRoom(s, i, addr, w);
        }
      }
      if Full(s) {
        var i :| 0 <= i < |s| && Inside(s[i], addr, w);
        var x := if addr < w then w else addr;
        assert s[i].Has(x) && Mapped(s, x) && !Mapped(Unmapped(s, addr, w), x);
      }
    } else {
      UnmapTrims(s, addr, w);
      TrimMapped(s, addr, w);
    }
  }

  /** An area [0x10000, 0x13000), and 2^64 - 0x1000 bytes unmapped from 0x12000: the two halves
      overlap. */
  lemma {:induction false} BackwardsOverlap(s: seq<Area>)
    requires |s| > 1 && s[0].active && s[0].start == 0x10000 && s[0].length == 0x3000
    requires forall i :: 1 <= i < |s| ==> !s[i].active
    ensures var w := Wrap64(0x12000 + AlignUp(TWO64 - 0x1000));
      w == 0x11000 && Sized(s) && Disjoint(s) && !Disjoint(Unmapped(s, 0x12000, w))
      && Unmapped(s, 0x12000, w)[0].End() == 0x12000 && Unmapped(s, 0x12000, w)[1].start == 0x11000
  {
    assert AlignUp(TWO64 - 0x1000) == TWO64 - 0x1000;
    assert FreeSlot(s) == 1;
    UnmapSplits(s, 0, 0x12000, 0x11000);
    SplitRoom(s, 0, 0x12000, 0x11000);
  }

  // ------------------------------------------------------------------ what the pieces show

  /** The byte of the file an address of the area shows. */
  ghost function FileByte(a: Area, x: int): nat {
    Wrap64(a.offset + (x - a.start))
  }

  /** `b` is a part of `a` with the same rights. */
  ghost predicate PartOf(b: Area, a: Area) {
    a.active && b.active && a.start <= b.start && b.End() <= a.End() && b.prot == a.prot && b.flags == a.flags
  }

  lemma {:induction false} MovedByte(offset: nat, d: int, x: int)
    ensures Wrap64(Wrap64(offset + d) + (x - d)) == Wrap64(offset + x)
  {
    var q := (offset + d) / TWO64;
    assert Wrap64(offset + d) == offset + d - q * TWO64;
    var p := (offset + x) / TWO64;
    assert offset + x - q * TWO64 == (p - q) * TWO64 + (offset + x) % TWO64;
  }

  /** Every piece is a part of an area with its rights, and shows the bytes it showed, unless an
      area at file offset 0 lost its first bytes. */
  ghost predicate Shows(s: seq<Area>, b: Area, addr: nat, w: nat) {
    exists i :: 0 <= i < |s| && PieceOf(s[i], b, addr, w)
  }

  ghost predicate PieceOf(a: Area, b: Area, addr: nat, w: nat) {
    && PartOf(b, a)
    && forall x :: b.Has(x) ==> (FileByte(b, x) == FileByte(a, x) <==> a.offset != 0 || b.start == a.start || Inside(a, addr, w))
  }

  lemma {:induction false} WholePiece(a: Area, b: Area, addr: nat, w: nat)
    requires a.active && a.length > 0 && a.End() < TWO64 && b.active && b.length > 0
    requires b == a || (a.start < addr <= a.End() && b == Head(a, addr))
    ensures PieceOf(a, b, addr, w)
  {
  }

  lemma {:induction false} LaterPiece(a: Area, b: Area, addr: nat, w: nat)
    requires a.active && a.length > 0 && a.End() < TWO64 && a.start < w < a.End()
    requires b == if Inside(a, addr, w) then Tail(a, w) else Behead(a, w)
    ensures PieceOf(a, b, addr, w)
  {
    forall x | b.Has(x)
      ensures FileByte(b, x) == FileByte(a, x) <==> a.offset != 0 || Inside(a, addr, w)
    {
      MovedByte(a.offset, w - a.start, x - a.start);
    }
  }

  lemma {:induction false} TrimPieces(s: seq<Area>, i: nat, addr: nat, w: nat)
    requires Sized(s) && i < |s| && s[i].active && !Inside(s[i], addr, w) && Trimmed(s[i], addr, w).active
    ensures PieceOf(s[i], Trimmed(s[i], addr, w), addr, w)
  {
    var a := s[i];
    if Overlaps(a, addr, w) && addr <= a.start {
      LaterPiece(a, Behead(a, w), addr, w);
    } else {
      WholePiece(a, Trimmed(a, addr, w), addr, w);
    }
  }

  lemma {:induction false} SplitPieces(s: seq<Area>, i: nat, k: nat, addr: nat, w: nat)
    requires Sized(s) && i < |s| && Inside(s[i], addr, w) && k < |s| && SplitTable(s, i, addr, w)[k].active
    ensures Shows(s, SplitTable(s, i, addr, w)[k], addr, w)
  {
    if k == i {
      WholePiece(s[i], Head(s[i], addr), addr, w);
    } else if k == FreeSlot(s) {
      LaterPiece(s[i], Tail(s[i], w), addr, w);
    } else {
      WholePiece(s[k], s[k], addr, w);
    }
  }

  /** Unmapping keeps the rights of what stays mapped, and the byte of the file behind it, except
      behind a trimmed start at file offset 0. */
  lemma {:induction false} UnmapShows(s: seq<Area>, k: nat, addr: nat, w: nat)
    requires Sized(s) && Disjoint(s) && k < |s|
    ensures |Unmapped(s, addr, w)| == |s|
    ensures Unmapped(s, addr, w)[k].active ==> Shows(s, Unmapped(s, addr, w)[k], addr, w)
  {
    UnmapApart(s, addr, w);
    if Unmapped(s, addr, w)[k].active {
      if i :| 0 <= i < |s| && Inside(s[i], addr, w) {
        UnmapSplits(s, i, addr, w);
        SplitPieces(s, i, k, addr, w);
      } else {
        UnmapTrims(s, addr, w);
        TrimPieces(s, k, addr, w);
      }
    }
  }

  /** Two pages of a file from its start, the first one unmapped: the second page now shows the
      first page of the file. */
  lemma {:induction false} StartTrimmed(s: seq<Area>)
    requires |s| > 0 && s[0].active && s[0].start == 0x10000 && s[0].length == 0x2000 && s[0].offset == 0
    requires forall i :: 1 <= i < |s| ==> !s[i].active
    ensures Sized(s) && |Unmapped(s, 0x10000, 0x11000)| == |s|
    ensures var b := Unmapped(s, 0x10000, 0x11000)[0]; b.Has(0x11000) && FileByte(b, 0x11000) == 0 && FileByte(s[0], 0x11000) == PAGE
  {
    UnmapTrims(s, 0x10000, 0x11000);
  }
}
