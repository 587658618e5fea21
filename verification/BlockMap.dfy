/** The direct / indirect / double / triple block map of kernel/arch/x86_64/ext4.c against the
    flat list of its leaves. */
module BlockMap {
  import opened Bits
  import opened Bytes
  import opened Common
  import opened Ext4Disk

  const DIRECT: nat := 12
  const IND: nat := 12
  const DIND: nat := 13
  const TIND: nat := 14

  /** Block numbers in one indirect block. */
  function PerBlock(fs: Fs): nat {
    fs.blockSize / 4
  }

  function EntryAt(fs: Fs, block: nat, i: nat): nat
    requires fs.Valid() && block in fs.disk && i < PerBlock(fs)
  {
    LE32(fs.disk[block], 4 * i)
  }

  /** ext4_read_indirect_block: a zero entry, like an unreadable block, is a hole. */
  function ReadIndirect(fs: Fs, block: nat, index: nat): Option<nat>
    requires fs.Valid()
  {
    if block !in fs.disk then None
    else if index < PerBlock(fs) && EntryAt(fs, block, index) != 0 then Some(EntryAt(fs, block, index))
    else None
  }

  /** ext4_map_block_indirect, with its 32-bit relative block numbers. */
  function MapBlock(fs: Fs, iblock: seq<nat>, lblock: nat): Option<nat>
    requires fs.Valid() && |iblock| == 15
  {
    var per := PerBlock(fs);
    if lblock < DIRECT then
      if iblock[lblock] != 0 then Some(iblock[lblock]) else None
    else
      var rel := (lblock - DIRECT) % TWO32;
      if rel < per then
        if iblock[IND] == 0 then None else ReadIndirect(fs, iblock[IND], rel)
      else
        var rel2 := rel - per;
        var dind := per * per;
        if rel2 < dind then
          if iblock[DIND] == 0 then None
          else
            match ReadIndirect(fs, iblock[DIND], Quot(rel2, per))
            case None => None
            case Some(ind) => ReadIndirect(fs, ind, Rem(rel2, per))
        else
          var rel3 := rel2 - dind;
          if rel3 < per * dind then
            if iblock[TIND] == 0 then None
            else
              match ReadIndirect(fs, iblock[TIND], Quot(rel3, dind))
              case None => None
              case Some(d) =>
                var rest := Rem(rel3, dind);
                match ReadIndirect(fs, d, Quot(rest, per))
                case None => None
                case Some(ind) => ReadIndirect(fs, ind, Rem(rest, per))
          else None
  }

  // ------------------------------------------------------------------ the flat reference

  ghost function Pow(b: nat, k: nat): nat {
    if k == 0 then 1 else b * Pow(b, k - 1)
  }

  ghost function Zeros(n: nat): (z: seq<nat>)
    ensures |z| == n && forall i :: 0 <= i < n ==> z[i] == 0
  {
    seq(n, _ => 0)
  }

  /** Concatenation. */
  ghost function Join(parts: seq<seq<nat>>): seq<nat> {
    if parts == [] then [] else parts[0] + Join(parts[1..])
  }

  ghost predicate Sized(parts: seq<seq<nat>>, m: nat) {
    forall i :: 0 <= i < |parts| ==> |parts[i]| == m
  }

  lemma {:induction false} MulStep(n: nat, m: nat)
    requires n > 0
    ensures n * m == m + (n - 1) * m
  {
  }

  lemma {:induction false} JoinLength(parts: seq<seq<nat>>, m: nat)
    requires Sized(parts, m)
    ensures |Join(parts)| == |parts| * m
  {
    if parts != [] {
      JoinLength(parts[1..], m);
      MulStep(|parts|, m);
    }
  }

  /** Element `r` of part `i` sits at its place in the concatenation. */
  lemma {:induction false} JoinAt(parts: seq<seq<nat>>, m: nat, i: nat, r: nat, j: nat)
    requires Sized(parts, m) && i < |parts| && r < m && j == i * m + r
    ensures j < |Join(parts)| && Join(parts)[j] == parts[i][r]
    decreases i
  {
    if i > 0 {
      MulStep(i, m);
      JoinAt(parts[1..], m, i - 1, r, j - m);
    }
  }

  /** The data block numbers below `block`, in file order: 0 for every hole. */
  ghost function Leaves(fs: Fs, block: nat, level: nat): (s: seq<nat>)
    requires fs.Valid()
    ensures |s| == Pow(PerBlock(fs), level)
    decreases level
  {
    if level == 0 then [block]
    else if block == 0 || block !in fs.disk then Zeros(Pow(PerBlock(fs), level))
    else
      var parts := seq(PerBlock(fs), k requires 0 <= k < PerBlock(fs) => Leaves(fs, EntryAt(fs, block, k), level - 1));
      JoinLength(parts, Pow(PerBlock(fs), level - 1));
      Join(parts)
  }

  /** What lies below an indirect block is what lies below its four-byte entries, in order. */
  lemma {:induction false} LeavesAre(fs: Fs, block: nat, level: nat, i: nat, r: nat)
    requires fs.Valid() && block != 0 && block in fs.disk && level > 0
    requires 4 * i < fs.blockSize && r < Pow(fs.blockSize / 4, level - 1)
    ensures var at := i * Pow(fs.blockSize / 4, level - 1) + r;
      at < |Leaves(fs, block, level)| && Leaves(fs, block, level)[at] == Leaves(fs, LE32(fs.disk[block], 4 * i), level - 1)[r]
  {
    var m := Pow(PerBlock(fs), level - 1);
    var parts := seq(PerBlock(fs), k requires 0 <= k < PerBlock(fs) => Leaves(fs, EntryAt(fs, block, k), level - 1));
    JoinAt(parts, m, i, r, i * m + r);
  }

  /** The whole file's block list. */
  ghost function Flat(fs: Fs, iblock: seq<nat>): seq<nat>
    requires fs.Valid() && |iblock| == 15
  {
    iblock[..12] + Leaves(fs, iblock[12], 1) + Leaves(fs, iblock[13], 2) + Leaves(fs, iblock[14], 3)
  }

  ghost function Hole(b: nat): Option<nat> {
    if b == 0 then None else Some(b)
  }

  // ------------------------------------------------------------------ lookup = entry of the list

  lemma {:induction false} QuotBound(a: nat, d: nat, n: nat)
    requires d > 0 && a < n * d
    ensures Quot(a, d) < n
  {
    if n <= Quot(a, d) {
      Scaled(n, Quot(a, d), d);
      assert false;
    }
  }

  lemma {:induction false} Scaled(p: nat, q: nat, d: nat)
    requires p <= q
    ensures p * d <= q * d
  {
    assert (q - p) * d >= 0;
    assert q * d == p * d + (q - p) * d;
  }

  lemma {:induction false} PowPositive(b: nat, k: nat)
    requires b > 0
    ensures Pow(b, k) > 0
  {
    if k > 0 {
      PowPositive(b, k - 1);
    }
  }

  /** Entry `i`'s leaves sit at their place in the block's. */
  lemma {:induction false} LeavesAt(fs: Fs, block: nat, level: nat, i: nat, r: nat, j: nat)
    requires fs.Valid() && level > 0 && block != 0 && block in fs.disk && i < PerBlock(fs)
    requires r < Pow(PerBlock(fs), level - 1) && j == i * Pow(PerBlock(fs), level - 1) + r && j < Pow(PerBlock(fs), level)
    ensures Leaves(fs, block, level)[j] == Leaves(fs, EntryAt(fs, block, i), level - 1)[r]
  {
    var parts := seq(PerBlock(fs), k requires 0 <= k < PerBlock(fs) => Leaves(fs, EntryAt(fs, block, k), level - 1));
    assert Leaves(fs, block, level) == Join(parts);
    JoinAt(parts, Pow(PerBlock(fs), level - 1), i, r, j);
  }

  /** The generic walk: one indirect block per level. */
  ghost function Look(fs: Fs, block: nat, level: nat, j: nat): Option<nat>
    requires fs.Valid() && level > 0
    decreases level
  {
    PowPositive(PerBlock(fs), level - 1);
    var m := Pow(PerBlock(fs), level - 1);
    if block == 0 then None
    else
      match ReadIndirect(fs, block, Quot(j, m))
      case None => None
      case Some(c) => if level == 1 then Some(c) else Look(fs, c, level - 1, Rem(j, m))
  }

  lemma {:induction false} LookIsLeaf(fs: Fs, block: nat, level: nat, j: nat)
    requires fs.Valid() && level > 0 && j < Pow(PerBlock(fs), level)
    ensures Look(fs, block, level, j) == Hole(Leaves(fs, block, level)[j])
    decreases level
  {
    var per := PerBlock(fs);
    PowPositive(per, level - 1);
    var m := Pow(per, level - 1);
    if block != 0 && block in fs.disk {
      QuotBound(j, m, per);
      var i, r := Quot(j, m), Rem(j, m);
      LeavesAt(fs, block, level, i, r, j);
      var c := EntryAt(fs, block, i);
      if level == 1 {
        assert r == 0 && Leaves(fs, c, 0) == [c];
      } else if c != 0 {
        LookIsLeaf(fs, c, level - 1, r);
      }
    }
  }

  lemma {:induction false} Pows(b: nat)
    ensures Pow(b, 0) == 1 && Pow(b, 1) == b && Pow(b, 2) == b * b && Pow(b, 3) == b * (b * b)
  {
  }

  /** The block of a mapped file: direct, then the three indirect trees one after another. */
  ghost function MapByLook(fs: Fs, iblock: seq<nat>, n: nat): Option<nat>
    requires fs.Valid() && |iblock| == 15
  {
    var per := PerBlock(fs);
    if n < DIRECT then Hole(iblock[n])
    else if n - DIRECT < per then Look(fs, iblock[IND], 1, n - DIRECT)
    else if n - DIRECT - per < per * per then Look(fs, iblock[DIND], 2, n - DIRECT - per)
    else if n - DIRECT - per - per * per < per * (per * per) then Look(fs, iblock[TIND], 3, n - DIRECT - per - per * per)
    else None
  }

  lemma {:induction false} Look1(fs: Fs, block: nat, j: nat)
    requires fs.Valid()
    ensures Look(fs, block, 1, j) == if block == 0 then None else ReadIndirect(fs, block, j)
  {
    Pows(PerBlock(fs));
    DivModUnique(j, 1, j, 0);
  }

  lemma {:induction false} Look2(fs: Fs, block: nat, j: nat)
    requires fs.Valid()
    ensures Look(fs, block, 2, j) ==
      if block == 0 then None
      else match ReadIndirect(fs, block, Quot(j, PerBlock(fs)))
        case None => None
        case Some(c) => ReadIndirect(fs, c, Rem(j, PerBlock(fs)))
  {
    Pows(PerBlock(fs));
    match ReadIndirect(fs, block, Quot(j, PerBlock(fs)))
    case None =>
    case Some(c) => Look1(fs, c, Rem(j, PerBlock(fs)));
  }

  lemma {:induction false} Look3(fs: Fs, block: nat, j: nat)
    requires fs.Valid()
    ensures var per := PerBlock(fs);
      Look(fs, block, 3, j) ==
        if block == 0 then None
        else match ReadIndirect(fs, block, Quot(j, per * per))
          case None => None
          case Some(c) =>
            match ReadIndirect(fs, c, Quot(Rem(j, per * per), per))
            case None => None
            case Some(e) => ReadIndirect(fs, e, Rem(Rem(j, per * per), per))
  {
    var per := PerBlock(fs);
    Pows(per);
    match ReadIndirect(fs, block, Quot(j, per * per))
    case None =>
    case Some(c) => NonZero(fs, block, Quot(j, per * per)); Look2(fs, c, Rem(j, per * per));
  }

  lemma {:induction false} NonZero(fs: Fs, block: nat, i: nat)
    requires fs.Valid() && ReadIndirect(fs, block, i).Some?
    ensures ReadIndirect(fs, block, i).value != 0
  {
  }

  lemma {:induction false} MapIsLook(fs: Fs, iblock: seq<nat>, n: nat)
    requires fs.Valid() && |iblock| == 15 && n < TWO32 + DIRECT
    ensures MapBlock(fs, iblock, n) == MapByLook(fs, iblock, n)
  {
    if n >= DIRECT {
      var per, rel := PerBlock(fs), n - DIRECT;
      assert rel % TWO32 == rel;
      if rel < per {
        Look1(fs, iblock[IND], rel);
      } else if rel - per < per * per {
        Look2(fs, iblock[DIND], rel - per);
      } else {
        Look3(fs, iblock[TIND], rel - per - per * per);
      }
    }
  }

  /** The main law: below 2^32 + 12 the map gives entry n of the flat block list, holes and
      blocks past its end failing. */
  lemma {:induction false} MapIsFlat(fs: Fs, iblock: seq<nat>, n: nat)
    requires fs.Valid() && |iblock| == 15 && n < TWO32 + DIRECT
    ensures MapBlock(fs, iblock, n) == if n < |Flat(fs, iblock)| then Hole(Flat(fs, iblock)[n]) else None
  {
    var per := PerBlock(fs);
    Pows(per);
    MapIsLook(fs, iblock, n);
    var a, b, c, d := iblock[..DIRECT], Leaves(fs, iblock[IND], 1), Leaves(fs, iblock[DIND], 2), Leaves(fs, iblock[TIND], 3);
    Segments(a, b, c, d, n);
    if DIRECT <= n {
      var rel := n - DIRECT;
      if rel < |b| {
        LookIsLeaf(fs, iblock[IND], 1, rel);
      } else if rel - |b| < |c| {
        LookIsLeaf(fs, iblock[DIND], 2, rel - |b|);
      } else if rel - |b| - |c| < |d| {
        LookIsLeaf(fs, iblock[TIND], 3, rel - |b| - |c|);
      }
    }
  }

  lemma {:induction false} Segments(a: seq<nat>, b: seq<nat>, c: seq<nat>, d: seq<nat>, n: nat)
    ensures var s := a + b + c + d;
      && (n < |a| ==> s[n] == a[n])
      && (|a| <= n < |a| + |b| ==> s[n] == b[n - |a|])
      && (|a| + |b| <= n < |a| + |b| + |c| ==> s[n] == c[n - |a| - |b|])
      && (|a| + |b| + |c| <= n < |s| ==> s[n] == d[n - |a| - |b| - |c|])
  {
  }

  /** Past that bound the 32-bit relative number wraps: the block 2^32 earlier is returned. */
  lemma {:induction false} MapWraps(fs: Fs, iblock: seq<nat>, n: nat)
    requires fs.Valid() && |iblock| == 15 && n >= TWO32 + DIRECT
    ensures MapBlock(fs, iblock, n) == MapBlock(fs, iblock, n - TWO32)
  {
    assert (n - DIRECT) % TWO32 == (n - TWO32 - DIRECT) % TWO32;
  }

  /** So the bound is exact: a one-block file where a block far past the end of the flat list
      is answered with the block 2^32 earlier. */
  lemma {:induction false} MapPastBound(n: nat)
    requires TWO32 + DIRECT == n
    ensures exists fs: Fs, iblock: seq<nat> ::
      && fs.Valid() && |iblock| == 15
      && n >= |Flat(fs, iblock)| && MapBlock(fs, iblock, n) == Some(7)
  {
    var block: seq<byte> := seq(1024, i => if i == 0 then 7 else 0);
    var fs := Fs(map[1 := block], 1024);
    var iblock: seq<nat> := seq(15, i => if i == IND then 1 else 0);
    Pows(256);
    assert |Flat(fs, iblock)| == 12 + 256 + 256 * 256 + 256 * (256 * 256);
    assert EntryAt(fs, 1, 0) == 7;
    MapWraps(fs, iblock, n);
    assert MapBlock(fs, iblock, DIRECT) == Some(7);
  }
}
