/** Extent-tree lookup of kernel/arch/x86_64/ext4.c: the descent by index keys against a
    linear scan of all leaf extents. */
module ExtentTree {
  import opened Bytes
  import opened Common
  import opened Ext4Disk

  const EXT_MAGIC: nat := 0xF30A
  const MAX_DEPTH: nat := 4
  const ZERO_LEN: nat := 0x8000

  /** `len` blocks from logical block `first`, stored from physical block `start`. */
  datatype Ext = Ext(first: nat, len: nat, start: nat)

  /** What a lookup returns: the physical block and how many follow contiguously. */
  datatype Run = Run(block: nat, count: nat)

  // ------------------------------------------------------------------ nodes

  /** A node whose entries, if its magic is right, lie inside the buffer. */
  predicate Safe(b: seq<byte>) {
    |b| >= 12 && (LE16(b, 0) == EXT_MAGIC ==> 12 + 12 * LE16(b, 2) <= |b|)
  }

  predicate IsNode(b: seq<byte>)
    requires Safe(b)
  {
    LE16(b, 0) == EXT_MAGIC
  }

  function Entries(b: seq<byte>): (n: nat)
    requires Safe(b) && IsNode(b)
    ensures 12 + 12 * n <= |b|
  {
    LE16(b, 2)
  }

  function DepthOf(b: seq<byte>): nat
    requires |b| >= 8
  {
    LE16(b, 6)
  }

  function Key(b: seq<byte>, i: nat): nat
    requires Safe(b) && IsNode(b) && i < Entries(b)
  {
    LE32(b, 12 + 12 * i)
  }

  function Child(b: seq<byte>, i: nat): nat
    requires Safe(b) && IsNode(b) && i < Entries(b)
  {
    0x1_0000_0000 * LE16(b, 12 + 12 * i + 8) + LE32(b, 12 + 12 * i + 4)
  }

  /** Lengths with the top bit set are unwritten extents; a zero length counts as one. */
  function ActualLen(raw: nat): (n: nat)
    ensures n > 0
  {
    var a := if raw >= ZERO_LEN then raw - ZERO_LEN else raw;
    if a == 0 then 1 else a
  }

  /** The length is that of the ext4 format, in which 0x8000 is the longest written extent, exactly
      for other raw values than 0 and 0x8000. */
  lemma {:induction false} LengthExact(raw: nat)
    requires raw < 0x1_0000
    ensures ActualLen(raw) == (if raw <= 0x8000 then raw else raw - 0x8000) <==> raw != 0 && raw != 0x8000
    ensures ActualLen(0x8000) == 1 && ActualLen(0) == 1
  {
  }

  function ExtAt(b: seq<byte>, i: nat): Ext
    requires Safe(b) && IsNode(b) && i < Entries(b)
  {
    Ext(LE32(b, 12 + 12 * i), ActualLen(LE16(b, 12 + 12 * i + 4)),
        0x1_0000_0000 * LE16(b, 12 + 12 * i + 6) + LE32(b, 12 + 12 * i + 8))
  }

  // ------------------------------------------------------------------ nodes on the disk

  /** A node starts with its magic number, how many entries it has, and the levels below it. */
  lemma {:induction false} HeaderIs(b: seq<byte>, n: nat, depth: nat)
    requires 12 + 12 * n <= |b| && n < 0x1_0000 && depth < 0x1_0000
    requires b[..2] == [0x0A, 0xF3] && b[2..4] == Le(n, 2) && b[6..8] == Le(depth, 2)
    ensures Safe(b) && IsNode(b) && Entries(b) == n && DepthOf(b) == depth
  {
    assert b[..2][0] == b[0] && b[..2][1] == b[1];
    LeRead16(b, 2, n);
    LeRead16(b, 6, depth);
  }

  /** The twelve bytes of leaf entry `i`: first block, length, and the 48-bit start, high part first. */
  lemma {:induction false} ExtentIs(b: seq<byte>, i: nat, e: Ext)
    requires Safe(b) && IsNode(b) && i < Entries(b)
    requires e.first < 0x1_0000_0000 && 0 < e.len < 0x8000 && e.start < 0x1_0000_0000_0000
    requires var o := 12 + 12 * i;
      && b[o..o + 4] == Le(e.first, 4) && b[o + 4..o + 6] == Le(e.len, 2)
      && b[o + 6..o + 8] == Le(e.start / 0x1_0000_0000, 2) && b[o + 8..o + 12] == Le(e.start % 0x1_0000_0000, 4)
    ensures ExtAt(b, i) == e
  {
    var o := 12 + 12 * i;
    LeRead32(b, o, e.first);
    LeRead16(b, o + 4, e.len);
    LeRead16(b, o + 6, e.start / 0x1_0000_0000);
    LeRead32(b, o + 8, e.start % 0x1_0000_0000);
  }

  /** The twelve bytes of index entry `i`: key, and the 48-bit child, low part first. */
  lemma {:induction false} IndexIs(b: seq<byte>, i: nat, key: nat, child: nat)
    requires Safe(b) && IsNode(b) && i < Entries(b) && key < 0x1_0000_0000 && child < 0x1_0000_0000_0000
    requires var o := 12 + 12 * i;
      && b[o..o + 4] == Le(key, 4) && b[o + 4..o + 8] == Le(child % 0x1_0000_0000, 4)
      && b[o + 8..o + 10] == Le(child / 0x1_0000_0000, 2)
    ensures Key(b, i) == key && Child(b, i) == child
  {
    var o := 12 + 12 * i;
    LeRead32(b, o, key);
    LeRead32(b, o + 4, child % 0x1_0000_0000);
    LeRead16(b, o + 8, child / 0x1_0000_0000);
  }

  /** All nodes a descent of this depth can visit are safe to read. */
  ghost predicate AllSafe(disk: Disk, b: seq<byte>, depth: nat)
    decreases depth
  {
    Safe(b) && (depth > 0 && IsNode(b) ==>
      forall i :: 0 <= i < Entries(b) && Child(b, i) in disk ==> AllSafe(disk, disk[Child(b, i)], depth - 1))
  }

  // ------------------------------------------------------------------ the linear reference

  predicate Covers(e: Ext, x: nat) {
    e.first <= x < e.first + e.len
  }

  /** The first extent of the list that covers `x`. */
  ghost function Scan(es: seq<Ext>, x: nat): Option<Ext> {
    if es == [] then None else if Covers(es[0], x) then Some(es[0]) else Scan(es[1..], x)
  }

  ghost function RunOf(e: Option<Ext>, x: nat): Option<Run> {
    match e
    case None => None
    case Some(e) => if Covers(e, x) then Some(Run(e.start + (x - e.first), e.first + e.len - x)) else None
  }

  /** The leaf extents of one leaf node, from entry `k` on. */
  ghost function LeafFrom(b: seq<byte>, k: nat): seq<Ext>
    requires Safe(b) && IsNode(b) && k <= Entries(b)
    decreases Entries(b) - k
  {
    if k == Entries(b) then [] else [ExtAt(b, k)] + LeafFrom(b, k + 1)
  }

  /** All leaf extents below a node, left to right. */
  ghost function Extents(disk: Disk, b: seq<byte>, depth: nat): seq<Ext>
    decreases depth, 0x1_0000
  {
    if !Safe(b) || !IsNode(b) then []
    else if depth == 0 then LeafFrom(b, 0)
    else ExtentsFrom(disk, b, depth, 0)
  }

  ghost function ExtentsFrom(disk: Disk, b: seq<byte>, depth: nat, k: nat): seq<Ext>
    requires Safe(b) && IsNode(b) && k <= Entries(b) && depth > 0
    decreases depth, Entries(b) - k
  {
    if k == Entries(b) then []
    else (if Child(b, k) in disk then Extents(disk, disk[Child(b, k)], depth - 1) else []) + ExtentsFrom(disk, b, depth, k + 1)
  }

  ghost predicate LeafOk(b: seq<byte>, lo: nat, hi: nat)
    requires Safe(b) && IsNode(b)
  {
    && (forall i :: 0 <= i < Entries(b) ==> lo <= ExtAt(b, i).first && ExtAt(b, i).first + ExtAt(b, i).len <= hi)
    && (forall i, j :: 0 <= i < j < Entries(b) ==> ExtAt(b, i).first + ExtAt(b, i).len <= ExtAt(b, j).first)
  }

  ghost predicate KeysOk(b: seq<byte>, lo: nat, hi: nat)
    requires Safe(b) && IsNode(b)
  {
    && (forall i :: 0 <= i < Entries(b) ==> lo <= Key(b, i) <= hi)
    && (forall i, j :: 0 <= i < j < Entries(b) ==> Key(b, i) < Key(b, j))
  }

  /** Keys ascend and bound their subtrees; leaf extents ascend without overlap; every node is
      readable and lies in [lo, hi). */
  ghost predicate Ordered(disk: Disk, b: seq<byte>, depth: nat, lo: nat, hi: nat)
    decreases depth, 1
  {
    && Safe(b) && IsNode(b)
    && (depth == 0 ==> LeafOk(b, lo, hi))
    && (depth > 0 ==> KeysOk(b, lo, hi))
    && (depth > 0 ==> forall i {:trigger KidOk(disk, b, depth, hi, i)} :: 0 <= i < Entries(b) ==> KidOk(disk, b, depth, hi, i))
  }

  ghost predicate KidOk(disk: Disk, b: seq<byte>, depth: nat, hi: nat, i: nat)
    requires Safe(b) && IsNode(b) && depth > 0 && i < Entries(b)
    decreases depth, 0
  {
    Child(b, i) in disk && Ordered(disk, disk[Child(b, i)], depth - 1, Key(b, i), Upper(b, i, hi))
  }

  /** Where the subtree of entry `i` must end. */
  ghost function Upper(b: seq<byte>, i: nat, hi: nat): nat
    requires Safe(b) && IsNode(b) && i < Entries(b)
  {
    if i + 1 < Entries(b) then Key(b, i + 1) else hi
  }

  // ------------------------------------------------------------------ the descent

  /** The entry the index loop settles on, searching from `i`: the first whose key is not above
      `x` while the next one's is. */
  ghost function Pick(b: seq<byte>, x: nat, i: nat): Option<nat>
    requires Safe(b) && IsNode(b) && i <= Entries(b)
    decreases Entries(b) - i
  {
    if i == Entries(b) then None
    else if Key(b, i) <= x && !(i + 1 < Entries(b) && Key(b, i + 1) <= x) then Some(i)
    else Pick(b, x, i + 1)
  }

  ghost function Descend(disk: Disk, b: seq<byte>, depth: nat, x: nat): Option<Run>
    decreases depth
  {
    if !Safe(b) || !IsNode(b) then None
    else if depth == 0 then RunOf(Scan(LeafFrom(b, 0), x), x)
    else
      match Pick(b, x, 0)
      case None => None
      case Some(i) =>
        if i < Entries(b) && Child(b, i) in disk then Descend(disk, disk[Child(b, i)], depth - 1, x) else None
  }

  // ------------------------------------------------------------------ descent = scan

  lemma {:induction false} ScanAppend(a: seq<Ext>, b: seq<Ext>, x: nat)
    ensures Scan(a + b, x) == if Scan(a, x).Some? then Scan(a, x) else Scan(b, x)
  {
    if a == [] {
      assert a + b == b;
    } else {
      assert (a + b)[1..] == a[1..] + b;
      ScanAppend(a[1..], b, x);
    }
  }

  /** A scan finds nothing exactly when nothing covers the block; what it finds covers it. */
  lemma {:induction false} ScanIff(es: seq<Ext>, x: nat)
    ensures Scan(es, x).None? <==> forall i :: 0 <= i < |es| ==> !Covers(es[i], x)
    ensures Scan(es, x).Some? ==> Scan(es, x).value in es && Covers(Scan(es, x).value, x)
  {
    if es != [] {
      ScanIff(es[1..], x);
      assert forall i :: 0 < i < |es| ==> es[i] == es[1..][i - 1];
      if Scan(es, x).None? {
        forall i | 0 <= i < |es| ensures !Covers(es[i], x) {
          if i > 0 { assert !Covers(es[1..][i - 1], x); }
        }
      }
    }
  }

  /** Every extent lies in [lo, hi). */
  ghost predicate Within(es: seq<Ext>, lo: nat, hi: nat) {
    forall i :: 0 <= i < |es| ==> lo <= es[i].first && es[i].first + es[i].len <= hi
  }

  /** Extents ascend without overlap. */
  ghost predicate Ascending(es: seq<Ext>) {
    forall i, j :: 0 <= i < j < |es| ==> es[i].first + es[i].len <= es[j].first
  }

  lemma {:induction false} JoinOrdered(a: seq<Ext>, b: seq<Ext>, lo: nat, mid: nat, hi: nat)
    requires Within(a, lo, mid) && Within(b, mid, hi) && Ascending(a) && Ascending(b) && lo <= mid <= hi
    ensures Within(a + b, lo, hi) && Ascending(a + b)
  {
    var c := a + b;
    forall i, j | 0 <= i < j < |c| ensures c[i].first + c[i].len <= c[j].first {
      if j < |a| {
        assert c[i] == a[i] && c[j] == a[j];
      } else if i >= |a| {
        assert c[i] == b[i - |a|] && c[j] == b[j - |a|];
      } else {
        assert c[i] == a[i] && c[j] == b[j - |a|];
      }
    }
  }

  lemma {:induction false} LeafOrdered(b: seq<byte>, k: nat, lo: nat, hi: nat)
    requires Safe(b) && IsNode(b) && k <= Entries(b) && LeafOk(b, lo, hi)
    ensures Within(LeafFrom(b, k), lo, hi) && Ascending(LeafFrom(b, k))
    ensures k < Entries(b) ==> Within(LeafFrom(b, k), ExtAt(b, k).first, hi)
    decreases Entries(b) - k
  {
    if k < Entries(b) {
      LeafOrdered(b, k + 1, lo, hi);
      var e, es := ExtAt(b, k), LeafFrom(b, k + 1);
      if k + 1 < Entries(b) {
        assert e.first + e.len <= ExtAt(b, k + 1).first;
        assert Within(es, e.first + e.len, hi);
      }
      JoinOrdered([e], es, e.first, e.first + e.len, hi);
    }
  }

  /** The list of all extents of an ordered tree ascends inside the tree's bounds. */
  lemma {:induction false} TreeOrdered(disk: Disk, b: seq<byte>, depth: nat, lo: nat, hi: nat)
    requires Ordered(disk, b, depth, lo, hi) && lo <= hi
    ensures Within(Extents(disk, b, depth), lo, hi) && Ascending(Extents(disk, b, depth))
    decreases depth, 0x1_0000
  {
    if depth == 0 {
      LeafOrdered(b, 0, lo, hi);
    } else if Entries(b) > 0 {
      TreeOrderedFrom(disk, b, depth, lo, hi, 0);
    }
  }

  lemma {:induction false} TreeOrderedFrom(disk: Disk, b: seq<byte>, depth: nat, lo: nat, hi: nat, k: nat)
    requires depth > 0 && Ordered(disk, b, depth, lo, hi) && lo <= hi && k < Entries(b)
    ensures Within(ExtentsFrom(disk, b, depth, k), Key(b, k), hi) && Ascending(ExtentsFrom(disk, b, depth, k))
    decreases depth, Entries(b) - k
  {
    assert KidOk(disk, b, depth, hi, k);
    var c := Child(b, k);
    var u := Upper(b, k, hi);
    TreeOrdered(disk, disk[c], depth - 1, Key(b, k), u);
    if k + 1 < Entries(b) {
      TreeOrderedFrom(disk, b, depth, lo, hi, k + 1);
    } else {
      assert ExtentsFrom(disk, b, depth, k + 1) == [];
    }
    JoinOrdered(Extents(disk, disk[c], depth - 1), ExtentsFrom(disk, b, depth, k + 1), Key(b, k), u, hi);
  }

  /** Nothing outside the bounds is covered. */
  lemma {:induction false} OutsideNone(es: seq<Ext>, lo: nat, hi: nat, x: nat)
    requires Within(es, lo, hi) && (x < lo || hi <= x)
    ensures Scan(es, x) == None
  {
    ScanIff(es, x);
  }

  /** Where the index loop ends up in an ordered node, counting from entry `k`. */
  lemma {:induction false} PickIsBracket(b: seq<byte>, lo: nat, hi: nat, x: nat, k: nat)
    requires Safe(b) && IsNode(b) && KeysOk(b, lo, hi) && k <= Entries(b)
    ensures k < Entries(b) && x < Key(b, k) ==> Pick(b, x, k).None?
    ensures k < Entries(b) && Key(b, k) <= x ==>
      && Pick(b, x, k).Some? && k <= Pick(b, x, k).value < Entries(b)
      && Key(b, Pick(b, x, k).value) <= x
      && (Pick(b, x, k).value + 1 < Entries(b) ==> x < Key(b, Pick(b, x, k).value + 1))
    decreases Entries(b) - k
  {
    if k < Entries(b) {
      PickIsBracket(b, lo, hi, x, k + 1);
      assert k + 1 < Entries(b) ==> Key(b, k) < Key(b, k + 1);
    }
  }

  /** A child that ends at or below the block holds nothing for it. */
  lemma {:induction false} SkipChild(disk: Disk, b: seq<byte>, depth: nat, hi: nat, x: nat, k: nat)
    requires Safe(b) && IsNode(b) && depth > 0 && k < Entries(b) && KidOk(disk, b, depth, hi, k)
    requires Key(b, k) <= Upper(b, k, hi) <= x
    ensures Scan(ExtentsFrom(disk, b, depth, k), x) == Scan(ExtentsFrom(disk, b, depth, k + 1), x)
  {
    var here := Extents(disk, disk[Child(b, k)], depth - 1);
    ScanAppend(here, ExtentsFrom(disk, b, depth, k + 1), x);
    TreeOrdered(disk, disk[Child(b, k)], depth - 1, Key(b, k), Upper(b, k, hi));
    OutsideNone(here, Key(b, k), Upper(b, k, hi), x);
  }

  /** Children that start above the block hold nothing for it. */
  lemma {:induction false} LastChild(disk: Disk, b: seq<byte>, depth: nat, lo: nat, hi: nat, x: nat, k: nat)
    requires depth > 0 && Ordered(disk, b, depth, lo, hi) && lo <= hi && k < Entries(b)
    requires k + 1 < Entries(b) ==> x < Key(b, k + 1)
    ensures Child(b, k) in disk
    ensures Scan(ExtentsFrom(disk, b, depth, k), x) == Scan(Extents(disk, disk[Child(b, k)], depth - 1), x)
  {
    assert KidOk(disk, b, depth, hi, k);
    var rest := ExtentsFrom(disk, b, depth, k + 1);
    ScanAppend(Extents(disk, disk[Child(b, k)], depth - 1), rest, x);
    if k + 1 < Entries(b) {
      TreeOrderedFrom(disk, b, depth, lo, hi, k + 1);
      OutsideNone(rest, Key(b, k + 1), hi, x);
    }
  }

  lemma {:induction false} KeysAscend(b: seq<byte>, lo: nat, hi: nat, k: nat, i: nat)
    requires Safe(b) && IsNode(b) && KeysOk(b, lo, hi) && k < i < Entries(b)
    ensures Key(b, k) <= Upper(b, k, hi) <= Key(b, i)
  {
    assert Key(b, k) < Key(b, k + 1) && (k + 1 < i ==> Key(b, k + 1) < Key(b, i));
  }

  /** Children before the bracketing one hold nothing for the block. */
  lemma {:induction false} SkipBefore(disk: Disk, b: seq<byte>, depth: nat, lo: nat, hi: nat, x: nat, i: nat)
    requires depth > 0 && Ordered(disk, b, depth, lo, hi) && 0 < i < Entries(b) && Key(b, i - 1) <= Key(b, i) <= x
    ensures Scan(ExtentsFrom(disk, b, depth, i - 1), x) == Scan(ExtentsFrom(disk, b, depth, i), x)
  {
    assert KidOk(disk, b, depth, hi, i - 1);
    SkipChild(disk, b, depth, hi, x, i - 1);
  }

  lemma {:induction false} SkipTo(disk: Disk, b: seq<byte>, depth: nat, lo: nat, hi: nat, x: nat, i: nat)
    requires depth > 0 && Ordered(disk, b, depth, lo, hi) && i < Entries(b) && Key(b, i) <= x
    ensures Scan(ExtentsFrom(disk, b, depth, 0), x) == Scan(ExtentsFrom(disk, b, depth, i), x)
    decreases i
  {
    if i > 0 {
      KeysAscend(b, lo, hi, i - 1, i);
      SkipTo(disk, b, depth, lo, hi, x, i - 1);
      SkipBefore(disk, b, depth, lo, hi, x, i);
    }
  }

  /** The main law: in an ordered tree of any depth the descent returns exactly what a linear
      scan over all leaf extents would, and fails exactly when no extent covers the block. */
  lemma {:induction false} DescentIsScan(disk: Disk, b: seq<byte>, depth: nat, lo: nat, hi: nat, x: nat)
    requires Ordered(disk, b, depth, lo, hi) && lo <= hi
    ensures Descend(disk, b, depth, x) == RunOf(Scan(Extents(disk, b, depth), x), x)
    decreases depth
  {
    if depth > 0 && Entries(b) > 0 {
      PickIsBracket(b, lo, hi, x, 0);
      if Key(b, 0) <= x {
        var i := Pick(b, x, 0).value;
        assert KidOk(disk, b, depth, hi, i);
        SkipTo(disk, b, depth, lo, hi, x, i);
        LastChild(disk, b, depth, lo, hi, x, i);
        assert Key(b, i) <= Upper(b, i, hi);
        DescentIsScan(disk, disk[Child(b, i)], depth - 1, Key(b, i), Upper(b, i, hi), x);
      } else {
        TreeOrderedFrom(disk, b, depth, lo, hi, 0);
        OutsideNone(Extents(disk, b, depth), Key(b, 0), hi, x);
      }
    }
  }

  /** Every block of the returned run maps contiguously. */
  lemma {:induction false} RunContiguous(disk: Disk, b: seq<byte>, depth: nat, lo: nat, hi: nat, x: nat, k: nat)
    requires Ordered(disk, b, depth, lo, hi) && lo <= hi
    requires Descend(disk, b, depth, x).Some? && k < Descend(disk, b, depth, x).value.count
    ensures var r := Descend(disk, b, depth, x).value;
      Descend(disk, b, depth, x + k) == Some(Run(r.block + k, r.count - k))
  {
    var es := Extents(disk, b, depth);
    DescentIsScan(disk, b, depth, lo, hi, x);
    DescentIsScan(disk, b, depth, lo, hi, x + k);
    TreeOrdered(disk, b, depth, lo, hi);
    ScanStays(es, x, x + k);
  }

  /** In an ascending list at most one extent covers a block. */
  lemma {:induction false} ScanUnique(es: seq<Ext>, x: nat, i: nat)
    requires Ascending(es) && i < |es| && Covers(es[i], x)
    ensures Scan(es, x) == Some(es[i])
    decreases i
  {
    if i > 0 {
      assert !Covers(es[0], x);
      assert Ascending(es[1..]) by { assert forall j :: 0 <= j < |es[1..]| ==> es[1..][j] == es[j + 1]; }
      ScanUnique(es[1..], x, i - 1);
    }
  }

  /** The extent that covers a block gives its physical block and the rest of the extent. */
  lemma {:induction false} RunIs(disk: Disk, b: seq<byte>, depth: nat, lo: nat, hi: nat, x: nat, i: nat)
    requires Ordered(disk, b, depth, lo, hi) && lo <= hi && i < |Extents(disk, b, depth)|
    requires var e := Extents(disk, b, depth)[i]; e.first <= x < e.first + e.len
    ensures var e := Extents(disk, b, depth)[i];
      Descend(disk, b, depth, x) == Some(Run(e.start + x - e.first, e.first + e.len - x))
  {
    DescentIsScan(disk, b, depth, lo, hi, x);
    TreeOrdered(disk, b, depth, lo, hi);
    ScanUnique(Extents(disk, b, depth), x, i);
  }

  lemma {:induction false} ScanStays(es: seq<Ext>, x: nat, y: nat)
    requires Ascending(es) && Scan(es, x).Some? && Covers(Scan(es, x).value, y)
    ensures Scan(es, y) == Scan(es, x)
  {
    ScanIff(es, x);
    if !Covers(es[0], x) {
      ScanIff(es[1..], x);
      var i :| 0 <= i < |es[1..]| && es[1..][i] == Scan(es, x).value;
      assert es[i + 1] == Scan(es, x).value;
      assert !Covers(es[0], y);
      assert Ascending(es[1..]) by { assert forall j :: 0 <= j < |es[1..]| ==> es[1..][j] == es[j + 1]; }
      ScanStays(es[1..], x, y);
    }
  }

  // ------------------------------------------------------------------ the code

  /** The index loop of one level. */
  method PickEntry(b: seq<byte>, x: nat) returns (found: bool, i: nat)
    requires Safe(b) && IsNode(b)
    ensures found ==> i < Entries(b)
    ensures Pick(b, x, 0) == if found then Some(i) else None
  {
    i := 0;
    while i < Entries(b)
      invariant 0 <= i <= Entries(b) && Pick(b, x, 0) == Pick(b, x, i)
    {
      if Key(b, i) <= x {
        if i + 1 < Entries(b) && Key(b, i + 1) <= x {
          i := i + 1;
          continue;
        }
        return true, i;
      }
      i := i + 1;
    }
    return false, i;
  }

  /** The extent loop of the leaf. */
  method ScanLeaf(b: seq<byte>, x: nat) returns (r: Option<Run>)
    requires Safe(b) && IsNode(b)
    ensures r == RunOf(Scan(LeafFrom(b, 0), x), x)
  {
    var i := 0;
    while i < Entries(b)
      invariant 0 <= i <= Entries(b) && Scan(LeafFrom(b, 0), x) == Scan(LeafFrom(b, i), x)
    {
      var e := ExtAt(b, i);
      assert LeafFrom(b, i)[0] == e && LeafFrom(b, i)[1..] == LeafFrom(b, i + 1);
      if x >= e.first && x < e.first + e.len {
        return Some(Run(e.start + (x - e.first), e.first + e.len - x));
      }
      i := i + 1;
    }
    return None;
  }

  /** ext4_read_extent_block on an inode with extents: `root` is the inode's block area. */
  method ReadExtentBlock(disk: Disk, root: seq<byte>, x: nat) returns (r: Option<Run>)
    requires |root| >= 12 && AllSafe(disk, root, DepthOf(root)) && DepthOf(root) <= 4
    ensures r == Descend(disk, root, DepthOf(root), x)
  {
    if !IsNode(root) {
      return None;
    }
    var path := new nat[MAX_DEPTH];
    var used := 0;
    var cur := root;
    var depth := DepthOf(root);
    while depth > 0
      invariant 0 <= depth && used + depth == DepthOf(root) && AllSafe(disk, cur, depth)
      invariant Descend(disk, root, DepthOf(root), x) == Descend(disk, cur, depth, x)
    {
      if !IsNode(cur) {
        return None;
      }
      var found, i := PickEntry(cur, x);
      if !found {
        return None;
      }
      var leaf := Child(cur, i);
      if leaf !in disk {
        return None;
      }
      path[used] := leaf;
      used := used + 1;
      cur := disk[leaf];
      depth := depth - 1;
    }
    if !IsNode(cur) {
      return None;
    }
    r := ScanLeaf(cur, x);
  }
}
