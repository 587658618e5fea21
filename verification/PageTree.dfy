/** Four-level page tables of kernel/arch/x86_64/memory.c as values: entries, the walk, and
    what one entry's change does to every translation. */
module PageTree {
  import opened Bits
  import opened Common

  const FANOUT: nat := 512
  const TABLE_FLAGS: nat := 3

  // ------------------------------------------------------------------ entries

  predicate Present(e: nat) {
    e % 2 == 1
  }

  predicate Huge(e: nat) {
    Shr(e, 7) % 2 == 1
  }

  /** Bits 12 to 51. */
  function Addr(e: nat): nat {
    Low(Shr(e, 12), 40) * 4096
  }

  /** PTE_FLAGS: bitwise or of an address and flags. */
  function Entry(addr: nat, flags: nat): nat {
    Or(addr, flags)
  }

  lemma Pow2Values()
    ensures Pow2(7) == 128 && Pow2(9) == 512 && Pow2(12) == 4096
  {
    assert Pow2(4) == 16;
    assert Pow2(8) == 256;
    assert Pow2(12) == 4096;
  }

  /** Flags below bit k leave the bits from k on alone. */
  lemma {:induction false} LowFlags(t: nat, f: nat, k: nat)
    requires f < Pow2(k)
    ensures Shr(Or(t, f), k) == Shr(t, k)
  {
    OrFields(t, f, k);
    OrZero(Shr(t, k));
    ShrSmall(f, k);
  }

  lemma {:induction false} ShrValues(t: nat)
    ensures Shr(t, 12) == t / 4096 && Low(t, 12) == t % 4096
  {
    Pow2Values();
    ShrIsDiv(t, 12);
  }

  lemma {:induction false} HighField(x: nat, k: nat)
    requires Shr(x, k) == 0
    ensures Low(x, k) == x
  {
    Split(x, k);
  }

  /** A page-aligned address below 2^52 is its own address field. */
  lemma {:induction false} AlignedAddr(t: nat)
    requires t % 4096 == 0 && Shr(t, 52) == 0
    ensures Low(Shr(t, 12), 40) * 4096 == t && Shr(t, 7) % 2 == 0
  {
    ShrValues(t);
    assert Low(Shr(t, 12), 40) == Shr(t, 12) by {
      ShrShr(t, 12, 40);
      HighField(Shr(t, 12), 40);
    }
    LowField(t, 12, 7, 1);
    LowZero(7);
    assert Low(Shr(t, 7), 1) == Shr(t, 7) % 2;
  }

  /** A page-aligned table address survives being stored with its flag bits. */
  lemma {:induction false} TableEntry(t: nat)
    requires t % 4096 == 0 && Shr(t, 52) == 0
    ensures var e := Entry(t, TABLE_FLAGS); Present(e) && !Huge(e) && Addr(e) == t
  {
    Pow2Values();
    OrHalf(t, TABLE_FLAGS);
    LowFlags(t, TABLE_FLAGS, 7);
    LowFlags(t, TABLE_FLAGS, 12);
    AlignedAddr(t);
  }

  /** Whatever the address and flags, a stored leaf entry is present. */
  lemma {:induction false} LeafPresent(paddr: nat, flags: nat)
    ensures Present(Entry(paddr, Or(flags, 1)))
  {
    OrHalf(flags, 1);
    OrHalf(paddr, Or(flags, 1));
  }

  /** A page-aligned frame below 2^52 with flags outside the address field is stored exactly. */
  lemma {:induction false} LeafFrame(paddr: nat, flags: nat)
    requires paddr % 4096 == 0 && Shr(paddr, 52) == 0 && Addr(flags) == 0
    ensures Addr(Entry(paddr, Or(flags, 1))) == paddr
  {
    var f := Or(flags, 1);
    assert Shr(f, 12) == Shr(flags, 12) by {
      Pow2Values();
      LowFlags(flags, 1, 12);
    }
    OrFields(paddr, f, 12);
    OrFields(Shr(paddr, 12), Shr(f, 12), 40);
    OrZero(Low(Shr(paddr, 12), 40));
    AlignedAddr(paddr);
  }

  /** Presence is bit 0, the size bit is bit 7, the address field is bits 12 to 51. */
  lemma {:induction false} EntryFields(e: nat)
    ensures Present(e) <==> e % 2 == 1
    ensures Huge(e) <==> e / 128 % 2 == 1
    ensures Addr(e) == e % 0x10_0000_0000_0000 - e % 0x1000
  {
    Powers();
    Pow2Values();
    ShrIsDiv(e, 7);
    ShrValues(e);
    ShrIsDiv(Shr(e, 12), 40);
    FieldOf(e, 0x1000, 0x100_0000_0000);
  }

  lemma {:induction false} FieldOf(e: nat, a: nat, b: nat)
    requires a == 0x1000 && b == 0x100_0000_0000
    ensures e / a % b * a == e % (a * b) - e % a
  {
  }

  /** A table entry is the address of the table, present and writable. */
  lemma {:induction false} TableEntryIs(t: nat)
    requires t % 4096 == 0
    ensures Entry(t, TABLE_FLAGS) == t + 3
  {
    OrHalf(t, 3);
    OrHalf(t / 2, 1);
    OrZero(t / 4);
  }

  /** Each bit of a mapped entry is one of the frame or of the flags, or the present bit. */
  lemma {:induction false} LeafBits(paddr: nat, flags: nat, k: nat)
    ensures Bit(Entry(paddr, Or(flags, 1)), k) == 1 <==> Bit(paddr, k) == 1 || Bit(flags, k) == 1 || k == 0
  {
    var e := Entry(paddr, Or(flags, 1));
    OrFields(paddr, Or(flags, 1), k);
    OrFields(flags, 1, k);
    OrHalf(Shr(paddr, k), Shr(Or(flags, 1), k));
    OrHalf(Shr(flags, k), Shr(1, k));
    ShrBit(e, k);
    ShrBit(paddr, k);
    ShrBit(flags, k);
    if k > 0 {
      LowZero(k - 1);
    }
  }

  // ------------------------------------------------------------------ addresses

  /** Address bits 12 to 47. */
  function PageOf(vaddr: nat): nat {
    Low(Shr(vaddr, 12), 36)
  }

  /** A page number with its lowest `level` indices dropped. */
  function Above(page: nat, level: nat): nat {
    Shr(page, 9 * level)
  }

  /** The index a walk for `page` uses in a table of the given level (4 is the root). */
  function Index(page: nat, level: nat): (i: nat)
    requires level > 0
    ensures i < FANOUT
  {
    Pow2Values();
    Split(Above(page, level - 1), 9);
    Low(Above(page, level - 1), 9)
  }

  lemma {:induction false} AboveStep(page: nat, level: nat)
    requires level > 0
    ensures Above(page, level - 1) == Above(page, level) * FANOUT + Index(page, level)
  {
    Pow2Values();
    Split(Above(page, level - 1), 9);
    ShrShr(page, 9 * (level - 1), 9);
  }

  ghost predicate IsPage(page: nat) {
    Above(page, 4) == 0
  }

  /** The page number is the address in pages, below 2^36. */
  lemma {:induction false} PageOfIs(v: nat)
    ensures PageOf(v) == v / 0x1000 % 0x10_0000_0000
  {
    Powers();
    ShrValues(v);
    ShrIsDiv(Shr(v, 12), 36);
  }

  lemma {:induction false} PageOfIsPage(v: nat)
    ensures IsPage(PageOf(v))
  {
    Split(Shr(v, 12), 36);
    ShrSmall(PageOf(v), 36);
  }

  /** The shifted and masked address fields of the code are the indices of the page number. */
  lemma {:induction false} IndexField(v: nat, level: nat)
    requires 1 <= level <= 4
    ensures Low(Shr(v, 12 + 9 * (level - 1)), 9) == Index(PageOf(v), level)
  {
    ShrShr(v, 12, 9 * (level - 1));
    LowField(Shr(v, 12), 36, 9 * (level - 1), 9);
  }

  // ------------------------------------------------------------------ the walk

  /** Table memory: table address to its 512 entries. */
  type Memory = map<nat, seq<nat>>

  function Store(mem: Memory, t: nat, i: nat, e: nat): Memory
    requires t in mem && i < |mem[t]|
  {
    var row: seq<nat> := mem[t][i := e];
    mem[t := row]
  }

  /** The frame `page` translates to, by the table walk from table `t` of the given level. */
  ghost function Walk(mem: Memory, t: nat, level: nat, page: nat): Option<nat>
    decreases level
  {
    if level == 0 || t !in mem || |mem[t]| != FANOUT then None
    else
      var e := mem[t][Index(page, level)];
      if !Present(e) then None
      else if level == 1 then Some(Addr(e))
      else if level == 2 && Huge(e) then Some(Addr(e) + Index(page, 1) * 4096)
      else Walk(mem, Addr(e), level - 1, page)
  }

  /** The present page-table entry that the walk for `page` ends at, if it does. */
  ghost function Leaf(mem: Memory, t: nat, level: nat, page: nat): Option<nat>
    decreases level
  {
    if level == 0 || t !in mem || |mem[t]| != FANOUT then None
    else
      var e := mem[t][Index(page, level)];
      if !Present(e) || (level == 2 && Huge(e)) then None
      else if level == 1 then Some(e)
      else Leaf(mem, Addr(e), level - 1, page)
  }

  /** The walk for `page` from `t` at `level` passes through table `u` at level `k`. */
  ghost predicate Reaches(mem: Memory, t: nat, level: nat, page: nat, u: nat, k: nat)
    decreases level
  {
    if level <= k then level == k && t == u
    else
      && t in mem && |mem[t]| == FANOUT && Present(mem[t][Index(page, level)])
      && !(level == 2 && Huge(mem[t][Index(page, level)]))
      && Reaches(mem, Addr(mem[t][Index(page, level)]), level - 1, page, u, k)
  }

  /** Where each table sits: its level, and the page-number prefix that leads to it. */
  datatype Place = Place(level: nat, prefix: nat)

  /** The entry points to a lower table. */
  ghost predicate Links(e: nat, level: nat) {
    level > 1 && Present(e) && !(level == 2 && Huge(e))
  }

  /** The tables form a tree below `root`: every link leads to a table one level down at the
      right prefix, every other table is linked from its parent, no two share a place. */
  ghost predicate TreeShaped(mem: Memory, root: nat, place: map<nat, Place>, up: map<nat, nat>) {
    && place.Keys == mem.Keys && up.Keys == mem.Keys
    && root in mem && place[root] == Place(4, 0)
    && AllTables(mem, place) && AllLinks(mem, place) && AllParents(mem, root, place, up) && OnePerPlace(place)
  }

  ghost predicate AllTables(mem: Memory, place: map<nat, Place>)
    requires place.Keys == mem.Keys
  {
    forall t {:trigger TableOk(mem, t, place)} :: t in mem ==> TableOk(mem, t, place)
  }

  ghost predicate AllLinks(mem: Memory, place: map<nat, Place>)
    requires place.Keys == mem.Keys
  {
    forall t, i {:trigger LinkOk(mem, t, i, place)} :: t in mem && 0 <= i < FANOUT ==> LinkOk(mem, t, i, place)
  }

  ghost predicate AllParents(mem: Memory, root: nat, place: map<nat, Place>, up: map<nat, nat>)
    requires place.Keys == mem.Keys == up.Keys
  {
    forall t {:trigger ParentOk(mem, t, place, up)} :: t in mem && t != root ==> ParentOk(mem, t, place, up)
  }

  ghost predicate OnePerPlace(place: map<nat, Place>) {
    forall t, u {:trigger SamePlace(place, t, u)} :: SamePlace(place, t, u) ==> t == u
  }

  ghost predicate SamePlace(place: map<nat, Place>, t: nat, u: nat) {
    t in place && u in place && place[t] == place[u]
  }

  ghost predicate TableOk(mem: Memory, t: nat, place: map<nat, Place>)
    requires t in mem && t in place
  {
    |mem[t]| == FANOUT && t != 0 && Shr(t, 52) == 0 && t % 4096 == 0 && 1 <= place[t].level <= 4
  }

  ghost predicate LinkOk(mem: Memory, t: nat, i: nat, place: map<nat, Place>)
    requires t in mem && t in place
  {
    |mem[t]| == FANOUT && i < FANOUT && Links(mem[t][i], place[t].level) ==>
      var c := Addr(mem[t][i]);
      c in mem && c in place && place[c] == Place(place[t].level - 1, place[t].prefix * FANOUT + i)
  }

  ghost predicate ParentOk(mem: Memory, u: nat, place: map<nat, Place>, up: map<nat, nat>)
    requires u in place && u in up
  {
    var t := up[u];
    && t in mem && t in place && |mem[t]| == FANOUT
    && place[t] == Place(place[u].level + 1, place[u].prefix / FANOUT)
    && Links(mem[t][place[u].prefix % FANOUT], place[t].level) && Addr(mem[t][place[u].prefix % FANOUT]) == u
  }

  /** A walk that has reached `t` goes on to the table its entry names. */
  lemma {:induction false} ReachStep(mem: Memory, t: nat, level: nat, page: nat, u: nat, k: nat)
    requires Reaches(mem, t, level, page, u, k) && 1 < k
    requires u in mem && |mem[u]| == FANOUT && Links(mem[u][Index(page, k)], k)
    ensures Reaches(mem, t, level, page, Addr(mem[u][Index(page, k)]), k - 1)
    decreases level
  {
    if level > k {
      ReachStep(mem, Addr(mem[t][Index(page, level)]), level - 1, page, u, k);
    } else {
      var c := Addr(mem[u][Index(page, k)]);
      assert Reaches(mem, c, k - 1, page, c, k - 1);
    }
  }

  /** What the walk finds once it has reached `u`. */
  lemma {:induction false} WalkVia(mem: Memory, t: nat, level: nat, page: nat, u: nat, k: nat)
    requires Reaches(mem, t, level, page, u, k) && k >= 1
    ensures Walk(mem, t, level, page) == Walk(mem, u, k, page)
    decreases level
  {
    if level > k {
      WalkVia(mem, Addr(mem[t][Index(page, level)]), level - 1, page, u, k);
    }
  }

  lemma {:induction false} NinthShift(x: nat)
    ensures Shr(x, 9) == x / FANOUT && Low(x, 9) == x % FANOUT
  {
    Pow2Values();
    ShrIsDiv(x, 9);
  }

  /** A walk that keeps to places comes to tables at their places. */
  lemma {:induction false} ReachedPlace(mem: Memory, root: nat, place: map<nat, Place>, up: map<nat, nat>, t: nat, q: nat, u: nat, k: nat)
    requires TreeShaped(mem, root, place, up) && t in mem && place[t].prefix == Above(q, place[t].level)
    requires Reaches(mem, t, place[t].level, q, u, k) && k >= 1
    ensures u in mem && place[u] == Place(k, Above(q, k))
    decreases place[t].level
  {
    var level := place[t].level;
    assert TableOk(mem, t, place);
    if level > k {
      var j := Index(q, level);
      AboveStep(q, level);
      assert LinkOk(mem, t, j, place);
      ReachedPlace(mem, root, place, up, Addr(mem[t][j]), q, u, k);
    }
  }

  /** The walks that come to a table are exactly those of the pages below its place. */
  lemma {:induction false} ReachedIff(mem: Memory, root: nat, place: map<nat, Place>, up: map<nat, nat>, u: nat, q: nat)
    requires TreeShaped(mem, root, place, up) && u in mem
    ensures IsPage(q) && Reaches(mem, root, 4, q, u, place[u].level) <==> Above(q, place[u].level) == place[u].prefix
  {
    assert TableOk(mem, u, place);
    if Above(q, place[u].level) == place[u].prefix {
      PlaceReached(mem, root, place, up, u, q);
    } else if IsPage(q) && Reaches(mem, root, 4, q, u, place[u].level) {
      ReachedPlace(mem, root, place, up, root, q, u, place[u].level);
    }
  }

  /** Every page below the place of a table is a page, and its walk comes to the table. */
  lemma {:induction false} PlaceReached(mem: Memory, root: nat, place: map<nat, Place>, up: map<nat, nat>, u: nat, q: nat)
    requires TreeShaped(mem, root, place, up) && u in mem && Above(q, place[u].level) == place[u].prefix
    ensures IsPage(q) && Reaches(mem, root, 4, q, u, place[u].level)
    decreases 4 - place[u].level
  {
    assert TableOk(mem, u, place);
    if u != root {
      var t, level := up[u], place[u].level;
      assert ParentOk(mem, u, place, up) && TableOk(mem, t, place);
      NinthShift(place[u].prefix);
      AboveStep(q, level + 1);
      PlaceReached(mem, root, place, up, t, q);
      ReachStep(mem, root, 4, q, t, level + 1);
    }
  }

  /** The walk of the page that an entry of a page table is for comes to that entry. */
  lemma {:induction false} TableReached(mem: Memory, root: nat, place: map<nat, Place>, up: map<nat, nat>, pt: nat, i: nat, q: nat)
    requires TreeShaped(mem, root, place, up) && pt in mem && place[pt].level == 1 && i < FANOUT
    requires q == place[pt].prefix * FANOUT + i
    ensures IsPage(q) && Index(q, 1) == i && place[pt] == Place(1, Above(q, 1)) && Reaches(mem, root, 4, q, pt, 1)
  {
    NinthShift(q);
    assert Above(q, 0) == q;
    PlaceReached(mem, root, place, up, pt, q);
  }

  // ------------------------------------------------------------------ changing one entry

  /** Changing entry `i` of the page table `pt` changes no walk but that of the page it is for. */
  lemma {:induction false} LeafChange(mem: Memory, root: nat, place: map<nat, Place>, up: map<nat, nat>,
                                      pt: nat, i: nat, e: nat, t: nat, q: nat)
    requires TreeShaped(mem, root, place, up) && pt in mem && place[pt].level == 1 && i < FANOUT == |mem[pt]|
    requires t in mem && place[t].prefix == Above(q, place[t].level)
    requires q != place[pt].prefix * FANOUT + i
    ensures Walk(Store(mem, pt, i, e), t, place[t].level, q) == Walk(mem, t, place[t].level, q)
    decreases place[t].level
  {
    var level := place[t].level;
    assert TableOk(mem, t, place);
    var mem' := Store(mem, pt, i, e);
    var j := Index(q, level);
    AboveStep(q, level);
    assert LinkOk(mem, t, j, place);
    if level > 1 {
      assert mem'[t] == mem[t];
      if Links(mem[t][j], level) {
        LeafChange(mem, root, place, up, pt, i, e, Addr(mem[t][j]), q);
      }
    } else if t == pt {
      assert j != i;
    }
  }

  /** Nor does it change which tables walks pass through. */
  lemma {:induction false} LeafChangeReach(mem: Memory, root: nat, place: map<nat, Place>, up: map<nat, nat>,
                                           pt: nat, i: nat, e: nat, t: nat, q: nat, u: nat, k: nat)
    requires TreeShaped(mem, root, place, up) && pt in mem && place[pt].level == 1 && i < FANOUT == |mem[pt]|
    requires t in mem && 1 <= k && Reaches(mem, t, place[t].level, q, u, k)
    ensures Reaches(Store(mem, pt, i, e), t, place[t].level, q, u, k)
    decreases place[t].level
  {
    var level := place[t].level;
    assert TableOk(mem, t, place);
    if level > k {
      var j := Index(q, level);
      assert LinkOk(mem, t, j, place);
      LeafChangeReach(mem, root, place, up, pt, i, e, Addr(mem[t][j]), q, u, k);
    }
  }

  /** After the change the page's own walk finds the new entry. */
  lemma {:induction false} LeafStored(mem: Memory, root: nat, place: map<nat, Place>, up: map<nat, nat>,
                                      pt: nat, e: nat, page: nat)
    requires TreeShaped(mem, root, place, up) && IsPage(page)
    requires pt in mem && |mem[pt]| == FANOUT && place[pt] == Place(1, Above(page, 1)) && Reaches(mem, root, 4, page, pt, 1)
    ensures Walk(Store(mem, pt, Index(page, 1), e), root, 4, page) == if Present(e) then Some(Addr(e)) else None
  {
    var mem' := Store(mem, pt, Index(page, 1), e);
    assert TableOk(mem, pt, place);
    LeafChangeReach(mem, root, place, up, pt, Index(page, 1), e, root, page, pt, 1);
    WalkVia(mem', root, 4, page, pt, 1);
  }

  lemma {:induction false} LeafKeepsTree(mem: Memory, root: nat, place: map<nat, Place>, up: map<nat, nat>, pt: nat, i: nat, e: nat)
    requires TreeShaped(mem, root, place, up) && pt in mem && place[pt].level == 1 && i < FANOUT == |mem[pt]|
    ensures TreeShaped(Store(mem, pt, i, e), root, place, up)
  {
    var mem' := Store(mem, pt, i, e);
    forall t | t in mem' ensures TableOk(mem', t, place) {
      assert TableOk(mem, t, place);
    }
    forall t, j | t in mem' && 0 <= j < FANOUT ensures LinkOk(mem', t, j, place) {
      assert LinkOk(mem, t, j, place);
    }
    forall t | t in mem' && t != root ensures ParentOk(mem', t, place, up) {
      assert ParentOk(mem, t, place, up);
    }
  }

  /** An entry that names no table may take the place of an absent one. */
  lemma {:induction false} HugeKeepsTree(mem: Memory, root: nat, place: map<nat, Place>, up: map<nat, nat>, pd: nat, i: nat, e: nat)
    requires TreeShaped(mem, root, place, up) && pd in mem && i < FANOUT == |mem[pd]|
    requires !Present(mem[pd][i]) && !Links(e, place[pd].level)
    ensures TreeShaped(Store(mem, pd, i, e), root, place, up)
  {
    var mem' := Store(mem, pd, i, e);
    forall t | t in mem' ensures TableOk(mem', t, place) {
      assert TableOk(mem, t, place);
    }
    forall t, j | t in mem' && 0 <= j < FANOUT ensures LinkOk(mem', t, j, place) {
      assert LinkOk(mem, t, j, place);
    }
    forall t | t in mem' && t != root ensures ParentOk(mem', t, place, up) {
      assert ParentOk(mem, t, place, up);
    }
  }

  // ------------------------------------------------------------------ adding a table

  function Zeros(): (z: seq<nat>)
    ensures |z| == FANOUT && forall i :: 0 <= i < FANOUT ==> z[i] == 0
  {
    seq(FANOUT, _ => 0)
  }

  /** The absent entry `i` of `t` now names the zeroed table `c`. */
  function WithTable(mem: Memory, t: nat, i: nat, c: nat): Memory
    requires t in mem && i < |mem[t]|
  {
    Store(mem, t, i, Entry(c, TABLE_FLAGS))[c := Zeros()]
  }

  ghost predicate CanAdd(mem: Memory, root: nat, place: map<nat, Place>, up: map<nat, nat>, t: nat, i: nat, c: nat) {
    && TreeShaped(mem, root, place, up)
    && t in mem && place[t].level > 1 && i < FANOUT == |mem[t]| && !Present(mem[t][i])
    && c !in mem && c != 0 && Shr(c, 52) == 0 && c % 4096 == 0
  }

  ghost function PlaceBelow(place: map<nat, Place>, t: nat, i: nat): Place
    requires t in place && place[t].level > 0
  {
    Place(place[t].level - 1, place[t].prefix * FANOUT + i)
  }

  /** No table can already sit where the absent entry would lead. */
  lemma {:induction false} PlaceVacant(mem: Memory, root: nat, place: map<nat, Place>, up: map<nat, nat>, t: nat, i: nat, c: nat, u: nat)
    requires CanAdd(mem, root, place, up, t, i, c) && u in mem
    ensures place[u] != PlaceBelow(place, t, i)
  {
    assert TableOk(mem, t, place);
    if u != root {
      assert ParentOk(mem, u, place, up);
      assert SamePlace(place, up[u], t) ==> up[u] == t;
    }
  }

  lemma {:induction false} AddKeepsLinks(mem: Memory, root: nat, place: map<nat, Place>, up: map<nat, nat>, t: nat, i: nat, c: nat, u: nat, j: nat)
    requires CanAdd(mem, root, place, up, t, i, c) && (u in mem || u == c) && j < FANOUT
    ensures LinkOk(WithTable(mem, t, i, c), u, j, place[c := PlaceBelow(place, t, i)])
  {
    TableEntry(c);
    if u != c { assert LinkOk(mem, u, j, place) && TableOk(mem, u, place); }
  }

  lemma {:induction false} AddKeepsParents(mem: Memory, root: nat, place: map<nat, Place>, up: map<nat, nat>, t: nat, i: nat, c: nat, u: nat)
    requires CanAdd(mem, root, place, up, t, i, c) && (u in mem || u == c) && u != root
    ensures TableOk(WithTable(mem, t, i, c), u, place[c := PlaceBelow(place, t, i)])
    ensures ParentOk(WithTable(mem, t, i, c), u, place[c := PlaceBelow(place, t, i)], up[c := t])
  {
    TableEntry(c);
    assert TableOk(mem, t, place);
    if u != c { assert ParentOk(mem, u, place, up) && TableOk(mem, u, place) && TableOk(mem, up[u], place); }
  }

  lemma {:induction false} AddKeepsTree(mem: Memory, root: nat, place: map<nat, Place>, up: map<nat, nat>, t: nat, i: nat, c: nat)
    requires CanAdd(mem, root, place, up, t, i, c)
    ensures TreeShaped(WithTable(mem, t, i, c), root, place[c := PlaceBelow(place, t, i)], up[c := t])
  {
    var mem', place', up' := WithTable(mem, t, i, c), place[c := PlaceBelow(place, t, i)], up[c := t];
    assert AllTables(mem', place') && AllParents(mem', root, place', up') by {
      forall u | u in mem' && u != root ensures TableOk(mem', u, place') && ParentOk(mem', u, place', up') {
        AddKeepsParents(mem, root, place, up, t, i, c, u);
      }
      assert TableOk(mem, root, place);
    }
    assert AllLinks(mem', place') by {
      forall u, j | u in mem' && 0 <= j < FANOUT ensures LinkOk(mem', u, j, place') {
        AddKeepsLinks(mem, root, place, up, t, i, c, u, j);
      }
    }
    assert OnePerPlace(place') by {
      forall u, v | SamePlace(place', u, v) ensures u == v {
        if u != c { PlaceVacant(mem, root, place, up, t, i, c, u); }
        if v != c { PlaceVacant(mem, root, place, up, t, i, c, v); }
        assert u != c && v != c ==> SamePlace(place, u, v);
      }
    }
  }

  /** A present entry is not touched. */
  lemma {:induction false} AddElsewhere(mem: Memory, t: nat, i: nat, c: nat, s: nat, j: nat)
    requires t in mem && s in mem && c !in mem && i < |mem[t]| && j < |mem[s]| && (s != t || j != i)
    ensures var mem' := WithTable(mem, t, i, c); s in mem' && |mem'[s]| == |mem[s]| && mem'[s][j] == mem[s][j]
  {
  }

  /** The absent entry names the empty table. */
  lemma {:induction false} AddThere(mem: Memory, t: nat, i: nat, c: nat)
    requires t in mem && c !in mem && i < |mem[t]| && c % 4096 == 0 && Shr(c, 52) == 0
    ensures var mem' := WithTable(mem, t, i, c);
      && t in mem' && c in mem' && mem'[c] == Zeros() && |mem'[t]| == |mem[t]|
      && Present(mem'[t][i]) && !Huge(mem'[t][i]) && Addr(mem'[t][i]) == c
  {
    TableEntry(c);
  }

  /** A new empty table changes no translation. */
  lemma {:induction false} AddKeepsWalk(mem: Memory, root: nat, place: map<nat, Place>, up: map<nat, nat>, t: nat, i: nat, c: nat, s: nat, q: nat)
    requires CanAdd(mem, root, place, up, t, i, c) && s in mem
    ensures Walk(WithTable(mem, t, i, c), s, place[s].level, q) == Walk(mem, s, place[s].level, q)
    decreases place[s].level
  {
    var level, mem' := place[s].level, WithTable(mem, t, i, c);
    assert TableOk(mem, s, place);
    var j := Index(q, level);
    assert LinkOk(mem, s, j, place);
    if s == t && j == i {
      AddThere(mem, t, i, c);
      EmptyWalk(mem', c, level - 1, q);
      return;
    }
    AddElsewhere(mem, t, i, c, s, j);
    if Links(mem[s][j], level) {
      AddKeepsWalk(mem, root, place, up, t, i, c, Addr(mem[s][j]), q);
    }
  }

  lemma EmptyWalk(mem: Memory, c: nat, level: nat, q: nat)
    requires c in mem && mem[c] == Zeros()
    ensures Walk(mem, c, level, q) == None
  {
  }

  lemma {:induction false} AddKeepsReach(mem: Memory, root: nat, place: map<nat, Place>, up: map<nat, nat>,
                                         t: nat, i: nat, c: nat, s: nat, q: nat, u: nat, k: nat)
    requires CanAdd(mem, root, place, up, t, i, c) && s in mem && 1 <= k && Reaches(mem, s, place[s].level, q, u, k)
    ensures Reaches(WithTable(mem, t, i, c), s, place[s].level, q, u, k)
    decreases place[s].level
  {
    var level := place[s].level;
    assert TableOk(mem, s, place);
    if level > k {
      var j := Index(q, level);
      assert LinkOk(mem, s, j, place);
      AddElsewhere(mem, t, i, c, s, j);
      AddKeepsReach(mem, root, place, up, t, i, c, Addr(mem[s][j]), q, u, k);
    }
  }
}
