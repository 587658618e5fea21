/** pmap_map_page, pmap_unmap_page and pmap_get_physical of kernel/arch/x86_64/memory.c, with
    their tables taken from the block pool, against one flat map from page to frame. */
module PageMap {
  import opened Bits
  import opened Common
  import opened Pool
  import opened PageTree

  lemma {:induction false} PoolBelow52()
    ensures POOL_LIMIT < Pow2(52)
  {
    assert Pow2(8) == 256;
    assert Pow2(16) == 256 * Pow2(8) by { Pow2Sum(8, 8); }
    assert Pow2(32) == 65536 * Pow2(16) by { Pow2Sum(16, 16); }
    Pow2Monotone(33, 52);
  }

  /** Pool pages are valid table addresses. */
  lemma {:induction false} PoolPage(s: seq<Block>, start: nat, c: nat)
    requires Table(s, start) && start <= POOL_LIMIT && c in Live(s)
    ensures c != 0 && c % 4096 == 0 && Shr(c, 52) == 0
  {
    LiveDisjoint(s, start, c, c);
    PoolBelow52();
    ShrSmall(c, 52);
  }

  /** The frame of the 2 MiB entry that the walk for `page` meets, if it meets one. */
  ghost function HugeAt(mem: Memory, t: nat, level: nat, page: nat): Option<nat>
    decreases level
  {
    if level <= 1 || t !in mem || |mem[t]| != FANOUT then None
    else
      var e := mem[t][Index(page, level)];
      if !Present(e) then None
      else if level == 2 && Huge(e) then Some(Addr(e))
      else HugeAt(mem, Addr(e), level - 1, page)
  }

  lemma {:induction false} HugeVia(mem: Memory, t: nat, level: nat, page: nat, u: nat, k: nat)
    requires Reaches(mem, t, level, page, u, k) && 1 <= k
    ensures HugeAt(mem, t, level, page) == HugeAt(mem, u, k, page)
    decreases level
  {
    if level > k {
      HugeVia(mem, Addr(mem[t][Index(page, level)]), level - 1, page, u, k);
    }
  }

  lemma {:induction false} EmptyHuge(mem: Memory, c: nat, level: nat, q: nat)
    requires c in mem && mem[c] == Zeros()
    ensures HugeAt(mem, c, level, q) == None
  {
  }

  /** A new table changes no 2 MiB entry on any walk. */
  lemma {:induction false} AddKeepsHuge(mem: Memory, root: nat, place: map<nat, Place>, up: map<nat, nat>,
                                        t: nat, i: nat, c: nat, s: nat, q: nat)
    requires CanAdd(mem, root, place, up, t, i, c) && s in mem
    ensures HugeAt(WithTable(mem, t, i, c), s, place[s].level, q) == HugeAt(mem, s, place[s].level, q)
    decreases place[s].level
  {
    var level, mem' := place[s].level, WithTable(mem, t, i, c);
    assert TableOk(mem, s, place);
    var j := Index(q, level);
    assert LinkOk(mem, s, j, place);
    if s == t && j == i {
      AddThere(mem, t, i, c);
      EmptyHuge(mem', c, level - 1, q);
      return;
    }
    AddElsewhere(mem, t, i, c, s, j);
    if Links(mem[s][j], level) {
      AddKeepsHuge(mem, root, place, up, t, i, c, Addr(mem[s][j]), q);
    }
  }

  /** Nor does an entry of a page table. */
  lemma {:induction false} LeafKeepsHuge(mem: Memory, root: nat, place: map<nat, Place>, up: map<nat, nat>,
                                         pt: nat, i: nat, e: nat, s: nat, q: nat)
    requires TreeShaped(mem, root, place, up) && pt in mem && place[pt].level == 1 && i < FANOUT == |mem[pt]| && s in mem
    ensures HugeAt(Store(mem, pt, i, e), s, place[s].level, q) == HugeAt(mem, s, place[s].level, q)
    decreases place[s].level
  {
    var level := place[s].level;
    assert TableOk(mem, s, place);
    var j := Index(q, level);
    assert LinkOk(mem, s, j, place);
    if level > 1 && Links(mem[s][j], level) {
      LeafKeepsHuge(mem, root, place, up, pt, i, e, Addr(mem[s][j]), q);
    }
  }

  /** What a walk finds is what its 2 MiB entry or its page-table entry says. */
  lemma {:induction false} WalkIs(mem: Memory, t: nat, level: nat, page: nat)
    ensures Walk(mem, t, level, page) ==
      match HugeAt(mem, t, level, page)
      case Some(f) => Some(f + Index(page, 1) * 4096)
      case None => match Leaf(mem, t, level, page) case Some(e) => Some(Addr(e)) case None => None
    ensures HugeAt(mem, t, level, page).Some? ==> Leaf(mem, t, level, page) == None
    decreases level
  {
    if level > 1 && t in mem && |mem[t]| == FANOUT && Links(mem[t][Index(page, level)], level) {
      WalkIs(mem, Addr(mem[t][Index(page, level)]), level - 1, page);
    }
  }

  /** The physical address that a 2 MiB frame or a page-table entry gives; 0 without either. */
  ghost function Translated(huge: Option<nat>, leaf: Option<nat>, vaddr: nat): int {
    if huge.Some? then huge.value + vaddr % 0x20_0000
    else if leaf.Some? then leaf.value % 0x10_0000_0000_0000 - leaf.value % 0x1000 + vaddr % 0x1000
    else 0
  }

  lemma {:induction false} LeafVia(mem: Memory, t: nat, level: nat, page: nat, u: nat, k: nat)
    requires Reaches(mem, t, level, page, u, k) && 1 <= k
    ensures Leaf(mem, t, level, page) == Leaf(mem, u, k, page)
    decreases level
  {
    if level > k {
      LeafVia(mem, Addr(mem[t][Index(page, level)]), level - 1, page, u, k);
    }
  }

  /** A new table changes no page-table entry. */
  lemma {:induction false} AddKeepsLeaf(mem: Memory, root: nat, place: map<nat, Place>, up: map<nat, nat>,
                                        t: nat, i: nat, c: nat, s: nat, q: nat)
    requires CanAdd(mem, root, place, up, t, i, c) && s in mem
    ensures Leaf(WithTable(mem, t, i, c), s, place[s].level, q) == Leaf(mem, s, place[s].level, q)
    decreases place[s].level
  {
    var level, mem' := place[s].level, WithTable(mem, t, i, c);
    assert TableOk(mem, s, place);
    var j := Index(q, level);
    assert LinkOk(mem, s, j, place);
    if s == t && j == i {
      AddThere(mem, t, i, c);
      EmptyLeaf(mem', c, level - 1, q);
      return;
    }
    AddElsewhere(mem, t, i, c, s, j);
    if Links(mem[s][j], level) {
      AddKeepsLeaf(mem, root, place, up, t, i, c, Addr(mem[s][j]), q);
    }
  }

  lemma {:induction false} EmptyLeaf(mem: Memory, c: nat, level: nat, q: nat)
    requires c in mem && mem[c] == Zeros()
    ensures Leaf(mem, c, level, q) == None
  {
  }

  /** Entry `i` of a page table is the entry of one page only. */
  lemma {:induction false} StoreKeepsLeaf(mem: Memory, root: nat, place: map<nat, Place>, up: map<nat, nat>,
                                          pt: nat, i: nat, e: nat, t: nat, q: nat)
    requires TreeShaped(mem, root, place, up) && pt in mem && place[pt].level == 1 && i < FANOUT == |mem[pt]|
    requires t in mem && place[t].prefix == Above(q, place[t].level) && q != PageAt(place, pt, i)
    ensures Leaf(Store(mem, pt, i, e), t, place[t].level, q) == Leaf(mem, t, place[t].level, q)
    decreases place[t].level
  {
    var level := place[t].level;
    assert TableOk(mem, t, place);
    var j := Index(q, level);
    AboveStep(q, level);
    assert LinkOk(mem, t, j, place);
    if level > 1 {
      assert Store(mem, pt, i, e)[t] == mem[t];
      if Links(mem[t][j], level) {
        StoreKeepsLeaf(mem, root, place, up, pt, i, e, Addr(mem[t][j]), q);
      }
    } else if t == pt {
      assert Above(q, 0) == q && j != i;
    }
  }

  /** All pages have the page-table entries they had. */
  ghost predicate SameLeaves(before: Memory, now: Memory, root: nat) {
    forall q {:trigger Leaf(now, root, 4, q)} :: IsPage(q) ==> Leaf(now, root, 4, q) == Leaf(before, root, 4, q)
  }

  /** One page has the entry `e`, if that is present; the others have what they had. */
  ghost predicate OneLeaf(before: Memory, now: Memory, root: nat, page: nat, e: nat) {
    forall q {:trigger Leaf(now, root, 4, q)} :: IsPage(q) ==>
      Leaf(now, root, 4, q) == if q != page then Leaf(before, root, 4, q) else if Present(e) then Some(e) else None
  }

  /** Every walk meets the same 2 MiB entry as before, or none as before. */
  ghost predicate SameHuge(before: Memory, now: Memory, root: nat) {
    forall q {:trigger HugeAt(now, root, 4, q)} :: HugeAt(now, root, 4, q) == HugeAt(before, root, 4, q)
  }

  /** The pool will give out no page that is a table. */
  ghost predicate AllReserved(b: Books, mem: Memory) {
    forall t {:trigger Reserved(b, t)} :: t in mem ==> Reserved(b, t)
  }

  ghost predicate OneMore(mem: Memory, mem': Memory, c: nat) {
    forall t :: t in mem' ==> t in mem || t == c
  }

  lemma {:induction false} MoreReserved(b: Books, mem: Memory, mem': Memory, c: nat)
    requires AllReserved(b, mem) && c in Live(b.blocks) && OneMore(mem, mem', c)
    ensures AllReserved(b, mem')
  {
  }

  /** What the pool would not give out it still will not, and none of it has become a table. */
  ghost predicate Spared(before: Books, now: Books, tables: set<nat>, tables': set<nat>) {
    forall c {:trigger Reserved(now, c)} :: Reserved(before, c) ==> Reserved(now, c) && (c in tables' ==> c in tables)
  }

  lemma {:induction false} SparedTwice(a: Books, b: Books, c: Books, s: set<nat>, t: set<nat>, u: set<nat>)
    requires Spared(a, b, s, t) && Spared(b, c, t, u)
    ensures Spared(a, c, s, u)
  {
    forall x | Reserved(a, x) ensures Reserved(c, x) && (x in u ==> x in s) {
      assert Reserved(b, x);
      assert Reserved(c, x);
    }
  }

  /** No walk at all meets a 2 MiB entry. */
  ghost predicate NoHuge(mem: Memory, root: nat) {
    forall q {:trigger HugeAt(mem, root, 4, q)} :: HugeAt(mem, root, 4, q) == None
  }

  /** All tables on the walk for `page` exist. */
  ghost predicate Complete(mem: Memory, t: nat, level: nat, page: nat)
    decreases level
  {
    level <= 1 || (t in mem && |mem[t]| == FANOUT && Present(mem[t][Index(page, level)])
                   && Complete(mem, Addr(mem[t][Index(page, level)]), level - 1, page))
  }

  lemma {:induction false} IndexFields(v: nat)
    ensures Low(Shr(v, 39), 9) == Index(PageOf(v), 4) && Low(Shr(v, 30), 9) == Index(PageOf(v), 3)
    ensures Low(Shr(v, 21), 9) == Index(PageOf(v), 2) && Low(Shr(v, 12), 9) == Index(PageOf(v), 1)
    ensures IsPage(PageOf(v))
  {
    IndexField(v, 4);
    IndexField(v, 3);
    IndexField(v, 2);
    IndexField(v, 1);
    PageOfIsPage(v);
  }

  lemma {:induction false} Offsets(v: nat)
    ensures Low(v, 12) == v % 0x1000 && Low(v, 21) == v % 0x20_0000
    ensures Index(PageOf(v), 1) * 4096 + Low(v, 12) == v % 0x20_0000
  {
    Powers();
    ShrIsDiv(v, 12);
    ShrIsDiv(v, 21);
    HugeOffset(v);
    IndexFields(v);
  }

  /** The offset in a 2 MiB page is the page-table index and the offset in the page. */
  lemma {:induction false} HugeOffset(v: nat)
    ensures Low(v, 21) == Low(Shr(v, 12), 9) * 4096 + Low(v, 12)
  {
    Pow2Values();
    Split(Low(v, 21), 12);
    LowField(v, 21, 0, 12);
    LowField(v, 21, 12, 9);
    Split(v, 21);
    var h := Shr(Low(v, 21), 12);
    ShrShr(Low(v, 21), 12, 9);
    ShrSmall(Low(v, 21), 21);
    Split(h, 9);
    assert h == Low(h, 9);
  }

  /** Every translation of the tree below `root` is the one `flat` gives. */
  ghost predicate IsFlat(mem: Memory, root: nat, flat: map<nat, nat>) {
    && (forall q :: q in flat ==> IsPage(q))
    && (forall q {:trigger Walk(mem, root, 4, q)} :: IsPage(q) ==>
          Walk(mem, root, 4, q) == if q in flat then Some(flat[q]) else None)
  }

  /** Pages are finitely many, so every tree of tables has its flat map. */
  ghost function FlatOf(mem: Memory, root: nat): map<nat, nat> {
    map q: nat | q < Pow2(36) && IsPage(q) && Walk(mem, root, 4, q).Some? :: Walk(mem, root, 4, q).value
  }

  lemma {:induction false} PageBound(q: nat)
    requires IsPage(q)
    ensures q < Pow2(36)
  {
    HighField(q, 36);
    Split(q, 36);
  }

  lemma {:induction false} FlatOfIsFlat(mem: Memory, root: nat)
    ensures IsFlat(mem, root, FlatOf(mem, root))
  {
    forall q: nat | IsPage(q) ensures q < Pow2(36) {
      PageBound(q);
    }
  }

  /** The flat map once `page` has the entry `e`. */
  ghost function Put(flat: map<nat, nat>, page: nat, e: nat): map<nat, nat> {
    if Present(e) then flat[page := Addr(e)] else flat - {page}
  }

  /** The page that entry `i` of the page table `pt` is for. */
  ghost function PageAt(place: map<nat, Place>, pt: nat, i: nat): nat
    requires pt in place
  {
    place[pt].prefix * FANOUT + i
  }

  lemma {:induction false} FlatAfterLeaf(mem: Memory, root: nat, place: map<nat, Place>, up: map<nat, nat>,
                                         flat: map<nat, nat>, pt: nat, i: nat, e: nat)
    requires TreeShaped(mem, root, place, up) && IsFlat(mem, root, flat)
    requires pt in mem && place[pt].level == 1 && i < FANOUT == |mem[pt]|
    ensures IsFlat(Store(mem, pt, i, e), root, Put(flat, PageAt(place, pt, i), e))
    ensures SameHuge(mem, Store(mem, pt, i, e), root)
  {
    var mem', page := Store(mem, pt, i, e), PageAt(place, pt, i);
    TableReached(mem, root, place, up, pt, i, page);
    LeafStored(mem, root, place, up, pt, e, page);
    forall q | IsPage(q) && q != page ensures Walk(mem', root, 4, q) == Walk(mem, root, 4, q) {
      LeafChange(mem, root, place, up, pt, i, e, root, q);
    }
    forall q ensures HugeAt(mem', root, 4, q) == HugeAt(mem, root, 4, q) {
      LeafKeepsHuge(mem, root, place, up, pt, i, e, root, q);
    }
  }

  lemma {:induction false} LeavesAfterStore(mem: Memory, root: nat, place: map<nat, Place>, up: map<nat, nat>, pt: nat, i: nat, e: nat)
    requires TreeShaped(mem, root, place, up) && pt in mem && place[pt].level == 1 && i < FANOUT == |mem[pt]|
    ensures OneLeaf(mem, Store(mem, pt, i, e), root, PageAt(place, pt, i), e)
  {
    var mem', page := Store(mem, pt, i, e), PageAt(place, pt, i);
    TableReached(mem, root, place, up, pt, i, page);
    LeafChangeReach(mem, root, place, up, pt, i, e, root, page, pt, 1);
    LeafVia(mem', root, 4, page, pt, 1);
    assert TableOk(mem, pt, place);
    forall q | IsPage(q) && q != page ensures Leaf(mem', root, 4, q) == Leaf(mem, root, 4, q) {
      StoreKeepsLeaf(mem, root, place, up, pt, i, e, root, q);
    }
  }

  lemma {:induction false} FlatAfterAdd(mem: Memory, root: nat, place: map<nat, Place>, up: map<nat, nat>,
                                        flat: map<nat, nat>, t: nat, i: nat, c: nat)
    requires CanAdd(mem, root, place, up, t, i, c) && IsFlat(mem, root, flat)
    ensures IsFlat(WithTable(mem, t, i, c), root, flat)
    ensures SameHuge(mem, WithTable(mem, t, i, c), root) && SameLeaves(mem, WithTable(mem, t, i, c), root)
  {
    forall q | IsPage(q) ensures Leaf(WithTable(mem, t, i, c), root, 4, q) == Leaf(mem, root, 4, q) {
      AddKeepsLeaf(mem, root, place, up, t, i, c, root, q);
    }
    forall q | IsPage(q) ensures Walk(WithTable(mem, t, i, c), root, 4, q) == Walk(mem, root, 4, q) {
      AddKeepsWalk(mem, root, place, up, t, i, c, root, q);
    }
    forall q ensures HugeAt(WithTable(mem, t, i, c), root, 4, q) == HugeAt(mem, root, 4, q) {
      AddKeepsHuge(mem, root, place, up, t, i, c, root, q);
    }
  }

  /** The walk for `page` comes to table `t` at `level`, which sits in its place. */
  ghost predicate CameTo(mem: Memory, root: nat, place: map<nat, Place>, page: nat, t: nat, level: nat) {
    && IsPage(page) && 1 <= level <= 4
    && t in mem && |mem[t]| == FANOUT && t in place && place[t] == Place(level, Above(page, level))
    && Reaches(mem, root, 4, page, t, level)
  }

  /** The walk that came to `t` comes to the new table. */
  lemma {:induction false} AddReached(mem: Memory, root: nat, place: map<nat, Place>, up: map<nat, nat>,
                                      t: nat, i: nat, c: nat, page: nat, level: nat)
    requires level > 1 && CanAdd(mem, root, place, up, t, i, c) && i == Index(page, level)
    requires CameTo(mem, root, place, page, t, level)
    ensures CameTo(WithTable(mem, t, i, c), root, place[c := PlaceBelow(place, t, i)], page, c, level - 1)
  {
    AboveStep(page, level);
    AddKeepsReach(mem, root, place, up, t, i, c, root, page, t, level);
    AddThere(mem, t, i, c);
    ReachStep(WithTable(mem, t, i, c), root, 4, page, t, level);
  }

  /** A store of `e` as entry `i` of the page table that is taken to be at `pt`: in a table, where it
      is the entry of one page if that is a page table, or in an ordinary page, where it is none. */
  ghost predicate Poked(mem: Memory, mem': Memory, words: map<nat, nat>, words': map<nat, nat>,
                        flat: map<nat, nat>, flat': map<nat, nat>, place: map<nat, Place>, pt: nat, i: nat, e: nat) {
    if pt in mem then
      && i < |mem[pt]| && mem' == Store(mem, pt, i, e) && words' == words
      && (pt in place && place[pt].level == 1 ==> flat' == Put(flat, PageAt(place, pt, i), e))
    else mem' == mem && words' == words[pt + 8 * i := e] && flat' == flat
  }

  datatype Op = Map(vaddr: nat, paddr: nat, flags: nat) | Unmap(vaddr: nat)

  /** What a call does to the flat map if it takes effect. */
  ghost function FlatStep(flat: map<nat, nat>, op: Op, ok: bool): map<nat, nat> {
    if !ok then flat
    else match op
      case Map(vaddr, paddr, flags) => flat[PageOf(vaddr) := Addr(Entry(paddr, Or(flags, 1)))]
      case Unmap(vaddr) => flat - {PageOf(vaddr)}
  }

  /** The pages whose walk meets no 2 MiB entry. */
  ghost function FreePages(mem: Memory, root: nat): nat -> bool {
    (page: nat) => HugeAt(mem, root, 4, page) == None
  }

  /** A call takes effect if it succeeds and its page is free. */
  ghost function FlatRun(flat: map<nat, nat>, free: nat -> bool, ops: seq<Op>, done: seq<bool>): map<nat, nat>
    requires |done| == |ops|
    decreases ops
  {
    if ops == [] then flat
    else FlatRun(FlatStep(flat, ops[0], done[0] && free(PageOf(ops[0].vaddr))), free, ops[1..], done[1..])
  }

  lemma {:induction false} FlatRunMore(flat: map<nat, nat>, free: nat -> bool, ops: seq<Op>, done: seq<bool>, op: Op, ok: bool)
    requires |done| == |ops|
    ensures FlatRun(flat, free, ops + [op], done + [ok])
      == FlatStep(FlatRun(flat, free, ops, done), op, ok && free(PageOf(op.vaddr)))
    decreases ops
  {
    if ops == [] {
      assert (ops + [op])[1..] == [] && (done + [ok])[1..] == [];
    } else {
      assert (ops + [op])[1..] == ops[1..] + [op] && (done + [ok])[1..] == done[1..] + [ok];
      FlatRunMore(FlatStep(flat, ops[0], done[0] && free(PageOf(ops[0].vaddr))), free, ops[1..], done[1..], op, ok);
    }
  }

  lemma {:induction false} FlatRunNext(flat: map<nat, nat>, free: nat -> bool, ops: seq<Op>, done: seq<bool>, ok: bool)
    requires |done| < |ops|
    ensures FlatRun(flat, free, ops[..|done| + 1], done + [ok])
      == FlatStep(FlatRun(flat, free, ops[..|done|], done), ops[|done|], ok && free(PageOf(ops[|done|].vaddr)))
  {
    var k := |done|;
    FlatRunMore(flat, free, ops[..k], done, ops[k], ok);
    assert ops[..k + 1] == ops[..k] + [ops[k]];
  }

  class Pager {
    const pool: MemoryPool
    var mem: Memory
    var root: nat
    /** Memory words that are not in a table. */
    var words: map<nat, nat>
    ghost var place: map<nat, Place>
    ghost var up: map<nat, nat>
    ghost var flat: map<nat, nat>

    ghost predicate Valid()
      reads this, pool, pool.blocks
    {
      && pool.Valid()
      && TreeShaped(mem, root, place, up)
      && AllReserved(pool.State(), mem)
      && IsFlat(mem, root, flat)
    }

    /** An empty root table in a page of the pool. */
    constructor (pool: MemoryPool, page: nat)
      requires pool.Valid() && page in pool.LiveBlocks()
      ensures Valid() && this.pool == pool && root == page && flat == map[] && NoHuge(mem, root)
      ensures mem == map[page := Zeros()]
    {
      this.pool := pool;
      mem := map[page := Zeros()];
      root := page;
      words := map[];
      place := map[page := Place(4, 0)];
      up := map[page := page];
      flat := map[];
      new;
      PoolPage(pool.blocks[..], pool.start, page);
      forall q | IsPage(q) ensures Walk(mem, root, 4, q) == None {
        EmptyWalk(mem, root, 4, q);
      }
    }

    /** pmap_init: the tables that are in use already. */
    constructor Over(pool: MemoryPool, mem: Memory, root: nat, ghost place: map<nat, Place>, ghost up: map<nat, nat>)
      requires pool.Valid() && TreeShaped(mem, root, place, up) && AllReserved(pool.State(), mem)
      ensures Valid() && this.pool == pool && this.mem == mem && this.root == root && words == map[]
      ensures this.place == place && flat == FlatOf(mem, root)
    {
      this.pool, this.mem, this.root, words := pool, mem, root, map[];
      this.place, this.up, flat := place, up, FlatOf(mem, root);
      new;
      FlatOfIsFlat(mem, root);
    }

    /** pmap_create with no current tables to copy. */
    static method Create(pool: MemoryPool) returns (p: Pager?)
      requires pool.Valid()
      modifies pool, pool.blocks
      ensures pool.Valid()
      ensures p == null <==> !old(pool.HasPage())
      ensures p != null ==> fresh(p) && p.Valid() && p.pool == pool && p.flat == map[] && NoHuge(p.mem, p.root)
      ensures p != null ==> p.mem == map[p.root := Zeros()]
    {
      var page := pool.Alloc(PAGE);
      if page == 0 {
        return null;
      }
      p := new Pager(pool, page);
    }

    /** The walk for `page` has come to table `t` at `level`. */
    ghost predicate Came(page: nat, t: nat, level: nat)
      reads this
    {
      CameTo(mem, root, place, page, t, level)
    }

    /** The frame of the 2 MiB entry on the walk for `page`. */
    ghost function HugeFrame(page: nat): Option<nat>
      reads this
    {
      HugeAt(mem, root, 4, page)
    }

    ghost predicate MayChange(page: nat)
      reads this
    {
      FreePages(mem, root)(page)
    }

    /** The table an entry names, created empty when the entry is absent; 0 when the pool has
        no page left.  No translation changes. */
    method TableBelow(t: nat, i: nat, ghost page: nat, ghost level: nat) returns (c: nat)
      requires Valid() && Came(page, t, level) && level > 1 && i == Index(page, level)
      requires Present(mem[t][i]) ==> Links(mem[t][i], level)
      modifies this, pool, pool.blocks
      ensures Valid() && root == old(root) && flat == old(flat) && words == old(words)
      ensures SameHuge(old(mem), mem, root) && SameLeaves(old(mem), mem, root)
      ensures Spared(old(pool.State()), pool.State(), old(mem.Keys), mem.Keys)
      ensures old(Present(mem[t][i])) ==> c != 0 && unchanged(this) && unchanged(pool) && unchanged(pool.blocks)
      ensures c == 0 ==> !pool.HasPage()
      ensures c != 0 ==> Came(page, c, level - 1)
      ensures old(Complete(mem, t, level, page)) ==> c != 0 && Complete(mem, c, level - 1, page)
    {
      if Present(mem[t][i]) {
        Descend(page, t, level);
        c := Addr(mem[t][i]);
        assert TableOk(mem, c, place);
        return;
      }
      c := FreshPage();
      if c == 0 {
        return;
      }
      PoolPage(pool.blocks[..], pool.start, c);
      ghost var tables := mem;
      AddTable(t, i, c, page, level);
      MoreReserved(pool.State(), tables, mem, c);
    }

    /** A page of the pool that is no table. */
    method FreshPage() returns (c: nat)
      requires Valid()
      modifies pool, pool.blocks
      ensures Valid() && (c == 0 ==> !pool.HasPage()) && (c != 0 ==> c in pool.LiveBlocks() && c !in mem)
      ensures Spared(old(pool.State()), pool.State(), mem.Keys, if c == 0 then mem.Keys else mem.Keys + {c})
    {
      ghost var b := pool.State();
      forall t | Reserved(b, t) ensures Reserved(Allocated(b, PAGE).0, t) && (Allocated(b, PAGE).1 == t ==> t == 0) {
        AllocatedReserves(b, PAGE, t);
      }
      c := pool.Alloc(PAGE);
      if c in mem {
        assert Reserved(b, c);
      }
    }

    /** The fresh page `c` becomes the empty table named by an absent entry. */
    method AddTable(t: nat, i: nat, c: nat, ghost page: nat, ghost level: nat)
      requires CanAdd(mem, root, place, up, t, i, c) && Came(page, t, level) && level > 1 && i == Index(page, level)
      requires IsFlat(mem, root, flat)
      modifies this
      ensures root == old(root) && flat == old(flat) && words == old(words)
      ensures TreeShaped(mem, root, place, up) && IsFlat(mem, root, flat)
      ensures SameHuge(old(mem), mem, root) && SameLeaves(old(mem), mem, root)
      ensures Came(page, c, level - 1) && OneMore(old(mem), mem, c)
    {
      AddKeepsTree(mem, root, place, up, t, i, c);
      FlatAfterAdd(mem, root, place, up, flat, t, i, c);
      AddReached(mem, root, place, up, t, i, c, page, level);
      mem, place, up := WithTable(mem, t, i, c), place[c := PlaceBelow(place, t, i)], up[c := t];
    }

    /** The page table for `vaddr`, missing tables made on the way; 0 when the pool runs out.  A
        2 MiB entry is taken for one that names a page table. */
    method Tables(vaddr: nat) returns (pt: nat)
      requires Valid()
      modifies this, pool, pool.blocks
      ensures Valid() && root == old(root) && flat == old(flat) && words == old(words)
      ensures SameHuge(old(mem), mem, root) && SameLeaves(old(mem), mem, root)
      ensures Spared(old(pool.State()), pool.State(), old(mem.Keys), mem.Keys)
      ensures old(HugeFrame(PageOf(vaddr))).Some? ==>
        pt == old(HugeFrame(PageOf(vaddr))).value && unchanged(this) && unchanged(pool) && unchanged(pool.blocks)
      ensures old(MayChange(PageOf(vaddr))) && pt == 0 ==> !pool.HasPage()
      ensures old(MayChange(PageOf(vaddr))) && pt != 0 ==> Came(PageOf(vaddr), pt, 1)
      ensures old(Complete(mem, root, 4, PageOf(vaddr)) && MayChange(PageOf(vaddr))) ==> pt != 0
    {
      ghost var page := PageOf(vaddr);
      IndexFields(vaddr);
      AtRoot(page);
      var pd := Directory(Low(Shr(vaddr, 39), 9), Low(Shr(vaddr, 30), 9), page);
      if pd == 0 { return 0; }
      ghost var between, keys := pool.State(), mem.Keys;
      HugeVia(mem, root, 4, page, pd, 2);
      var e := mem[pd][Low(Shr(vaddr, 21), 9)];
      if Present(e) && Huge(e) { return Addr(e); }
      pt := TableBelow(pd, Low(Shr(vaddr, 21), 9), page, 2);
      SparedTwice(old(pool.State()), between, pool.State(), old(mem.Keys), keys, mem.Keys);
    }

    /** The first two levels. */
    method Directory(i: nat, j: nat, ghost page: nat) returns (pd: nat)
      requires Valid() && Came(page, root, 4) && i == Index(page, 4) && j == Index(page, 3)
      modifies this, pool, pool.blocks
      ensures Valid() && root == old(root) && flat == old(flat) && words == old(words)
      ensures SameHuge(old(mem), mem, root) && SameLeaves(old(mem), mem, root)
      ensures Spared(old(pool.State()), pool.State(), old(mem.Keys), mem.Keys)
      ensures old(HugeFrame(page)).Some? ==> pd != 0 && unchanged(this) && unchanged(pool) && unchanged(pool.blocks)
      ensures pd == 0 ==> !pool.HasPage()
      ensures pd != 0 ==> Came(page, pd, 2)
      ensures old(Complete(mem, root, 4, page)) ==> pd != 0 && Complete(mem, pd, 2, page)
    {
      var pdpt := TableBelow(root, i, page, 4);
      if pdpt == 0 { return 0; }
      HugeVia(mem, root, 4, page, pdpt, 3);
      pd := TableBelow(pdpt, j, page, 3);
    }

    /** Storing to the page at `pt` leaves the tables a tree: it is no table above the page tables. */
    ghost predicate Harmless(pt: nat)
      reads this
    {
      pt in mem ==> pt in place && place[pt].level == 1
    }

    /** The store through a pointer to a page table. */
    method Poke(pt: nat, i: nat, e: nat)
      requires Valid() && i < FANOUT
      modifies this
      ensures Poked(old(mem), mem, old(words), words, old(flat), flat, old(place), pt, i, e)
      ensures root == old(root) && place == old(place) && mem.Keys == old(mem.Keys)
      ensures old(Harmless(pt)) ==> Valid() && SameHuge(old(mem), mem, root)
      ensures pt in old(mem) && old(Harmless(pt)) ==> OneLeaf(old(mem), mem, root, PageAt(place, pt, i), e)
    {
      if pt !in mem {
        words := words[pt + 8 * i := e];
        return;
      }
      assert TableOk(mem, pt, place);
      if place[pt].level == 1 {
        FlatAfterLeaf(mem, root, place, up, flat, pt, i, e);
        LeafKeepsTree(mem, root, place, up, pt, i, e);
        LeavesAfterStore(mem, root, place, up, pt, i, e);
        flat := Put(flat, PageAt(place, pt, i), e);
      }
      mem := Store(mem, pt, i, e);
    }

    /** The entry of a page is set in its page table. */
    lemma SetIs(page: nat, pt: nat)
      requires Valid() && Came(page, pt, 1)
      ensures Harmless(pt) && pt in mem && PageAt(place, pt, Index(page, 1)) == page
    {
      AboveStep(page, 1);
      assert Above(page, 0) == page;
    }

    /** Maps one page: 0 on success; on -1, which takes a pool without pages, no translation has
        changed.  If the walk meets a 2 MiB entry, the store goes to the page at its frame instead:
        the translation stays, unless that page is itself a table. */
    method MapPage(pml4: nat, vaddr: nat, paddr: nat, flags: nat) returns (r: int)
      requires Valid() && (pml4 == 0 || pml4 == root)
      modifies this, pool, pool.blocks
      ensures Spared(old(pool.State()), pool.State(), old(mem.Keys), mem.Keys)
      ensures pml4 == 0 ==> r == -1 && unchanged(this) && unchanged(pool) && unchanged(pool.blocks)
      ensures pml4 != 0 && old(MayChange(PageOf(vaddr))) ==>
        && Valid() && root == old(root) && words == old(words) && SameHuge(old(mem), mem, root)
        && (r == 0 || r == -1) && (old(Complete(mem, root, 4, PageOf(vaddr))) ==> r == 0)
        && (r == -1 ==> flat == old(flat) && !pool.HasPage())
        && (r == 0 ==> flat == old(flat)[PageOf(vaddr) := Addr(Entry(paddr, Or(flags, 1)))])
        && (r == 0 ==> OneLeaf(old(mem), mem, root, PageOf(vaddr), Entry(paddr, Or(flags, 1))))
        && (r == -1 ==> SameLeaves(old(mem), mem, root))
      ensures pml4 != 0 && old(HugeFrame(PageOf(vaddr))).Some? ==>
        Diverted(old(HugeFrame(PageOf(vaddr))).value, Index(PageOf(vaddr), 1), Entry(paddr, Or(flags, 1)), r)
        && unchanged(pool) && unchanged(pool.blocks)
    {
      if pml4 == 0 {
        return -1;
      }
      IndexFields(vaddr);
      var pt := Tables(vaddr);
      if pt == 0 {
        return -1;
      }
      LeafPresent(paddr, flags);
      if old(MayChange(PageOf(vaddr))) {
        SetIs(PageOf(vaddr), pt);
      }
      Poke(pt, Low(Shr(vaddr, 12), 9), Entry(paddr, Or(flags, 1)));
      return 0;
    }

    /** A store that went to the page at the frame `c` of a 2 MiB entry; none at frame 0. */
    twostate predicate Diverted(c: nat, i: nat, e: nat, r: int)
      reads this, pool, pool.blocks
    {
      if c == 0 then r == -1 && unchanged(this)
      else r == 0 && Landed(c, i, e)
    }

    twostate predicate Landed(c: nat, i: nat, e: nat)
      reads this, pool, pool.blocks
    {
      && Poked(old(mem), mem, old(words), words, old(flat), flat, old(place), c, i, e) && root == old(root)
      && (old(Harmless(c)) ==> Valid() && SameHuge(old(mem), mem, root))
    }

    /** One level down if the entry is present. */
    lemma Descend(page: nat, t: nat, level: nat)
      requires Valid() && Came(page, t, level) && level > 1
      ensures Walk(mem, root, 4, page) == Walk(mem, t, level, page)
      ensures HugeFrame(page) == HugeAt(mem, t, level, page)
      ensures Links(mem[t][Index(page, level)], level) ==> Came(page, Addr(mem[t][Index(page, level)]), level - 1)
    {
      WalkVia(mem, root, 4, page, t, level);
      HugeVia(mem, root, 4, page, t, level);
      AboveStep(page, level);
      if Links(mem[t][Index(page, level)], level) {
        assert LinkOk(mem, t, Index(page, level), place);
        ReachStep(mem, root, 4, page, t, level);
        assert TableOk(mem, Addr(mem[t][Index(page, level)]), place);
      }
    }

    lemma AtRoot(page: nat)
      requires Valid() && IsPage(page)
      ensures Came(page, root, 4) && root != 0
    {
      assert TableOk(mem, root, place);
    }

    /** Unmaps exactly one page.  If the walk meets a 2 MiB entry, the zero goes to the page at its
        frame instead. */
    method UnmapPage(pml4: nat, vaddr: nat)
      requires Valid() && (pml4 == 0 || pml4 == root)
      modifies this
      ensures mem.Keys == old(mem.Keys) && (pml4 == 0 ==> unchanged(this))
      ensures pml4 != 0 && old(MayChange(PageOf(vaddr))) ==>
        && Valid() && root == old(root) && words == old(words) && SameHuge(old(mem), mem, root)
        && flat == old(flat) - {PageOf(vaddr)} && OneLeaf(old(mem), mem, root, PageOf(vaddr), 0)
      ensures pml4 != 0 && old(HugeFrame(PageOf(vaddr))).Some? ==>
        Landed(old(HugeFrame(PageOf(vaddr))).value, Index(PageOf(vaddr), 1), 0)
    {
      if pml4 == 0 {
        return;
      }
      IndexFields(vaddr);
      var found, pt := FindTable(vaddr);
      if !found {
        WalkIs(mem, root, 4, PageOf(vaddr));
        return;
      }
      if MayChange(PageOf(vaddr)) {
        SetIs(PageOf(vaddr), pt);
      }
      Poke(pt, Low(Shr(vaddr, 12), 9), 0);
    }

    /** The page table for `vaddr`, if all entries on the way are present. */
    method FindTable(vaddr: nat) returns (found: bool, pt: nat)
      requires Valid()
      ensures !found ==> MayChange(PageOf(vaddr)) && PageOf(vaddr) !in flat
      ensures found && MayChange(PageOf(vaddr)) ==> Came(PageOf(vaddr), pt, 1)
      ensures HugeFrame(PageOf(vaddr)).Some? ==> found && pt == HugeFrame(PageOf(vaddr)).value
    {
      found, pt := false, 0;
      ghost var page := PageOf(vaddr);
      IndexFields(vaddr);
      AtRoot(page);
      Descend(page, root, 4);
      var e := mem[root][Low(Shr(vaddr, 39), 9)];
      if !Present(e) { return; }
      var pdpt := Addr(e);
      Descend(page, pdpt, 3);
      e := mem[pdpt][Low(Shr(vaddr, 30), 9)];
      if !Present(e) { return; }
      var pd := Addr(e);
      Descend(page, pd, 2);
      e := mem[pd][Low(Shr(vaddr, 21), 9)];
      if !Present(e) { return; }
      return true, Addr(e);
    }

    /** The flat map's answer for every address; 0 for an unmapped one.  In a 2 MiB page it is the
        frame and the low 21 bits of the address, in a page the frame in the entry and the low 12. */
    method GetPhysical(pml4: nat, vaddr: nat) returns (r: nat)
      requires Valid() && (pml4 == 0 || pml4 == root)
      ensures r == if pml4 == 0 || PageOf(vaddr) !in flat then 0 else flat[PageOf(vaddr)] + Low(vaddr, 12)
      ensures pml4 != 0 ==> r == Translated(HugeFrame(PageOf(vaddr)), Leaf(mem, root, 4, PageOf(vaddr)), vaddr)
    {
      Offsets(vaddr);
      WalkIs(mem, root, 4, PageOf(vaddr));
      if Leaf(mem, root, 4, PageOf(vaddr)).Some? {
        EntryFields(Leaf(mem, root, 4, PageOf(vaddr)).value);
      }
      if pml4 == 0 {
        return 0;
      }
      ghost var page := PageOf(vaddr);
      IndexFields(vaddr);
      AtRoot(page);
      Descend(page, root, 4);
      var e := mem[pml4][Low(Shr(vaddr, 39), 9)];
      if !Present(e) { return 0; }
      var pdpt := Addr(e);
      Descend(page, pdpt, 3);
      e := mem[pdpt][Low(Shr(vaddr, 30), 9)];
      if !Present(e) { return 0; }
      var pd := Addr(e);
      Descend(page, pd, 2);
      e := mem[pd][Low(Shr(vaddr, 21), 9)];
      if !Present(e) { return 0; }
      if Huge(e) {
        HugeOffset(vaddr);
        return Addr(e) + Low(vaddr, 21);
      }
      var pt := Addr(e);
      WalkVia(mem, root, 4, page, pt, 1);
      e := mem[pt][Low(Shr(vaddr, 12), 9)];
      if !Present(e) { return 0; }
      return Addr(e) + Low(vaddr, 12);
    }

    /** The 2 MiB entry on the walk for `page`, if there is one, is of a frame that is no table and
        will be none. */
    ghost predicate Clear(page: nat)
      reads this, pool, pool.blocks
    {
      HugeFrame(page).Some? ==> HugeFrame(page).value !in mem && Reserved(pool.State(), HugeFrame(page).value)
    }

    twostate lemma ClearStays(page: nat)
      requires old(Clear(page)) && root == old(root) && SameHuge(old(mem), mem, root)
      requires Spared(old(pool.State()), pool.State(), old(mem.Keys), mem.Keys)
      ensures Clear(page)
    {
      assert HugeAt(mem, root, 4, page) == HugeAt(old(mem), root, 4, page);
      var frame := HugeFrame(page);
      assert frame == old(HugeFrame(page));
      if frame.Some? {
        assert Reserved(old(pool.State()), frame.value) && frame.value !in old(mem);
        assert Reserved(pool.State(), frame.value) && frame.value !in mem.Keys;
      }
    }

    method Do(op: Op) returns (ok: bool)
      requires Valid() && Clear(PageOf(op.vaddr))
      modifies this, pool, pool.blocks
      ensures Valid() && root == old(root) && SameHuge(old(mem), mem, root)
      ensures Spared(old(pool.State()), pool.State(), old(mem.Keys), mem.Keys)
      ensures flat == FlatStep(old(flat), op, ok && old(MayChange(PageOf(op.vaddr))))
      ensures !ok ==> !pool.HasPage() || old(HugeFrame(PageOf(op.vaddr))) == Some(0)
    {
      IndexFields(op.vaddr);
      AtRoot(PageOf(op.vaddr));
      ok := true;
      match op {
        case Map(vaddr, paddr, flags) => {
          var r := MapPage(root, vaddr, paddr, flags);
          ok := r == 0;
        }
        case Unmap(vaddr) => { UnmapPage(root, vaddr); }
      }
    }

    /** Any sequence of maps and unmaps does to every translation what those of its calls that
        succeed, on pages without a 2 MiB entry, do to the flat map. */
    method Run(ops: seq<Op>) returns (done: seq<bool>)
      requires Valid() && forall i :: 0 <= i < |ops| ==> Clear(PageOf(ops[i].vaddr))
      modifies this, pool, pool.blocks
      ensures Valid() && root == old(root) && SameHuge(old(mem), mem, root)
      ensures |done| == |ops| && flat == FlatRun(old(flat), FreePages(old(mem), root), ops, done)
    {
      done := [];
      ghost var free := FreePages(mem, root);
      var k := 0;
      while k < |ops|
        invariant 0 <= k <= |ops| && |done| == k && Valid() && root == old(root) && SameHuge(old(mem), mem, root)
        invariant Spared(old(pool.State()), pool.State(), old(mem.Keys), mem.Keys)
        invariant flat == FlatRun(old(flat), free, ops[..k], done)
      {
        ClearStays(PageOf(ops[k].vaddr));
        var ok := Do(ops[k]);
        FlatRunNext(old(flat), free, ops, done, ok);
        done := done + [ok];
        k := k + 1;
      }
      assert ops[..k] == ops;
    }
  }

  // ------------------------------------------------------------------ a 2 MiB page in the way

  lemma {:induction false} LiveOutside(pool: MemoryPool, x: nat)
    requires pool.Valid() && !(POOL_START <= x < POOL_LIMIT)
    ensures x !in pool.LiveBlocks()
  {
    if x in pool.LiveBlocks() {
      LiveDisjoint(pool.blocks[..], pool.start, x, x);
    }
  }

  /** A 2 MiB entry is present, huge, and names its frame. */
  lemma {:induction false} HugeEntry(t: nat)
    requires t % 4096 == 0 && Shr(t, 52) == 0
    ensures var e := Entry(t, 0x83); Present(e) && Huge(e) && Addr(e) == t
  {
    Pow2Values();
    OrHalf(t, 0x83);
    OrFields(t, 0x83, 7);
    assert Shr(0x83, 7) == 1;
    OrHalf(Shr(t, 7), 1);
    LowFlags(t, 0x83, 12);
    AlignedAddr(t);
  }

  /** The first `k` slots of the pool are live, the others were never used. */
  ghost predicate Fresh(s: seq<Block>, k: nat) {
    k <= |s| && (forall i :: 0 <= i < k ==> s[i].used) && forall i :: k <= i < |s| ==> s[i] == Block(0, 0, false)
  }

  lemma {:induction false} FreshFirst(s: seq<Block>, k: nat)
    requires Fresh(s, k) && k < |s|
    ensures FirstDead(s, PAGE) == |s| && FirstDead(s, 0) == k && AlignUp(PAGE) == PAGE
  {
    assert Dead(s[k], 0);
  }

  /** One more page from such a pool. */
  method NextPage(pool: MemoryPool, ghost k: nat) returns (a: nat)
    requires pool.Valid() && Fresh(pool.blocks[..], k) && k < 3 && pool.start == POOL_START + k * PAGE
    modifies pool, pool.blocks
    ensures pool.Valid() && Fresh(pool.blocks[..], k + 1) && pool.start == POOL_START + (k + 1) * PAGE
    ensures a !in old(pool.LiveBlocks()) && pool.LiveBlocks().Keys == old(pool.LiveBlocks().Keys) + {a}
  {
    FreshFirst(pool.blocks[..], k);
    a := pool.Alloc(PAGE);
  }

  ghost predicate TablePage(t: nat) {
    t != 0 && t % 4096 == 0 && Shr(t, 52) == 0
  }

  method ThreePages() returns (pool: MemoryPool, a: nat, b: nat, c: nat)
    ensures fresh(pool) && fresh(pool.blocks) && pool.Valid()
    ensures a != b && b != c && a != c && {a, b, c} <= pool.LiveBlocks().Keys
    ensures TablePage(a) && TablePage(b) && TablePage(c)
  {
    pool := new MemoryPool();
    a := NextPage(pool, 0);
    b := NextPage(pool, 1);
    c := NextPage(pool, 2);
    PoolPage(pool.blocks[..], pool.start, a);
    PoolPage(pool.blocks[..], pool.start, b);
    PoolPage(pool.blocks[..], pool.start, c);
  }

  /** A page that is not reserved is given out: the first one of a new pool. */
  method FirstGiven() returns (pool: MemoryPool, r: nat)
    ensures r == 0x10_0000 && pool.Valid() && r in pool.LiveBlocks()
  {
    pool := new MemoryPool();
    ghost var b := pool.State();
    FreshFirst(pool.blocks[..], 0);
    assert POOL_START !in Addresses(b.blocks) && !Reserved(b, POOL_START);
    r := pool.Alloc(PAGE);
  }

  /** Tables for page 0 whose directory holds one 2 MiB entry. */
  function OneHuge(a: nat, b: nat, c: nat, frame: nat): Memory {
    var t: Memory := map[a := Zeros()];
    Store(WithTable(WithTable(t, a, 0, b), b, 0, c), c, 0, Entry(frame, 0x83))
  }

  lemma {:induction false} RootTree(a: nat)
    requires TablePage(a)
    ensures TreeShaped(map[a := Zeros()], a, map[a := Place(4, 0)], map[a := a])
  {
  }

  lemma {:induction false} OneHugeTree(a: nat, b: nat, c: nat, frame: nat) returns (place: map<nat, Place>, up: map<nat, nat>)
    requires a != b && b != c && a != c && TablePage(a) && TablePage(b) && TablePage(c)
    requires frame % 4096 == 0 && Shr(frame, 52) == 0
    ensures TreeShaped(OneHuge(a, b, c, frame), a, place, up)
  {
    var t: Memory := map[a := Zeros()];
    place, up := map[a := Place(4, 0)], map[a := a];
    RootTree(a);
    AddKeepsTree(t, a, place, up, a, 0, b);
    t, place, up := WithTable(t, a, 0, b), place[b := PlaceBelow(place, a, 0)], up[b := a];
    AddKeepsTree(t, a, place, up, b, 0, c);
    t, place, up := WithTable(t, b, 0, c), place[c := PlaceBelow(place, b, 0)], up[c := b];
    HugeEntry(frame);
    HugeKeepsTree(t, a, place, up, c, 0, Entry(frame, 0x83));
  }

  lemma {:induction false} OneHugeRows(mem: Memory, a: nat, b: nat, c: nat, frame: nat)
    requires a != b && b != c && a != c && mem == OneHuge(a, b, c, frame)
    ensures {a, b, c} <= mem.Keys && |mem[a]| == |mem[b]| == |mem[c]| == FANOUT
    ensures mem[a][0] == Entry(b, TABLE_FLAGS) && mem[b][0] == Entry(c, TABLE_FLAGS) && mem[c][0] == Entry(frame, 0x83)
  {
  }

  /** The walks of the first 512 pages end at the 2 MiB entry. */
  lemma {:induction false} OneHugeWalk(mem: Memory, a: nat, b: nat, c: nat, frame: nat, q: nat)
    requires a != b && b != c && a != c && frame % 4096 == 0 && Shr(frame, 52) == 0 && q < 512
    requires TablePage(a) && TablePage(b) && TablePage(c) && mem == OneHuge(a, b, c, frame)
    ensures IsPage(q) && Index(q, 1) == q && HugeAt(mem, a, 4, q) == Some(frame)
  {
    OneHugeRows(mem, a, b, c, frame);
    TableEntry(b);
    TableEntry(c);
    HugeEntry(frame);
    FirstPages(q);
    assert HugeAt(mem, c, 2, q) == Some(frame);
    assert HugeAt(mem, b, 3, q) == Some(frame);
  }

  lemma {:induction false} FirstPages(q: nat)
    requires q < 512
    ensures IsPage(q) && Index(q, 4) == Index(q, 3) == Index(q, 2) == 0 && Index(q, 1) == q
  {
    Powers();
    LowZero(9);
    ShrSmall(q, 9);
    assert Above(q, 0) == q && Above(q, 1) == 0;
    Pow2Monotone(9, 18);
    Pow2Monotone(9, 27);
    Pow2Monotone(9, 36);
    ShrSmall(q, 18);
    ShrSmall(q, 27);
    ShrSmall(q, 36);
  }

  lemma {:induction false} FirstAddresses(v: nat)
    requires v < 0x20_0000
    ensures PageOf(v) == v / 0x1000 < 512 && Index(PageOf(v), 1) == v / 0x1000 && v % 0x20_0000 == v
  {
    FirstQuotient(v);
    PageOfIs(v);
    FirstPages(PageOf(v));
  }

  lemma {:induction false} FirstQuotient(v: nat)
    requires v < 0x20_0000
    ensures v / 0x1000 < 512 && v / 0x1000 % 0x10_0000_0000 == v / 0x1000 && v % 0x20_0000 == v
  {
  }

  lemma {:induction false} SampleEntry()
    ensures Entry(0x7000, Or(3, 1)) == 0x7003
  {
    OrHalf(3, 1);
    OrZero(1);
    TableEntryIs(0x7000);
  }

  method HugePager() returns (p: Pager)
    ensures fresh(p) && fresh(p.pool) && fresh(p.pool.blocks) && p.Valid() && p.words == map[] && p.root != 0
    ensures POOL_LIMIT !in p.mem && forall q: nat :: q < 512 ==> p.HugeFrame(q) == Some(POOL_LIMIT)
  {
    var pool, a, b, c := ThreePages();
    PoolBelow52();
    ShrSmall(POOL_LIMIT, 52);
    var mem := OneHuge(a, b, c, POOL_LIMIT);
    ghost var place, up := OneHugeTree(a, b, c, POOL_LIMIT);
    forall q: nat | q < 512 ensures HugeAt(mem, a, 4, q) == Some(POOL_LIMIT) {
      OneHugeWalk(mem, a, b, c, POOL_LIMIT, q);
    }
    p := new Pager.Over(pool, mem, a, place, up);
    LiveOutside(pool, POOL_LIMIT);
  }

  /** The first 2 MiB lie in a 2 MiB page at 4 GiB.  Mapping any page of them to 0x7000 reports
      success, writes the entry into the 2 MiB page, and leaves the translation as it was. */
  method HugeStays(vaddr: nat) returns (p: Pager, before: nat, r: int, after: nat)
    requires vaddr < 0x20_0000
    ensures p.Valid() && r == 0 && before == after == 0x1_0000_0000 + vaddr
    ensures p.words == map[0x1_0000_0000 + 8 * (vaddr / 0x1000) := 0x7003]
  {
    p := HugePager();
    FirstAddresses(vaddr);
    SampleEntry();
    before := p.GetPhysical(p.root, vaddr);
    r := p.MapPage(p.root, vaddr, 0x7000, 3);
    after := p.GetPhysical(p.root, vaddr);
  }

  lemma {:induction false} NoAddress(flags: nat)
    requires flags % 0x10_0000_0000_0000 < 0x1000
    ensures Addr(flags) == 0
  {
    EntryFields(flags);
    LowRemainder(flags);
  }

  lemma {:induction false} LowRemainder(x: nat)
    ensures x % 0x10_0000_0000_0000 % 0x1000 == x % 0x1000
  {
  }

  lemma {:induction false} FrameEntry(paddr: nat, flags: nat)
    requires paddr % 0x1000 == 0 && paddr < 0x10_0000_0000_0000 && flags % 0x10_0000_0000_0000 < 0x1000
    ensures var e := Entry(paddr, Or(flags, 1)); Present(e) && e % 0x10_0000_0000_0000 - e % 0x1000 == paddr
  {
    Powers();
    ShrSmall(paddr, 52);
    NoAddress(flags);
    LeafFrame(paddr, flags);
    LeafPresent(paddr, flags);
    EntryFields(Entry(paddr, Or(flags, 1)));
  }

  /** Mapping and asking: an address of the page that was mapped is at its offset in the frame, and
      every other address is where it was. */
  method MapThenGet(p: Pager, vaddr: nat, paddr: nat, flags: nat, v: nat) returns (before: nat, r: int, after: nat)
    requires p.Valid() && p.HugeFrame(PageOf(vaddr)) == None
    requires paddr % 0x1000 == 0 && paddr < 0x10_0000_0000_0000 && flags % 0x10_0000_0000_0000 < 0x1000
    modifies p, p.pool, p.pool.blocks
    ensures p.Valid()
    ensures after == if r == 0 && v / 0x1000 % 0x10_0000_0000 == vaddr / 0x1000 % 0x10_0000_0000 then paddr + v % 0x1000 else before
  {
    PageOfIsPage(v);
    p.AtRoot(PageOf(v));
    before := p.GetPhysical(p.root, v);
    r := p.MapPage(p.root, vaddr, paddr, flags);
    PageOfIs(v);
    PageOfIs(vaddr);
    FrameEntry(paddr, flags);
    after := p.GetPhysical(p.root, v);
  }
}
