/** The bump-and-reuse block pool of kernel/arch/x86_64/memory.c. */
module Pool {
  import opened Bits

  const POOL_SIZE: nat := 2048
  const POOL_START: nat := 0x100000
  const POOL_LIMIT: nat := 0x1_0000_0000

  datatype Block = Block(address: nat, size: nat, used: bool)

  /** The 64-bit limit test agrees with the true one exactly when the sum does not wrap. */
  lemma LimitTestExact(start: nat, size: nat)
    requires POOL_START <= start <= POOL_LIMIT && size < TWO64
    ensures ((Wrap64(start + AlignUp(size)) <= POOL_LIMIT) <==> (start + AlignUp(size) <= POOL_LIMIT))
      <==> start + AlignUp(size) < TWO64
  {
    assert start + AlignUp(size) >= TWO64 ==> Wrap64(start + AlignUp(size)) == start + AlignUp(size) - TWO64;
  }

  /** A request that passes the test and moves the bump pointer backwards. */
  lemma LimitTestDefeated()
    ensures var size := TWO64 - 2 * PAGE;
      Wrap64(POOL_START + AlignUp(size)) <= POOL_LIMIT && Wrap64(POOL_START + AlignUp(size)) < POOL_START
  {
    assert AlignUp(TWO64 - 2 * PAGE) == TWO64 - 2 * PAGE;
  }

  ghost function UsedSize(b: Block): nat {
    if b.used then b.size else 0
  }

  ghost function SumUsed(s: seq<Block>): nat {
    if s == [] then 0 else UsedSize(s[0]) + SumUsed(s[1..])
  }

  ghost function SumAll(s: seq<Block>): nat {
    if s == [] then 0 else s[0].size + SumAll(s[1..])
  }

  lemma {:induction false} SumUpdate(s: seq<Block>, i: nat, b: Block)
    requires i < |s|
    ensures SumUsed(s[i := b]) == SumUsed(s) - UsedSize(s[i]) + UsedSize(b)
    ensures SumAll(s[i := b]) == SumAll(s) - s[i].size + b.size
  {
    if i == 0 {
      assert s[i := b][1..] == s[1..];
    } else {
      SumUpdate(s[1..], i - 1, b);
      assert s[i := b][1..] == s[1..][i - 1 := b];
    }
  }

  lemma {:induction false} UsedWithinAll(s: seq<Block>)
    ensures SumUsed(s) <= SumAll(s)
  {
    if s != [] { UsedWithinAll(s[1..]); }
  }

  lemma {:induction false} SumMember(s: seq<Block>, i: nat)
    requires i < |s|
    ensures UsedSize(s[i]) <= SumUsed(s)
  {
    if i > 0 { SumMember(s[1..], i - 1); }
  }

  ghost predicate Apart(a: Block, b: Block) {
    a.address + a.size <= b.address || b.address + b.size <= a.address
  }

  /** A slot never carved, or a block inside the carved area. */
  ghost predicate Carved(b: Block, start: nat) {
    || (b.address == 0 && b.size == 0)
    || (POOL_START <= b.address && b.address + b.size <= start && b.size > 0
        && b.address % PAGE == 0 && b.size % PAGE == 0)
  }

  ghost predicate Table(s: seq<Block>, start: nat) {
    && (forall i :: 0 <= i < |s| ==> Carved(s[i], start))
    && (forall i, j :: 0 <= i < j < |s| && s[i].size > 0 && s[j].size > 0 ==> Apart(s[i], s[j]))
  }

  /** The live blocks: address to size. */
  ghost function Live(s: seq<Block>): map<nat, nat>
  {
    if s == [] then map[]
    else if s[0].used && s[0].size > 0 then Live(s[1..])[s[0].address := s[0].size]
    else Live(s[1..])
  }

  ghost predicate LiveBlock(b: Block) {
    b.used && b.size > 0
  }

  ghost predicate LiveAt(s: seq<Block>, a: nat) {
    exists i :: 0 <= i < |s| && LiveBlock(s[i]) && s[i].address == a
  }

  lemma {:induction false} LiveIff(s: seq<Block>, start: nat)
    requires Table(s, start)
    ensures forall a :: a in Live(s) <==> LiveAt(s, a)
    ensures forall i :: 0 <= i < |s| && LiveBlock(s[i]) ==> s[i].address in Live(s) && Live(s)[s[i].address] == s[i].size
  {
    if s != [] {
      var t := s[1..];
      LiveIff(t, start);
      forall i | 0 <= i < |s| && LiveBlock(s[i])
        ensures s[i].address in Live(s) && Live(s)[s[i].address] == s[i].size
      {
        if i > 0 {
          assert t[i - 1] == s[i];
        }
      }
      forall a | LiveAt(t, a) ensures LiveAt(s, a) {
        var i :| 0 <= i < |t| && LiveBlock(t[i]) && t[i].address == a;
        assert s[i + 1] == t[i];
      }
    }
  }

  lemma {:induction false} TableTail(s: seq<Block>, start: nat)
    requires Table(s, start) && s != []
    ensures Table(s[1..], start)
    ensures LiveBlock(s[0]) ==> s[0].address !in Live(s[1..])
  {
    var t := s[1..];
    assert forall i :: 0 <= i < |t| ==> t[i] == s[i + 1];
    LiveIff(t, start);
    forall i | 0 <= i < |t| && LiveBlock(s[0]) && LiveBlock(t[i]) ensures t[i].address != s[0].address {
      assert Apart(s[0], s[i + 1]);
    }
  }

  /** A dead slot becomes a live block. */
  lemma {:induction false} LiveAdded(s: seq<Block>, start: nat, i: nat, b: Block, start': nat)
    requires i < |s| && Table(s, start) && Table(s[i := b], start') && !LiveBlock(s[i]) && LiveBlock(b)
    ensures b.address !in Live(s) && Live(s[i := b]) == Live(s)[b.address := b.size]
  {
    var t := s[i := b];
    TableTail(s, start);
    TableTail(t, start');
    if i == 0 {
      assert t[1..] == s[1..];
    } else {
      assert t[1..] == s[1..][i - 1 := b];
      LiveAdded(s[1..], start, i - 1, b, start');
      if LiveBlock(s[0]) {
        assert t[0] == s[0] && t[i] == b && Apart(t[0], t[i]);
      }
    }
  }

  /** A live block dies. */
  lemma {:induction false} LiveRemoved(s: seq<Block>, start: nat, i: nat)
    requires i < |s| && Table(s, start) && LiveBlock(s[i])
    ensures Live(s[i := s[i].(used := false)]) == Live(s) - {s[i].address}
  {
    var t := s[i := s[i].(used := false)];
    TableTail(s, start);
    if i == 0 {
      assert t[1..] == s[1..];
    } else {
      assert t[1..] == s[1..][i - 1 := s[i].(used := false)];
      LiveRemoved(s[1..], start, i - 1);
      if LiveBlock(s[0]) {
        assert Apart(s[0], s[i]);
      }
    }
  }

  /** Live blocks do not overlap, are whole pages and lie inside the carved area. */
  lemma {:induction false} LiveDisjoint(s: seq<Block>, start: nat, a: nat, b: nat)
    requires Table(s, start) && a in Live(s)
    ensures POOL_START <= a && a + Live(s)[a] <= start && a % PAGE == 0 && Live(s)[a] >= PAGE
    ensures b in Live(s) && a < b ==> a + Live(s)[a] <= b
  {
    LiveIff(s, start);
    var i :| 0 <= i < |s| && LiveBlock(s[i]) && s[i].address == a;
    if b in Live(s) && a < b {
      var j :| 0 <= j < |s| && LiveBlock(s[j]) && s[j].address == b;
      assert i < j ==> Apart(s[i], s[j]);
      assert j < i ==> Apart(s[j], s[i]);
    }
  }

  ghost function Addresses(s: seq<Block>): set<nat> {
    set i | 0 <= i < |s| :: s[i].address
  }

  // ------------------------------------------------------------------ the pool as a value

  datatype Books = Books(blocks: seq<Block>, start: nat, total: nat, used: nat)

  ghost predicate Sound(b: Books) {
    && |b.blocks| == POOL_SIZE
    && POOL_START <= b.start <= POOL_LIMIT && b.start % PAGE == 0
    && Table(b.blocks, b.start)
    && b.used == SumUsed(b.blocks) && SumAll(b.blocks) <= b.total && b.total == b.start - POOL_START
  }

  predicate Dead(b: Block, n: nat) {
    !b.used && b.size >= n
  }

  /** The first dead slot of at least `n` bytes; past the end if there is none. */
  ghost function FirstDead(s: seq<Block>, n: nat): (i: nat)
    ensures i <= |s| && (i < |s| ==> Dead(s[i], n))
    ensures forall j :: 0 <= j < i ==> !Dead(s[j], n)
  {
    if s == [] || Dead(s[0], n) then 0
    else
      var k := FirstDead(s[1..], n);
      assert forall j :: 1 <= j < k + 1 ==> s[j] == s[1..][j - 1];
      k + 1
  }

  /** The first slot at an address. */
  ghost function FirstAt(s: seq<Block>, address: nat): (i: nat)
    ensures i <= |s| && (i < |s| ==> s[i].address == address)
    ensures forall j :: 0 <= j < i ==> s[j].address != address
  {
    if s == [] || s[0].address == address then 0
    else
      var k := FirstAt(s[1..], address);
      assert forall j :: 1 <= j < k + 1 ==> s[j] == s[1..][j - 1];
      k + 1
  }

  /** A dead slot is given out as it is. */
  ghost function Taken(b: Books, i: nat): Books
    requires i < |b.blocks|
  {
    b.(blocks := b.blocks[i := b.blocks[i].(used := true)], used := Wrap64(b.used + b.blocks[i].size))
  }

  /** A slot gets a new block of `n` bytes at the bump pointer. */
  ghost function Bumped(b: Books, i: nat, n: nat): Books
    requires i < |b.blocks|
  {
    Books(b.blocks[i := Block(b.start, n, true)], Wrap64(b.start + n), Wrap64(b.total + n), Wrap64(b.used + n))
  }

  /** What memory_alloc leaves behind, and the address it returns. */
  ghost function Allocated(b: Books, size: nat): (Books, nat) {
    var n := AlignUp(size);
    var i, k := FirstDead(b.blocks, n), FirstDead(b.blocks, 0);
    if size == 0 then (b, 0)
    else if i < |b.blocks| then (Taken(b, i), b.blocks[i].address)
    else if Wrap64(b.start + n) > POOL_LIMIT || k == |b.blocks| then (b, 0)
    else (Bumped(b, k, n), b.start)
  }

  ghost function Freed(b: Books, ptr: nat): Books {
    var i := FirstAt(b.blocks, ptr);
    if ptr == 0 || i == |b.blocks| then b
    else b.(blocks := b.blocks[i := b.blocks[i].(used := false)], used := Wrap64(b.used - b.blocks[i].size))
  }

  lemma {:induction false} MarkTable(s: seq<Block>, start: nat, i: nat, u: bool)
    requires i < |s| && Table(s, start)
    ensures Table(s[i := s[i].(used := u)], start)
  {
    var t := s[i := s[i].(used := u)];
    assert forall j :: 0 <= j < |s| ==> t[j].address == s[j].address && t[j].size == s[j].size;
    assert forall j :: 0 <= j < |s| ==> Carved(t[j], start) == Carved(s[j], start);
    forall j, k | 0 <= j < k < |t| && t[j].size > 0 && t[k].size > 0 ensures Apart(t[j], t[k]) {
      assert Apart(s[j], s[k]);
    }
  }

  lemma {:induction false} BumpTable(s: seq<Block>, start: nat, i: nat, n: nat)
    requires i < |s| && Table(s, start) && n > 0 && n % PAGE == 0 && start % PAGE == 0 && start >= POOL_START
    ensures Table(s[i := Block(start, n, true)], start + n)
  {
  }

  /** `r` is a new live block of at least `n` bytes, and nothing else changed. */
  ghost predicate Given(before: map<nat, nat>, now: map<nat, nat>, r: nat, n: nat) {
    r != 0 && r !in before && r in now && now[r] >= n && now == before[r := now[r]]
  }

  lemma {:induction false} TakenSound(b: Books, i: nat)
    requires Sound(b) && i < |b.blocks| && !b.blocks[i].used
    ensures Sound(Taken(b, i))
    ensures b.blocks[i].size > 0 ==> Given(Live(b.blocks), Live(Taken(b, i).blocks), b.blocks[i].address, b.blocks[i].size)
    ensures b.blocks[i].size > 0 ==> Live(Taken(b, i).blocks)[b.blocks[i].address] == b.blocks[i].size
  {
    var s, c := b.blocks, b.blocks[i].(used := true);
    SumUpdate(s, i, c);
    UsedWithinAll(s[i := c]);
    MarkTable(s, b.start, i, true);
    assert Carved(s[i], b.start);
    if s[i].size > 0 {
      LiveAdded(s, b.start, i, c, b.start);
    }
  }

  /** Carving is right exactly as long as the sum does not wrap. */
  lemma {:induction false} BumpedSound(b: Books, i: nat, n: nat)
    requires Sound(b) && i < |b.blocks| && !b.blocks[i].used && 0 < n < TWO64 && n % PAGE == 0
    requires Wrap64(b.start + n) <= POOL_LIMIT
    ensures Sound(Bumped(b, i, n)) <==> b.start + n < TWO64
    ensures b.start + n < TWO64 ==> Given(Live(b.blocks), Live(Bumped(b, i, n).blocks), b.start, n)
  {
    var s, c := b.blocks, Block(b.start, n, true);
    if b.start + n < TWO64 {
      SumUpdate(s, i, c);
      UsedWithinAll(s);
      BumpTable(s, b.start, i, n);
      LiveAdded(s, b.start, i, c, b.start + n);
    } else {
      assert Bumped(b, i, n).blocks[i] == c && !Carved(c, b.start + n - TWO64);
    }
  }

  /** No dead block is large enough, a slot is dead, and the limit test wraps around. */
  ghost predicate Overruns(b: Books, size: nat) {
    var n := AlignUp(size);
    && 0 < size <= TWO64 - PAGE && FirstDead(b.blocks, n) == |b.blocks| && FirstDead(b.blocks, 0) < |b.blocks|
    && TWO64 <= b.start + n <= TWO64 + POOL_LIMIT
  }

  /** Every request leaves the pool sound, or is one that overruns it. */
  lemma {:induction false} AllocatedSound(b: Books, size: nat)
    requires Sound(b) && size < TWO64
    ensures Sound(Allocated(b, size).0) <==> !Overruns(b, size)
  {
    var n := AlignUp(size);
    var i, k := FirstDead(b.blocks, n), FirstDead(b.blocks, 0);
    if size == 0 {
    } else if i < |b.blocks| {
      TakenSound(b, i);
    } else if Wrap64(b.start + n) <= POOL_LIMIT && k < |b.blocks| {
      assert n > 0;
      BumpedSound(b, k, n);
    }
  }

  /** A dead block of at least the rounded size. */
  ghost predicate HasDead(s: seq<Block>, n: nat) {
    exists i :: 0 <= i < |s| && Dead(s[i], n)
  }

  lemma {:induction false} HasDeadIff(s: seq<Block>, n: nat)
    ensures HasDead(s, n) <==> FirstDead(s, n) < |s|
  {
  }

  /** A returned address is a new block of the size asked for, in a sound pool, exactly if the size
      can be rounded up and either a dead block is reused or the bump pointer does not wrap. */
  lemma {:induction false} AllocatedGives(b: Books, size: nat)
    requires Sound(b) && 0 < size < TWO64 && Allocated(b, size).1 != 0
    ensures var (b', r) := Allocated(b, size);
      Sound(b') && Given(Live(b.blocks), Live(b'.blocks), r, size)
      <==> size <= TWO64 - PAGE && (HasDead(b.blocks, AlignUp(size)) || b.start + AlignUp(size) < TWO64)
  {
    var n := AlignUp(size);
    var i, k := FirstDead(b.blocks, n), FirstDead(b.blocks, 0);
    HasDeadIff(b.blocks, n);
    if i < |b.blocks| {
      TakenSound(b, i);
      assert Carved(b.blocks[i], b.start);
    } else {
      assert n > 0;
      BumpedSound(b, k, n);
    }
  }

  /** A dead block that is large enough is given out, the first of them, and nothing is carved. */
  lemma {:induction false} ReusedFirst(b: Books, size: nat, i: nat)
    requires Sound(b) && 0 < size <= TWO64 - PAGE && i < |b.blocks| && !b.blocks[i].used && b.blocks[i].size >= size
    requires forall j :: 0 <= j < i ==> b.blocks[j].used || b.blocks[j].size < size
    ensures var (b', r) := Allocated(b, size);
      r == b.blocks[i].address && b'.start == b.start && b'.total == b.total && b'.used == b.used + b.blocks[i].size
  {
    forall j | 0 <= j < |b.blocks| ensures b.blocks[j].size >= size ==> b.blocks[j].size >= AlignUp(size) {
      assert Carved(b.blocks[j], b.start);
      if b.blocks[j].size >= size {
        WholePages(b.blocks[j].size, size);
      }
    }
    assert FirstDead(b.blocks, AlignUp(size)) == i;
    TakenSound(b, i);
    UsedWithinAll(Taken(b, i).blocks);
    SumUpdate(b.blocks, i, b.blocks[i].(used := true));
  }

  lemma {:induction false} WholePages(n: nat, size: nat)
    requires n % PAGE == 0 && n >= size && size <= TWO64 - PAGE
    ensures n >= AlignUp(size)
  {
  }

  /** Null is returned exactly if nothing was asked for, or nothing that is large enough can be
      given; for a size that rounds to zero, exactly if the first dead slot is unused. */
  lemma {:induction false} AllocatedFails(b: Books, size: nat)
    requires Sound(b) && size < TWO64
    ensures size <= TWO64 - PAGE && Allocated(b, size).1 == 0 ==> Allocated(b, size).0 == b
    ensures 0 < size <= TWO64 - PAGE ==> (Allocated(b, size).1 != 0 <==>
      HasDead(b.blocks, AlignUp(size)) || (HasDead(b.blocks, 0) && Wrap64(b.start + AlignUp(size)) <= POOL_LIMIT))
    ensures size > TWO64 - PAGE ==> (Allocated(b, size).1 == 0 <==>
      FirstDead(b.blocks, 0) < |b.blocks| ==> b.blocks[FirstDead(b.blocks, 0)].size == 0)
  {
    var n := AlignUp(size);
    HasDeadIff(b.blocks, n);
    HasDeadIff(b.blocks, 0);
    var i := FirstDead(b.blocks, n);
    assert i < |b.blocks| ==> Carved(b.blocks[i], b.start);
  }

  /** memory_alloc gives out no block at this address, as long as nothing is freed: it is that of a
      live block, or that of no block and not among those still to be carved. */
  ghost predicate Reserved(b: Books, t: nat) {
    t == 0 || t in Live(b.blocks) || (t !in Addresses(b.blocks) && !(b.start <= t < POOL_LIMIT))
  }

  /** So is every address outside the pool. */
  lemma {:induction false} OutsideReserved(b: Books, t: nat)
    requires Sound(b) && !(POOL_START <= t < POOL_LIMIT)
    ensures Reserved(b, t)
  {
    forall i | 0 <= i < |b.blocks| && t != 0 ensures b.blocks[i].address != t {
      assert Carved(b.blocks[i], b.start);
    }
  }

  lemma {:induction false} TakenReserves(b: Books, i: nat, t: nat)
    requires Sound(b) && i < |b.blocks| && !b.blocks[i].used && Reserved(b, t) && t != 0
    ensures Reserved(Taken(b, i), t) && t != b.blocks[i].address
  {
    var s, s' := b.blocks, Taken(b, i).blocks;
    assert s[i].address in Addresses(s) && Carved(s[i], b.start);
    TakenSound(b, i);
    if t in Live(s) {
      LiveIff(s, b.start);
      LiveIff(s', b.start);
      var k :| 0 <= k < |s| && LiveBlock(s[k]) && s[k].address == t;
      assert s'[k] == s[k];
      if s[i].address != 0 {
        OneAddress(s, b.start, i);
      } else {
        assert Carved(s[k], b.start);
      }
    } else {
      assert forall k :: 0 <= k < |s| ==> s'[k].address == s[k].address;
      assert Addresses(s') == Addresses(s);
    }
  }

  lemma {:induction false} BumpedReserves(b: Books, i: nat, n: nat, t: nat)
    requires Sound(b) && i < |b.blocks| && !b.blocks[i].used && 0 < n < TWO64 && n % PAGE == 0
    requires b.start + n <= POOL_LIMIT && Reserved(b, t) && t != 0
    ensures Reserved(Bumped(b, i, n), t) && t != b.start
  {
    BumpedSound(b, i, n);
    if t in Live(b.blocks) {
      LiveDisjoint(b.blocks, b.start, t, t);
    } else {
      var s, s' := b.blocks, Bumped(b, i, n).blocks;
      forall k | 0 <= k < |s'| ensures s'[k].address != t {
        assert k != i ==> s'[k] == s[k] && s[k].address in Addresses(s);
      }
    }
  }

  /** What is reserved stays so, and is not given out, whatever is asked for. */
  lemma {:induction false} AllocatedReserves(b: Books, size: nat, t: nat)
    requires Sound(b) && size < TWO64 && !Overruns(b, size) && Reserved(b, t)
    ensures Reserved(Allocated(b, size).0, t) && (Allocated(b, size).1 == t ==> t == 0)
  {
    var n := AlignUp(size);
    var i, k := FirstDead(b.blocks, n), FirstDead(b.blocks, 0);
    if size == 0 || t == 0 {
    } else if i < |b.blocks| {
      TakenReserves(b, i, t);
    } else if Wrap64(b.start + n) <= POOL_LIMIT && k < |b.blocks| {
      BumpedReserves(b, k, n, t);
    }
  }

  /** Freeing forgets exactly the block.  A second time, or at an address handed out and dead, the
      size is subtracted again and the accounting is wrong. */
  lemma {:induction false} FreedExact(b: Books, ptr: nat)
    requires Sound(b)
    ensures Live(Freed(b, ptr).blocks) == Live(b.blocks) - {ptr}
    ensures Sound(Freed(b, ptr)) <==> (ptr in Live(b.blocks) || ptr == 0 || ptr !in Addresses(b.blocks))
  {
    var s, i := b.blocks, FirstAt(b.blocks, ptr);
    LiveIff(s, b.start);
    if ptr == 0 {
      forall j | 0 <= j < |s| && LiveBlock(s[j]) ensures s[j].address != 0 {
        assert Carved(s[j], b.start);
      }
    } else if i < |s| {
      assert s[i].address in Addresses(s) && Carved(s[i], b.start);
      FreedAt(b, i);
    }
  }

  lemma {:induction false} FreedAt(b: Books, i: nat)
    requires Sound(b) && i < |b.blocks| && b.blocks[i].address != 0
    requires FirstAt(b.blocks, b.blocks[i].address) == i
    ensures var ptr := b.blocks[i].address; Live(Freed(b, ptr).blocks) == Live(b.blocks) - {ptr}
    ensures var ptr := b.blocks[i].address;
      (Sound(Freed(b, ptr)) <==> b.blocks[i].used) && (ptr in Live(b.blocks) <==> b.blocks[i].used)
  {
    var s, c := b.blocks, b.blocks[i].(used := false);
    assert Carved(s[i], b.start);
    LiveIff(s, b.start);
    SumUpdate(s, i, c);
    MarkTable(s, b.start, i, false);
    SumMember(s, i);
    UsedWithinAll(s);
    if s[i].used {
      LiveRemoved(s, b.start, i);
      assert LiveBlock(s[i]);
    } else {
      assert s[i := c] == s;
      OneAddress(s, b.start, i);
    }
  }

  /** No two slots share a block address. */
  lemma {:induction false} OneAddress(s: seq<Block>, start: nat, i: nat)
    requires i < |s| && Table(s, start) && s[i].address != 0 && !s[i].used
    ensures s[i].address !in Live(s)
  {
    LiveIff(s, start);
    forall j | 0 <= j < |s| && LiveBlock(s[j]) ensures s[j].address != s[i].address {
      assert j < i ==> Apart(s[j], s[i]);
      assert i < j ==> Apart(s[i], s[j]);
    }
  }

  // ------------------------------------------------------------------ the pool in memory

  class MemoryPool {
    const blocks: array<Block>
    var start: nat
    var total: nat
    var used: nat
    var allocCount: nat
    var freeCount: nat

    ghost function State(): Books
      reads this, blocks
    {
      Books(blocks[..], start, total, used)
    }

    ghost predicate Valid()
      reads this, blocks
    {
      Sound(State())
    }

    ghost function LiveBlocks(): map<nat, nat>
      reads this, blocks
    {
      Live(blocks[..])
    }

    constructor ()
      ensures Valid() && fresh(blocks) && LiveBlocks() == map[] && total == 0
      ensures blocks[..] == seq(2048, _ => Block(0, 0, false)) && start == 0x10_0000
      ensures allocCount == 0 && freeCount == 0
    {
      blocks := new Block[POOL_SIZE](_ => Block(0, 0, false));
      start, total, used, allocCount, freeCount := POOL_START, 0, 0, 0, 0;
      new;
      Blank(blocks[..]);
    }

    static lemma {:induction false} Blank(s: seq<Block>)
      requires forall i :: 0 <= i < |s| ==> s[i] == Block(0, 0, false)
      ensures SumUsed(s) == 0 && SumAll(s) == 0 && Live(s) == map[]
    {
      if s != [] { Blank(s[1..]); }
    }

    /** memory_alloc can still give out a page. */
    ghost predicate HasPage()
      reads this, blocks
    {
      HasDead(blocks[..], PAGE) || (start + PAGE <= POOL_LIMIT && HasDead(blocks[..], 0))
    }

    /** The first dead block of at least `n` bytes. */
    method FindDead(n: nat) returns (i: nat)
      requires blocks.Length == POOL_SIZE
      ensures i == FirstDead(blocks[..], n)
    {
      i := 0;
      while i < POOL_SIZE
        invariant 0 <= i <= POOL_SIZE
        invariant forall j :: 0 <= j < i ==> !Dead(blocks[..][j], n)
      {
        if Dead(blocks[i], n) {
          assert Dead(blocks[..][i], n);
          return;
        }
        i := i + 1;
      }
    }

    /** The first dead block of at least `aligned` bytes is given out again. */
    method Reuse(aligned: nat) returns (found: bool, r: nat)
      requires Valid()
      modifies this, blocks
      ensures found == old(HasDead(blocks[..], aligned))
      ensures !found ==> unchanged(this) && unchanged(blocks)
      ensures found ==> State() == Taken(old(State()), old(FirstDead(blocks[..], aligned)))
      ensures found ==> r == old(blocks[FirstDead(blocks[..], aligned)].address)
      ensures found ==> allocCount == Wrap64(old(allocCount) + 1) && freeCount == old(freeCount)
    {
      HasDeadIff(blocks[..], aligned);
      var i := FindDead(aligned);
      if i == POOL_SIZE {
        return false, 0;
      }
      used := Wrap64(used + blocks[i].size);
      blocks[i] := blocks[i].(used := true);
      allocCount := Wrap64(allocCount + 1);
      return true, blocks[i].address;
    }

    /** A new block at the bump pointer, in the first dead slot. */
    method Carve(aligned: nat) returns (r: nat)
      requires Valid()
      modifies this, blocks
      ensures !old(HasDead(blocks[..], 0)) ==> r == 0 && unchanged(this) && unchanged(blocks)
      ensures old(HasDead(blocks[..], 0)) ==>
        r == old(start) && State() == Bumped(old(State()), old(FirstDead(blocks[..], 0)), aligned)
        && allocCount == Wrap64(old(allocCount) + 1) && freeCount == old(freeCount)
    {
      HasDeadIff(blocks[..], 0);
      var i := FindDead(0);
      if i == POOL_SIZE {
        return 0;
      }
      blocks[i] := Block(start, aligned, true);
      start, total, used := Wrap64(start + aligned), Wrap64(total + aligned), Wrap64(used + aligned);
      allocCount := Wrap64(allocCount + 1);
      return blocks[i].address;
    }

    /** memory_alloc; address 0 is failure. */
    method Alloc(size: nat) returns (r: nat)
      requires Valid() && size < TWO64
      modifies this, blocks
      ensures (State(), r) == Allocated(old(State()), size)
      ensures Valid() <==> !Overruns(old(State()), size)
      ensures size > 0 && r != 0 ==>
        (Valid() && Given(old(LiveBlocks()), LiveBlocks(), r, size)
         <==> size <= TWO64 - PAGE && (old(HasDead(blocks[..], AlignUp(size))) || old(start) + AlignUp(size) < TWO64))
      ensures size <= TWO64 - PAGE && r == 0 ==> unchanged(this) && unchanged(blocks)
      ensures freeCount == old(freeCount)
      ensures allocCount == if State() == old(State()) then old(allocCount) else Wrap64(old(allocCount) + 1)
    {
      AllocatedSound(State(), size);
      AllocatedFails(State(), size);
      if size > 0 && Allocated(State(), size).1 != 0 {
        AllocatedGives(State(), size);
      }
      r := Find(size);
    }

    method Find(size: nat) returns (r: nat)
      requires Valid() && size < TWO64
      modifies this, blocks
      ensures (State(), r) == Allocated(old(State()), size)
      ensures State() == old(State()) && r == 0 ==> unchanged(this) && unchanged(blocks)
      ensures freeCount == old(freeCount)
      ensures allocCount == if State() == old(State()) then old(allocCount) else Wrap64(old(allocCount) + 1)
    {
      if size == 0 {
        return 0;
      }
      var aligned := AlignUp(size);
      HasDeadIff(blocks[..], aligned);
      HasDeadIff(blocks[..], 0);
      var found;
      found, r := Reuse(aligned);
      if found {
        return;
      }
      if Wrap64(start + aligned) > POOL_LIMIT {
        return 0;
      }
      r := Carve(aligned);
    }

    /** memory_free. */
    method Free(ptr: nat)
      requires Valid()
      modifies this, blocks
      ensures State() == Freed(old(State()), ptr)
      ensures LiveBlocks() == old(LiveBlocks()) - {ptr}
      ensures Valid() <==> (ptr in old(LiveBlocks()) || ptr == 0 || ptr !in old(Addresses(blocks[..])))
      ensures allocCount == old(allocCount)
      ensures freeCount == if ptr == 0 || ptr !in old(Addresses(blocks[..])) then old(freeCount) else Wrap64(old(freeCount) + 1)
    {
      FreedExact(State(), ptr);
      if ptr == 0 {
        return;
      }
      ghost var s := blocks[..];
      var i := 0;
      while i < POOL_SIZE
        invariant 0 <= i <= POOL_SIZE && unchanged(this) && unchanged(blocks)
        invariant forall j :: 0 <= j < i ==> s[j].address != ptr
      {
        if blocks[i].address == ptr {
          assert FirstAt(s, ptr) == i && s[i].address in Addresses(s);
          used := Wrap64(used - blocks[i].size);
          blocks[i] := blocks[i].(used := false);
          freeCount := Wrap64(freeCount + 1);
          assert blocks[..] == s[i := s[i].(used := false)];
          return;
        }
        i := i + 1;
      }
    }

    method GetFree() returns (r: nat)
      requires Valid()
      ensures r == total - used
    {
      UsedWithinAll(blocks[..]);
      return Wrap64(total - used);
    }
  }

  /** A first request that passes the wrapped limit test: its block reaches past the limit and the
      bump pointer moves back. */
  method OverrunFirst() returns (r: nat, p: MemoryPool)
    ensures r == POOL_START && !p.Valid() && p.start < POOL_START
  {
    p := new MemoryPool();
    assert FirstDead(p.blocks[..], TWO64 - 2 * PAGE) == POOL_SIZE && FirstDead(p.blocks[..], 0) == 0;
    assert AlignUp(TWO64 - 2 * PAGE) == TWO64 - 2 * PAGE;
    r := p.Alloc(TWO64 - 2 * PAGE);
  }

  /** A page is given back, and the largest size of all, which rounds to zero, is answered with it. */
  method PageForAll() returns (r: nat, p: MemoryPool)
    ensures r == POOL_START && p.Valid() && r in p.LiveBlocks() && p.LiveBlocks()[r] == PAGE
  {
    p := new MemoryPool();
    assert FirstDead(p.blocks[..], PAGE) == POOL_SIZE && FirstDead(p.blocks[..], 0) == 0 && AlignUp(PAGE) == PAGE;
    r := p.Alloc(PAGE);
    assert p.blocks[..][0] == Block(POOL_START, PAGE, true);
    assert FirstAt(p.blocks[..], POOL_START) == 0;
    p.Free(r);
    assert p.blocks[..][0] == Block(POOL_START, PAGE, false);
    assert FirstDead(p.blocks[..], 0) == 0 && AlignUp(TWO64 - 1) == 0;
    r := p.Alloc(TWO64 - 1);
    assert p.blocks[..][0] == Block(POOL_START, PAGE, true) && LiveBlock(p.blocks[..][0]);
    LiveIff(p.blocks[..], p.start);
  }

  /** A page freed twice: its size is subtracted twice. */
  method FreedTwice() returns (p: MemoryPool)
    ensures !p.Valid()
  {
    p := new MemoryPool();
    assert FirstDead(p.blocks[..], PAGE) == POOL_SIZE && FirstDead(p.blocks[..], 0) == 0 && AlignUp(PAGE) == PAGE;
    var r := p.Alloc(PAGE);
    assert p.blocks[..][0].address == r;
    assert FirstAt(p.blocks[..], r) == 0;
    p.Free(r);
    assert p.blocks[..][0].address == r && r in Addresses(p.blocks[..]);
    p.Free(r);
  }
}
