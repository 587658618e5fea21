/** What the journal of kernel/arch/x86_64/jbd2.c records, and the device writes its recovery
    performs, as values. */
module JournalLog {
  import opened Bits
  import opened Bytes
  import opened Common

  const MAGIC: nat := 0xC03B3998
  const DESCRIPTOR: nat := 1
  const COMMIT: nat := 2
  const REVOKED: nat := 3
  const MAX_SCAN: nat := 65536

  /** The packed block header is 4100 bytes; the target list of a descriptor follows it. */
  const HEADER_SIZE: nat := 4100

  type Block = seq<byte>

  /** Device blocks; reading an absent one fails. */
  type Device = map<nat, Block>

  datatype Geometry = Geometry(start: nat, blocks: nat, blockSize: nat) {
    /** Blocks are whole sectors, the superblock of three sectors fits in one, and the journal ends
        below sector 2^64. */
    ghost predicate Valid() {
      blocks >= 16 && blockSize % 512 == 0 && blockSize >= 1536 && (start + blocks) * Sectors() <= TWO64
    }

    function Sectors(): nat { blockSize / 512 }

    /** The 64-bit number of the first sector of a device block. */
    function Sector(block: nat): nat { Wrap64(block * Sectors()) }

    /** The blocks that recovery reads before it replays anything. */
    function Scanned(): nat { if blocks - 1 < MAX_SCAN then (if blocks == 0 then 0 else blocks - 1) else MAX_SCAN }

    /** Device blocks of the journal, superblock included. */
    predicate InJournal(b: nat) { start <= b < start + blocks }
  }

  function ReadJournal(d: Device, g: Geometry, j: nat): Option<Block> {
    if g.start + j in d && |d[g.start + j]| == g.blockSize then Some(d[g.start + j]) else None
  }

  function Kind(b: Block): nat requires |b| >= 20 { LE32(b, 4) }

  function Tid(b: Block): nat requires |b| >= 20 { LE64(b, 8) }

  function Count(b: Block): nat requires |b| >= 20 { LE32(b, 16) }

  predicate IsRecord(b: Block)
    requires |b| >= 20
  {
    LE32(b, 0) == MAGIC && (Kind(b) == DESCRIPTOR || Kind(b) == COMMIT || Kind(b) == REVOKED)
  }

  /** Target `i` of a descriptor; only those inside the block are meaningful. */
  function Target(b: Block, i: nat): nat {
    if HEADER_SIZE + 8 * i + 8 <= |b| then LE64(b, HEADER_SIZE + 8 * i) else 0
  }

  // ------------------------------------------------------------------ what recovery finds

  datatype Record = Record(at: nat, tid: nat, kind: nat)

  ghost function RecordAt(d: Device, g: Geometry, j: nat): seq<Record>
    requires g.Valid()
  {
    match ReadJournal(d, g, j)
    case None => []
    case Some(b) => if IsRecord(b) then [Record(j, Tid(b), Kind(b))] else []
  }

  /** Records in the journal blocks after the first `i`, in order. */
  ghost function ScanFrom(d: Device, g: Geometry, i: nat): seq<Record>
    requires g.Valid()
    decreases g.Scanned() - i
  {
    if i >= g.Scanned() then [] else RecordAt(d, g, i + 1) + ScanFrom(d, g, i + 1)
  }

  ghost function Records(d: Device, g: Geometry): seq<Record>
    requires g.Valid()
  {
    ScanFrom(d, g, 0)
  }

  predicate Committed(rs: seq<Record>, tid: nat) {
    exists i :: 0 <= i < |rs| && rs[i].tid == tid && rs[i].kind == COMMIT
  }

  ghost function MaxTid(rs: seq<Record>): nat {
    if rs == [] then 0
    else if rs[|rs| - 1].tid > MaxTid(rs[..|rs| - 1]) then rs[|rs| - 1].tid else MaxTid(rs[..|rs| - 1])
  }

  // ------------------------------------------------------------------ what recovery writes

  datatype Write = Write(tid: nat, target: nat, data: Block)

  /** Writes of the descriptor `b` found at journal block `at`, from list entry `i` on: the data
      of entry `i` is the journal block `i + 1` after it. */
  ghost function DescFrom(d: Device, g: Geometry, at: nat, b: Block, i: nat): seq<Write>
    requires |b| >= 20
    decreases Count(b) - i
  {
    if i >= Count(b) || at + 1 + i >= g.blocks then []
    else
      (match ReadJournal(d, g, at + 1 + i)
       case None => []
       case Some(x) => [Write(Tid(b), Target(b, i), x)])
      + DescFrom(d, g, at, b, i + 1)
  }

  /** Writes of one record, for transaction `tid`. */
  ghost function OfRecord(d: Device, g: Geometry, r: Record, tid: nat): seq<Write>
    requires g.Valid()
  {
    if r.tid != tid || r.kind != DESCRIPTOR then []
    else
      match ReadJournal(d, g, r.at)
      case None => []
      case Some(b) => DescFrom(d, g, r.at, b, 0)
  }

  /** Writes of one transaction: its descriptors in journal order. */
  ghost function TidFrom(d: Device, g: Geometry, rs: seq<Record>, k: nat, tid: nat): seq<Write>
    requires g.Valid()
    decreases |rs| - k
  {
    if k >= |rs| then [] else OfRecord(d, g, rs[k], tid) + TidFrom(d, g, rs, k + 1, tid)
  }

  /** Committed transactions from `tid` to `max`, ascending. */
  ghost function AllFrom(d: Device, g: Geometry, rs: seq<Record>, tid: nat, max: nat): seq<Write>
    requires g.Valid()
    decreases max + 1 - tid
  {
    if tid > max then []
    else (if Committed(rs, tid) then TidFrom(d, g, rs, 0, tid) else []) + AllFrom(d, g, rs, tid + 1, max)
  }

  /** All device writes of one recovery, in order. */
  ghost function Writes(d: Device, g: Geometry): seq<Write>
    requires g.Valid()
  {
    AllFrom(d, g, Records(d, g), 1, MaxTid(Records(d, g)))
  }

  ghost function Apply(d: Device, ws: seq<Write>): Device
    decreases ws
  {
    if ws == [] then d else Apply(d[ws[0].target := ws[0].data], ws[1..])
  }

  // ------------------------------------------------------------------ recovery depends on the log only

  /** The two devices hold the same log blocks. */
  ghost predicate SameLog(d: Device, e: Device, g: Geometry) {
    forall j :: 1 <= j < g.blocks ==> ReadJournal(d, g, j) == ReadJournal(e, g, j)
  }

  lemma {:induction false} ScanSame(d: Device, e: Device, g: Geometry, i: nat)
    requires g.Valid() && SameLog(d, e, g)
    ensures ScanFrom(d, g, i) == ScanFrom(e, g, i)
    decreases g.Scanned() - i
  {
    if i < g.Scanned() {
      ScanSame(d, e, g, i + 1);
      assert ReadJournal(d, g, i + 1) == ReadJournal(e, g, i + 1);
    }
  }

  /** Each record describes the journal block it was found in. */
  ghost predicate Describes(d: Device, g: Geometry, r: Record)
    requires g.Valid()
  {
    && 1 <= r.at < g.blocks && ReadJournal(d, g, r.at).Some?
    && var b := ReadJournal(d, g, r.at).value; IsRecord(b) && r.tid == Tid(b) && r.kind == Kind(b)
  }

  /** The fields of a record: four bytes of magic, kind, eight of transaction number, count. */
  lemma {:induction false} RecordFields(b: Block)
    requires |b| >= 20
    ensures IsRecord(b) <==> b[0] == 0x98 && b[1] == 0x39 && b[2] == 0x3B && b[3] == 0xC0 && 1 <= b[4] <= 3 && b[5] == b[6] == b[7] == 0
    ensures IsRecord(b) ==> Kind(b) == b[4]
    ensures Tid(b) == LE32(b, 8) + 0x1_0000_0000 * LE32(b, 12) && Count(b) == LE32(b, 16)
  {
    LE32Is(b, 0);
    LE32Is(b, 4);
  }

  /** Target `i` is the eight bytes from 4100 + 8 * i on. */
  lemma {:induction false} TargetIs(b: Block, i: nat)
    requires 4108 + 8 * i <= |b|
    ensures Target(b, i) == LE32(b, 4100 + 8 * i) + 0x1_0000_0000 * LE32(b, 4104 + 8 * i)
  {
  }

  lemma {:induction false} ScanDescribes(d: Device, g: Geometry, i: nat)
    requires g.Valid()
    ensures forall k :: 0 <= k < |ScanFrom(d, g, i)| ==> Describes(d, g, ScanFrom(d, g, i)[k])
    decreases g.Scanned() - i
  {
    if i < g.Scanned() {
      ScanDescribes(d, g, i + 1);
    }
  }

  lemma {:induction false} DescSame(d: Device, e: Device, g: Geometry, at: nat, b: Block, i: nat)
    requires SameLog(d, e, g) && |b| >= 20
    ensures DescFrom(d, g, at, b, i) == DescFrom(e, g, at, b, i)
    decreases Count(b) - i
  {
    if i < Count(b) && at + 1 + i < g.blocks {
      DescSame(d, e, g, at, b, i + 1);
      assert ReadJournal(d, g, at + 1 + i) == ReadJournal(e, g, at + 1 + i);
    }
  }

  lemma {:induction false} TidSame(d: Device, e: Device, g: Geometry, rs: seq<Record>, k: nat, tid: nat)
    requires g.Valid() && SameLog(d, e, g) && forall j :: 0 <= j < |rs| ==> 1 <= rs[j].at < g.blocks
    ensures TidFrom(d, g, rs, k, tid) == TidFrom(e, g, rs, k, tid)
    decreases |rs| - k
  {
    if k < |rs| {
      TidSame(d, e, g, rs, k + 1, tid);
      assert ReadJournal(d, g, rs[k].at) == ReadJournal(e, g, rs[k].at);
      match ReadJournal(d, g, rs[k].at)
      case None =>
      case Some(b) => DescSame(d, e, g, rs[k].at, b, 0);
    }
  }

  lemma {:induction false} AllSame(d: Device, e: Device, g: Geometry, rs: seq<Record>, tid: nat, max: nat)
    requires g.Valid() && SameLog(d, e, g) && forall j :: 0 <= j < |rs| ==> 1 <= rs[j].at < g.blocks
    ensures AllFrom(d, g, rs, tid, max) == AllFrom(e, g, rs, tid, max)
    decreases max + 1 - tid
  {
    if tid <= max {
      AllSame(d, e, g, rs, tid + 1, max);
      TidSame(d, e, g, rs, 0, tid);
    }
  }

  lemma {:induction false} WritesSame(d: Device, e: Device, g: Geometry)
    requires g.Valid() && SameLog(d, e, g)
    ensures Records(d, g) == Records(e, g) && Writes(d, g) == Writes(e, g)
  {
    ScanSame(d, e, g, 0);
    ScanDescribes(d, g, 0);
    AllSame(d, e, g, Records(d, g), 1, MaxTid(Records(d, g)));
  }

  // ------------------------------------------------------------------ applying writes

  /** A block outside the journal whose sector numbers do not wrap. */
  ghost predicate IsHome(g: Geometry, block: nat) {
    !g.InJournal(block) && (block + 1) * g.Sectors() <= TWO64
  }

  /** Every write goes to such a block. */
  ghost predicate Outside(ws: seq<Write>, g: Geometry) {
    forall i :: 0 <= i < |ws| ==> IsHome(g, ws[i].target)
  }

  lemma {:induction false} ProductNext(a: nat, n: nat)
    ensures (a + 1) * n == a * n + n
  {
  }

  /** Below that bound different blocks are different sectors. */
  lemma {:induction false} SectorsApart(g: Geometry, a: nat, b: nat)
    requires g.Valid() && a < b && (b + 1) * g.Sectors() <= TWO64
    ensures g.Sector(a) + g.Sectors() <= g.Sector(b)
  {
    var n := g.Sectors();
    ProductsAscend(a + 1, b, n);
    ProductNext(a, n);
    ProductNext(b, n);
  }

  /** Above it they need not be: block 2^61 + k of 4096 bytes is block k. */
  lemma {:induction false} SectorsWrap(g: Geometry, k: nat)
    requires g.blockSize == 4096 && k < 0x2000_0000_0000_0000
    ensures g.Sector(0x2000_0000_0000_0000 + k) == g.Sector(k)
  {
    assert g.Sectors() == 8;
  }

  lemma {:induction false} ApplyKeepsLog(d: Device, ws: seq<Write>, g: Geometry)
    requires Outside(ws, g)
    ensures SameLog(d, Apply(d, ws), g)
    decreases ws
  {
    if ws != [] {
      ApplyKeepsLog(d[ws[0].target := ws[0].data], ws[1..], g);
    }
  }

  /** The last write to a block. */
  ghost function LastTo(ws: seq<Write>, x: nat): Option<Write> {
    if ws == [] then None
    else if ws[|ws| - 1].target == x then Some(ws[|ws| - 1])
    else LastTo(ws[..|ws| - 1], x)
  }

  lemma {:induction false} ApplyAppend(d: Device, a: seq<Write>, b: seq<Write>)
    ensures Apply(d, a + b) == Apply(Apply(d, a), b)
    decreases a
  {
    if a == [] {
      assert a + b == b;
    } else {
      assert (a + b)[1..] == a[1..] + b;
      ApplyAppend(d[a[0].target := a[0].data], a[1..], b);
    }
  }

  /** What a block holds afterwards: the data of the last write to it, or what it held. */
  lemma {:induction false} ApplyAt(d: Device, ws: seq<Write>, x: nat)
    ensures LastTo(ws, x).None? ==> (x in Apply(d, ws) <==> x in d) && (x in d ==> Apply(d, ws)[x] == d[x])
    ensures LastTo(ws, x).Some? ==> x in Apply(d, ws) && Apply(d, ws)[x] == LastTo(ws, x).value.data
    decreases |ws|
  {
    if ws != [] {
      var n := |ws| - 1;
      assert ws == ws[..n] + [ws[n]];
      ApplyAppend(d, ws[..n], [ws[n]]);
      ApplyAt(d, ws[..n], x);
      assert Apply(Apply(d, ws[..n]), [ws[n]]) == Apply(d, ws[..n])[ws[n].target := ws[n].data];
    }
  }

  lemma {:induction false} LastToTarget(ws: seq<Write>, i: nat)
    requires i < |ws|
    ensures LastTo(ws, ws[i].target).Some?
    decreases |ws|
  {
    if i < |ws| - 1 {
      LastToTarget(ws[..|ws| - 1], i);
    }
  }

  /** The two devices differ only in blocks that are written. */
  ghost predicate SameElsewhere(d: Device, e: Device, ws: seq<Write>) {
    forall x :: LastTo(ws, x).None? ==> (x in d <==> x in e) && (x in d ==> d[x] == e[x])
  }

  /** Writes leave the same device whatever the blocks they go to held. */
  lemma {:induction false} ApplyOver(d: Device, e: Device, ws: seq<Write>)
    requires SameElsewhere(d, e, ws)
    ensures Apply(d, ws) == Apply(e, ws)
  {
    var p, q := Apply(d, ws), Apply(e, ws);
    forall x ensures (x in p <==> x in q) && (x in p ==> p[x] == q[x]) {
      ApplyAt(d, ws, x);
      ApplyAt(e, ws, x);
    }
  }

  lemma {:induction false} PrefixElsewhere(d: Device, ws: seq<Write>, n: nat)
    requires n <= |ws|
    ensures SameElsewhere(d, Apply(d, ws[..n]), ws)
    decreases n
  {
    if n > 0 {
      PrefixElsewhere(d, ws, n - 1);
      var w := ws[n - 1];
      assert ws[..n] == ws[..n - 1] + [w];
      ApplyAppend(d, ws[..n - 1], [w]);
      assert Apply(Apply(d, ws[..n - 1]), [w]) == Apply(d, ws[..n - 1])[w.target := w.data];
      LastToTarget(ws, n - 1);
    }
  }

  // ------------------------------------------------------------------ which writes there are

  /** `w` is what entry `j` of the descriptor `b` at journal block `at` asks for. */
  ghost predicate IsEntry(d: Device, g: Geometry, at: nat, b: Block, j: nat, w: Write)
    requires |b| >= 20
  {
    && j < Count(b) && at + 1 + j < g.blocks
    && w.tid == Tid(b) && w.target == Target(b, j) && ReadJournal(d, g, at + 1 + j) == Some(w.data)
  }

  /** `w` is entry `j` of the descriptor found at record `k`, whose transaction has a commit record. */
  ghost predicate NamedAt(d: Device, g: Geometry, w: Write, k: nat, j: nat)
    requires g.Valid()
  {
    var rs := Records(d, g);
    && k < |rs| && rs[k].kind == DESCRIPTOR && rs[k].tid == w.tid && w.tid >= 1 && Committed(rs, w.tid)
    && ReadJournal(d, g, rs[k].at).Some? && IsEntry(d, g, rs[k].at, ReadJournal(d, g, rs[k].at).value, j, w)
  }

  lemma {:induction false} DescMember(d: Device, g: Geometry, at: nat, b: Block, i: nat, w: Write)
    requires |b| >= 20
    ensures w in DescFrom(d, g, at, b, i) <==> exists j :: j >= i && IsEntry(d, g, at, b, j, w)
    decreases Count(b) - i
  {
    if i < Count(b) && at + 1 + i < g.blocks {
      DescMember(d, g, at, b, i + 1, w);
      assert w in DescFrom(d, g, at, b, i) <==> IsEntry(d, g, at, b, i, w) || w in DescFrom(d, g, at, b, i + 1);
      if w in DescFrom(d, g, at, b, i + 1) {
        var j :| j >= i + 1 && IsEntry(d, g, at, b, j, w);
        assert j >= i;
      }
    }
  }

  lemma {:induction false} TidMember(d: Device, g: Geometry, rs: seq<Record>, k: nat, tid: nat, w: Write)
    requires g.Valid()
    ensures w in TidFrom(d, g, rs, k, tid) <==> exists n :: k <= n < |rs| && w in OfRecord(d, g, rs[n], tid)
    decreases |rs| - k
  {
    if k < |rs| {
      TidMember(d, g, rs, k + 1, tid, w);
      var a, b := OfRecord(d, g, rs[k], tid), TidFrom(d, g, rs, k + 1, tid);
      assert TidFrom(d, g, rs, k, tid) == a + b;
      MemberOfSum(a, b, w);
    }
  }

  lemma {:induction false} MemberOfSum(a: seq<Write>, b: seq<Write>, w: Write)
    ensures w in a + b <==> w in a || w in b
  {
  }

  ghost predicate FromTid(d: Device, g: Geometry, rs: seq<Record>, t: nat, w: Write)
    requires g.Valid()
  {
    Committed(rs, t) && w in TidFrom(d, g, rs, 0, t)
  }

  lemma {:induction false} AllMember(d: Device, g: Geometry, rs: seq<Record>, tid: nat, max: nat, w: Write)
    requires g.Valid()
    ensures w in AllFrom(d, g, rs, tid, max) <==> exists t :: tid <= t <= max && FromTid(d, g, rs, t, w)
    decreases max + 1 - tid
  {
    if tid <= max {
      AllMember(d, g, rs, tid + 1, max, w);
      assert w in AllFrom(d, g, rs, tid, max) <==> FromTid(d, g, rs, tid, w) || w in AllFrom(d, g, rs, tid + 1, max);
      if w in AllFrom(d, g, rs, tid + 1, max) {
        var t :| tid + 1 <= t <= max && FromTid(d, g, rs, t, w);
        assert tid <= t;
      }
    }
  }

  lemma {:induction false} MaxTidBounds(rs: seq<Record>)
    ensures forall k :: 0 <= k < |rs| ==> rs[k].tid <= MaxTid(rs)
    ensures MaxTid(rs) > 0 ==> exists k :: 0 <= k < |rs| && rs[k].tid == MaxTid(rs)
  {
    if rs != [] {
      var n := |rs| - 1;
      MaxTidBounds(rs[..n]);
      assert forall k :: 0 <= k < n ==> rs[..n][k] == rs[k];
      if MaxTid(rs) > 0 && MaxTid(rs) != rs[n].tid {
        var k :| 0 <= k < n && rs[..n][k].tid == MaxTid(rs[..n]);
        assert rs[k].tid == MaxTid(rs);
      }
    }
  }

  lemma {:induction false} WriteHasName(d: Device, g: Geometry, w: Write)
    requires g.Valid() && w in Writes(d, g)
    ensures exists k, j :: NamedAt(d, g, w, k, j)
  {
    var rs := Records(d, g);
    AllMember(d, g, rs, 1, MaxTid(rs), w);
    var t :| 1 <= t <= MaxTid(rs) && FromTid(d, g, rs, t, w);
    TidMember(d, g, rs, 0, t, w);
    var n :| 0 <= n < |rs| && w in OfRecord(d, g, rs[n], t);
    ScanDescribes(d, g, 0);
    assert Describes(d, g, rs[n]);
    var b := ReadJournal(d, g, rs[n].at).value;
    DescMember(d, g, rs[n].at, b, 0, w);
    var j :| j >= 0 && IsEntry(d, g, rs[n].at, b, j, w);
    assert NamedAt(d, g, w, n, j);
  }

  lemma {:induction false} NamedIsWritten(d: Device, g: Geometry, w: Write, k: nat, j: nat)
    requires g.Valid() && NamedAt(d, g, w, k, j)
    ensures w in Writes(d, g)
  {
    var rs := Records(d, g);
    DescMember(d, g, rs[k].at, ReadJournal(d, g, rs[k].at).value, 0, w);
    assert w in OfRecord(d, g, rs[k], w.tid);
    TidMember(d, g, rs, 0, w.tid, w);
    assert FromTid(d, g, rs, w.tid, w);
    MaxTidBounds(rs);
    AllMember(d, g, rs, 1, MaxTid(rs), w);
  }

  /** Recovery writes exactly the blocks named by descriptors of committed transactions. */
  lemma {:induction false} WritesNamed(d: Device, g: Geometry, w: Write)
    requires g.Valid()
    ensures w in Writes(d, g) <==> exists k, j :: NamedAt(d, g, w, k, j)
  {
    if w in Writes(d, g) {
      WriteHasName(d, g, w);
    }
    if exists k, j :: NamedAt(d, g, w, k, j) {
      var k, j :| NamedAt(d, g, w, k, j);
      NamedIsWritten(d, g, w, k, j);
    }
  }

  ghost predicate Ascending(ws: seq<Write>, lo: nat, hi: nat) {
    && (forall i :: 0 <= i < |ws| ==> lo <= ws[i].tid <= hi)
    && (forall i, j :: 0 <= i < j < |ws| ==> ws[i].tid <= ws[j].tid)
  }

  lemma {:induction false} JoinAscending(a: seq<Write>, b: seq<Write>, lo: nat, mid: nat, hi: nat)
    requires Ascending(a, lo, mid) && Ascending(b, mid, hi) && lo <= mid <= hi
    ensures Ascending(a + b, lo, hi)
  {
  }

  lemma {:induction false} TidAscending(d: Device, g: Geometry, rs: seq<Record>, k: nat, tid: nat)
    requires g.Valid() && forall n :: 0 <= n < |rs| ==> Describes(d, g, rs[n])
    ensures Ascending(TidFrom(d, g, rs, k, tid), tid, tid)
  {
    var ws := TidFrom(d, g, rs, k, tid);
    forall j | 0 <= j < |ws| ensures ws[j].tid == tid {
      TidMember(d, g, rs, k, tid, ws[j]);
      var n :| k <= n < |rs| && ws[j] in OfRecord(d, g, rs[n], tid);
      assert Describes(d, g, rs[n]);
      DescMember(d, g, rs[n].at, ReadJournal(d, g, rs[n].at).value, 0, ws[j]);
    }
  }

  lemma {:induction false} AllAscending(d: Device, g: Geometry, rs: seq<Record>, tid: nat, max: nat)
    requires g.Valid() && tid <= max && forall n :: 0 <= n < |rs| ==> Describes(d, g, rs[n])
    ensures Ascending(AllFrom(d, g, rs, tid, max), tid, max)
    decreases max - tid
  {
    var here := if Committed(rs, tid) then TidFrom(d, g, rs, 0, tid) else [];
    TidAscending(d, g, rs, 0, tid);
    if tid < max {
      AllAscending(d, g, rs, tid + 1, max);
      JoinAscending(here, AllFrom(d, g, rs, tid + 1, max), tid, tid, max);
    } else {
      assert AllFrom(d, g, rs, tid + 1, max) == [];
      JoinAscending(here, [], tid, tid, max);
    }
  }

  // ------------------------------------------------------------------ in which order

  /** The second place comes later: in a later record, or later in the same one. */
  predicate Later(a: (nat, nat), b: (nat, nat)) {
    a.0 < b.0 || (a.0 == b.0 && a.1 < b.1)
  }

  ghost predicate InOrder(ps: seq<(nat, nat)>) {
    forall i, j :: 0 <= i < j < |ps| ==> Later(ps[i], ps[j])
  }

  lemma {:induction false} JoinInOrder(a: seq<(nat, nat)>, b: seq<(nat, nat)>)
    requires InOrder(a) && InOrder(b)
    requires forall i, j :: 0 <= i < |a| && 0 <= j < |b| ==> Later(a[i], b[j])
    ensures InOrder(a + b)
  {
  }

  /** Where the writes of a descriptor stand in its list. */
  lemma {:induction false} DescPlaces(d: Device, g: Geometry, k: nat, at: nat, b: Block, i: nat) returns (ps: seq<(nat, nat)>)
    requires |b| >= 20
    ensures var ws := DescFrom(d, g, at, b, i);
      |ps| == |ws| && forall n :: 0 <= n < |ps| ==> ps[n].0 == k && ps[n].1 >= i && IsEntry(d, g, at, b, ps[n].1, ws[n])
    ensures InOrder(ps)
    decreases Count(b) - i
  {
    ps := [];
    if i < Count(b) && at + 1 + i < g.blocks {
      var later := DescPlaces(d, g, k, at, b, i + 1);
      var here := if ReadJournal(d, g, at + 1 + i).Some? then [(k, i)] else [];
      JoinInOrder(here, later);
      ps := here + later;
    }
  }

  /** The record of a place is a descriptor of that transaction, and its entry asks for the write. */
  ghost predicate StandsAt(d: Device, g: Geometry, rs: seq<Record>, tid: nat, p: (nat, nat), w: Write)
    requires g.Valid()
  {
    && p.0 < |rs| && rs[p.0].kind == 1 && rs[p.0].tid == tid
    && ReadJournal(d, g, rs[p.0].at).Some? && IsEntry(d, g, rs[p.0].at, ReadJournal(d, g, rs[p.0].at).value, p.1, w)
  }

  lemma {:induction false} RecordPlaces(d: Device, g: Geometry, rs: seq<Record>, k: nat, tid: nat) returns (ps: seq<(nat, nat)>)
    requires g.Valid() && k < |rs|
    ensures var ws := OfRecord(d, g, rs[k], tid);
      |ps| == |ws| && forall n :: 0 <= n < |ps| ==> ps[n].0 == k && StandsAt(d, g, rs, tid, ps[n], ws[n])
    ensures InOrder(ps)
  {
    ps := [];
    if rs[k].tid == tid && rs[k].kind == DESCRIPTOR && ReadJournal(d, g, rs[k].at).Some? {
      ps := DescPlaces(d, g, k, rs[k].at, ReadJournal(d, g, rs[k].at).value, 0);
    }
  }

  lemma {:induction false} TidPlaces(d: Device, g: Geometry, rs: seq<Record>, k: nat, tid: nat) returns (ps: seq<(nat, nat)>)
    requires g.Valid()
    ensures var ws := TidFrom(d, g, rs, k, tid);
      |ps| == |ws| && forall n :: 0 <= n < |ps| ==> ps[n].0 >= k && StandsAt(d, g, rs, tid, ps[n], ws[n])
    ensures InOrder(ps)
    decreases |rs| - k
  {
    ps := [];
    if k < |rs| {
      var here := RecordPlaces(d, g, rs, k, tid);
      var later := TidPlaces(d, g, rs, k + 1, tid);
      JoinInOrder(here, later);
      ps := here + later;
    }
  }

  /** A later transaction, or a later place in the same one. */
  ghost predicate Follows(v: Write, w: Write, a: (nat, nat), b: (nat, nat)) {
    v.tid < w.tid || (v.tid == w.tid && Later(a, b))
  }

  ghost predicate Sequenced(ws: seq<Write>, ps: seq<(nat, nat)>) {
    |ps| == |ws| && forall i, j :: 0 <= i < j < |ws| ==> Follows(ws[i], ws[j], ps[i], ps[j])
  }

  lemma {:induction false} JoinSequenced(v: seq<Write>, w: seq<Write>, a: seq<(nat, nat)>, b: seq<(nat, nat)>)
    requires Sequenced(v, a) && Sequenced(w, b)
    requires forall i, j :: 0 <= i < |v| && 0 <= j < |w| ==> v[i].tid < w[j].tid
    ensures Sequenced(v + w, a + b)
  {
  }

  lemma {:induction false} AllPlaces(d: Device, g: Geometry, rs: seq<Record>, tid: nat, max: nat) returns (ps: seq<(nat, nat)>)
    requires g.Valid() && forall n :: 0 <= n < |rs| ==> Describes(d, g, rs[n])
    ensures var ws := AllFrom(d, g, rs, tid, max);
      && Sequenced(ws, ps)
      && forall n :: 0 <= n < |ws| ==> tid <= ws[n].tid && Committed(rs, ws[n].tid) && StandsAt(d, g, rs, ws[n].tid, ps[n], ws[n])
    decreases max + 1 - tid
  {
    ps := [];
    if tid <= max {
      var later := AllPlaces(d, g, rs, tid + 1, max);
      var here, ws := [], [];
      if Committed(rs, tid) {
        here := TidPlaces(d, g, rs, 0, tid);
        ws := TidFrom(d, g, rs, 0, tid);
        TidAscending(d, g, rs, 0, tid);
      }
      JoinSequenced(ws, AllFrom(d, g, rs, tid + 1, max), here, later);
      ps := here + later;
    }
  }

  /** The writes stand in the order of their transactions, and within one in the order of the
      records of the log and of the lists in them. */
  lemma {:induction false} WritesInOrder(d: Device, g: Geometry) returns (ps: seq<(nat, nat)>)
    requires g.Valid()
    ensures Sequenced(Writes(d, g), ps)
    ensures forall n :: 0 <= n < |ps| ==> NamedAt(d, g, Writes(d, g)[n], ps[n].0, ps[n].1)
  {
    ScanDescribes(d, g, 0);
    ps := AllPlaces(d, g, Records(d, g), 1, MaxTid(Records(d, g)));
  }

  /** Writes come in ascending transaction order. */
  lemma {:induction false} WritesAscending(d: Device, g: Geometry)
    requires g.Valid()
    ensures forall i, j :: 0 <= i < j < |Writes(d, g)| ==> Writes(d, g)[i].tid <= Writes(d, g)[j].tid
  {
    var rs := Records(d, g);
    ScanDescribes(d, g, 0);
    if 1 <= MaxTid(rs) {
      AllAscending(d, g, rs, 1, MaxTid(rs));
    }
  }

  lemma {:induction false} LastToNewest(ws: seq<Write>, x: nat)
    requires forall i, j :: 0 <= i < j < |ws| ==> ws[i].tid <= ws[j].tid
    ensures LastTo(ws, x).None? <==> forall i :: 0 <= i < |ws| ==> ws[i].target != x
    ensures LastTo(ws, x).Some? ==> LastTo(ws, x).value in ws && LastTo(ws, x).value.target == x
    ensures LastTo(ws, x).Some? ==> forall i :: 0 <= i < |ws| && ws[i].target == x ==> ws[i].tid <= LastTo(ws, x).value.tid
    decreases |ws|
  {
    if ws != [] {
      var n := |ws| - 1;
      assert forall i :: 0 <= i < n ==> ws[..n][i] == ws[i];
      LastToNewest(ws[..n], x);
    }
  }

  ghost predicate NewestTo(ws: seq<Write>, w: Write, x: nat) {
    forall i :: 0 <= i < |ws| && ws[i].target == x ==> ws[i].tid <= w.tid
  }

  /** After recovery a block holds the data of the newest committed transaction that names it,
      or what it held before if none does. */
  lemma {:induction false} NewestWins(d: Device, g: Geometry, x: nat)
    requires g.Valid()
    ensures var now, ws := Apply(d, Writes(d, g)), Writes(d, g);
      && ((forall i :: 0 <= i < |ws| ==> ws[i].target != x) ==> (x in now <==> x in d) && (x in d ==> now[x] == d[x]))
      && ((exists i :: 0 <= i < |ws| && ws[i].target == x) ==>
            x in now && exists w :: w in ws && w.target == x && now[x] == w.data && NewestTo(ws, w, x))
  {
    var ws := Writes(d, g);
    WritesAscending(d, g);
    LastToNewest(ws, x);
    ApplyAt(d, ws, x);
  }

  /** Every target list entry that recovery will read lies inside its block. The entry is read
      before the position of its data is checked. */
  ghost predicate ListsFit(d: Device, g: Geometry)
    requires g.Valid()
  {
    var rs := Records(d, g);
    forall k :: 0 <= k < |rs| && rs[k].kind == DESCRIPTOR && Committed(rs, rs[k].tid) ==>
      match ReadJournal(d, g, rs[k].at)
      case None => true
      case Some(b) => ListFits(g, rs[k].at, b)
  }

  ghost predicate ListFits(g: Geometry, at: nat, b: Block)
    requires |b| >= 20
  {
    forall j {:trigger Target(b, j)} :: 0 <= j < Count(b) && at + 1 + j <= g.blocks ==> HEADER_SIZE + 8 * j + 8 <= |b|
  }

  lemma {:induction false} WriteNeedsRoom(d: Device, g: Geometry, w: Write)
    requires g.Valid() && ListsFit(d, g) && w in Writes(d, g)
    ensures g.blockSize >= HEADER_SIZE + 8
  {
    WriteHasName(d, g, w);
    var k: nat, j: nat :| NamedAt(d, g, w, k, j);
    var b := ReadJournal(d, g, Records(d, g)[k].at).value;
    assert Target(b, j) == w.target;
  }

  /** With blocks below 4108 bytes, 4096 among them, the 4100-byte header leaves no room for a list:
      recovery that stays inside its buffers replays nothing. */
  lemma {:induction false} NothingFits(d: Device, g: Geometry)
    requires g.Valid() && g.blockSize < HEADER_SIZE + 8 && ListsFit(d, g)
    ensures Writes(d, g) == []
  {
    if Writes(d, g) != [] {
      WriteNeedsRoom(d, g, Writes(d, g)[0]);
      assert false;
    }
  }

  lemma {:induction false} ScanFinds(d: Device, g: Geometry, i: nat, j: nat)
    requires g.Valid() && i < j <= g.Scanned() && RecordAt(d, g, j) != []
    ensures RecordAt(d, g, j)[0] in ScanFrom(d, g, i)
    decreases j - i
  {
    var here, later := RecordAt(d, g, i + 1), ScanFrom(d, g, i + 1);
    assert ScanFrom(d, g, i) == here + later;
    if j > i + 1 {
      ScanFinds(d, g, i + 1, j);
    }
  }

  /** Every log block up to 65536 that is a record is found, and nothing else is. */
  lemma {:induction false} RecordsAre(d: Device, g: Geometry, r: Record)
    requires g.Valid()
    ensures r in Records(d, g) <==> r.at <= 65536 && Describes(d, g, r)
  {
    if r in Records(d, g) {
      ScanDescribes(d, g, 0);
      var k: nat :| k < |Records(d, g)| && Records(d, g)[k] == r;
      ScanReads(d, g, 0, k);
    }
    if r.at <= 65536 && Describes(d, g, r) {
      assert RecordAt(d, g, r.at) == [r];
      ScanFinds(d, g, 0, r.at);
    }
  }

  lemma {:induction false} ScanReads(d: Device, g: Geometry, i: nat, k: nat)
    requires g.Valid() && k < |ScanFrom(d, g, i)|
    ensures i < ScanFrom(d, g, i)[k].at <= g.Scanned()
    decreases g.Scanned() - i
  {
    var here := RecordAt(d, g, i + 1);
    if k >= |here| {
      ScanReads(d, g, i + 1, k - |here|);
    }
  }

  /** A block of `size` bytes that starts with a record of transaction 1, with one target, block 0. */
  function Sample(kind: byte, size: nat): (b: Block)
    requires size >= 20
    ensures |b| == size
  {
    [0x98, 0x39, 0x3B, 0xC0, kind, 0, 0, 0, 1, 0, 0, 0, 0, 0, 0, 0, 1, 0, 0, 0] + seq(size - 20, _ => 0)
  }

  lemma {:induction false} SampleIs(kind: byte, size: nat)
    requires size >= 20 && 1 <= kind <= 3
    ensures var b := Sample(kind, size); IsRecord(b) && Kind(b) == kind && Tid(b) == 1 && Count(b) == 1
  {
  }

  /** A descriptor, its data and its commit record. */
  function SampleLog(g: Geometry): Device
    requires g.blockSize >= 20
  {
    map[g.start + 1 := Sample(1, g.blockSize), g.start + 2 := seq(g.blockSize, _ => 0), g.start + 3 := Sample(2, g.blockSize)]
  }

  lemma {:induction false} SampleFits(d: Device, g: Geometry)
    requires g.Valid() && g.blockSize >= HEADER_SIZE + 8 && d == SampleLog(g)
    ensures ListsFit(d, g)
  {
    SampleIs(1, g.blockSize);
    SampleIs(2, g.blockSize);
    var rs := Records(d, g);
    ScanDescribes(d, g, 0);
    forall k | 0 <= k < |rs| && rs[k].kind == DESCRIPTOR
      ensures ReadJournal(d, g, rs[k].at).Some? ==> ListFits(g, rs[k].at, ReadJournal(d, g, rs[k].at).value)
    {
      assert Describes(d, g, rs[k]);
      assert rs[k].at == 1;
    }
  }

  lemma {:induction false} SampleWrites(d: Device, g: Geometry)
    requires g.Valid() && g.blockSize >= HEADER_SIZE + 8 && d == SampleLog(g)
    ensures Writes(d, g) != []
  {
    SampleIs(1, g.blockSize);
    SampleIs(2, g.blockSize);
    var rs := Records(d, g);
    ScanFinds(d, g, 0, 1);
    ScanFinds(d, g, 0, 3);
    assert Record(1, 1, DESCRIPTOR) in rs && Record(3, 1, COMMIT) in rs;
    var k: nat :| k < |rs| && rs[k] == Record(1, 1, DESCRIPTOR);
    var c: nat :| c < |rs| && rs[c] == Record(3, 1, COMMIT);
    var b := Sample(1, g.blockSize);
    var w := Write(1, Target(b, 0), seq(g.blockSize, _ => 0));
    assert IsEntry(d, g, 1, b, 0, w);
    assert NamedAt(d, g, w, k, 0);
    NamedIsWritten(d, g, w, k, 0);
  }

  ghost predicate Replays(d: Device, g: Geometry)
    requires g.Valid()
  {
    ListsFit(d, g) && Writes(d, g) != []
  }

  /** Some log is replayed inside its buffers exactly if a block has room for a header and a target. */
  lemma {:induction false} ReplaysIff(g: Geometry)
    requires g.Valid()
    ensures (exists d :: Replays(d, g)) <==> g.blockSize >= 4108
  {
    if g.blockSize >= HEADER_SIZE + 8 {
      SampleFits(SampleLog(g), g);
      SampleWrites(SampleLog(g), g);
      assert Replays(SampleLog(g), g);
    } else {
      forall d | Replays(d, g) ensures false {
        NothingFits(d, g);
      }
    }
  }
}
