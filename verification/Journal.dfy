/** jbd2_journal_load of kernel/arch/x86_64/jbd2.c, and why a crash during it does no harm. */
module Journal {
  import opened Bits
  import opened Bytes
  import opened Common
  import opened JournalLog

  /** The journal superblock fields recovery reads and writes (journal block 0). */
  datatype Super = Super(nextTid: nat, lastCommit: nat, free: nat)

  datatype Disk = Disk(dev: Device, super: Super)

  /** The newest committed transaction seen, at least `last`. */
  ghost function Checkpoint(rs: seq<Record>, tid: nat, max: nat, last: nat): nat
    decreases max + 1 - tid
  {
    if tid > max then last
    else Checkpoint(rs, tid + 1, max, if Committed(rs, tid) && tid > last then tid else last)
  }

  ghost function CommitCount(rs: seq<Record>, tid: nat, max: nat): nat
    decreases max + 1 - tid
  {
    if tid > max then 0 else (if Committed(rs, tid) then 1 else 0) + CommitCount(rs, tid + 1, max)
  }

  function FirstTid(s: Super): nat {
    if s.nextTid > 0 then s.nextTid else 1
  }

  /** The transactions of the log that have a commit record. */
  ghost function CommittedTids(rs: seq<Record>): set<nat> {
    set i | 0 <= i < |rs| && rs[i].kind == 2 && rs[i].tid >= 1 :: rs[i].tid
  }

  lemma {:induction false} CountIs(rs: seq<Record>, tid: nat, max: nat, s: set<nat>)
    requires forall t :: t in s <==> tid <= t <= max && Committed(rs, t)
    ensures CommitCount(rs, tid, max) == |s|
    decreases max + 1 - tid
  {
    if tid <= max {
      CountIs(rs, tid + 1, max, s - {tid});
      assert Committed(rs, tid) ==> s == (s - {tid}) + {tid};
      assert !Committed(rs, tid) ==> s == s - {tid};
    } else {
      assert s == {};
    }
  }

  /** As many transactions are replayed as have a commit record. */
  lemma {:induction false} ReplayedIs(rs: seq<Record>)
    ensures CommitCount(rs, 1, MaxTid(rs)) == |CommittedTids(rs)|
  {
    MaxTidBounds(rs);
    CountIs(rs, 1, MaxTid(rs), CommittedTids(rs));
  }

  /** The checkpoint is the old one or a committed transaction, and not below any of them. */
  ghost predicate IsCheckpoint(rs: seq<Record>, before: nat, now: nat) {
    now >= before && (now == before || Committed(rs, now)) && forall t: nat :: Committed(rs, t) ==> t <= now
  }

  /** The superblock after recovery: untouched if the log holds no record of a transaction. */
  ghost function SuperAfter(g: Geometry, rs: seq<Record>, s: Super): Super {
    if MaxTid(rs) == 0 then s
    else Super(FirstTid(s), Checkpoint(rs, 1, MaxTid(rs), s.lastCommit), g.blocks)
  }

  /** A log without transactions leaves the superblock; otherwise it gets the checkpoint, keeps the
      next transaction number, which starts at 1, and has all blocks free. */
  ghost predicate IsSuper(g: Geometry, rs: seq<Record>, before: Super, now: Super) {
    && IsCheckpoint(rs, before.lastCommit, now.lastCommit)
    && if forall k :: 0 <= k < |rs| ==> rs[k].tid == 0 then now == before
       else now.free == g.blocks && now.nextTid == (if before.nextTid == 0 then 1 else before.nextTid)
  }

  lemma {:induction false} SuperIs(g: Geometry, rs: seq<Record>, s: Super)
    ensures IsSuper(g, rs, s, SuperAfter(g, rs, s))
  {
    MaxTidBounds(rs);
    CheckpointBounds(rs, 1, MaxTid(rs), s.lastCommit);
  }

  /** One uninterrupted recovery from what the disk holds. */
  ghost function Recover(g: Geometry, k: Disk): Disk
    requires g.Valid()
  {
    Disk(Apply(k.dev, Writes(k.dev, g)), SuperAfter(g, Records(k.dev, g), k.super))
  }

  /** Where a recovery stops: after `done` whole device writes, and perhaps in the middle of the
      next, which then leaves its block with any contents. */
  datatype Stop = Stop(done: nat, torn: Option<Block>)

  ghost predicate CanStop(g: Geometry, d: Device, at: Stop)
    requires g.Valid()
  {
    at.done + (if at.torn.Some? then 1 else 0) <= |Writes(d, g)|
  }

  /** A recovery that stops on the way. */
  ghost function Interrupted(g: Geometry, k: Disk, at: Stop): Disk
    requires g.Valid() && CanStop(g, k.dev, at)
  {
    var ws := Writes(k.dev, g);
    var d := Apply(k.dev, ws[..at.done]);
    Disk(if at.torn.Some? then d[ws[at.done].target := at.torn.value] else d, k.super)
  }

  /** The home locations of the log's blocks are not in the journal itself, and on the device. */
  ghost predicate HomesOutside(g: Geometry, d: Device)
    requires g.Valid()
  {
    Outside(Writes(d, g), g)
  }

  // ------------------------------------------------------------------ crash safety

  lemma {:induction false} CheckpointBounds(rs: seq<Record>, tid: nat, max: nat, last: nat)
    ensures Checkpoint(rs, tid, max, last) >= last
    ensures Checkpoint(rs, tid, max, last) == last || Committed(rs, Checkpoint(rs, tid, max, last))
    ensures forall t :: tid <= t <= max && Committed(rs, t) ==> t <= Checkpoint(rs, tid, max, last)
    decreases max + 1 - tid
  {
    if tid <= max {
      var l := if Committed(rs, tid) && tid > last then tid else last;
      CheckpointBounds(rs, tid + 1, max, l);
    }
  }

  lemma {:induction false} CheckpointStays(rs: seq<Record>, tid: nat, max: nat, last: nat)
    requires forall t :: tid <= t <= max && Committed(rs, t) ==> t <= last
    ensures Checkpoint(rs, tid, max, last) == last
    decreases max + 1 - tid
  {
    if tid <= max {
      CheckpointStays(rs, tid + 1, max, last);
    }
  }

  /** Stopped anywhere, even within a write, and run again from the start, recovery leaves the same
      disk. */
  lemma {:induction false} CrashSafe(g: Geometry, k: Disk, at: Stop)
    requires g.Valid() && HomesOutside(g, k.dev) && CanStop(g, k.dev, at)
    ensures Recover(g, Interrupted(g, k, at)) == Recover(g, k)
    ensures HomesOutside(g, Interrupted(g, k, at).dev)
  {
    var ws, e := Writes(k.dev, g), Interrupted(g, k, at).dev;
    ApplyKeepsLog(k.dev, ws[..at.done], g);
    PrefixElsewhere(k.dev, ws, at.done);
    if at.torn.Some? {
      LastToTarget(ws, at.done);
    }
    assert SameLog(k.dev, e, g) && SameElsewhere(k.dev, e, ws);
    WritesSame(k.dev, e, g);
    ApplyOver(k.dev, e, ws);
  }

  /** Any number of crashes, each at its own place, changes nothing either. */
  ghost predicate Crashes(g: Geometry, from: Disk, stops: seq<Stop>, to: Disk)
    requires g.Valid()
    decreases stops
  {
    if stops == [] then from == to
    else CanStop(g, from.dev, stops[0]) && Crashes(g, Interrupted(g, from, stops[0]), stops[1..], to)
  }

  lemma {:induction false} ManyCrashesSafe(g: Geometry, from: Disk, stops: seq<Stop>, to: Disk)
    requires g.Valid() && HomesOutside(g, from.dev) && Crashes(g, from, stops, to)
    ensures Recover(g, to) == Recover(g, from)
    decreases stops
  {
    if stops != [] {
      CrashSafe(g, from, stops[0]);
      ManyCrashesSafe(g, Interrupted(g, from, stops[0]), stops[1..], to);
    }
  }

  /** Recovering a recovered disk changes nothing. */
  lemma {:induction false} RecoverTwice(g: Geometry, k: Disk)
    requires g.Valid() && HomesOutside(g, k.dev)
    ensures Recover(g, Recover(g, k)) == Recover(g, k)
  {
    var ws, rs := Writes(k.dev, g), Records(k.dev, g);
    ApplyKeepsLog(k.dev, ws, g);
    WritesSame(k.dev, Apply(k.dev, ws), g);
    PrefixElsewhere(k.dev, ws, |ws|);
    assert ws[..|ws|] == ws;
    ApplyOver(k.dev, Apply(k.dev, ws), ws);
    CheckpointBounds(rs, 1, MaxTid(rs), k.super.lastCommit);
    CheckpointStays(rs, 1, MaxTid(rs), Checkpoint(rs, 1, MaxTid(rs), k.super.lastCommit));
  }

  // ------------------------------------------------------------------ when recovery ends

  /** The 64-bit transaction counter of the replay loop after `n` turns. */
  function TidAt(n: nat): nat {
    Wrap64(1 + n)
  }

  /** The counter passes the newest transaction number at some turn. */
  ghost predicate CounterPasses(max: nat) {
    exists n: nat :: TidAt(n) > max
  }

  lemma {:induction false} CounterPassesIff(max: nat)
    requires max < TWO64
    ensures CounterPasses(max) <==> max < TWO64 - 1
    ensures forall n: nat :: n < max ==> TidAt(n) == n + 1 <= max
  {
    if max < TWO64 - 1 {
      assert TidAt(max) > max;
    }
  }

  /** Log block `j` is a record of transaction 2^64 - 1. */
  ghost predicate LastOfAll(d: Device, g: Geometry, j: nat)
    requires g.Valid()
  {
    match ReadJournal(d, g, j)
    case None => false
    case Some(b) => IsRecord(b) && Tid(b) == TWO64 - 1
  }

  /** The replay loop ends exactly if no record that is read is of transaction 2^64 - 1. */
  lemma {:induction false} LoadEndsIff(d: Device, g: Geometry)
    requires g.Valid()
    ensures CounterPasses(MaxTid(Records(d, g))) <==> forall j :: 1 <= j <= g.Scanned() ==> !LastOfAll(d, g, j)
    ensures CounterPasses(MaxTid(Records(d, g))) <==> MaxTid(Records(d, g)) < TWO64 - 1
  {
    var rs := Records(d, g);
    MaxTidBounds(rs);
    ScanDescribes(d, g, 0);
    if k: nat :| k < |rs| && rs[k].tid == MaxTid(rs) {
      assert Describes(d, g, rs[k]);
      ScanReads(d, g, 0, k);
      assert LastOfAll(d, g, rs[k].at) <==> rs[k].tid == TWO64 - 1;
    }
    assert MaxTid(rs) < TWO64;
    CounterPassesIff(MaxTid(rs));
    if j :| 1 <= j <= g.Scanned() && LastOfAll(d, g, j) {
      ScanFinds(d, g, 0, j);
    }
  }

  /** A commit record of transaction 2^64 - 1. */
  const LAST_COMMIT: Block := [0x98, 0x39, 0x3B, 0xC0, 2, 0, 0, 0, 255, 255, 255, 255, 255, 255, 255, 255] + seq(4080, _ => 0)

  /** One such record in an otherwise unreadable log, and recovery does not end. */
  lemma {:induction false} OneRecordSpins(d: Device)
    requires d == map[1 := LAST_COMMIT]
    ensures !CounterPasses(MaxTid(Records(d, Geometry(0, 16, 4096))))
  {
    var g := Geometry(0, 16, 4096);
    assert ReadJournal(d, g, 1) == Some(LAST_COMMIT);
    assert IsRecord(LAST_COMMIT) && Tid(LAST_COMMIT) == TWO64 - 1;
    assert LastOfAll(d, g, 1);
    LoadEndsIff(d, g);
  }

  // ------------------------------------------------------------------ the code

  /** A record that replay can follow without leaving its buffers. */
  ghost predicate Playable(d: Device, g: Geometry, r: Record)
    requires g.Valid()
  {
    Describes(d, g, r) && (r.kind == DESCRIPTOR ==> ListFits(g, r.at, ReadJournal(d, g, r.at).value))
  }

  lemma {:induction false} AllPlayable(d: Device, g: Geometry, tid: nat)
    requires g.Valid() && ListsFit(d, g) && Committed(Records(d, g), tid)
    ensures var rs := Records(d, g); forall k :: 0 <= k < |rs| && rs[k].tid == tid ==> Playable(d, g, rs[k])
  {
    ScanDescribes(d, g, 0);
  }

  class Recovery {
    const g: Geometry
    var dev: Device
    var super: Super
    var nextTid: nat
    var lastTid: nat
    var usedBlocks: nat
    var ready: bool
    /** Device writes of the current recovery, in order. */
    ghost var trace: seq<Write>

    /** The fields are what jbd2_journal_init reads from the superblock. */
    ghost predicate Booted()
      reads this
    {
      g.Valid() && nextTid == FirstTid(super) && lastTid == super.lastCommit
    }

    /** Of the writes `all` that recovery owes the device `from`, `trace` is done and `rest` is to come. */
    ghost predicate Midway(from: Device, all: seq<Write>, rest: seq<Write>)
      reads this
    {
      Outside(all, g) && trace + rest == all && dev == Apply(from, trace)
    }

    constructor (g: Geometry, k: Disk)
      requires g.Valid()
      ensures Booted() && ready && this.g == g && dev == k.dev && super == k.super && trace == []
      ensures usedBlocks == if k.super.free < g.blocks then g.blocks - k.super.free else 0
    {
      this.g, dev, super := g, k.dev, k.super;
      nextTid, lastTid := FirstTid(k.super), k.super.lastCommit;
      usedBlocks := if k.super.free < g.blocks then g.blocks - k.super.free else 0;
      ready, trace := true, [];
    }

    method ReadRecord(j: nat) returns (here: seq<Record>)
      requires g.Valid()
      ensures here == RecordAt(dev, g, j)
    {
      match ReadJournal(dev, g, j) {
        case None =>
          here := [];
        case Some(b) =>
          here := if IsRecord(b) then [Record(j, Tid(b), Kind(b))] else [];
      }
    }

    /** The scan loop: every record of the log, in journal order. */
    method Scan() returns (rs: seq<Record>)
      requires g.Valid()
      ensures rs == Records(dev, g)
    {
      rs := [];
      var i := 0;
      while i < g.Scanned()
        invariant 0 <= i <= g.Scanned() && rs + ScanFrom(dev, g, i) == Records(dev, g)
      {
        var here := ReadRecord(i + 1);
        ghost var later := ScanFrom(dev, g, i + 1);
        assert rs + here + later == rs + (here + later);
        rs := rs + here;
        i := i + 1;
      }
    }

    static method FindMaxTid(rs: seq<Record>) returns (max: nat)
      ensures max == MaxTid(rs)
    {
      max := 0;
      var i := 0;
      while i < |rs|
        invariant 0 <= i <= |rs| && max == MaxTid(rs[..i])
      {
        assert rs[..i + 1][..i] == rs[..i];
        if rs[i].tid > max {
          max := rs[i].tid;
        }
        i := i + 1;
      }
      assert rs[..|rs|] == rs;
    }

    static method HasCommit(rs: seq<Record>, tid: nat) returns (r: bool)
      ensures r == Committed(rs, tid)
    {
      var i := 0;
      while i < |rs|
        invariant 0 <= i <= |rs| && forall j :: 0 <= j < i ==> !(rs[j].tid == tid && rs[j].kind == COMMIT)
      {
        if rs[i].tid == tid && rs[i].kind == COMMIT {
          return true;
        }
        i := i + 1;
      }
      return false;
    }

    method WriteDevice(w: Write, ghost from: Device, ghost all: seq<Write>, ghost rest: seq<Write>)
      requires Midway(from, all, [w] + rest)
      modifies `dev, `trace
      ensures Midway(from, all, rest)
    {
      ApplyAppend(from, trace, [w]);
      dev := dev[w.target := w.data];
      assert Apply(old(dev), [w]) == dev;
      assert trace + ([w] + rest) == trace + [w] + rest;
      trace := trace + [w];
    }

    lemma {:induction false} LogUnchanged(from: Device, all: seq<Write>, rest: seq<Write>)
      requires Midway(from, all, rest)
      ensures SameLog(from, dev, g)
    {
      forall i | 0 <= i < |trace| ensures IsHome(g, trace[i].target) {
        assert all[i] == trace[i];
      }
      ApplyKeepsLog(from, trace, g);
    }

    /** List entry `i` of the descriptor `b` found at journal block `at`. */
    method ReplayEntry(at: nat, b: Block, i: nat, target: nat,
                       ghost from: Device, ghost all: seq<Write>, ghost rest: seq<Write>)
      requires |b| >= 20 && i < Count(b) && at + 1 + i < g.blocks && target == Target(b, i)
      requires Midway(from, all, DescFrom(from, g, at, b, i) + rest)
      modifies `dev, `trace
      ensures Midway(from, all, DescFrom(from, g, at, b, i + 1) + rest)
    {
      LogUnchanged(from, all, DescFrom(from, g, at, b, i) + rest);
      ghost var later := DescFrom(from, g, at, b, i + 1) + rest;
      assert ReadJournal(dev, g, at + 1 + i) == ReadJournal(from, g, at + 1 + i);
      match ReadJournal(dev, g, at + 1 + i) {
        case None =>
          assert DescFrom(from, g, at, b, i) + rest == later;
        case Some(data) =>
          var w := Write(Tid(b), target, data);
          assert DescFrom(from, g, at, b, i) + rest == [w] + later;
          WriteDevice(w, from, all, later);
      }
    }

    /** One committed descriptor: its data blocks go home. */
    method ReplayDescriptor(r: Record, ghost from: Device, ghost all: seq<Write>, ghost rest: seq<Write>)
      requires g.Valid() && Playable(from, g, r) && r.kind == DESCRIPTOR
      requires Midway(from, all, OfRecord(from, g, r, r.tid) + rest)
      modifies `dev, `trace
      ensures Midway(from, all, rest)
    {
      LogUnchanged(from, all, OfRecord(from, g, r, r.tid) + rest);
      var b := ReadJournal(dev, g, r.at).value;
      var i := 0;
      while i < Count(b)
        invariant 0 <= i <= Count(b) && r.at + 1 + i <= g.blocks && ListFits(g, r.at, b)
        invariant Midway(from, all, DescFrom(from, g, r.at, b, i) + rest)
      {
        ghost var named := Target(b, i);
        var target := LE64(b, HEADER_SIZE + 8 * i);
        if r.at + 1 + i >= g.blocks {
          break;
        }
        ReplayEntry(r.at, b, i, target, from, all, rest);
        i := i + 1;
      }
      assert [] + rest == rest;
    }

    /** One committed transaction: its descriptors in journal order. */
    method ReplayTransaction(rs: seq<Record>, tid: nat, ghost from: Device, ghost all: seq<Write>, ghost rest: seq<Write>)
      requires g.Valid() && forall k :: 0 <= k < |rs| && rs[k].tid == tid ==> Playable(from, g, rs[k])
      requires Midway(from, all, TidFrom(from, g, rs, 0, tid) + rest)
      modifies `dev, `trace
      ensures Midway(from, all, rest)
    {
      var k := 0;
      while k < |rs|
        invariant 0 <= k <= |rs| && Midway(from, all, TidFrom(from, g, rs, k, tid) + rest)
      {
        ghost var later := TidFrom(from, g, rs, k + 1, tid) + rest;
        assert TidFrom(from, g, rs, k, tid) + rest == OfRecord(from, g, rs[k], tid) + later;
        if rs[k].tid == tid && rs[k].kind == DESCRIPTOR {
          ReplayDescriptor(rs[k], from, all, later);
        } else {
          assert [] + later == later;
        }
        k := k + 1;
      }
      assert [] + rest == rest;
    }

    /** The superblock is rewritten from the journal fields. */
    method WriteSuperblock()
      requires usedBlocks <= g.blocks
      modifies `super
      ensures super == Super(nextTid, lastTid, g.blocks - usedBlocks)
    {
      super := Super(nextTid, lastTid, g.blocks - usedBlocks);
    }

    /** The committed transactions, oldest first; the checkpoint follows. */
    method ReplayAll(rs: seq<Record>, max: nat, ghost from: Device, ghost all: seq<Write>) returns (replayed: nat)
      requires g.Valid() && rs == Records(from, g) && ListsFit(from, g) && max < TWO64 - 1
      requires Midway(from, all, AllFrom(from, g, rs, 1, max))
      modifies `dev, `trace, `lastTid
      ensures Midway(from, all, [])
      ensures lastTid == Checkpoint(rs, 1, max, old(lastTid)) && lastTid >= old(lastTid)
      ensures lastTid == old(lastTid) || Committed(rs, lastTid)
      ensures forall t :: 1 <= t <= max && Committed(rs, t) ==> t <= lastTid
      ensures replayed == CommitCount(rs, 1, max)
    {
      CheckpointBounds(rs, 1, max, lastTid);
      replayed := 0;
      var tid := 1;
      while tid <= max
        invariant 1 <= tid <= max + 1 && Midway(from, all, AllFrom(from, g, rs, tid, max))
        invariant Checkpoint(rs, tid, max, lastTid) == Checkpoint(rs, 1, max, old(lastTid))
        invariant replayed + CommitCount(rs, tid, max) == CommitCount(rs, 1, max)
      {
        ghost var later := AllFrom(from, g, rs, tid + 1, max);
        var committed := HasCommit(rs, tid);
        if committed {
          AllPlayable(from, g, tid);
          ReplayTransaction(rs, tid, from, all, later);
          replayed := replayed + 1;
          if tid > lastTid {
            lastTid := tid;
          }
        } else {
          assert [] + later == later;
        }
        tid := tid + 1;
      }
    }

    /** What jbd2_journal_load does with a superblock that it could read. */
    method Restore() returns (replayed: int)
      requires Booted() && ready && HomesOutside(g, dev) && ListsFit(dev, g)
      requires CounterPasses(MaxTid(Records(dev, g)))
      modifies this
      ensures Disk(dev, super) == Recover(g, Disk(old(dev), old(super)))
      ensures trace == Writes(old(dev), g)
      ensures replayed == CommitCount(Records(old(dev), g), 1, MaxTid(Records(old(dev), g)))
      ensures Booted()
    {
      trace := [];
      var rs := Scan();
      if rs == [] {
        return 0;
      }
      var max := FindMaxTid(rs);
      if max == 0 {
        return 0;
      }
      LoadEndsIff(dev, g);
      ghost var all := Writes(dev, g);
      assert trace + all == all;
      replayed := ReplayAll(rs, max, dev, all);
      usedBlocks := 0;
      WriteSuperblock();
      assert trace + [] == trace;
    }

    /** jbd2_journal_load, where its loop ends. */
    method Load() returns (replayed: int)
      requires Booted() && HomesOutside(g, dev) && ListsFit(dev, g)
      requires CounterPasses(MaxTid(Records(dev, g)))
      modifies this
      ensures !old(ready) ==> replayed == -1 && unchanged(this)
      ensures old(ready) ==> Disk(dev, super) == Recover(g, Disk(old(dev), old(super)))
      ensures old(ready) ==> trace == Writes(old(dev), g)
      ensures old(ready) ==> replayed == |CommittedTids(Records(old(dev), g))|
      ensures old(ready) ==> IsSuper(g, Records(old(dev), g), old(super), super)
      ensures Booted()
    {
      if !ready {
        return -1;
      }
      ReplayedIs(Records(dev, g));
      SuperIs(g, Records(dev, g), super);
      replayed := Restore();
    }
  }
}
