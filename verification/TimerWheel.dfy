/** The timer wheel of kernel/kernel/timer.c, which keeps the promise of the flat list. */
module TimerWheel {
  import opened Bits
  import opened Common
  import opened TimerList

  const TICK_MS: nat := 1

  datatype Timer = Timer(id: nat, expires: nat)

  /** Where an armed timer is linked; Loose while the cascade moves it. */
  datatype Place = Loose | At(level: nat, slot: nat)

  datatype Armed = Armed(expires: nat, due: Option<nat>, place: Place)

  function MsToJiffies(ms: nat): (r: nat)
    ensures r == if ms < 1 then 1 else ms
  {
    if ms == 0 then 1 else (ms + TICK_MS - 1) / TICK_MS
  }

  function Level(delta: nat): nat {
    if delta < SLOTS then 0 else if delta < SPAN then 1 else if delta < SPAN * SLOTS then 2 else 3
  }

  /** Slot of an expiry at a level: its bits 8 * level to 8 * level + 7. */
  function Index(expires: nat, level: nat): nat {
    if level == 0 then expires % 256
    else if level == 1 then expires / 256 % 256
    else if level == 2 then expires / 65536 % 256
    else expires / 16777216 % 256
  }

  /** What the position of a timer says about its due tick, when all ticks before `lo` are over. */
  ghost predicate Rule(a: Armed, lo: nat) {
    match a.place
    case Loose => true
    case At(0, slot) => a.due.Some? && lo <= a.due.value < lo + 256 && a.due.value % 256 == slot
    case At(1, slot) =>
      && a.due == Some(if a.expires % 256 == 0 then a.expires + 256 else a.expires)
      && lo <= a.expires / 256 * 256 < lo + 65536 && slot == a.expires / 256 % 256
    case At(level, slot) => a.due == None && level < 4 && slot < 256
  }

  /** The 64-bit distance of an expiry, which wraps if it has passed. */
  function Distance(expires: nat, now: nat): nat {
    if now <= expires then expires - now else Wrap64(expires - now)
  }

  lemma {:induction false} PlacedNear(expires: nat, now: nat)
    requires now <= expires < now + 256
    ensures Rule(Armed(expires, LinkedFires(now, expires), At(0, expires % 256)), now + 1)
  {
  }

  lemma {:induction false} PlacedNext(expires: nat, now: nat)
    requires now + 256 <= expires < now + 65536
    ensures Rule(Armed(expires, LinkedFires(now, expires), At(1, expires / 256 % 256)), now + 1)
  {
    assert expires - 255 <= expires / 256 * 256 <= expires;
  }

  /** An expiry that has passed is at a wrapped distance, beyond every level. */
  lemma {:induction false} PassedIsFar(expires: nat, now: nat)
    requires expires < now <= expires + 0x8000_0000_0000_0000
    ensures Distance(expires, now) >= 0x8000_0000_0000_0000
  {
  }

  /** A timer put where __calc_index says obeys the rule. */
  lemma {:induction false} PlacedRight(expires: nat, now: nat)
    requires now <= expires + 0x8000_0000_0000_0000
    ensures var level := Level(Distance(expires, now));
      Rule(Armed(expires, LinkedFires(now, expires), At(level, Index(expires, level))), now + 1)
  {
    if expires < now {
      PassedIsFar(expires, now);
    } else if expires < now + 256 {
      PlacedNear(expires, now);
    } else if expires < now + 65536 {
      PlacedNext(expires, now);
    }
  }

  lemma SameRound(q: nat, m: nat)
    requires m <= q < m + 256 && q % 256 == m % 256
    ensures q == m
  {
  }

  /** The slot emptied by the cascade holds exactly the expiries of the coming round. */
  lemma CascadeRound(a: Armed, now: nat)
    requires Rule(a, now) && now % 256 == 0 && a.place == At(1, now / 256 % 256)
    ensures now <= a.expires < now + 256 && a.due == FireTime(now, a.expires - now)
  {
    SameRound(a.expires / 256, now / 256);
  }

  /** The slot emptied by the tick holds exactly the timers due at it. */
  lemma DueIff(a: Armed, now: nat)
    requires Rule(a, now) && a.place.At?
    ensures a.due == Some(now) <==> a.place == At(0, now % 256)
  {
    if a.place == At(0, now % 256) {
      SameRound(a.due.value, now);
    }
  }

  /** Past the tick `now`, timers in other slots obey the rule for the next tick. */
  lemma RuleAdvance(a: Armed, now: nat)
    requires Rule(a, now) && a.place != At(0, now % 256)
    requires now % 256 == 0 ==> a.place != At(1, now / 256 % 256)
    ensures Rule(a, now + 1)
  {
  }

  ghost function FiringSet(list: seq<Timer>, now: nat): set<Firing> {
    set t | t in list :: Firing(t.id, now)
  }

  ghost function Firings(list: seq<Timer>, now: nat): seq<Firing> {
    seq(|list|, i requires 0 <= i < |list| => Firing(list[i].id, now))
  }

  ghost predicate DistinctIds(list: seq<Timer>) {
    forall i, j :: 0 <= i < j < |list| ==> list[i].id != list[j].id
  }

  lemma {:induction false} FiringsOnce(list: seq<Timer>, now: nat)
    requires DistinctIds(list)
    ensures multiset(Firings(list, now)) == multiset(FiringSet(list, now))
  {
    var fs, want := Firings(list, now), FiringSet(list, now);
    forall i | 0 <= i < |fs| ensures fs[i] in want {
      assert list[i] in list;
    }
    forall f | f in want ensures f in fs {
      var t :| t in list && f == Firing(t.id, now);
      var i :| 0 <= i < |list| && list[i] == t;
      assert fs[i] == f;
    }
    OnceEach(fs, want);
  }

  lemma {:induction false} OnceEach<T>(s: seq<T>, want: set<T>)
    requires Distinct(s) && forall x :: x in s <==> x in want
    ensures multiset(s) == multiset(want)
  {
    if s == [] {
      assert want == {};
    } else {
      var n := |s| - 1;
      assert s == s[..n] + [s[n]];
      OnceEach(s[..n], want - {s[n]});
      assert want == (want - {s[n]}) + {s[n]};
    }
  }

  ghost predicate Distinct<T>(s: seq<T>) {
    forall i, j :: 0 <= i < j < |s| ==> s[i] != s[j]
  }

  /** The timers at a place become loose. */
  ghost function Loosened(m: map<nat, Armed>, p: Place): map<nat, Armed> {
    map id | id in m :: if m[id].place == p then m[id].(place := Loose) else m[id]
  }

  /** The list holds exactly the timers at a place, each once. */
  ghost predicate Holds(list: seq<Timer>, m: map<nat, Armed>, p: Place) {
    && DistinctIds(list)
    && (forall k :: 0 <= k < |list| ==> list[k].id in m && m[list[k].id].expires == list[k].expires && m[list[k].id].place == p)
    && (forall id :: id in m && m[id].place == p ==> Timer(id, m[id].expires) in list)
  }

  ghost predicate RuleAt(m: map<nat, Armed>, id: nat, lo: nat) {
    id in m && Rule(m[id], lo)
  }

  ghost predicate PlacedAt(m: map<nat, Armed>, id: nat) {
    id in m && m[id].place.At?
  }

  ghost predicate HalfAt(m: map<nat, Armed>, id: nat, now: nat) {
    id in m && Rule(m[id], now) && m[id].place != At(0, now % 256)
  }

  ghost predicate Ruled(m: map<nat, Armed>, lo: nat) {
    forall id {:trigger RuleAt(m, id, lo)} :: id in m ==> RuleAt(m, id, lo)
  }

  lemma {:induction false} RuledMore(m: map<nat, Armed>, id: nat, a: Armed, lo: nat)
    requires Ruled(m, lo) && Rule(a, lo)
    ensures Ruled(m[id := a], lo)
  {
    var n := m[id := a];
    forall k | k in n ensures RuleAt(n, k, lo) {
      assert k != id ==> RuleAt(m, k, lo);
    }
  }

  ghost predicate NoneLoose(m: map<nat, Armed>) {
    forall id {:trigger PlacedAt(m, id)} :: id in m ==> PlacedAt(m, id)
  }

  ghost function DueOf(m: map<nat, Armed>): map<nat, Option<nat>> {
    map id | id in m :: m[id].due
  }

  ghost function Settled(m: map<nat, Armed>): map<nat, Armed> {
    map id | id in m && m[id].place.At? :: m[id]
  }

  /** The slot expired at `now` is empty: the rule holds for the next tick, but for the slot to cascade. */
  ghost predicate HalfRuled(m: map<nat, Armed>, now: nat) {
    forall id {:trigger HalfAt(m, id, now)} :: id in m ==> HalfAt(m, id, now)
  }

  ghost predicate Due(m: map<nat, Armed>, t: Timer, now: nat) {
    t.id in m && now <= t.expires && m[t.id].due == LinkedFires(now, t.expires)
  }

  /** Expiring the current slot is one step of the flat list. */
  lemma {:induction false} Expired(m: map<nat, Armed>, list: seq<Timer>, now: nat)
    requires Ruled(m, now) && NoneLoose(m) && Holds(list, m, At(0, now % 256))
    ensures var rest, due := Settled(Loosened(m, At(0, now % 256))), DueOf(m);
      && NoneLoose(rest) && HalfRuled(rest, now)
      && DueOf(rest) == NotDueAt(due, now) && FiringSet(list, now) == DueAt(due, now)
  {
    forall id | id in m
      ensures RuleAt(m, id, now) && (m[id].due == Some(now) <==> m[id].place == At(0, now % 256)) && PlacedAt(m, id)
    {
      assert RuleAt(m, id, now) && PlacedAt(m, id);
      DueIff(m[id], now);
    }
    var due := DueOf(m);
    forall id | id in due && due[id] == Some(now)
      ensures Firing(id, now) in FiringSet(list, now)
    {
      assert Timer(id, m[id].expires) in list;
    }
    var rest := Settled(Loosened(m, At(0, now % 256)));
    forall id | id in rest ensures HalfAt(rest, id, now) {
      assert RuleAt(m, id, now);
    }
  }

  lemma {:induction false} LoosenedRuled(m: map<nat, Armed>, now: nat)
    requires HalfRuled(m, now) && now % 256 == 0
    ensures var l := Loosened(m, At(1, now / 256 % 256)); Ruled(l, now + 1) && DueOf(l) == DueOf(m)
  {
    var l := Loosened(m, At(1, now / 256 % 256));
    forall id | id in l ensures RuleAt(l, id, now + 1) {
      assert HalfAt(m, id, now);
      if l[id] == m[id] {
        RuleAdvance(m[id], now);
      }
    }
  }

  /** The loose timers go back to places with the due ticks they had. */
  lemma {:induction false} CascadeDue(m: map<nat, Armed>, list: seq<Timer>, now: nat, k: nat)
    requires HalfRuled(m, now) && now % 256 == 0 && Holds(list, m, At(1, now / 256 % 256)) && k < |list|
    ensures Due(m, list[k], now)
  {
    assert HalfAt(m, list[k].id, now);
    CascadeRound(m[list[k].id], now);
  }

  lemma {:induction false} HalfIsRuled(m: map<nat, Armed>, now: nat)
    requires HalfRuled(m, now) && now % 256 != 0
    ensures Ruled(m, now + 1)
  {
    forall id | id in m ensures RuleAt(m, id, now + 1) {
      assert HalfAt(m, id, now);
      RuleAdvance(m[id], now);
    }
  }

  /** The loose timers are those of the list from `k` on. */
  ghost predicate Awaiting(m: map<nat, Armed>, list: seq<Timer>, k: nat) {
    && (forall j :: k <= j < |list| ==> list[j].id in m && m[list[j].id].place.Loose?)
    && (forall id :: id in m && m[id].place.Loose? ==> exists j :: k <= j < |list| && list[j].id == id)
  }

  lemma {:induction false} AwaitingAll(m: map<nat, Armed>, list: seq<Timer>, p: Place)
    requires NoneLoose(m) && Holds(list, m, p)
    ensures Awaiting(Loosened(m, p), list, 0)
  {
    forall id | id in m ensures m[id].place.At? {
      assert PlacedAt(m, id);
    }
  }

  lemma {:induction false} AwaitingNone(m: map<nat, Armed>, list: seq<Timer>)
    requires Awaiting(m, list, |list|)
    ensures NoneLoose(m)
  {
  }

  lemma {:induction false} AwaitingStep(m: map<nat, Armed>, list: seq<Timer>, k: nat, a: Armed)
    requires k < |list| && DistinctIds(list) && Awaiting(m, list, k) && a.place.At? && a.due == m[list[k].id].due
    ensures var n := m[list[k].id := a]; Awaiting(n, list, k + 1) && DueOf(n) == DueOf(m)
  {
    var n := m[list[k].id := a];
    forall id | id in n && n[id].place.Loose? ensures exists j :: k + 1 <= j < |list| && list[j].id == id {
      assert m[id].place.Loose?;
    }
  }

  class Wheel {
    const lists: array2<seq<Timer>>
    var jiffies: nat
    /** Callbacks made, in order. */
    var history: seq<Firing>
    ghost var armed: map<nat, Armed>

    ghost predicate IsAt(t: Timer, l: nat, s: nat)
      reads this`armed
    {
      t.id in armed && armed[t.id].expires == t.expires && armed[t.id].place == At(l, s)
    }

    /** The list of a slot holds timers that are at that slot, each once. */
    ghost predicate ListOk(l: nat, s: nat)
      requires l < lists.Length0 && s < lists.Length1
      reads this`armed, lists
    {
      Distinct(lists[l, s]) && forall k :: 0 <= k < |lists[l, s]| ==> IsAt(lists[l, s][k], l, s)
    }

    ghost predicate IsLinked(id: nat)
      reads this`armed, lists
    {
      && id in armed && armed[id].place.At?
      && var a := armed[id];
         a.place.level < lists.Length0 && a.place.slot < lists.Length1
         && Timer(id, a.expires) in lists[a.place.level, a.place.slot]
    }

    /** Lists and positions agree. */
    ghost predicate Linked()
      reads this`armed, lists
    {
      && lists.Length0 == 4 && lists.Length1 == 256
      && (forall l, s {:trigger ListOk(l, s)} :: 0 <= l < 4 && 0 <= s < 256 ==> ListOk(l, s))
      && (forall id {:trigger IsLinked(id)} :: id in armed && armed[id].place.At? ==> IsLinked(id))
    }

    ghost predicate Valid()
      reads this, lists
    {
      Linked() && Ruled(armed, jiffies + 1) && NoneLoose(armed)
    }

    ghost function State(): Flat
      reads this
    {
      Flat(jiffies, DueOf(armed), multiset(history))
    }

    /** timer_wheel_init. */
    constructor ()
      ensures Valid() && fresh(lists) && State() == Flat(0, map[], multiset{})
    {
      lists := new seq<Timer>[4, 256]((i, j) => []);
      jiffies, history, armed := 0, [], map[];
    }

    /** __timer_enqueue: a timer on no list is appended to the list of its slot. */
    method Enqueue(t: Timer)
      requires Linked() && Ruled(armed, jiffies + 1) && jiffies <= t.expires + 0x8000_0000_0000_0000
      requires t.id in armed ==> armed[t.id].place.Loose?
      modifies this`armed, lists
      ensures Linked() && Ruled(armed, jiffies + 1)
      ensures PlacedAt(armed, t.id)
      ensures armed == old(armed)[t.id := Armed(t.expires, LinkedFires(jiffies, t.expires), armed[t.id].place)]
      ensures forall l, s {:trigger ListOk(l, s)} :: 0 <= l < 4 && 0 <= s < 256 ==>
        lists[l, s] == if armed[t.id].place == At(l, s) then old(lists[l, s]) + [t] else old(lists[l, s])
    {
      var level := Level(Distance(t.expires, jiffies));
      var slot := Index(t.expires, level);
      PlacedRight(t.expires, jiffies);
      assert ListOk(level, slot);
      lists[level, slot] := lists[level, slot] + [t];
      armed := armed[t.id := Armed(t.expires, LinkedFires(jiffies, t.expires), At(level, slot))];
      forall l, s | 0 <= l < 4 && 0 <= s < 256 ensures ListOk(l, s) {
        assert old(ListOk(l, s));
      }
      RuledMore(old(armed), t.id, armed[t.id], jiffies + 1);
      forall id | id in armed && armed[id].place.At? ensures IsLinked(id) {
        if id != t.id {
          assert old(IsLinked(id));
        } else {
          assert lists[level, slot][|lists[level, slot]| - 1] == t;
        }
      }
    }

    /** timer_add_oneshot of a timer that is not armed, from the lock on: `read` is what jiffies was
        when the expiry was computed. */
    method AddOneshot(id: nat, read: nat, ms: nat)
      requires Valid() && id !in State().due && ReadBefore(read, jiffies)
      modifies this`armed, lists
      ensures Valid() && State() == Step(old(State()), Add(id, read, MsToJiffies(ms)))
    {
      Enqueue(Timer(id, read + MsToJiffies(ms)));
      forall i | i in armed ensures PlacedAt(armed, i) {
        assert i != id ==> old(PlacedAt(armed, i));
      }
    }

    /** Unlinks the whole list of a slot. */
    method Detach(l: nat, s: nat) returns (list: seq<Timer>)
      requires Linked() && NoneLoose(armed) && l < 4 && s < 256
      modifies this`armed, lists
      ensures Linked() && armed == Loosened(old(armed), At(l, s)) && Holds(list, old(armed), At(l, s))
      ensures list == old(lists[l, s]) && lists[l, s] == []
      ensures forall i, j {:trigger ListOk(i, j)} :: 0 <= i < 4 && 0 <= j < 256 && (i, j) != (l, s) ==>
        lists[i, j] == old(lists[i, j])
    {
      list := lists[l, s];
      assert ListOk(l, s);
      forall id | id in armed ensures armed[id].place.At? {
        assert PlacedAt(armed, id);
      }
      forall id | id in armed && armed[id].place == At(l, s) ensures Timer(id, armed[id].expires) in list {
        assert IsLinked(id);
      }
      lists[l, s] := [];
      armed := Loosened(armed, At(l, s));
      forall i, j | 0 <= i < 4 && 0 <= j < 256 ensures ListOk(i, j) {
        assert old(ListOk(i, j));
      }
      forall id | id in armed && armed[id].place.At? ensures IsLinked(id) {
        assert old(IsLinked(id));
      }
    }

    /** Loose timers are forgotten. */
    ghost method DropLoose()
      requires Linked()
      modifies this`armed
      ensures Linked() && armed == Settled(old(armed))
    {
      armed := Settled(armed);
      forall l, s | 0 <= l < 4 && 0 <= s < 256 ensures ListOk(l, s) {
        assert old(ListOk(l, s));
      }
      forall id | id in armed && armed[id].place.At? ensures IsLinked(id) {
        assert old(IsLinked(id));
      }
    }

    /** The callbacks of an expired list, in list order. */
    method Call(list: seq<Timer>)
      requires DistinctIds(list)
      modifies this`history
      ensures history == old(history) + Firings(list, jiffies)
      ensures multiset(history) == old(multiset(history)) + multiset(FiringSet(list, jiffies))
    {
      var k := 0;
      while k < |list|
        invariant 0 <= k <= |list| && history == old(history) + Firings(list[..k], jiffies)
      {
        assert Firings(list[..k + 1], jiffies) == Firings(list[..k], jiffies) + [Firing(list[k].id, jiffies)];
        history := history + [Firing(list[k].id, jiffies)];
        k := k + 1;
      }
      assert list[..k] == list;
      FiringsOnce(list, jiffies);
    }

    /** __cascade(0): the coming round of level 1 moves to level 0. */
    method Cascade()
      requires Linked() && NoneLoose(armed) && HalfRuled(armed, jiffies) && jiffies % 256 == 0
      modifies this`armed, lists
      ensures Valid() && DueOf(armed) == old(DueOf(armed))
    {
      ghost var was := armed;
      var p := At(1, jiffies / 256 % 256);
      var list := Detach(1, p.slot);
      LoosenedRuled(was, jiffies);
      AwaitingAll(was, list, p);
      var k := 0;
      while k < |list|
        invariant 0 <= k <= |list| && Linked() && Ruled(armed, jiffies + 1) && DueOf(armed) == DueOf(was)
        invariant Awaiting(armed, list, k)
      {
        ghost var before := armed;
        CascadeDue(was, list, jiffies, k);
        assert DueOf(before)[list[k].id] == DueOf(was)[list[k].id];
        Enqueue(list[k]);
        AwaitingStep(before, list, k, armed[list[k].id]);
        k := k + 1;
      }
      AwaitingNone(armed, list);
    }

    /** The loop of __expire_level0. */
    method ExpireSlot()
      requires Linked() && Ruled(armed, jiffies) && NoneLoose(armed)
      modifies this`armed, this`history, lists
      ensures Linked() && NoneLoose(armed) && HalfRuled(armed, jiffies)
      ensures DueOf(armed) == NotDueAt(old(DueOf(armed)), jiffies)
      ensures multiset(history) == old(multiset(history)) + multiset(DueAt(old(DueOf(armed)), jiffies))
      ensures history == old(history) + Firings(old(lists[0, jiffies % 256]), jiffies)
    {
      ghost var was := armed;
      var list := Detach(0, jiffies % 256);
      Call(list);
      DropLoose();
      Expired(was, list, jiffies);
    }

    /** The end of __expire_level0: a cascade at the end of each round. */
    method EndRound()
      requires Linked() && NoneLoose(armed) && HalfRuled(armed, jiffies)
      modifies this`armed, lists
      ensures Valid() && DueOf(armed) == old(DueOf(armed))
    {
      if jiffies % 256 == 0 {
        Cascade();
      } else {
        HalfIsRuled(armed, jiffies);
      }
    }

    /** timer_tick for the wheel: the callbacks come in the order of the slot's list. */
    method TickWheel()
      requires Valid()
      modifies this, lists
      ensures Valid() && State() == Step(old(State()), Tick)
      ensures history == old(history) + Firings(old(lists[0, (jiffies + 1) % 256]), jiffies)
    {
      ghost var due, called := DueOf(armed), multiset(history);
      jiffies := jiffies + 1;
      assert DueOf(armed) == due;
      ExpireSlot();
      assert DueOf(armed) == NotDueAt(due, jiffies) && multiset(history) == called + multiset(DueAt(due, jiffies));
      EndRound();
    }

    /** Every run of the wheel is a run of the flat list. */
    method Drive(ops: seq<Op>)
      requires Valid() && Legal(State(), ops) && forall i :: 0 <= i < |ops| && ops[i].Add? ==> ops[i].delay >= 1
      modifies this, lists
      ensures Valid() && State() == Run(old(State()), ops)
    {
      var k := 0;
      while k < |ops|
        invariant 0 <= k <= |ops| && Valid() && Legal(State(), ops[k..])
        invariant Run(State(), ops[k..]) == Run(old(State()), ops)
      {
        assert ops[k..][1..] == ops[k + 1..];
        match ops[k] {
          case Add(id, read, delay) => { AddOneshot(id, read, delay); }
          case Tick => { TickWheel(); }
        }
        k := k + 1;
      }
    }
  }
}
