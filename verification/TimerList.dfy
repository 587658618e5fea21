/** What a one-shot timer promises: a flat list of due times, one per armed timer. */
module TimerList {
  import opened Common

  const SLOTS: nat := 256
  const SPAN: nat := 65536

  datatype Firing = Firing(id: nat, at: nat)

  /** Armed timers with the tick they are due at (none: never), and every callback made so far. */
  datatype Flat = Flat(now: nat, due: map<nat, Option<nat>>, history: multiset<Firing>)

  /** The expiry is the tick count that was read, which may be an earlier one, plus the delay. */
  datatype Op = Add(id: nat, read: nat, delay: nat) | Tick

  /** The tick at which a timer armed at `now` with this delay fires. Level 1 is emptied after the
      expired slot of the same tick, so an expiry that is a multiple of 256 waits one more round;
      levels 2 and 3 are never emptied. */
  function FireTime(now: nat, delay: nat): Option<nat> {
    if delay == 0 then Some(now + SLOTS)
    else if delay < SLOTS then Some(now + delay)
    else if delay >= SPAN then None
    else if (now + delay) % SLOTS == 0 then Some(now + delay + SLOTS)
    else Some(now + delay)
  }

  /** The same for a timer linked at `now`. One whose expiry has passed by then has a distance that
      wraps, and goes where it is never looked for. */
  function LinkedFires(now: nat, expires: nat): Option<nat> {
    if expires < now then None else FireTime(now, expires - now)
  }

  /** The delays that are honoured exactly. */
  lemma OnTimeIff(now: nat, delay: nat)
    ensures FireTime(now, delay) == Some(now + delay) <==>
      1 <= delay < 65536 && (delay < 256 || (now + delay) % 256 != 0)
    ensures FireTime(now, delay) == Some(now + delay + 256) <==>
      delay == 0 || (256 <= delay < 65536 && (now + delay) % 256 == 0)
    ensures FireTime(now, delay) == None <==> delay >= 65536
  {
  }

  /** A timer that comes 256 ticks late, and one that never comes. */
  lemma LateAndNever()
    ensures FireTime(0, 256) == Some(512) && FireTime(0, 65536) == None
  {
  }

  /** Of a delay of one tick, read at tick 0, one tick before the link takes 256 ticks more, and two
      take it all. */
  lemma ReadEarly()
    ensures LinkedFires(0, 1) == Some(1) && LinkedFires(1, 1) == Some(257) && LinkedFires(2, 1) == None
  {
  }

  ghost function DueAt(due: map<nat, Option<nat>>, now: nat): set<Firing> {
    set id | id in due && due[id] == Some(now) :: Firing(id, now)
  }

  ghost function NotDueAt(due: map<nat, Option<nat>>, now: nat): map<nat, Option<nat>> {
    map id | id in due && due[id] != Some(now) :: due[id]
  }

  ghost function Step(s: Flat, op: Op): Flat {
    match op
    case Add(id, read, delay) => s.(due := s.due[id := LinkedFires(s.now, read + delay)])
    case Tick => Flat(s.now + 1, NotDueAt(s.due, s.now + 1), s.history + multiset(DueAt(s.due, s.now + 1)))
  }

  ghost function Run(s: Flat, ops: seq<Op>): Flat
    decreases ops
  {
    if ops == [] then s else Run(Step(s, ops[0]), ops[1..])
  }

  /** A timer is armed only while it is not armed already, with a tick count read before. */
  ghost predicate Legal(s: Flat, ops: seq<Op>)
    decreases ops
  {
    ops == [] || ((ops[0].Add? ==> ops[0].id !in s.due && ReadBefore(ops[0].read, s.now)) && Legal(Step(s, ops[0]), ops[1..]))
  }

  /** The count was read at most 2^63 ticks ago. */
  predicate ReadBefore(read: nat, now: nat) {
    read <= now <= read + 0x8000_0000_0000_0000
  }

  /** Nothing arms the timer again. */
  ghost predicate LeftAlone(ops: seq<Op>, id: nat) {
    forall i :: 0 <= i < |ops| && ops[i].Add? ==> ops[i].id != id
  }

  /** From `s` to `t` the timer fired at `at`, and at no other tick; or not at all if `at` is None. */
  ghost predicate FiredOnly(s: Flat, t: Flat, id: nat, at: Option<nat>) {
    forall n: nat :: t.history[Firing(id, n)] == s.history[Firing(id, n)] + (if at == Some(n) then 1 else 0)
  }

  lemma {:induction false} StepEffect(s: Flat, op: Op, id: nat)
    requires op.Add? ==> op.id != id
    ensures var t := Step(s, op);
      if op.Tick? && id in s.due && s.due[id] == Some(t.now) then id !in t.due && FiredOnly(s, t, id, Some(t.now))
      else (id in t.due <==> id in s.due) && (id in s.due ==> t.due[id] == s.due[id]) && FiredOnly(s, t, id, None)
  {
    if op.Tick? {
      var fired := DueAt(s.due, s.now + 1);
      assert forall n: nat :: multiset(fired)[Firing(id, n)] == (if Firing(id, n) in fired then 1 else 0);
    }
  }

  /** A timer that is not armed stays silent. */
  lemma {:induction false} SilentUnarmed(s: Flat, ops: seq<Op>, id: nat)
    requires id !in s.due && LeftAlone(ops, id)
    ensures id !in Run(s, ops).due && FiredOnly(s, Run(s, ops), id, None)
    decreases ops
  {
    if ops != [] {
      assert LeftAlone(ops[1..], id);
      StepEffect(s, ops[0], id);
      SilentUnarmed(Step(s, ops[0]), ops[1..], id);
    }
  }

  /** An armed timer fires once, at its due tick if the run reaches it, whatever else is armed. */
  lemma {:induction false} FiresOnce(s: Flat, ops: seq<Op>, id: nat)
    requires id in s.due && LeftAlone(ops, id) && (s.due[id].Some? ==> s.now < s.due[id].value)
    ensures var t, due := Run(s, ops), s.due[id];
      && t.now >= s.now
      && (if due.Some? && due.value <= t.now then id !in t.due && FiredOnly(s, t, id, due)
          else id in t.due && t.due[id] == due && FiredOnly(s, t, id, None))
    decreases ops
  {
    if ops != [] {
      assert LeftAlone(ops[1..], id);
      var m := Step(s, ops[0]);
      StepEffect(s, ops[0], id);
      NowGrows(m, ops[1..]);
      if id in m.due {
        FiresOnce(m, ops[1..], id);
      } else {
        SilentUnarmed(m, ops[1..], id);
      }
    }
  }

  lemma {:induction false} NowGrows(s: Flat, ops: seq<Op>)
    ensures Run(s, ops).now >= s.now
    decreases ops
  {
    if ops != [] {
      NowGrows(Step(s, ops[0]), ops[1..]);
    }
  }

  /** A timer armed with any delay fires once, at its fire time if the run reaches it. */
  lemma {:induction false} ArmedFires(s: Flat, id: nat, read: nat, delay: nat, ops: seq<Op>)
    requires id !in s.due && LeftAlone(ops, id)
    ensures var t, at := Run(s, [Add(id, read, delay)] + ops), LinkedFires(s.now, read + delay);
      FiredOnly(s, t, id, if at.Some? && at.value <= t.now then at else None)
  {
    var all := [Add(id, read, delay)] + ops;
    assert all[1..] == ops;
    FiresOnce(Step(s, Add(id, read, delay)), ops, id);
  }

  /** The promise of timer_add_oneshot, and exactly when it is kept: in a run that reaches the
      expiry the timer fires once, when jiffies equals it, and never again.  What counts is the
      part of the delay that is left when the timer is linked. */
  lemma {:induction false} OneShotIff(s: Flat, id: nat, read: nat, delay: nat, ops: seq<Op>)
    requires id !in s.due && LeftAlone(ops, id) && read + delay <= Run(s, [Add(id, read, delay)] + ops).now
    ensures FiredOnly(s, Run(s, [Add(id, read, delay)] + ops), id, Some(read + delay)) <==>
      var rest := read + delay - s.now; 1 <= rest < SPAN && (rest < SLOTS || (read + delay) % SLOTS != 0)
  {
    var t, at := Run(s, [Add(id, read, delay)] + ops), LinkedFires(s.now, read + delay);
    ArmedFires(s, id, read, delay, ops);
    if s.now <= read + delay {
      OnTimeIff(s.now, read + delay - s.now);
    }
    var f := Firing(id, read + delay);
    assert FiredOnly(s, t, id, Some(read + delay)) ==> t.history[f] == s.history[f] + 1;
  }
}
