/** dns_decode_name of kernel/arch/x86_64/dns.c: names with compression pointers. */
module DnsDecode {
  import opened Bytes
  import opened Common
  import opened DnsName

  /** Where the loop is: the position, the text so far, and where to resume after a first jump. */
  datatype Cursor = Cursor(pos: nat, name: seq<byte>, resume: Option<nat>)

  /** -1, or the offset after the name and its text; the text is missing if the buffer ends first. */
  datatype Outcome = Fail | Done(next: nat, text: Option<seq<byte>>)

  datatype Turn = Stop(outcome: Outcome) | More(cursor: Cursor)

  function After(c: Cursor): nat {
    if c.resume.Some? then c.resume.value else c.pos + 1
  }

  function Text(name: seq<byte>): seq<byte> {
    if name == [] then [] else name[..|name| - 1]
  }

  predicate IsPointer(len: byte) {
    len >= 192
  }

  function Target(hi: byte, lo: byte): nat
    requires IsPointer(hi)
  {
    (hi - 192) * 256 + lo
  }

  /** One turn of the loop over the bytes at the cursor. */
  function Iterate(buf: seq<byte>, size: nat, c: Cursor): Turn {
    if c.pos >= |buf| then Stop(Done(After(c), None))
    else
      var len := buf[c.pos];
      if len == 0 then Stop(Done(After(c), Some(Text(c.name))))
      else if IsPointer(len) then
        if c.pos + 1 >= |buf| then Stop(Fail)
        else
          More(Cursor(Target(len, buf[c.pos + 1]), c.name, if c.resume.Some? then c.resume else Some(c.pos + 2)))
      else if c.pos + 1 + len > |buf| || |c.name| + len + 1 >= size then Stop(Fail)
      else More(Cursor(c.pos + 1 + len, c.name + buf[c.pos + 1..c.pos + 1 + len] + [DOT], c.resume))
  }

  /** The outcome, if the loop ends within `fuel` turns. */
  ghost function Within(buf: seq<byte>, size: nat, c: Cursor, fuel: nat): Option<Outcome>
    decreases fuel
  {
    if fuel == 0 then None
    else
      match Iterate(buf, size, c)
      case Stop(o) => Some(o)
      case More(d) => Within(buf, size, d, fuel - 1)
  }

  /** The outcome of the loop, if it ends. */
  ghost function Decoded(buf: seq<byte>, size: nat, c: Cursor): Option<Outcome> {
    if n: nat :| Within(buf, size, c, n).Some? then Within(buf, size, c, n) else None
  }

  lemma {:induction false} MoreFuel(buf: seq<byte>, size: nat, c: Cursor, n: nat, m: nat)
    requires n <= m && Within(buf, size, c, n).Some?
    ensures Within(buf, size, c, m) == Within(buf, size, c, n)
    decreases n
  {
    match Iterate(buf, size, c)
    case Stop(_) =>
    case More(d) => MoreFuel(buf, size, d, n - 1, m - 1);
  }

  lemma {:induction false} DecodedIs(buf: seq<byte>, size: nat, c: Cursor, n: nat)
    requires Within(buf, size, c, n).Some?
    ensures Decoded(buf, size, c) == Within(buf, size, c, n)
  {
    var m: nat :| Within(buf, size, c, m).Some? && Decoded(buf, size, c) == Within(buf, size, c, m);
    if n <= m {
      MoreFuel(buf, size, c, n, m);
    } else {
      MoreFuel(buf, size, c, m, n);
    }
  }

  /** The outcome is that of the rest of the loop. */
  lemma {:induction false} DecodedTurn(buf: seq<byte>, size: nat, c: Cursor)
    ensures match Iterate(buf, size, c)
      case Stop(o) => Decoded(buf, size, c) == Some(o)
      case More(d) => Decoded(buf, size, c) == Decoded(buf, size, d)
  {
    match Iterate(buf, size, c)
    case Stop(o) => DecodedIs(buf, size, c, 1);
    case More(d) =>
      if n: nat :| Within(buf, size, d, n).Some? {
        assert Within(buf, size, c, n + 1) == Within(buf, size, d, n);
        DecodedIs(buf, size, d, n);
        DecodedIs(buf, size, c, n + 1);
      } else if n: nat :| Within(buf, size, c, n).Some? {
        assert Within(buf, size, d, n - 1).Some?;
      }
  }

  // ------------------------------------------------------------------ names on the wire

  ghost predicate Holds(buf: seq<byte>, at: nat, bs: seq<byte>) {
    at + |bs| <= |buf| && buf[at..at + |bs|] == bs
  }

  lemma {:induction false} HoldsParts(buf: seq<byte>, at: nat, a: seq<byte>, b: seq<byte>)
    requires Holds(buf, at, a + b)
    ensures Holds(buf, at, a) && Holds(buf, at + |a|, b)
  {
    assert buf[at..at + |a + b|][..|a|] == a;
    assert buf[at..at + |a + b|][|a|..] == b;
  }

  /** The bytes from `at` on spell a name: a zero byte; a length, that many bytes and a name; or a
      pointer to a name, at most `hops` of them in all. */
  ghost predicate NameIn(buf: seq<byte>, at: nat, labels: seq<seq<byte>>, hops: nat)
    decreases |labels|, hops
  {
    && at < |buf|
    && var len := buf[at];
       if len == 0 then labels == []
       else if IsPointer(len) then at + 1 < |buf| && hops > 0 && NameIn(buf, Target(len, buf[at + 1]), labels, hops - 1)
       else
         && labels != [] && |labels[0]| == len && Holds(buf, at + 1, labels[0])
         && NameIn(buf, at + 1 + len, labels[1..], hops)
  }

  ghost predicate NameOn(buf: seq<byte>, at: nat, labels: seq<seq<byte>>) {
    exists hops: nat :: NameIn(buf, at, labels, hops)
  }

  /** Just past the zero byte or the pointer that ends the name at `at`. */
  ghost function EndOf(buf: seq<byte>, at: nat): nat
    decreases |buf| - at
  {
    if at >= |buf| || buf[at] == 0 then at + 1
    else if IsPointer(buf[at]) then at + 2
    else EndOf(buf, at + 1 + buf[at])
  }

  ghost predicate Fits(labels: seq<seq<byte>>, size: nat) {
    labels == [] || |Dotted(labels)| < size
  }

  /** From any cursor: the text of the name is added to the text so far, exactly when it fits. */
  lemma {:induction false} NameAdds(buf: seq<byte>, size: nat, c: Cursor, labels: seq<seq<byte>>, hops: nat)
    requires NameIn(buf, c.pos, labels, hops)
    ensures Decoded(buf, size, c) == Some(
      if labels != [] && |c.name| + |Dotted(labels)| >= size then Fail
      else Done(if c.resume.Some? then c.resume.value else EndOf(buf, c.pos), Some(Text(c.name + Dotted(labels)))))
    decreases |labels|, hops
  {
    DecodedTurn(buf, size, c);
    var len := buf[c.pos];
    if len == 0 {
      assert c.name + [] == c.name;
    } else if IsPointer(len) {
      NameAdds(buf, size, Iterate(buf, size, c).cursor, labels, hops - 1);
    } else {
      var l, rest := labels[0], labels[1..];
      assert Dotted(labels) == (l + [DOT]) + Dotted(rest);
      if |c.name| + len + 1 < size {
        var d := Iterate(buf, size, c).cursor;
        assert d.name + Dotted(rest) == c.name + Dotted(labels);
        NameAdds(buf, size, d, rest, hops);
      }
    }
  }

  lemma {:induction false} TextOfDotted(labels: seq<seq<byte>>)
    ensures Text(Dotted(labels)) == Join(labels)
  {
    if labels != [] {
      JoinDotted(labels);
    }
  }

  /** A name, compressed or not, decodes to its text exactly when that fits, and the offset is just
      past the name. */
  lemma {:induction false} NameDecodes(buf: seq<byte>, size: nat, at: nat, labels: seq<seq<byte>>)
    requires NameOn(buf, at, labels)
    ensures Decoded(buf, size, Cursor(at, [], None)) ==
      Some(if Fits(labels, size) then Done(EndOf(buf, at), Some(Join(labels))) else Fail)
  {
    var hops: nat :| NameIn(buf, at, labels, hops);
    NameAdds(buf, size, Cursor(at, [], None), labels, hops);
    assert [] + Dotted(labels) == Dotted(labels);
    TextOfDotted(labels);
  }

  /** Which labels the bytes at a position spell. */
  type Speller = (nat, seq<seq<byte>>) -> bool

  ghost function NamesOn(buf: seq<byte>, hops: nat): Speller {
    (at: nat, labels: seq<seq<byte>>) => NameIn(buf, at, labels, hops)
  }

  /** The first label stands at `at`, and the others behind it. */
  ghost predicate LabelThen(buf: seq<byte>, spells: Speller, at: nat, labels: seq<seq<byte>>) {
    && labels != [] && 1 <= |labels[0]| <= 191 && Holds(buf, at, [|labels[0]|] + labels[0])
    && spells(at + 1 + |labels[0]|, labels[1..])
  }

  ghost predicate TakesLabels(buf: seq<byte>, spells: Speller) {
    forall at: nat, labels :: LabelThen(buf, spells, at, labels) ==> spells(at, labels)
  }

  lemma {:induction false} NamesTakeLabels(buf: seq<byte>, hops: nat)
    ensures TakesLabels(buf, NamesOn(buf, hops))
  {
    forall at: nat, labels | LabelThen(buf, NamesOn(buf, hops), at, labels) ensures NamesOn(buf, hops)(at, labels) {
      HoldsParts(buf, at, [|labels[0]|], labels[0]);
      assert buf[at] == buf[at..at + 1][0];
    }
  }

  lemma {:induction false} FirstHeld(buf: seq<byte>, at: nat, labels: seq<seq<byte>>)
    requires labels != [] && LabelsOk(labels, 191) && Holds(buf, at, Prefixed(labels))
    ensures var l := labels[0];
      && LabelsOk(labels[1..], 191) && |Prefixed(labels)| == 1 + |l| + |Prefixed(labels[1..])|
      && Holds(buf, at, [|l|] + l) && Holds(buf, at + 1 + |l|, Prefixed(labels[1..]))
  {
    var l := labels[0];
    assert Prefixed(labels) == ([|l|] + l) + Prefixed(labels[1..]);
    HoldsParts(buf, at, [|l|] + l, Prefixed(labels[1..]));
  }

  /** Labels one after the other, and a name behind them. */
  lemma {:induction false} PrefixedThen(buf: seq<byte>, spells: Speller, at: nat, a: seq<seq<byte>>, b: seq<seq<byte>>, all: seq<seq<byte>>)
    requires TakesLabels(buf, spells) && LabelsOk(a, 191) && Holds(buf, at, Prefixed(a))
    requires spells(at + |Prefixed(a)|, b) && all == a + b
    ensures spells(at, all)
    decreases |a|
  {
    if a == [] {
      assert all == b;
    } else {
      FirstHeld(buf, at, a);
      assert all[1..] == a[1..] + b;
      PrefixedThen(buf, spells, at + 1 + |a[0]|, a[1..], b, all[1..]);
      assert LabelThen(buf, spells, at, all);
    }
  }

  lemma {:induction false} PrefixedIn(buf: seq<byte>, at: nat, a: seq<seq<byte>>, b: seq<seq<byte>>, hops: nat)
    requires LabelsOk(a, 191) && Holds(buf, at, Prefixed(a)) && NameIn(buf, at + |Prefixed(a)|, b, hops)
    ensures NameIn(buf, at, a + b, hops)
  {
    NamesTakeLabels(buf, hops);
    PrefixedThen(buf, NamesOn(buf, hops), at, a, b, a + b);
  }

  lemma {:induction false} PrefixedEnd(buf: seq<byte>, at: nat, labels: seq<seq<byte>>, p: nat)
    requires LabelsOk(labels, 191) && Holds(buf, at, Prefixed(labels)) && p == at + |Prefixed(labels)|
    ensures EndOf(buf, at) == EndOf(buf, p)
    decreases |labels|
  {
    if labels != [] {
      var l := labels[0];
      FirstHeld(buf, at, labels);
      PrefixedEnd(buf, at + 1 + |l|, labels[1..], p);
      assert buf[at] == buf[at..at + 1 + |l|][0];
    }
  }

  lemma {:induction false} WireOn(buf: seq<byte>, at: nat, labels: seq<seq<byte>>)
    requires LabelsOk(labels, 191) && Holds(buf, at, Wire(labels))
    ensures NameOn(buf, at, labels) && EndOf(buf, at) == at + |Wire(labels)|
  {
    HoldsParts(buf, at, Prefixed(labels), [0]);
    var p := at + |Prefixed(labels)|;
    assert buf[p] == buf[p..p + 1][0];
    assert labels == labels + [];
    PrefixedIn(buf, at, labels, [], 0);
    PrefixedEnd(buf, at, labels, p);
  }

  /** A plain name decodes to its text exactly when that fits, and the offset is just past it. */
  lemma {:induction false} DecodeWire(buf: seq<byte>, size: nat, at: nat, labels: seq<seq<byte>>)
    requires LabelsOk(labels, 191) && Holds(buf, at, Wire(labels))
    ensures Decoded(buf, size, Cursor(at, [], None)) ==
      Some(if Fits(labels, size) then Done(at + |Wire(labels)|, Some(Join(labels))) else Fail)
  {
    WireOn(buf, at, labels);
    NameDecodes(buf, size, at, labels);
  }

  /** Encoding a host name and decoding it, at any place in any buffer, gives it back. */
  lemma {:induction false} RoundTrip(labels: seq<seq<byte>>, room: nat, size: nat, before: seq<byte>, after: seq<byte>)
    requires LabelsOk(labels, 191) && |Wire(labels)| <= room && Fits(labels, size)
    ensures Encode(Join(labels), room).Some?
    ensures var w := Encode(Join(labels), room).value;
      Decoded(before + w + after, size, Cursor(|before|, [], None)) == Some(Done(|before| + |w|, Some(Join(labels))))
  {
    EncodeIsWire(labels, room);
    var w := Wire(labels);
    assert (before + w + after)[|before|..|before| + |w|] == w;
    DecodeWire(before + w + after, size, |before|, labels);
  }

  // ------------------------------------------------------------------ compression

  /** After a jump only the offset differs. */
  ghost function Resumed(o: Option<Outcome>, next: nat): Option<Outcome> {
    match o
    case None => None
    case Some(Fail) => Some(Fail)
    case Some(Done(_, text)) => Some(Done(next, text))
  }

  lemma {:induction false} WithinResumed(buf: seq<byte>, size: nat, c: Cursor, next: nat, n: nat)
    ensures Within(buf, size, c.(resume := Some(next)), n) == Resumed(Within(buf, size, c.(resume := None), n), next)
    decreases n
  {
    if n > 0 {
      match Iterate(buf, size, c.(resume := None))
      case Stop(_) =>
      case More(d) =>
        assert Iterate(buf, size, c.(resume := Some(next))) == More(d.(resume := Some(next)));
        WithinResumed(buf, size, d, next, n - 1);
        if d.resume.Some? {
          WithinResumed(buf, size, d, d.resume.value, n - 1);
        }
    }
  }

  lemma {:induction false} DecodedResumed(buf: seq<byte>, size: nat, c: Cursor, next: nat)
    ensures Decoded(buf, size, c.(resume := Some(next))) == Resumed(Decoded(buf, size, c.(resume := None)), next)
  {
    if n: nat :| Within(buf, size, c.(resume := None), n).Some? {
      WithinResumed(buf, size, c, next, n);
      DecodedIs(buf, size, c.(resume := None), n);
      DecodedIs(buf, size, c.(resume := Some(next)), n);
    } else {
      forall n: nat ensures Within(buf, size, c.(resume := Some(next)), n).None? {
        WithinResumed(buf, size, c, next, n);
      }
    }
  }

  /** Two one bits and a 14-bit offset, high byte first (section 4.1.4 of RFC 1035). */
  ghost predicate PointsTo(buf: seq<byte>, at: nat, offset: nat) {
    at + 1 < |buf| && offset < 0x4000 && buf[at] == 192 + offset / 256 && buf[at + 1] == offset % 256
  }

  lemma {:induction false} PointsToTarget(buf: seq<byte>, at: nat, offset: nat)
    ensures PointsTo(buf, at, offset) <==> at + 1 < |buf| && IsPointer(buf[at]) && Target(buf[at], buf[at + 1]) == offset
  {
  }

  lemma {:induction false} DecodeJump(buf: seq<byte>, size: nat, at: nat, to: nat)
    requires at + 1 < |buf| && IsPointer(buf[at]) && Target(buf[at], buf[at + 1]) == to
    ensures Decoded(buf, size, Cursor(at, [], None)) == Resumed(Decoded(buf, size, Cursor(to, [], None)), at + 2)
  {
    DecodedTurn(buf, size, Cursor(at, [], None));
    DecodedResumed(buf, size, Cursor(to, [], None), at + 2);
  }

  /** A pointer stands for the name at its offset; the position after it is just past the pointer. */
  lemma {:induction false} DecodePointer(buf: seq<byte>, size: nat, at: nat, offset: nat)
    requires PointsTo(buf, at, offset)
    ensures Decoded(buf, size, Cursor(at, [], None)) == Resumed(Decoded(buf, size, Cursor(offset, [], None)), at + 2)
  {
    PointsToTarget(buf, at, offset);
    DecodeJump(buf, size, at, offset);
  }

  /** A message that ends in the middle of a name: before a length the text is left open, in a
      pointer or a label the call fails. */
  lemma {:induction false} DecodeTorn(buf: seq<byte>, size: nat, at: nat)
    ensures at >= |buf| ==> Decoded(buf, size, Cursor(at, [], None)) == Some(Done(at + 1, None))
    ensures at + 1 == |buf| && buf[at] >= 192 ==> Decoded(buf, size, Cursor(at, [], None)) == Some(Fail)
    ensures at < |buf| && 0 < buf[at] < 192 && at + 1 + buf[at] > |buf| ==>
      Decoded(buf, size, Cursor(at, [], None)) == Some(Fail)
  {
    DecodedTurn(buf, size, Cursor(at, [], None));
  }

  lemma {:induction false} PointerIn(buf: seq<byte>, p: nat, offset: nat, labels: seq<seq<byte>>, hops: nat)
    requires PointsTo(buf, p, offset) && NameIn(buf, offset, labels, hops)
    ensures NameIn(buf, p, labels, hops + 1) && EndOf(buf, p) == p + 2
  {
    PointsToTarget(buf, p, offset);
  }

  lemma {:induction false} CompressedOn(buf: seq<byte>, at: nat, a: seq<seq<byte>>, b: seq<seq<byte>>, p: nat, offset: nat)
    requires LabelsOk(a, 191) && LabelsOk(b, 191) && Holds(buf, at, Prefixed(a)) && p == at + |Prefixed(a)|
    requires PointsTo(buf, p, offset) && Holds(buf, offset, Wire(b))
    ensures NameOn(buf, at, a + b) && EndOf(buf, at) == p + 2
  {
    WireOn(buf, offset, b);
    var hops: nat :| NameIn(buf, offset, b, hops);
    PointerIn(buf, p, offset, b, hops);
    PrefixedIn(buf, at, a, b, hops + 1);
    PrefixedEnd(buf, at, a, p);
  }

  /** Labels that end in a pointer to a plain name: the text is both, one after the other. */
  lemma {:induction false} DecodeCompressed(buf: seq<byte>, size: nat, at: nat, a: seq<seq<byte>>, b: seq<seq<byte>>, offset: nat)
    requires LabelsOk(a, 191) && LabelsOk(b, 191) && Holds(buf, at, Prefixed(a)) && Fits(a + b, size)
    requires PointsTo(buf, at + |Prefixed(a)|, offset) && Holds(buf, offset, Wire(b))
    ensures Decoded(buf, size, Cursor(at, [], None)) == Some(Done(at + |Prefixed(a)| + 2, Some(Join(a + b))))
  {
    CompressedOn(buf, at, a, b, at + |Prefixed(a)|, offset);
    NameDecodes(buf, size, at, a + b);
  }

  // ------------------------------------------------------------------ termination

  /** Every pointer on the way points strictly back. */
  ghost predicate Backward(buf: seq<byte>, size: nat, c: Cursor)
    requires |c.name| < size || c.name == []
    decreases size - |c.name|, c.pos
  {
    match Iterate(buf, size, c)
    case Stop(_) => true
    case More(d) => (d.name == c.name ==> d.pos < c.pos) && Backward(buf, size, d)
  }

  /** Then the loop ends, on the name space left and, within it, the position. */
  lemma {:induction false} BackwardEnds(buf: seq<byte>, size: nat, c: Cursor)
    requires (|c.name| < size || c.name == []) && Backward(buf, size, c)
    ensures Decoded(buf, size, c).Some?
    decreases size - |c.name|, c.pos
  {
    DecodedTurn(buf, size, c);
    match Iterate(buf, size, c)
    case Stop(_) =>
    case More(d) => BackwardEnds(buf, size, d);
  }

  /** The position after `k` pointers, if there are that many. */
  ghost function Hops(buf: seq<byte>, p: nat, k: nat): Option<nat>
    decreases k
  {
    if k == 0 then Some(p)
    else if p + 1 < |buf| && IsPointer(buf[p]) then Hops(buf, Target(buf[p], buf[p + 1]), k - 1)
    else None
  }

  /** Pointers lead from `p` back to `p`. */
  ghost predicate PointerLoop(buf: seq<byte>, p: nat) {
    exists k: nat :: k > 0 && Hops(buf, p, k) == Some(p)
  }

  /** The cursor after `n` turns, if the loop has not ended by then. */
  ghost function Turns(buf: seq<byte>, size: nat, c: Cursor, n: nat): Option<Cursor>
    decreases n
  {
    if n == 0 then Some(c)
    else
      match Iterate(buf, size, c)
      case Stop(_) => None
      case More(d) => Turns(buf, size, d, n - 1)
  }

  ghost predicate OnLoop(buf: seq<byte>, size: nat, c: Cursor, n: nat) {
    Turns(buf, size, c, n).Some? && PointerLoop(buf, Turns(buf, size, c, n).value.pos)
  }

  /** The loop comes to a position from which pointers lead in a circle. */
  ghost predicate Trapped(buf: seq<byte>, size: nat, c: Cursor) {
    exists n: nat :: OnLoop(buf, size, c, n)
  }

  /** Following pointers takes as many turns and ends nothing. */
  lemma {:induction false} HopsWithin(buf: seq<byte>, size: nat, c: Cursor, k: nat, n: nat)
    requires c.resume.Some? && Hops(buf, c.pos, k).Some?
    ensures Within(buf, size, c, n) ==
      if n <= k then None else Within(buf, size, c.(pos := Hops(buf, c.pos, k).value), n - k)
    decreases k
  {
    if k > 0 && n > 0 {
      HopsWithin(buf, size, c.(pos := Target(buf[c.pos], buf[c.pos + 1])), k - 1, n - 1);
    }
  }

  lemma {:induction false} LoopWithin(buf: seq<byte>, size: nat, c: Cursor, k: nat, n: nat)
    requires c.resume.Some? && k > 0 && Hops(buf, c.pos, k) == Some(c.pos)
    ensures Within(buf, size, c, n).None?
    decreases n
  {
    HopsWithin(buf, size, c, k, n);
    if n > k {
      LoopWithin(buf, size, c, k, n - k);
    }
  }

  /** A circle of pointers is never left. */
  lemma {:induction false} LoopSpins(buf: seq<byte>, size: nat, c: Cursor)
    requires PointerLoop(buf, c.pos)
    ensures Decoded(buf, size, c).None?
  {
    var k: nat :| k > 0 && Hops(buf, c.pos, k) == Some(c.pos);
    var d := c.(resume := Some(0));
    forall n: nat ensures Within(buf, size, d, n).None? {
      LoopWithin(buf, size, d, k, n);
    }
    DecodedResumed(buf, size, c, 0);
    if c.resume.Some? {
      DecodedResumed(buf, size, c, c.resume.value);
    }
  }

  lemma {:induction false} TurnsDecoded(buf: seq<byte>, size: nat, c: Cursor, n: nat)
    requires Turns(buf, size, c, n).Some?
    ensures Decoded(buf, size, c) == Decoded(buf, size, Turns(buf, size, c, n).value)
    decreases n
  {
    if n > 0 {
      DecodedTurn(buf, size, c);
      TurnsDecoded(buf, size, Iterate(buf, size, c).cursor, n - 1);
    }
  }

  lemma {:induction false} HopsMore(buf: seq<byte>, p: nat, k: nat, q: nat)
    requires Hops(buf, p, k) == Some(q) && q + 1 < |buf| && IsPointer(buf[q])
    ensures Hops(buf, p, k + 1) == Some(Target(buf[q], buf[q + 1]))
    decreases k
  {
    if k > 0 {
      HopsMore(buf, Target(buf[p], buf[p + 1]), k - 1, q);
    } else {
      assert Hops(buf, Target(buf[q], buf[q + 1]), 0) == Some(Target(buf[q], buf[q + 1]));
    }
  }

  lemma {:induction false} SmallSet(s: set<nat>, n: nat)
    requires forall x :: x in s ==> x < n
    ensures |s| <= n
    decreases n
  {
    if n == 0 {
      assert s == {};
    } else {
      SmallSet(s - {n - 1}, n - 1);
      assert n - 1 in s ==> s == (s - {n - 1}) + {n - 1};
      assert n - 1 !in s ==> s == s - {n - 1};
    }
  }

  /** Pointers lead from every position of `seen` to `p`. */
  ghost predicate AllLead(buf: seq<byte>, seen: set<nat>, p: nat) {
    forall s :: s in seen ==> s < |buf| && Leads(buf, s, p)
  }

  ghost predicate Leads(buf: seq<byte>, s: nat, p: nat) {
    exists k: nat :: k > 0 && Hops(buf, s, k) == Some(p)
  }

  /** Without a circle the loop ends: the text grows, and between two labels no position repeats. */
  lemma {:induction false} FreeEnds(buf: seq<byte>, size: nat, c: Cursor, seen: set<nat>)
    requires AllLead(buf, seen, c.pos) && !Trapped(buf, size, c)
    ensures Decoded(buf, size, c).Some?
    decreases size - |c.name|, |buf| - |seen|
  {
    SmallSet(seen, |buf|);
    DecodedTurn(buf, size, c);
    match Iterate(buf, size, c)
    case Stop(_) =>
    case More(d) =>
      assert !OnLoop(buf, size, c, 0);
      NotTrappedNext(buf, size, c, d);
      if IsPointer(buf[c.pos]) {
        AllLeadNext(buf, seen, c.pos);
        SmallSet(seen + {c.pos}, |buf|);
        FreeEnds(buf, size, d, seen + {c.pos});
      } else {
        FreeEnds(buf, size, d, {});
      }
  }

  lemma {:induction false} NotTrappedNext(buf: seq<byte>, size: nat, c: Cursor, d: Cursor)
    requires !Trapped(buf, size, c) && Iterate(buf, size, c) == More(d)
    ensures !Trapped(buf, size, d)
  {
    forall n: nat ensures !OnLoop(buf, size, d, n) {
      assert !OnLoop(buf, size, c, n + 1);
    }
  }

  lemma {:induction false} AllLeadNext(buf: seq<byte>, seen: set<nat>, p: nat)
    requires AllLead(buf, seen, p) && !PointerLoop(buf, p) && p + 1 < |buf| && IsPointer(buf[p])
    ensures p !in seen && AllLead(buf, seen + {p}, Target(buf[p], buf[p + 1]))
  {
    assert !Leads(buf, p, p);
    var q := Target(buf[p], buf[p + 1]);
    assert Hops(buf, q, 0) == Some(q) && Hops(buf, p, 1) == Some(q);
    forall s | s in seen ensures Leads(buf, s, q) {
      var k: nat :| k > 0 && Hops(buf, s, k) == Some(p);
      HopsMore(buf, s, k, p);
    }
  }

  /** Exactly when the loop ends. */
  lemma {:induction false} EndsIff(buf: seq<byte>, size: nat, c: Cursor)
    ensures Decoded(buf, size, c).Some? <==> !Trapped(buf, size, c)
  {
    if Trapped(buf, size, c) {
      var n: nat :| OnLoop(buf, size, c, n);
      TurnsDecoded(buf, size, c, n);
      LoopSpins(buf, size, Turns(buf, size, c, n).value);
    } else {
      FreeEnds(buf, size, c, {});
    }
  }

  /** Every name in a buffer can be read exactly when its pointers form no circle. */
  lemma {:induction false} AllEndIff(buf: seq<byte>, size: nat)
    ensures (forall at: nat :: Decoded(buf, size, Cursor(at, [], None)).Some?) <==> (forall p: nat :: !PointerLoop(buf, p))
  {
    forall at: nat ensures Decoded(buf, size, Cursor(at, [], None)).Some? <==> !Trapped(buf, size, Cursor(at, [], None)) {
      EndsIff(buf, size, Cursor(at, [], None));
    }
    forall p: nat | PointerLoop(buf, p) ensures Trapped(buf, size, Cursor(p, [], None)) {
      assert OnLoop(buf, size, Cursor(p, [], None), 0);
    }
  }

  /** A pointer to itself is such a circle. */
  lemma {:induction false} SelfPointerSpins(buf: seq<byte>, size: nat, at: nat)
    requires at + 1 < |buf| && IsPointer(buf[at]) && Target(buf[at], buf[at + 1]) == at
    ensures Decoded(buf, size, Cursor(at, [], None)) == None
  {
    assert Hops(buf, at, 0) == Some(at) && Hops(buf, at, 1) == Some(at);
    LoopSpins(buf, size, Cursor(at, [], None));
  }

  // ------------------------------------------------------------------ the code

  method AppendLabel(name: array<byte>, at: nat, l: seq<byte>)
    requires at + |l| + 1 <= name.Length
    modifies name
    ensures name[..at + |l| + 1] == old(name[..at]) + l + [DOT]
  {
    var pos, i := at, 0;
    while i < |l|
      invariant 0 <= i <= |l| && pos == at + i
      invariant name[..pos] == old(name[..at]) + l[..i]
    {
      name[pos] := l[i];
      pos := pos + 1;
      i := i + 1;
    }
    assert l[..i] == l;
    name[pos] := DOT;
  }

  /** The last dot, if any, becomes the end of the string. */
  method Terminate(name: array<byte>, namePos: nat)
    requires 0 < name.Length && (namePos == 0 || namePos < name.Length)
    modifies name
    ensures var text := Text(old(name[..namePos]));
      |text| < name.Length && name[..|text|] == text && name[|text|] == 0
  {
    name[if namePos > 0 then namePos - 1 else 0] := 0;
    assert Text(old(name[..namePos])) == name[..|Text(old(name[..namePos]))|];
  }

  /** What a call returns and leaves in the name buffer for an outcome. */
  ghost predicate Reports(o: Outcome, r: int, name: seq<byte>) {
    match o
    case Fail => r == -1
    case Done(next, None) => r == next
    case Done(next, Some(text)) => r == next && |text| < |name| && name[..|text|] == text && name[|text|] == 0
  }

  /** One turn of the loop. */
  method TakeTurn(buf: seq<byte>, name: array<byte>, pos: nat, namePos: nat, resume: Option<nat>)
    returns (stop: bool, r: int, pos': nat, namePos': nat, resume': Option<nat>)
    requires pos < |buf| && name.Length > 0 && (namePos == 0 || namePos < name.Length)
    modifies name
    ensures namePos' == 0 || namePos' < name.Length
    ensures match Iterate(buf, name.Length, Cursor(pos, old(name[..namePos]), resume))
      case Stop(o) => stop && Reports(o, r, name[..])
      case More(d) => !stop && d == Cursor(pos', name[..namePos'], resume')
  {
    stop, r, pos', namePos', resume' := false, 0, pos, namePos, resume;
    var len := buf[pos];
    if len == 0 {
      Terminate(name, namePos);
      stop, r := true, if resume.Some? then resume.value else pos + 1;
    } else if IsPointer(len) {
      if pos + 1 >= |buf| {
        return true, -1, pos, namePos, resume;
      }
      if resume.None? {
        resume' := Some(pos + 2);
      }
      pos' := Target(len, buf[pos + 1]);
    } else {
      if pos + 1 + len > |buf| || namePos + len + 1 >= name.Length {
        return true, -1, pos, namePos, resume;
      }
      AppendLabel(name, namePos, buf[pos + 1..pos + 1 + len]);
      pos', namePos' := pos + 1 + len, namePos + len + 1;
    }
  }

  /** dns_decode_name, called where it does not run into a circle of pointers. */
  method DecodeName(buf: seq<byte>, offset: nat, name: array<byte>) returns (r: int)
    requires name.Length > 0 && !Trapped(buf, name.Length, Cursor(offset, [], None))
    modifies name
    ensures Decoded(buf, name.Length, Cursor(offset, [], None)).Some?
    ensures Reports(Decoded(buf, name.Length, Cursor(offset, [], None)).value, r, name[..])
  {
    var pos: nat, namePos: nat, resume: Option<nat> := offset, 0, None;
    ghost var size, c := name.Length, Cursor(offset, [], None);
    EndsIff(buf, size, c);
    ghost var goal := Decoded(buf, size, c);
    ghost var fuel: nat :| Within(buf, size, c, fuel).Some?;
    DecodedIs(buf, size, c, fuel);
    while pos < |buf|
      invariant namePos == 0 || namePos < name.Length
      invariant c == Cursor(pos, name[..namePos], resume) && Within(buf, size, c, fuel) == goal
      decreases fuel
    {
      var stop;
      stop, r, pos, namePos, resume := TakeTurn(buf, name, pos, namePos, resume);
      if stop {
        return;
      }
      c, fuel := Iterate(buf, size, c).cursor, fuel - 1;
    }
    return if resume.Some? then resume.value else pos + 1;
  }
}
