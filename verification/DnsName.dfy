/** Domain names on the wire, as kernel/arch/x86_64/dns.c writes and reads them (sections 3.1 and
    4.1.4 of RFC 1035). */
module DnsName {
  import opened Bytes
  import opened Common

  const DOT: byte := 46

  // ------------------------------------------------------------------ names

  /** Labels of 1 to `max` bytes without a dot. */
  ghost predicate LabelsOk(labels: seq<seq<byte>>, max: nat) {
    forall i :: 0 <= i < |labels| ==> 1 <= |labels[i]| <= max && DOT !in labels[i]
  }

  /** The name as text, labels separated by dots. */
  ghost function Join(labels: seq<seq<byte>>): seq<byte> {
    if labels == [] then [] else if |labels| == 1 then labels[0] else labels[0] + [DOT] + Join(labels[1..])
  }

  /** Each label followed by a dot. */
  ghost function Dotted(labels: seq<seq<byte>>): seq<byte> {
    if labels == [] then [] else labels[0] + [DOT] + Dotted(labels[1..])
  }

  /** The labels on the wire, each after its length. */
  ghost function Prefixed(labels: seq<seq<byte>>): seq<byte>
    requires LabelsOk(labels, 191)
  {
    if labels == [] then [] else [|labels[0]|] + labels[0] + Prefixed(labels[1..])
  }

  /** A whole name on the wire. */
  ghost function Wire(labels: seq<seq<byte>>): seq<byte>
    requires LabelsOk(labels, 191)
  {
    Prefixed(labels) + [0]
  }

  lemma {:induction false} JoinDotted(labels: seq<seq<byte>>)
    requires labels != []
    ensures Dotted(labels) == Join(labels) + [46]
  {
    if |labels| > 1 {
      JoinDotted(labels[1..]);
    }
  }

  lemma {:induction false} WireLength(labels: seq<seq<byte>>)
    requires LabelsOk(labels, 191)
    ensures |Wire(labels)| == |Dotted(labels)| + 1
  {
    if labels != [] {
      WireLength(labels[1..]);
    }
  }

  lemma {:induction false} WireCons(labels: seq<seq<byte>>)
    requires labels != [] && LabelsOk(labels, 191)
    ensures Wire(labels) == ([|labels[0]|] + labels[0]) + Wire(labels[1..])
    ensures Join(labels) == labels[0] + if |labels| == 1 then [] else [DOT] + Join(labels[1..])
  {
  }

  // ------------------------------------------------------------------ encoding

  /** Index of the first dot, or the length. */
  function DotAt(h: seq<byte>): (d: nat)
    ensures d <= |h| && (d < |h| ==> h[d] == DOT) && DOT !in h[..d]
  {
    if h == [] || h[0] == DOT then 0 else 1 + DotAt(h[1..])
  }

  /** An 8-bit cast. */
  function Low8(d: nat): (r: nat)
    ensures r <= d && r < 256 && (d < 256 ==> r == d)
  {
    d % 256
  }

  function Finish(room: nat): Option<seq<byte>> {
    if room < 1 then None else Some([0])
  }

  function Behind(front: seq<byte>, rest: Option<seq<byte>>): Option<seq<byte>> {
    match rest
    case None => None
    case Some(r) => Some(front + r)
  }

  /** The encoding of a host name into `room` bytes. The label length is kept in 8 bits. */
  function Encode(h: seq<byte>, room: nat): Option<seq<byte>>
    decreases |h|
  {
    var d := DotAt(h);
    var len := Low8(d);
    if len == 0 then Finish(room)
    else if 1 + len > room then None
    else
      Behind([len] + h[..len], if d < |h| then Encode(h[d + 1..], room - 1 - len) else Finish(room - 1 - len))
  }

  lemma {:induction false} DotAtLabel(l: seq<byte>, rest: seq<byte>)
    requires DOT !in l && (rest == [] || rest[0] == DOT)
    ensures DotAt(l + rest) == |l|
  {
    if l == [] {
      assert l + rest == rest;
    } else {
      assert (l + rest)[1..] == l[1..] + rest;
      DotAtLabel(l[1..], rest);
    }
  }

  lemma {:induction false} EncodeLabel(l: seq<byte>, rest: seq<byte>, room: nat)
    requires DOT !in l && 1 <= |l| <= 191 && (rest == [] || rest[0] == DOT)
    ensures Encode(l + rest, room) ==
      if 1 + |l| > room then None
      else Behind([|l|] + l, if rest == [] then Finish(room - 1 - |l|) else Encode(rest[1..], room - 1 - |l|))
  {
    DotAtLabel(l, rest);
    assert (l + rest)[..|l|] == l;
    assert rest != [] ==> (l + rest)[|l| + 1..] == rest[1..];
  }

  /** `w`, if it fits. */
  ghost function Fitting(w: seq<byte>, room: nat): Option<seq<byte>> {
    if |w| <= room then Some(w) else None
  }

  lemma BehindFitting(front: seq<byte>, w: seq<byte>, room: nat)
    requires |front| <= room
    ensures Behind(front, Fitting(w, room - |front|)) == Fitting(front + w, room)
  {
  }

  /** One more label in front of a text whose encoding is known; a lone label has only the terminator behind. */
  lemma {:induction false} EncodeGlue(l: seq<byte>, more: bool, text: seq<byte>, wire: seq<byte>, room: nat)
    requires DOT !in l && 1 <= |l| <= 191
    requires if more then 1 + |l| <= room ==> Encode(text, room - 1 - |l|) == Fitting(wire, room - 1 - |l|) else wire == [0]
    ensures Encode(l + if more then [DOT] + text else [], room) == Fitting([|l|] + l + wire, room)
  {
    var tail := if more then [DOT] + text else [];
    assert more ==> tail[1..] == text;
    EncodeLabel(l, tail, room);
    if 1 + |l| <= room {
      BehindFitting([|l|] + l, wire, room);
    }
  }

  /** A host name is encoded as its wire form exactly when that fits. */
  lemma {:induction false} EncodeIsWire(labels: seq<seq<byte>>, room: nat)
    requires LabelsOk(labels, 191)
    ensures Encode(Join(labels), room) == Fitting(Wire(labels), room)
    decreases |labels|
  {
    if labels == [] {
      assert Wire(labels) == [0];
    } else {
      var l, rest := labels[0], labels[1..];
      WireCons(labels);
      if rest == [] {
        assert Wire(rest) == [0];
      } else if 1 + |l| <= room {
        EncodeIsWire(rest, room - 1 - |l|);
      }
      EncodeGlue(l, rest != [], Join(rest), Wire(rest), room);
    }
  }

  method FindDot(h: seq<byte>, start: nat) returns (dot: nat)
    requires start <= |h|
    ensures dot == start + DotAt(h[start..])
  {
    dot := start;
    while dot < |h| && h[dot] != DOT
      invariant start <= dot <= |h| && dot + DotAt(h[dot..]) == start + DotAt(h[start..])
    {
      assert h[dot..][1..] == h[dot + 1..];
      dot := dot + 1;
    }
  }

  /** The buffer `was` with `out` written from `at` on. */
  ghost predicate Written(now: seq<byte>, was: seq<byte>, at: nat, out: seq<byte>) {
    && |now| == |was| && at + |out| <= |was|
    && (forall i :: at <= i < at + |out| ==> now[i] == out[i - at])
    && (forall i :: 0 <= i < |was| && !(at <= i < at + |out|) ==> now[i] == was[i])
  }

  lemma {:induction false} WrittenMore(was: seq<byte>, at: nat, out: seq<byte>, mid: seq<byte>, more: seq<byte>, now: seq<byte>)
    requires Written(mid, was, at, out) && Written(now, mid, at + |out|, more)
    ensures Written(now, was, at, out + more)
  {
  }

  method WriteLabel(buf: array<byte>, at: nat, l: seq<byte>)
    requires |l| < 256 && at + 1 + |l| <= buf.Length
    modifies buf
    ensures Written(buf[..], old(buf[..]), at, [|l|] + l)
  {
    var pos := at;
    buf[pos] := |l|;
    pos := pos + 1;
    var i := 0;
    while i < |l|
      invariant 0 <= i <= |l| && pos == at + 1 + i
      invariant buf[at] == |l| && forall j :: 0 <= j < i ==> buf[at + 1 + j] == l[j]
      invariant forall j :: 0 <= j < buf.Length && !(at <= j < pos) ==> buf[j] == old(buf[j])
    {
      buf[pos] := l[i];
      pos := pos + 1;
      i := i + 1;
    }
  }

  lemma BehindSum(a: seq<byte>, b: seq<byte>, rest: Option<seq<byte>>)
    ensures Behind(a, Behind(b, rest)) == Behind(a + b, rest)
  {
    if rest.Some? {
      assert a + (b + rest.value) == (a + b) + rest.value;
    }
  }

  /** What is still to be encoded: the rest of the name, or only the terminator. */
  ghost function Left(h: seq<byte>, start: nat, done: bool, room: nat): Option<seq<byte>>
    requires start <= |h|
  {
    if done then Finish(room) else Encode(h[start..], room)
  }

  lemma {:induction false} EncodeStep(h: seq<byte>, start: nat, dot: nat, room: nat)
    requires start < |h| && dot == start + DotAt(h[start..]) && 0 < Low8(dot - start) < room
    ensures var len := Low8(dot - start);
      && start + len <= |h|
      && Encode(h[start..], room)
         == Behind([len] + h[start..start + len], Left(h, if dot < |h| then dot + 1 else dot, dot == |h|, room - 1 - len))
  {
    var len := Low8(dot - start);
    assert h[start..][..len] == h[start..start + len];
    assert dot < |h| ==> h[start..][dot - start + 1..] == h[dot + 1..];
  }

  /** In the middle of an encoding into `goal`: `out` is written, `left` is to come. */
  ghost predicate Midway(goal: Option<seq<byte>>, left: Option<seq<byte>>, now: seq<byte>, was: seq<byte>, at: nat, out: seq<byte>) {
    Written(now, was, at, out) && goal == Behind(out, left)
  }

  lemma {:induction false} MidwayStep(goal: Option<seq<byte>>, left: Option<seq<byte>>, now: seq<byte>, mid: seq<byte>,
                                      was: seq<byte>, at: nat, out: seq<byte>, more: seq<byte>)
    requires Midway(goal, Behind(more, left), mid, was, at, out) && Written(now, mid, at + |out|, more)
    ensures Midway(goal, left, now, was, at, out + more)
  {
    WrittenMore(was, at, out, mid, more, now);
    BehindSum(out, more, left);
  }

  lemma {:induction false} EncodeStops(h: seq<byte>, start: nat, dot: nat, room: nat, out: seq<byte>)
    requires start < |h| && dot == start + DotAt(h[start..])
    ensures Low8(dot - start) == 0 ==> Encode(h[start..], room) == Finish(room)
    ensures Low8(dot - start) > 0 && 1 + Low8(dot - start) > room ==> Behind(out, Encode(h[start..], room)) == None
  {
  }

  /** One turn of the loop over the labels. */
  method EncodeOne(h: seq<byte>, start: nat, buf: array<byte>, pos: nat, ghost goal: Option<seq<byte>>,
                   ghost was: seq<byte>, ghost at: nat, ghost out: seq<byte>)
    returns (ok: bool, next: nat, done: bool, end: nat, ghost grown: seq<byte>)
    requires start < |h| && pos == at + |out| <= buf.Length
    requires Midway(goal, Left(h, start, false, buf.Length - pos), buf[..], was, at, out)
    modifies buf
    ensures !ok ==> goal == None && buf[..] == old(buf[..])
    ensures ok ==> start <= next <= |h| && (next > start || done) && end == at + |grown| <= buf.Length
    ensures ok ==> Midway(goal, Left(h, next, done, buf.Length - end), buf[..], was, at, grown)
  {
    ok, next, done, end, grown := true, start, true, pos, out;
    var dot := FindDot(h, start);
    var len := Low8(dot - start);
    EncodeStops(h, start, dot, buf.Length - pos, out);
    if len > 0 {
      if pos + 1 + len > buf.Length {
        ok := false;
        return;
      }
      ghost var mid := buf[..];
      WriteLabel(buf, pos, h[start..start + len]);
      end, next, done := pos + 1 + len, if dot < |h| then dot + 1 else dot, dot == |h|;
      EncodeStep(h, start, dot, buf.Length - pos);
      MidwayStep(goal, Left(h, next, done, buf.Length - end), buf[..], mid, was, at, out, [len] + h[start..start + len]);
      grown := out + ([len] + h[start..start + len]);
    }
  }

  /** The loop over the labels; what is left is the terminator. */
  method EncodeLabels(h: seq<byte>, buf: array<byte>, at: nat) returns (ok: bool, pos: nat, ghost out: seq<byte>)
    requires at <= buf.Length
    modifies buf
    ensures buf[..at] == old(buf[..at])
    ensures !ok ==> Encode(h, buf.Length - at) == None
    ensures ok ==> pos == at + |out| <= buf.Length && Written(buf[..], old(buf[..]), at, out)
    ensures ok ==> Encode(h, buf.Length - at) == Behind(out, Finish(buf.Length - pos))
  {
    ok, pos, out := true, at, [];
    var start, done := 0, false;
    ghost var was := buf[..];
    ghost var goal := Encode(h, buf.Length - at);
    BehindNothing(goal);
    assert h[0..] == h;
    while start < |h| && !done
      invariant start <= |h| && pos == at + |out| <= buf.Length
      invariant Midway(goal, Left(h, start, done, buf.Length - pos), buf[..], was, at, out)
      decreases |h| - start, !done
    {
      ok, start, done, pos, out := EncodeOne(h, start, buf, pos, goal, was, at, out);
      if !ok {
        return;
      }
    }
  }

  /** dns_encode_name into the buffer from `at` on. */
  method EncodeName(h: seq<byte>, buf: array<byte>, at: nat) returns (r: int)
    requires at <= buf.Length
    modifies buf
    ensures buf[..at] == old(buf[..at])
    ensures match Encode(h, buf.Length - at)
      case None => r == -1
      case Some(w) => r == |w| && Written(buf[..], old(buf[..]), at, w)
  {
    ghost var was := buf[..];
    var ok, pos, out := EncodeLabels(h, buf, at);
    if !ok || pos + 1 > buf.Length {
      return -1;
    }
    ghost var mid := buf[..];
    buf[pos] := 0;
    WrittenMore(was, at, out, mid, [0], buf[..]);
    return pos + 1 - at;
  }

  lemma BehindNothing(rest: Option<seq<byte>>)
    ensures Behind([], rest) == rest
  {
    if rest.Some? {
      assert [] + rest.value == rest.value;
    }
  }
}
