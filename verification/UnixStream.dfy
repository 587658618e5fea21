/** The stream branches of kernel/kernel/unixsock.c: any interleaving of sends and receives in one
    direction of a connected pair is a run of a byte queue. */
module UnixStream {
  import opened Bytes
  import opened Common
  import opened ByteRing
  import opened StreamLog

  const RECV_BUF: nat := 4096

  /** One step of a run: a call starts, one iteration of its loop, or a flag is set. */
  datatype Event = OpenSend(buf: seq<byte>) | OpenRecv(count: nat) | StepSend(call: nat) | StepRecv(call: nat)
    | ShutSender | ShutReceiver | ClosePeer

  /** The sender's flags, the receiver's flags and its buffer seen as a queue, and the calls so far. */
  datatype State = State(queue: seq<byte>, senderShut: bool, senderSawClose: bool, receiverShut: bool, peerClosed: bool,
                         sends: seq<WriteCall>, recvs: seq<ReadCall>, sent: seq<Tagged>, received: seq<Tagged>)
  {
    predicate Refusing() { peerClosed || receiverShut }
  }

  function NewSend(buf: seq<byte>, shut: bool): WriteCall {
    WriteCall(buf, 0, if buf == [] || shut then Some(-1) else None)
  }

  function NewRecv(count: nat, shut: bool): ReadCall {
    ReadCall(count, [], if count == 0 || shut then Some(-1) else None)
  }

  ghost function SendIteration(s: State, i: nat): State
    requires i < |s.sends| && s.sends[i].total <= Low32(|s.sends[i].buf|) && |s.queue| <= RECV_BUF
  {
    var c := s.sends[i];
    var remaining := Low32(|c.buf|) - c.total;
    if remaining == 0 then s.(sends := s.sends[i := c.(result := Some(c.total))])
    else if s.Refusing() then
      s.(senderSawClose := true, sends := s.sends[i := c.(result := Some(if c.total > 0 then c.total else -1))])
    else if |s.queue| == RECV_BUF then s
    else
      var n := Min(remaining, RECV_BUF - |s.queue|);
      var chunk := c.buf[c.total..c.total + n];
      s.(queue := s.queue + chunk, sent := s.sent + Tag(i, chunk), sends := s.sends[i := c.(total := c.total + n)])
  }

  /** A receive waits for the first byte, or reports the close; then it copies once and returns. */
  ghost function RecvIteration(s: State, i: nat): State
    requires i < |s.recvs|
  {
    var c := s.recvs[i];
    if s.queue == [] then
      if s.peerClosed then s.(recvs := s.recvs[i := c.(result := Some(0))]) else s
    else
      var n := Min(Low32(c.count), |s.queue|);
      s.(queue := s.queue[n..], received := s.received + Tag(i, s.queue[..n]),
         recvs := s.recvs[i := c.(got := c.got + s.queue[..n], result := Some(n))])
  }

  ghost function Step(s: State, e: Event): State
    requires Inv(s)
  {
    match e
    case OpenSend(buf) => s.(sends := s.sends + [NewSend(buf, s.senderShut)])
    case OpenRecv(count) => s.(recvs := s.recvs + [NewRecv(count, s.receiverShut)])
    case StepSend(i) => if i < |s.sends| && s.sends[i].result.None? then SendIteration(s, i) else s
    case StepRecv(i) => if i < |s.recvs| && s.recvs[i].result.None? then RecvIteration(s, i) else s
    case ShutSender => s.(senderShut := true)
    case ShutReceiver => s.(receiverShut := true)
    case ClosePeer => s.(peerClosed := true)
  }

  /** A finished receive reports what it copied, or -1 if it was refused; 0 only after a close. */
  ghost predicate RecvOk(c: ReadCall, closed: bool) {
    && |c.got| <= c.count && (c.count == 0 ==> c.result.Some?) && (c.result.None? ==> c.got == [])
    && (c.result.Some? ==> c.result.value == |c.got| || (c.result.value == -1 && c.got == []))
    && (c.result == Some(0) && Low32(c.count) > 0 ==> closed)
  }

  /** A finished send reports what it wrote, all of it unless the receiving end refuses, and -1 if
      that is nothing. */
  ghost predicate SendOk(c: WriteCall, refusing: bool) {
    && c.total <= Low32(|c.buf|) && (c.buf == [] ==> c.result.Some?)
    && (c.result.Some? ==> c.result.value == c.total || (c.result.value == -1 && c.total == 0))
    && (c.result.Some? && c.total == 0 < Low32(|c.buf|) ==> c.result.value == -1)
    && (c.result.Some? && 0 <= c.result.value < Low32(|c.buf|) ==> refusing)
  }

  /** Bytes come out in the order they went in, and every call reports what it moved. */
  ghost predicate Inv(s: State) {
    && Conserved(s.queue, s.sent, s.received, s.sends, s.recvs) && |s.queue| <= RECV_BUF
    && (forall i :: 0 <= i < |s.recvs| ==> RecvOk(s.recvs[i], s.peerClosed))
    && (forall i :: 0 <= i < |s.sends| ==> SendOk(s.sends[i], s.Refusing()))
  }

  lemma {:induction false} SendKeeps(s: State, i: nat)
    requires Inv(s) && i < |s.sends| && s.sends[i].result.None?
    ensures Inv(SendIteration(s, i))
  {
    var c := s.sends[i];
    var remaining := Low32(|c.buf|) - c.total;
    if remaining == 0 {
      ReportConserves(s.queue, s.sent, s.received, s.sends, s.recvs, i, Some(c.total));
    } else if s.Refusing() {
      ReportConserves(s.queue, s.sent, s.received, s.sends, s.recvs, i, Some(if c.total > 0 then c.total else -1));
    } else {
      AcceptConserves(s.queue, s.sent, s.received, s.sends, s.recvs, i, Min(remaining, RECV_BUF - |s.queue|));
    }
  }

  lemma {:induction false} RecvKeeps(s: State, i: nat)
    requires Inv(s) && i < |s.recvs| && s.recvs[i].result.None?
    ensures Inv(RecvIteration(s, i))
  {
    var c := s.recvs[i];
    if s.queue == [] {
      ReportConserves(s.queue, s.sent, s.received, s.sends, s.recvs, i, Some(0));
    } else {
      var n := Min(Low32(c.count), |s.queue|);
      DeliverConserves(s.queue, s.sent, s.received, s.sends, s.recvs, i, n);
      var recvs := s.recvs[i := c.(got := c.got + s.queue[..n])];
      ReportConserves(s.queue[n..], s.sent, s.received + Tag(i, s.queue[..n]), s.sends, recvs, i, Some(n));
      assert recvs[i := recvs[i].(result := Some(n))] == RecvIteration(s, i).recvs;
    }
  }

  lemma {:induction false} StepKeeps(s: State, e: Event)
    requires Inv(s)
    ensures Inv(Step(s, e))
  {
    match e
    case OpenSend(buf) => OpenWriteConserves(s.queue, s.sent, s.received, s.sends, s.recvs, NewSend(buf, s.senderShut));
    case OpenRecv(count) => OpenReadConserves(s.queue, s.sent, s.received, s.sends, s.recvs, NewRecv(count, s.receiverShut));
    case StepSend(i) => if i < |s.sends| && s.sends[i].result.None? { SendKeeps(s, i); }
    case StepRecv(i) => if i < |s.recvs| && s.recvs[i].result.None? { RecvKeeps(s, i); }
    case ShutSender =>
    case ShutReceiver =>
    case ClosePeer =>
  }

  /** After any interleaving of calls, iterations, shutdowns and closes. */
  ghost function RunFrom(s: State, es: seq<Event>): (t: State)
    requires Inv(s)
    ensures Inv(t)
    decreases es
  {
    if es == [] then s
    else
      StepKeeps(s, es[0]);
      RunFrom(Step(s, es[0]), es[1..])
  }

  lemma {:induction false} RunStep(s: State, e: Event, es: seq<Event>)
    requires Inv(s)
    ensures Inv(Step(s, e)) && RunFrom(s, [e] + es) == RunFrom(Step(s, e), es)
  {
    StepKeeps(s, e);
    assert ([e] + es)[1..] == es;
  }

  lemma {:induction false} TwoSteps(s: State, e: Event, f: Event)
    requires Inv(s)
    ensures Inv(Step(s, e)) && RunFrom(s, [e, f]) == Step(Step(s, e), f)
  {
    RunStep(s, e, [f]);
    RunStep(Step(s, e), f, []);
    assert [e] + [f] == [e, f] && [f] + [] == [f];
  }

  // ------------------------------------------------------------------ what a turn does

  /** With bytes queued a receive ends in one turn, closed or not, with as many of the oldest as it
      asks for; with none it ends with 0 exactly if the peer is closed. */
  lemma {:induction false} RecvTurn(s: State, i: nat)
    requires Inv(s) && i < |s.recvs| && s.recvs[i].result.None?
    ensures var t, c := Step(s, StepRecv(i)), s.recvs[i];
      var n := Min(c.count % 0x1_0000_0000, |s.queue|);
      && t.sends == s.sends && t.queue == s.queue[n..]
      && t.recvs == if s.queue == [] && !s.peerClosed then s.recvs else s.recvs[i := ReadCall(c.count, s.queue[..n], Some(n))]
  {
    var c := s.recvs[i];
    assert RecvOk(c, s.peerClosed);
    if s.queue == [] {
      assert s.queue[0..] == s.queue && s.queue[..0] == c.got;
    } else {
      var n := Min(Low32(c.count), |s.queue|);
      assert c.got + s.queue[..n] == s.queue[..n];
    }
  }

  /** A receive that reports 0 for a count it could have met found the peer closed and has every
      byte that was sent before it. */
  lemma {:induction false} EmptyRecv(s: State, i: nat)
    requires Inv(s) && i < |s.recvs| && s.recvs[i].result.None? && s.recvs[i].count % 0x1_0000_0000 != 0
    ensures var t := Step(s, StepRecv(i));
      i < |t.recvs| && (t.recvs[i].result == Some(0) ==> s.peerClosed && Untag(t.received) == Untag(t.sent))
  {
    RecvTurn(s, i);
    assert s.queue == [] ==> Untag(s.received) + s.queue == Untag(s.received);
  }

  /** One turn of a send appends as many of its next bytes as there is room for in 4096, unless the
      receiving end refuses; then it ends. */
  lemma {:induction false} SendTurn(s: State, i: nat)
    requires Inv(s) && i < |s.sends| && s.sends[i].result.None?
    ensures var t, c := Step(s, StepSend(i)), s.sends[i];
      var left, refusing := |c.buf| % 0x1_0000_0000 - c.total, s.peerClosed || s.receiverShut;
      && t.recvs == s.recvs && t.peerClosed == s.peerClosed && t.receiverShut == s.receiverShut && 0 <= left
      && t.senderSawClose == (s.senderSawClose || (left > 0 && refusing))
      && (left > 0 && !refusing ==>
        var n := Min(left, 4096 - |s.queue|);
        t.queue == s.queue + c.buf[c.total..c.total + n] && t.sends == s.sends[i := c.(total := c.total + n)])
      && (left == 0 || refusing ==>
        t.queue == s.queue && t.sends == s.sends[i := c.(result := Some(if left > 0 && c.total == 0 then -1 else c.total))])
  {
    var c := s.sends[i];
    if |s.queue| == RECV_BUF {
      assert s.queue + c.buf[c.total..c.total] == s.queue;
    }
  }

  /** A close loses nothing: the next turn of a receive still gets what is queued. */
  lemma {:induction false} RecvAfterClose(s: State, i: nat)
    requires Inv(s) && i < |s.recvs| && s.recvs[i].result.None?
    ensures var t, c := RunFrom(s, [ClosePeer, StepRecv(i)]), s.recvs[i];
      var n := Min(c.count % 0x1_0000_0000, |s.queue|);
      t.queue == s.queue[n..] && t.recvs == s.recvs[i := ReadCall(c.count, s.queue[..n], Some(n))]
  {
    TwoSteps(s, ClosePeer, StepRecv(i));
    RecvTurn(Step(s, ClosePeer), i);
  }

  /** After a close of the peer or a shutdown of the receiver a send ends in one turn. */
  lemma {:induction false} SendAfterClose(s: State, i: nat, e: Event)
    requires Inv(s) && i < |s.sends| && s.sends[i].result.None? && (e.ClosePeer? || e.ShutReceiver?)
    ensures var t, c := RunFrom(s, [e, StepSend(i)]), s.sends[i];
      && t.queue == s.queue
      && t.sends == s.sends[i := c.(result := Some(if c.total == 0 < |c.buf| % 0x1_0000_0000 then -1 else c.total))]
  {
    TwoSteps(s, e, StepSend(i));
    SendTurn(Step(s, e), i);
  }

  /** After its shutdown an end starts no call. */
  lemma {:induction false} ShutRefuses(s: State, buf: seq<byte>, count: nat)
    requires Inv(s)
    ensures RunFrom(s, [ShutSender, OpenSend(buf)]).sends == s.sends + [WriteCall(buf, 0, Some(-1))]
    ensures RunFrom(s, [ShutReceiver, OpenRecv(count)]).recvs == s.recvs + [ReadCall(count, [], Some(-1))]
  {
    TwoSteps(s, ShutSender, OpenSend(buf));
    TwoSteps(s, ShutReceiver, OpenRecv(count));
  }

  /** A send that finds room for all that is left is over in two turns. */
  lemma {:induction false} SendFits(s: State, i: nat)
    requires Inv(s) && i < |s.sends| && s.sends[i].result.None? && !s.peerClosed && !s.receiverShut
    requires 0 < |s.sends[i].buf| - s.sends[i].total <= 4096 - |s.queue| && |s.sends[i].buf| < TWO32
    ensures var t, c := RunFrom(s, [StepSend(i), StepSend(i)]), s.sends[i];
      && t.queue == s.queue + c.buf[c.total..] && t.recvs == s.recvs && t.receiverShut == s.receiverShut
      && t.sends == s.sends[i := WriteCall(c.buf, |c.buf|, Some(|c.buf|))]
  {
    var c := s.sends[i];
    TwoSteps(s, StepSend(i), StepSend(i));
    SendTurn(s, i);
    assert c.buf[c.total..|c.buf|] == c.buf[c.total..];
    SendTurn(Step(s, StepSend(i)), i);
  }

  lemma {:induction false} RunConcat(s: State, xs: seq<Event>, ys: seq<Event>)
    requires Inv(s)
    ensures RunFrom(s, xs + ys) == RunFrom(RunFrom(s, xs), ys)
    decreases xs
  {
    if xs == [] {
      assert xs + ys == ys;
    } else {
      RunStep(s, xs[0], xs[1..]);
      RunStep(s, xs[0], xs[1..] + ys);
      assert xs == [xs[0]] + xs[1..] && xs + ys == [xs[0]] + (xs[1..] + ys);
      RunConcat(Step(s, xs[0]), xs[1..], ys);
    }
  }

  lemma {:induction false} SentFrom(s: State, buf: seq<byte>)
    requires Inv(s) && s.queue == [] && s.recvs == [] && !s.peerClosed && !s.receiverShut && s.sends == [WriteCall(buf, 0, None)]
    requires 0 < |buf| <= 4096
    ensures var t := RunFrom(s, [StepSend(0), StepSend(0)]);
      t.queue == buf && t.recvs == [] && !t.receiverShut && t.sends == [WriteCall(buf, |buf|, Some(|buf|))]
  {
    SendFits(s, 0);
    assert [] + buf[0..] == buf;
  }

  lemma {:induction false} Sent(s: State, buf: seq<byte>)
    requires Inv(s) && s == State([], false, false, false, false, [], [], [], []) && 0 < |buf| <= 4096
    ensures var t := RunFrom(s, [OpenSend(buf)] + [StepSend(0), StepSend(0)]);
      t.queue == buf && t.recvs == [] && !t.receiverShut && t.sends == [WriteCall(buf, |buf|, Some(|buf|))]
  {
    RunStep(s, OpenSend(buf), [StepSend(0), StepSend(0)]);
    SentFrom(Step(s, OpenSend(buf)), buf);
  }

  /** A receive that starts is refused exactly for a count of 0 or a shut end. */
  lemma {:induction false} OpenedRecv(s: State, es: seq<Event>, count: nat)
    requires Inv(s)
    ensures var t, u := RunFrom(s, es), RunFrom(s, es + [OpenRecv(count)]);
      && u.queue == t.queue
      && u.recvs == t.recvs + [ReadCall(count, [], if count == 0 || t.receiverShut then Some(-1) else None)]
  {
    RunConcat(s, es, [OpenRecv(count)]);
    RunStep(RunFrom(s, es), OpenRecv(count), []);
    assert [OpenRecv(count)] + [] == [OpenRecv(count)];
  }

  lemma {:induction false} GetsAll(s: State, count: nat)
    requires Inv(s) && s.recvs == [ReadCall(count, [], None)] && |s.queue| <= count < TWO32
    ensures var t := RunFrom(s, [ClosePeer, StepRecv(0)]);
      t.queue == [] && t.recvs == [ReadCall(count, s.queue, Some(|s.queue|))]
  {
    RecvAfterClose(s, 0);
    assert s.queue[..|s.queue|] == s.queue;
  }

  /** What a run leaves in the buffer is what the first receive gets, even after a close. */
  lemma {:induction false} GetsLeft(s: State, es: seq<Event>, last: seq<Event>, count: nat)
    requires Inv(s) && RunFrom(s, es).recvs == [] && !RunFrom(s, es).receiverShut
    requires 0 < count < TWO32 && |RunFrom(s, es).queue| <= count && last == [ClosePeer, StepRecv(0)]
    ensures var left := RunFrom(s, es).queue;
      var t := RunFrom(s, es + [OpenRecv(count)] + last);
      t.queue == [] && t.recvs == [ReadCall(count, left, Some(|left|))]
  {
    OpenedRecv(s, es, count);
    RunConcat(s, es + [OpenRecv(count)], last);
    GetsAll(RunFrom(s, es + [OpenRecv(count)]), count);
  }

  /** A send into an empty buffer that fits is what a later receive gets, even after a close. */
  lemma {:induction false} Passes(s: State, buf: seq<byte>, count: nat)
    requires Inv(s) && s == State([], false, false, false, false, [], [], [], [])
    requires 0 < |buf| <= 4096 && |buf| <= count < TWO32
    ensures var t := RunFrom(s, [OpenSend(buf)] + [StepSend(0), StepSend(0)] + [OpenRecv(count)] + [ClosePeer, StepRecv(0)]);
      t.queue == [] && t.recvs == [ReadCall(count, buf, Some(|buf|))]
  {
    Sent(s, buf);
    GetsLeft(s, [OpenSend(buf)] + [StepSend(0), StepSend(0)], [ClosePeer, StepRecv(0)], count);
  }

  /** After any run a send that was accepted and is over, with no end refusing, has sent the low 32
      bits of its length. */
  lemma {:induction false} WholeSend(s: State, i: nat)
    requires Inv(s) && !s.Refusing() && i < |s.sends| && s.sends[i].result.Some? && s.sends[i].result.value >= 0
    ensures s.sends[i].result.value == s.sends[i].total == Low32(|s.sends[i].buf|)
    ensures s.sends[i].total == |s.sends[i].buf| <==> |s.sends[i].buf| < TWO32
  {
    assert SendOk(s.sends[i], false);
  }

  /** One direction of a connected pair. */
  class Link {
    const ring: Ring
    var senderShut: bool
    var senderSawClose: bool
    var receiverShut: bool
    var peerClosed: bool
    /** Local state of the calls made so far. */
    var sends: seq<WriteCall>
    var recvs: seq<ReadCall>
    ghost var sent: seq<Tagged>
    ghost var received: seq<Tagged>

    ghost function Abstract(): State
      reads this, ring
    {
      State(ring.contents, senderShut, senderSawClose, receiverShut, peerClosed, sends, recvs, sent, received)
    }

    ghost predicate RingOk()
      reads this, ring, ring.data
    {
      ring.Valid() && ring.data.Length == RECV_BUF
    }

    ghost predicate Valid()
      reads this, ring, ring.data
    {
      RingOk() && Inv(Abstract())
    }

    constructor ()
      ensures Valid() && fresh(ring) && fresh(ring.data) && ring.data.Length == 4096
      ensures Abstract() == State([], false, false, false, false, [], [], [], [])
    {
      ring := new Ring(RECV_BUF);
      senderShut, senderSawClose, receiverShut, peerClosed := false, false, false, false;
      sends, recvs, sent, received := [], [], [], [];
    }

    /** One iteration of the loop of unix_socket_send. */
    method IterateSend(i: nat)
      requires RingOk() && i < |sends| && sends[i].total <= Low32(|sends[i].buf|)
      modifies this`sends, this`sent, this`senderSawClose, ring, ring.data
      ensures RingOk() && Abstract() == SendIteration(old(Abstract()), i)
    {
      var c := sends[i];
      var remaining := Low32(|c.buf|) - c.total;
      if remaining == 0 {
        sends := sends[i := c.(result := Some(c.total))];
      } else if peerClosed || receiverShut {
        senderSawClose := true;
        sends := sends[i := c.(result := Some(if c.total > 0 then c.total else -1))];
      } else if ring.bytes < RECV_BUF {
        var src := c.buf[c.total..c.total + remaining];
        var n := ring.Put(src);
        FrontOfSlice(c.buf, c.total, c.total + remaining, n);
        sends := sends[i := c.(total := c.total + n)];
        sent := sent + Tag(i, c.buf[c.total..c.total + n]);
      }
    }

    /** One iteration of the waiting loop of unix_socket_recv, and the copy after it. */
    method IterateRecv(i: nat)
      requires RingOk() && i < |recvs|
      modifies this`recvs, this`received, ring
      ensures RingOk() && Abstract() == RecvIteration(old(Abstract()), i)
    {
      var c := recvs[i];
      if ring.bytes == 0 {
        if peerClosed {
          recvs := recvs[i := c.(result := Some(0))];
        }
      } else {
        var out := ring.Take(Low32(c.count));
        recvs := recvs[i := c.(got := c.got + out, result := Some(|out|))];
        received := received + Tag(i, out);
      }
    }

    method Do(e: Event)
      requires Valid()
      modifies this, ring, ring.data
      ensures Valid() && Abstract() == Step(old(Abstract()), e)
    {
      StepKeeps(Abstract(), e);
      match e {
        case OpenSend(buf) => { sends := sends + [NewSend(buf, senderShut)]; }
        case OpenRecv(count) => { recvs := recvs + [NewRecv(count, receiverShut)]; }
        case StepSend(i) => {
          if i < |sends| && sends[i].result.None? {
            IterateSend(i);
          }
        }
        case StepRecv(i) => {
          if i < |recvs| && recvs[i].result.None? {
            IterateRecv(i);
          }
        }
        case ShutSender => { senderShut := true; }
        case ShutReceiver => { receiverShut := true; }
        case ClosePeer => { peerClosed := true; }
      }
    }

    /** Every interleaving on the ring is the same interleaving on the queue. */
    method Run(es: seq<Event>)
      requires Valid()
      modifies this, ring, ring.data
      ensures Valid() && Abstract() == RunFrom(old(Abstract()), es)
    {
      var k := 0;
      while k < |es|
        invariant 0 <= k <= |es| && Valid() && RunFrom(Abstract(), es[k..]) == RunFrom(old(Abstract()), es)
      {
        assert es[k..][1..] == es[k + 1..];
        Do(es[k]);
        k := k + 1;
      }
    }
  }
}
