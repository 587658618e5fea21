/** The pipe of kernel/kernel/fifo.c: any interleaving of its calls is a run of a byte queue. */
module Pipe {
  import opened Bytes
  import opened Common
  import opened ByteRing
  import opened StreamLog

  const PIPE_SIZE: nat := 4096
  const TWO63: nat := 0x8000_0000_0000_0000

  /** One step of a run: a call starts, one iteration of its loop, or an end closes. */
  datatype Event = OpenRead(count: nat) | OpenWrite(buf: seq<byte>) | StepRead(call: nat) | StepWrite(call: nat)
    | CloseReader | CloseWriter

  /** A pipe seen as a queue, with the calls made on it and the bytes moved so far. */
  datatype State = State(queue: seq<byte>, readerClosed: bool, writerClosed: bool,
                         readCalls: seq<ReadCall>, writes: seq<WriteCall>,
                         sent: seq<Tagged>, received: seq<Tagged>)

  function NewRead(count: nat): ReadCall {
    ReadCall(count, [], if count == 0 then Some(-1) else None)
  }

  function NewWrite(buf: seq<byte>): WriteCall {
    WriteCall(buf, 0, if buf == [] then Some(-1) else None)
  }

  ghost function ReadIteration(s: State, i: nat): State
    requires i < |s.readCalls| && |s.readCalls[i].got| <= s.readCalls[i].count
  {
    var c := s.readCalls[i];
    if c.count >= TWO63 || |c.got| == c.count || (s.queue == [] && s.writerClosed) then
      s.(readCalls := s.readCalls[i := c.(result := Some(|c.got|))])
    else if s.queue == [] then s
    else
      var n := Min(Low32(c.count - |c.got|), |s.queue|);
      s.(queue := s.queue[n..], received := s.received + Tag(i, s.queue[..n]),
         readCalls := s.readCalls[i := c.(got := c.got + s.queue[..n])])
  }

  ghost function WriteIteration(s: State, i: nat): State
    requires i < |s.writes| && s.writes[i].total <= Low32(|s.writes[i].buf|) && |s.queue| <= PIPE_SIZE
  {
    var c := s.writes[i];
    var remaining := Low32(|c.buf|) - c.total;
    if remaining == 0 || s.readerClosed then
      s.(writes := s.writes[i := c.(result := Some(if c.total > 0 || remaining == 0 then c.total else -1))])
    else if |s.queue| == PIPE_SIZE then s
    else
      var n := Min(remaining, PIPE_SIZE - |s.queue|);
      var chunk := c.buf[c.total..c.total + n];
      s.(queue := s.queue + chunk, sent := s.sent + Tag(i, chunk), writes := s.writes[i := c.(total := c.total + n)])
  }

  ghost function Step(s: State, e: Event): State
    requires Inv(s)
  {
    match e
    case OpenRead(count) => s.(readCalls := s.readCalls + [NewRead(count)])
    case OpenWrite(buf) => s.(writes := s.writes + [NewWrite(buf)])
    case StepRead(i) => if i < |s.readCalls| && s.readCalls[i].result.None? then ReadIteration(s, i) else s
    case StepWrite(i) => if i < |s.writes| && s.writes[i].result.None? then WriteIteration(s, i) else s
    case CloseReader => s.(readerClosed := true)
    case CloseWriter => s.(writerClosed := true)
  }

  /** What a finished read reports; a short one needs a closed writer. */
  ghost predicate ReadOk(c: ReadCall, writerClosed: bool) {
    && |c.got| <= c.count && (c.count == 0 ==> c.result.Some?)
    && (c.result.Some? ==> c.result.value == if c.count == 0 then -1 else |c.got|)
    && (c.result.Some? && 0 < c.count < TWO63 && |c.got| < c.count ==> writerClosed)
  }

  /** What a finished write reports, -1 if it wrote nothing it should have; a short one needs a
      closed reader. */
  ghost predicate WriteOk(c: WriteCall, readerClosed: bool) {
    && c.total <= Low32(|c.buf|) && (c.buf == [] ==> c.result.Some?)
    && (c.result.Some? ==> c.result.value == if c.buf == [] || c.total == 0 < Low32(|c.buf|) then -1 else c.total)
    && (c.result.Some? && c.buf != [] && (c.total < Low32(|c.buf|) || c.result.value < 0) ==> readerClosed)
  }

  /** Bytes come out in the order they went in, and every call reports what it moved. */
  ghost predicate Inv(s: State) {
    && Conserved(s.queue, s.sent, s.received, s.writes, s.readCalls) && |s.queue| <= PIPE_SIZE
    && (forall i :: 0 <= i < |s.readCalls| ==> ReadOk(s.readCalls[i], s.writerClosed))
    && (forall i :: 0 <= i < |s.writes| ==> WriteOk(s.writes[i], s.readerClosed))
  }

  lemma {:induction false} ReadKeeps(s: State, i: nat)
    requires Inv(s) && i < |s.readCalls| && s.readCalls[i].result.None?
    ensures Inv(ReadIteration(s, i))
  {
    var c := s.readCalls[i];
    ReportConserves(s.queue, s.sent, s.received, s.writes, s.readCalls, i, Some(|c.got|));
    DeliverConserves(s.queue, s.sent, s.received, s.writes, s.readCalls, i, Min(Low32(c.count - |c.got|), |s.queue|));
  }

  lemma {:induction false} WriteKeeps(s: State, i: nat)
    requires Inv(s) && i < |s.writes| && s.writes[i].result.None?
    ensures Inv(WriteIteration(s, i))
  {
    var c := s.writes[i];
    var remaining := Low32(|c.buf|) - c.total;
    if remaining == 0 || s.readerClosed {
      ReportConserves(s.queue, s.sent, s.received, s.writes, s.readCalls, i,
                      Some(if c.total > 0 || remaining == 0 then c.total else -1));
    } else {
      AcceptConserves(s.queue, s.sent, s.received, s.writes, s.readCalls, i, Min(remaining, PIPE_SIZE - |s.queue|));
    }
  }

  lemma {:induction false} StepKeeps(s: State, e: Event)
    requires Inv(s)
    ensures Inv(Step(s, e))
  {
    match e
    case OpenRead(count) => OpenReadConserves(s.queue, s.sent, s.received, s.writes, s.readCalls, NewRead(count));
    case OpenWrite(buf) => OpenWriteConserves(s.queue, s.sent, s.received, s.writes, s.readCalls, NewWrite(buf));
    case StepRead(i) => if i < |s.readCalls| && s.readCalls[i].result.None? { ReadKeeps(s, i); }
    case StepWrite(i) => if i < |s.writes| && s.writes[i].result.None? { WriteKeeps(s, i); }
    case CloseReader =>
    case CloseWriter =>
  }

  /** After any interleaving of calls, iterations and closes. */
  ghost function RunFrom(s: State, es: seq<Event>): (t: State)
    requires Inv(s)
    ensures Inv(t)
    decreases es
  {
    if es == [] then s
    else
      StepKeeps(s, es[0]);
      RunFrom(Step(s, es[0]), es[1..])
  }

  lemma {:induction false} RunStep(s: State, e: Event, es: seq<Event>)
    requires Inv(s)
    ensures Inv(Step(s, e)) && RunFrom(s, [e] + es) == RunFrom(Step(s, e), es)
  {
    StepKeeps(s, e);
    assert ([e] + es)[1..] == es;
  }

  lemma {:induction false} TwoSteps(s: State, e: Event, f: Event)
    requires Inv(s)
    ensures Inv(Step(s, e)) && RunFrom(s, [e, f]) == Step(Step(s, e), f)
  {
    RunStep(s, e, [f]);
    RunStep(Step(s, e), f, []);
    assert [e] + [f] == [e, f] && [f] + [] == [f];
  }

  /** One turn of a write appends as many of its next bytes as there is room for in 4096, if the
      reader is open; otherwise it ends. */
  lemma {:induction false} WriteTurn(s: State, i: nat)
    requires Inv(s) && i < |s.writes| && s.writes[i].result.None?
    ensures var t, c := Step(s, StepWrite(i)), s.writes[i];
      var left := |c.buf| % 0x1_0000_0000 - c.total;
      && t.readCalls == s.readCalls && 0 <= left
      && (left > 0 && !s.readerClosed ==>
        var n := Min(left, 4096 - |s.queue|);
        t.queue == s.queue + c.buf[c.total..c.total + n] && t.writes == s.writes[i := c.(total := c.total + n)])
      && (left == 0 || s.readerClosed ==>
        t.queue == s.queue && t.writes == s.writes[i := c.(result := Some(if left > 0 && c.total == 0 then -1 else c.total))])
  {
    var c := s.writes[i];
    if |s.queue| == PIPE_SIZE {
      assert s.queue + c.buf[c.total..c.total] == s.queue;
    }
  }

  /** One turn of a read takes as many of the oldest bytes as it may, or ends if it has all or the
      writer is closed and the pipe empty. */
  lemma {:induction false} ReadTurn(s: State, i: nat)
    requires Inv(s) && i < |s.readCalls| && s.readCalls[i].result.None? && s.readCalls[i].count < TWO63
    ensures var t, c := Step(s, StepRead(i)), s.readCalls[i];
      && t.writes == s.writes && t.writerClosed == s.writerClosed
      && (|c.got| < c.count && s.queue != [] ==>
        var n := Min((c.count - |c.got|) % 0x1_0000_0000, |s.queue|);
        t.queue == s.queue[n..] && t.readCalls == s.readCalls[i := c.(got := c.got + s.queue[..n])])
      && (|c.got| == c.count || (s.queue == [] && s.writerClosed) ==>
        t.queue == s.queue && t.readCalls == s.readCalls[i := c.(result := Some(|c.got|))])
      && (|c.got| < c.count && s.queue == [] && !s.writerClosed ==> t == s)
  {
  }

  /** Once the writer has closed, a read of less than 2^32 bytes ends in two turns, with as many of
      the oldest bytes as it asks for and the pipe holds. */
  lemma {:induction false} ReadAfterClose(s: State, i: nat)
    requires Inv(s) && i < |s.readCalls| && s.readCalls[i].result.None? && s.readCalls[i].count < TWO32
    ensures var t, c := RunFrom(s, [CloseWriter, StepRead(i), StepRead(i)]), s.readCalls[i];
      var n := Min(c.count - |c.got|, |s.queue|);
      && t.queue == s.queue[n..]
      && t.readCalls == s.readCalls[i := ReadCall(c.count, c.got + s.queue[..n], Some(|c.got| + n))]
  {
    RunStep(s, CloseWriter, [StepRead(i), StepRead(i)]);
    assert [CloseWriter] + [StepRead(i), StepRead(i)] == [CloseWriter, StepRead(i), StepRead(i)];
    TwoTurns(Step(s, CloseWriter), i);
  }

  lemma {:induction false} TwoTurns(s: State, i: nat)
    requires Inv(s) && s.writerClosed
    requires i < |s.readCalls| && s.readCalls[i].result.None? && s.readCalls[i].count < TWO32
    ensures var t, c := RunFrom(s, [StepRead(i), StepRead(i)]), s.readCalls[i];
      var n := Min(c.count - |c.got|, |s.queue|);
      && t.queue == s.queue[n..]
      && t.readCalls == s.readCalls[i := ReadCall(c.count, c.got + s.queue[..n], Some(|c.got| + n))]
  {
    var a, c := Step(s, StepRead(i)), s.readCalls[i];
    TwoSteps(s, StepRead(i), StepRead(i));
    ReadTurn(s, i);
    if |c.got| == c.count || s.queue == [] {
      assert s.queue[0..] == s.queue && c.got + s.queue[..0] == c.got;
    } else {
      ReadTurn(a, i);
    }
  }

  /** Once the reader has closed, a write ends in one turn. */
  lemma {:induction false} WriteAfterClose(s: State, i: nat)
    requires Inv(s) && i < |s.writes| && s.writes[i].result.None?
    ensures var t, c := RunFrom(s, [CloseReader, StepWrite(i)]), s.writes[i];
      && t.queue == s.queue
      && t.writes == s.writes[i := c.(result := Some(if c.total == 0 < |c.buf| % 0x1_0000_0000 then -1 else c.total))]
  {
    TwoSteps(s, CloseReader, StepWrite(i));
    WriteTurn(Step(s, CloseReader), i);
  }

  lemma {:induction false} RunConcat(s: State, xs: seq<Event>, ys: seq<Event>)
    requires Inv(s)
    ensures RunFrom(s, xs + ys) == RunFrom(RunFrom(s, xs), ys)
    decreases xs
  {
    if xs == [] {
      assert xs + ys == ys;
    } else {
      RunStep(s, xs[0], xs[1..]);
      RunStep(s, xs[0], xs[1..] + ys);
      assert xs == [xs[0]] + xs[1..] && xs + ys == [xs[0]] + (xs[1..] + ys);
      RunConcat(Step(s, xs[0]), xs[1..], ys);
    }
  }

  /** A write that finds room for all that is left is over in two turns. */
  lemma {:induction false} WriteFits(s: State, i: nat)
    requires Inv(s) && i < |s.writes| && s.writes[i].result.None? && !s.readerClosed
    requires 0 < |s.writes[i].buf| - s.writes[i].total <= 4096 - |s.queue| && |s.writes[i].buf| < TWO32
    ensures var t, c := RunFrom(s, [StepWrite(i), StepWrite(i)]), s.writes[i];
      && t.queue == s.queue + c.buf[c.total..] && t.readCalls == s.readCalls
      && t.writes == s.writes[i := WriteCall(c.buf, |c.buf|, Some(|c.buf|))]
  {
    var c := s.writes[i];
    TwoSteps(s, StepWrite(i), StepWrite(i));
    WriteTurn(s, i);
    assert c.buf[c.total..|c.buf|] == c.buf[c.total..];
    WriteTurn(Step(s, StepWrite(i)), i);
  }

  lemma {:induction false} WrittenFrom(s: State, buf: seq<byte>)
    requires Inv(s) && s.queue == [] && s.readCalls == [] && !s.readerClosed && s.writes == [WriteCall(buf, 0, None)]
    requires 0 < |buf| <= 4096
    ensures var t := RunFrom(s, [StepWrite(0), StepWrite(0)]);
      t.queue == buf && t.readCalls == [] && t.writes == [WriteCall(buf, |buf|, Some(|buf|))]
  {
    WriteFits(s, 0);
    assert [] + buf[0..] == buf;
  }

  /** A write into an empty pipe is over in two turns if it fits. */
  lemma {:induction false} Written(s: State, buf: seq<byte>)
    requires Inv(s) && s == State([], false, false, [], [], [], []) && 0 < |buf| <= 4096
    ensures var t := RunFrom(s, [OpenWrite(buf)] + [StepWrite(0), StepWrite(0)]);
      t.queue == buf && t.readCalls == [] && t.writes == [WriteCall(buf, |buf|, Some(|buf|))]
  {
    RunStep(s, OpenWrite(buf), [StepWrite(0), StepWrite(0)]);
    WrittenFrom(Step(s, OpenWrite(buf)), buf);
  }

  /** A call that starts is refused exactly for a count of 0. */
  lemma {:induction false} OpenedRead(s: State, es: seq<Event>, count: nat)
    requires Inv(s)
    ensures var t, u := RunFrom(s, es), RunFrom(s, es + [OpenRead(count)]);
      u.queue == t.queue && u.readCalls == t.readCalls + [ReadCall(count, [], if count == 0 then Some(-1) else None)]
  {
    RunConcat(s, es, [OpenRead(count)]);
    RunStep(RunFrom(s, es), OpenRead(count), []);
    assert [OpenRead(count)] + [] == [OpenRead(count)];
  }

  lemma {:induction false} GetsAll(s: State, count: nat)
    requires Inv(s) && s.readCalls == [ReadCall(count, [], None)] && |s.queue| <= count < TWO32
    ensures var t := RunFrom(s, [CloseWriter, StepRead(0), StepRead(0)]);
      t.queue == [] && t.readCalls == [ReadCall(count, s.queue, Some(|s.queue|))]
  {
    ReadAfterClose(s, 0);
    assert [] + s.queue[..|s.queue|] == s.queue;
  }

  /** What a run leaves in the pipe is what the first read gets. */
  lemma {:induction false} GetsLeft(s: State, es: seq<Event>, last: seq<Event>, count: nat)
    requires Inv(s) && RunFrom(s, es).readCalls == [] && 0 < count < TWO32 && |RunFrom(s, es).queue| <= count
    requires last == [CloseWriter, StepRead(0), StepRead(0)]
    ensures var left := RunFrom(s, es).queue;
      var t := RunFrom(s, es + [OpenRead(count)] + last);
      t.queue == [] && t.readCalls == [ReadCall(count, left, Some(|left|))]
  {
    OpenedRead(s, es, count);
    RunConcat(s, es + [OpenRead(count)], last);
    GetsAll(RunFrom(s, es + [OpenRead(count)]), count);
  }

  /** What is written into an empty pipe and fits is what is read from it. */
  lemma {:induction false} Passes(s: State, buf: seq<byte>, count: nat)
    requires Inv(s) && s == State([], false, false, [], [], [], [])
    requires 0 < |buf| <= 4096 && |buf| <= count < TWO32
    ensures var t := RunFrom(s, [OpenWrite(buf)] + [StepWrite(0), StepWrite(0)] + [OpenRead(count)]
                             + [CloseWriter, StepRead(0), StepRead(0)]);
      t.queue == [] && t.readCalls == [ReadCall(count, buf, Some(|buf|))]
  {
    Written(s, buf);
    GetsLeft(s, [OpenWrite(buf)] + [StepWrite(0), StepWrite(0)], [CloseWriter, StepRead(0), StepRead(0)], count);
  }

  /** A read that ends short found the writer closed and the pipe empty. */
  lemma {:induction false} ShortRead(s: State, i: nat)
    requires Inv(s) && i < |s.readCalls| && s.readCalls[i].result.None? && s.readCalls[i].count < TWO63
    ensures var c := ReadIteration(s, i).readCalls[i];
      c.result.Some? && |c.got| < c.count ==> s.writerClosed && Untag(s.received) == Untag(s.sent)
  {
    assert s.queue == [] ==> Untag(s.received) + s.queue == Untag(s.received);
  }

  /** A read of 2^63 bytes or more ends at once with nothing, whatever is queued. */
  lemma {:induction false} HugeReadEnds(s: State, i: nat)
    requires Inv(s) && i < |s.readCalls| && s.readCalls[i] == NewRead(s.readCalls[i].count) && s.readCalls[i].count > 0
    requires s.queue != []
    ensures ReadIteration(s, i).readCalls[i].result == Some(0) <==> s.readCalls[i].count >= TWO63
  {
  }

  /** A turn with bytes queued takes some, exactly if the missing count is no multiple of 2^32. */
  lemma {:induction false} TurnTakes(s: State, i: nat)
    requires Inv(s) && i < |s.readCalls| && s.queue != []
    requires |s.readCalls[i].got| < s.readCalls[i].count < TWO63
    ensures |ReadIteration(s, i).queue| < |s.queue| <==> (s.readCalls[i].count - |s.readCalls[i].got|) % TWO32 != 0
    ensures (s.readCalls[i].count - |s.readCalls[i].got|) % TWO32 == 0 ==> ReadIteration(s, i).readCalls == s.readCalls
  {
    var c := s.readCalls[i];
    if Low32(c.count - |c.got|) == 0 {
      assert c.got + s.queue[..0] == c.got;
    }
  }

  /** After any run a write that is over, with the reader open, has written the low 32 bits of its
      length, and so all of it exactly below 2^32 bytes. */
  lemma {:induction false} WholeWrite(s: State, i: nat)
    requires Inv(s) && !s.readerClosed && i < |s.writes| && s.writes[i].buf != [] && s.writes[i].result.Some?
    ensures s.writes[i].result.value == s.writes[i].total == Low32(|s.writes[i].buf|)
    ensures s.writes[i].total == |s.writes[i].buf| <==> |s.writes[i].buf| < TWO32
  {
    assert WriteOk(s.writes[i], false);
  }

  class PipeObject {
    const ring: Ring
    var readerClosed: bool
    var writerClosed: bool
    /** Local state of the calls made so far. */
    var readCalls: seq<ReadCall>
    var writes: seq<WriteCall>
    ghost var sent: seq<Tagged>
    ghost var received: seq<Tagged>

    ghost function Abstract(): State
      reads this, ring
    {
      State(ring.contents, readerClosed, writerClosed, readCalls, writes, sent, received)
    }

    ghost predicate RingOk()
      reads this, ring, ring.data
    {
      ring.Valid() && ring.data.Length == PIPE_SIZE
    }

    ghost predicate Valid()
      reads this, ring, ring.data
    {
      RingOk() && Inv(Abstract())
    }

    /** fifo_create. */
    constructor ()
      ensures Valid() && fresh(ring) && fresh(ring.data) && ring.data.Length == 4096
      ensures Abstract() == State([], false, false, [], [], [], [])
    {
      ring := new Ring(PIPE_SIZE);
      readerClosed, writerClosed, readCalls, writes, sent, received := false, false, [], [], [], [];
    }

    /** One iteration of the loop of fifo_read. */
    method IterateRead(i: nat)
      requires RingOk() && i < |readCalls| && |readCalls[i].got| <= readCalls[i].count
      modifies this`readCalls, this`received, ring
      ensures RingOk() && Abstract() == ReadIteration(old(Abstract()), i)
    {
      var c := readCalls[i];
      if c.count >= TWO63 || |c.got| >= c.count {
        readCalls := readCalls[i := c.(result := Some(|c.got|))];
      } else if ring.bytes == 0 {
        if writerClosed {
          readCalls := readCalls[i := c.(result := Some(|c.got|))];
        }
      } else {
        var out := ring.Take(Low32(c.count - |c.got|));
        readCalls := readCalls[i := c.(got := c.got + out)];
        received := received + Tag(i, out);
      }
    }

    /** One iteration of the loop of fifo_write. */
    method IterateWrite(i: nat)
      requires RingOk() && i < |writes| && writes[i].total <= Low32(|writes[i].buf|)
      modifies this`writes, this`sent, ring, ring.data
      ensures RingOk() && Abstract() == WriteIteration(old(Abstract()), i)
    {
      var c := writes[i];
      var remaining := Low32(|c.buf|) - c.total;
      if remaining == 0 {
        writes := writes[i := c.(result := Some(c.total))];
      } else if readerClosed {
        writes := writes[i := c.(result := Some(if c.total > 0 then c.total else -1))];
      } else if ring.bytes < PIPE_SIZE {
        var src := c.buf[c.total..c.total + remaining];
        var n := ring.Put(src);
        FrontOfSlice(c.buf, c.total, c.total + remaining, n);
        writes := writes[i := c.(total := c.total + n)];
        sent := sent + Tag(i, c.buf[c.total..c.total + n]);
      }
    }

    method Do(e: Event)
      requires Valid()
      modifies this, ring, ring.data
      ensures Valid() && Abstract() == Step(old(Abstract()), e)
    {
      StepKeeps(Abstract(), e);
      match e {
        case OpenRead(count) => { readCalls := readCalls + [NewRead(count)]; }
        case OpenWrite(buf) => { writes := writes + [NewWrite(buf)]; }
        case StepRead(i) => {
          if i < |readCalls| && readCalls[i].result.None? {
            IterateRead(i);
          }
        }
        case StepWrite(i) => {
          if i < |writes| && writes[i].result.None? {
            IterateWrite(i);
          }
        }
        case CloseReader => { readerClosed := true; }
        case CloseWriter => { writerClosed := true; }
      }
    }

    /** Every interleaving on the ring is the same interleaving on the queue. */
    method Run(es: seq<Event>)
      requires Valid()
      modifies this, ring, ring.data
      ensures Valid() && Abstract() == RunFrom(old(Abstract()), es)
    {
      var k := 0;
      while k < |es|
        invariant 0 <= k <= |es| && Valid() && RunFrom(Abstract(), es[k..]) == RunFrom(old(Abstract()), es)
      {
        assert es[k..][1..] == es[k + 1..];
        Do(es[k]);
        k := k + 1;
      }
    }
  }
}
