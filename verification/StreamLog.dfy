/** Bytes tagged with the call that moved them, and the byte channel that keeps two such logs. */
module StreamLog {
  import opened Bytes
  import opened Common
  import opened ByteRing

  datatype Tagged = Tagged(call: nat, b: byte)

  ghost function Tag(call: nat, bs: seq<byte>): seq<Tagged> {
    seq(|bs|, i requires 0 <= i < |bs| => Tagged(call, bs[i]))
  }

  ghost function Untag(log: seq<Tagged>): seq<byte> {
    seq(|log|, i requires 0 <= i < |log| => log[i].b)
  }

  lemma {:induction false} UntagTag(log: seq<Tagged>, call: nat, bs: seq<byte>)
    ensures Untag(log + Tag(call, bs)) == Untag(log) + bs
  {
  }

  /** The bytes one call moved, in order. */
  ghost function Pick(log: seq<Tagged>, call: nat): seq<byte> {
    if log == [] then []
    else
      var last := log[|log| - 1];
      Pick(log[..|log| - 1], call) + if last.call == call then [last.b] else []
  }

  lemma {:induction false} PickTag(log: seq<Tagged>, c: nat, bs: seq<byte>, call: nat)
    ensures Pick(log + Tag(c, bs), call) == Pick(log, call) + if c == call then bs else []
    decreases |bs|
  {
    if bs == [] {
      assert log + Tag(c, bs) == log;
    } else {
      var n := |bs| - 1;
      assert (log + Tag(c, bs))[..|log| + n] == log + Tag(c, bs[..n]);
      PickTag(log, c, bs[..n], call);
      assert bs == bs[..n] + [bs[n]];
    }
  }

  /** The log is a merge of the parts, one part a call. */
  ghost predicate Merges(log: seq<Tagged>, parts: seq<seq<byte>>) {
    && (forall k :: 0 <= k < |log| ==> log[k].call < |parts|)
    && (forall i :: 0 <= i < |parts| ==> Pick(log, i) == parts[i])
  }

  lemma {:induction false} MergesGrow(log: seq<Tagged>, parts: seq<seq<byte>>, c: nat, bs: seq<byte>)
    requires Merges(log, parts) && c < |parts|
    ensures Merges(log + Tag(c, bs), parts[c := parts[c] + bs])
  {
    forall i | 0 <= i < |parts| ensures Pick(log + Tag(c, bs), i) == parts[c := parts[c] + bs][i] {
      PickTag(log, c, bs, i);
    }
  }

  lemma {:induction false} PickNone(log: seq<Tagged>, call: nat)
    requires forall k :: 0 <= k < |log| ==> log[k].call != call
    ensures Pick(log, call) == []
    decreases |log|
  {
    if log != [] {
      PickNone(log[..|log| - 1], call);
    }
  }

  lemma {:induction false} MergesOpen(log: seq<Tagged>, parts: seq<seq<byte>>)
    requires Merges(log, parts)
    ensures Merges(log, parts + [[]])
  {
    PickNone(log, |parts|);
  }

  lemma {:induction false} FrontOfSlice(b: seq<byte>, i: nat, j: nat, n: nat)
    requires i <= j <= |b| && n <= j - i
    ensures b[i..j][..n] == b[i..i + n]
  {
  }

  // ------------------------------------------------------------------ calls

  /** A 32-bit cast. */
  function Low32(x: nat): (r: nat)
    ensures r <= x && r < TWO32 && (x < TWO32 ==> r == x)
  {
    x % TWO32
  }

  /** A read call in progress, or over once it has a result. */
  datatype ReadCall = ReadCall(count: nat, got: seq<byte>, result: Option<int>)

  /** A write call: how many bytes of its buffer are in the pipe. */
  datatype WriteCall = WriteCall(buf: seq<byte>, total: nat, result: Option<int>)

  ghost function Gots(readCalls: seq<ReadCall>): seq<seq<byte>> {
    seq(|readCalls|, i requires 0 <= i < |readCalls| => readCalls[i].got)
  }

  ghost function Puts(writeCalls: seq<WriteCall>): seq<seq<byte>>
    requires forall i :: 0 <= i < |writeCalls| ==> writeCalls[i].total <= |writeCalls[i].buf|
  {
    seq(|writeCalls|, i requires 0 <= i < |writeCalls| => writeCalls[i].buf[..writeCalls[i].total])
  }

  lemma {:induction false} PutsGrow(log: seq<Tagged>, calls: seq<WriteCall>, i: nat, n: nat)
    requires i < |calls| && forall j :: 0 <= j < |calls| ==> calls[j].total <= |calls[j].buf|
    requires calls[i].total + n <= |calls[i].buf| && Merges(log, Puts(calls))
    ensures var c := calls[i];
      Merges(log + Tag(i, c.buf[c.total..c.total + n]), Puts(calls[i := c.(total := c.total + n)]))
  {
    var c := calls[i];
    var chunk := c.buf[c.total..c.total + n];
    MergesGrow(log, Puts(calls), i, chunk);
    assert c.buf[..c.total] + chunk == c.buf[..c.total + n];
    assert Puts(calls[i := c.(total := c.total + n)]) == Puts(calls)[i := Puts(calls)[i] + chunk];
  }

  lemma {:induction false} GotsGrow(log: seq<Tagged>, calls: seq<ReadCall>, i: nat, out: seq<byte>)
    requires i < |calls| && Merges(log, Gots(calls))
    ensures Merges(log + Tag(i, out), Gots(calls[i := calls[i].(got := calls[i].got + out)]))
  {
    MergesGrow(log, Gots(calls), i, out);
    assert Gots(calls[i := calls[i].(got := calls[i].got + out)]) == Gots(calls)[i := calls[i].got + out];
  }

  /** Every byte handed out or still queued was accepted, in the same order; each call's bytes keep
      their own order. */
  ghost predicate Conserved(queue: seq<byte>, sent: seq<Tagged>, received: seq<Tagged>,
                            writes: seq<WriteCall>, readCalls: seq<ReadCall>)
  {
    && (forall i :: 0 <= i < |writes| ==> writes[i].total <= |writes[i].buf|)
    && Untag(received) + queue == Untag(sent)
    && Merges(received, Gots(readCalls)) && Merges(sent, Puts(writes))
  }

  lemma {:induction false} AcceptConserves(queue: seq<byte>, sent: seq<Tagged>, received: seq<Tagged>,
                                           writes: seq<WriteCall>, readCalls: seq<ReadCall>, i: nat, n: nat)
    requires Conserved(queue, sent, received, writes, readCalls)
    requires i < |writes| && writes[i].total + n <= |writes[i].buf|
    ensures var c := writes[i];
      var chunk := c.buf[c.total..c.total + n];
      Conserved(queue + chunk, sent + Tag(i, chunk), received, writes[i := c.(total := c.total + n)], readCalls)
  {
    var c := writes[i];
    var chunk := c.buf[c.total..c.total + n];
    UntagTag(sent, i, chunk);
    assert Untag(received) + (queue + chunk) == (Untag(received) + queue) + chunk;
    PutsGrow(sent, writes, i, n);
  }

  lemma {:induction false} DeliverConserves(queue: seq<byte>, sent: seq<Tagged>, received: seq<Tagged>,
                                            writes: seq<WriteCall>, readCalls: seq<ReadCall>, i: nat, n: nat)
    requires Conserved(queue, sent, received, writes, readCalls) && i < |readCalls| && n <= |queue|
    ensures var c := readCalls[i];
      Conserved(queue[n..], sent, received + Tag(i, queue[..n]), writes,
                readCalls[i := c.(got := c.got + queue[..n])])
  {
    UntagTag(received, i, queue[..n]);
    assert Untag(received) + queue == (Untag(received) + queue[..n]) + queue[n..];
    GotsGrow(received, readCalls, i, queue[..n]);
  }

  lemma {:induction false} OpenReadConserves(queue: seq<byte>, sent: seq<Tagged>, received: seq<Tagged>,
                                             writes: seq<WriteCall>, readCalls: seq<ReadCall>, c: ReadCall)
    requires Conserved(queue, sent, received, writes, readCalls) && c.got == []
    ensures Conserved(queue, sent, received, writes, readCalls + [c])
  {
    MergesOpen(received, Gots(readCalls));
    assert Gots(readCalls + [c]) == Gots(readCalls) + [[]];
  }

  lemma {:induction false} OpenWriteConserves(queue: seq<byte>, sent: seq<Tagged>, received: seq<Tagged>,
                                              writes: seq<WriteCall>, readCalls: seq<ReadCall>, c: WriteCall)
    requires Conserved(queue, sent, received, writes, readCalls) && c.total == 0
    ensures Conserved(queue, sent, received, writes + [c], readCalls)
  {
    MergesOpen(sent, Puts(writes));
    assert Puts(writes + [c]) == Puts(writes) + [[]];
  }

  /** Reporting a result moves no byte. */
  lemma {:induction false} ReportConserves(queue: seq<byte>, sent: seq<Tagged>, received: seq<Tagged>,
                                           writes: seq<WriteCall>, readCalls: seq<ReadCall>, i: nat, r: Option<int>)
    requires Conserved(queue, sent, received, writes, readCalls)
    ensures i < |readCalls| ==> Conserved(queue, sent, received, writes, readCalls[i := readCalls[i].(result := r)])
    ensures i < |writes| ==> Conserved(queue, sent, received, writes[i := writes[i].(result := r)], readCalls)
  {
    if i < |readCalls| {
      assert Gots(readCalls[i := readCalls[i].(result := r)]) == Gots(readCalls);
    }
    if i < |writes| {
      assert Puts(writes[i := writes[i].(result := r)]) == Puts(writes);
    }
  }
}
