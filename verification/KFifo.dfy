/** kernel/api/kapi_kfifo.c: a byte queue with free-running 32-bit counters, and the buffer sizes
    for which it is one. */
module KFifo {
  import opened Bits
  import opened Bytes
  import opened Common

  /** The three fields the code updates; the size is the length of the buffer. */
  datatype Fifo = Fifo(buffer: seq<byte>, head: nat, tail: nat)

  /** 32-bit wrap-around of a sum or difference of two counters. */
  function Wrap32(x: int): (r: nat)
    requires -0x1_0000_0000 <= x < 0x2_0000_0000
    ensures r < TWO32 && r == x % TWO32
  {
    if x < 0 then x + TWO32 else if x < TWO32 then x else x - TWO32
  }

  function Used(s: Fifo): nat
    requires s.head < TWO32 && s.tail < TWO32
  {
    Wrap32(s.head - s.tail)
  }

  ghost predicate Ok(s: Fifo) {
    0 < |s.buffer| < TWO32 && s.head < TWO32 && s.tail < TWO32 && Used(s) <= |s.buffer|
  }

  lemma {:induction false} AndBound(a: nat, b: nat)
    ensures And(a, b) <= b
  {
    if a != 0 && b != 0 {
      AndBound(a / 2, b / 2);
    }
  }

  /** The buffer offset of a counter. */
  function Offset(size: nat, counter: nat): (r: nat)
    requires size > 0
    ensures r < size
  {
    AndBound(counter, size - 1);
    And(counter, size - 1)
  }

  function Around(size: nat, p: nat): nat {
    if p < size then p else p - size
  }

  /** How far a buffer index lies after an offset, going around the end. */
  function Distance(size: nat, off: nat, j: nat): nat
    requires off < size
  {
    if j >= off then j - off else j + size - off
  }

  /** The buffer after `src` is written from an offset on, around the end. */
  function Stored(b: seq<byte>, off: nat, src: seq<byte>): (r: seq<byte>)
    requires off < |b| && |src| <= |b|
    ensures |r| == |b|
  {
    seq(|b|, j requires 0 <= j < |b| => if Distance(|b|, off, j) < |src| then src[Distance(|b|, off, j)] else b[j])
  }

  /** The `n` bytes from an offset on, around the end. */
  function Window(b: seq<byte>, off: nat, n: nat): (r: seq<byte>)
    requires off < |b| && n <= |b|
    ensures |r| == n
  {
    seq(n, i requires 0 <= i < n => b[Around(|b|, off + i)])
  }

  function Accepted(s: Fifo, buf: seq<byte>): (n: nat)
    requires Ok(s)
    ensures n <= |buf| && n <= |s.buffer|
  {
    Min(|buf|, |s.buffer| - Used(s))
  }

  ghost function InStep(s: Fifo, buf: seq<byte>): Fifo
    requires Ok(s)
  {
    var n := Accepted(s, buf);
    Fifo(Stored(s.buffer, Offset(|s.buffer|, s.head), buf[..n]), Wrap32(s.head + n), s.tail)
  }

  ghost function Taken(s: Fifo, len: nat): seq<byte>
    requires Ok(s)
  {
    Window(s.buffer, Offset(|s.buffer|, s.tail), Min(len, Used(s)))
  }

  ghost function OutStep(s: Fifo, len: nat): Fifo
    requires Ok(s)
  {
    s.(tail := Wrap32(s.tail + Min(len, Used(s))))
  }

  /** What the buffer holds from the oldest byte on. */
  ghost function Contents(s: Fifo): seq<byte>
    requires Ok(s)
  {
    Window(s.buffer, Offset(|s.buffer|, s.tail), Used(s))
  }

  // ------------------------------------------------------------------ power-of-two sizes

  /** A window is what the two memcpy calls of a read copy. */
  lemma {:induction false} WindowSlices(b: seq<byte>, off: nat, n: nat)
    requires off < |b| && n <= |b|
    ensures Window(b, off, n) == if off + n > |b| then b[off..] + b[..n - (|b| - off)] else b[off..off + n]
  {
    var w := if off + n > |b| then b[off..] + b[..n - (|b| - off)] else b[off..off + n];
    forall i | 0 <= i < n ensures w[i] == b[Around(|b|, off + i)] {
    }
    assert Window(b, off, n) == w;
  }

  lemma {:induction false} WindowAppend(b: seq<byte>, off: nat, used: nat, src: seq<byte>)
    requires off < |b| && used + |src| <= |b| && Around(|b|, off + used) < |b|
    ensures Window(Stored(b, Around(|b|, off + used), src), off, used + |src|) == Window(b, off, used) + src
  {
    var at := Around(|b|, off + used);
    var c := Stored(b, at, src);
    forall i | 0 <= i < used + |src| ensures Window(c, off, used + |src|)[i] == (Window(b, off, used) + src)[i] {
      var j := Around(|b|, off + i);
      assert Distance(|b|, at, j) == if i < used then |b| - used + i else i - used;
    }
  }

  lemma {:induction false} WindowSplit(b: seq<byte>, off: nat, n: nat, used: nat)
    requires off < |b| && n <= used <= |b| && Around(|b|, off + n) < |b|
    ensures Window(b, off, used) == Window(b, off, n) + Window(b, Around(|b|, off + n), used - n)
  {
    forall i | n <= i < used ensures Window(b, off, used)[i] == Window(b, Around(|b|, off + n), used - n)[i - n] {
      assert Around(|b|, Around(|b|, off + n) + (i - n)) == Around(|b|, off + i);
    }
  }

  lemma {:induction false} Pow2Of32()
    ensures Pow2(32) == TWO32
  {
    assert Pow2(8) == 256;
    Pow2Sum(8, 8);
    Pow2Sum(16, 16);
  }

  /** Wrapping a counter at 2^32 does not disturb its offset. */
  lemma {:induction false} WrapKeepsLow(x: nat, k: nat)
    requires k <= 32 && x < 0x2_0000_0000
    ensures Low(Wrap32(x), k) == Low(x, k)
  {
    Pow2Of32();
    ShrIsDiv(x, 32);
    LowField(x, 32, 0, k);
  }

  lemma {:induction false} LowNext(x: nat, k: nat)
    ensures Low(x, k) < Pow2(k) && Low(x + 1, k) == Around(Pow2(k), Low(x, k) + 1)
  {
    if k > 0 {
      LowNext(x / 2, k - 1);
    }
  }

  lemma {:induction false} LowAdvance(x: nat, n: nat, k: nat)
    requires n <= Pow2(k)
    ensures Low(x, k) < Pow2(k) && Low(x + n, k) == Around(Pow2(k), Low(x, k) + n)
    decreases n
  {
    LowNext(x, k);
    if n > 0 {
      LowAdvance(x, n - 1, k);
      LowNext(x + n - 1, k);
    }
  }

  lemma {:induction false} OffsetAdvance(size: nat, k: nat, x: nat, n: nat)
    requires size == Pow2(k) < TWO32 && k <= 31 && n <= size && x < TWO32
    ensures Offset(size, Wrap32(x + n)) == Around(size, Offset(size, x) + n)
  {
    AndMask(x, k);
    AndMask(Wrap32(x + n), k);
    WrapKeepsLow(x + n, k);
    LowAdvance(x, n, k);
  }

  lemma UsedAdvance(s: Fifo, n: nat)
    requires Ok(s)
    ensures n <= |s.buffer| - Used(s) ==> Wrap32(Wrap32(s.head + n) - s.tail) == Used(s) + n
    ensures n <= Used(s) ==> Wrap32(s.head - Wrap32(s.tail + n)) == Used(s) - n
    ensures s.head == Wrap32(s.tail + Used(s))
  {
  }

  /** kapi_kfifo_in appends what fits, in order. */
  lemma {:induction false} InAppends(s: Fifo, k: nat, buf: seq<byte>)
    requires Ok(s) && |s.buffer| == Pow2(k) && k <= 31
    ensures Ok(InStep(s, buf)) && Contents(InStep(s, buf)) == Contents(s) + buf[..Accepted(s, buf)]
    ensures Accepted(s, buf) == if |Contents(s)| + |buf| <= |s.buffer| then |buf| else |s.buffer| - |Contents(s)|
  {
    var n := Accepted(s, buf);
    UsedAdvance(s, n);
    OffsetAdvance(|s.buffer|, k, s.tail, Used(s));
    WindowAppend(s.buffer, Offset(|s.buffer|, s.tail), Used(s), buf[..n]);
  }

  /** kapi_kfifo_out removes the oldest bytes, in order. */
  lemma {:induction false} OutRemoves(s: Fifo, k: nat, len: nat)
    requires Ok(s) && |s.buffer| == Pow2(k) && k <= 31
    ensures Ok(OutStep(s, len)) && Contents(s) == Taken(s, len) + Contents(OutStep(s, len))
    ensures |Taken(s, len)| == if len <= |Contents(s)| then len else |Contents(s)|
  {
    var n := Min(len, Used(s));
    UsedAdvance(s, n);
    OffsetAdvance(|s.buffer|, k, s.tail, n);
    WindowSplit(s.buffer, Offset(|s.buffer|, s.tail), n, Used(s));
  }

  // ------------------------------------------------------------------ whole runs

  datatype Op = In(buf: seq<byte>) | Out(len: nat) | Reset

  ghost function Step(s: Fifo, op: Op): Fifo
    requires Ok(s)
  {
    match op
    case In(buf) => InStep(s, buf)
    case Out(len) => OutStep(s, len)
    case Reset => s.(head := 0, tail := 0)
  }

  /** A bounded byte queue, and the bytes it has put out. */
  datatype Queue = Queue(items: seq<byte>, output: seq<byte>)

  ghost function QueueStep(q: Queue, size: nat, op: Op): Queue
    requires |q.items| <= size
    ensures |QueueStep(q, size, op).items| <= size
  {
    match op
    case In(buf) => q.(items := q.items + buf[..Min(|buf|, size - |q.items|)])
    case Out(len) => Queue(q.items[Min(len, |q.items|)..], q.output + q.items[..Min(len, |q.items|)])
    case Reset => q.(items := [])
  }

  ghost function QueueRun(q: Queue, size: nat, ops: seq<Op>): Queue
    requires |q.items| <= size
    decreases ops
  {
    if ops == [] then q else QueueRun(QueueStep(q, size, ops[0]), size, ops[1..])
  }

  /** What goes into an empty queue and fits comes out. */
  lemma {:induction false} QueuePasses(size: nat, buf: seq<byte>, len: nat)
    requires |buf| <= size && |buf| <= len
    ensures QueueRun(Queue([], []), size, [In(buf), Out(len)]) == Queue([], buf)
  {
    var ops := [In(buf), Out(len)];
    var q := QueueStep(Queue([], []), size, In(buf));
    assert q.items == buf && q.output == [];
    var r := QueueStep(q, size, Out(len));
    assert r == Queue([], buf);
    assert ops[1..] == [Out(len)] && [Out(len)][1..] == [];
    assert QueueRun(q, size, [Out(len)]) == QueueRun(r, size, []);
  }

  /** One step of the counters is one step of the queue. */
  lemma {:induction false} StepRefines(s: Fifo, k: nat, op: Op, output: seq<byte>)
    requires Ok(s) && |s.buffer| == Pow2(k) && k <= 31
    ensures var t, q := Step(s, op), Queue(Contents(s), output);
      && Ok(t) && |t.buffer| == |s.buffer|
      && QueueStep(q, |s.buffer|, op)
         == Queue(Contents(t), output + if op.Out? then Taken(s, op.len) else [])
  {
    match op
    case In(buf) => InAppends(s, k, buf);
    case Out(len) =>
      OutRemoves(s, k, len);
      assert |Taken(s, len)| == Min(len, |Contents(s)|);
    case Reset =>
  }

  // ------------------------------------------------------------------ other sizes

  ghost function PushOne(s: Fifo, x: byte): (t: Fifo)
    requires Ok(s) && Used(s) < |s.buffer|
    ensures Ok(t) && |t.buffer| == |s.buffer| && t.tail == s.tail && Used(t) == Used(s) + 1
    ensures t.head == Wrap32(s.head + 1)
  {
    UsedAdvance(s, 1);
    InStep(s, [x])
  }

  /** Pushing `bs` one byte at a time. */
  ghost function PushEach(s: Fifo, bs: seq<byte>): (t: Fifo)
    requires Ok(s) && Used(s) + |bs| <= |s.buffer|
    ensures Ok(t) && |t.buffer| == |s.buffer| && t.tail == s.tail && Used(t) == Used(s) + |bs|
    ensures t.head == Wrap32(s.head + |bs|)
    decreases |bs|
  {
    if bs == [] then s else PushOne(PushEach(s, bs[..|bs| - 1]), bs[|bs| - 1])
  }

  /** A mask that is not one less than a power of two has a gap below its highest bit. */
  lemma {:induction false} GapInMask(mask: nat) returns (j: nat)
    requires mask >= 1 && forall k: nat :: mask + 1 != Pow2(k)
    ensures 1 <= j <= mask && And(j, mask) == 0
  {
    if mask % 2 == 0 {
      j := 1;
    } else {
      forall k: nat ensures mask / 2 + 1 != Pow2(k) {
        assert Pow2(k + 1) == 2 * Pow2(k);
      }
      assert Pow2(1) == 2;
      var i := GapInMask(mask / 2);
      j := 2 * i;
    }
  }

  /** A byte pushed where the oldest one lies comes out in its place. */
  lemma {:induction false} Overwrites(m: Fifo, x: byte)
    requires Ok(m) && Used(m) < |m.buffer| && Offset(|m.buffer|, m.head) == Offset(|m.buffer|, m.tail)
    ensures Taken(PushOne(m, x), 1) == [x]
  {
    var s, off := PushOne(m, x), Offset(|m.buffer|, m.tail);
    assert s.buffer[off] == x;
    assert Window(s.buffer, off, 1)[0] == s.buffer[Around(|s.buffer|, off + 0)];
  }

  /** Of any other size it is no queue: a byte pushed later comes out in place of the first one. */
  lemma {:induction false} OtherSizesLoseOrder(buffer: seq<byte>) returns (j: nat)
    requires 2 <= |buffer| < TWO32 && forall k: nat :: |buffer| != Pow2(k)
    ensures 1 <= j < |buffer|
    ensures var bs := seq(j, _ => 0 as byte) + [1 as byte];
      var s := PushEach(Fifo(buffer, 0, 0), bs);
      Taken(s, 1) == [1] && bs[0] == 0
  {
    j := GapInMask(|buffer| - 1);
    var bs := seq(j, _ => 0 as byte) + [1 as byte];
    var m := PushEach(Fifo(buffer, 0, 0), bs[..j]);
    assert m.head == j && Offset(|buffer|, j) == 0;
    var s := PushEach(Fifo(buffer, 0, 0), bs);
    assert s == PushOne(m, 1);
    Overwrites(m, 1);
  }

  // ------------------------------------------------------------------ the code

  class KfifoObject {
    const buffer: array<byte>
    var head: nat
    var tail: nat

    ghost function State(): Fifo
      reads this, buffer
    {
      Fifo(buffer[..], head, tail)
    }

    /** kapi_kfifo_init with the buffer allocated. */
    constructor (size: nat)
      requires 0 < size < TWO32
      ensures fresh(buffer) && Ok(State()) && buffer.Length == size && Used(State()) == 0
    {
      buffer := new byte[size](i => 0);
      head, tail := 0, 0;
    }

    method Len() returns (r: nat)
      requires Ok(State())
      ensures r == |Contents(State())|
    {
      r := Wrap32(head - tail);
    }

    method Avail() returns (r: nat)
      requires Ok(State())
      ensures r == buffer.Length - |Contents(State())|
    {
      r := Wrap32(buffer.Length - Wrap32(head - tail));
    }

    method IsEmpty() returns (r: bool)
      requires Ok(State())
      ensures r <==> Contents(State()) == []
    {
      r := head == tail;
    }

    method IsFull() returns (r: bool)
      requires Ok(State())
      ensures r <==> |Contents(State())| == buffer.Length
    {
      r := Wrap32(head - tail) >= buffer.Length;
    }

    /** memcpy into the buffer. */
    method Store(at: nat, src: seq<byte>)
      requires at + |src| <= buffer.Length
      modifies buffer
      ensures forall i :: at <= i < at + |src| ==> buffer[i] == src[i - at]
      ensures forall i :: 0 <= i < buffer.Length && !(at <= i < at + |src|) ==> buffer[i] == old(buffer[i])
    {
      forall i | 0 <= i < |src| {
        buffer[at + i] := src[i];
      }
    }

    /** kapi_kfifo_in.  Up to this size the 32-bit sum of offset and length does not wrap. */
    method Push(buf: seq<byte>) returns (n: nat)
      requires Ok(State()) && buffer.Length <= TWO31
      modifies this`head, buffer
      ensures n == old(Accepted(State(), buf)) && State() == old(InStep(State(), buf))
      ensures Offset(buffer.Length, old(head)) + n < TWO32
    {
      var avail := Avail();
      n := if |buf| > avail then avail else |buf|;
      var off := Offset(buffer.Length, head);
      if off + n > buffer.Length {
        var first := buffer.Length - off;
        Store(off, buf[..first]);
        Store(0, buf[first..n]);
      } else {
        Store(off, buf[..n]);
      }
      assert buffer[..] == Stored(old(buffer[..]), off, buf[..n]);
      head := Wrap32(head + n);
    }

    /** kapi_kfifo_out. */
    method Pop(len: nat) returns (out: seq<byte>)
      requires Ok(State()) && buffer.Length <= TWO31
      modifies this`tail
      ensures out == old(Taken(State(), len)) && State() == old(OutStep(State(), len))
      ensures Offset(buffer.Length, old(tail)) + |out| < TWO32
    {
      var used := Len();
      var n := if len > used then used else len;
      var off := Offset(buffer.Length, tail);
      if off + n > buffer.Length {
        var first := buffer.Length - off;
        out := buffer[off..] + buffer[..n - first];
      } else {
        out := buffer[off..off + n];
      }
      WindowSlices(buffer[..], off, n);
      tail := Wrap32(tail + n);
    }

    /** kapi_kfifo_reset. */
    method Clear()
      requires Ok(State())
      modifies this`head, this`tail
      ensures State() == Step(old(State()), Reset) && Contents(State()) == []
    {
      head, tail := 0, 0;
    }

    /** With a power-of-two size every run is a run of the queue, however often the counters wrap. */
    method Run(ops: seq<Op>, ghost k: nat) returns (output: seq<byte>)
      requires Ok(State()) && buffer.Length == Pow2(k) && k <= 31
      modifies this, buffer
      ensures Ok(State())
      ensures Queue(Contents(State()), output) == QueueRun(Queue(old(Contents(State())), []), buffer.Length, ops)
    {
      Pow2Of32();
      Pow2Monotone(k, 31);
      output := [];
      var i := 0;
      while i < |ops|
        invariant 0 <= i <= |ops| && Ok(State())
        invariant QueueRun(Queue(Contents(State()), output), buffer.Length, ops[i..])
                  == QueueRun(Queue(old(Contents(State())), []), buffer.Length, ops)
      {
        assert ops[i..][1..] == ops[i + 1..];
        StepRefines(State(), k, ops[i], output);
        match ops[i] {
          case In(buf) => { var _ := Push(buf); }
          case Out(len) => {
            var out := Pop(len);
            output := output + out;
          }
          case Reset => { Clear(); }
        }
        i := i + 1;
      }
    }
  }
}
