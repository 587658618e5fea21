/** The walk of dns_parse_response of kernel/arch/x86_64/dns.c through the questions and records of a
    message (sections 4.1.2 and 4.1.3 of RFC 1035), given what reading a name comes to. */
module DnsWalk {
  import opened Bytes

  const HEADER: nat := 12
  const TYPE_A: nat := 1
  const TYPE_CNAME: nat := 5
  const TWO16: nat := 0x1_0000

  function BE16(b: seq<byte>, o: nat): (r: nat)
    requires o + 2 <= |b|
    ensures r < TWO16
  {
    (b[o] as int) * 256 + (b[o + 1] as int)
  }

  function BE32(b: seq<byte>, o: nat): (r: nat)
    requires o + 4 <= |b|
    ensures r < 0x1_0000_0000
  {
    BE16(b, o) * TWO16 + BE16(b, o + 2)
  }

  /** The bytes of a big-endian number, highest first. */
  lemma {:induction false} BE32Is(b: seq<byte>, o: nat)
    requires o + 4 <= |b|
    ensures BE16(b, o) == 0x100 * (b[o] as int) + (b[o + 1] as int)
    ensures BE32(b, o) == 0x100_0000 * (b[o] as int) + 0x1_0000 * (b[o + 1] as int) + 0x100 * (b[o + 2] as int) + (b[o + 3] as int)
  {
  }

  /** Where the walk stands after a name or a question: past it, refused, or never. */
  datatype Walk = Past(pos: nat) | Bad | Never

  datatype Reply = Answer(ip: nat, ttl: nat) | NoAnswer | NoReply

  /** What reading the name at a position comes to. */
  type Reader = nat -> Walk

  ghost function Questions(buf: seq<byte>, read: Reader, pos: nat, n: nat): Walk
    decreases n
  {
    if n == 0 || pos >= |buf| then Past(pos)
    else
      match read(pos)
      case Never => Never
      case Bad => Bad
      case Past(p) => if p + 4 > |buf| then Bad else Questions(buf, read, p + 4, n - 1)
  }

  /** The name in a canonical-name record is read, and its text dropped. */
  predicate ReadsData(buf: seq<byte>, at: nat, rtype: nat, rdlen: nat) {
    rtype == TYPE_CNAME && rdlen > 0 && at + rdlen <= |buf|
  }

  ghost function Answers(buf: seq<byte>, read: Reader, pos: nat, n: nat): Reply
    decreases n, 1
  {
    if n == 0 || pos >= |buf| then NoAnswer
    else
      match read(pos)
      case Never => NoReply
      case Bad => NoAnswer
      case Past(p) => if p + 10 > |buf| then NoAnswer else AnswerAt(buf, read, p, n)
  }

  /** The record whose name ends at `p`, and the records after it. */
  ghost function AnswerAt(buf: seq<byte>, read: Reader, p: nat, n: nat): Reply
    requires n > 0 && p + 10 <= |buf|
    decreases n, 0
  {
    var rtype, rdlen := BE16(buf, p), BE16(buf, p + 8);
    if rtype == TYPE_A && rdlen == 4 && p + 14 <= |buf| then Answer(BE32(buf, p + 10), BE32(buf, p + 4))
    else if ReadsData(buf, p + 10, rtype, rdlen) && read(p + 10).Never? then NoReply
    else Answers(buf, read, (p + 10 + rdlen) % TWO16, n - 1)
  }

  /** The whole message. */
  ghost function Message(buf: seq<byte>, read: Reader): Reply {
    if |buf| < HEADER || BE16(buf, 2) % 16 != 0 then NoAnswer
    else
      match Questions(buf, read, HEADER, BE16(buf, 4))
      case Never => NoReply
      case Bad => NoAnswer
      case Past(p) => Answers(buf, read, p, BE16(buf, 6))
  }

  // ------------------------------------------------------------------ the names on the way

  ghost function QuestionNames(buf: seq<byte>, read: Reader, pos: nat, n: nat): seq<nat>
    decreases n
  {
    if n == 0 || pos >= |buf| then []
    else if read(pos).Past? && read(pos).pos + 4 <= |buf| then [pos] + QuestionNames(buf, read, read(pos).pos + 4, n - 1)
    else [pos]
  }

  ghost function AnswerNames(buf: seq<byte>, read: Reader, pos: nat, n: nat): seq<nat>
    decreases n, 1
  {
    if n == 0 || pos >= |buf| then []
    else if read(pos).Past? && read(pos).pos + 10 <= |buf| then [pos] + AnswerNamesAt(buf, read, read(pos).pos, n)
    else [pos]
  }

  ghost function AnswerNamesAt(buf: seq<byte>, read: Reader, p: nat, n: nat): seq<nat>
    requires n > 0 && p + 10 <= |buf|
    decreases n, 0
  {
    var rtype, rdlen := BE16(buf, p), BE16(buf, p + 8);
    var next := (p + 10 + rdlen) % TWO16;
    if rtype == TYPE_A && rdlen == 4 && p + 14 <= |buf| then []
    else if ReadsData(buf, p + 10, rtype, rdlen) then [p + 10] + AnswerNames(buf, read, next, n - 1)
    else AnswerNames(buf, read, next, n - 1)
  }

  /** The positions at which a message is read for names. */
  ghost function NamesRead(buf: seq<byte>, read: Reader): seq<nat> {
    if |buf| < HEADER || BE16(buf, 2) % 16 != 0 then []
    else
      var q := Questions(buf, read, HEADER, BE16(buf, 4));
      QuestionNames(buf, read, HEADER, BE16(buf, 4)) + if q.Past? then AnswerNames(buf, read, q.pos, BE16(buf, 6)) else []
  }

  ghost predicate AnyNever(read: Reader, at: seq<nat>) {
    exists i :: 0 <= i < |at| && read(at[i]).Never?
  }

  lemma {:induction false} AnyNeverSum(read: Reader, a: seq<nat>, b: seq<nat>)
    ensures AnyNever(read, a + b) <==> AnyNever(read, a) || AnyNever(read, b)
  {
    if AnyNever(read, a) {
      var i :| 0 <= i < |a| && read(a[i]).Never?;
      assert (a + b)[i] == a[i];
    }
    if AnyNever(read, b) {
      var i :| 0 <= i < |b| && read(b[i]).Never?;
      assert (a + b)[|a| + i] == b[i];
    }
  }

  lemma {:induction false} AnyNeverFirst(read: Reader, pos: nat, rest: seq<nat>)
    ensures AnyNever(read, [pos] + rest) <==> read(pos).Never? || AnyNever(read, rest)
    ensures AnyNever(read, [pos]) <==> read(pos).Never?
  {
    AnyNeverSum(read, [pos], rest);
    assert [pos][0] == pos;
  }

  lemma {:induction false} QuestionsNever(buf: seq<byte>, read: Reader, pos: nat, n: nat)
    ensures Questions(buf, read, pos, n).Never? <==> AnyNever(read, QuestionNames(buf, read, pos, n))
    decreases n
  {
    if n > 0 && pos < |buf| {
      if read(pos).Past? && read(pos).pos + 4 <= |buf| {
        AnyNeverFirst(read, pos, QuestionNames(buf, read, read(pos).pos + 4, n - 1));
        QuestionsNever(buf, read, read(pos).pos + 4, n - 1);
      } else {
        AnyNeverFirst(read, pos, []);
      }
    }
  }

  lemma {:induction false} AnswersNever(buf: seq<byte>, read: Reader, pos: nat, n: nat)
    ensures Answers(buf, read, pos, n).NoReply? <==> AnyNever(read, AnswerNames(buf, read, pos, n))
    decreases n, 1
  {
    if n > 0 && pos < |buf| {
      if read(pos).Past? && read(pos).pos + 10 <= |buf| {
        AnyNeverFirst(read, pos, AnswerNamesAt(buf, read, read(pos).pos, n));
        AnswerNever(buf, read, read(pos).pos, n);
      } else {
        AnyNeverFirst(read, pos, []);
      }
    }
  }

  lemma {:induction false} AnswerNever(buf: seq<byte>, read: Reader, p: nat, n: nat)
    requires n > 0 && p + 10 <= |buf|
    ensures AnswerAt(buf, read, p, n).NoReply? <==> AnyNever(read, AnswerNamesAt(buf, read, p, n))
    decreases n, 0
  {
    var next := (p + 10 + BE16(buf, p + 8)) % TWO16;
    AnswersNever(buf, read, next, n - 1);
    AnyNeverFirst(read, p + 10, AnswerNames(buf, read, next, n - 1));
  }

  /** There is no reply exactly if one of the names has no end. */
  lemma {:induction false} MessageNever(buf: seq<byte>, read: Reader)
    ensures Message(buf, read).NoReply? <==> AnyNever(read, NamesRead(buf, read))
  {
    if |buf| >= HEADER && BE16(buf, 2) % 16 == 0 {
      var n, q := BE16(buf, 4), Questions(buf, read, HEADER, BE16(buf, 4));
      QuestionsNever(buf, read, HEADER, n);
      var rest := if q.Past? then AnswerNames(buf, read, q.pos, BE16(buf, 6)) else [];
      AnyNeverSum(read, QuestionNames(buf, read, HEADER, n), rest);
      if q.Past? {
        AnswersNever(buf, read, q.pos, BE16(buf, 6));
      }
    }
  }
}
