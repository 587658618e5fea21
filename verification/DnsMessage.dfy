/** Queries and responses of kernel/arch/x86_64/dns.c (sections 4.1.1 to 4.1.3 of RFC 1035). */
module DnsMessage {
  import opened Bytes
  import opened Common
  import opened DnsName
  import opened DnsDecode
  import opened DnsWalk

  /** DNS_MAX_NAME_LEN + 1. */
  const NAME_SIZE: nat := 254

  ghost function NameAt(buf: seq<byte>, pos: nat): Walk {
    match Decoded(buf, NAME_SIZE, Cursor(pos, [], None))
    case None => Never
    case Some(Fail) => Bad
    case Some(Done(next, _)) => Past(next % TWO16)
  }

  ghost function Names(buf: seq<byte>): Reader {
    (pos: nat) => NameAt(buf, pos)
  }

  /** What dns_parse_response makes of a message. */
  ghost function Parse(buf: seq<byte>): Reply {
    Message(buf, Names(buf))
  }

  // ------------------------------------------------------------------ when there is a reply

  ghost predicate NameTraps(buf: seq<byte>, pos: nat) {
    Trapped(buf, NAME_SIZE, Cursor(pos, [], None))
  }

  lemma {:induction false} NeverIff(buf: seq<byte>, pos: nat)
    ensures Names(buf)(pos).Never? <==> NameTraps(buf, pos)
  {
    EndsIff(buf, NAME_SIZE, Cursor(pos, [], None));
  }

  /** A name read in the message runs into a circle of pointers. */
  ghost predicate MeetsLoop(buf: seq<byte>) {
    exists i :: 0 <= i < |NamesRead(buf, Names(buf))| && NameTraps(buf, NamesRead(buf, Names(buf))[i])
  }

  lemma {:induction false} MeetsLoopIff(buf: seq<byte>)
    ensures MeetsLoop(buf) <==> AnyNever(Names(buf), NamesRead(buf, Names(buf)))
  {
    var at := NamesRead(buf, Names(buf));
    forall i | 0 <= i < |at| ensures Names(buf)(at[i]).Never? <==> NameTraps(buf, at[i]) {
      NeverIff(buf, at[i]);
    }
  }

  /** A message is read to an end exactly if no name read in it runs into a circle of pointers. */
  lemma {:induction false} NoReplyIff(buf: seq<byte>)
    ensures Parse(buf).NoReply? <==> MeetsLoop(buf)
  {
    MeetsLoopIff(buf);
    MessageNever(buf, Names(buf));
  }

  /** No pointers in a circle anywhere: then every message is read to an end. */
  lemma {:induction false} LoopFreeReplies(buf: seq<byte>)
    requires forall p: nat :: !PointerLoop(buf, p)
    ensures !Parse(buf).NoReply? && !MeetsLoop(buf)
  {
    NoReplyIff(buf);
  }

  // ------------------------------------------------------------------ well-formed responses

  type Labels = seq<seq<byte>>

  /** `target` is the name that the data of a canonical-name record spells. */
  datatype Record = Record(name: Labels, rtype: nat, rclass: nat, ttl: nat, data: seq<byte>, target: Labels)

  ghost function Spelt(buf: seq<byte>): Speller {
    (at: nat, labels: Labels) => NameOn(buf, at, labels)
  }

  /** Questions: names, each with a type and a class. */
  ghost predicate QuestionsOn(buf: seq<byte>, spells: Speller, pos: nat, asked: seq<Labels>, end: nat)
    decreases asked
  {
    if asked == [] then end == pos
    else
      && spells(pos, asked[0]) && EndOf(buf, pos) + 4 <= |buf|
      && QuestionsOn(buf, spells, EndOf(buf, pos) + 4, asked[1..], end)
  }

  /** A resource record: a name, ten bytes of type, class, lifetime and length, and the data. */
  ghost predicate RecordOn(buf: seq<byte>, spells: Speller, pos: nat, rr: Record) {
    spells(pos, rr.name) && FieldsOn(buf, spells, EndOf(buf, pos), rr)
  }

  ghost predicate FieldsOn(buf: seq<byte>, spells: Speller, p: nat, rr: Record) {
    && p + 10 + |rr.data| <= |buf|
    && BE16(buf, p) == rr.rtype && BE16(buf, p + 2) == rr.rclass && BE32(buf, p + 4) == rr.ttl
    && BE16(buf, p + 8) == |rr.data| && Holds(buf, p + 10, rr.data)
    && (rr.rtype == 5 ==> spells(p + 10, rr.target) && EndOf(buf, p + 10) == p + 10 + |rr.data|)
  }

  ghost predicate RecordsOn(buf: seq<byte>, spells: Speller, pos: nat, rrs: seq<Record>)
    decreases rrs
  {
    || rrs == []
    || (RecordOn(buf, spells, pos, rrs[0]) && RecordsOn(buf, spells, EndOf(buf, pos) + 10 + |rrs[0].data|, rrs[1..]))
  }

  /** A response without an error, its questions and records laid out one after the other. */
  ghost predicate WellFormed(buf: seq<byte>, asked: seq<Labels>, from: nat, rrs: seq<Record>) {
    && HEADER <= |buf| < TWO16 && BE16(buf, 2) % 16 == 0
    && BE16(buf, 4) == |asked| && QuestionsOn(buf, Spelt(buf), HEADER, asked, from)
    && BE16(buf, 6) == |rrs| && RecordsOn(buf, Spelt(buf), from, rrs)
  }

  predicate IsAddress(rr: Record) {
    rr.rtype == 1 && |rr.data| == 4
  }

  /** The first address record of a list. */
  ghost function FirstAddress(rrs: seq<Record>): Reply {
    if rrs == [] then NoAnswer
    else if IsAddress(rrs[0]) then Answer(BE32(rrs[0].data, 0), rrs[0].ttl)
    else FirstAddress(rrs[1..])
  }

  lemma {:induction false} FirstAddressIs(rrs: seq<Record>, k: nat)
    requires k < |rrs| && IsAddress(rrs[k]) && forall i :: 0 <= i < k ==> !IsAddress(rrs[i])
    ensures FirstAddress(rrs) == Answer(BE32(rrs[k].data, 0), rrs[k].ttl)
  {
    if k > 0 {
      FirstAddressIs(rrs[1..], k - 1);
    }
  }

  lemma {:induction false} BE32Held(buf: seq<byte>, at: nat, data: seq<byte>)
    requires |data| == 4 && Holds(buf, at, data)
    ensures BE32(buf, at) == BE32(data, 0)
  {
    var held := buf[at..at + 4];
    assert held[0] == buf[at] && held[1] == buf[at + 1] && held[2] == buf[at + 2] && held[3] == buf[at + 3];
  }

  /** What one record comes to, if the ones after it come to `rest`. */
  ghost function Turn(rr: Record, rest: Reply): Reply {
    if !Fits(rr.name, NAME_SIZE) then NoAnswer
    else if IsAddress(rr) then Answer(BE32(rr.data, 0), rr.ttl)
    else rest
  }

  /** What the parser's name buffer leaves of it: nothing from the first name on that does not fit. */
  ghost function FirstReadable(rrs: seq<Record>): Reply {
    if rrs == [] then NoAnswer else Turn(rrs[0], FirstReadable(rrs[1..]))
  }

  ghost predicate AllFit(asked: seq<Labels>) {
    forall i :: 0 <= i < |asked| ==> Fits(asked[i], NAME_SIZE)
  }

  lemma {:induction false} AllFitCons(asked: seq<Labels>)
    requires asked != []
    ensures AllFit(asked) <==> Fits(asked[0], NAME_SIZE) && AllFit(asked[1..])
  {
    if AllFit(asked[1..]) {
      forall i | 1 <= i < |asked| ensures Fits(asked[i], NAME_SIZE) {
        assert asked[i] == asked[1..][i - 1];
      }
    }
  }

  lemma {:induction false} ReadableIsFirst(rrs: seq<Record>)
    requires forall i :: 0 <= i < |rrs| ==> Fits(rrs[i].name, NAME_SIZE)
    ensures FirstReadable(rrs) == FirstAddress(rrs)
  {
    if rrs != [] {
      ReadableIsFirst(rrs[1..]);
    }
  }

  lemma {:induction false} EndWithin(buf: seq<byte>, at: nat, labels: Labels, hops: nat)
    requires NameIn(buf, at, labels, hops)
    ensures EndOf(buf, at) <= |buf|
    decreases |labels|
  {
    if buf[at] != 0 && !IsPointer(buf[at]) {
      EndWithin(buf, at + 1 + buf[at], labels[1..], hops);
    }
  }

  /** Names that are spelt out are read as they are. */
  ghost predicate ReadsNames(buf: seq<byte>, spells: Speller, read: Reader) {
    forall at: nat, labels: Labels {:trigger spells(at, labels)} :: spells(at, labels) ==>
      at < |buf| && read(at) == if Fits(labels, NAME_SIZE) then Past(EndOf(buf, at)) else Bad
  }

  lemma {:induction false} NamesAreRead(buf: seq<byte>)
    requires |buf| < TWO16
    ensures ReadsNames(buf, Spelt(buf), Names(buf))
  {
    forall at: nat, labels: Labels | Spelt(buf)(at, labels)
      ensures at < |buf| && Names(buf)(at) == if Fits(labels, NAME_SIZE) then Past(EndOf(buf, at)) else Bad
    {
      var hops: nat :| NameIn(buf, at, labels, hops);
      EndWithin(buf, at, labels, hops);
      NameDecodes(buf, NAME_SIZE, at, labels);
    }
  }

  lemma {:induction false} QuestionsLaidOut(buf: seq<byte>, spells: Speller, read: Reader, pos: nat, asked: seq<Labels>, end: nat)
    requires QuestionsOn(buf, spells, pos, asked, end) && ReadsNames(buf, spells, read)
    ensures Questions(buf, read, pos, |asked|) == if AllFit(asked) then Past(end) else Bad
    decreases asked
  {
    if asked != [] {
      QuestionsLaidOut(buf, spells, read, EndOf(buf, pos) + 4, asked[1..], end);
      AllFitCons(asked);
    }
  }

  lemma {:induction false} FieldsAnswer(buf: seq<byte>, spells: Speller, read: Reader, p: nat, rr: Record, n: nat)
    requires FieldsOn(buf, spells, p, rr) && |buf| < TWO16 && n > 0 && (rr.rtype == TYPE_CNAME ==> !read(p + 10).Never?)
    ensures AnswerAt(buf, read, p, n) ==
      if IsAddress(rr) then Answer(BE32(rr.data, 0), rr.ttl) else Answers(buf, read, p + 10 + |rr.data|, n - 1)
  {
    if IsAddress(rr) {
      BE32Held(buf, p + 10, rr.data);
    } else {
      assert (p + 10 + |rr.data|) % TWO16 == p + 10 + |rr.data|;
    }
  }

  lemma {:induction false} RecordTurn(buf: seq<byte>, spells: Speller, read: Reader, pos: nat, rr: Record, n: nat)
    requires |buf| < TWO16 && RecordOn(buf, spells, pos, rr) && n > 0 && ReadsNames(buf, spells, read)
    ensures Answers(buf, read, pos, n) == Turn(rr, Answers(buf, read, EndOf(buf, pos) + 10 + |rr.data|, n - 1))
  {
    FieldsAnswer(buf, spells, read, EndOf(buf, pos), rr, n);
  }

  lemma {:induction false} RecordsLaidOut(buf: seq<byte>, spells: Speller, read: Reader, pos: nat, rrs: seq<Record>)
    requires |buf| < TWO16 && RecordsOn(buf, spells, pos, rrs) && ReadsNames(buf, spells, read)
    ensures Answers(buf, read, pos, |rrs|) == FirstReadable(rrs)
    decreases rrs
  {
    if rrs != [] {
      RecordTurn(buf, spells, read, pos, rrs[0], |rrs|);
      RecordsLaidOut(buf, spells, read, EndOf(buf, pos) + 10 + |rrs[0].data|, rrs[1..]);
    }
  }

  /** What the parser makes of any response laid out as it should be. */
  lemma {:induction false} ParseLaidOut(buf: seq<byte>, asked: seq<Labels>, from: nat, rrs: seq<Record>)
    requires WellFormed(buf, asked, from, rrs)
    ensures Parse(buf) == if AllFit(asked) then FirstReadable(rrs) else NoAnswer
  {
    NamesAreRead(buf);
    QuestionsLaidOut(buf, Spelt(buf), Names(buf), HEADER, asked, from);
    RecordsLaidOut(buf, Spelt(buf), Names(buf), from, rrs);
  }

  /** With names of at most 252 bytes it yields the first address record, and nothing if there is none. */
  lemma {:induction false} ParseFirst(buf: seq<byte>, asked: seq<Labels>, from: nat, rrs: seq<Record>)
    requires WellFormed(buf, asked, from, rrs) && AllFit(asked)
    requires forall i :: 0 <= i < |rrs| ==> Fits(rrs[i].name, NAME_SIZE)
    ensures Parse(buf) == FirstAddress(rrs)
  {
    ParseLaidOut(buf, asked, from, rrs);
    ReadableIsFirst(rrs);
  }

  // ------------------------------------------------------------------ the usual response

  /** One question and one address record, whose name is the pointer C0 0C to the question's. */
  ghost function UsualResponse(id: nat, name: seq<byte>, ttl: seq<byte>, ip: seq<byte>): seq<byte>
    requires id < 0x1_0000
  {
    [id / 256, id % 256, 0x81, 0x80, 0, 1, 0, 1, 0, 0, 0, 0] + (name + [0, 1, 0, 1])
    + ([0xC0, 0x0C, 0, 1, 0, 1] + ttl + [0, 4] + ip)
  }

  lemma {:induction false} UsualBytes(id: nat, name: seq<byte>, ttl: seq<byte>, ip: seq<byte>)
    requires id < 0x1_0000 && |ttl| == 4 && |ip| == 4
    ensures var buf, p := UsualResponse(id, name, ttl, ip), 16 + |name|;
      && |buf| == p + 16 && buf[2..8] == [0x81, 0x80, 0, 1, 0, 1] && Holds(buf, 12, name)
      && buf[p..p + 6] == [0xC0, 0x0C, 0, 1, 0, 1] && buf[p + 6..p + 10] == ttl && buf[p + 10..p + 12] == [0, 4]
      && Holds(buf, p + 12, ip)
  {
    var buf, p := UsualResponse(id, name, ttl, ip), 16 + |name|;
    var end := [0xC0, 0x0C, 0, 1, 0, 1] + ttl + [0, 4] + ip;
    assert buf[p..] == end && end[..6] == [0xC0, 0x0C, 0, 1, 0, 1] && end[6..10] == ttl && end[10..12] == [0, 4] && end[12..] == ip;
    assert buf[p..][..6] == buf[p..p + 6] && buf[p..][6..10] == buf[p + 6..p + 10] && buf[p..][10..12] == buf[p + 10..p + 12];
    assert buf[p..][12..] == buf[p + 12..p + 16];
    assert buf[12..12 + |name|] == name;
  }

  lemma {:induction false} UsualNames(buf: seq<byte>, labels: Labels)
    requires LabelsOk(labels, 191) && Holds(buf, 12, Wire(labels)) && 18 + |Wire(labels)| <= |buf|
    requires buf[16 + |Wire(labels)|] == 0xC0 && buf[17 + |Wire(labels)|] == 0x0C
    ensures var p := 16 + |Wire(labels)|;
      NameOn(buf, 12, labels) && EndOf(buf, 12) == p - 4 && NameOn(buf, p, labels) && EndOf(buf, p) == p + 2
  {
    WireOn(buf, 12, labels);
    assert [] + labels == labels && PointsTo(buf, 16 + |Wire(labels)|, 12);
    CompressedOn(buf, 16 + |Wire(labels)|, [], labels, 16 + |Wire(labels)|, 12);
  }

  lemma {:induction false} UsualRecord(buf: seq<byte>, spells: Speller, p: nat, labels: Labels, ttl: seq<byte>, ip: seq<byte>)
    requires p + 14 <= |buf| && |ttl| == 4 && |ip| == 4
    requires buf[p..p + 4] == [0, 1, 0, 1] && buf[p + 4..p + 8] == ttl && buf[p + 8..p + 10] == [0, 4] && Holds(buf, p + 10, ip)
    ensures FieldsOn(buf, spells, p, Record(labels, 1, 1, BE32(ttl, 0), ip, []))
  {
    BE32Held(buf, p + 4, ttl);
    var a, b := buf[p..p + 4], buf[p + 8..p + 10];
    assert a[0] == buf[p] && a[1] == buf[p + 1] && a[2] == buf[p + 2] && a[3] == buf[p + 3];
    assert b[0] == buf[p + 8] && b[1] == buf[p + 9];
  }

  lemma {:induction false} UsualHead(buf: seq<byte>)
    requires |buf| >= 8 && buf[2..8] == [0x81, 0x80, 0, 1, 0, 1]
    ensures BE16(buf, 2) % 16 == 0 && BE16(buf, 4) == 1 && BE16(buf, 6) == 1
  {
    var h := buf[2..8];
    assert h[0] == buf[2] && h[1] == buf[3] && h[2] == buf[4] && h[3] == buf[5] && h[4] == buf[6] && h[5] == buf[7];
  }

  lemma {:induction false} UsualLayout(buf: seq<byte>, spells: Speller, labels: Labels, p: nat, rr: Record)
    requires spells(12, labels) && EndOf(buf, 12) + 4 == p <= |buf| && RecordOn(buf, spells, p, rr)
    ensures QuestionsOn(buf, spells, HEADER, [labels], p) && RecordsOn(buf, spells, p, [rr])
  {
    assert [labels][1..] == [] && [rr][1..] == [];
  }

  /** The usual response to a query yields its four address bytes and its four lifetime bytes. */
  lemma {:induction false} UsualParsed(id: nat, labels: Labels, ttl: seq<byte>, ip: seq<byte>)
    requires id < 0x1_0000 && LabelsOk(labels, 191) && Fits(labels, 254) && |ttl| == 4 && |ip| == 4
    ensures Parse(UsualResponse(id, Wire(labels), ttl, ip)) == Answer(
      0x100_0000 * (ip[0] as int) + 0x1_0000 * (ip[1] as int) + 0x100 * (ip[2] as int) + (ip[3] as int),
      0x100_0000 * (ttl[0] as int) + 0x1_0000 * (ttl[1] as int) + 0x100 * (ttl[2] as int) + (ttl[3] as int))
  {
    var name := Wire(labels);
    var buf, p := UsualResponse(id, name, ttl, ip), 16 + |name|;
    var rr := Record(labels, 1, 1, BE32(ttl, 0), ip, []);
    WireLength(labels);
    UsualBytes(id, name, ttl, ip);
    assert buf[p..p + 6][2..] == buf[p + 2..p + 6] == [0, 1, 0, 1] && buf[p] == buf[p..p + 6][0] && buf[p + 1] == buf[p..p + 6][1];
    UsualNames(buf, labels);
    UsualRecord(buf, Spelt(buf), p + 2, labels, ttl, ip);
    UsualHead(buf);
    UsualLayout(buf, Spelt(buf), labels, p, rr);
    ParseFirst(buf, [labels], p, [rr]);
    BE32Is(ip, 0);
    BE32Is(ttl, 0);
  }

  /** A message shorter than its header, or with a reply code in the low four bits of byte 3, has no
      answer. */
  lemma {:induction false} ErrorRefused(buf: seq<byte>)
    requires |buf| < 12 || buf[3] % 16 != 0
    ensures Parse(buf) == NoAnswer
  {
    if |buf| >= 12 {
      assert BE16(buf, 2) == 16 * (16 * (buf[2] as int)) + (buf[3] as int);
    }
  }

  /** A name of the longest legal length, 253 bytes, is refused: the buffer leaves no room for the
      dot that is written behind it. */
  lemma {:induction false} LongestRefused(buf: seq<byte>, at: nat, labels: seq<seq<byte>>)
    requires LabelsOk(labels, 63) && |Join(labels)| >= 253 && Holds(buf, at, Wire(labels))
    ensures NameAt(buf, at) == Bad
  {
    assert labels != [];
    JoinDotted(labels);
    DecodeWire(buf, NAME_SIZE, at, labels);
  }

  // ------------------------------------------------------------------ queries

  /** A 16-bit number, high byte first. */
  function Be(x: nat): (r: seq<byte>)
    requires x < TWO16
    ensures |r| == 2 && BE16(r, 0) == x
  {
    [x / 256, x % 256]
  }

  /** A header with one question and recursion desired. */
  function QueryHeader(id: nat): (r: seq<byte>)
    requires id < TWO16
    ensures |r| == HEADER
  {
    Be(id) + Be(0x100) + Be(1) + [0, 0, 0, 0, 0, 0]
  }

  /** The query for a host name, if it fits. */
  function Query(id: nat, h: seq<byte>, qtype: nat, size: nat): Option<seq<byte>>
    requires id < TWO16 && qtype < TWO16
  {
    if size < HEADER + 5 then None
    else
      match Encode(h, size - HEADER)
      case None => None
      case Some(w) => if HEADER + |w| + 4 > size then None else Some(QueryHeader(id) + w + (Be(qtype) + Be(1)))
  }

  /** A query is the identifier, the recursion bit and one question, which decodes to the host name,
      its type and the Internet class. */
  lemma {:induction false} QueryAsks(id: nat, labels: seq<seq<byte>>, qtype: nat, size: nat)
    requires id < TWO16 && qtype < TWO16 && LabelsOk(labels, 191) && Fits(labels, NAME_SIZE)
    requires HEADER + |Wire(labels)| + 4 <= size
    ensures Query(id, Join(labels), qtype, size).Some?
    ensures var q := Query(id, Join(labels), qtype, size).value;
      && Decoded(q, NAME_SIZE, Cursor(HEADER, [], None)) == Some(Done(|q| - 4, Some(Join(labels))))
      && q[..12] == [id / 256, id % 256, 1, 0, 0, 1, 0, 0, 0, 0, 0, 0]
      && q[|q| - 4..] == [qtype / 256, qtype % 256, 0, 1]
  {
    QueryIs(id, labels, qtype, size);
    HoldsMiddle(QueryHeader(id), Wire(labels), Be(qtype) + Be(1));
    DecodeWire(QueryHeader(id) + Wire(labels) + (Be(qtype) + Be(1)), NAME_SIZE, HEADER, labels);
    QueryFields(id, Wire(labels), qtype);
  }

  lemma {:induction false} HoldsMiddle(a: seq<byte>, w: seq<byte>, b: seq<byte>)
    ensures Holds(a + w + b, |a|, w)
  {
  }

  lemma {:induction false} QueryIs(id: nat, labels: seq<seq<byte>>, qtype: nat, size: nat)
    requires id < TWO16 && qtype < TWO16 && LabelsOk(labels, 191) && HEADER + |Wire(labels)| + 4 <= size
    ensures Query(id, Join(labels), qtype, size) == Some(QueryHeader(id) + Wire(labels) + (Be(qtype) + Be(1)))
  {
    EncodeIsWire(labels, size - HEADER);
  }

  lemma {:induction false} QueryFields(id: nat, w: seq<byte>, qtype: nat)
    requires id < TWO16 && qtype < TWO16
    ensures var q := QueryHeader(id) + w + (Be(qtype) + Be(1));
      && q[..12] == [id / 256, id % 256, 1, 0, 0, 1, 0, 0, 0, 0, 0, 0]
      && q[|q| - 4..] == [qtype / 256, qtype % 256, 0, 1]
  {
    var q := QueryHeader(id) + w + (Be(qtype) + Be(1));
    assert q[..12] == QueryHeader(id) == [id / 256, id % 256, 1, 0, 0, 1, 0, 0, 0, 0, 0, 0];
    assert q[|q| - 4..] == Be(qtype) + Be(1) == [qtype / 256, qtype % 256, 0, 1];
  }

  // ------------------------------------------------------------------ the code

  /** dns_build_query. */
  method BuildQuery(id: nat, h: seq<byte>, qtype: nat, buf: array<byte>) returns (r: int)
    requires id < TWO16 && qtype < TWO16
    modifies buf
    ensures match Query(id, h, qtype, buf.Length)
      case None => r == -1
      case Some(q) => r == |q| <= buf.Length && buf[..r] == q
  {
    if buf.Length < HEADER + 5 {
      return -1;
    }
    forall i | 0 <= i < buf.Length {
      buf[i] := 0;
    }
    buf[0], buf[1], buf[2], buf[5] := id / 256, id % 256, 1, 1;
    assert buf[..HEADER] == QueryHeader(id);
    var n := EncodeName(h, buf, HEADER);
    if n < 0 || HEADER + n + 4 > buf.Length {
      return -1;
    }
    var pos := HEADER + n;
    ghost var w := Encode(h, buf.Length - HEADER).value;
    assert buf[..pos] == QueryHeader(id) + w;
    buf[pos], buf[pos + 1], buf[pos + 2], buf[pos + 3] := qtype / 256, qtype % 256, 0, 1;
    assert buf[..pos + 4] == buf[..pos] + (Be(qtype) + Be(1));
    return pos + 4;
  }

  /** The name at `pos` is skipped. */
  method SkipName(buf: seq<byte>, pos: nat) returns (r: int)
    requires !NameTraps(buf, pos)
    ensures Names(buf)(pos) == (if r < 0 then Bad else Past(r)) && r >= -1
  {
    var name := new byte[NAME_SIZE](i => 0);
    var next := DecodeName(buf, pos, name);
    r := if next < 0 then -1 else next % TWO16;
  }

  method SkipQuestions(buf: seq<byte>, ghost read: Reader, n: nat) returns (ok: bool, pos: nat)
    requires read == Names(buf) && !AnyNever(read, QuestionNames(buf, read, HEADER, n))
    ensures Questions(buf, read, HEADER, n) == if ok then Past(pos) else Bad
  {
    QuestionsNever(buf, read, HEADER, n);
    ok, pos := true, HEADER;
    ghost var goal := Questions(buf, read, HEADER, n);
    var i := 0;
    while i < n && pos < |buf|
      invariant 0 <= i <= n && Questions(buf, read, pos, n - i) == goal
    {
      NeverIff(buf, pos);
      var r := SkipName(buf, pos);
      if r < 0 || r + 4 > |buf| {
        return false, 0;
      }
      pos := r + 4;
      i := i + 1;
    }
  }

  method FindAddress(buf: seq<byte>, ghost read: Reader, from: nat, n: nat) returns (ok: bool, ip: nat, ttl: nat)
    requires read == Names(buf) && !AnyNever(read, AnswerNames(buf, read, from, n))
    ensures Answers(buf, read, from, n) == if ok then Answer(ip, ttl) else NoAnswer
  {
    AnswersNever(buf, read, from, n);
    ok, ip, ttl := false, 0, 0;
    var pos: nat, i := from, 0;
    ghost var goal := Answers(buf, read, from, n);
    while i < n && pos < |buf|
      invariant 0 <= i <= n && Answers(buf, read, pos, n - i) == goal
    {
      NeverIff(buf, pos);
      var p := SkipName(buf, pos);
      if p < 0 || p + 10 > |buf| {
        return;
      }
      assert AnswerAt(buf, read, p, n - i) == goal;
      var rtype, rdlen := BE16(buf, p), BE16(buf, p + 8);
      if rtype == TYPE_A && rdlen == 4 && p + 14 <= |buf| {
        return true, BE32(buf, p + 10), BE32(buf, p + 4);
      }
      if ReadsData(buf, p + 10, rtype, rdlen) {
        NeverIff(buf, p + 10);
        var _ := SkipName(buf, p + 10);
      }
      pos := (p + 10 + rdlen) % TWO16;
      i := i + 1;
    }
  }

  /** dns_parse_response, called where no name read in the message runs into a circle of pointers. */
  method ParseResponse(buf: seq<byte>) returns (r: int, ip: nat, ttl: nat)
    requires |buf| < TWO16 && !MeetsLoop(buf)
    ensures Parse(buf) == if r == 0 then Answer(ip, ttl) else NoAnswer
    ensures r == 0 || r == -1
  {
    r, ip, ttl := -1, 0, 0;
    if |buf| < HEADER || BE16(buf, 2) % 16 != 0 {
      return;
    }
    NamesSplit(buf, Names(buf));
    var ok, pos := SkipQuestions(buf, Names(buf), BE16(buf, 4));
    if ok {
      ok, ip, ttl := FindAddress(buf, Names(buf), pos, BE16(buf, 6));
      r := if ok then 0 else -1;
    }
  }

  lemma {:induction false} NamesSplit(buf: seq<byte>, read: Reader)
    requires HEADER <= |buf| && BE16(buf, 2) % 16 == 0 && !MeetsLoop(buf) && read == Names(buf)
    ensures !AnyNever(read, QuestionNames(buf, read, HEADER, BE16(buf, 4)))
    ensures var q := Questions(buf, read, HEADER, BE16(buf, 4)); q.Past? ==> !AnyNever(read, AnswerNames(buf, read, q.pos, BE16(buf, 6)))
  {
    MeetsLoopIff(buf);
    var q := Questions(buf, read, HEADER, BE16(buf, 4));
    AnyNeverSum(read, QuestionNames(buf, read, HEADER, BE16(buf, 4)), if q.Past? then AnswerNames(buf, read, q.pos, BE16(buf, 6)) else []);
  }
}
