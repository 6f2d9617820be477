/** Queries and replies: ParseQuery and BuildReply of internal/dns/msg.go (sections 4.1.1 to 4.1.3 of RFC 1035). */
module DnsMessage {
  import opened Options
  import opened Bytes
  import opened DnsName

  const TYPE_A: Word16 := 1
  const TYPE_AAAA: Word16 := 28
  const CLASS_IN: Word16 := 1
  const NO_ERROR: Byte := 0
  const NX_DOMAIN: Byte := 3
  const TTL := 60
  const HEADER := 12

  datatype Query = Query(id: Word16, name: Text, qtype: Word16, qclass: Word16, wantRec: bool)

  datatype QueryError = ShortHeader | NotOneQuestion | BadName(error: NameError) | TruncatedQuestion

  // --- parsing -------------------------------------------------------------

  /** The name decoder is not called, or ends within `fuel` segments. */
  predicate Readable(pkt: Packet, fuel: nat) {
    |pkt| >= HEADER && Get16(pkt, 4) == 1 ==> Decode(pkt, HEADER, fuel).Some?
  }

  function Parsed(pkt: Packet, fuel: nat): Result<Query, QueryError>
    requires Readable(pkt, fuel)
  {
    if |pkt| < HEADER then Err(ShortHeader)
    else if Get16(pkt, 4) != 1 then Err(NotOneQuestion)
    else
      match Decode(pkt, HEADER, fuel).value
      case Err(e) => Err(BadName(e))
      case Ok(n) =>
        if n.next + 4 > |pkt| then Err(TruncatedQuestion)
        else Ok(Query(Get16(pkt, 0), n.text, Get16(pkt, n.next), Get16(pkt, n.next + 2), Get16(pkt, 2) / 256 % 2 == 1))
  }

  /** Every datagram on whose question name the decoder ends. */
  method ParseQuery(pkt: Packet) returns (r: Result<Query, QueryError>)
    requires |pkt| >= HEADER && Get16(pkt, 4) == 1 ==> Ends(pkt, HEADER)
    ensures Readable(pkt, SegmentLimit()) && r == Parsed(pkt, SegmentLimit())
  {
    if |pkt| < HEADER {
      return Err(ShortHeader);
    }
    var id := Get16(pkt, 0);
    if Get16(pkt, 4) != 1 {
      return Err(NotOneQuestion);
    }
    var wantRec := Get16(pkt, 2) / 256 % 2 == 1;
    EndsExactly(pkt, HEADER);
    var name := DecodeName(pkt, HEADER);
    if name.Err? {
      return Err(BadName(name.error));
    }
    var off := name.value.next;
    if off + 4 > |pkt| {
      return Err(TruncatedQuestion);
    }
    return Ok(Query(id, name.value.text, Get16(pkt, off), Get16(pkt, off + 2), wantRec));
  }

  // --- addresses -----------------------------------------------------------

  type Ip = seq<Byte>

  function To4(ip: Ip): Option<Ip> {
    if |ip| == 4 then Some(ip)
    else if |ip| == 16 && ip[..12] == V4_IN_V6 then Some(ip[12..])
    else None
  }

  function To16(ip: Ip): Option<Ip> {
    if |ip| == 4 then Some(V4_IN_V6 + ip)
    else if |ip| == 16 then Some(ip)
    else None
  }

  /** The record data an address gives for a question, if it is of the question's family. */
  function Answer(qtype: Word16, ip: Ip): Option<Ip> {
    match To16(ip)
    case None => None
    case Some(wide) =>
      if qtype == TYPE_A && To4(wide).Some? then To4(wide)
      else if qtype == TYPE_AAAA && To4(wide).None? then Some(wide)
      else None
  }

  function Answers(qtype: Word16, ips: seq<Ip>): seq<Ip> {
    if ips == [] then []
    else
      var before := Answers(qtype, ips[..|ips| - 1]);
      match Answer(qtype, ips[|ips| - 1])
      case None => before
      case Some(a) => before + [a]
  }

  /** An A question takes the IPv4 addresses in either form, an AAAA question the IPv6 ones, any other question none. */
  lemma AnswerIsOfFamily(qtype: Word16, ip: Ip, a: Ip)
    ensures Answer(qtype, ip) == Some(a) <==>
            || (qtype == 1 && |a| == 4 && (ip == a || ip == V4_IN_V6 + a))
            || (qtype == 28 && |a| == 16 && ip == a && !(V4_IN_V6 <= a))
  {
    if |ip| == 4 {
      var wide := V4_IN_V6 + ip;
      assert wide[..12] == V4_IN_V6 && wide[12..] == ip;
    } else if |ip| == 16 {
      assert ip == ip[..12] + ip[12..];
      assert |a| == 4 ==> (V4_IN_V6 + a)[..12] == V4_IN_V6 && (V4_IN_V6 + a)[12..] == a;
    }
  }

  /** The addresses are answered one by one, in the order given. */
  lemma {:induction false} AnswersConcat(qtype: Word16, a: seq<Ip>, b: seq<Ip>)
    ensures Answers(qtype, a + b) == Answers(qtype, a) + Answers(qtype, b)
  {
    if b == [] {
      assert a + b == a;
    } else {
      AnswersConcat(qtype, a, b[..|b| - 1]);
      assert (a + b)[..|a + b| - 1] == a + b[..|b| - 1];
    }
  }

  // --- replies -------------------------------------------------------------

  function DataLength(qtype: Word16): nat {
    if qtype == TYPE_AAAA then 16 else 4
  }

  /** Response and recursion-available bits, the response code, and the query's recursion-desired bit. */
  function Flags(q: Query, rcode: Byte): Word16
    requires rcode < 16
  {
    0x8000 + 0x0080 + rcode + if q.wantRec then 0x0100 else 0
  }

  function Header(q: Query, rcode: Byte, answers: nat): (h: Packet)
    requires rcode < 16
    ensures |h| == HEADER
  {
    Put16(q.id) + (Put16(Flags(q, rcode)) + (Put16(1) + (Put16(answers % 65536) + (Put16(0) + Put16(0)))))
  }

  function Question(q: Query): Packet {
    Encoded(q.name) + (Put16(q.qtype) + Put16(q.qclass))
  }

  /** A resource record whose name points back to the question. */
  function Record(q: Query, ip: Ip): Packet {
    [0xC0, 0x0C] + (Put16(q.qtype) + (Put16(CLASS_IN) + (Put16(0) + (Put16(TTL) + (Put16(DataLength(q.qtype)) + ip)))))
  }

  function Records(q: Query, answers: seq<Ip>): Packet {
    if answers == [] then [] else Record(q, answers[0]) + Records(q, answers[1..])
  }

  function Code(ips: Option<seq<Ip>>): (code: Byte)
    ensures code < 16
  {
    if ips.None? then NX_DOMAIN else NO_ERROR
  }

  function Given(q: Query, ips: Option<seq<Ip>>): seq<Ip> {
    if ips.None? then [] else Answers(q.qtype, ips.value)
  }

  function Reply(q: Query, ips: Option<seq<Ip>>): Packet {
    var answers := Given(q, ips);
    Header(q, Code(ips), |answers|) + (Question(q) + Records(q, answers))
  }

  lemma {:induction false} RecordsSnoc(q: Query, answers: seq<Ip>, a: Ip)
    ensures Records(q, answers + [a]) == Records(q, answers) + Record(q, a)
  {
    var all := answers + [a];
    if answers == [] {
      assert all[1..] == [];
    } else {
      RecordsSnoc(q, answers[1..], a);
      assert all[1..] == answers[1..] + [a] && all[0] == answers[0];
    }
  }

  method KeepFamily(qtype: Word16, ips: seq<Ip>) returns (answers: seq<Ip>)
    ensures answers == Answers(qtype, ips)
  {
    answers := [];
    for i := 0 to |ips|
      invariant answers == Answers(qtype, ips[..i])
    {
      assert ips[..i + 1][..i] == ips[..i];
      var wide := To16(ips[i]);
      if wide.None? {
        continue;
      }
      if qtype == TYPE_A && To4(wide.value).Some? {
        answers := answers + [To4(wide.value).value];
      } else if qtype == TYPE_AAAA && To4(wide.value).None? {
        answers := answers + [wide.value];
      }
    }
    assert ips[..|ips|] == ips;
  }

  method AppendRecords(q: Query, answers: seq<Ip>, front: Packet) returns (out: Packet)
    ensures out == front + Records(q, answers)
  {
    out := front;
    for i := 0 to |answers|
      invariant out == front + Records(q, answers[..i])
    {
      assert answers[..i + 1] == answers[..i] + [answers[i]];
      RecordsSnoc(q, answers[..i], answers[i]);
      out := out + Record(q, answers[i]);
    }
    assert answers[..|answers|] == answers;
  }

  /** Absent addresses mean that the name does not exist. */
  method BuildReply(q: Query, ips: Option<seq<Ip>>) returns (out: Packet)
    ensures out == Reply(q, ips)
  {
    var rcode := NO_ERROR;
    if ips.None? {
      rcode := NX_DOMAIN;
    }
    var answers := [];
    if ips.Some? {
      answers := KeepFamily(q.qtype, ips.value);
    }
    var header := Header(q, rcode, |answers|);
    var name := EncodeName(q.name);
    var question := name + (Put16(q.qtype) + Put16(q.qclass));
    out := AppendRecords(q, answers, header + question);
  }

  // --- round trip ----------------------------------------------------------

  /** A packet laid out as a reply: header, question and answer records in their places. */
  predicate Lays(r: Packet, q: Query, rcode: Byte, answers: seq<Ip>) {
    && rcode < 16 && At(r, 0, Header(q, rcode, |answers|)) && At(r, HEADER, Question(q))
    && At(r, HEADER + |Question(q)|, Records(q, answers))
  }

  lemma ReplyIsLaid(q: Query, ips: Option<seq<Ip>>)
    ensures Lays(Reply(q, ips), q, Code(ips), Given(q, ips))
  {
    var h, question, records := Header(q, Code(ips), |Given(q, ips)|), Question(q), Records(q, Given(q, ips));
    AllAt(h + (question + records));
    AtSplits(h + (question + records), 0, h, question + records);
    AtSplits(h + (question + records), |h|, question, records);
  }

  lemma AllAt(pkt: Packet)
    ensures At(pkt, 0, pkt)
  {
    assert pkt[0..|pkt|] == pkt;
  }

  lemma GetOfPut(pkt: Packet, off: nat, n: Word16)
    requires At(pkt, off, Put16(n))
    ensures off + 2 <= |pkt| && Get16(pkt, off) == n
  {
    var w := pkt[off..off + 2];
    assert w[0] == pkt[off] && w[1] == pkt[off + 1];
  }

  lemma GetFirst(pkt: Packet, off: nat, n: Word16, rest: Packet)
    requires At(pkt, off, Put16(n) + rest)
    ensures off + 2 <= |pkt| && Get16(pkt, off) == n && At(pkt, off + 2, rest)
  {
    AtSplits(pkt, off, Put16(n), rest);
    GetOfPut(pkt, off, n);
  }

  /** Every header field of a reply. */
  lemma HeaderFields(r: Packet, q: Query, rcode: Byte, n: nat)
    requires rcode < 16 && At(r, 0, Header(q, rcode, n))
    ensures |r| >= HEADER && Get16(r, 0) == q.id && Get16(r, 2) == Flags(q, rcode)
    ensures Get16(r, 4) == 1 && Get16(r, 6) == n % 65536 && Get16(r, 8) == 0 && Get16(r, 10) == 0
  {
    var last := Put16(0) + Put16(0);
    GetFirst(r, 0, q.id, Put16(Flags(q, rcode)) + (Put16(1) + (Put16(n % 65536) + last)));
    GetFirst(r, 2, Flags(q, rcode), Put16(1) + (Put16(n % 65536) + last));
    GetFirst(r, 4, 1, Put16(n % 65536) + last);
    GetFirst(r, 6, n % 65536, last);
    GetFirst(r, 8, 0, Put16(0));
    GetOfPut(r, 10, 0);
  }

  lemma QuestionFields(r: Packet, q: Query, labels: seq<Text>, fuel: nat)
    requires q.name == Join(labels) && Proper(labels) && fuel > 0 && At(r, HEADER, Question(q))
    ensures var off := HEADER + |Encoded(q.name)|;
            && Decode(r, HEADER, fuel) == Some(Ok(Name(q.name, off)))
            && off + 4 <= |r| && Get16(r, off) == q.qtype && Get16(r, off + 2) == q.qclass
  {
    var off := HEADER + |Encoded(q.name)|;
    AtSplits(r, HEADER, Encoded(q.name), Put16(q.qtype) + Put16(q.qclass));
    GetFirst(r, off, q.qtype, Put16(q.qclass));
    GetOfPut(r, off + 2, q.qclass);
    DecodeOfEncoded(r, HEADER, labels, q.name, fuel);
  }

  lemma ParsedFrom(r: Packet, q: Query, off: nat, fuel: nat)
    requires |r| >= HEADER && Get16(r, 0) == q.id && Get16(r, 4) == 1 && (Get16(r, 2) / 256 % 2 == 1 <==> q.wantRec)
    requires Decode(r, HEADER, fuel) == Some(Ok(Name(q.name, off)))
    requires off + 4 <= |r| && Get16(r, off) == q.qtype && Get16(r, off + 2) == q.qclass
    ensures Parsed(r, fuel) == Ok(q)
  {
  }

  lemma LaidHeader(r: Packet, q: Query, rcode: Byte, answers: seq<Ip>)
    requires Lays(r, q, rcode, answers)
    ensures |r| >= HEADER && Get16(r, 0) == q.id && Get16(r, 4) == 1 && Get16(r, 6) == |answers| % 65536
    ensures Get16(r, 2) == Flags(q, rcode) && (Get16(r, 2) / 256 % 2 == 1 <==> q.wantRec)
  {
    HeaderFields(r, q, rcode, |answers|);
  }

  lemma LaidQuestion(r: Packet, q: Query, rcode: Byte, answers: seq<Ip>, labels: seq<Text>, off: nat, fuel: nat)
    requires Lays(r, q, rcode, answers) && q.name == Join(labels) && Proper(labels) && fuel > 0
    requires off == HEADER + |Encoded(q.name)|
    ensures Decode(r, HEADER, fuel) == Some(Ok(Name(q.name, off)))
    ensures off + 4 <= |r| && Get16(r, off) == q.qtype && Get16(r, off + 2) == q.qclass
  {
    QuestionFields(r, q, labels, fuel);
  }

  /** Parsing a reply gives back the query it answers if its name can be written. */
  lemma PrintableReply(q: Query, ips: Option<seq<Ip>>, r: Packet, fuel: nat)
    requires Printable(q.name) && fuel > 0 && r == Reply(q, ips)
    ensures Decode(r, HEADER, fuel).Some? && Parsed(r, fuel) == Ok(q)
  {
    var off := HEADER + |Encoded(q.name)|;
    PrintableIsProper(q.name);
    ReplyIsLaid(q, ips);
    LaidHeader(r, q, Code(ips), Given(q, ips));
    LaidQuestion(r, q, Code(ips), Given(q, ips), LabelsOf(q.name), off, fuel);
    ParsedFrom(r, q, off, fuel);
  }

  lemma ReplyName(q: Query, ips: Option<seq<Ip>>, r: Packet)
    requires r == Reply(q, ips)
    ensures At(r, HEADER, Encoded(q.name)) && |r| >= HEADER && Get16(r, 4) == 1
  {
    ReplyIsLaid(q, ips);
    LaidHeader(r, q, Code(ips), Given(q, ips));
    AtSplits(r, HEADER, Encoded(q.name), Put16(q.qtype) + Put16(q.qclass));
  }

  lemma ParsedName(r: Packet, q: Query, fuel: nat)
    requires |r| >= HEADER && Get16(r, 4) == 1 && Readable(r, fuel) && Parsed(r, fuel) == Ok(q)
    ensures var d := Decode(r, HEADER, fuel); d.Some? && d.value.Ok? && d.value.value.text == q.name
  {
  }

  /** Parsing a reply gives back the query it answers exactly when the query's name is empty or has labels of 1 to 63
      bytes. */
  lemma ParseOfReply(q: Query, ips: Option<seq<Ip>>, r: Packet, fuel: nat)
    requires fuel > 0 && r == Reply(q, ips)
    ensures Readable(r, fuel) && Parsed(r, fuel) == Ok(q) <==> Printable(q.name)
  {
    if Printable(q.name) {
      PrintableReply(q, ips, r, fuel);
    } else if Readable(r, fuel) && Parsed(r, fuel) == Ok(q) {
      ReplyName(q, ips, r);
      ParsedName(r, q, fuel);
      ReadBackIsPrintable(r, HEADER, q.name, fuel);
    }
  }

  /**
   * The bytes of a reply's header and of each record: a response, recursion available, recursion desired as asked,
   * no such name (3) exactly when there is no address list; type as asked, class 1, 60 seconds to live.
   */
  lemma ReplyBytes(q: Query, ips: Option<seq<Ip>>, r: Packet, a: Ip)
    requires r == Reply(q, ips)
    ensures |r| >= 12 && r[2] == (if q.wantRec then 0x81 else 0x80) && r[3] == (if ips.None? then 0x83 else 0x80)
    ensures Get16(r, 0) == q.id && r[4..6] == [0, 1] && Get16(r, 6) == |Given(q, ips)| % 65536
    ensures r[8..12] == [0, 0, 0, 0]
    ensures Record(q, a) == [0xC0, 12] + Put16(q.qtype) + [0, 1, 0, 0, 0, 60, 0, if q.qtype == 28 then 16 else 4] + a
  {
    ReplyIsLaid(q, ips);
    HeaderFields(r, q, Code(ips), |Given(q, ips)|);
  }

  /** A question's bytes behind any header that counts one question. */
  predicate Asks(pkt: Packet, q: Query) {
    && |pkt| >= 12 && pkt[4..6] == [0, 1] && Get16(pkt, 0) == q.id && (pkt[2] % 2 == 1 <==> q.wantRec)
    && At(pkt, 12, Question(q))
  }

  /** A query written as the standard says, with whatever other flags, counts and trailing bytes, is received as it is. */
  lemma ParseOfQuery(pkt: Packet, q: Query, fuel: nat)
    requires Asks(pkt, q) && Printable(q.name) && fuel > 0
    ensures Readable(pkt, fuel) && Parsed(pkt, fuel) == Ok(q)
  {
    PrintableIsProper(q.name);
    QuestionFields(pkt, q, LabelsOf(q.name), fuel);
    assert pkt[4] == pkt[4..6][0] && pkt[5] == pkt[4..6][1];
    assert Get16(pkt, 2) / 256 == pkt[2];
    ParsedFrom(pkt, q, HEADER + |Encoded(q.name)|, fuel);
  }

  /** The first fault of a query decides the error. */
  lemma QueryErrors(pkt: Packet, fuel: nat)
    requires Readable(pkt, fuel)
    ensures |pkt| < 12 <==> Parsed(pkt, fuel) == Err(ShortHeader)
    ensures |pkt| >= 12 && pkt[4..6] != [0, 1] <==> Parsed(pkt, fuel) == Err(NotOneQuestion)
    ensures |pkt| >= 12 && pkt[4..6] == [0, 1] ==>
              var d := Decode(pkt, 12, fuel).value;
              && (d.Err? ==> Parsed(pkt, fuel) == Err(BadName(d.error)))
              && (d.Ok? && |pkt| < d.value.next + 4 <==> Parsed(pkt, fuel) == Err(TruncatedQuestion))
  {
    if |pkt| >= 12 {
      assert pkt[4..6] == [pkt[4], pkt[5]];
    }
  }

  // --- the answer section --------------------------------------------------

  datatype Resource = Resource(name: Text, rtype: nat, rclass: nat, ttl: nat, data: Ip)

  type Reader = nat -> Option<(Resource, nat)>

  /** Section 4.1.3 of RFC 1035: one resource record, and where it ends. */
  function ReadRecord(pkt: Packet, off: nat, fuel: nat): Option<(Resource, nat)> {
    match Decode(pkt, off, fuel)
    case Some(Ok(name)) =>
      var at := name.next;
      if at + 10 > |pkt| || at + 10 + Get16(pkt, at + 8) > |pkt| then None
      else
        var end, ttl := at + 10 + Get16(pkt, at + 8), 65536 * Get16(pkt, at + 4) as nat + Get16(pkt, at + 6);
        Some((Resource(name.text, Get16(pkt, at), Get16(pkt, at + 2), ttl, pkt[at + 10..end]), end))
    case _ => None
  }

  function RecordsOf(pkt: Packet, fuel: nat): Reader {
    (off: nat) => ReadRecord(pkt, off, fuel)
  }

  /** `n` records one after the other. */
  function Walk(read: Reader, off: nat, n: nat): Option<seq<Resource>>
    decreases n
  {
    if n == 0 then Some([])
    else
      match read(off)
      case None => None
      case Some((first, end)) =>
        (match Walk(read, end, n - 1)
         case None => None
         case Some(rest) => Some([first] + rest))
  }

  function ResourceOf(q: Query, a: Ip): Resource {
    Resource(q.name, q.qtype, CLASS_IN, TTL, a)
  }

  function Expected(q: Query, answers: seq<Ip>): seq<Resource> {
    seq(|answers|, i requires 0 <= i < |answers| => ResourceOf(q, answers[i]))
  }

  lemma BackPointer(pkt: Packet, off: nat)
    requires At(pkt, off, [0xC0, 0x0C])
    ensures SegmentAt(pkt, off) == Jump([], HEADER, off + 2)
  {
    PointerSegment(pkt, off, HEADER);
  }

  /** A datagram whose question name points at itself is one on which the parser does not end. */
  lemma SelfPointingQuestion(pkt: Packet)
    requires At(pkt, HEADER, [0xC0, 0x0C])
    ensures !Terminates(pkt, HEADER) && !Ends(pkt, HEADER)
  {
    BackPointer(pkt, HEADER);
    SelfPointerNeverEnds(pkt, HEADER);
  }

  /** The back-pointer of a record decodes to the name in the question. */
  lemma PointerDecodes(pkt: Packet, off: nat, question: Name, fuel: nat)
    requires fuel > 0 && Decode(pkt, HEADER, fuel - 1) == Some(Ok(question)) && At(pkt, off, [0xC0, 0x0C])
    ensures Decode(pkt, off, fuel) == Some(Ok(Name(question.text, off + 2)))
  {
    BackPointer(pkt, off);
    assert Join([] + [question.text]) == question.text;
  }

  lemma RecordFields(pkt: Packet, off: nat, q: Query, a: Ip)
    requires At(pkt, off, Record(q, a)) && |a| == DataLength(q.qtype)
    ensures off + 12 + |a| <= |pkt| && At(pkt, off, [0xC0, 0x0C])
    ensures Get16(pkt, off + 2) == q.qtype && Get16(pkt, off + 4) == CLASS_IN
    ensures Get16(pkt, off + 6) == 0 && Get16(pkt, off + 8) == TTL
    ensures Get16(pkt, off + 10) == |a| && pkt[off + 12..off + 12 + |a|] == a
  {
    var length: Word16 := DataLength(q.qtype);
    var fields := Put16(0) + (Put16(TTL) + (Put16(length) + a));
    AtSplits(pkt, off, [0xC0, 0x0C], Put16(q.qtype) + (Put16(CLASS_IN) + fields));
    GetFirst(pkt, off + 2, q.qtype, Put16(CLASS_IN) + fields);
    GetFirst(pkt, off + 4, CLASS_IN, fields);
    GetFirst(pkt, off + 6, 0, Put16(TTL) + (Put16(length) + a));
    GetFirst(pkt, off + 8, TTL, Put16(length) + a);
    GetFirst(pkt, off + 10, length, a);
  }

  lemma ReadOfRecord(pkt: Packet, off: nat, q: Query, a: Ip, question: Name, fuel: nat)
    requires fuel > 0 && Decode(pkt, HEADER, fuel - 1) == Some(Ok(question)) && question.text == q.name
    requires At(pkt, off, Record(q, a)) && |a| == DataLength(q.qtype)
    ensures ReadRecord(pkt, off, fuel) == Some((ResourceOf(q, a), off + 12 + |a|))
  {
    RecordFields(pkt, off, q, a);
    PointerDecodes(pkt, off, question, fuel);
  }

  /** Where a packet holds the record of an address. */
  function PlacesOf(pkt: Packet, q: Query): (nat, Ip) -> bool {
    (off: nat, a: Ip) => At(pkt, off, Record(q, a))
  }

  /** The records of the answers lie one after the other. */
  predicate Strung(at: (nat, Ip) -> bool, off: nat, answers: seq<Ip>)
    decreases |answers|
  {
    answers != [] ==> at(off, answers[0]) && Strung(at, off + 12 + |answers[0]|, answers[1..])
  }

  lemma {:induction false} RecordsAreStrung(pkt: Packet, q: Query, at: (nat, Ip) -> bool, off: nat, answers: seq<Ip>)
    requires at == PlacesOf(pkt, q) && At(pkt, off, Records(q, answers))
    ensures Strung(at, off, answers)
    decreases |answers|
  {
    if answers == [] {
    } else {
      var a, rest := answers[0], answers[1..];
      AtSplits(pkt, off, Record(q, a), Records(q, rest));
      assert at(off, a) && |Record(q, a)| == 12 + |a|;
      RecordsAreStrung(pkt, q, at, off + 12 + |a|, rest);
    }
  }

  /** A record is read wherever it lies. */
  ghost predicate Delivers(read: Reader, at: (nat, Ip) -> bool, q: Query) {
    forall off: nat, a: Ip :: at(off, a) && |a| == DataLength(q.qtype) ==>
      read(off) == Some((ResourceOf(q, a), off + 12 + |a|))
  }

  lemma ReadingRecords(pkt: Packet, off: nat, q: Query, answers: seq<Ip>, question: Name, fuel: nat)
    returns (at: (nat, Ip) -> bool)
    requires fuel > 0 && Decode(pkt, HEADER, fuel - 1) == Some(Ok(question)) && question.text == q.name
    requires At(pkt, off, Records(q, answers))
    ensures Delivers(RecordsOf(pkt, fuel), at, q) && Strung(at, off, answers)
  {
    at := PlacesOf(pkt, q);
    RecordsAreStrung(pkt, q, at, off, answers);
    forall i: nat, a: Ip | at(i, a) && |a| == DataLength(q.qtype)
      ensures ReadRecord(pkt, i, fuel) == Some((ResourceOf(q, a), i + 12 + |a|))
    {
      ReadOfRecord(pkt, i, q, a, question, fuel);
    }
  }

  lemma {:induction false} WalkOfStrung(read: Reader, at: (nat, Ip) -> bool, off: nat, q: Query, answers: seq<Ip>, n: nat)
    requires Delivers(read, at, q) && Strung(at, off, answers) && n <= |answers|
    requires forall i :: 0 <= i < |answers| ==> |answers[i]| == DataLength(q.qtype)
    ensures Walk(read, off, n) == Some(Expected(q, answers[..n]))
    decreases n
  {
    if n == 0 {
      assert Expected(q, answers[..0]) == [];
    } else {
      var a, rest := answers[0], answers[1..];
      WalkOfStrung(read, at, off + 12 + |a|, q, rest, n - 1);
      assert Expected(q, answers[..n]) == [ResourceOf(q, a)] + Expected(q, rest[..n - 1]);
    }
  }

  lemma {:induction false} AnswersFit(qtype: Word16, ips: seq<Ip>)
    ensures forall i :: 0 <= i < |Answers(qtype, ips)| ==> |Answers(qtype, ips)[i]| == DataLength(qtype)
  {
    if ips == [] {
    } else {
      AnswersFit(qtype, ips[..|ips| - 1]);
    }
  }

  lemma GivenFit(q: Query, ips: Option<seq<Ip>>)
    ensures forall i :: 0 <= i < |Given(q, ips)| ==> |Given(q, ips)[i]| == DataLength(q.qtype)
  {
    if ips.Some? {
      AnswersFit(q.qtype, ips.value);
    }
  }

  lemma WalkOfRecords(pkt: Packet, off: nat, q: Query, answers: seq<Ip>, n: nat, question: Name, fuel: nat)
    requires fuel > 0 && Decode(pkt, HEADER, fuel - 1) == Some(Ok(question)) && question.text == q.name
    requires At(pkt, off, Records(q, answers)) && n <= |answers|
    requires forall i :: 0 <= i < |answers| ==> |answers[i]| == DataLength(q.qtype)
    ensures Walk(RecordsOf(pkt, fuel), off, n) == Some(Expected(q, answers[..n]))
  {
    var at := ReadingRecords(pkt, off, q, answers, question, fuel);
    WalkOfStrung(RecordsOf(pkt, fuel), at, off, q, answers, n);
  }

  lemma LaidAnswers(r: Packet, q: Query, rcode: Byte, answers: seq<Ip>, off: nat)
    requires Lays(r, q, rcode, answers) && off == HEADER + |Question(q)|
    ensures At(r, off, Records(q, answers))
  {
  }

  /**
   * Reading as many records as the header counts recovers the answers in order, each under the question's name;
   * the count wraps at 65536.
   */
  lemma WalkOfReply(q: Query, ips: Option<seq<Ip>>, r: Packet, answers: seq<Ip>, off: nat, n: nat, fuel: nat)
    requires Printable(q.name) && fuel >= 2
    requires r == Reply(q, ips) && answers == Given(q, ips) && off == HEADER + |Question(q)| && n == |answers| % 65536
    ensures |r| >= HEADER && Get16(r, 6) == n
    ensures Walk(RecordsOf(r, fuel), off, n) == Some(Expected(q, answers[..n]))
  {
    ReplyIsLaid(q, ips);
    GivenFit(q, ips);
    LaidHeader(r, q, Code(ips), answers);
    var end := HEADER + |Encoded(q.name)|;
    PrintableIsProper(q.name);
    LaidQuestion(r, q, Code(ips), answers, LabelsOf(q.name), end, fuel - 1);
    LaidAnswers(r, q, Code(ips), answers, off);
    WalkOfRecords(r, off, q, answers, n, Name(q.name, end), fuel);
  }

  // --- a query that is not given back --------------------------------------

  /** A query for one label whose name goes on with a pointer to the empty name inside the header. */
  function TrailingDot(): Packet {
    [0, 7, 1, 0, 0, 1, 0, 0, 0, 0, 0, 0, 1, 97, 0xC0, 10, 0, 1, 0, 1]
  }

  lemma TrailingDotFields(pkt: Packet)
    requires pkt == TrailingDot()
    ensures |pkt| == 20 && Get16(pkt, 0) == 7 && Get16(pkt, 2) == 0x0100 && Get16(pkt, 4) == 1
    ensures pkt[10] == 0 && pkt[12] == 1 && pkt[13..14] == [97] && pkt[14] == 0xC0 && Get16(pkt, 14) == 0xC00A
    ensures Get16(pkt, 16) == TYPE_A && Get16(pkt, 18) == CLASS_IN
  {
    assert |pkt| == 20 && pkt[13] == 97;
    assert pkt[13..14] == [pkt[13]];
  }

  lemma TrailingDotName(pkt: Packet, fuel: nat)
    requires |pkt| == 20 && pkt[10] == 0 && pkt[12] == 1 && pkt[13..14] == [97] && fuel >= 2
    requires pkt[14] == 0xC0 && Get16(pkt, 14) == 0xC00A
    ensures Decode(pkt, HEADER, fuel) == Some(Ok(Name([97, DOT], 16)))
  {
    assert SegmentAt(pkt, 10) == Complete([], 11);
    assert Decode(pkt, 10, fuel - 1) == Some(Ok(Name([], 11)));
    assert SegmentAt(pkt, 14) == Jump([], 10, 16);
    assert SegmentAt(pkt, 12) == Prepend([97], SegmentAt(pkt, 14));
    var labels: seq<Text> := [[97]] + [[]];
    assert labels[1..] == [[]];
    assert Join(labels) == [97] + [DOT] + [] == [97, DOT];
  }

  lemma TrailingDotNotPrintable(name: Text)
    requires name == [97, DOT]
    ensures !Printable(name)
  {
    var dot: Text := [DOT];
    assert name[1..] == dot && dot[1..] == [];
    assert Split(dot) == [[]] + [[]];
    assert Split(name)[1] == [];
  }

  /** It is received as "a.". */
  lemma TrailingDotParses(pkt: Packet, q: Query, fuel: nat)
    requires pkt == TrailingDot() && q == Query(7, [97, 46], 1, 1, true) && fuel >= 2
    ensures Readable(pkt, fuel) && Parsed(pkt, fuel) == Ok(q)
  {
    TrailingDotFields(pkt);
    TrailingDotName(pkt, fuel);
    ParsedFrom(pkt, q, 16, fuel);
  }

  /** No reply to a query for "a." gives it back. */
  lemma TrailingDotIsLost(q: Query, ips: Option<seq<Ip>>, r: Packet, fuel: nat)
    requires q.name == [97, DOT] && r == Reply(q, ips) && fuel > 0
    ensures !(Readable(r, fuel) && Parsed(r, fuel) == Ok(q))
  {
    TrailingDotNotPrintable(q.name);
    ParseOfReply(q, ips, r, fuel);
  }
}
