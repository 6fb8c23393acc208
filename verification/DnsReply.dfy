/** Building the reply to a query (build_response and _resolve in rangefinder/facades/dns.py), and what
    a reader gets back out of it. */
module DnsReply {
  import opened Prelude
  import opened Octets
  import opened DnsName
  import opened DnsMessage

  /** A configured record: type, value text, time to live. */
  datatype Stored = Stored(code: nat, value: string, ttl: nat)

  /** The encoding of a value.  Malformed: an error that leaves the record out of the reply.  Crash: any
      other error. */
  datatype Rdata = Encoded(bytes: seq<Byte>) | Malformed | Crash

  /** `rdataOf` encodes a value of a type. */
  datatype Zone = Zone(apex: string, axfrAllowed: bool, records: map<string, seq<Stored>>,
                       rdataOf: (nat, string) -> Rdata, lower: string -> string)

  const ANY := 255
  const AXFR := 252
  const NOERROR := 0
  const SERVFAIL := 2
  const NXDOMAIN := 3
  const REFUSED_FLAGS := 0x8405

  function Key(zone: Zone, qname: string): string {
    StripDots(zone.lower(qname))
  }

  /** The record served for a stored one; None when it cannot be encoded. */
  function Served(zone: Zone, owner: string, s: Stored): Option<Record> {
    match zone.rdataOf(s.code, s.value)
    case Malformed => None
    case Crash => None
    case Encoded(rdata) =>
      var r := Record(owner, s.code, CLASS_IN, s.ttl, rdata);
      if EncodeRecord(r).Some? then Some(r) else None
  }

  /** The encodable records of the wanted type, in stored order. */
  function Matching(zone: Zone, owner: string, stored: seq<Stored>, qtype: nat): seq<Record> {
    if stored == [] then []
    else
      var rest := Matching(zone, owner, stored[1..], qtype);
      var s := stored[0];
      if IsOfType(s, qtype) && Served(zone, owner, s).Some?
      then [Served(zone, owner, s).value] + rest else rest
  }

  predicate IsOfType(s: Stored, qtype: nat) {
    qtype == ANY || s.code == qtype
  }

  /** Encoding this record for an answer fails outright. */
  predicate Crashes(zone: Zone, s: Stored, qtype: nat) {
    IsOfType(s, qtype) && zone.rdataOf(s.code, s.value).Crash?
  }

  /** The answer one stored record contributes: its bytes, or nothing. */
  function AnswerFor(zone: Zone, owner: string, s: Stored, qtype: nat): seq<seq<Byte>> {
    if IsOfType(s, qtype) && Served(zone, owner, s).Some?
    then [EncodeRecord(Served(zone, owner, s).value).value] else []
  }

  lemma AnswersFrom(zone: Zone, owner: string, stored: seq<Stored>, qtype: nat, i: nat)
    requires i < |stored|
    ensures EncodeEach(Matching(zone, owner, stored[i..], qtype))
         == AnswerFor(zone, owner, stored[i], qtype) + EncodeEach(Matching(zone, owner, stored[i + 1..], qtype))
  {
    assert stored[i..][1..] == stored[i + 1..];
    var rest := Matching(zone, owner, stored[i + 1..], qtype);
    if AnswerFor(zone, owner, stored[i], qtype) != [] {
      var r := Served(zone, owner, stored[i]).value;
      assert ([r] + rest)[1..] == rest;
    }
  }

  /** The answers so far and those still to come make up the whole. */
  ghost predicate Collecting(zone: Zone, owner: string, stored: seq<Stored>, qtype: nat, i: nat,
                             answers: seq<seq<Byte>>)
    requires i <= |stored|
  {
    answers + EncodeEach(Matching(zone, owner, stored[i..], qtype)) == EncodeEach(Matching(zone, owner, stored, qtype))
  }

  lemma CollectOne(zone: Zone, owner: string, stored: seq<Stored>, qtype: nat, i: nat, answers: seq<seq<Byte>>)
    requires i < |stored| && Collecting(zone, owner, stored, qtype, i, answers)
    ensures Collecting(zone, owner, stored, qtype, i + 1, answers + AnswerFor(zone, owner, stored[i], qtype))
  {
    AnswersFrom(zone, owner, stored, qtype, i);
    var one := AnswerFor(zone, owner, stored[i], qtype);
    var rest := EncodeEach(Matching(zone, owner, stored[i + 1..], qtype));
    Associates(answers, one, rest);
  }

  /** The loop that collects encoded answers; None when one of them fails outright. */
  method CollectAnswers(zone: Zone, owner: string, stored: seq<Stored>, qtype: nat)
    returns (answers: Option<seq<seq<Byte>>>)
    ensures answers.None? <==> exists s :: s in stored && Crashes(zone, s, qtype)
    ensures answers.Some? ==> answers.value == EncodeEach(Matching(zone, owner, stored, qtype))
  {
    var found: seq<seq<Byte>> := [];
    assert stored[0..] == stored;
    for i := 0 to |stored|
      invariant Collecting(zone, owner, stored, qtype, i, found)
      invariant forall k :: 0 <= k < i ==> !Crashes(zone, stored[k], qtype)
    {
      if Crashes(zone, stored[i], qtype) { return None; }
      CollectOne(zone, owner, stored, qtype, i, found);
      found := found + AnswerFor(zone, owner, stored[i], qtype);
    }
    answers := Some(found);
  }

  lemma {:induction false} MatchingEncodable(zone: Zone, owner: string, stored: seq<Stored>, qtype: nat)
    ensures forall k :: 0 <= k < |Matching(zone, owner, stored, qtype)| ==>
              var r := Matching(zone, owner, stored, qtype)[k]; EncodeRecord(r).Some? && r.owner == owner
  {
    if stored != [] { MatchingEncodable(zone, owner, stored[1..], qtype); }
  }

  function EncodeEach(records: seq<Record>): seq<seq<Byte>> {
    if records == [] then [] else [Wire(records[0])] + EncodeEach(records[1..])
  }

  /** Response, opcode and recursion bit of the query, authoritative, and the code. */
  function Flags(request: nat, rcode: nat): nat
    requires request < 0x1_0000 && rcode < 16
    ensures Flags(request, rcode) < 0x1_0000
  {
    0x8000 + (request / 0x800 % 16) * 0x800 + 0x400 + (request / 0x100 % 2) * 0x100 + rcode
  }

  /** Dropped: the query cannot be parsed.  Transfer: a zone transfer is granted; DnsZone has its messages.
      Oversized: more answers than the count field holds.  Pending: the name is still being decoded. */
  datatype Reply = Dropped | Transfer(id: seq<Byte>, question: seq<Byte>) | Oversized | Pending
                 | Sent(message: seq<Byte>)

  function BuildReply(zone: Zone, data: seq<Byte>, tcp: bool, fuel: nat): Reply {
    if |data| < 4 then Dropped
    else
      match DecodeName(data, 12, fuel)
      case Unfinished => Pending
      case BadIndex => Dropped
      case Decoded(labels, p) =>
        NextIsPast(data, Cursor(12, [], None), fuel);
        if p + 4 > |data| then Dropped else ReplyFor(zone, data, tcp, Join(labels, "."), p)
  }

  /** A transfer is granted over TCP, for the server's own zone, where the capture saw it granted. */
  predicate MayTransfer(zone: Zone, qname: string, tcp: bool) {
    zone.axfrAllowed && tcp && Key(zone, qname) == zone.apex
  }

  function TransferReply(zone: Zone, id: seq<Byte>, question: seq<Byte>, qname: string, tcp: bool): Reply {
    if MayTransfer(zone, qname, tcp) then Transfer(id, question)
    else Sent(Header(id, REFUSED_FLAGS, 0) + question)
  }

  /** The answers for a name and type, and the reply code. */
  function Resolve(zone: Zone, qname: string, qtype: nat): (seq<Record>, nat) {
    var key := Key(zone, qname);
    if key !in zone.records || zone.records[key] == [] then ([], NXDOMAIN)
    else if exists s :: s in zone.records[key] && Crashes(zone, s, qtype) then ([], SERVFAIL)
    else (Matching(zone, key, zone.records[key], qtype), NOERROR)
  }

  function Answer(zone: Zone, id: seq<Byte>, request: nat, question: seq<Byte>, qname: string, qtype: nat): Reply
    requires request < 0x1_0000
  {
    var (answers, rcode) := Resolve(zone, qname, qtype);
    if |answers| >= 0x1_0000 then Oversized
    else Sent(Header(id, Flags(request, rcode), |answers|) + question + Concat(EncodeEach(answers)))
  }

  function Header(id: seq<Byte>, flags: nat, count: nat): seq<Byte>
    requires flags < 0x1_0000 && count < 0x1_0000
  {
    id + U16(flags) + U16(1) + U16(count) + U16(0) + U16(0)
  }

  /** The reply, step by step. */
  method RespondTo(zone: Zone, data: seq<Byte>, tcp: bool, fuel: nat) returns (r: Reply)
    ensures r == BuildReply(zone, data, tcp, fuel)
  {
    if |data| < 4 { return Dropped; }
    var name := RunDecoder(data, 12, fuel);
    if name.Unfinished? { return Pending; }
    if name.BadIndex? || name.next + 4 > |data| { return Dropped; }
    NextIsPast(data, Cursor(12, [], None), fuel);
    r := RespondFor(zone, data, tcp, Join(name.labels, "."), name.next);
  }

  /** The reply to a query whose name ends at `p`. */
  function ReplyFor(zone: Zone, data: seq<Byte>, tcp: bool, qname: string, p: nat): Reply
    requires 12 <= p && p + 4 <= |data|
  {
    var qtype, question := ReadU16(data, p), data[12..p + 4];
    if qtype == AXFR then TransferReply(zone, data[..2], question, qname, tcp)
    else Answer(zone, data[..2], ReadU16(data, 2), question, qname, qtype)
  }

  method RespondFor(zone: Zone, data: seq<Byte>, tcp: bool, qname: string, p: nat) returns (r: Reply)
    requires 12 <= p && p + 4 <= |data|
    ensures r == ReplyFor(zone, data, tcp, qname, p)
  {
    var qtype, question := ReadU16(data, p), data[12..p + 4];
    if qtype == AXFR {
      if MayTransfer(zone, qname, tcp) { return Transfer(data[..2], question); }
      return Sent(Header(data[..2], REFUSED_FLAGS, 0) + question);
    }
    r := RespondWith(zone, data[..2], ReadU16(data, 2), question, qname, qtype);
  }

  method RespondWith(zone: Zone, id: seq<Byte>, request: nat, question: seq<Byte>, qname: string, qtype: nat)
    returns (r: Reply)
    requires request < 0x1_0000
    ensures r == Answer(zone, id, request, question, qname, qtype)
  {
    var key := Key(zone, qname);
    var answers, rcode := [], NXDOMAIN;
    if key in zone.records && zone.records[key] != [] {
      var found := CollectAnswers(zone, key, zone.records[key], qtype);
      answers, rcode := if found.Some? then found.value else [], if found.Some? then NOERROR else SERVFAIL;
    }
    EachIsOne(Resolve(zone, qname, qtype).0);
    if |answers| >= 0x1_0000 { return Oversized; }
    r := Sent(Header(id, Flags(request, rcode), |answers|) + question + Concat(answers));
  }

  lemma {:induction false} EachIsOne(records: seq<Record>)
    ensures |EncodeEach(records)| == |records|
  {
    if records != [] { EachIsOne(records[1..]); }
  }

  // ---------------------------------------------------------------- reading a reply

  datatype Reading = Reading(id: seq<Byte>, flags: nat, question: seq<Byte>, qname: string, answers: seq<Record>)

  function ReadReply(msg: seq<Byte>): Option<Reading> {
    if |msg| < 12 then None
    else
      match DecodeName(msg, 12, |msg|)
      case Unfinished => None
      case BadIndex => None
      case Decoded(labels, p) =>
        NextIsPast(msg, Cursor(12, [], None), |msg|);
        ReadAnswers(msg, Join(labels, "."), p)
  }

  /** What follows the name asked for, which ends at `p`. */
  function ReadAnswers(msg: seq<Byte>, qname: string, p: nat): Option<Reading>
    requires 12 <= p && 12 <= |msg|
  {
    if p + 4 > |msg| then None
    else
      match ReadRecords(msg, p + 4, ReadU16(msg, 6))
      case None => None
      case Some(records) => Some(Reading(msg[..2], ReadU16(msg, 2), msg[12..p + 4], qname, records))
  }

  lemma ConcatFirst(records: seq<Record>)
    requires records != []
    ensures Concat(EncodeEach(records)) == Wire(records[0]) + Concat(EncodeEach(records[1..]))
  {
    assert EncodeEach(records)[1..] == EncodeEach(records[1..]);
  }

  /** The records from `o` on read as these. */
  predicate ReadsAsRun(data: seq<Byte>, o: nat, records: seq<Record>) {
    ReadRecords(data, o, |records|) == Some(records)
  }

  predicate ReadsReply(msg: seq<Byte>, r: Reading) {
    ReadReply(msg) == Some(r)
  }

  /** A run of written records reads back as those records. */
  lemma {:induction false} ReadRunOfRecords(data: seq<Byte>, o: nat, records: seq<Record>)
    requires AllWritable(records) && Holds(data, o, Concat(EncodeEach(records)))
    ensures ReadsAsRun(data, o, records)
    decreases |records|
  {
    if records != [] {
      var p := FirstIsRead(data, o, records);
      ReadRunOfRecords(data, p, records[1..]);
      OneThenRest(data, o, records[0], p, records[1..]);
      assert [records[0]] + records[1..] == records;
    }
  }

  lemma FirstIsRead(data: seq<Byte>, o: nat, records: seq<Record>) returns (p: nat)
    requires records != [] && AllWritable(records) && Holds(data, o, Concat(EncodeEach(records)))
    ensures ReadsAs(data, o, records[0], p)
    ensures AllWritable(records[1..]) && Holds(data, p, Concat(EncodeEach(records[1..])))
  {
    p := FirstHolds(data, o, records);
    assert Writable(records[0]);
    ReadWritten(data, o, records[0]);
  }

  lemma FirstHolds(data: seq<Byte>, o: nat, records: seq<Record>) returns (p: nat)
    requires records != [] && Holds(data, o, Concat(EncodeEach(records)))
    ensures p == o + |Wire(records[0])| && Holds(data, o, Wire(records[0]))
    ensures Holds(data, p, Concat(EncodeEach(records[1..])))
  {
    var first, rest := Wire(records[0]), Concat(EncodeEach(records[1..]));
    ConcatFirst(records);
    assert Holds(data, o, first + rest);
    HoldsBoth(data, o, first, rest);
    p := o + |first|;
  }

  lemma OneThenRest(data: seq<Byte>, o: nat, r: Record, p: nat, rest: seq<Record>)
    requires ReadsAs(data, o, r, p) && ReadsAsRun(data, p, rest)
    ensures ReadsAsRun(data, o, [r] + rest)
  {}

  predicate HeaderReads(msg: seq<Byte>, id: seq<Byte>, flags: nat, count: nat) {
    12 <= |msg| && msg[..2] == id && ReadU16(msg, 2) == flags && ReadU16(msg, 6) == count
  }

  predicate NameReads(msg: seq<Byte>, labels: seq<string>, p: nat) {
    12 <= p && p + 4 <= |msg| && DecodeName(msg, 12, |msg|) == Decoded(labels, p)
  }

  lemma HeaderFields(msg: seq<Byte>, id: seq<Byte>, flags: nat, count: nat)
    requires |id| == 2 && flags < 0x1_0000 && count < 0x1_0000 && Holds(msg, 0, Header(id, flags, count))
    ensures HeaderReads(msg, id, flags, count)
  {
    HoldsBoth(msg, 0, id + U16(flags) + U16(1) + U16(count) + U16(0), U16(0));
    HoldsBoth(msg, 0, id + U16(flags) + U16(1) + U16(count), U16(0));
    HoldsBoth(msg, 0, id + U16(flags) + U16(1), U16(count));
    HoldsBoth(msg, 0, id + U16(flags), U16(1));
    HoldsBoth(msg, 0, id, U16(flags));
    ReadU16At(msg, 2, flags);
    ReadU16At(msg, 6, count);
    HoldsSlice(msg, 0, id);
    assert msg[0..2] == msg[..2];
  }

  /** A well-formed query for `qname`: header, question, and whatever follows. */
  ghost predicate IsQuery(data: seq<Byte>, head: seq<Byte>, qname: string, tail: seq<Byte>, extra: seq<Byte>) {
    && |head| == 12 && |tail| == 4 && PlainName(qname) && WireName(qname).Some?
    && data == head + WireName(qname).value + tail + extra
  }

  /** What the reply to a query says, read back: the query's id, the question verbatim, and exactly the
      stored records of that name and type that can be encoded, in order. */
  lemma ReplyReadsBack(zone: Zone, data: seq<Byte>, tcp: bool, head: seq<Byte>, qname: string, tail: seq<Byte>,
                       extra: seq<Byte>)
    requires IsQuery(data, head, qname, tail, extra) && ReadU16(tail, 0) != AXFR
    requires PlainName(Key(zone, qname))
    requires |Resolve(zone, qname, ReadU16(tail, 0)).0| < 0x1_0000
    ensures var reply := BuildReply(zone, data, tcp, |data|);
            var (answers, rcode) := Resolve(zone, qname, ReadU16(tail, 0));
            reply.Sent? && ReadsReply(reply.message, Reading(head[..2], Flags(ReadU16(head, 2), rcode),
                                                             WireName(qname).value + tail, qname, answers))
  {
    QueryParses(zone, data, tcp, head, qname, tail, extra);
    AnswerReadsBack(zone, head[..2], ReadU16(head, 2), qname, tail, ReadU16(tail, 0));
  }

  /** A transfer that is not granted is refused, with the question and no answer. */
  lemma RefusalReadsBack(zone: Zone, data: seq<Byte>, tcp: bool, head: seq<Byte>, qname: string, tail: seq<Byte>,
                         extra: seq<Byte>)
    requires IsQuery(data, head, qname, tail, extra) && ReadU16(tail, 0) == AXFR
    ensures var reply, question := BuildReply(zone, data, tcp, |data|), WireName(qname).value + tail;
            if MayTransfer(zone, qname, tcp) then reply == Transfer(head[..2], question)
            else reply.Sent? && ReadsReply(reply.message, Reading(head[..2], REFUSED_FLAGS, question, qname, []))
  {
    QueryParses(zone, data, tcp, head, qname, tail, extra);
    MessageReadsBack(head[..2], REFUSED_FLAGS, qname, tail, []);
    var message := Header(head[..2], REFUSED_FLAGS, 0) + (WireName(qname).value + tail);
    assert Concat(EncodeEach([])) == [] && message + [] == message;
  }

  lemma QueryParts(data: seq<Byte>, head: seq<Byte>, name: seq<Byte>, tail: seq<Byte>, extra: seq<Byte>)
    requires |head| == 12 && |tail| == 4 && data == head + name + tail + extra
    ensures var p := 12 + |name|;
            && p + 4 <= |data| && Holds(data, 12, name) && data[..2] == head[..2]
            && ReadU16(data, 2) == ReadU16(head, 2) && ReadU16(data, p) == ReadU16(tail, 0)
            && data[12..p + 4] == name + tail
  {
    var p := 12 + |name|;
    assert data[2] == head[2] && data[3] == head[3];
    assert data[p] == tail[0] && data[p + 1] == tail[1];
    assert data[12..p] == name && data[12..p + 4] == name + tail;
    HoldsSlice(data, 12, name);
  }

  lemma QueryParses(zone: Zone, data: seq<Byte>, tcp: bool, head: seq<Byte>, qname: string, tail: seq<Byte>,
                    extra: seq<Byte>)
    requires IsQuery(data, head, qname, tail, extra)
    ensures var question := WireName(qname).value + tail;
            BuildReply(zone, data, tcp, |data|) ==
              if ReadU16(tail, 0) == AXFR then TransferReply(zone, head[..2], question, qname, tcp)
              else Answer(zone, head[..2], ReadU16(head, 2), question, qname, ReadU16(tail, 0))
  {
    QueryParts(data, head, WireName(qname).value, tail, extra);
    ReadPlainName(data, 12, qname);
  }

  lemma AnswerReadsBack(zone: Zone, id: seq<Byte>, request: nat, qname: string, tail: seq<Byte>, qtype: nat)
    requires |id| == 2 && request < 0x1_0000 && |tail| == 4
    requires PlainName(qname) && WireName(qname).Some? && PlainName(Key(zone, qname))
    requires |Resolve(zone, qname, qtype).0| < 0x1_0000
    ensures var question := WireName(qname).value + tail;
            var reply := Answer(zone, id, request, question, qname, qtype);
            var (answers, rcode) := Resolve(zone, qname, qtype);
            reply.Sent? && ReadsReply(reply.message, Reading(id, Flags(request, rcode), question, qname, answers))
  {
    var (answers, rcode) := Resolve(zone, qname, qtype);
    var key := Key(zone, qname);
    if key in zone.records { MatchingEncodable(zone, key, zone.records[key], qtype); }
    var question := WireName(qname).value + tail;
    var body := Concat(EncodeEach(answers));
    var msg := Header(id, Flags(request, rcode), |answers|) + question + body;
    assert Answer(zone, id, request, question, qname, qtype) == Sent(msg);
    MessageReadsBack(id, Flags(request, rcode), qname, tail, answers);
  }

  lemma MessageReadsBack(id: seq<Byte>, flags: nat, qname: string, tail: seq<Byte>, answers: seq<Record>)
    requires |id| == 2 && flags < 0x1_0000 && |tail| == 4 && |answers| < 0x1_0000
    requires PlainName(qname) && WireName(qname).Some?
    requires AllWritable(answers)
    ensures var question := WireName(qname).value + tail;
            ReadsReply(Header(id, flags, |answers|) + question + Concat(EncodeEach(answers)),
                       Reading(id, flags, question, qname, answers))
  {
    var name, body := WireName(qname).value, Concat(EncodeEach(answers));
    var msg := Header(id, flags, |answers|) + (name + tail) + body;
    MessageParts(msg, Header(id, flags, |answers|), name, tail, body);
    NameIsRead(msg, qname);
    HeaderIsRead(msg, id, flags, answers, 12 + |name| + 4);
    ReadReplyParts(msg, id, flags, PlainLabelsOf(qname), 12 + |name|, answers);
  }

  /** The header and the run of records at the end of a message that holds them. */
  lemma HeaderIsRead(msg: seq<Byte>, id: seq<Byte>, flags: nat, answers: seq<Record>, o: nat)
    requires |id| == 2 && flags < 0x1_0000 && |answers| < 0x1_0000 && AllWritable(answers)
    requires Holds(msg, 0, Header(id, flags, |answers|)) && Holds(msg, o, Concat(EncodeEach(answers)))
    ensures HeaderReads(msg, id, flags, |answers|) && ReadsAsRun(msg, o, answers)
  {
    HeaderFields(msg, id, flags, |answers|);
    ReadRunOfRecords(msg, o, answers);
  }

  lemma NameIsRead(msg: seq<Byte>, qname: string)
    requires PlainName(qname) && WireName(qname).Some? && Holds(msg, 12, WireName(qname).value)
    requires 12 + |WireName(qname).value| + 4 <= |msg|
    ensures NameReads(msg, PlainLabelsOf(qname), 12 + |WireName(qname).value|)
    ensures Join(PlainLabelsOf(qname), ".") == qname
  {
    ReadPlainName(msg, 12, qname);
  }

  lemma MessageParts(msg: seq<Byte>, head: seq<Byte>, name: seq<Byte>, tail: seq<Byte>, body: seq<Byte>)
    requires |head| == 12 && |tail| == 4 && msg == head + (name + tail) + body
    ensures var p := 12 + |name|;
            && p + 4 <= |msg| && Holds(msg, 0, head) && Holds(msg, 12, name) && Holds(msg, p + 4, body)
            && msg[12..p + 4] == name + tail
  {
    HoldsBoth(msg, 0, head + (name + tail), body);
    HoldsBoth(msg, 0, head, name + tail);
    HoldsBoth(msg, 12, name, tail);
    HoldsSlice(msg, 12, name + tail);
  }

  lemma ReadReplyParts(msg: seq<Byte>, id: seq<Byte>, flags: nat, labels: seq<string>, p: nat, records: seq<Record>)
    requires HeaderReads(msg, id, flags, |records|) && NameReads(msg, labels, p) && ReadsAsRun(msg, p + 4, records)
    ensures ReadsReply(msg, Reading(id, flags, msg[12..p + 4], Join(labels, "."), records))
  {
    assert ReadReply(msg) == ReadAnswers(msg, Join(labels, "."), p);
  }
}
