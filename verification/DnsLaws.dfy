/** What a query is answered with, in the fields of the stored records (rangefinder/facades/dns.py):
    which names and types an answer has, in what order, and what the header says. */
module DnsLaws {
  import opened Prelude
  import opened Octets
  import opened DnsName
  import opened DnsMessage
  import opened DnsReply
  import opened DnsTransfer
  import opened DnsZone

  // ---------------------------------------------------------------- the name looked up

  predicate OnlyDots(s: string) {
    forall i :: 0 <= i < |s| ==> s[i] == '.'
  }

  lemma {:induction false} StripsDots(key: string, dots: string)
    requires OnlyDots(dots) && (key == "" || key[|key| - 1] != '.')
    ensures StripDots(key + dots) == key
    decreases |dots|
  {
    if dots == "" {
      assert key + dots == key;
    } else {
      var most := dots[..|dots| - 1];
      assert (key + dots)[..|key + dots| - 1] == key + most;
      StripsDots(key, most);
    }
  }

  /** `key` is the name asked for in lower case, without the dots at its end. */
  ghost predicate IsKey(zone: Zone, qname: string, key: string) {
    (key == "" || key[|key| - 1] != '.') && exists dots :: OnlyDots(dots) && zone.lower(qname) == key + dots
  }

  lemma KeyIs(zone: Zone, qname: string, key: string)
    requires IsKey(zone, qname, key)
    ensures Key(zone, qname) == key
  {
    var dots :| OnlyDots(dots) && zone.lower(qname) == key + dots;
    StripsDots(key, dots);
  }

  // ---------------------------------------------------------------- the answers

  /** `r` is what a stored record is served as: same type, value as encoded, class IN. */
  ghost predicate ServedAs(zone: Zone, key: string, s: Stored, r: Record) {
    && r.owner == key && r.code == s.code && r.qclass == 1 && r.ttl == s.ttl
    && zone.rdataOf(s.code, s.value) == Encoded(r.rdata)
    && s.code < 0x1_0000 && s.ttl < 0x1_0000_0000 && |r.rdata| < 0x1_0000 && Encodable(Labels(key))
  }

  lemma ServedIs(zone: Zone, key: string, s: Stored, r: Record)
    ensures Served(zone, key, s) == Some(r) <==> ServedAs(zone, key, s, r)
  {}

  /** Stored record `i` answers a query of that type: 255 asks for every type. */
  ghost predicate Answers(zone: Zone, key: string, stored: seq<Stored>, qtype: nat, i: nat) {
    i < |stored| && (qtype == 255 || stored[i].code == qtype) && exists r :: ServedAs(zone, key, stored[i], r)
  }

  /** The answers are, in stored order, one for each stored record that answers, at these places. */
  ghost predicate AnswersAt(zone: Zone, key: string, stored: seq<Stored>, qtype: nat, answers: seq<Record>,
                            at: seq<nat>) {
    && |at| == |answers| && (forall k :: 0 <= k < |at| ==> at[k] < |stored|)
    && (forall k :: 1 <= k < |at| ==> at[k - 1] < at[k])
    && (forall k :: 0 <= k < |at| ==> ServedAs(zone, key, stored[at[k]], answers[k]))
    && forall i :: i in at <==> Answers(zone, key, stored, qtype, i)
  }

  lemma {:induction false} MatchingAnswers(zone: Zone, key: string, stored: seq<Stored>, qtype: nat)
    returns (at: seq<nat>)
    ensures AnswersAt(zone, key, stored, qtype, Matching(zone, key, stored, qtype), at)
    decreases |stored|
  {
    if stored == [] {
      at := [];
    } else {
      var rest := MatchingAnswers(zone, key, stored[1..], qtype);
      FirstAnswers(zone, key, stored, qtype);
      if Answers(zone, key, stored, qtype, 0) {
        var r :| ServedAs(zone, key, stored[0], r)
                 && Matching(zone, key, stored, qtype) == [r] + Matching(zone, key, stored[1..], qtype);
        at := [0] + Shift(rest);
        FirstIsAnswer(zone, key, stored, qtype, r, Matching(zone, key, stored[1..], qtype), rest);
      } else {
        at := Shift(rest);
        FirstIsNone(zone, key, stored, qtype, Matching(zone, key, stored[1..], qtype), rest);
      }
    }
  }

  lemma PlacesShift(zone: Zone, key: string, stored: seq<Stored>, qtype: nat, answers: seq<Record>, at: seq<nat>,
                    i: nat)
    requires stored != [] && AnswersAt(zone, key, stored[1..], qtype, answers, at)
    ensures i in Shift(at) <==> i > 0 && Answers(zone, key, stored, qtype, i)
  {
    ShiftHas(at);
    if i > 0 {
      assert i < |stored| ==> stored[1..][i - 1] == stored[i];
      assert Answers(zone, key, stored[1..], qtype, i - 1) <==> Answers(zone, key, stored, qtype, i);
      assert i - 1 in at <==> Answers(zone, key, stored[1..], qtype, i - 1);
    }
  }

  lemma FirstIsNone(zone: Zone, key: string, stored: seq<Stored>, qtype: nat, answers: seq<Record>, at: seq<nat>)
    requires stored != [] && AnswersAt(zone, key, stored[1..], qtype, answers, at)
    requires !Answers(zone, key, stored, qtype, 0)
    ensures AnswersAt(zone, key, stored, qtype, answers, Shift(at))
  {
    forall i: nat ensures i in Shift(at) <==> Answers(zone, key, stored, qtype, i) {
      PlacesShift(zone, key, stored, qtype, answers, at, i);
    }
  }

  lemma FirstIsAnswer(zone: Zone, key: string, stored: seq<Stored>, qtype: nat, r: Record, answers: seq<Record>,
                      at: seq<nat>)
    requires stored != [] && AnswersAt(zone, key, stored[1..], qtype, answers, at)
    requires Answers(zone, key, stored, qtype, 0) && ServedAs(zone, key, stored[0], r)
    ensures AnswersAt(zone, key, stored, qtype, [r] + answers, [0] + Shift(at))
  {
    var all, places := [r] + answers, [0] + Shift(at);
    forall i: nat ensures i in places <==> Answers(zone, key, stored, qtype, i) {
      PlacesShift(zone, key, stored, qtype, answers, at, i);
      assert i in places <==> i == 0 || i in Shift(at);
    }
    forall k | 1 <= k < |places| ensures places[k - 1] < places[k] {
      assert places[k] == at[k - 1] + 1;
      if k > 1 { assert places[k - 1] == at[k - 2] + 1 && at[k - 2] < at[k - 1]; }
    }
    forall k | 0 <= k < |places| ensures ServedAs(zone, key, stored[places[k]], all[k]) {
      if k > 0 { assert ServedAs(zone, key, stored[1..][at[k - 1]], answers[k - 1]); }
    }
  }

  function Shift(s: seq<nat>): seq<nat> {
    seq(|s|, k requires 0 <= k < |s| => s[k] + 1)
  }

  lemma ShiftHas(s: seq<nat>)
    ensures forall i: nat :: i + 1 in Shift(s) <==> i in s
    ensures 0 !in Shift(s)
  {
    forall i: nat | i in s ensures i + 1 in Shift(s) {
      var k :| 0 <= k < |s| && s[k] == i;
      assert Shift(s)[k] == i + 1;
    }
  }

  lemma FirstAnswers(zone: Zone, key: string, stored: seq<Stored>, qtype: nat)
    requires stored != []
    ensures var rest := Matching(zone, key, stored[1..], qtype);
            if Answers(zone, key, stored, qtype, 0)
            then exists r :: ServedAs(zone, key, stored[0], r) && Matching(zone, key, stored, qtype) == [r] + rest
            else Matching(zone, key, stored, qtype) == rest
  {
    forall r ensures Served(zone, key, stored[0]) == Some(r) <==> ServedAs(zone, key, stored[0], r) {
      ServedIs(zone, key, stored[0], r);
    }
  }

  // ---------------------------------------------------------------- the reply code

  /** A stored record of a type asked for whose encoding fails outright. */
  ghost predicate Breaks(zone: Zone, stored: seq<Stored>, qtype: nat) {
    exists s :: s in stored && (qtype == 255 || s.code == qtype) && zone.rdataOf(s.code, s.value) == Crash
  }

  /** Three when nothing is stored under the name, two when a record fails outright, and otherwise zero, with
      the answers. */
  ghost predicate IsResolved(zone: Zone, key: string, qtype: nat, answers: seq<Record>, rcode: nat) {
    var stored := if key in zone.records then zone.records[key] else [];
    if stored == [] then rcode == 3 && answers == []
    else if Breaks(zone, stored, qtype) then rcode == 2 && answers == []
    else rcode == 0 && exists at :: AnswersAt(zone, key, stored, qtype, answers, at)
  }

  lemma ResolveIs(zone: Zone, qname: string, qtype: nat, key: string)
    requires IsKey(zone, qname, key)
    ensures IsResolved(zone, key, qtype, Resolve(zone, qname, qtype).0, Resolve(zone, qname, qtype).1)
  {
    KeyIs(zone, qname, key);
    if key in zone.records && zone.records[key] != [] {
      var stored := zone.records[key];
      forall s ensures Crashes(zone, s, qtype) <==>
                       (qtype == 255 || s.code == qtype) && zone.rdataOf(s.code, s.value) == Crash
      {}
      var at := MatchingAnswers(zone, key, stored, qtype);
    }
  }

  // ---------------------------------------------------------------- the header

  /** A response, authoritative, not cut short, with the opcode and the recursion bit of the query and this
      reply code. */
  predicate IsReplyTo(flags: nat, request: nat, rcode: nat) {
    && flags < 0x1_0000 && flags / 0x8000 == 1 && flags / 0x800 % 16 == request / 0x800 % 16
    && flags / 0x400 % 2 == 1 && flags / 0x200 % 2 == 0 && flags / 0x100 % 2 == request / 0x100 % 2
    && flags / 0x10 % 16 == 0 && flags % 16 == rcode
  }

  lemma FlagsAre(request: nat, rcode: nat)
    requires request < 0x1_0000 && rcode < 16
    ensures IsReplyTo(Flags(request, rcode), request, rcode)
  {
    var op, rd := request / 0x800 % 16, request / 0x100 % 2;
    FlagBits(Flags(request, rcode), op, rd, rcode);
  }

  lemma FlagBits(flags: nat, op: nat, rd: nat, rcode: nat)
    requires op < 16 && rd < 2 && rcode < 16 && flags == 0x8000 + op * 0x800 + 0x400 + rd * 0x100 + rcode
    ensures flags < 0x1_0000 && flags / 0x8000 == 1 && flags / 0x800 % 16 == op && flags / 0x400 % 2 == 1
    ensures flags / 0x200 % 2 == 0 && flags / 0x100 % 2 == rd && flags / 0x10 % 16 == 0 && flags % 16 == rcode
  {
    assert flags / 0x800 == 16 + op;
    assert flags / 0x400 == 33 + 2 * op;
    assert flags / 0x200 == 66 + 4 * op;
    assert flags / 0x100 == 132 + 8 * op + rd;
    assert flags / 0x10 == 2112 + 128 * op + 16 * rd;
  }

  /** The two flag words that do not depend on the query: a transfer, and a refusal. */
  lemma FixedFlagsAre()
    ensures REFUSED_FLAGS == 0x8000 + 0x400 + 5 && TRANSFER_FLAGS == 0x8000 + 0x400
  {}

  // ---------------------------------------------------------------- from query to answer

  ghost predicate RepliesWith(zone: Zone, data: seq<Byte>, tcp: bool, head: seq<Byte>, qname: string, tail: seq<Byte>,
                              flags: nat, answers: seq<Record>) {
    var reply := BuildReply(zone, data, tcp, |data|);
    reply.Sent? && WireName(qname).Some? && |head| == 12
    && ReadsReply(reply.message, Reading(head[..2], flags, WireName(qname).value + tail, qname, answers))
  }

  lemma {:induction false} MatchingIsShort(zone: Zone, key: string, stored: seq<Stored>, qtype: nat)
    ensures |Matching(zone, key, stored, qtype)| <= |stored|
  {
    if stored != [] { MatchingIsShort(zone, key, stored[1..], qtype); }
  }

  /** Any query but one for a transfer is answered with what is stored: of the type asked for, or of every type
      for 255, what can be encoded, in stored order; and with code three where nothing is stored, and two
      where a record of that type fails outright. */
  lemma QueryIsAnswered(zone: Zone, data: seq<Byte>, tcp: bool, head: seq<Byte>, qname: string, tail: seq<Byte>,
                        extra: seq<Byte>, key: string) returns (flags: nat, answers: seq<Record>, rcode: nat)
    requires IsQuery(data, head, qname, tail, extra) && ReadU16(tail, 0) != 252
    requires IsKey(zone, qname, key) && PlainName(key) && (key in zone.records ==> |zone.records[key]| < 0x1_0000)
    ensures RepliesWith(zone, data, tcp, head, qname, tail, flags, answers)
    ensures IsReplyTo(flags, ReadU16(head, 2), rcode) && IsResolved(zone, key, ReadU16(tail, 0), answers, rcode)
  {
    var qtype := ReadU16(tail, 0);
    KeyIs(zone, qname, key);
    ResolveIs(zone, qname, qtype, key);
    if key in zone.records { MatchingIsShort(zone, key, zone.records[key], qtype); }
    answers, rcode := Resolve(zone, qname, qtype).0, Resolve(zone, qname, qtype).1;
    flags := Flags(ReadU16(head, 2), rcode);
    FlagsAre(ReadU16(head, 2), rcode);
    ReplyReadsBack(zone, data, tcp, head, qname, tail, extra);
  }

  /** A transfer is granted over TCP, where the capture saw it granted, for the name of the zone itself; in any
      other case the reply is a refusal without records. */
  lemma TransferIsGranted(zone: Zone, data: seq<Byte>, tcp: bool, head: seq<Byte>, qname: string, tail: seq<Byte>,
                          extra: seq<Byte>, key: string)
    requires IsQuery(data, head, qname, tail, extra) && ReadU16(tail, 0) == 252 && IsKey(zone, qname, key)
    ensures if zone.axfrAllowed && tcp && key == zone.apex
            then BuildReply(zone, data, tcp, |data|) == Transfer(head[..2], WireName(qname).value + tail)
            else RepliesWith(zone, data, tcp, head, qname, tail, 0x8000 + 0x400 + 5, [])
  {
    KeyIs(zone, qname, key);
    RefusalReadsBack(zone, data, tcp, head, qname, tail, extra);
  }

  // ---------------------------------------------------------------- what a transfer carries

  /** A name of the zone: its apex, or one that ends in a dot and the apex. */
  ghost predicate OfZone(zone: Zone, name: string) {
    name == zone.apex || exists front :: name == front + "." + zone.apex
  }

  lemma InZoneIs(zone: Zone, name: string)
    ensures InZone(zone, name) <==> OfZone(zone, name)
  {
    var tail := "." + zone.apex;
    if EndsWith(name, tail) {
      var front := name[..|name| - |tail|];
      Associates(front, ".", zone.apex);
      assert name == front + tail;
    }
    if front :| name == front + "." + zone.apex {
      Associates(front, ".", zone.apex);
      assert name[|front|..] == tail;
    }
  }

  ghost predicate Carried(zone: Zone, names: seq<string>, r: Record, name: string, s: Stored) {
    && name in names && OfZone(zone, name) && name in zone.records && s in zone.records[name]
    && s.code != 6 && ServedAs(zone, name, s, r)
  }

  predicate NoNameServer(zone: Zone) {
    zone.apex in zone.records ==> forall s :: s in zone.records[zone.apex] ==> s.code != 2
  }

  /** The start of authority of a transfer is one stored for the zone, or the made-up one. */
  ghost predicate IsStart(zone: Zone, r: Record) {
    (zone.apex in zone.records
     && exists s :: s in zone.records[zone.apex] && s.code == 6 && ServedAs(zone, zone.apex, s, r))
    || ServedAs(zone, zone.apex, Stored(6, "ns." + zone.apex + " hostmaster." + zone.apex
                                           + " 1 3600 600 86400 300", 300), r)
  }

  lemma StartIs(zone: Zone)
    requires ZoneSoa(zone).Some?
    ensures IsStart(zone, ZoneSoa(zone).value)
  {
    var r, stored := ZoneSoa(zone).value, StoredAt(zone, zone.apex);
    CapturedSoaIs(zone, stored);
    forall s ensures Served(zone, zone.apex, s) == Some(r) <==> ServedAs(zone, zone.apex, s, r) {
      ServedIs(zone, zone.apex, s, r);
    }
  }

  /** A transfer carries, between two copies of its start of authority, exactly the stored records of its names
      that can be encoded, other than starts of authority, and "ns" before the zone as name server where
      none is stored for it. */
  lemma TransferCarries(zone: Zone, names: seq<string>, r: Record)
    requires ZoneRecords(zone, names).Some?
    ensures var rrs := ZoneRecords(zone, names).value;
            var n := |rrs| - 1;
            && n >= 1 && rrs[0] == rrs[n] && IsStart(zone, rrs[0])
            && (r in rrs[1..n] <==>
                (exists name, s :: Carried(zone, names, r, name, s))
                || (NoNameServer(zone)
                    && ServedAs(zone, zone.apex, Stored(2, "ns." + zone.apex, 300), r)))
  {
    TransferIsTheZone(zone, names);
    StartIs(zone);
    ServedIs(zone, zone.apex, SyntheticNs(zone), r);
    assert HasApexNs(zone) <==> !NoNameServer(zone);
    forall name, s ensures DeclaredAs(zone, names, r, name, s) <==> Carried(zone, names, r, name, s) {
      InZoneIs(zone, name);
      ServedIs(zone, name, s, r);
    }
    if IsDeclared(zone, names, r) {
      var name, s :| DeclaredAs(zone, names, r, name, s);
      assert Carried(zone, names, r, name, s);
    }
    if name, s :| Carried(zone, names, r, name, s) { assert DeclaredAs(zone, names, r, name, s); }
  }

  /** A message of a transfer that carries more than one record stays within 65000 bytes. */
  lemma SharedMessagesFit(id: seq<Byte>, question: seq<Byte>, rrs: Block, k: nat)
    requires |id| == 2 && AreRecords(rrs) && k < |Chunks(12 + |question|, [], rrs)|
    requires |Chunks(12 + |question|, [], rrs)[k]| > 1
    ensures Countable(Chunks(12 + |question|, [], rrs))
    ensures |Messages(id, question, Chunks(12 + |question|, [], rrs))[k]| <= 65000
  {
    var base, blocks := 12 + |question|, Chunks(12 + |question|, [], rrs);
    CountableBlocks(base, [], rrs);
    ChunksConserve(base, [], rrs);
    assert Fits(base, blocks[k]);
    MessageLength(id, question, blocks[k]);
  }

  // ---------------------------------------------------------------- names on the wire

  /** A name is encoded exactly when no label is longer than 255 characters or has one that a byte cannot
      hold. */
  lemma NameEncodesIff(labels: seq<string>)
    ensures Encodable(labels) <==>
            forall l :: l in labels ==> |l| <= 255 && forall i :: 0 <= i < |l| ==> l[i] as int <= 255
  {}

  /** Two bytes from 0xC0 up point to the offset in their lower fourteen bits: the name read there is what is
      read here, and reading goes on past the two bytes. */
  lemma PointerReadsAs(data: seq<Byte>, o: nat, t: nat, fuel: nat) returns (turns: nat)
    requires o + 1 < |data| && t < 0x4000 && data[o] == 0xC0 + t / 0x100 && data[o + 1] == t % 0x100
    requires DecodeName(data, t, fuel).Decoded?
    ensures DecodeName(data, o, turns) == Decoded(DecodeName(data, t, fuel).labels, o + 2)
  {
    var labels, jumps := FinishedIsLaidOut(data, Cursor(t, [], None), fuel);
    assert [] + labels == labels;
    assert PointerTarget(data, o) == t && LaidOut(data, o, labels, jumps + 1);
    DecodeCompressed(data, o, labels, jumps + 1);
    turns := |labels| + jumps + 2;
  }
}
