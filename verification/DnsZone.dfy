/** The records of a zone transfer (_zone_rrs and _zone_soa in rangefinder/facades/dns.py; section 2.2 of
    RFC 5936), and the whole way from a transfer query to what a client reads. */
module DnsZone {
  import opened Prelude
  import opened Octets
  import opened DnsMessage
  import opened DnsReply
  import opened DnsTransfer

  const NS := 2
  const SOA := 6
  const DEFAULT_TTL := 300

  predicate InZone(zone: Zone, name: string) {
    name == zone.apex || EndsWith(name, "." + zone.apex)
  }

  function StoredAt(zone: Zone, name: string): seq<Stored> {
    if name in zone.records then zone.records[name] else []
  }

  /** Encoding this record fails outright. */
  predicate Fails(zone: Zone, s: Stored) {
    zone.rdataOf(s.code, s.value).Crash?
  }

  /** The record, if it can be encoded. */
  function OneOrNone(zone: Zone, owner: string, s: Stored): seq<Record> {
    if Served(zone, owner, s).Some? then [Served(zone, owner, s).value] else []
  }

  /** The first start of authority that can be encoded; an error when one before it fails outright. */
  function CapturedSoa(zone: Zone, stored: seq<Stored>): Result<Option<Record>, Stored> {
    if stored == [] then Ok(None)
    else if stored[0].code != SOA then CapturedSoa(zone, stored[1..])
    else if Fails(zone, stored[0]) then Err(stored[0])
    else if Served(zone, zone.apex, stored[0]).Some? then Ok(Served(zone, zone.apex, stored[0]))
    else CapturedSoa(zone, stored[1..])
  }

  function SyntheticSoa(zone: Zone): Stored {
    Stored(SOA, "ns." + zone.apex + " hostmaster." + zone.apex + " 1 3600 600 86400 300", DEFAULT_TTL)
  }

  function SyntheticNs(zone: Zone): Stored {
    Stored(NS, "ns." + zone.apex, DEFAULT_TTL)
  }

  /** The captured start of authority, or a made-up one; None when that fails too. */
  function ZoneSoa(zone: Zone): Option<Record> {
    match CapturedSoa(zone, StoredAt(zone, zone.apex))
    case Err(_) => None
    case Ok(captured) => if captured.Some? then captured else Served(zone, zone.apex, SyntheticSoa(zone))
  }

  /** What one name contributes: its encodable records other than the start of authority, in stored order. */
  function NameBody(zone: Zone, name: string, stored: seq<Stored>): seq<Record> {
    if stored == [] then [] else Contribution(zone, name, stored[0]) + NameBody(zone, name, stored[1..])
  }

  function Contribution(zone: Zone, name: string, s: Stored): seq<Record> {
    if s.code == SOA then [] else OneOrNone(zone, name, s)
  }

  /** A record that is tried, and fails outright. */
  predicate TriedAndFails(zone: Zone, s: Stored) {
    s.code != SOA && Fails(zone, s)
  }

  predicate BodyFails(zone: Zone, name: string) {
    InZone(zone, name) && exists s :: s in StoredAt(zone, name) && TriedAndFails(zone, s)
  }

  function ZoneBody(zone: Zone, names: seq<string>): seq<Record> {
    if names == [] then [] else BodyOf(zone, names[0]) + ZoneBody(zone, names[1..])
  }

  function BodyOf(zone: Zone, name: string): seq<Record> {
    if InZone(zone, name) then NameBody(zone, name, StoredAt(zone, name)) else []
  }

  /** The zone declares a name server for itself, encodable or not. */
  predicate HasApexNs(zone: Zone) {
    exists s :: s in StoredAt(zone, zone.apex) && s.code == NS
  }

  predicate BodyMissing(zone: Zone, names: seq<string>) {
    (exists name :: name in names && BodyFails(zone, name)) || (!HasApexNs(zone) && Fails(zone, SyntheticNs(zone)))
  }

  function WholeBody(zone: Zone, names: seq<string>): seq<Record> {
    (if HasApexNs(zone) then [] else OneOrNone(zone, zone.apex, SyntheticNs(zone))) + ZoneBody(zone, names)
  }

  /** The whole zone between two copies of its start of authority; None when a record fails outright. */
  function ZoneRecords(zone: Zone, names: seq<string>): Option<seq<Record>> {
    if ZoneSoa(zone).None? || BodyMissing(zone, names) then None
    else Some([ZoneSoa(zone).value] + WholeBody(zone, names) + [ZoneSoa(zone).value])
  }

  // ---------------------------------------------------------------- the loops

  method FindSoa(zone: Zone) returns (soa: Option<Record>)
    ensures soa == ZoneSoa(zone)
  {
    var stored := StoredAt(zone, zone.apex);
    assert stored[0..] == stored;
    for i := 0 to |stored|
      invariant CapturedSoa(zone, stored) == CapturedSoa(zone, stored[i..])
    {
      assert stored[i..][1..] == stored[i + 1..];
      if stored[i].code == SOA {
        if Fails(zone, stored[i]) { return None; }
        var r := Served(zone, zone.apex, stored[i]);
        if r.Some? { return r; }
      }
    }
    soa := Served(zone, zone.apex, SyntheticSoa(zone));
  }

  predicate DeclaresNs(stored: seq<Stored>, n: nat)
    requires n <= |stored|
  {
    exists k :: 0 <= k < n && stored[k].code == NS
  }

  /** What was found and what is still to come make up what the name contributes. */
  ghost predicate NameSoFar(zone: Zone, name: string, stored: seq<Stored>, i: nat, found: seq<Record>, hasNs: bool)
    requires i <= |stored|
  {
    && found + NameBody(zone, name, stored[i..]) == NameBody(zone, name, stored)
    && (hasNs <==> DeclaresNs(stored, i))
    && forall k :: 0 <= k < i ==> !TriedAndFails(zone, stored[k])
  }

  lemma NameStep(zone: Zone, name: string, stored: seq<Stored>, i: nat, found: seq<Record>, hasNs: bool)
    requires i < |stored| && NameSoFar(zone, name, stored, i, found, hasNs) && !TriedAndFails(zone, stored[i])
    ensures NameSoFar(zone, name, stored, i + 1, found + Contribution(zone, name, stored[i]),
                      hasNs || stored[i].code == NS)
  {
    assert stored[i..][1..] == stored[i + 1..];
    Associates(found, Contribution(zone, name, stored[i]), NameBody(zone, name, stored[i + 1..]));
  }

  lemma NameDone(zone: Zone, name: string, stored: seq<Stored>, found: seq<Record>, hasNs: bool)
    requires NameSoFar(zone, name, stored, |stored|, found, hasNs)
    ensures found == NameBody(zone, name, stored) && forall s :: s in stored ==> !TriedAndFails(zone, s)
  {
    assert stored[|stored|..] == [];
  }

  /** The records of one name, and whether it declares a name server. */
  method CollectName(zone: Zone, name: string, stored: seq<Stored>) returns (body: Option<seq<Record>>, hasNs: bool)
    ensures body.None? <==> exists s :: s in stored && TriedAndFails(zone, s)
    ensures body.Some? ==> body.value == NameBody(zone, name, stored)
    ensures body.Some? ==> (hasNs <==> DeclaresNs(stored, |stored|))
  {
    var found: seq<Record> := [];
    hasNs := false;
    assert stored[0..] == stored;
    for i := 0 to |stored|
      invariant NameSoFar(zone, name, stored, i, found, hasNs)
    {
      var s := stored[i];
      if s.code != SOA {
        if Fails(zone, s) {
          assert TriedAndFails(zone, s);
          return None, hasNs;
        }
        NameStep(zone, name, stored, i, found, hasNs);
        hasNs := hasNs || s.code == NS;
        found := found + OneOrNone(zone, name, s);
      } else {
        NameStep(zone, name, stored, i, found, hasNs);
        assert found + [] == found;
      }
    }
    NameDone(zone, name, stored, found, hasNs);
    body := Some(found);
  }

  ghost predicate ZoneSoFar(zone: Zone, names: seq<string>, i: nat, found: seq<Record>, hasApexNs: bool)
    requires i <= |names|
  {
    && found + ZoneBody(zone, names[i..]) == ZoneBody(zone, names)
    && (hasApexNs <==> HasApexNs(zone) && zone.apex in names[..i])
    && forall k :: 0 <= k < i ==> !BodyFails(zone, names[k])
  }

  lemma ZoneStep(zone: Zone, names: seq<string>, i: nat, found: seq<Record>, hasApexNs: bool)
    requires i < |names| && ZoneSoFar(zone, names, i, found, hasApexNs) && !BodyFails(zone, names[i])
    ensures ZoneSoFar(zone, names, i + 1, found + BodyOf(zone, names[i]),
                      hasApexNs || (names[i] == zone.apex && HasApexNs(zone)))
  {
    assert names[i..][1..] == names[i + 1..] && names[..i + 1] == names[..i] + [names[i]];
    Associates(found, BodyOf(zone, names[i]), ZoneBody(zone, names[i + 1..]));
  }

  /** The records of one name of the zone, after those found before. */
  method AddName(zone: Zone, name: string, found: seq<Record>, hasApexNs: bool)
    returns (found': Option<seq<Record>>, hasApexNs': bool)
    ensures found'.None? <==> BodyFails(zone, name)
    ensures found'.Some? ==> found'.value == found + BodyOf(zone, name)
    ensures found'.Some? ==> (hasApexNs' <==> hasApexNs || (name == zone.apex && HasApexNs(zone)))
  {
    if !InZone(zone, name) { return Some(found), hasApexNs; }
    var body, hasNs := CollectName(zone, name, StoredAt(zone, name));
    if body.None? { return None, hasApexNs; }
    assert name == zone.apex ==> (HasApexNs(zone) <==> DeclaresNs(StoredAt(zone, name), |StoredAt(zone, name)|));
    found', hasApexNs' := Some(found + body.value), hasApexNs || (name == zone.apex && hasNs);
  }

  /** The records of the zone without its start of authority. */
  method CollectBody(zone: Zone, names: seq<string>) returns (body: Option<seq<Record>>)
    requires zone.apex in zone.records ==> zone.apex in names
    ensures body.None? <==> BodyMissing(zone, names)
    ensures body.Some? ==> body.value == WholeBody(zone, names)
  {
    var found: seq<Record>, hasApexNs := [], false;
    assert names[0..] == names;
    for i := 0 to |names|
      invariant ZoneSoFar(zone, names, i, found, hasApexNs)
    {
      var more, more' := AddName(zone, names[i], found, hasApexNs);
      if more.None? { return None; }
      ZoneStep(zone, names, i, found, hasApexNs);
      found, hasApexNs := more.value, more';
    }
    assert names[..|names|] == names;
    if !hasApexNs {
      if Fails(zone, SyntheticNs(zone)) { return None; }
      found := OneOrNone(zone, zone.apex, SyntheticNs(zone)) + found;
    }
    body := Some(found);
  }

  /** The loop over the names, in the order they were declared. */
  method CollectZone(zone: Zone, names: seq<string>) returns (r: Option<seq<Record>>)
    requires zone.apex in zone.records ==> zone.apex in names
    ensures r == ZoneRecords(zone, names)
  {
    var soa := FindSoa(zone);
    if soa.None? { return None; }
    var body := CollectBody(zone, names);
    r := if body.None? then None else Some([soa.value] + body.value + [soa.value]);
  }

  // ---------------------------------------------------------------- what is transferred

  /** `r` is a declared record of the zone, other than the start of authority. */
  ghost predicate IsDeclared(zone: Zone, names: seq<string>, r: Record) {
    exists name, s :: DeclaredAs(zone, names, r, name, s)
  }

  ghost predicate DeclaredAs(zone: Zone, names: seq<string>, r: Record, name: string, s: Stored) {
    name in names && InZone(zone, name) && s in StoredAt(zone, name) && s.code != SOA
    && Served(zone, name, s) == Some(r)
  }

  lemma {:induction false} NameBodyIs(zone: Zone, name: string, stored: seq<Stored>, r: Record)
    ensures r in NameBody(zone, name, stored) <==>
            exists s :: s in stored && s.code != SOA && Served(zone, name, s) == Some(r)
  {
    if stored != [] { NameBodyIs(zone, name, stored[1..], r); }
  }

  lemma {:induction false} ZoneBodyIs(zone: Zone, names: seq<string>, r: Record)
    ensures r in ZoneBody(zone, names) <==> IsDeclared(zone, names, r)
  {
    if names != [] {
      var name, rest := names[0], names[1..];
      NameBodyIs(zone, name, StoredAt(zone, name), r);
      ZoneBodyIs(zone, rest, r);
      assert forall n :: n in names <==> n == name || n in rest;
      if IsDeclared(zone, rest, r) {
        var n, s :| DeclaredAs(zone, rest, r, n, s);
        assert DeclaredAs(zone, names, r, n, s);
      }
      if r in NameBody(zone, name, StoredAt(zone, name)) && InZone(zone, name) {
        var s :| s in StoredAt(zone, name) && s.code != SOA && Served(zone, name, s) == Some(r);
        assert DeclaredAs(zone, names, r, name, s);
      }
      if IsDeclared(zone, names, r) {
        var n, s :| DeclaredAs(zone, names, r, n, s);
        if n in rest { assert DeclaredAs(zone, rest, r, n, s); }
      }
    }
  }

  /** The names in turn: what is declared first is sent first. */
  lemma {:induction false} ZoneBodyJoins(zone: Zone, a: seq<string>, b: seq<string>)
    ensures ZoneBody(zone, a + b) == ZoneBody(zone, a) + ZoneBody(zone, b)
    decreases |a|
  {
    if a == [] {
      assert a + b == b;
    } else {
      assert (a + b)[1..] == a[1..] + b;
      ZoneBodyJoins(zone, a[1..], b);
      Associates(BodyOf(zone, a[0]), ZoneBody(zone, a[1..]), ZoneBody(zone, b));
    }
  }

  ghost predicate IsDefaultNs(zone: Zone, r: Record) {
    !HasApexNs(zone) && Served(zone, zone.apex, SyntheticNs(zone)) == Some(r)
  }

  lemma {:induction false} CapturedSoaIs(zone: Zone, stored: seq<Stored>)
    ensures var r := CapturedSoa(zone, stored);
            r.Ok? && r.value.Some? ==> exists s :: s in stored && s.code == SOA && Served(zone, zone.apex, s) == r.value
  {
    if stored != [] { CapturedSoaIs(zone, stored[1..]); }
  }

  /** A transfer starts and ends with the same start of authority of the zone.  Between them is a record
      exactly when it is declared in the zone, or is the name server supplied for a zone without one. */
  lemma TransferIsTheZone(zone: Zone, names: seq<string>)
    requires ZoneRecords(zone, names).Some?
    ensures var rrs := ZoneRecords(zone, names).value;
            var n := |rrs| - 1;
            && n >= 1 && rrs[0] == rrs[n] && rrs[0].code == SOA && rrs[0].owner == zone.apex
            && rrs[1..n] == WholeBody(zone, names)
            && forall r :: r in rrs[1..n] <==> IsDeclared(zone, names, r) || IsDefaultNs(zone, r)
  {
    var rrs := ZoneRecords(zone, names).value;
    CapturedSoaIs(zone, StoredAt(zone, zone.apex));
    assert rrs[1..|rrs| - 1] == WholeBody(zone, names);
    forall r ensures r in WholeBody(zone, names) <==> IsDeclared(zone, names, r) || IsDefaultNs(zone, r) {
      ZoneBodyIs(zone, names, r);
    }
  }

  /** A name whose records a transfer carries. */
  predicate ZoneOwner(zone: Zone, names: seq<string>, owner: string) {
    owner == zone.apex || (owner in names && InZone(zone, owner))
  }

  lemma ZoneIsEncodable(zone: Zone, names: seq<string>)
    requires ZoneRecords(zone, names).Some?
    ensures var rrs := ZoneRecords(zone, names).value;
            && (forall k :: 0 <= k < |rrs| ==> EncodeRecord(rrs[k]).Some?)
            && forall k :: 0 <= k < |rrs| ==> ZoneOwner(zone, names, rrs[k].owner)
  {
    var rrs := ZoneRecords(zone, names).value;
    TransferIsTheZone(zone, names);
    CapturedSoaIs(zone, StoredAt(zone, zone.apex));
    forall k | 0 <= k < |rrs|
      ensures EncodeRecord(rrs[k]).Some? && ZoneOwner(zone, names, rrs[k].owner)
    {
      if 0 < k < |rrs| - 1 {
        assert rrs[1..|rrs| - 1][k - 1] == rrs[k];
        if IsDeclared(zone, names, rrs[k]) { var name, s :| DeclaredAs(zone, names, rrs[k], name, s); }
      }
    }
  }

  // ---------------------------------------------------------------- build_response

  /** Failed: an error leaves the server without an answer.  Running: the name is still being decoded. */
  datatype Response = NoReply | Running | Failed | One(message: seq<Byte>) | Many(messages: seq<seq<Byte>>)

  function TransferMessages(zone: Zone, names: seq<string>, id: seq<Byte>, question: seq<Byte>): Response {
    match ZoneRecords(zone, names)
    case None => Failed
    case Some(rrs) =>
      ZoneIsEncodable(zone, names);
      EncodedAreRecords(rrs);
      CountableBlocks(12 + |question|, [], EncodeEach(rrs));
      Many(Messages(id, question, Chunks(12 + |question|, [], EncodeEach(rrs))))
  }

  function ResponseTo(zone: Zone, names: seq<string>, data: seq<Byte>, tcp: bool, fuel: nat): Response {
    match BuildReply(zone, data, tcp, fuel)
    case Dropped => NoReply
    case Pending => Running
    case Oversized => Failed
    case Sent(message) => One(message)
    case Transfer(id, question) => TransferMessages(zone, names, id, question)
  }

  /** Everything a query is answered with; `names` lists the record names as they were declared. */
  method BuildResponse(zone: Zone, names: seq<string>, data: seq<Byte>, tcp: bool, fuel: nat) returns (r: Response)
    requires forall name :: name in names <==> name in zone.records
    ensures r == ResponseTo(zone, names, data, tcp, fuel)
  {
    var reply := RespondTo(zone, data, tcp, fuel);
    match reply {
      case Dropped => r := NoReply;
      case Pending => r := Running;
      case Oversized => r := Failed;
      case Sent(message) => r := One(message);
      case Transfer(id, question) =>
        var rrs := CollectZone(zone, names);
        if rrs.None? { return Failed; }
        ZoneIsEncodable(zone, names);
        EncodedAreRecords(rrs.value);
        var messages := ChunkAxfr(id, question, EncodeEach(rrs.value));
        r := Many(messages);
    }
  }

  /** From the query to the client: whoever asks for a transfer that is granted reads the whole zone, between
      two copies of its start of authority, with the question in every message. */
  lemma GrantedTransferReadsBack(zone: Zone, names: seq<string>, data: seq<Byte>, head: seq<Byte>, qname: string,
                                 tail: seq<Byte>, extra: seq<Byte>)
    requires IsQuery(data, head, qname, tail, extra) && ReadU16(tail, 0) == AXFR && MayTransfer(zone, qname, true)
    requires ZoneRecords(zone, names).Some?
    requires forall owner :: ZoneOwner(zone, names, owner) ==> PlainName(owner)
    ensures var r := ResponseTo(zone, names, data, true, |data|);
            r.Many? && TransferReads(r.messages, WireName(qname).value + tail, ZoneRecords(zone, names).value)
  {
    var rrs := ZoneRecords(zone, names).value;
    RefusalReadsBack(zone, data, true, head, qname, tail, extra);
    ZoneIsEncodable(zone, names);
    assert AllWritable(rrs);
    TransferReadsBack(head[..2], qname, tail, rrs);
  }
}
