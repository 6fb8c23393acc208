/** Reading a server's key exchange offer (rangefinder/capture/ssh.py; sections 6 and 7.1 of RFC 4253). */
module SshKexinit {
  import opened Prelude
  import opened Octets

  const KEXINIT := 20
  const MAX_PACKET := 1_000_000
  const HEAD := 17

  datatype Failure = Short | Implausible | BadPadding | Truncated | NoKexinit

  // ---------------------------------------------------------------- packets

  /** The payload of the first packet of a stream, and what follows the packet. */
  function ReadPacket(s: seq<Byte>): Result<(seq<Byte>, seq<Byte>), Failure> {
    if |s| < 4 then Err(Short)
    else
      var size := ReadU32(s, 0);
      if size < 1 || size > MAX_PACKET then Err(Implausible)
      else if |s| < 4 + size then Err(Short)
      else if s[4] > size - 1 then Err(BadPadding)
      else Ok((s[5..4 + size - s[4]], s[4 + size..]))
  }

  /** A packet: its size, the length of its padding, the payload, the padding. */
  function Packet(payload: seq<Byte>, padding: seq<Byte>): seq<Byte>
    requires |padding| < 256 && 1 + |payload| + |padding| <= MAX_PACKET
  {
    U32(1 + |payload| + |padding|) + [|padding|] + payload + padding
  }

  predicate Sendable(payload: seq<Byte>, padding: seq<Byte>) {
    |padding| < 256 && 1 + |payload| + |padding| <= MAX_PACKET
  }

  /** Whatever the padding, a packet gives its payload back, and nothing of what follows is taken. */
  lemma PacketReadsBack(payload: seq<Byte>, padding: seq<Byte>, rest: seq<Byte>)
    requires Sendable(payload, padding)
    ensures ReadPacket(Packet(payload, padding) + rest) == Ok((payload, rest))
  {
    var n := 1 + |payload| + |padding|;
    var s := Packet(payload, padding) + rest;
    assert s[0..4] == U32(n);
    HoldsSlice(s, 0, U32(n));
    ReadU32At(s, 0, n);
    assert s[4] == |padding|;
    assert s[5..4 + n - |padding|] == payload && s[4 + n..] == rest;
  }

  /** And only packets are read: the stream starts with one that holds just that payload. */
  lemma ReadIsAPacket(s: seq<Byte>, payload: seq<Byte>, rest: seq<Byte>) returns (padding: seq<Byte>)
    requires ReadPacket(s) == Ok((payload, rest))
    ensures Sendable(payload, padding) && s == Packet(payload, padding) + rest
  {
    var n := ReadU32(s, 0);
    padding := s[4 + n - s[4]..4 + n];
    U32Reads(s);
    assert s[..4] == U32(n);
    assert s == s[..4] + [s[4]] + s[5..4 + n - s[4]] + padding + s[4 + n..];
  }

  lemma U32Reads(s: seq<Byte>)
    requires |s| >= 4
    ensures s[..4] == U32(ReadU32(s, 0))
  {}

  /** The number in the first four bytes, most significant first. */
  ghost predicate StartsWithSize(s: seq<Byte>, n: nat) {
    |s| >= 4 && n == (s[0] as nat) * 0x100_0000 + (s[1] as nat) * 0x1_0000 + (s[2] as nat) * 0x100 + s[3] as nat
  }

  /** Each way a packet is refused: cut short; a size of zero or above a million; padding longer than the
      packet has room for. */
  lemma RefusedPackets(s: seq<Byte>, n: nat)
    ensures |s| < 4 ==> ReadPacket(s) == Err(Short)
    ensures StartsWithSize(s, n) ==>
              && (ReadPacket(s) == Err(Implausible) <==> n == 0 || n > 1_000_000)
              && (ReadPacket(s) == Err(Short) <==> 1 <= n <= 1_000_000 && |s| < 4 + n)
              && (ReadPacket(s) == Err(BadPadding) <==> 1 <= n <= 1_000_000 && |s| >= 4 + n && s[4] >= n)
              && ReadPacket(s) != Err(Truncated) && ReadPacket(s) != Err(NoKexinit)
  {}

  // ---------------------------------------------------------------- the offer

  /** Bytes above 127 are no ASCII and read as the replacement character. */
  lemma AsciiIs(raw: seq<Byte>, i: nat)
    requires i < |raw|
    ensures |Ascii(raw)| == |raw| && Ascii(raw)[i] as int == if raw[i] <= 127 then raw[i] else 0xFFFD
  {}

  function Ascii(raw: seq<Byte>): string {
    seq(|raw|, i requires 0 <= i < |raw| => if raw[i] < 128 then raw[i] as char else '\U{FFFD}')
  }

  /** The names in one name-list. */
  function Names(raw: seq<Byte>): seq<string> {
    NonEmpty(Split(Ascii(raw), ','))
  }

  /** One name-list at an offset: its bytes, and the offset past it. */
  function ReadList(payload: seq<Byte>, off: nat): Option<(seq<Byte>, nat)> {
    if off + 4 > |payload| then None
    else
      var next := off + 4 + ReadU32(payload, off);
      if next > |payload| then None else Some((payload[off + 4..next], next))
  }

  function ReadLists(payload: seq<Byte>, off: nat, count: nat): Option<seq<seq<string>>>
    decreases count
  {
    if count == 0 then Some([])
    else
      match ReadList(payload, off)
      case None => None
      case Some((raw, next)) =>
        match ReadLists(payload, next, count - 1)
        case None => None
        case Some(rest) => Some([Names(raw)] + rest)
  }

  function ParsedLists(payload: seq<Byte>, count: nat): Option<seq<seq<string>>> {
    if |payload| < HEAD then None else ReadLists(payload, HEAD, count)
  }

  /** The ten name-lists after the head. */
  function Parsed(payload: seq<Byte>): Option<seq<seq<string>>> {
    ParsedLists(payload, 10)
  }

  method ParseKexinit(payload: seq<Byte>) returns (r: Result<seq<seq<string>>, Failure>)
    ensures r == if Parsed(payload).Some? then Ok(Parsed(payload).value) else Err(Truncated)
  {
    r := ParseLists(payload, 10);
  }

  /** The loop over the name-lists. */
  method ParseLists(payload: seq<Byte>, count: nat) returns (r: Result<seq<seq<string>>, Failure>)
    ensures var parsed := ParsedLists(payload, count);
            r == if parsed.Some? then Ok(parsed.value) else Err(Truncated)
  {
    if |payload| < HEAD { return Err(Truncated); }
    var off: nat, names := HEAD, [];
    ghost var parsed := ReadLists(payload, HEAD, count);
    assert parsed.Some? ==> [] + parsed.value == parsed.value;
    for i := 0 to count
      invariant Reading(payload, off, names, count - i, parsed)
    {
      ReadOneList(payload, off, names, count - i, parsed);
      var one := ReadList(payload, off);
      if one.None? { return Err(Truncated); }
      off, names := one.value.1, names + [Names(one.value.0)];
    }
    assert names + [] == names;
    r := Ok(names);
  }

  /** The lists read so far, and those that `left` more will give, make up the whole. */
  ghost predicate Reading(payload: seq<Byte>, off: nat, names: seq<seq<string>>, left: nat,
                          whole: Option<seq<seq<string>>>) {
    var rest := ReadLists(payload, off, left);
    whole == if rest.None? then None else Some(names + rest.value)
  }

  lemma ReadOneList(payload: seq<Byte>, off: nat, names: seq<seq<string>>, left: nat, whole: Option<seq<seq<string>>>)
    requires left > 0 && Reading(payload, off, names, left, whole)
    ensures match ReadList(payload, off)
            case None => whole.None?
            case Some((raw, next)) => Reading(payload, next, names + [Names(raw)], left - 1, whole)
  {
    if ReadList(payload, off).Some? {
      var (raw, next) := ReadList(payload, off).value;
      var rest := ReadLists(payload, next, left - 1);
      if rest.Some? { assert names + ([Names(raw)] + rest.value) == names + [Names(raw)] + rest.value; }
    }
  }

  // ---------------------------------------------------------------- what is accepted

  /** The name-lists stand one after another from `off`. */
  ghost predicate InPlace(payload: seq<Byte>, off: nat, raws: seq<seq<Byte>>)
    decreases |raws|
  {
    raws == [] ||
    (|raws[0]| < 0x1_0000_0000 && Holds(payload, off, U32(|raws[0]|)) && Holds(payload, off + 4, raws[0])
     && InPlace(payload, off + 4 + |raws[0]|, raws[1..]))
  }

  function NamesOfEach(raws: seq<seq<Byte>>): seq<seq<string>> {
    if raws == [] then [] else [Names(raws[0])] + NamesOfEach(raws[1..])
  }

  lemma {:induction false} InPlaceIsRead(payload: seq<Byte>, off: nat, raws: seq<seq<Byte>>)
    requires InPlace(payload, off, raws)
    ensures ReadLists(payload, off, |raws|) == Some(NamesOfEach(raws))
    decreases |raws|
  {
    if raws != [] {
      var next := off + 4 + |raws[0]|;
      ReadU32At(payload, off, |raws[0]|);
      HoldsSlice(payload, off + 4, raws[0]);
      InPlaceIsRead(payload, next, raws[1..]);
      OneList(payload, off, raws[0], next, |raws| - 1);
    }
  }

  lemma OneList(payload: seq<Byte>, off: nat, raw: seq<Byte>, next: nat, count: nat)
    requires ReadList(payload, off) == Some((raw, next)) && ReadLists(payload, next, count).Some?
    ensures ReadLists(payload, off, count + 1) == Some([Names(raw)] + ReadLists(payload, next, count).value)
  {}

  lemma {:induction false} ReadIsInPlace(payload: seq<Byte>, off: nat, count: nat) returns (raws: seq<seq<Byte>>)
    requires ReadLists(payload, off, count).Some?
    ensures |raws| == count && InPlace(payload, off, raws)
    ensures ReadLists(payload, off, count).value == NamesOfEach(raws)
    decreases count
  {
    if count == 0 {
      raws := [];
    } else {
      var (raw, next) := ReadList(payload, off).value;
      var rest := ReadIsInPlace(payload, next, count - 1);
      raws := [raw] + rest;
      assert payload[off..][..4] == payload[off..off + 4];
      U32Reads(payload[off..]);
      assert raws[1..] == rest;
    }
  }

  /** An offer is accepted exactly when ten name-lists stand after its head, whatever follows them; the
      names are those between the commas. */
  lemma AcceptedIffTenLists(payload: seq<Byte>, names: seq<seq<string>>)
    ensures Parsed(payload) == Some(names) <==>
            |payload| >= HEAD
            && exists raws :: |raws| == 10 && InPlace(payload, HEAD, raws) && NamesOfEach(raws) == names
  {
    if Parsed(payload) == Some(names) {
      var raws := ReadIsInPlace(payload, HEAD, 10);
    }
    forall raws | |raws| == 10 && InPlace(payload, HEAD, raws)
      ensures ReadLists(payload, HEAD, 10) == Some(NamesOfEach(raws))
    {
      InPlaceIsRead(payload, HEAD, raws);
    }
  }

  // ---------------------------------------------------------------- names there and back

  /** A name that a name-list can carry (section 6 of RFC 4253). */
  predicate IsAlgorithmName(s: string) {
    s != "" && forall i :: 0 <= i < |s| ==> s[i] != ',' && s[i] as int < 128
  }

  predicate AreNames(names: seq<string>) {
    forall k :: 0 <= k < |names| ==> IsAlgorithmName(names[k])
  }

  function Raw(text: string): seq<Byte>
    requires forall i :: 0 <= i < |text| ==> text[i] as int < 128
  {
    seq(|text|, i requires 0 <= i < |text| => text[i] as int)
  }

  /** Names separated by commas. */
  function Listed(names: seq<string>): (text: string) {
    if names == [] then "" else if |names| == 1 then names[0] else names[0] + "," + Listed(names[1..])
  }

  lemma {:induction false} ListedIsAscii(names: seq<string>)
    requires AreNames(names)
    ensures forall i :: 0 <= i < |Listed(names)| ==> Listed(names)[i] as int < 128
  {
    if |names| > 1 { ListedIsAscii(names[1..]); }
  }

  lemma {:induction false} SplitAfterName(name: string, rest: string)
    requires forall i :: 0 <= i < |name| ==> name[i] != ','
    ensures Split(name, ',') == [name]
    ensures Split(name + "," + rest, ',') == [name] + Split(rest, ',')
  {
    var text := name + "," + rest;
    if name == "" {
      assert text[1..] == rest;
    } else {
      SplitAfterName(name[1..], rest);
      assert text[1..] == name[1..] + "," + rest && [name[0]] + name[1..] == name;
    }
  }

  lemma {:induction false} ListedSplits(names: seq<string>)
    requires AreNames(names)
    ensures NonEmpty(Split(Listed(names), ',')) == names
  {
    if names == [] {
      assert [""][1..] == [];
    } else {
      var rest := Listed(names[1..]);
      SplitAfterName(names[0], rest);
      ListedSplits(names[1..]);
      if |names| == 1 {
        assert [names[0]][1..] == [] && NonEmpty([]) == [];
      } else {
        assert ([names[0]] + Split(rest, ','))[1..] == Split(rest, ',');
      }
      assert [names[0]] + names[1..] == names;
    }
  }

  /** A name-list gives back the names it was written from. */
  lemma NamesReadBack(names: seq<string>)
    requires AreNames(names)
    ensures forall i :: 0 <= i < |Listed(names)| ==> Listed(names)[i] as int < 128
    ensures Names(Raw(Listed(names))) == names
  {
    ListedIsAscii(names);
    ListedSplits(names);
    assert Ascii(Raw(Listed(names))) == Listed(names);
  }

  /** The bytes of each name-list of an offer. */
  function Written(lists: seq<seq<string>>): seq<seq<Byte>>
    requires forall k :: 0 <= k < |lists| ==> AreNames(lists[k])
  {
    if lists == [] then []
    else
      ListedIsAscii(lists[0]);
      [Raw(Listed(lists[0]))] + Written(lists[1..])
  }

  lemma {:induction false} WrittenReadsBack(lists: seq<seq<string>>)
    requires forall k :: 0 <= k < |lists| ==> AreNames(lists[k])
    ensures |Written(lists)| == |lists| && NamesOfEach(Written(lists)) == lists
    decreases |lists|
  {
    if lists != [] {
      NamesReadBack(lists[0]);
      WrittenReadsBack(lists[1..]);
      assert Written(lists)[1..] == Written(lists[1..]) && [lists[0]] + lists[1..] == lists;
    }
  }

  /** An offer gives back its ten lists of names. */
  lemma OfferReadsBack(payload: seq<Byte>, lists: seq<seq<string>>)
    requires |lists| == 10 && forall k :: 0 <= k < |lists| ==> AreNames(lists[k])
    requires |payload| >= HEAD && InPlace(payload, HEAD, Written(lists))
    ensures Parsed(payload) == Some(lists)
  {
    WrittenReadsBack(lists);
    InPlaceIsRead(payload, HEAD, Written(lists));
  }

  // ---------------------------------------------------------------- finding the offer

  predicate IsOffer(payload: seq<Byte>) {
    payload != [] && payload[0] == KEXINIT
  }

  /** The first offer among the next `tries` packets. */
  function FirstOffer(s: seq<Byte>, tries: nat): Result<seq<Byte>, Failure>
    decreases tries
  {
    if tries == 0 then Err(NoKexinit)
    else
      match ReadPacket(s)
      case Err(e) => Err(e)
      case Ok((payload, rest)) => if IsOffer(payload) then Ok(payload) else FirstOffer(rest, tries - 1)
  }

  method FindOffer(s: seq<Byte>) returns (r: Result<seq<seq<string>>, Failure>)
    ensures r == match FirstOffer(s, 8)
                 case Err(e) => Err(e)
                 case Ok(payload) => if Parsed(payload).Some? then Ok(Parsed(payload).value) else Err(Truncated)
  {
    var left := s;
    for i := 0 to 8
      invariant FirstOffer(s, 8) == FirstOffer(left, 8 - i)
    {
      var packet := ReadPacket(left);
      if packet.Err? { return Err(packet.error); }
      var (payload, rest) := packet.value;
      if IsOffer(payload) {
        r := ParseKexinit(payload);
        return;
      }
      left := rest;
    }
    r := Err(NoKexinit);
  }

  /** An offer is a payload of message type 20, and the lists start after the type and sixteen bytes. */
  lemma OfferIs(payload: seq<Byte>)
    ensures IsOffer(payload) <==> |payload| > 0 && payload[0] == 20
    ensures |payload| < 1 + 16 ==> Parsed(payload).None?
    ensures Parsed(payload).Some? ==> |Parsed(payload).value| == 10 && ReadLists(payload, 1 + 16, 10) == Parsed(payload)
  {
    if Parsed(payload).Some? { ListsAreMany(payload, HEAD, 10); }
  }

  lemma {:induction false} ListsAreMany(payload: seq<Byte>, off: nat, count: nat)
    requires ReadLists(payload, off, count).Some?
    ensures |ReadLists(payload, off, count).value| == count
    decreases count
  {
    if count > 0 { ListsAreMany(payload, ReadList(payload, off).value.1, count - 1); }
  }

  datatype Sent = Sent(payload: seq<Byte>, padding: seq<Byte>)

  /** The stream is this packet, then `rest`. */
  predicate IsPacketThen(s: seq<Byte>, p: Sent, rest: seq<Byte>) {
    Sendable(p.payload, p.padding) && s == Packet(p.payload, p.padding) + rest
  }

  /** The stream is these packets one after another, then `rest`. */
  ghost predicate ArePacketsThen(s: seq<Byte>, packets: seq<Sent>, rest: seq<Byte>)
    decreases |packets|
  {
    if packets == [] then s == rest
    else exists next :: IsPacketThen(s, packets[0], next) && ArePacketsThen(next, packets[1..], rest)
  }

  predicate Finds(s: seq<Byte>, tries: nat, r: Result<seq<Byte>, Failure>) {
    FirstOffer(s, tries) == r
  }

  lemma OnePacket(s: seq<Byte>, p: Sent, rest: seq<Byte>, tries: nat, r: Result<seq<Byte>, Failure>)
    requires tries > 0 && IsPacketThen(s, p, rest)
    requires if IsOffer(p.payload) then r == Ok(p.payload) else Finds(rest, tries - 1, r)
    ensures Finds(s, tries, r)
  {
    PacketReadsBack(p.payload, p.padding, rest);
  }

  ghost predicate NoOffers(packets: seq<Sent>) {
    forall k :: 0 <= k < |packets| ==> !IsOffer(packets[k].payload)
  }

  /** Packets that are no offer are skipped, one try each. */
  lemma {:induction false} OthersAreSkipped(s: seq<Byte>, others: seq<Sent>, rest: seq<Byte>, tries: nat,
                                            r: Result<seq<Byte>, Failure>)
    requires NoOffers(others) && ArePacketsThen(s, others, rest)
    requires if tries <= |others| then r == Err(NoKexinit) else Finds(rest, tries - |others|, r)
    ensures Finds(s, tries, r)
    decreases |others|
  {
    if others != [] && tries > 0 {
      var next :| IsPacketThen(s, others[0], next) && ArePacketsThen(next, others[1..], rest);
      OthersAreSkipped(next, others[1..], rest, tries - 1, r);
      OnePacket(s, others[0], next, tries, r);
    }
  }

  /** Up to seven other packets may come before the offer; an eighth, and it is not found. */
  lemma OfferIsFound(s: seq<Byte>, others: seq<Sent>, after: seq<Byte>, offer: Sent, rest: seq<Byte>)
    requires NoOffers(others) && ArePacketsThen(s, others, after)
    requires IsOffer(offer.payload) && IsPacketThen(after, offer, rest)
    ensures FirstOffer(s, 8) == if |others| < 8 then Ok(offer.payload) else Err(NoKexinit)
  {
    var left, r := 8 - |others|, if |others| < 8 then Ok(offer.payload) else Err(NoKexinit);
    if left > 0 { OnePacket(after, offer, rest, left, r); }
    OthersAreSkipped(s, others, after, 8, r);
  }
}
