/** Answering queries (rangefinder/facades/dns.py; section 4.1 of RFC 1035): resource records, replies,
    and a reader of replies that knows nothing of how they were written. */
module DnsMessage {
  import opened Prelude
  import opened Pieces
  import opened Octets
  import opened DnsName

  // ---------------------------------------------------------------- names as dotted text

  function StripDots(s: string): string {
    if s != "" && s[|s| - 1] == '.' then StripDots(s[..|s| - 1]) else s
  }

  function Labels(name: string): seq<string> {
    Split(StripDots(name), '.')
  }

  /** A dotted name the decoder can give back: no empty label, nothing the decoder takes for a pointer. */
  predicate PlainName(name: string) {
    name == "" || PlainLabels(Split(name, '.'))
  }

  lemma {:induction false} LastPieceEmpty(s: string)
    requires s != "" && s[|s| - 1] == '.'
    ensures var p := Split(s, '.'); |p| > 1 && p[|p| - 1] == ""
  {
    if |s| > 1 {
      assert s[1..][|s| - 2] == '.';
      LastPieceEmpty(s[1..]);
    } else {
      assert s[1..] == "";
    }
  }

  /** Encoding a plain name and decoding it anywhere gives the name back. */
  lemma PlainNameLabels(name: string)
    requires PlainName(name)
    ensures Encodable(Labels(name)) && StripDots(name) == name
    ensures name == "" ==> EncodeLabels(Labels(name)) == EncodeLabels([])
    ensures name != "" ==> PlainLabels(Labels(name))
    ensures Join(if name == "" then [] else Labels(name), ".") == name
  {
    if name != "" && name[|name| - 1] == '.' { LastPieceEmpty(name); }
    SplitIsPieces(name, '.');
    if name == "" { assert [""][1..] == []; }
  }

  /** The labels a plain name is encoded with. */
  function PlainLabelsOf(name: string): seq<string>
    requires PlainName(name)
  {
    if name == "" then [] else Split(name, '.')
  }

  /** The encoding of a dotted name; None when a label cannot be encoded. */
  function WireName(name: string): Option<seq<Byte>> {
    if Encodable(Labels(name)) then Some(EncodeLabels(Labels(name))) else None
  }

  // ---------------------------------------------------------------- resource records

  const CLASS_IN := 1

  /** A resource record as a reader sees it. */
  datatype Record = Record(owner: string, code: nat, qclass: nat, ttl: nat, rdata: seq<Byte>)

  predicate Packable(r: Record) {
    r.code < 0x1_0000 && r.qclass < 0x1_0000 && r.ttl < 0x1_0000_0000 && |r.rdata| < 0x1_0000
  }

  function Fixed(r: Record): seq<Byte>
    requires Packable(r)
  {
    U16(r.code) + U16(r.qclass) + U32(r.ttl) + U16(|r.rdata|)
  }

  /** None stands for a value that cannot be packed. */
  function EncodeRecord(r: Record): Option<seq<Byte>> {
    if !Packable(r) || WireName(r.owner).None? then None
    else Some(WireName(r.owner).value + Fixed(r) + r.rdata)
  }

  /** The shortest encoded record: a root owner and an empty value. */
  lemma RecordIsElevenBytes(r: Record)
    requires EncodeRecord(r).Some?
    ensures |EncodeRecord(r).value| >= 11
  {
    EncodedNotEmpty(Labels(r.owner));
  }

  lemma {:induction false} EncodedNotEmpty(labels: seq<string>)
    requires Encodable(labels)
    ensures |EncodeLabels(labels)| >= 1
    decreases |labels|
  {
    if labels != [] && labels[0] == "" { EncodedNotEmpty(labels[1..]); }
  }

  /** Read one record: its fields and the offset just past it. */
  function ReadRecord(data: seq<Byte>, o: nat): Option<(Record, nat)> {
    match DecodeName(data, o, |data|)
    case Decoded(labels, p) =>
      if p + 10 > |data| then None
      else
        var size, q := ReadU16(data, p + 8), p + 10;
        if q + size > |data| then None
        else Some((Record(Join(labels, "."), ReadU16(data, p), ReadU16(data, p + 2), ReadU32(data, p + 4),
                          data[q..q + size]), q + size))
    case BadIndex => None
    case Unfinished => None
  }

  function ReadRecords(data: seq<Byte>, o: nat, count: nat): Option<seq<Record>>
    decreases count
  {
    if count == 0 then Some([]) else
      match ReadRecord(data, o)
      case None => None
      case Some((r, p)) =>
        match ReadRecords(data, p, count - 1)
        case None => None
        case Some(rest) => Some([r] + rest)
  }

  lemma ReadPlainName(data: seq<Byte>, o: nat, name: string)
    requires PlainName(name) && WireName(name).Some? && Holds(data, o, WireName(name).value)
    ensures DecodeName(data, o, |data|) == Decoded(PlainLabelsOf(name), o + |WireName(name).value|)
    ensures Join(PlainLabelsOf(name), ".") == name
  {
    PlainNameLabels(name);
    var labels := PlainLabelsOf(name);
    EncodedIsLonger(labels);
    assert EncodeLabels(labels) == WireName(name).value;
    DecodeInvertsEncode(data, o, labels, |data|);
  }

  lemma {:induction false} EncodedIsLonger(labels: seq<string>)
    requires PlainLabels(labels)
    ensures Encodable(labels) && |EncodeLabels(labels)| > |labels|
    decreases |labels|
  {
    if labels != [] { EncodedIsLonger(labels[1..]); }
  }

  predicate FieldsRead(data: seq<Byte>, p: nat, r: Record) {
    p + 10 <= |data| && ReadU16(data, p) == r.code && ReadU16(data, p + 2) == r.qclass
    && ReadU32(data, p + 4) == r.ttl && ReadU16(data, p + 8) == |r.rdata|
  }

  lemma ReadFields(data: seq<Byte>, o: nat, labels: seq<string>, p: nat, r: Record, end: nat)
    requires DecodeName(data, o, |data|) == Decoded(labels, p) && Join(labels, ".") == r.owner && FieldsRead(data, p, r)
    requires end == p + 10 + |r.rdata| <= |data| && data[p + 10..end] == r.rdata
    ensures ReadsAs(data, o, r, end)
  {}

  lemma ReadRecordAt(data: seq<Byte>, o: nat, labels: seq<string>, p: nat, r: Record, end: nat)
    requires DecodeName(data, o, |data|) == Decoded(labels, p) && Join(labels, ".") == r.owner
    requires Packable(r) && Holds(data, p, Fixed(r)) && Holds(data, p + 10, r.rdata) && end == p + 10 + |r.rdata|
    ensures ReadsAs(data, o, r, end)
  {
    FixedFields(data, p, r);
    HoldsSlice(data, p + 10, r.rdata);
    ReadFields(data, o, labels, p, r, end);
  }

  /** Reading a record at `o` gives `r` and ends at `p`. */
  predicate ReadsAs(data: seq<Byte>, o: nat, r: Record, p: nat) {
    ReadRecord(data, o) == Some((r, p))
  }

  /** A record that can be encoded, and its owner read back. */
  predicate Writable(r: Record) {
    EncodeRecord(r).Some? && PlainName(r.owner)
  }

  ghost predicate AllWritable(records: seq<Record>) {
    forall k :: 0 <= k < |records| ==> Writable(records[k])
  }

  /** The bytes of a record known to be encodable. */
  function Wire(r: Record): seq<Byte> {
    if EncodeRecord(r).Some? then EncodeRecord(r).value else []
  }

  /** Reading inverts writing, wherever in a message the record stands. */
  lemma ReadWritten(data: seq<Byte>, o: nat, r: Record)
    requires Writable(r) && Holds(data, o, Wire(r))
    ensures ReadsAs(data, o, r, o + |Wire(r)|)
  {
    var p := WirePartsHeld(data, o, r);
    ReadPlainName(data, o, r.owner);
    ReadRecordAt(data, o, PlainLabelsOf(r.owner), p, r, o + |Wire(r)|);
  }

  lemma WirePartsHeld(data: seq<Byte>, o: nat, r: Record) returns (p: nat)
    requires EncodeRecord(r).Some? && Holds(data, o, Wire(r))
    ensures p == o + |WireName(r.owner).value| && Holds(data, o, WireName(r.owner).value)
    ensures Holds(data, p, Fixed(r)) && Holds(data, p + 10, r.rdata) && o + |Wire(r)| == p + 10 + |r.rdata|
  {
    var name := WireName(r.owner).value;
    p := o + |name|;
    HoldsBoth(data, o, name + Fixed(r), r.rdata);
    HoldsBoth(data, o, name, Fixed(r));
  }

  lemma FixedFields(data: seq<Byte>, p: nat, r: Record)
    requires Packable(r) && Holds(data, p, Fixed(r))
    ensures FieldsRead(data, p, r)
  {
    FourParts(data, p, U16(r.code), U16(r.qclass), U32(r.ttl), U16(|r.rdata|));
    ReadU16At(data, p, r.code);
    ReadU16At(data, p + 2, r.qclass);
    ReadU32At(data, p + 4, r.ttl);
    ReadU16At(data, p + 8, |r.rdata|);
  }

  lemma FourParts(data: seq<Byte>, p: nat, a: seq<Byte>, b: seq<Byte>, c: seq<Byte>, d: seq<Byte>)
    requires |a| == 2 && |b| == 2 && |c| == 4 && |d| == 2 && Holds(data, p, a + b + c + d)
    ensures Holds(data, p, a) && Holds(data, p + 2, b) && Holds(data, p + 4, c) && Holds(data, p + 8, d)
  {
    HoldsBoth(data, p, a + b + c, d);
    HoldsBoth(data, p, a + b, c);
    HoldsBoth(data, p, a, b);
  }

  // ---------------------------------------------------------------- text values

  /** The character-string segments of a TXT value, at most 255 bytes each. */
  method EncodeText(raw: seq<Byte>) returns (out: seq<Byte>)
    ensures out != [] && ReadText(out, 0) == Some(raw)
  {
    out := [];
    var i := 0;
    while i < |raw|
      invariant 0 <= i <= |raw|
      invariant ReadText(out, 0) == Some(raw[..i])
      invariant i > 0 ==> out != []
    {
      var j := if i + 255 <= |raw| then i + 255 else |raw|;
      var chunk := raw[i..j];
      SegmentAppended(out, 0, chunk);
      out := out + Segment(chunk);
      assert raw[..i] + chunk == raw[..j];
      i := j;
    }
    assert raw[..|raw|] == raw;
    if out == [] {
      ghost var none: seq<Byte> := [];
      SegmentAppended(none, 0, none);
      out := [0];
      assert none + Segment(none) == out && none + none == none == raw;
    }
  }

  /** A length and that many bytes. */
  function Segment(chunk: seq<Byte>): seq<Byte>
    requires |chunk| < 256
  {
    [|chunk|] + chunk
  }

  /** The segments from offset `o` on, joined; None when the last is cut short. */
  function ReadText(data: seq<Byte>, o: nat): Option<seq<Byte>>
    requires o <= |data|
    decreases |data| - o
  {
    if o == |data| then Some([])
    else
      var next := o + 1 + data[o] as nat;
      if next > |data| then None
      else
        match ReadText(data, next)
        case None => None
        case Some(rest) => Some(data[o + 1..next] + rest)
  }

  lemma {:induction false} SegmentAppended(data: seq<Byte>, o: nat, chunk: seq<Byte>)
    requires |chunk| < 256 && o <= |data| && ReadText(data, o).Some?
    ensures ReadText(data + Segment(chunk), o) == Some(ReadText(data, o).value + chunk)
    decreases |data| - o
  {
    var all := data + Segment(chunk);
    if o == |data| {
      assert all[o] == |chunk| && o + 1 + |chunk| == |all| && all[o + 1..|all|] == chunk;
      assert ReadText(all, |all|) == Some([]);
      assert chunk + [] == chunk == [] + chunk;
    } else {
      var next := o + 1 + data[o] as nat;
      SegmentAppended(data, next, chunk);
      assert all[o] == data[o] && all[o + 1..next] == data[o + 1..next];
      var first, rest := data[o + 1..next], ReadText(data, next).value;
      assert first + (rest + chunk) == (first + rest) + chunk;
    }
  }
}
