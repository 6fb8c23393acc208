/** Domain names on the wire (rangefinder/facades/dns.py; section 3.1 of RFC 1035, and the pointers of
    section 4.1.4): encoding, and decoding at any offset of a message. */
module DnsName {
  import opened Prelude
  import opened Octets

  /** Text in latin-1: one byte a character. */
  predicate IsLatin(s: string) {
    forall i :: 0 <= i < |s| ==> s[i] as int < 256
  }

  function Bytes(s: string): seq<Byte>
    requires IsLatin(s)
  {
    seq(|s|, i requires 0 <= i < |s| => s[i] as int)
  }

  function Text(b: seq<Byte>): string {
    seq(|b|, i requires 0 <= i < |b| => b[i] as char)
  }

  /** data[a:b] as Python slices: clamped to the data. */
  function Slice(data: seq<Byte>, a: nat, b: nat): seq<Byte> {
    var hi := if b <= |data| then b else |data|;
    if a <= hi then data[a..hi] else []
  }

  // ---------------------------------------------------------------- encoding

  predicate Encodable(labels: seq<string>) {
    forall i :: 0 <= i < |labels| ==> IsLatin(labels[i]) && |labels[i]| < 256
  }

  /** Length-prefixed labels and a closing zero; empty labels are skipped. */
  function EncodeLabels(labels: seq<string>): seq<Byte>
    requires Encodable(labels)
  {
    if labels == [] then [0]
    else if labels[0] == "" then EncodeLabels(labels[1..])
    else [|labels[0]|] + Bytes(labels[0]) + EncodeLabels(labels[1..])
  }

  /** Labels the decoder reads as labels; the standard allows no more than 63 bytes. */
  predicate PlainLabels(labels: seq<string>) {
    forall i :: 0 <= i < |labels| ==> IsLatin(labels[i]) && 0 < |labels[i]| < POINTER_BITS
  }

  const POINTER_BITS := 0xC0

  /** The bytes written so far, and those of the labels to come, make up the encoding. */
  ghost predicate Encoding(labels: seq<string>, i: nat, out: seq<Byte>)
    requires i <= |labels|
  {
    Encodable(labels[..i]) && (Encodable(labels) ==> EncodeLabels(labels) == out + EncodeLabels(labels[i..]))
  }

  lemma EncodeOne(labels: seq<string>, i: nat, out: seq<Byte>)
    requires i < |labels| && Encoding(labels, i, out) && IsLatin(labels[i]) && |labels[i]| < 256
    ensures Encoding(labels, i + 1, out + if labels[i] == "" then [] else [|labels[i]|] + Bytes(labels[i]))
  {
    assert labels[i..][1..] == labels[i + 1..] && labels[..i + 1] == labels[..i] + [labels[i]];
    if Encodable(labels) {
      var one, rest := [|labels[i]|] + Bytes(labels[i]), EncodeLabels(labels[i + 1..]);
      assert out + (one + rest) == (out + one) + rest;
    }
    assert out + [] == out;
  }

  lemma EncodeAll(labels: seq<string>, out: seq<Byte>)
    requires Encoding(labels, |labels|, out)
    ensures Encodable(labels) && EncodeLabels(labels) == out + [0]
  {
    assert labels[..|labels|] == labels && labels[|labels|..] == [];
  }

  /** The loop of the encoder; None when a label is too long or not latin-1. */
  method EncodeName(labels: seq<string>) returns (r: Option<seq<Byte>>)
    ensures r.Some? <==> Encodable(labels)
    ensures r.Some? ==> r.value == EncodeLabels(labels)
  {
    var out: seq<Byte> := [];
    assert labels[0..] == labels;
    for i := 0 to |labels|
      invariant Encoding(labels, i, out)
    {
      var name := labels[i];
      if !IsLatin(name) || |name| >= 256 { return None; }
      EncodeOne(labels, i, out);
      out := out + if name == "" then [] else [|name|] + Bytes(name);
    }
    EncodeAll(labels, out);
    r := Some(out + [0]);
  }

  // ---------------------------------------------------------------- decoding

  /** A name and the offset just past it; an index past the data; or still going. */
  datatype Decoded = Decoded(labels: seq<string>, next: nat) | BadIndex | Unfinished

  /** `end` is the offset past the first pointer, once one has been followed. */
  datatype Cursor = Cursor(offset: nat, labels: seq<string>, end: Option<nat>)

  function PointerTarget(data: seq<Byte>, o: nat): nat
    requires o + 1 < |data| && data[o] >= POINTER_BITS
  {
    (data[o] as nat - POINTER_BITS) * 256 + data[o + 1] as nat
  }

  /** The cursor after following a pointer; the offset past the first pointer is remembered. */
  function Follow(data: seq<Byte>, c: Cursor): Cursor
    requires c.offset + 1 < |data| && data[c.offset] >= POINTER_BITS
  {
    Cursor(PointerTarget(data, c.offset), c.labels, if c.end.Some? then c.end else Some(c.offset + 2))
  }

  function LabelText(data: seq<Byte>, o: nat, length: nat): string {
    Text(Slice(data, o, o + length))
  }

  /** The cursor after reading a label. */
  function ReadLabel(data: seq<Byte>, c: Cursor): Cursor
    requires c.offset < |data|
  {
    var o, length := c.offset + 1, data[c.offset];
    Cursor(o + length, c.labels + [LabelText(data, o, length)], c.end)
  }

  /** At most `fuel` turns of the decoder's loop, which has no bound of its own. */
  function Decode(data: seq<Byte>, c: Cursor, fuel: nat): Decoded
    decreases fuel
  {
    if fuel == 0 then Unfinished
    else if c.offset >= |data| then BadIndex
    else if data[c.offset] == 0 then Decoded(c.labels, if c.end.Some? then c.end.value else c.offset + 1)
    else if data[c.offset] >= POINTER_BITS then
      if c.offset + 1 >= |data| then BadIndex else Decode(data, Follow(data, c), fuel - 1)
    else Decode(data, ReadLabel(data, c), fuel - 1)
  }

  function DecodeName(data: seq<Byte>, offset: nat, fuel: nat): Decoded {
    Decode(data, Cursor(offset, [], None), fuel)
  }

  /** From these variables, `left` more turns end in `whole`. */
  ghost predicate LeadsTo(data: seq<Byte>, offset: nat, labels: seq<string>, jumped: bool, end: nat, left: nat,
                          whole: Decoded) {
    Decode(data, At(offset, labels, jumped, end), left) == whole
  }

  /** One turn of the loop: a result, or the variables for the next turn. */
  method Turn(data: seq<Byte>, offset0: nat, labels0: seq<string>, jumped0: bool, end0: nat, ghost left: nat,
              ghost whole: Decoded)
    returns (r: Option<Decoded>, offset: nat, labels: seq<string>, jumped: bool, end: nat)
    requires left > 0 && LeadsTo(data, offset0, labels0, jumped0, end0, left, whole)
    ensures r.Some? ==> r.value == whole
    ensures r.None? ==> LeadsTo(data, offset, labels, jumped, end, left - 1, whole)
  {
    offset, labels, jumped, end := offset0, labels0, jumped0, end0;
    r := Stop(data, offset, labels, jumped, end);
    TurnAtEnd(data, offset, labels, jumped, end, left, whole);
    if r.Some? { return; }
    if data[offset] >= POINTER_BITS {
      TurnAtPointer(data, offset, labels, jumped, end, left, whole);
      offset, end := TakePointer(data, offset, jumped, end);
      jumped := true;
    } else {
      TurnAtLabel(data, offset, labels, jumped, end, left, whole);
      offset, labels := TakeLabel(data, offset, labels);
    }
  }

  method TakePointer(data: seq<Byte>, offset: nat, jumped: bool, end: nat) returns (offset': nat, end': nat)
    requires offset + 1 < |data| && data[offset] >= POINTER_BITS
    ensures offset' == PointerTarget(data, offset) && end' == if jumped then end else offset + 2
  {
    end' := if jumped then end else offset + 2;
    offset' := PointerTarget(data, offset);
  }

  method TakeLabel(data: seq<Byte>, offset: nat, labels: seq<string>) returns (offset': nat, labels': seq<string>)
    requires offset < |data|
    ensures offset' == offset + 1 + data[offset]
    ensures labels' == labels + [LabelText(data, offset + 1, data[offset])]
  {
    var length := data[offset];
    offset' := offset + 1;
    labels' := labels + [LabelText(data, offset', length)];
    offset' := offset' + length;
  }

  /** Where the loop stops: past the data, at a zero, or at a pointer cut short. */
  function Stop(data: seq<Byte>, offset: nat, labels: seq<string>, jumped: bool, end: nat): Option<Decoded> {
    if offset >= |data| || (offset + 1 == |data| && data[offset] >= POINTER_BITS) then Some(BadIndex)
    else if data[offset] == 0 then Some(Decoded(labels, if jumped then end else offset + 1))
    else None
  }

  /** The decoder as written, stopped after `fuel` turns. */
  method RunDecoder(data: seq<Byte>, start: nat, fuel: nat) returns (r: Decoded)
    ensures r == DecodeName(data, start, fuel)
  {
    ghost var whole := TurnsAtStart(data, start, fuel);
    var labels: seq<string>, jumped := [], false;
    var end: nat, offset: nat, left := start, start, fuel;
    while left > 0
      invariant LeadsTo(data, offset, labels, jumped, end, left, whole)
      decreases left
    {
      var done;
      done, offset, labels, jumped, end := Turn(data, offset, labels, jumped, end, left, whole);
      if done.Some? { return done.value; }
      left := left - 1;
    }
    NoTurnsLeft(data, offset, labels, jumped, end, whole);
    r := Unfinished;
  }

  lemma TurnsAtStart(data: seq<Byte>, start: nat, fuel: nat) returns (whole: Decoded)
    ensures whole == DecodeName(data, start, fuel)
    ensures LeadsTo(data, start, [], false, start, fuel, whole)
  {
    whole := DecodeName(data, start, fuel);
  }

  lemma NoTurnsLeft(data: seq<Byte>, offset: nat, labels: seq<string>, jumped: bool, end: nat, whole: Decoded)
    requires LeadsTo(data, offset, labels, jumped, end, 0, whole)
    ensures whole == Unfinished
  {}

  lemma TurnAtEnd(data: seq<Byte>, o: nat, labels: seq<string>, jumped: bool, end: nat, left: nat, whole: Decoded)
    requires left > 0 && LeadsTo(data, o, labels, jumped, end, left, whole)
    ensures Stop(data, o, labels, jumped, end).Some? ==> whole == Stop(data, o, labels, jumped, end).value
  {}

  lemma TurnAtPointer(data: seq<Byte>, o: nat, labels: seq<string>, jumped: bool, end: nat, left: nat, whole: Decoded)
    requires left > 0 && LeadsTo(data, o, labels, jumped, end, left, whole)
    requires o + 1 < |data| && data[o] >= POINTER_BITS
    ensures LeadsTo(data, PointerTarget(data, o), labels, true, if jumped then end else o + 2, left - 1, whole)
  {}

  lemma TurnAtLabel(data: seq<Byte>, o: nat, labels: seq<string>, jumped: bool, end: nat, left: nat, whole: Decoded)
    requires left > 0 && LeadsTo(data, o, labels, jumped, end, left, whole)
    requires o < |data| && 0 < data[o] < POINTER_BITS
    ensures LeadsTo(data, o + 1 + data[o], labels + [LabelText(data, o + 1, data[o])], jumped, end,
                    left - 1, whole)
  {}

  /** The decoder's variables as a cursor. */
  ghost function At(offset: nat, labels: seq<string>, jumped: bool, end: nat): Cursor {
    Cursor(offset, labels, if jumped then Some(end) else None)
  }

  /** The same result after this turn as after the next. */
  predicate SameAfter(data: seq<Byte>, c: Cursor, fuel: nat, more: nat) {
    Decode(data, c, more) == Decode(data, c, fuel)
  }

  lemma TurnKeepsSame(data: seq<Byte>, c: Cursor, next: Cursor, fuel: nat, more: nat)
    requires c.offset < |data| && data[c.offset] != 0 && (data[c.offset] >= POINTER_BITS ==> c.offset + 1 < |data|)
    requires next == if data[c.offset] < POINTER_BITS then ReadLabel(data, c) else Follow(data, c)
    ensures Decode(data, c, fuel + 1) == Decode(data, next, fuel)
    ensures SameAfter(data, next, fuel, more) ==> SameAfter(data, c, fuel + 1, more + 1)
  {}

  /** A finished decoding does not depend on the bound. */
  lemma {:induction false} MoreFuelSameName(data: seq<Byte>, c: Cursor, fuel: nat, more: nat)
    requires Decode(data, c, fuel) != Unfinished && fuel <= more
    ensures SameAfter(data, c, fuel, more)
    decreases fuel
  {
    if c.offset < |data| && data[c.offset] != 0 && (data[c.offset] >= POINTER_BITS ==> c.offset + 1 < |data|) {
      var next := if data[c.offset] < POINTER_BITS then ReadLabel(data, c) else Follow(data, c);
      TurnKeepsSame(data, c, next, fuel - 1, more - 1);
      MoreFuelSameName(data, next, fuel - 1, more - 1);
    }
  }

  /** A decoded name ends after it starts, or where its first pointer ends. */
  lemma {:induction false} NextIsPast(data: seq<Byte>, c: Cursor, fuel: nat)
    requires Decode(data, c, fuel).Decoded?
    ensures if c.end.Some? then Decode(data, c, fuel).next == c.end.value else Decode(data, c, fuel).next > c.offset
    decreases fuel
  {
    if data[c.offset] != 0 {
      if data[c.offset] < POINTER_BITS {
        NextIsPast(data, ReadLabel(data, c), fuel - 1);
      } else {
        NextIsPast(data, Follow(data, c), fuel - 1);
      }
    }
  }

  // ---------------------------------------------------------------- names laid out in a message

  /** The message holds `labels` at `off`: labels in place, then a zero or a pointer to the rest, with
      `jumps` pointers on the way. */
  ghost predicate LaidOut(data: seq<Byte>, off: nat, labels: seq<string>, jumps: nat)
    decreases jumps, |labels|
  {
    off < |data| &&
    if data[off] == 0 then labels == [] && jumps == 0
    else if data[off] >= POINTER_BITS then
      off + 1 < |data| && jumps > 0 && LaidOut(data, PointerTarget(data, off), labels, jumps - 1)
    else
      labels != [] && off + 1 + data[off] <= |data|
      && labels[0] == Text(data[off + 1..off + 1 + data[off]])
      && LaidOut(data, off + 1 + data[off], labels[1..], jumps)
  }

  /** The offset just past the name in place at `off`: past its zero, or past its first pointer. */
  ghost function PastName(data: seq<Byte>, off: nat, labels: seq<string>, jumps: nat): nat
    requires LaidOut(data, off, labels, jumps)
    decreases |labels|
  {
    if data[off] == 0 then off + 1
    else if data[off] >= POINTER_BITS then off + 2
    else PastName(data, off + 1 + data[off], labels[1..], jumps)
  }

  lemma ReadLabelLaidOut(data: seq<Byte>, c: Cursor, name: string)
    requires c.offset < |data| && c.offset + 1 + data[c.offset] <= |data|
    requires name == Text(data[c.offset + 1..c.offset + 1 + data[c.offset]])
    ensures ReadLabel(data, c) == Cursor(c.offset + 1 + data[c.offset], c.labels + [name], c.end)
  {}

  ghost function EndFor(data: seq<Byte>, c: Cursor, labels: seq<string>, jumps: nat): nat
    requires LaidOut(data, c.offset, labels, jumps)
  {
    if c.end.Some? then c.end.value else PastName(data, c.offset, labels, jumps)
  }

  /** From this cursor the decoder reads the labels laid out there, in one turn for each label and pointer
      and one for the end. */
  ghost predicate DecodesTo(data: seq<Byte>, c: Cursor, labels: seq<string>, jumps: nat)
    requires LaidOut(data, c.offset, labels, jumps)
  {
    Decode(data, c, |labels| + jumps + 1) == Decoded(c.labels + labels, EndFor(data, c, labels, jumps))
  }

  /** The cursor past the first label, where the rest of the name is laid out and ends as the whole does. */
  lemma PastLabel(data: seq<Byte>, c: Cursor, labels: seq<string>, jumps: nat) returns (next: Cursor)
    requires LaidOut(data, c.offset, labels, jumps) && 0 < data[c.offset] < POINTER_BITS
    ensures next == ReadLabel(data, c) && labels != []
    ensures next.labels == c.labels + [labels[0]] && LaidOut(data, next.offset, labels[1..], jumps)
    ensures EndFor(data, next, labels[1..], jumps) == EndFor(data, c, labels, jumps)
  {
    ReadLabelLaidOut(data, c, labels[0]);
    next := Cursor(c.offset + 1 + data[c.offset], c.labels + [labels[0]], c.end);
  }

  lemma DecodeStepLabel(data: seq<Byte>, c: Cursor, labels: seq<string>, jumps: nat) returns (next: Cursor)
    requires LaidOut(data, c.offset, labels, jumps) && 0 < data[c.offset] < POINTER_BITS
    ensures labels != [] && LaidOut(data, next.offset, labels[1..], jumps)
    ensures DecodesTo(data, next, labels[1..], jumps) ==> DecodesTo(data, c, labels, jumps)
  {
    next := PastLabel(data, c, labels, jumps);
    if DecodesTo(data, next, labels[1..], jumps) { RestThenWhole(data, c, next, labels, jumps); }
  }

  lemma RestThenWhole(data: seq<Byte>, c: Cursor, next: Cursor, labels: seq<string>, jumps: nat)
    requires LaidOut(data, c.offset, labels, jumps) && 0 < data[c.offset] < POINTER_BITS && labels != []
    requires next == ReadLabel(data, c) && next.labels == c.labels + [labels[0]]
    requires LaidOut(data, next.offset, labels[1..], jumps) && DecodesTo(data, next, labels[1..], jumps)
    requires EndFor(data, next, labels[1..], jumps) == EndFor(data, c, labels, jumps)
    ensures DecodesTo(data, c, labels, jumps)
  {
    RestIsDecoded(data, c, next, labels, jumps);
    TurnCarries(data, c, next, |labels| + jumps, Decoded(c.labels + labels, EndFor(data, c, labels, jumps)));
  }

  lemma RestIsDecoded(data: seq<Byte>, c: Cursor, next: Cursor, labels: seq<string>, jumps: nat)
    requires LaidOut(data, c.offset, labels, jumps) && labels != [] && LaidOut(data, next.offset, labels[1..], jumps)
    requires next.labels == c.labels + [labels[0]] && DecodesTo(data, next, labels[1..], jumps)
    requires EndFor(data, next, labels[1..], jumps) == EndFor(data, c, labels, jumps)
    ensures Decode(data, next, |labels| + jumps) == Decoded(c.labels + labels, EndFor(data, c, labels, jumps))
  {
    FirstJoins(c.labels, labels);
    assert |labels[1..]| + jumps + 1 == |labels| + jumps;
  }

  /** What the next turns lead to, this turn leads to. */
  lemma TurnCarries(data: seq<Byte>, c: Cursor, next: Cursor, fuel: nat, result: Decoded)
    requires c.offset < |data| && data[c.offset] != 0 && (data[c.offset] >= POINTER_BITS ==> c.offset + 1 < |data|)
    requires next == if data[c.offset] < POINTER_BITS then ReadLabel(data, c) else Follow(data, c)
    requires Decode(data, next, fuel) == result
    ensures Decode(data, c, fuel + 1) == result
  {}

  lemma FirstJoins(front: seq<string>, labels: seq<string>)
    requires labels != []
    ensures front + [labels[0]] + labels[1..] == front + labels
  {}

  lemma DecodeStepPointer(data: seq<Byte>, c: Cursor, labels: seq<string>, jumps: nat)
    requires LaidOut(data, c.offset, labels, jumps) && data[c.offset] >= POINTER_BITS
    ensures jumps > 0 && c.offset + 1 < |data| && LaidOut(data, Follow(data, c).offset, labels, jumps - 1)
    ensures DecodesTo(data, Follow(data, c), labels, jumps - 1) ==> DecodesTo(data, c, labels, jumps)
  {
    TurnKeepsSame(data, c, Follow(data, c), |labels| + jumps, |labels| + jumps);
  }

  lemma DecodeStepEnd(data: seq<Byte>, c: Cursor, labels: seq<string>, jumps: nat)
    requires LaidOut(data, c.offset, labels, jumps) && data[c.offset] == 0
    ensures DecodesTo(data, c, labels, jumps)
  {
    assert c.labels + [] == c.labels;
  }

  /** The decoder reads every name laid out in a message, wherever its labels are, and stops past the
      part in place. */
  lemma {:induction false} DecodeLaidOut(data: seq<Byte>, c: Cursor, labels: seq<string>, jumps: nat)
    requires LaidOut(data, c.offset, labels, jumps)
    ensures DecodesTo(data, c, labels, jumps)
    decreases jumps, |labels|
  {
    if data[c.offset] == 0 {
      DecodeStepEnd(data, c, labels, jumps);
    } else if data[c.offset] >= POINTER_BITS {
      DecodeStepPointer(data, c, labels, jumps);
      DecodeLaidOut(data, Follow(data, c), labels, jumps - 1);
    } else {
      var next := DecodeStepLabel(data, c, labels, jumps);
      DecodeLaidOut(data, next, labels[1..], jumps);
    }
  }

  /** And what is read is laid out: a decoding that finishes has met every label in full. */
  lemma {:induction false} FinishedIsLaidOut(data: seq<Byte>, c: Cursor, fuel: nat)
    returns (labels: seq<string>, jumps: nat)
    requires Decode(data, c, fuel).Decoded?
    ensures LaidOut(data, c.offset, labels, jumps)
    ensures Decode(data, c, fuel) == Decoded(c.labels + labels, EndFor(data, c, labels, jumps))
    decreases fuel
  {
    var o := c.offset;
    if data[o] == 0 {
      labels, jumps := [], 0;
      assert c.labels + [] == c.labels;
    } else if data[o] >= POINTER_BITS {
      labels, jumps := FinishedIsLaidOut(data, Follow(data, c), fuel - 1);
      jumps := jumps + 1;
    } else {
      var next := ReadLabel(data, c);
      var rest;
      rest, jumps := FinishedIsLaidOut(data, next, fuel - 1);
      labels := LabelBefore(data, c, rest, jumps);
    }
  }

  lemma LabelBefore(data: seq<Byte>, c: Cursor, rest: seq<string>, jumps: nat) returns (labels: seq<string>)
    requires c.offset < |data| && 0 < data[c.offset] < POINTER_BITS
    requires LaidOut(data, ReadLabel(data, c).offset, rest, jumps)
    ensures LaidOut(data, c.offset, labels, jumps)
    ensures c.labels + labels == ReadLabel(data, c).labels + rest
    ensures EndFor(data, c, labels, jumps) == EndFor(data, ReadLabel(data, c), rest, jumps)
  {
    LaidOutInside(data, ReadLabel(data, c).offset, rest, jumps);
    var name := Text(data[c.offset + 1..c.offset + 1 + data[c.offset]]);
    labels := [name] + rest;
    ReadLabelLaidOut(data, c, name);
    LabelOnTop(data, c.offset, name, rest, jumps);
    Associates(c.labels, [name], rest);
  }

  lemma LaidOutInside(data: seq<Byte>, off: nat, labels: seq<string>, jumps: nat)
    requires LaidOut(data, off, labels, jumps)
    ensures off < |data|
  {}

  lemma LabelOnTop(data: seq<Byte>, off: nat, name: string, rest: seq<string>, jumps: nat)
    requires off < |data| && 0 < data[off] < POINTER_BITS && off + 1 + data[off] <= |data|
    requires name == Text(data[off + 1..off + 1 + data[off]]) && LaidOut(data, off + 1 + data[off], rest, jumps)
    ensures LaidOut(data, off, [name] + rest, jumps)
    ensures PastName(data, off, [name] + rest, jumps) == PastName(data, off + 1 + data[off], rest, jumps)
  {
    assert ([name] + rest)[1..] == rest;
  }

  ghost predicate IsRead(data: seq<Byte>, off: nat) {
    exists fuel: nat :: DecodeName(data, off, fuel).Decoded?
  }

  ghost predicate IsLaidOut(data: seq<Byte>, off: nat) {
    exists labels: seq<string>, jumps: nat :: LaidOut(data, off, labels, jumps)
  }

  /** A name can be read at `off` exactly when one is laid out there. */
  lemma ReadIffLaidOut(data: seq<Byte>, off: nat)
    ensures IsRead(data, off) <==> IsLaidOut(data, off)
  {
    var c := Cursor(off, [], None);
    if IsRead(data, off) {
      var fuel: nat :| DecodeName(data, off, fuel).Decoded?;
      var labels, jumps := FinishedIsLaidOut(data, c, fuel);
      assert LaidOut(data, off, labels, jumps);
    }
    if IsLaidOut(data, off) {
      var labels: seq<string>, jumps: nat :| LaidOut(data, off, labels, jumps);
      DecodeLaidOut(data, c, labels, jumps);
      assert DecodesTo(data, c, labels, jumps);
      assert DecodeName(data, off, |labels| + jumps + 1).Decoded?;
    }
  }

  // ---------------------------------------------------------------- names that never end

  /** Where the decoder goes from an offset; None where it stops. */
  function NextOffset(data: seq<Byte>, o: nat): Option<nat> {
    if o >= |data| || data[o] == 0 then None
    else if data[o] < POINTER_BITS then Some(o + 1 + data[o] as nat)
    else if o + 1 < |data| then Some(PointerTarget(data, o)) else None
  }

  /** Where it is after `n` turns; None when it has stopped by then. */
  function OffsetAfter(data: seq<Byte>, o: nat, n: nat): Option<nat>
    decreases n
  {
    if n == 0 then Some(o)
    else
      match NextOffset(data, o)
      case None => None
      case Some(next) => OffsetAfter(data, next, n - 1)
  }

  /** With so many turns the decoder is unfinished exactly when it is still going. */
  ghost predicate GoingIfUnfinished(data: seq<Byte>, c: Cursor, fuel: nat) {
    Decode(data, c, fuel) == Unfinished <==> OffsetAfter(data, c.offset, fuel).Some?
  }

  lemma {:induction false} UnfinishedIsGoing(data: seq<Byte>, c: Cursor, fuel: nat)
    ensures GoingIfUnfinished(data, c, fuel)
    decreases fuel
  {
    if fuel == 0 || NextOffset(data, c.offset).None? {
      NoNextFinishes(data, c, fuel);
    } else {
      var next := TurnTo(data, c);
      UnfinishedIsGoing(data, next, fuel - 1);
      TurnKeepsGoing(data, c, next, fuel - 1);
    }
  }

  lemma NoNextFinishes(data: seq<Byte>, c: Cursor, fuel: nat)
    requires fuel == 0 || NextOffset(data, c.offset).None?
    ensures GoingIfUnfinished(data, c, fuel)
  {}

  lemma TurnKeepsGoing(data: seq<Byte>, c: Cursor, next: Cursor, fuel: nat)
    requires c.offset < |data| && data[c.offset] != 0 && (data[c.offset] >= POINTER_BITS ==> c.offset + 1 < |data|)
    requires next == if data[c.offset] < POINTER_BITS then ReadLabel(data, c) else Follow(data, c)
    requires NextOffset(data, c.offset) == Some(next.offset) && GoingIfUnfinished(data, next, fuel)
    ensures GoingIfUnfinished(data, c, fuel + 1)
  {
    TurnKeepsSame(data, c, next, fuel, fuel);
  }

  /** The decoder's variables after a turn that does not stop. */
  lemma TurnTo(data: seq<Byte>, c: Cursor) returns (next: Cursor)
    requires NextOffset(data, c.offset).Some?
    ensures c.offset < |data| && data[c.offset] != 0 && (data[c.offset] >= POINTER_BITS ==> c.offset + 1 < |data|)
    ensures next == if data[c.offset] < POINTER_BITS then ReadLabel(data, c) else Follow(data, c)
    ensures NextOffset(data, c.offset) == Some(next.offset)
  {
    next := if data[c.offset] < POINTER_BITS then ReadLabel(data, c) else Follow(data, c);
  }

  lemma {:induction false} AfterBoth(data: seq<Byte>, o: nat, m: nat, n: nat)
    requires OffsetAfter(data, o, m).Some?
    ensures OffsetAfter(data, o, m + n) == OffsetAfter(data, OffsetAfter(data, o, m).value, n)
    decreases m
  {
    if m > 0 { AfterBoth(data, NextOffset(data, o).value, m - 1, n); }
  }

  /** A turn is only taken from inside the message, so it was going before. */
  lemma WasGoing(data: seq<Byte>, o: nat, m: nat, n: nat)
    requires m < n && OffsetAfter(data, o, n).Some?
    ensures OffsetAfter(data, o, m).Some? && OffsetAfter(data, o, m).value < |data|
  {
    StaysStopped(data, o, m, n);
    AfterBoth(data, o, m, n - m);
  }

  lemma {:induction false} StaysStopped(data: seq<Byte>, o: nat, m: nat, n: nat)
    requires m <= n && OffsetAfter(data, o, n).Some?
    ensures OffsetAfter(data, o, m).Some?
    decreases m
  {
    if m > 0 { StaysStopped(data, NextOffset(data, o).value, m - 1, n - 1); }
  }

  /** The decoder comes to an offset it has been at. */
  ghost predicate Revisits(data: seq<Byte>, o: nat, i: nat, j: nat) {
    i < j && OffsetAfter(data, o, j).Some? && OffsetAfter(data, o, i) == OffsetAfter(data, o, j)
  }

  /** Then it never stops. */
  lemma {:induction false} RevisitingNeverStops(data: seq<Byte>, o: nat, i: nat, j: nat, n: nat)
    requires Revisits(data, o, i, j)
    ensures OffsetAfter(data, o, n).Some?
    decreases n
  {
    if n <= j {
      StaysStopped(data, o, n, j);
    } else {
      RevisitingNeverStops(data, o, i, j, i + (n - j));
      AfterBoth(data, o, j, n - j);
      AfterBoth(data, o, i, n - j);
    }
  }

  /** More numbers than there are values below `n`: two are the same. */
  lemma {:induction false} Pigeonhole(s: seq<nat>, n: nat) returns (i: nat, j: nat)
    requires |s| > n && forall k :: 0 <= k < |s| ==> s[k] < n
    ensures i < j < |s| && s[i] == s[j]
    decreases n
  {
    var last := |s| - 1;
    if k :| 0 <= k < last && s[k] == s[last] {
      i, j := k, last;
    } else {
      var lower := seq(last, k requires 0 <= k < last => if s[k] < s[last] then s[k] else s[k] - 1);
      i, j := Pigeonhole(lower, n - 1);
    }
  }

  /** After one turn more than the message has bytes, it has been somewhere twice. */
  lemma LongRunRevisits(data: seq<Byte>, o: nat) returns (i: nat, j: nat)
    requires OffsetAfter(data, o, |data| + 1).Some?
    ensures Revisits(data, o, i, j)
  {
    var n := |data| + 1;
    forall k | 0 <= k < n ensures OffsetAfter(data, o, k).Some? && OffsetAfter(data, o, k).value < |data| {
      WasGoing(data, o, k, n);
    }
    var offsets := seq(n, k requires 0 <= k < n => OffsetAfter(data, o, k).value);
    i, j := Pigeonhole(offsets, |data|);
    assert offsets[i] == OffsetAfter(data, o, i).value && offsets[j] == OffsetAfter(data, o, j).value;
  }

  /** The decoder runs forever exactly when it comes back to an offset, and one turn more than the message
      has bytes is enough to tell. */
  lemma EndlessIff(data: seq<Byte>, off: nat)
    ensures (forall fuel :: DecodeName(data, off, fuel) == Unfinished) <==> exists i, j :: Revisits(data, off, i, j)
    ensures (forall fuel :: DecodeName(data, off, fuel) == Unfinished)
            <==> DecodeName(data, off, |data| + 1) == Unfinished
  {
    var c := Cursor(off, [], None);
    UnfinishedIsGoing(data, c, |data| + 1);
    if DecodeName(data, off, |data| + 1) == Unfinished {
      var i, j := LongRunRevisits(data, off);
    }
    if i, j :| Revisits(data, off, i, j) {
      forall fuel ensures DecodeName(data, off, fuel) == Unfinished {
        RevisitingNeverStops(data, off, i, j, fuel);
        UnfinishedIsGoing(data, c, fuel);
      }
    }
  }

  /** The smallest case: a query whose name is a pointer to itself. */
  lemma SelfPointerIsEndless(data: seq<Byte>)
    requires |data| >= 14 && data[12] == 0xC0 && data[13] == 12
    ensures forall fuel :: DecodeName(data, 12, fuel) == Unfinished
  {
    assert NextOffset(data, 12) == Some(12);
    assert OffsetAfter(data, 12, 0) == Some(12) && OffsetAfter(data, 12, 1) == OffsetAfter(data, 12, 0);
    assert Revisits(data, 12, 0, 1);
    EndlessIff(data, 12);
  }

  /** For `n` turns, every pointer met leads to before the start of the run of labels that it ends. */
  predicate PointsBack(data: seq<Byte>, o: nat, start: nat, n: nat)
    decreases n
  {
    n == 0 ||
    match NextOffset(data, o)
    case None => true
    case Some(next) =>
      if data[o] < POINTER_BITS then PointsBack(data, next, start, n - 1)
      else next < start && PointsBack(data, next, next, n - 1)
  }

  ghost predicate AlwaysPointsBack(data: seq<Byte>, o: nat, start: nat) {
    forall n: nat :: PointsBack(data, o, start, n)
  }

  /** Labels lead forward within the message, and pointers back to earlier and earlier runs. */
  lemma {:induction false} PointingBackStops(data: seq<Byte>, o: nat, start: nat) returns (n: nat)
    requires AlwaysPointsBack(data, o, start)
    ensures OffsetAfter(data, o, n).None?
    decreases start, if o < |data| then |data| - o else 0
  {
    if NextOffset(data, o).None? {
      n := 1;
    } else {
      var next := NextOffset(data, o).value;
      var start' := if data[o] < POINTER_BITS then start else next;
      forall m: nat ensures PointsBack(data, next, start', m) { assert PointsBack(data, o, start, m + 1); }
      assert PointsBack(data, o, start, 1);
      var m := PointingBackStops(data, next, start');
      n := m + 1;
    }
  }

  /** Pointers as section 4.1.4 of RFC 1035 has them, to a prior occurrence of the rest of the name, never
      keep the decoder running. */
  lemma PriorPointersEnd(data: seq<Byte>, off: nat)
    requires AlwaysPointsBack(data, off, off)
    ensures DecodeName(data, off, |data| + 1) != Unfinished
  {
    var n := PointingBackStops(data, off, off);
    UnfinishedIsGoing(data, Cursor(off, [], None), n);
    assert DecodeName(data, off, n) != Unfinished;
    EndlessIff(data, off);
  }

  /** A label in front of a name that is laid out. */
  lemma LabelInFront(data: seq<Byte>, off: nat, labels: seq<string>)
    requires PlainLabels(labels) && labels != []
    requires off + 1 + |labels[0]| <= |data| && data[off] == |labels[0]|
    requires Holds(data, off + 1, Bytes(labels[0])) && LaidOut(data, off + 1 + |labels[0]|, labels[1..], 0)
    ensures LaidOut(data, off, labels, 0)
    ensures PastName(data, off, labels, 0) == PastName(data, off + 1 + |labels[0]|, labels[1..], 0)
  {
    TextOfBytes(labels[0]);
    HoldsSlice(data, off + 1, Bytes(labels[0]));
  }

  /** Encoded labels are laid out wherever they stand. */
  lemma {:induction false} EncodedIsLaidOut(data: seq<Byte>, o: nat, labels: seq<string>)
    requires PlainLabels(labels) && Encodable(labels) && Holds(data, o, EncodeLabels(labels))
    ensures LaidOut(data, o, labels, 0) && PastName(data, o, labels, 0) == o + |EncodeLabels(labels)|
    decreases |labels|
  {
    if labels == [] {
      assert EncodeLabels([])[0] == 0;
    } else {
      FirstLabelHeld(data, o, labels);
      EncodedIsLaidOut(data, o + 1 + |labels[0]|, labels[1..]);
      LabelInFront(data, o, labels);
    }
  }

  lemma FirstLabelHeld(data: seq<Byte>, o: nat, labels: seq<string>)
    requires PlainLabels(labels) && Encodable(labels) && labels != [] && Holds(data, o, EncodeLabels(labels))
    ensures Encodable(labels[1..]) && o < |data| && data[o] == |labels[0]|
    ensures Holds(data, o + 1, Bytes(labels[0])) && Holds(data, o + 1 + |labels[0]|, EncodeLabels(labels[1..]))
  {
    var text, rest := Bytes(labels[0]), EncodeLabels(labels[1..]);
    EncodeFirst(labels);
    SizeTextRest(data, o, |text|, text, rest);
  }

  lemma EncodeFirst(labels: seq<string>)
    requires PlainLabels(labels) && Encodable(labels) && labels != []
    ensures Encodable(labels[1..])
    ensures EncodeLabels(labels) == [|labels[0]|] + Bytes(labels[0]) + EncodeLabels(labels[1..])
  {}

  lemma SizeTextRest(data: seq<Byte>, o: nat, size: Byte, text: seq<Byte>, rest: seq<Byte>)
    requires Holds(data, o, [size] + text + rest)
    ensures o < |data| && data[o] == size && Holds(data, o + 1, text) && Holds(data, o + 1 + |text|, rest)
  {
    HoldsBoth(data, o, [size] + text, rest);
    HoldsBoth(data, o, [size], text);
    assert [size][0] == size;
  }

  lemma TextOfBytes(s: string)
    requires IsLatin(s)
    ensures Text(Bytes(s)) == s
  {}

  /** Decoding inverts encoding at any offset of any message. */
  lemma DecodeInvertsEncode(data: seq<Byte>, o: nat, labels: seq<string>, fuel: nat)
    requires PlainLabels(labels) && Encodable(labels) && Holds(data, o, EncodeLabels(labels)) && fuel > |labels|
    ensures DecodeName(data, o, fuel) == Decoded(labels, o + |EncodeLabels(labels)|)
  {
    var c := Cursor(o, [], None);
    EncodedIsLaidOut(data, o, labels);
    DecodeLaidOut(data, c, labels, 0);
    assert DecodesTo(data, c, labels, 0);
    MoreFuelSameName(data, c, |labels| + 1, fuel);
    assert SameAfter(data, c, |labels| + 1, fuel);
    assert [] + labels == labels;
  }

  /** Labels followed by a pointer to a name already in the message decode to the labels and that
      name, and end just past the pointer. */
  lemma DecodeCompressed(data: seq<Byte>, off: nat, labels: seq<string>, jumps: nat)
    requires LaidOut(data, off, labels, jumps)
    ensures DecodeName(data, off, |labels| + jumps + 1) == Decoded(labels, PastName(data, off, labels, jumps))
  {
    DecodeLaidOut(data, Cursor(off, [], None), labels, jumps);
    assert [] + labels == labels;
  }
}
