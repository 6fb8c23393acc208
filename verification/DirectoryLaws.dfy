/** What a directory search gives, in the text of the names and values alone (rangefinder/facades/ldap.py):
    which names a scope takes in, and which values a substrings filter accepts. */
module DirectoryLaws {
  import opened Prelude
  import opened Pieces
  import opened LdapScope
  import opened LdapFilter

  // ---------------------------------------------------------------- names

  predicate Blank(t: Text, s: string) {
    forall i :: 0 <= i < |s| ==> t.isSpace(s[i])
  }

  /** `part` is `whole` without the blanks at either end. */
  ghost predicate Trimmed(t: Text, whole: string, part: string) {
    && (part != "" ==> !t.isSpace(part[0]) && !t.isSpace(part[|part| - 1]))
    && exists a, b :: Blank(t, a) && Blank(t, b) && whole == a + part + b
  }

  lemma {:induction false} LeftIs(t: Text, s: string) returns (a: string)
    ensures Blank(t, a) && s == a + StripLeft(t, s)
    ensures StripLeft(t, s) != "" ==> !t.isSpace(StripLeft(t, s)[0])
    decreases |s|
  {
    if s != "" && t.isSpace(s[0]) {
      var rest := LeftIs(t, s[1..]);
      a := [s[0]] + rest;
      assert s == [s[0]] + s[1..];
    } else {
      a := "";
    }
  }

  lemma {:induction false} RightIs(t: Text, s: string) returns (b: string)
    ensures Blank(t, b) && s == StripRight(t, s) + b
    ensures StripRight(t, s) != "" ==> !t.isSpace(StripRight(t, s)[|StripRight(t, s)| - 1])
    decreases |s|
  {
    if s != "" && t.isSpace(s[|s| - 1]) {
      var rest := RightIs(t, s[..|s| - 1]);
      b := rest + [s[|s| - 1]];
      assert s == s[..|s| - 1] + [s[|s| - 1]];
    } else {
      b := "";
      assert s == s + "";
    }
  }

  lemma StripIsTrim(t: Text, s: string)
    ensures Trimmed(t, s, StripRight(t, StripLeft(t, s)))
  {
    var left := StripLeft(t, s);
    var a := LeftIs(t, s);
    var b := RightIs(t, left);
    var part := StripRight(t, left);
    assert s == a + part + b;
    if part != "" { assert part[0] == left[0]; }
  }

  lemma {:induction false} EachIsTrimmed(t: Text, parts: seq<string>, i: nat)
    requires i < |parts|
    ensures Trimmed(t, parts[i], StripEach(t, parts)[i])
    decreases |parts|
  {
    if i == 0 { StripIsTrim(t, parts[0]); } else { EachIsTrimmed(t, parts[1..], i - 1); }
  }

  /** `parts` are the components of the name as written, in lower case, and `out` those of the name searches
      compare. */
  ghost predicate Compared(t: Text, dn: string, parts: seq<string>, out: seq<string>) {
    && ArePieces(t.lower(dn), ',', parts) && ArePieces(Norm(t, dn), ',', out) && |out| == |parts|
    && forall i :: 0 <= i < |parts| ==> Trimmed(t, parts[i], out[i])
  }

  /** Names are compared component by component, in lower case and without blanks around a component. */
  lemma NormIs(t: Text, dn: string) returns (parts: seq<string>, out: seq<string>)
    ensures Compared(t, dn, parts, out)
  {
    parts := Split(t.lower(dn), ',');
    out := StripEach(t, parts);
    SplitIsPieces(t.lower(dn), ',');
    forall i | 0 <= i < |parts| ensures Trimmed(t, parts[i], out[i]) { EachIsTrimmed(t, parts, i); }
  }

  lemma {:induction false} AfterIs(s: string) returns (front: string)
    requires ',' in s
    ensures ',' !in front && s == front + "," + After(s)
    decreases |s|
  {
    if s[0] == ',' {
      front := "";
      assert s == [s[0]] + s[1..];
    } else {
      var rest := AfterIs(s[1..]);
      front := [s[0]] + rest;
      assert s == [s[0]] + s[1..];
    }
  }

  lemma {:induction false} AfterFront(front: string, rest: string)
    requires ',' !in front
    ensures After(front + "," + rest) == rest
    decreases |front|
  {
    var s := front + "," + rest;
    if front == "" {
      assert s[1..] == rest;
    } else {
      assert s[1..] == front[1..] + "," + rest;
      AfterFront(front[1..], rest);
    }
  }

  /** `name` is `rest` with something and a comma in front. */
  ghost predicate Extends(name: string, rest: string) {
    exists front :: name == front + "," + rest
  }

  /** With one component in front. */
  ghost predicate ExtendsByOne(name: string, rest: string) {
    exists front :: ',' !in front && name == front + "," + rest
  }

  lemma AfterIsRest(e: string, b: string)
    ensures ExtendsByOne(e, b) <==> ',' in e && After(e) == b
  {
    if ',' in e && After(e) == b { var front := AfterIs(e); }
    if front :| ',' !in front && e == front + "," + b {
      AfterFront(front, b);
      assert e[|front|] == ',';
    }
  }

  lemma EndIsRest(e: string, b: string)
    ensures Extends(e, b) <==> EndsWith(e, "," + b)
  {
    if EndsWith(e, "," + b) {
      var front := e[..|e| - |b| - 1];
      Associates(front, ",", b);
      assert e == front + ("," + b);
    }
    if front :| e == front + "," + b {
      Associates(front, ",", b);
      assert e[|front|..] == "," + b;
    }
  }

  /** The base itself; the names one component longer than the base; and the base with all names that end in a
      comma and the base. */
  lemma ScopesAre(t: Text, dn: string, base: string)
    requires KeepsCommas(t)
    ensures InScope(t, dn, base, Base) <==> Norm(t, dn) == Norm(t, base)
    ensures InScope(t, dn, base, OneLevel) <==>
            ExtendsByOne(Norm(t, dn), Norm(t, base)) || (',' !in dn && Norm(t, base) == "")
    ensures InScope(t, dn, base, Subtree) <==>
            Norm(t, dn) == Norm(t, base) || Extends(Norm(t, dn), Norm(t, base))
  {
    NormKeepsCommas(t, dn);
    AfterIsRest(Norm(t, dn), Norm(t, base));
    EndIsRest(Norm(t, dn), Norm(t, base));
  }

  // ---------------------------------------------------------------- substrings

  /** The middle pieces stand in the text in this order, one after the other, with anything between: the first
      ends somewhere, and the others stand in what follows. */
  ghost predicate InTurn(v: string, anys: seq<string>)
    decreases |anys|
  {
    anys == [] || exists k :: 0 <= k <= |v| && EndsWith(v[..k], anys[0]) && InTurn(v[k..], anys[1..])
  }

  /** A piece ends `k` past `from` when it occurs its own length before that. */
  lemma EndsAt(v: string, a: string, from: nat, k: nat)
    requires from + k <= |v|
    ensures v[from..][k..] == v[from + k..]
    ensures EndsWith(v[from..][..k], a) <==> |a| <= k && Occurs(v, a, from + k - |a|)
  {
    if |a| <= k { assert v[from..][..k][k - |a|..] == v[from + k - |a|..from + k]; }
  }

  lemma {:induction false} PlacedIsInTurn(v: string, anys: seq<string>, from: nat)
    requires from <= |v|
    ensures Placed(v, anys, from, |v|) <==> InTurn(v[from..], anys)
    decreases |anys|
  {
    if anys != [] {
      if Placed(v, anys, from, |v|) { PlacedInTurn(v, anys, from); }
      if InTurn(v[from..], anys) { InTurnPlaced(v, anys, from); }
    }
  }

  lemma {:induction false} PlacedInTurn(v: string, anys: seq<string>, from: nat)
    requires from <= |v| && anys != [] && Placed(v, anys, from, |v|)
    ensures InTurn(v[from..], anys)
    decreases |anys|, 0
  {
    var a, others := anys[0], anys[1..];
    var p: nat :| from <= p && Occurs(v, a, p) && Placed(v, others, p + |a|, |v|);
    EndsAt(v, a, from, p + |a| - from);
    PlacedIsInTurn(v, others, p + |a|);
  }

  lemma {:induction false} InTurnPlaced(v: string, anys: seq<string>, from: nat)
    requires from <= |v| && anys != [] && InTurn(v[from..], anys)
    ensures Placed(v, anys, from, |v|)
    decreases |anys|, 0
  {
    var w, a, others := v[from..], anys[0], anys[1..];
    var k :| 0 <= k <= |w| && EndsWith(w[..k], a) && InTurn(w[k..], others);
    EndsAt(v, a, from, k);
    PlacedIsInTurn(v, others, from + k);
  }

  /** A value is accepted when it starts with the prefix, ends with the suffix, and has the middle pieces in
      turn. */
  lemma AcceptsIs(v: string, f: Pattern)
    ensures Accepts(v, f) <==>
            (exists b :: v == f.initial + b) && (exists a :: v == a + f.final) && InTurn(v, f.anys)
  {
    PlacedIsInTurn(v, f.anys, 0);
    assert v[0..] == v;
    if StartsWith(v, f.initial) { assert v == f.initial + v[|f.initial|..]; }
    if b :| v == f.initial + b { assert v[0..|f.initial|] == f.initial; }
    if EndsWith(v, f.final) { assert v == v[..|v| - |f.final|] + f.final; }
    if a :| v == a + f.final { assert v[|v| - |f.final|..] == f.final; }
  }

  function Middles(texts: seq<string>): seq<Piece> {
    seq(|texts|, i requires 0 <= i < |texts| => AnyPiece(texts[i]))
  }

  function LowerAll(lower: string -> string, texts: seq<string>): seq<string> {
    seq(|texts|, i requires 0 <= i < |texts| => lower(texts[i]))
  }

  lemma OneMoreMiddle(lower: string -> string, front: seq<Piece>, text: string)
    ensures Collect(front + [AnyPiece(text)], lower)
         == Collect(front, lower).(anys := Collect(front, lower).anys + [lower(text)])
  {
    assert (front + [AnyPiece(text)])[..|front|] == front;
  }

  lemma {:induction false} MiddlesCollect(lower: string -> string, front: seq<Piece>, texts: seq<string>)
    ensures Collect(front + Middles(texts), lower)
         == Collect(front, lower).(anys := Collect(front, lower).anys + LowerAll(lower, texts))
    decreases |texts|
  {
    if texts == [] {
      assert front + Middles(texts) == front && LowerAll(lower, texts) == [];
    } else {
      var most, last := texts[..|texts| - 1], texts[|texts| - 1];
      MiddlesCollect(lower, front, most);
      OneMoreMiddle(lower, front + Middles(most), last);
      assert front + Middles(texts) == front + Middles(most) + [AnyPiece(last)];
      assert LowerAll(lower, texts) == LowerAll(lower, most) + [lower(last)];
      Associates(Collect(front, lower).anys, LowerAll(lower, most), [lower(last)]);
    }
  }

  /** A filter with a prefix, middle pieces and a suffix, in the order the protocol has them, asks for these in
      lower case; a piece given again replaces the one before. */
  lemma FilterAsksFor(lower: string -> string, prefix: string, texts: seq<string>, suffix: string, again: string)
    ensures var f := Collect([Initial(prefix)] + Middles(texts) + [Final(suffix)], lower);
            && f == Pattern(lower(prefix), LowerAll(lower, texts), lower(suffix))
            && Collect([Initial(prefix)] + Middles(texts) + [Final(suffix)] + [Initial(again)], lower)
               == f.(initial := lower(again))
            && Collect([Initial(prefix)] + Middles(texts) + [Final(suffix)] + [Final(again)], lower)
               == f.(final := lower(again))
    ensures Collect(Middles(texts), lower) == Pattern("", LowerAll(lower, texts), "")
  {
    var first, most := [Initial(prefix)], [Initial(prefix)] + Middles(texts);
    assert first[..0] == [] && Collect(first, lower) == Pattern(lower(prefix), [], "");
    MiddlesCollect(lower, first, texts);
    MiddlesCollect(lower, [], texts);
    assert [] + Middles(texts) == Middles(texts) && [] + LowerAll(lower, texts) == LowerAll(lower, texts);
    var whole := most + [Final(suffix)];
    assert whole[..|whole| - 1] == most;
    assert (whole + [Initial(again)])[..|whole|] == whole && (whole + [Final(again)])[..|whole|] == whole;
  }
}
