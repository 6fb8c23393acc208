/** The condition expression of a Sigma rule (rangefinder/detect.py): tokens, the recursive-descent
    evaluator, and the meaning of an expression independent of how it is parsed. */
module SigmaCondition {
  import opened Prelude

  // ---------------------------------------------------------------- tokens

  /** The characters of a name: the class [\w*], over ASCII. */
  predicate IsNameChar(c: char) {
    IsDigit(c) || 'a' <= c <= 'z' || 'A' <= c <= 'Z' || c == '_' || c == '*'
  }

  predicate IsParen(c: char) { c == '(' || c == ')' }

  /** The length of the longest run of name characters that starts `s`. */
  function RunLength(s: string): (k: nat)
    ensures k <= |s| && (s != "" && IsNameChar(s[0]) ==> k > 0)
  {
    if s == "" || !IsNameChar(s[0]) then 0 else 1 + RunLength(s[1..])
  }

  /** All matches of [()]|[\w*]+, left to right. */
  function Tokenize(s: string): seq<string>
    decreases |s|
  {
    if s == "" then []
    else if IsParen(s[0]) then [s[..1]] + Tokenize(s[1..])
    else if IsNameChar(s[0]) then [s[..RunLength(s)]] + Tokenize(s[RunLength(s)..])
    else Tokenize(s[1..])
  }

  predicate IsWord(w: string) {
    w != "" && forall i :: 0 <= i < |w| ==> IsNameChar(w[i])
  }

  lemma {:induction false} RunOfConcat(a: string, b: string)
    requires a != "" && b != "" && IsNameChar(b[0]) ==> !IsNameChar(a[|a| - 1])
    requires a != ""
    ensures RunLength(a + b) == RunLength(a)
  {
    if IsNameChar(a[0]) {
      assert (a + b)[1..] == a[1..] + b;
      if |a| == 1 {
        assert a[1..] == "" && (a + b)[1..] == b;
      } else {
        RunOfConcat(a[1..], b);
      }
    }
  }

  /** The first name of a text is still its first name when more follows. */
  lemma FirstRunStays(a: string, b: string)
    requires a != "" && b != "" && IsNameChar(b[0]) ==> !IsNameChar(a[|a| - 1])
    requires a != "" && IsNameChar(a[0])
    ensures var k := RunLength(a); RunLength(a + b) == k && (a + b)[..k] == a[..k] && (a + b)[k..] == a[k..] + b
  {
    RunOfConcat(a, b);
  }

  /** Tokens of a text split anywhere but inside a name. */
  lemma {:induction false} TokenizeConcat(a: string, b: string)
    requires a != "" && b != "" && IsNameChar(b[0]) ==> !IsNameChar(a[|a| - 1])
    ensures Tokenize(a + b) == Tokenize(a) + Tokenize(b)
    decreases |a|
  {
    if a == "" {
      assert a + b == b;
    } else if IsNameChar(a[0]) {
      var k := RunLength(a);
      FirstRunStays(a, b);
      TokenizeConcat(a[k..], b);
      Associates([a[..k]], Tokenize(a[k..]), Tokenize(b));
    } else {
      assert (a + b)[..1] == a[..1] && (a + b)[1..] == a[1..] + b;
      TokenizeConcat(a[1..], b);
      Associates([a[..1]], Tokenize(a[1..]), Tokenize(b));
    }
  }

  lemma {:induction false} RunOfWord(w: string)
    requires forall i :: 0 <= i < |w| ==> IsNameChar(w[i])
    ensures RunLength(w) == |w|
  {
    if w != "" { RunOfWord(w[1..]); }
  }

  lemma TokenizeWord(w: string)
    requires IsWord(w)
    ensures Tokenize(w) == [w]
  {
    RunOfWord(w);
    assert w[..|w|] == w && w[|w|..] == "";
  }

  /** ASCII digits, letters, underscore and asterisk, by their codes. */
  predicate IsWordCode(n: int) {
    48 <= n <= 57 || 65 <= n <= 90 || n == 95 || 97 <= n <= 122 || n == 42
  }

  /** A run of digits, letters, underscores and asterisks is one token, a parenthesis is one, and any other
      character only separates. */
  lemma TokensAre(w: string, c: char, s: string)
    requires w != "" && forall i :: 0 <= i < |w| ==> IsWordCode(w[i] as int)
    ensures Tokenize("") == []
    ensures s == "" || !IsWordCode(s[0] as int) ==> Tokenize(w + s) == [w] + Tokenize(s)
    ensures c as int == 40 || c as int == 41 ==> Tokenize([c] + s) == [[c]] + Tokenize(s)
    ensures c as int != 40 && c as int != 41 && !IsWordCode(c as int) ==> Tokenize([c] + s) == Tokenize(s)
  {
    assert ([c] + s)[..1] == [c] && ([c] + s)[1..] == s;
    if s == "" || !IsWordCode(s[0] as int) {
      TokenizeConcat(w, s);
      TokenizeWord(w);
    }
  }

  // ---------------------------------------------------------------- the evaluator

  /** The outcome of parsing a prefix of a token list; running off its end raises IndexError. */
  datatype Parsed = Parsed(val: bool, rest: seq<string>) | OutOfTokens

  predicate IsNumber(tok: string) {
    tok != "" && forall i :: 0 <= i < |tok| ==> IsDigit(tok[i])
  }

  function ParseNat(s: string): nat
    requires forall i :: 0 <= i < |s| ==> IsDigit(s[i])
  {
    if s == "" then 0 else
      assert IsDigit(s[|s| - 1]);
      10 * ParseNat(s[..|s| - 1]) + (s[|s| - 1] as int - '0' as int)
  }

  /** fnmatch on patterns whose only special character is the asterisk. */
  predicate Glob(text: string, pattern: string)
    decreases |text| + |pattern|
  {
    if pattern == "" then text == ""
    else if pattern[0] == '*' then Glob(text, pattern[1..]) || (text != "" && Glob(text[1..], pattern))
    else text != "" && text[0] == pattern[0] && Glob(text[1..], pattern[1..])
  }

  function NamesFor(matched: map<string, bool>, target: string): set<string> {
    if target == "them" then matched.Keys else set n | n in matched && Glob(n, target)
  }

  function HitsFor(matched: map<string, bool>, target: string): set<string> {
    set n | n in NamesFor(matched, target) && n in matched && matched[n]
  }

  /** At least `need` of the selections that `target` names have matched. */
  function CountHolds(matched: map<string, bool>, need: Option<nat>, target: string): bool {
    |HitsFor(matched, target)| >= if need.None? then |NamesFor(matched, target)| else need.value
  }

  function Lookup(matched: map<string, bool>, name: string): bool {
    name in matched && matched[name]
  }

  function ParseOr(t: seq<string>, m: map<string, bool>): (p: Parsed)
    ensures p.Parsed? ==> |p.rest| < |t|
    decreases |t|, 5
  {
    match ParseAnd(t, m)
    case OutOfTokens => OutOfTokens
    case Parsed(v, rest) => OrLoop(v, rest, m)
  }

  function OrLoop(v: bool, t: seq<string>, m: map<string, bool>): (p: Parsed)
    ensures p.Parsed? ==> |p.rest| <= |t|
    decreases |t|, 4
  {
    if t == [] || t[0] != "or" then Parsed(v, t) else
      match ParseAnd(t[1..], m)
      case OutOfTokens => OutOfTokens
      case Parsed(w, rest) => OrLoop(w || v, rest, m)
  }

  function ParseAnd(t: seq<string>, m: map<string, bool>): (p: Parsed)
    ensures p.Parsed? ==> |p.rest| < |t|
    decreases |t|, 3
  {
    match ParseNot(t, m)
    case OutOfTokens => OutOfTokens
    case Parsed(v, rest) => AndLoop(v, rest, m)
  }

  function AndLoop(v: bool, t: seq<string>, m: map<string, bool>): (p: Parsed)
    ensures p.Parsed? ==> |p.rest| <= |t|
    decreases |t|, 2
  {
    if t == [] || t[0] != "and" then Parsed(v, t) else
      match ParseNot(t[1..], m)
      case OutOfTokens => OutOfTokens
      case Parsed(w, rest) => AndLoop(w && v, rest, m)
  }

  function ParseNot(t: seq<string>, m: map<string, bool>): (p: Parsed)
    ensures p.Parsed? ==> |p.rest| < |t|
    decreases |t|, 1
  {
    if t != [] && t[0] == "not" then
      match ParseNot(t[1..], m)
      case OutOfTokens => OutOfTokens
      case Parsed(v, rest) => Parsed(!v, rest)
    else ParseAtom(t, m)
  }

  function ParseAtom(t: seq<string>, m: map<string, bool>): (p: Parsed)
    ensures p.Parsed? ==> |p.rest| < |t|
    decreases |t|, 0
  {
    if t == [] then OutOfTokens
    else if t[0] == "(" then
      match ParseOr(t[1..], m)
      case OutOfTokens => OutOfTokens
      case Parsed(v, rest) => Parsed(v, if rest != [] && rest[0] == ")" then rest[1..] else rest)
    else if t[0] == "all" || IsNumber(t[0]) then
      var u := if |t| > 1 && t[1] == "of" then t[2..] else t[1..];
      if u == [] then OutOfTokens
      else Parsed(CountHolds(m, if t[0] == "all" then None else Some(ParseNat(t[0])), u[0]), u[1..])
    else Parsed(Lookup(m, t[0]), t[1..])
  }

  // ---------------------------------------------------------------- the evaluator as written

  /** The parser of the source: a token list and a position that only moves forward. */
  class ConditionParser {
    const tokens: seq<string>
    const matched: map<string, bool>
    var pos: nat

    ghost predicate Valid()
      reads this
    {
      pos <= |tokens|
    }

    constructor (tokens: seq<string>, matched: map<string, bool>)
      ensures Valid() && pos == 0 && this.tokens == tokens && this.matched == matched
    {
      this.tokens, this.matched, pos := tokens, matched, 0;
    }

    /** The call agrees with what parsing the tokens from `from` on gives. */
    ghost predicate Agrees(p: Parsed, r: Option<bool>)
      reads this
    {
      Valid() && match p
                 case OutOfTokens => r.None?
                 case Parsed(v, rest) => r == Some(v) && tokens[pos..] == rest
    }

    predicate Peek(tok: string)
      requires Valid()
      reads this
    {
      pos < |tokens| && tokens[pos] == tok
    }

    method EvalOr() returns (r: Option<bool>)
      requires Valid()
      modifies this`pos
      ensures Agrees(ParseOr(tokens[old(pos)..], matched), r) && pos >= old(pos) && (r.Some? ==> pos > old(pos))
      decreases |tokens| - pos, 3
    {
      r := EvalAnd();
      while r.Some? && Peek("or")
        invariant Valid() && pos >= old(pos) && (r.Some? ==> pos > old(pos))
        invariant match r
                  case None => ParseOr(tokens[old(pos)..], matched) == OutOfTokens
                  case Some(v) => ParseOr(tokens[old(pos)..], matched) == OrLoop(v, tokens[pos..], matched)
        decreases |tokens| - pos
      {
        ghost var before := tokens[pos..];
        pos := pos + 1;
        assert before[1..] == tokens[pos..];
        var w := EvalAnd();
        r := if w.Some? then Some(w.value || r.value) else None;
      }
    }

    method EvalAnd() returns (r: Option<bool>)
      requires Valid()
      modifies this`pos
      ensures Agrees(ParseAnd(tokens[old(pos)..], matched), r) && pos >= old(pos) && (r.Some? ==> pos > old(pos))
      decreases |tokens| - pos, 2
    {
      r := EvalNot();
      while r.Some? && Peek("and")
        invariant Valid() && pos >= old(pos) && (r.Some? ==> pos > old(pos))
        invariant match r
                  case None => ParseAnd(tokens[old(pos)..], matched) == OutOfTokens
                  case Some(v) => ParseAnd(tokens[old(pos)..], matched) == AndLoop(v, tokens[pos..], matched)
        decreases |tokens| - pos
      {
        ghost var before := tokens[pos..];
        pos := pos + 1;
        assert before[1..] == tokens[pos..];
        var w := EvalNot();
        r := if w.Some? then Some(w.value && r.value) else None;
      }
    }

    method EvalNot() returns (r: Option<bool>)
      requires Valid()
      modifies this`pos
      ensures Agrees(ParseNot(tokens[old(pos)..], matched), r) && pos >= old(pos) && (r.Some? ==> pos > old(pos))
      decreases |tokens| - pos, 1
    {
      if Peek("not") {
        ghost var before := tokens[pos..];
        pos := pos + 1;
        assert before[1..] == tokens[pos..];
        r := EvalNot();
        r := if r.Some? then Some(!r.value) else None;
      } else {
        r := EvalAtom();
      }
    }

    method EvalAtom() returns (r: Option<bool>)
      requires Valid()
      modifies this`pos
      ensures Agrees(ParseAtom(tokens[old(pos)..], matched), r) && pos >= old(pos) && (r.Some? ==> pos > old(pos))
      decreases |tokens| - pos, 0
    {
      if pos == |tokens| { return None; }
      ghost var t := tokens[pos..];
      var tok := tokens[pos];
      pos := pos + 1;
      assert t[1..] == tokens[pos..];
      if tok == "(" {
        r := EvalOr();
        if r.Some? && Peek(")") {
          ghost var rest := tokens[pos..];
          pos := pos + 1;
          assert rest[1..] == tokens[pos..];
        }
      } else if tok == "all" || IsNumber(tok) {
        if Peek("of") {
          pos := pos + 1;
          assert t[2..] == tokens[pos..];
        }
        if pos == |tokens| { return None; }
        ghost var u := tokens[pos..];
        var target := tokens[pos];
        pos := pos + 1;
        assert u[1..] == tokens[pos..];
        r := Some(CountHolds(matched, if tok == "all" then None else Some(ParseNat(tok)), target));
      } else {
        r := Some(Lookup(matched, tok));
      }
    }
  }

  /** Evaluate a condition text, lower-cased first; None when the parser runs off its end.  Tokens left
      over after the expression are ignored. */
  function ConditionHolds(lower: string -> string, condition: string, matched: map<string, bool>): Option<bool> {
    match ParseOr(Tokenize(lower(condition)), matched)
    case OutOfTokens => None
    case Parsed(v, _) => Some(v)
  }

  method EvalCondition(lower: string -> string, condition: string, matched: map<string, bool>)
    returns (r: Option<bool>)
    ensures r == ConditionHolds(lower, condition, matched)
  {
    var parser := new ConditionParser(Tokenize(lower(condition)), matched);
    assert parser.tokens[0..] == parser.tokens;
    r := parser.EvalOr();
  }

  // ---------------------------------------------------------------- lower case

  function LowerChar(c: char): char {
    if 'A' <= c <= 'Z' then (c as int + 32) as char else c
  }

  function AsciiLower(s: string): string {
    seq(|s|, i requires 0 <= i < |s| => LowerChar(s[i]))
  }

  /** Code for code: letters from A to Z move up by 32, and nothing else changes. */
  lemma LowerIs(s: string, i: nat)
    requires i < |s|
    ensures |AsciiLower(s)| == |s|
    ensures var n := s[i] as int; AsciiLower(s)[i] as int == if 65 <= n <= 90 then n + 32 else n
  {
    assert AsciiLower(s)[i] == LowerChar(s[i]);
  }

  predicate IsConditionChar(c: char) {
    IsNameChar(c) || IsParen(c) || c == ' '
  }

  /** What str.lower does to text made of names, parentheses and spaces. */
  ghost predicate LowersConditionText(lower: string -> string) {
    forall s :: (forall i :: 0 <= i < |s| ==> IsConditionChar(s[i])) ==> lower(s) == AsciiLower(s)
  }
}
