/** Condition expressions, how they are written, and the theorem that evaluating the written form
    gives the boolean meaning, with `not` binding tighter than `and`, and `and` tighter than `or`. */
module SigmaExpression {
  import opened Prelude
  import opened SigmaCondition
  import opened SigmaCounts

  datatype Expr =
    | Name(name: string)
    | Not(e: Expr)
    | And(l: Expr, r: Expr)
    | Or(l: Expr, r: Expr)
    | Paren(e: Expr)
    | AllOf(target: string)
    | AtLeast(count: string, target: string)

  /** Names are words that mean nothing else to the parser. */
  predicate IsSelectionName(n: string) {
    IsWord(n) && n !in {"not", "all"} && !IsNumber(n)
  }

  predicate WellFormed(e: Expr) {
    match e
    case Name(n) => IsSelectionName(n)
    case Not(x) => WellFormed(x)
    case And(l, r) => WellFormed(l) && WellFormed(r)
    case Or(l, r) => WellFormed(l) && WellFormed(r)
    case Paren(x) => WellFormed(x)
    case AllOf(target) => IsWord(target)
    case AtLeast(count, target) => IsNumber(count) && IsWord(target)
  }

  /** The boolean meaning, given which selections matched: an unknown name did not; "all of" asks for every
      selection the target names, and a number for that many of them. */
  ghost predicate Meaning(e: Expr, m: map<string, bool>) {
    match e
    case Name(n) => n in m && m[n]
    case Not(x) => !Meaning(x, m)
    case And(l, r) => Meaning(l, m) && Meaning(r, m)
    case Or(l, r) => Meaning(l, m) || Meaning(r, m)
    case Paren(x) => Meaning(x, m)
    case AllOf(target) => AllMatched(m, target)
    case AtLeast(count, target) => IsNumber(count) && ManyMatched(m, target, ParseNat(count))
  }

  /** Where an expression is written: as an operand of or, of and, or of not. */
  datatype Place = InOr | InAnd | InNot

  predicate NeedsParens(e: Expr, at: Place) {
    (e.Or? && at != InOr) || (e.And? && at == InNot)
  }

  /** The tokens of an expression, with parentheses only where precedence needs them. */
  function Spell(e: Expr, at: Place): seq<string> {
    var bare :=
      match e
      case Name(n) => [n]
      case Not(x) => ["not"] + Spell(x, InNot)
      case And(l, r) => Spell(l, InAnd) + ["and"] + Spell(r, InNot)
      case Or(l, r) => Spell(l, InOr) + ["or"] + Spell(r, InAnd)
      case Paren(x) => ["("] + Spell(x, InOr) + [")"]
      case AllOf(target) => ["all", "of", target]
      case AtLeast(count, target) => [count, "of", target];
    if NeedsParens(e, at) then ["("] + bare + [")"] else bare
  }

  predicate StartsWith(t: seq<string>, tok: string) {
    t != [] && t[0] == tok
  }

  /** What is left to do after reading an expression at each place. */
  function Continue(at: Place, v: bool, rest: seq<string>, m: map<string, bool>): Parsed {
    match at
    case InOr => OrLoop(v, rest, m)
    case InAnd => AndLoop(v, rest, m)
    case InNot => Parsed(v, rest)
  }

  function ParseAt(at: Place, t: seq<string>, m: map<string, bool>): Parsed {
    match at
    case InOr => ParseOr(t, m)
    case InAnd => ParseAnd(t, m)
    case InNot => ParseNot(t, m)
  }

  /** Order of the three readings of one expression: an operator first at its own level. */
  function Rank(e: Expr, at: Place): nat {
    match at
    case InOr => if e.Or? then 0 else if e.And? then 1 else 2
    case InAnd => if e.Or? then 2 else if e.And? then 0 else 1
    case InNot => if e.Or? then 1 else if e.And? then 2 else 0
  }

  /** Reading a spelled expression computes its meaning and stops right after it. */
  lemma {:induction false} ParseSpelled(e: Expr, at: Place, rest: seq<string>, m: map<string, bool>)
    requires WellFormed(e)
    requires at == InOr ==> !StartsWith(rest, "and")
    ensures ParseAt(at, Spell(e, at) + rest, m) == Continue(at, Meaning(e, m), rest, m)
    decreases e, Rank(e, at)
  {
    var t := Spell(e, at) + rest;
    if NeedsParens(e, at) {
      if at == InAnd {
        ParseSpelled(e, InNot, rest, m);
      } else {
        ParseSpelled(e, InOr, [")"] + rest, m);
        assert t == ["("] + Spell(e, InOr) + [")"] + rest;
        ParseParens(Spell(e, InOr), Meaning(e, m), rest, m);
      }
    } else if at == InOr && !e.Or? {
      assert Spell(e, InOr) == Spell(e, InAnd);
      ParseSpelled(e, InAnd, rest, m);
    } else if at == InAnd && !e.And? {
      assert Spell(e, InAnd) == Spell(e, InNot);
      ParseSpelled(e, InNot, rest, m);
    } else {
      ParseOwnLevel(e, at, rest, m);
    }
  }

  lemma ParseParens(inner: seq<string>, v: bool, rest: seq<string>, m: map<string, bool>)
    requires ParseOr(inner + ([")"] + rest), m) == Parsed(v, [")"] + rest)
    ensures ParseNot(["("] + inner + [")"] + rest, m) == Parsed(v, rest)
  {
    var t := ["("] + inner + [")"] + rest;
    assert t[0] == "(" && t[1..] == inner + ([")"] + rest);
    assert ([")"] + rest)[1..] == rest;
  }

  lemma ParseName(n: string, rest: seq<string>, m: map<string, bool>)
    requires IsSelectionName(n)
    ensures ParseNot([n] + rest, m) == Parsed(Lookup(m, n), rest)
  {
    var t := [n] + rest;
    assert t[0] == n && t[1..] == rest;
    assert n != "(" by { assert IsNameChar(n[0]); }
  }

  lemma ParseCount(quantity: string, target: string, rest: seq<string>, m: map<string, bool>)
    requires quantity == "all" || IsNumber(quantity)
    ensures ParseNot([quantity, "of", target] + rest, m)
         == Parsed(CountHolds(m, if quantity == "all" then None else Some(ParseNat(quantity)), target), rest)
  {
    var t := [quantity, "of", target] + rest;
    assert t[0] == quantity && t[1] == "of" && t[2..] == [target] + rest && ([target] + rest)[1..] == rest;
    if quantity != "all" { assert IsDigit(quantity[0]); }
    assert quantity != "(" && quantity != "not";
  }

  lemma ParseNegation(inner: seq<string>, v: bool, rest: seq<string>, m: map<string, bool>)
    requires ParseNot(inner + rest, m) == Parsed(v, rest)
    ensures ParseNot(["not"] + inner + rest, m) == Parsed(!v, rest)
  {
    var t := ["not"] + inner + rest;
    assert t[0] == "not" && t[1..] == inner + rest;
  }

  lemma ParseConjunct(left: seq<string>, v: bool, right: seq<string>, w: bool, rest: seq<string>, m: map<string, bool>)
    requires ParseAnd(left + (["and"] + (right + rest)), m) == AndLoop(v, ["and"] + (right + rest), m)
    requires ParseNot(right + rest, m) == Parsed(w, rest)
    ensures ParseAnd(left + ["and"] + right + rest, m) == AndLoop(w && v, rest, m)
  {
    var tail := ["and"] + (right + rest);
    assert left + ["and"] + right + rest == left + tail;
    assert tail[0] == "and" && tail[1..] == right + rest;
  }

  lemma ParseDisjunct(left: seq<string>, v: bool, right: seq<string>, w: bool, rest: seq<string>, m: map<string, bool>)
    requires ParseOr(left + (["or"] + (right + rest)), m) == OrLoop(v, ["or"] + (right + rest), m)
    requires ParseAnd(right + rest, m) == AndLoop(w, rest, m) && !StartsWith(rest, "and")
    ensures ParseOr(left + ["or"] + right + rest, m) == OrLoop(w || v, rest, m)
  {
    var tail := ["or"] + (right + rest);
    assert left + ["or"] + right + rest == left + tail;
    assert tail[0] == "or" && tail[1..] == right + rest;
  }

  /** Readings at an expression's own level. */
  lemma {:induction false} ParseOwnLevel(e: Expr, at: Place, rest: seq<string>, m: map<string, bool>)
    requires WellFormed(e) && !NeedsParens(e, at)
    requires at == (if e.Or? then InOr else if e.And? then InAnd else InNot)
    requires at == InOr ==> !StartsWith(rest, "and")
    ensures ParseAt(at, Spell(e, at) + rest, m) == Continue(at, Meaning(e, m), rest, m)
    decreases e, Rank(e, at), 0
  {
    match e
    case Name(n) =>
      ParseName(n, rest, m);
    case Not(x) =>
      ParseSpelled(x, InNot, rest, m);
      ParseNegation(Spell(x, InNot), Meaning(x, m), rest, m);
    case And(l, r) =>
      ParseSpelled(l, InAnd, ["and"] + (Spell(r, InNot) + rest), m);
      ParseSpelled(r, InNot, rest, m);
      ParseConjunct(Spell(l, InAnd), Meaning(l, m), Spell(r, InNot), Meaning(r, m), rest, m);
    case Or(l, r) =>
      ParseSpelled(l, InOr, ["or"] + (Spell(r, InAnd) + rest), m);
      ParseSpelled(r, InAnd, rest, m);
      ParseDisjunct(Spell(l, InOr), Meaning(l, m), Spell(r, InAnd), Meaning(r, m), rest, m);
    case Paren(x) =>
      ParseSpelled(x, InOr, [")"] + rest, m);
      ParseParens(Spell(x, InOr), Meaning(x, m), rest, m);
    case AllOf(target) =>
      CountMeans(m, target, 0);
      ParseCount("all", target, rest, m);
    case AtLeast(count, target) =>
      assert IsDigit(count[0]);
      CountMeans(m, target, ParseNat(count));
      ParseCount(count, target, rest, m);
  }

  // ---------------------------------------------------------------- the written text

  /** Tokens separated by single spaces. */
  function Unwords(t: seq<string>): string {
    if t == [] then "" else if |t| == 1 then t[0] else Unwords(t[..|t| - 1]) + " " + t[|t| - 1]
  }

  predicate IsToken(w: string) {
    IsWord(w) || w == "(" || w == ")"
  }

  lemma {:induction false} TokenizeUnwords(t: seq<string>)
    requires AreTokens(t)
    ensures Tokenize(Unwords(t)) == t
  {
    if t != [] {
      var last := t[|t| - 1];
      TokenizeToken(last);
      if |t| > 1 {
        var front := Unwords(t[..|t| - 1]);
        TokenizeUnwords(t[..|t| - 1]);
        assert " " != "" && !IsNameChar(' ');
        TokenizeConcat(front + " ", last);
        TokenizeConcat(front, " ");
        assert " "[1..] == "";
        assert Tokenize(" ") == [];
        assert t == t[..|t| - 1] + [last];
      }
    }
  }

  lemma TokenizeToken(w: string)
    requires IsToken(w)
    ensures Tokenize(w) == [w]
  {
    if IsWord(w) {
      TokenizeWord(w);
    } else {
      assert w[..1] == w && w[1..] == "";
    }
  }

  predicate AreTokens(t: seq<string>) {
    forall i :: 0 <= i < |t| ==> IsToken(t[i])
  }

  lemma TokensJoin(a: seq<string>, b: seq<string>)
    requires AreTokens(a) && AreTokens(b)
    ensures AreTokens(a + b)
  {}

  lemma TokensInParens(t: seq<string>)
    requires AreTokens(t)
    ensures AreTokens(["("] + t + [")"])
  {
    TokensJoin(["("], t);
    TokensJoin(["("] + t, [")"]);
  }

  lemma TokensBetween(a: seq<string>, w: string, b: seq<string>)
    requires AreTokens(a) && IsToken(w) && AreTokens(b)
    ensures AreTokens(a + [w] + b) && AreTokens(["("] + (a + [w] + b) + [")"])
  {
    TokensJoin(a, [w]);
    TokensJoin(a + [w], b);
    TokensInParens(a + [w] + b);
  }

  lemma {:induction false} SpelledAreTokens(e: Expr, at: Place)
    requires WellFormed(e)
    ensures AreTokens(Spell(e, at))
  {
    KeywordsAreTokens();
    match e
    case Name(n) =>
    case Not(x) => SpelledAreTokens(x, InNot); TokensJoin(["not"], Spell(x, InNot));
    case And(l, r) =>
      SpelledAreTokens(l, InAnd);
      SpelledAreTokens(r, InNot);
      TokensBetween(Spell(l, InAnd), "and", Spell(r, InNot));
    case Or(l, r) =>
      SpelledAreTokens(l, InOr);
      SpelledAreTokens(r, InAnd);
      TokensBetween(Spell(l, InOr), "or", Spell(r, InAnd));
    case Paren(x) => SpelledAreTokens(x, InOr); TokensInParens(Spell(x, InOr));
    case AllOf(target) =>
    case AtLeast(count, target) =>
      assert forall i :: 0 <= i < |count| ==> IsDigit(count[i]) && IsNameChar(count[i]);
  }

  lemma KeywordsAreTokens()
    ensures forall w :: w in {"and", "or", "not", "all", "of"} ==> IsToken(w)
  {}

  function Written(e: Expr): string {
    Unwords(Spell(e, InOr))
  }

  // ---------------------------------------------------------------- names in any case

  /** The expression with its names, counts and targets in lower case. */
  function LowerNames(e: Expr): Expr {
    match e
    case Name(n) => Name(AsciiLower(n))
    case Not(x) => Not(LowerNames(x))
    case And(l, r) => And(LowerNames(l), LowerNames(r))
    case Or(l, r) => Or(LowerNames(l), LowerNames(r))
    case Paren(x) => Paren(LowerNames(x))
    case AllOf(target) => AllOf(AsciiLower(target))
    case AtLeast(count, target) => AtLeast(AsciiLower(count), AsciiLower(target))
  }

  function LowerEach(t: seq<string>): seq<string> {
    seq(|t|, i requires 0 <= i < |t| => AsciiLower(t[i]))
  }

  lemma KeywordsAreLower()
    ensures forall w :: w in {"and", "or", "not", "all", "of", "(", ")"} ==> AsciiLower(w) == w
  {
    forall w | w in {"and", "or", "not", "all", "of", "(", ")"} ensures AsciiLower(w) == w {
      forall i | 0 <= i < |w| ensures AsciiLower(w)[i] == w[i] {}
    }
  }

  lemma LowerJoins(a: seq<string>, b: seq<string>)
    ensures LowerEach(a + b) == LowerEach(a) + LowerEach(b)
  {}

  lemma LowerOne(w: string)
    ensures LowerEach([w]) == [AsciiLower(w)]
  {}

  /** Lower-casing the tokens is spelling the expression with lower-case names. */
  lemma {:induction false} SpellLower(e: Expr, at: Place)
    ensures LowerEach(Spell(e, at)) == Spell(LowerNames(e), at)
  {
    KeywordsAreLower();
    match e
    case Name(n) => LowerOne(n);
    case Not(x) =>
      SpellLower(x, InNot);
      LowerOne("not");
      LowerJoins(["not"], Spell(x, InNot));
    case And(l, r) =>
      SpellLower(l, InAnd);
      SpellLower(r, InNot);
      AndLower(l, r, at);
    case Or(l, r) =>
      SpellLower(l, InOr);
      SpellLower(r, InAnd);
      OrLower(l, r, at);
    case Paren(x) =>
      SpellLower(x, InOr);
      LowerParens(Spell(x, InOr));
    case AllOf(target) =>
      assert AsciiLower("all") == "all" && AsciiLower("of") == "of";
    case AtLeast(count, target) =>
      assert AsciiLower("of") == "of";
  }

  lemma AndLower(l: Expr, r: Expr, at: Place)
    requires LowerEach(Spell(l, InAnd)) == Spell(LowerNames(l), InAnd)
    requires LowerEach(Spell(r, InNot)) == Spell(LowerNames(r), InNot)
    ensures LowerEach(Spell(And(l, r), at)) == Spell(LowerNames(And(l, r)), at)
  {
    KeywordsAreLower();
    LowerThree(Spell(l, InAnd), "and", Spell(r, InNot));
    LowerParens(Spell(l, InAnd) + ["and"] + Spell(r, InNot));
  }

  lemma OrLower(l: Expr, r: Expr, at: Place)
    requires LowerEach(Spell(l, InOr)) == Spell(LowerNames(l), InOr)
    requires LowerEach(Spell(r, InAnd)) == Spell(LowerNames(r), InAnd)
    ensures LowerEach(Spell(Or(l, r), at)) == Spell(LowerNames(Or(l, r)), at)
  {
    KeywordsAreLower();
    LowerThree(Spell(l, InOr), "or", Spell(r, InAnd));
    LowerParens(Spell(l, InOr) + ["or"] + Spell(r, InAnd));
  }

  lemma LowerThree(a: seq<string>, w: string, b: seq<string>)
    requires AsciiLower(w) == w
    ensures LowerEach(a + [w] + b) == LowerEach(a) + [w] + LowerEach(b)
  {
    LowerJoins(a + [w], b);
    LowerJoins(a, [w]);
    LowerOne(w);
  }

  lemma LowerParens(inner: seq<string>)
    ensures LowerEach(["("] + inner + [")"]) == ["("] + LowerEach(inner) + [")"]
  {
    KeywordsAreLower();
    LowerOne("(");
    LowerOne(")");
    LowerJoins(["("], inner);
    LowerJoins(["("] + inner, [")"]);
  }

  lemma LowerConcat(a: string, b: string)
    ensures AsciiLower(a + b) == AsciiLower(a) + AsciiLower(b)
  {}

  lemma {:induction false} LowerUnwords(t: seq<string>)
    ensures AsciiLower(Unwords(t)) == Unwords(LowerEach(t))
    decreases |t|
  {
    if |t| > 1 {
      var front, last := t[..|t| - 1], t[|t| - 1];
      LowerUnwords(front);
      assert LowerEach(t)[..|t| - 1] == LowerEach(front);
      LowerConcat(Unwords(front) + " ", last);
      LowerConcat(Unwords(front), " ");
      assert AsciiLower(" ") == " ";
    }
  }

  lemma {:induction false} UnwordsIsConditionText(t: seq<string>)
    requires forall i :: 0 <= i < |t| ==> IsToken(AsciiLower(t[i]))
    ensures forall i :: 0 <= i < |Unwords(t)| ==> IsConditionChar(Unwords(t)[i])
    decreases |t|
  {
    if t != [] {
      var last := t[|t| - 1];
      forall i | 0 <= i < |last| ensures IsConditionChar(last[i]) {
        assert AsciiLower(last)[i] == LowerChar(last[i]);
        TokenChars(AsciiLower(last), i);
      }
      if |t| > 1 { UnwordsIsConditionText(t[..|t| - 1]); }
    }
  }

  lemma TokenChars(w: string, i: nat)
    requires IsToken(w) && i < |w|
    ensures IsConditionChar(w[i])
  {}

  /** Evaluating the text of any expression gives its meaning, reads every token and never runs off the
      end.  Names are read in lower case: capitals are not told apart, and what is a name in lower case
      only must not be a word of the language. */
  lemma WrittenMeansMeaning(lower: string -> string, e: Expr, m: map<string, bool>)
    requires LowersConditionText(lower) && WellFormed(LowerNames(e))
    ensures ParseOr(Tokenize(lower(Written(e))), m) == Parsed(Meaning(LowerNames(e), m), [])
    ensures ConditionHolds(lower, Written(e), m) == Some(Meaning(LowerNames(e), m))
  {
    var t, read := Spell(e, InOr), Spell(LowerNames(e), InOr);
    SpellLower(e, InOr);
    SpelledAreTokens(LowerNames(e), InOr);
    forall i | 0 <= i < |t| ensures IsToken(AsciiLower(t[i])) {
      assert read[i] == LowerEach(t)[i];
    }
    UnwordsIsConditionText(t);
    LowerUnwords(t);
    TokenizeUnwords(read);
    ParseSpelled(LowerNames(e), InOr, [], m);
    assert read + [] == read;
  }
}
