/** Compiling an objective's single-event signals into a Sigma rule, and matching and validating rules
    (rangefinder/detect.py). */
module SigmaCompile {
  import opened Prelude
  import opened Pieces
  import opened Telemetry
  import opened Scoring
  import opened Decimal
  import opened SigmaCondition
  import opened SigmaExpression

  // ---------------------------------------------------------------- matching a rule

  /** A map of `field|modifiers` keys to wanted values, or a list of alternatives. */
  datatype Selection = Entries(fields: map<string, seq<string>>) | AnyOf(options: seq<Selection>)

  datatype Rule = Rule(detection: map<string, Selection>, condition: string)

  predicate TextMeets(lib: Library, mods: seq<string>, wanted: string, s: string) {
    if "re" in mods then lib.search(wanted, s)
    else if "contains" in mods then Contains(lib.lower(s), lib.lower(wanted))
    else if "startswith" in mods then lib.lower(wanted) <= lib.lower(s)
    else if "endswith" in mods then EndsWith(lib.lower(s), lib.lower(wanted))
    else if "cased" in mods then s == wanted
    else lib.lower(s) == lib.lower(wanted)
  }

  predicate MatchField(lib: Library, event: Value, key: string, wanted: seq<string>) {
    var parts := Split(key, '|');
    var value := Field(event, parts[0]);
    value != Null && exists v, w :: v in Candidates(value) && w in wanted && TextMeets(lib, parts[1..], w, Str(lib, v))
  }

  predicate SelectionMatches(lib: Library, event: Value, selection: Selection) {
    match selection
    case Entries(fields) => forall k :: k in fields ==> MatchField(lib, event, k, fields[k])
    case AnyOf(options) => exists o :: o in options && SelectionMatches(lib, event, o)
  }

  function Matched(lib: Library, rule: Rule, event: Value): map<string, bool> {
    map n | n in rule.detection :: SelectionMatches(lib, event, rule.detection[n])
  }

  /** None stands for the IndexError of a malformed condition. */
  function RuleMatches(lib: Library, rule: Rule, event: Value): Option<bool> {
    var matched := Matched(lib, rule, event);
    if rule.condition == "" then Some(exists n :: n in matched && matched[n])
    else ConditionHolds(lib.lower, rule.condition, matched)
  }

  // ---------------------------------------------------------------- compiling one condition

  /** The key and value of the selection for one condition; the first matcher present decides. */
  function CompileCondition(c: Condition): Option<(string, string)> {
    if c.equals.Some? then Some((c.field + "|cased", c.equals.value))
    else if c.contains.Some? then Some((c.field + "|contains", c.contains.value))
    else if c.regex.Some? then Some((c.field + "|re", c.regex.value))
    else None
  }

  function SelectionFor(c: Condition): Selection
    requires HasMatcher(c)
  {
    var (key, value) := CompileCondition(c).value;
    Entries(map[key := [value]])
  }

  predicate CompiledMatches(lib: Library, c: Condition, event: Value)
    requires HasMatcher(c)
  {
    SelectionMatches(lib, event, SelectionFor(c))
  }

  lemma CompiledIsOneField(lib: Library, c: Condition, event: Value)
    requires HasMatcher(c)
    ensures var (key, value) := CompileCondition(c).value;
            CompiledMatches(lib, c, event) <==> MatchField(lib, event, key, [value])
  {
    var (key, value) := CompileCondition(c).value;
    var fields := map[key := [value]];
    assert SelectionFor(c) == Entries(fields) && fields[key] == [value];
    assert forall k :: k in fields <==> k == key;
  }

  predicate NoPipe(c: Condition) { '|' !in c.field }

  function Matchers(c: Condition): nat {
    (if c.equals.Some? then 1 else 0) + (if c.contains.Some? then 1 else 0) + (if c.regex.Some? then 1 else 0)
  }

  /** What a range author can check: one matcher, or an empty `contains` that already accepts any
      text; and a field name free of the modifier separator. */
  predicate Translatable(c: Condition) {
    NoPipe(c) && (Matchers(c) == 1 || (c.equals.None? && c.contains == Some("")))
  }

  lemma SplitAppend(s: string, sep: char, tail: string)
    requires sep !in s && sep !in tail
    ensures Split(s + [sep] + tail, sep) == [s, tail]
  {
    SplitFront(s, sep, tail);
    SplitNone(tail, sep);
  }

  function Modifier(c: Condition): string {
    if c.equals.Some? then "cased" else if c.contains.Some? then "contains" else "re"
  }

  lemma KeyParts(c: Condition)
    requires HasMatcher(c) && NoPipe(c)
    ensures Split(CompileCondition(c).value.0, '|') == [c.field, Modifier(c)]
  {
    SplitAppend(c.field, '|', Modifier(c));
    assert c.field + "|cased" == c.field + ['|'] + "cased";
    assert c.field + "|contains" == c.field + ['|'] + "contains";
    assert c.field + "|re" == c.field + ['|'] + "re";
  }

  /** For a plain field the compiled selection tests the first matcher on the same field. */
  lemma CompiledMeaning(lib: Library, c: Condition, event: Value)
    requires HasMatcher(c) && NoPipe(c)
    ensures CompiledMatches(lib, c, event) <==>
              Field(event, c.field) != Null
              && exists v :: v in Candidates(Field(event, c.field)) && FirstMatcherMeets(lib, c, Str(lib, v))
  {
    CompiledIsOneField(lib, c, event);
    KeyParts(c);
    var (key, value) := CompileCondition(c).value;
    var mods := Split(key, '|')[1..];
    assert mods == [Modifier(c)];
    forall s ensures TextMeets(lib, mods, value, s) <==> FirstMatcherMeets(lib, c, s) {
      FirstModifier(lib, Modifier(c), value, s);
    }
    var parts, found := Split(key, '|'), Field(event, c.field);
    assert parts[0] == c.field;
    if MatchField(lib, event, key, [value]) {
      var v, w :| v in Candidates(found) && w in [value] && TextMeets(lib, parts[1..], w, Str(lib, v));
      assert w == value && FirstMatcherMeets(lib, c, Str(lib, v));
    }
    if v :| found != Null && v in Candidates(found) && FirstMatcherMeets(lib, c, Str(lib, v)) {
      assert value in [value] && TextMeets(lib, parts[1..], value, Str(lib, v));
    }
  }

  predicate FirstMatcherMeets(lib: Library, c: Condition, s: string)
    requires HasMatcher(c)
  {
    if c.equals.Some? then s == c.equals.value
    else if c.contains.Some? then Contains(lib.lower(s), lib.lower(c.contains.value))
    else lib.search(c.regex.value, s)
  }

  lemma FirstModifier(lib: Library, m: string, w: string, s: string)
    requires m in {"cased", "contains", "re"}
    ensures TextMeets(lib, [m], w, s) <==>
              if m == "cased" then s == w
              else if m == "contains" then Contains(lib.lower(s), lib.lower(w))
              else lib.search(w, s)
  {
    assert forall x :: x in [m] <==> x == m;
  }

  /** The rule never fires on what the scorer would not count. */
  lemma CompiledImpliesScored(lib: Library, c: Condition, event: Value)
    requires HasMatcher(c) && NoPipe(c) && CompiledMatches(lib, c, event)
    ensures ConditionMatches(lib, c, event)
  {
    CompiledMeaning(lib, c, event);
    var value := Field(event, c.field);
    var v :| v in Candidates(value) && FirstMatcherMeets(lib, c, Str(lib, v));
    assert TextMatches(lib, c, Str(lib, v));
  }

  /** What it takes for the compiled selection to mean what the scorer means: nothing but the first matcher
      ever decides; and in a field name with the modifier separator, no text is accepted at all. */
  ghost predicate Translates(lib: Library, c: Condition)
    requires HasMatcher(c)
  {
    if NoPipe(c) then
      || Matchers(c) == 1
      || (c.regex.Some? && (c.equals.None? || c.contains.None?)
          && forall s :: lib.search(c.regex.value, s) ==> FirstMatcherMeets(lib, c, s))
    else
      c.equals.None? && c.contains.None? && forall s :: !lib.search(c.regex.value, s)
  }

  /** A translatable condition translates whatever its pattern means. */
  lemma TranslatableTranslates(lib: Library, c: Condition)
    requires HasMatcher(c) && Translatable(c) && lib.lower("") == ""
    ensures Translates(lib, c)
  {
    if c.contains == Some("") {
      forall s ensures Contains(lib.lower(s), "") { assert Occurs(lib.lower(s), "", 0); }
    }
  }

  /** A condition that translates compiles to a selection with exactly the scorer's meaning. */
  lemma TranslatesAgrees(lib: Library, c: Condition, event: Value)
    requires HasMatcher(c) && Translates(lib, c)
    ensures CompiledMatches(lib, c, event) <==> ConditionMatches(lib, c, event)
  {
    if NoPipe(c) {
      CompiledMeaning(lib, c, event);
      forall s ensures FirstMatcherMeets(lib, c, s) <==> TextMatches(lib, c, s) {}
    } else {
      CompiledIsOneField(lib, c, event);
      var key := c.field + ['|'] + "re";
      assert CompileCondition(c).value.0 == key;
      LastPiece(c.field, '|', "re");
      var mods := Split(key, '|')[1..];
      assert mods[|mods| - 1] == "re" && "re" in mods;
    }
  }

  lemma {:induction false} LastPiece(s: string, sep: char, tail: string)
    requires sep !in tail
    ensures var parts := Split(s + [sep] + tail, sep); |parts| > 1 && parts[|parts| - 1] == tail
  {
    var whole := s + [sep] + tail;
    if s == "" {
      assert whole[0] == sep && whole[1..] == tail;
      SplitNone(tail, sep);
    } else {
      assert whole[0] == s[0] && whole[1..] == s[1..] + [sep] + tail;
      LastPiece(s[1..], sep, tail);
    }
  }

  // ---------------------------------------------------------------- where translation goes wrong

  /** An event that holds `v` at the end of `path` and nothing else. */
  function Nested(path: seq<string>, v: Value): Value {
    if path == [] then v else Obj(map[path[0] := Nested(path[1..], v)])
  }

  lemma {:induction false} GetNested(path: seq<string>, v: Value)
    ensures Get(Nested(path, v), path) == v
  {
    if path != [] { GetNested(path[1..], v); }
  }

  /** A path that leaves the nested one finds nothing. */
  lemma {:induction false} GetElsewhere(path: seq<string>, v: Value, other: seq<string>, k: nat)
    requires k < |path| && k < |other|
    requires other[..k] == path[..k] && other[k] != path[k]
    ensures Get(Nested(path, v), other) == Null
  {
    if k > 0 {
      assert other[0] == other[..k][0] == path[..k][0] == path[0];
      assert other[1..][..k - 1] == other[..k][1..] && path[1..][..k - 1] == path[..k][1..];
      GetElsewhere(path[1..], v, other[1..], k - 1);
    }
  }

  /** `q` starts like `p` but its piece at the end of `p` is longer. */
  ghost predicate Outgrows(q: seq<string>, p: seq<string>) {
    |p| > 0 && |p| <= |q| && q[..|p| - 1] == p[..|p| - 1] && |q[|p| - 1]| > |p[|p| - 1]|
  }

  lemma OutgrowsAfter(q: seq<string>, p: seq<string>, x: char)
    requires Outgrows(q, p)
    ensures Outgrows([""] + q, [""] + p)
    ensures Outgrows([[x] + q[0]] + q[1..], [[x] + p[0]] + p[1..])
  {
    var p1, q1 := [""] + p, [""] + q;
    assert p1[..|p1| - 1] == [""] + p[..|p| - 1] && q1[..|p1| - 1] == [""] + q[..|p| - 1];
    var p2, q2 := [[x] + p[0]] + p[1..], [[x] + q[0]] + q[1..];
    if |p| > 1 {
      assert p[0] == p[..|p| - 1][0] == q[..|p| - 1][0] == q[0];
      forall i | 0 <= i < |p| - 1 ensures p2[i] == q2[i] {
        assert p[..|p| - 1][i] == q[..|p| - 1][i];
      }
    }
  }

  /** Continuing a text after `s` leaves the pieces of `s` before its last unchanged. */
  lemma {:induction false} SplitPrefix(s: string, sep: char, c: char, tail: string)
    requires c != sep
    ensures Outgrows(Split(s + [c] + tail, sep), Split(s, sep))
  {
    var whole := s + [c] + tail;
    if s == "" {
      assert whole[0] == c;
    } else {
      assert whole[1..] == s[1..] + [c] + tail;
      SplitPrefix(s[1..], sep, c, tail);
      OutgrowsAfter(Split(s[1..] + [c] + tail, sep), Split(s[1..], sep), s[0]);
    }
  }

  lemma {:induction false} FirstPiece(s: string, sep: char) returns (tail: string)
    requires sep in s
    ensures s == Split(s, sep)[0] + [sep] + tail
  {
    if s[0] == sep {
      tail := s[1..];
    } else {
      tail := FirstPiece(s[1..], sep);
      assert s == [s[0]] + s[1..];
    }
  }

  /** A field name with the modifier separator: the rule does not look at the field that was named. */
  lemma PipeDisagrees(lib: Library, c: Condition, text: string) returns (event: Value)
    requires HasMatcher(c) && !NoPipe(c) && TextMatches(lib, c, text)
    ensures !CompiledMatches(lib, c, event) && ConditionMatches(lib, c, event)
  {
    var key := CompileCondition(c).value.0;
    var head := Split(key, '|')[0];
    var tail := FirstPiece(c.field, '|');
    FieldOfKey(c);
    assert c.field == head + ['|'] + tail;
    var path, short := Split(c.field, '.'), Split(head, '.');
    event := Nested(path, Scalar(text));
    GetNested(path, Scalar(text));
    assert Scalar(text) in Candidates(Scalar(text)) && Str(lib, Scalar(text)) == text;
    SplitPrefix(head, '.', '|', tail);
    GetElsewhere(path, Scalar(text), short, |short| - 1);
    CompiledIsOneField(lib, c, event);
  }

  lemma FieldOfKey(c: Condition)
    requires HasMatcher(c) && !NoPipe(c)
    ensures Split(CompileCondition(c).value.0, '|')[0] == Split(c.field, '|')[0]
  {
    FirstPieceOfConcat(c.field, '|', "|cased");
    FirstPieceOfConcat(c.field, '|', "|contains");
    FirstPieceOfConcat(c.field, '|', "|re");
  }

  lemma {:induction false} FirstPieceOfConcat(s: string, sep: char, tail: string)
    requires sep in s
    ensures Split(s + tail, sep)[0] == Split(s, sep)[0]
  {
    if s[0] != sep {
      assert (s + tail)[1..] == s[1..] + tail;
      FirstPieceOfConcat(s[1..], sep, tail);
    }
  }

  /** A text that a later matcher accepts and the first does not: the scorer counts an event the rule misses. */
  lemma LaterMatcherDisagrees(lib: Library, c: Condition, text: string) returns (event: Value)
    requires HasMatcher(c) && NoPipe(c) && TextMatches(lib, c, text) && !FirstMatcherMeets(lib, c, text)
    ensures !CompiledMatches(lib, c, event) && ConditionMatches(lib, c, event)
  {
    var path := Split(c.field, '.');
    event := Nested(path, Scalar(text));
    GetNested(path, Scalar(text));
    CompiledMeaning(lib, c, event);
    assert Candidates(Scalar(text)) == [Scalar(text)] && Scalar(text) in [Scalar(text)];
  }

  /** Lower-casing does not change when a space follows. */
  ghost predicate LowersBeforeSpace(lib: Library) {
    forall s :: lib.lower(s + " ") == lib.lower(s) + " "
  }

  /** With both `equals` and `contains` there is always such a text. */
  lemma EqualsAndContains(lib: Library, c: Condition) returns (text: string)
    requires c.equals.Some? && c.contains.Some? && LowersBeforeSpace(lib)
    ensures TextMatches(lib, c, text) && !FirstMatcherMeets(lib, c, text)
  {
    var piece := c.contains.value;
    if piece != c.equals.value {
      text := piece;
    } else {
      text := piece + " ";
      assert lib.lower(text)[..|lib.lower(piece)|] == lib.lower(piece);
    }
    assert Occurs(lib.lower(text), lib.lower(piece), 0);
  }

  /** In every library: a condition that does not translate disagrees on some event. */
  lemma UntranslatedDisagrees(lib: Library, c: Condition) returns (event: Value)
    requires HasMatcher(c) && !Translates(lib, c) && LowersBeforeSpace(lib)
    ensures !CompiledMatches(lib, c, event) && ConditionMatches(lib, c, event)
  {
    if NoPipe(c) {
      var text;
      if c.equals.Some? && c.contains.Some? {
        text := EqualsAndContains(lib, c);
      } else {
        text :| lib.search(c.regex.value, text) && !FirstMatcherMeets(lib, c, text);
      }
      event := LaterMatcherDisagrees(lib, c, text);
    } else {
      var text;
      if c.equals.Some? {
        text := c.equals.value;
      } else if c.contains.Some? {
        text := c.contains.value;
        assert Occurs(lib.lower(text), lib.lower(text), 0);
      } else {
        text :| lib.search(c.regex.value, text);
      }
      event := PipeDisagrees(lib, c, text);
    }
  }

  /** So rule and scorer agree on a condition, on every event, exactly when it translates. */
  lemma AgreementIsExact(lib: Library, c: Condition)
    requires HasMatcher(c) && LowersBeforeSpace(lib)
    ensures (forall event :: CompiledMatches(lib, c, event) <==> ConditionMatches(lib, c, event))
            <==> Translates(lib, c)
  {
    if Translates(lib, c) {
      forall event ensures CompiledMatches(lib, c, event) <==> ConditionMatches(lib, c, event) {
        TranslatesAgrees(lib, c, event);
      }
    } else {
      var event := UntranslatedDisagrees(lib, c);
    }
  }

  // ---------------------------------------------------------------- compiling an objective

  /** The name of the selection for one condition of one signal. */
  function SelectionName(si: nat, ci: nat): string {
    "sig" + Numeral(si) + "cond" + Numeral(ci)
  }

  lemma {:induction false} DigitsThenOther(a: string, x: string, b: string, y: string)
    requires forall i :: 0 <= i < |a| ==> IsDigit(a[i])
    requires forall i :: 0 <= i < |b| ==> IsDigit(b[i])
    requires x != "" && y != "" && !IsDigit(x[0]) && !IsDigit(y[0])
    requires a + x == b + y
    ensures a == b && x == y
  {
    assert (a + x)[0] == (b + y)[0];
    if a != "" && b != "" {
      assert (a + x)[1..] == a[1..] + x && (b + y)[1..] == b[1..] + y;
      DigitsThenOther(a[1..], x, b[1..], y);
      assert a == [a[0]] + a[1..] && b == [b[0]] + b[1..];
    }
    assert a == "" ==> a + x == x;
    assert b == "" ==> b + y == y;
  }

  lemma NameParts(si: nat, ci: nat)
    ensures SelectionName(si, ci)[3..] == Numeral(si) + ("cond" + Numeral(ci))
    ensures ("cond" + Numeral(ci))[4..] == Numeral(ci)
  {}

  /** Generated names never collide. */
  lemma SelectionNamesAreDistinct(si: nat, ci: nat, sj: nat, cj: nat)
    requires SelectionName(si, ci) == SelectionName(sj, cj)
    ensures si == sj && ci == cj
  {
    NumeralIsDigits(si);
    NumeralIsDigits(sj);
    NameParts(si, ci);
    NameParts(sj, cj);
    DigitsThenOther(Numeral(si), "cond" + Numeral(ci), Numeral(sj), "cond" + Numeral(cj));
    NumeralIsInjective(si, sj);
    NumeralIsInjective(ci, cj);
  }

  lemma SelectionNameIsName(si: nat, ci: nat)
    ensures IsSelectionName(SelectionName(si, ci))
  {
    NumeralIsDigits(si);
    NumeralIsDigits(ci);
    var n := SelectionName(si, ci);
    forall i | 0 <= i < |n| ensures IsNameChar(n[i]) {
      var a := |Numeral(si)|;
      if 3 <= i < 3 + a {
        assert n[i] == Numeral(si)[i - 3] && IsDigit(Numeral(si)[i - 3]);
      } else if 7 + a <= i {
        assert n[i] == Numeral(ci)[i - 7 - a] && IsDigit(Numeral(ci)[i - 7 - a]);
      }
    }
    assert n[0] == 's' && !IsDigit(n[0]);
  }

  function GroupText(names: seq<string>): string {
    "(" + Join(names, " and ") + ")"
  }

  function NamesOf(si: nat, count: nat): seq<string> {
    seq(count, ci requires 0 <= ci < count => SelectionName(si, ci))
  }

  function GroupsOf(detect: seq<Signal>): seq<seq<string>> {
    seq(|detect|, si requires 0 <= si < |detect| => NamesOf(si, |detect[si].all|))
  }

  function TextsOf(groups: seq<seq<string>>): seq<string> {
    seq(|groups|, si requires 0 <= si < |groups| => GroupText(groups[si]))
  }

  /** Condition `ci` of signal `si` comes before condition `m` of signal `n`. */
  predicate Before(detect: seq<Signal>, si: nat, ci: nat, n: nat, m: nat) {
    si < |detect| && ci < |detect[si].all| && (si < n || (si == n && ci < m))
  }

  /** The table has exactly one selection for each condition before (n, m), under its own name. */
  ghost predicate TableUpTo(detect: seq<Signal>, n: nat, m: nat, table: map<string, Selection>) {
    && (forall si: nat, ci: nat :: Before(detect, si, ci, n, m) ==>
          && HasMatcher(detect[si].all[ci])
          && SelectionName(si, ci) in table && table[SelectionName(si, ci)] == SelectionFor(detect[si].all[ci]))
    && (forall k :: k in table ==>
          exists si: nat, ci: nat :: Before(detect, si, ci, n, m) && k == SelectionName(si, ci))
  }

  lemma TableOneMore(detect: seq<Signal>, n: nat, m: nat, table: map<string, Selection>, table': map<string, Selection>)
    requires n < |detect| && m < |detect[n].all| && HasMatcher(detect[n].all[m])
    requires TableUpTo(detect, n, m, table)
    requires table' == table[SelectionName(n, m) := SelectionFor(detect[n].all[m])]
    ensures TableUpTo(detect, n, m + 1, table')
  {
    forall si: nat, ci: nat | Before(detect, si, ci, n, m + 1)
      ensures && HasMatcher(detect[si].all[ci]) && SelectionName(si, ci) in table'
              && table'[SelectionName(si, ci)] == SelectionFor(detect[si].all[ci])
    {
      if SelectionName(si, ci) == SelectionName(n, m) {
        SelectionNamesAreDistinct(si, ci, n, m);
      } else {
        assert Before(detect, si, ci, n, m);
      }
    }
    forall k | k in table'
      ensures exists si: nat, ci: nat :: Before(detect, si, ci, n, m + 1) && k == SelectionName(si, ci)
    {
      if k in table {
        var si: nat, ci: nat :| Before(detect, si, ci, n, m) && k == SelectionName(si, ci);
        assert Before(detect, si, ci, n, m + 1);
      } else {
        assert Before(detect, n, m, n, m + 1);
      }
    }
  }

  lemma TableNextSignal(detect: seq<Signal>, n: nat, table: map<string, Selection>)
    requires n < |detect| && TableUpTo(detect, n, |detect[n].all|, table)
    ensures TableUpTo(detect, n + 1, 0, table)
  {
    forall si: nat, ci: nat
      ensures Before(detect, si, ci, n + 1, 0) <==> Before(detect, si, ci, n, |detect[n].all|) {}
  }

  ghost predicate Compiled(detect: seq<Signal>, rule: Rule) {
    && TableUpTo(detect, |detect|, 0, rule.detection)
    && rule.condition == Join(TextsOf(GroupsOf(detect)), " or ")
  }

  ghost predicate AllHaveMatchers(detect: seq<Signal>) {
    forall s, c :: s in detect && c in s.all ==> HasMatcher(c)
  }

  lemma NamesOneMore(si: nat, ci: nat)
    ensures NamesOf(si, ci + 1) == NamesOf(si, ci) + [SelectionName(si, ci)]
  {}

  /** The inner loop: the selections of one signal; a condition with no matcher is refused. */
  method CompileSignal(detect: seq<Signal>, si: nat, table: map<string, Selection>)
    returns (r: Result<map<string, Selection>, Condition>, names: seq<string>)
    requires si < |detect| && TableUpTo(detect, si, 0, table)
    ensures r.Err? ==> r.error in detect[si].all && !HasMatcher(r.error)
    ensures r.Ok? ==> TableUpTo(detect, si + 1, 0, r.value) && names == NamesOf(si, |detect[si].all|)
    ensures r.Ok? ==> forall c :: c in detect[si].all ==> HasMatcher(c)
  {
    var conditions := detect[si].all;
    var table' := table;
    names := [];
    for ci := 0 to |conditions|
      invariant TableUpTo(detect, si, ci, table') && names == NamesOf(si, ci)
      invariant forall k :: 0 <= k < ci ==> HasMatcher(conditions[k])
    {
      var cond := conditions[ci];
      var compiled := CompileCondition(cond);
      if compiled.None? {
        return Err(cond), names;
      }
      var selection := Entries(map[compiled.value.0 := [compiled.value.1]]);
      TableOneMore(detect, si, ci, table', table'[SelectionName(si, ci) := selection]);
      table' := table'[SelectionName(si, ci) := selection];
      NamesOneMore(si, ci);
      names := names + [SelectionName(si, ci)];
    }
    TableNextSignal(detect, si, table');
    r := Ok(table');
  }

  /** The condition's text for the first `si` signals. */
  ghost predicate TextsUpTo(detect: seq<Signal>, si: nat, texts: seq<string>)
    requires si <= |detect|
  {
    texts == TextsOf(GroupsOf(detect))[..si]
  }

  lemma TextsOneMore(detect: seq<Signal>, si: nat, texts: seq<string>)
    requires si < |detect| && TextsUpTo(detect, si, texts)
    ensures TextsUpTo(detect, si + 1, texts + [GroupText(NamesOf(si, |detect[si].all|))])
  {
    assert GroupsOf(detect)[si] == NamesOf(si, |detect[si].all|);
  }

  /** Nothing to compile without signals. */
  method CompileObjective(detect: seq<Signal>) returns (r: Result<Option<Rule>, Condition>)
    ensures r.Err? <==> !AllHaveMatchers(detect)
    ensures r.Ok? ==> if detect == [] then r.value == None else r.value.Some? && Compiled(detect, r.value.value)
  {
    if detect == [] { return Ok(None); }
    var table: map<string, Selection> := map[];
    var texts := [];
    for si := 0 to |detect|
      invariant TableUpTo(detect, si, 0, table)
      invariant TextsUpTo(detect, si, texts)
      invariant AllHaveMatchers(detect[..si])
    {
      var compiled, names := CompileSignal(detect, si, table);
      assert detect[..si + 1] == detect[..si] + [detect[si]];
      if compiled.Err? {
        assert detect[si] in detect && compiled.error in detect[si].all;
        return Err(compiled.error);
      }
      table := compiled.value;
      TextsOneMore(detect, si, texts);
      texts := texts + [GroupText(names)];
    }
    assert detect[..|detect|] == detect;
    assert texts == TextsOf(GroupsOf(detect));
    return Ok(Some(Rule(table, Join(texts, " or "))));
  }

  // ---------------------------------------------------------------- the meaning of a compiled rule

  function AndOf(names: seq<string>): Expr
    requires |names| > 0
  {
    if |names| == 1 then Name(names[0]) else And(AndOf(names[..|names| - 1]), Name(names[|names| - 1]))
  }

  function OrOf(groups: seq<seq<string>>): Expr
    requires |groups| > 0 && forall g :: g in groups ==> |g| > 0
  {
    if |groups| == 1 then Paren(AndOf(groups[0]))
    else Or(OrOf(groups[..|groups| - 1]), Paren(AndOf(groups[|groups| - 1])))
  }

  lemma {:induction false} AndOfTokens(names: seq<string>)
    requires |names| > 0 && forall i :: 0 <= i < |names| ==> IsSelectionName(names[i])
    ensures WellFormed(AndOf(names)) && !AndOf(names).Or?
    ensures Tokenize(Join(names, " and ")) == Spell(AndOf(names), InOr)
    ensures Join(names, " and ") != "" && IsNameChar(Join(names, " and ")[|Join(names, " and ")| - 1])
  {
    var last := names[|names| - 1];
    TokenizeWord(last);
    if |names| > 1 {
      var front := names[..|names| - 1];
      AndOfTokens(front);
      SeparatorTokens();
      TokenizeConcat(Join(front, " and "), " and ");
      TokenizeConcat(Join(front, " and ") + " and ", last);
      assert Spell(AndOf(front), InAnd) == Spell(AndOf(front), InOr);
    }
  }

  lemma SeparatorTokens()
    ensures Tokenize(" and ") == ["and"] && Tokenize(" or ") == ["or"]
  {
    assert " "[1..] == "" && Tokenize(" ") == [];
    TokenizeWord("and");
    TokenizeWord("or");
    TokenizeConcat("and", " ");
    TokenizeConcat("or", " ");
    assert " and " == " " + ("and" + " ") && " or " == " " + ("or" + " ");
    TokenizeConcat(" ", "and" + " ");
    TokenizeConcat(" ", "or" + " ");
  }

  lemma EnclosedTokens(text: string)
    ensures Tokenize("(" + text + ")") == ["("] + Tokenize(text) + [")"]
  {
    TokenizeToken("(");
    TokenizeToken(")");
    TokenizeConcat("(", text);
    TokenizeConcat("(" + text, ")");
  }

  lemma SpellParen(e: Expr)
    ensures Spell(Paren(e), InOr) == Spell(Paren(e), InAnd) == ["("] + Spell(e, InOr) + [")"]
  {}

  lemma GroupTextTokens(names: seq<string>)
    requires |names| > 0 && forall i :: 0 <= i < |names| ==> IsSelectionName(names[i])
    ensures Tokenize(GroupText(names)) == Spell(Paren(AndOf(names)), InOr) == Spell(Paren(AndOf(names)), InAnd)
  {
    AndOfTokens(names);
    EnclosedTokens(Join(names, " and "));
    SpellParen(AndOf(names));
  }

  lemma OrTokens(front: string, l: Expr, last: string, r: Expr)
    requires Tokenize(front) == Spell(l, InOr) && Tokenize(last) == Spell(r, InAnd)
    ensures Tokenize(front + " or " + last) == Spell(Or(l, r), InOr)
  {
    SeparatorTokens();
    TokenizeConcat(front, " or ");
    TokenizeConcat(front + " or ", last);
  }

  lemma LastText(groups: seq<seq<string>>)
    requires |groups| > 1
    ensures var n := |groups| - 1;
            Join(TextsOf(groups), " or ") == Join(TextsOf(groups[..n]), " or ") + " or " + GroupText(groups[n])
  {
    assert TextsOf(groups)[..|groups| - 1] == TextsOf(groups[..|groups| - 1]);
  }

  lemma {:induction false} OrOfTokens(groups: seq<seq<string>>)
    requires |groups| > 0
    requires forall g :: g in groups ==> |g| > 0 && forall i :: 0 <= i < |g| ==> IsSelectionName(g[i])
    ensures WellFormed(OrOf(groups))
    ensures Tokenize(Join(TextsOf(groups), " or ")) == Spell(OrOf(groups), InOr)
  {
    var last := groups[|groups| - 1];
    AndOfTokens(last);
    GroupTextTokens(last);
    if |groups| > 1 {
      var front := groups[..|groups| - 1];
      LastText(groups);
      OrOfTokens(front);
      OrTokens(Join(TextsOf(front), " or "), OrOf(front), GroupText(last), Paren(AndOf(last)));
    }
  }

  predicate AllHold(names: seq<string>, m: map<string, bool>) {
    forall i :: 0 <= i < |names| ==> Lookup(m, names[i])
  }

  lemma {:induction false} AndOfMeaning(names: seq<string>, m: map<string, bool>)
    requires |names| > 0
    ensures Meaning(AndOf(names), m) <==> AllHold(names, m)
  {
    if |names| > 1 {
      var front := names[..|names| - 1];
      AndOfMeaning(front, m);
      assert forall i :: 0 <= i < |front| ==> front[i] == names[i];
    }
  }

  lemma {:induction false} OrOfMeaning(groups: seq<seq<string>>, m: map<string, bool>)
    requires |groups| > 0 && forall g :: g in groups ==> |g| > 0
    ensures Meaning(OrOf(groups), m) <==> exists g :: g in groups && AllHold(g, m)
  {
    var last := groups[|groups| - 1];
    AndOfMeaning(last, m);
    if |groups| > 1 {
      var front := groups[..|groups| - 1];
      OrOfMeaning(front, m);
      assert groups == front + [last];
      assert Meaning(OrOf(groups), m) == (Meaning(OrOf(front), m) || Meaning(AndOf(last), m));
    } else {
      assert groups == [last];
    }
  }

  // ---------------------------------------------------------------- rule and scorer agree

  /** The characters that a generated condition text is made of. */
  predicate IsRuleChar(c: char) {
    IsDigit(c) || 'a' <= c <= 'z' || c == '(' || c == ')' || c == ' '
  }

  predicate IsRuleText(s: string) {
    forall i :: 0 <= i < |s| ==> IsRuleChar(s[i])
  }

  lemma {:induction false} JoinIsRuleText(parts: seq<string>, sep: string)
    requires IsRuleText(sep) && forall i :: 0 <= i < |parts| ==> IsRuleText(parts[i])
    ensures IsRuleText(Join(parts, sep))
  {
    if |parts| > 1 { JoinIsRuleText(parts[..|parts| - 1], sep); }
  }

  lemma SelectionNameIsRuleText(si: nat, ci: nat)
    ensures IsRuleText(SelectionName(si, ci))
  {
    NumeralIsDigits(si);
    NumeralIsDigits(ci);
    assert forall i :: 0 <= i < |Numeral(si)| ==> IsDigit(Numeral(si)[i]) && IsRuleChar(Numeral(si)[i]);
    assert forall i :: 0 <= i < |Numeral(ci)| ==> IsDigit(Numeral(ci)[i]) && IsRuleChar(Numeral(ci)[i]);
    assert IsRuleText(Numeral(si)) && IsRuleText(Numeral(ci)) && IsRuleText("sig") && IsRuleText("cond");
  }

  lemma ConditionIsRuleText(detect: seq<Signal>)
    ensures IsRuleText(Join(TextsOf(GroupsOf(detect)), " or "))
  {
    forall si | 0 <= si < |detect| ensures IsRuleText(TextsOf(GroupsOf(detect))[si]) {
      var names := NamesOf(si, |detect[si].all|);
      forall ci | 0 <= ci < |names| ensures IsRuleText(names[ci]) { SelectionNameIsRuleText(si, ci); }
      JoinIsRuleText(names, " and ");
    }
    JoinIsRuleText(TextsOf(GroupsOf(detect)), " or ");
  }

  /** Some signal has all its conditions met by their compiled selections. */
  ghost predicate CompiledFires(lib: Library, detect: seq<Signal>, event: Value)
    requires AllHaveMatchers(detect)
  {
    exists s :: s in detect && forall c :: c in s.all ==> CompiledMatches(lib, c, event)
  }

  lemma CompiledName(lib: Library, detect: seq<Signal>, rule: Rule, event: Value, si: nat, ci: nat)
    requires AllHaveMatchers(detect) && Compiled(detect, rule) && si < |detect| && ci < |detect[si].all|
    ensures detect[si].all[ci] in detect[si].all && HasMatcher(detect[si].all[ci])
    ensures Lookup(Matched(lib, rule, event), SelectionName(si, ci)) <==>
            CompiledMatches(lib, detect[si].all[ci], event)
  {
    assert Before(detect, si, ci, |detect|, 0);
  }

  /** All compiled conditions of a signal hold, by position. */
  ghost predicate AllCompiled(lib: Library, conditions: seq<Condition>, event: Value)
    requires forall c :: c in conditions ==> HasMatcher(c)
  {
    forall ci :: 0 <= ci < |conditions| ==> CompiledMatches(lib, conditions[ci], event)
  }

  lemma AllCompiledIsEach(lib: Library, conditions: seq<Condition>, event: Value)
    requires forall c :: c in conditions ==> HasMatcher(c)
    ensures AllCompiled(lib, conditions, event) <==> forall c :: c in conditions ==> CompiledMatches(lib, c, event)
  {
    forall ci | 0 <= ci < |conditions| ensures conditions[ci] in conditions {}
  }

  /** Looked up by position or by name, the same conditions hold. */
  lemma SameFlags(names: seq<string>, m: map<string, bool>, flags: seq<bool>)
    requires |flags| == |names| && forall ci :: 0 <= ci < |names| ==> (Lookup(m, names[ci]) <==> flags[ci])
    ensures AllHold(names, m) <==> forall ci :: 0 <= ci < |flags| ==> flags[ci]
  {}

  ghost function Flags(lib: Library, conditions: seq<Condition>, event: Value): (flags: seq<bool>)
    requires forall c :: c in conditions ==> HasMatcher(c)
    ensures |flags| == |conditions|
  {
    seq(|conditions|, ci requires 0 <= ci < |conditions| => CompiledMatches(lib, conditions[ci], event))
  }

  lemma FlagsAreCompiled(lib: Library, conditions: seq<Condition>, event: Value)
    requires forall c :: c in conditions ==> HasMatcher(c)
    ensures AllCompiled(lib, conditions, event) <==>
            forall ci :: 0 <= ci < |conditions| ==> Flags(lib, conditions, event)[ci]
  {
    forall ci | 0 <= ci < |conditions|
      ensures Flags(lib, conditions, event)[ci] <==> CompiledMatches(lib, conditions[ci], event)
    {}
  }

  lemma FlagIsLookup(lib: Library, detect: seq<Signal>, rule: Rule, event: Value, si: nat, ci: nat)
    requires AllHaveMatchers(detect) && Compiled(detect, rule) && si < |detect| && ci < |detect[si].all|
    requires forall c :: c in detect[si].all ==> HasMatcher(c)
    ensures Lookup(Matched(lib, rule, event), SelectionName(si, ci)) <==> Flags(lib, detect[si].all, event)[ci]
  {
    CompiledName(lib, detect, rule, event, si, ci);
  }

  lemma CompiledGroup(lib: Library, detect: seq<Signal>, rule: Rule, event: Value, si: nat, m: map<string, bool>)
    requires AllHaveMatchers(detect) && Compiled(detect, rule) && si < |detect|
    requires m == Matched(lib, rule, event)
    ensures forall c :: c in detect[si].all ==> HasMatcher(c)
    ensures AllHold(GroupsOf(detect)[si], m) <==> AllCompiled(lib, detect[si].all, event)
  {
    assert detect[si] in detect;
    var names, flags := NamesOf(si, |detect[si].all|), Flags(lib, detect[si].all, event);
    forall ci | 0 <= ci < |names| ensures Lookup(m, names[ci]) <==> flags[ci] {
      FlagIsLookup(lib, detect, rule, event, si, ci);
    }
    SameFlags(names, m, flags);
    FlagsAreCompiled(lib, detect[si].all, event);
    assert GroupsOf(detect)[si] == names;
  }

  lemma GroupsAreNames(detect: seq<Signal>)
    requires forall s :: s in detect ==> s.all != []
    ensures forall g :: g in GroupsOf(detect) ==> |g| > 0 && forall i :: 0 <= i < |g| ==> IsSelectionName(g[i])
  {
    var groups := GroupsOf(detect);
    forall g | g in groups ensures |g| > 0 && forall i :: 0 <= i < |g| ==> IsSelectionName(g[i]) {
      var si :| 0 <= si < |groups| && groups[si] == g;
      assert detect[si] in detect;
      forall i | 0 <= i < |g| ensures IsSelectionName(g[i]) { SelectionNameIsName(si, i); }
    }
  }

  lemma JoinedTextMeaning(groups: seq<seq<string>>, m: map<string, bool>)
    requires |groups| > 0
    requires forall g :: g in groups ==> |g| > 0 && forall i :: 0 <= i < |g| ==> IsSelectionName(g[i])
    ensures Join(TextsOf(groups), " or ") != ""
    ensures ParseOr(Tokenize(Join(TextsOf(groups), " or ")), m) == Parsed(Meaning(OrOf(groups), m), [])
  {
    OrOfTokens(groups);
    var t := Spell(OrOf(groups), InOr);
    ParseSpelled(OrOf(groups), InOr, [], m);
    assert t + [] == t;
    assert ParseOr([], m) == OutOfTokens && ParseOr(t, m).Parsed?;
    assert Tokenize("") == [];
  }

  /** A compiled rule never fails to evaluate, and fires exactly when all the compiled conditions of
      some signal hold: compiling keeps `or` between signals and `and` within one. */
  lemma RuleFires(lib: Library, detect: seq<Signal>, rule: Rule, event: Value)
    requires detect != [] && AllHaveMatchers(detect) && forall s :: s in detect ==> s.all != []
    requires Compiled(detect, rule) && LowersConditionText(lib.lower)
    ensures RuleMatches(lib, rule, event) == Some(CompiledFires(lib, detect, event))
  {
    var m := Matched(lib, rule, event);
    GroupsAreNames(detect);
    JoinedTextMeaning(GroupsOf(detect), m);
    LowerKeepsCondition(lib, detect);
    FiresByGroup(lib, detect, rule, event, m);
    OrOfMeaning(GroupsOf(detect), m);
  }

  lemma LowerKeepsCondition(lib: Library, detect: seq<Signal>)
    requires LowersConditionText(lib.lower)
    ensures var text := Join(TextsOf(GroupsOf(detect)), " or "); lib.lower(text) == text
  {
    var text := Join(TextsOf(GroupsOf(detect)), " or ");
    ConditionIsRuleText(detect);
    forall i | 0 <= i < |text| ensures IsConditionChar(text[i]) && AsciiLower(text)[i] == text[i] {
      assert IsRuleChar(text[i]);
    }
  }

  lemma FiresByGroup(lib: Library, detect: seq<Signal>, rule: Rule, event: Value, m: map<string, bool>)
    requires AllHaveMatchers(detect) && Compiled(detect, rule)
    requires m == Matched(lib, rule, event)
    ensures (exists g :: g in GroupsOf(detect) && AllHold(g, m)) <==> CompiledFires(lib, detect, event)
  {
    var groups := GroupsOf(detect);
    if g :| g in groups && AllHold(g, m) {
      var si :| 0 <= si < |groups| && groups[si] == g;
      CompiledGroup(lib, detect, rule, event, si, m);
      AllCompiledIsEach(lib, detect[si].all, event);
      assert detect[si] in detect;
    }
    if CompiledFires(lib, detect, event) {
      var s :| s in detect && forall c :: c in s.all ==> CompiledMatches(lib, c, event);
      var si :| 0 <= si < |detect| && detect[si] == s;
      CompiledGroup(lib, detect, rule, event, si, m);
      AllCompiledIsEach(lib, detect[si].all, event);
      assert groups[si] in groups;
    }
  }

  /** With plain field names a compiled rule only fires on events the scorer counts. */
  lemma RuleImpliesScore(lib: Library, detect: seq<Signal>, rule: Rule, event: Value)
    requires detect != [] && AllHaveMatchers(detect) && forall s :: s in detect ==> s.all != []
    requires forall s, c :: s in detect && c in s.all ==> NoPipe(c)
    requires Compiled(detect, rule) && LowersConditionText(lib.lower)
    requires RuleMatches(lib, rule, event) == Some(true)
    ensures Fires(lib, detect, event)
  {
    RuleFires(lib, detect, rule, event);
    var s :| s in detect && forall c :: c in s.all ==> CompiledMatches(lib, c, event);
    forall c | c in s.all ensures ConditionMatches(lib, c, event) {
      CompiledImpliesScored(lib, c, event);
    }
  }

  /** With conditions that translate a compiled rule fires on exactly the events the scorer counts. */
  lemma RuleAgreesWithScore(lib: Library, detect: seq<Signal>, rule: Rule, event: Value)
    requires detect != [] && AllHaveMatchers(detect) && forall s :: s in detect ==> s.all != []
    requires forall s, c :: s in detect && c in s.all ==> Translates(lib, c)
    requires Compiled(detect, rule) && LowersConditionText(lib.lower)
    ensures RuleMatches(lib, rule, event) == Some(Fires(lib, detect, event))
  {
    RuleFires(lib, detect, rule, event);
    forall s | s in detect
      ensures (forall c :: c in s.all ==> CompiledMatches(lib, c, event)) <==> SignalMatches(lib, s, event)
    {
      forall c | c in s.all ensures CompiledMatches(lib, c, event) <==> ConditionMatches(lib, c, event) {
        TranslatesAgrees(lib, c, event);
      }
    }
  }

  // ---------------------------------------------------------------- grading a rule

  /** The positions of the events a rule matches. */
  function MatchedIndices(lib: Library, rule: Rule, events: seq<Value>): seq<nat> {
    if events == [] then [] else
      var front := MatchedIndices(lib, rule, events[..|events| - 1]);
      if RuleMatches(lib, rule, events[|events| - 1]) == Some(true) then front + [|events| - 1] else front
  }

  /** Rule and scorer single out the same positions, once each. */
  ghost predicate SamePositions(lib: Library, detect: seq<Signal>, rule: Rule, events: seq<Value>) {
    && |MatchedIndices(lib, rule, events)| == |Firing(lib, detect, events)|
    && forall i :: i in MatchedIndices(lib, rule, events) <==> i in Firing(lib, detect, events)
  }

  lemma FiringNext(lib: Library, detect: seq<Signal>, events: seq<Value>, n: nat)
    requires |events| == n + 1
    ensures var before, fires := Firing(lib, detect, events[..n]), Fires(lib, detect, events[n]);
            && n !in before && Firing(lib, detect, events) == before + (if fires then {n} else {})
            && |Firing(lib, detect, events)| == |before| + (if fires then 1 else 0)
  {
    FiringOneMore(lib, detect, events, n);
    assert events[..n + 1] == events;
  }

  lemma SamePositionsNext(lib: Library, detect: seq<Signal>, rule: Rule, events: seq<Value>, n: nat)
    requires |events| == n + 1 && SamePositions(lib, detect, rule, events[..n])
    requires RuleMatches(lib, rule, events[n]) == Some(Fires(lib, detect, events[n]))
    ensures SamePositions(lib, detect, rule, events)
  {
    FiringNext(lib, detect, events, n);
    OneMorePosition(MatchedIndices(lib, rule, events[..n]), Firing(lib, detect, events[..n]), n);
  }

  lemma OneMorePosition(front: seq<nat>, before: set<nat>, n: nat)
    requires forall i :: i in front <==> i in before
    ensures forall i :: i in front + [n] <==> i in before + {n}
  {}

  /** The true positives of a compiled rule are the objective's match count on the same log. */
  lemma {:induction false} TruePositivesAreMatchCount(lib: Library, detect: seq<Signal>, rule: Rule, events: seq<Value>)
    requires detect != [] && AllHaveMatchers(detect) && forall s :: s in detect ==> s.all != []
    requires forall s, c :: s in detect && c in s.all ==> Translates(lib, c)
    requires Compiled(detect, rule) && LowersConditionText(lib.lower)
    ensures SamePositions(lib, detect, rule, events)
    decreases |events|
  {
    if events == [] {
      assert Firing(lib, detect, events) == {};
    } else {
      var n := |events| - 1;
      TruePositivesAreMatchCount(lib, detect, rule, events[..n]);
      RuleAgreesWithScore(lib, detect, rule, events[n]);
      SamePositionsNext(lib, detect, rule, events, n);
    }
  }
}
