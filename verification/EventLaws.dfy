/** When a condition holds of an event, in the fields of the event alone (rangefinder/scoring.py and the field
    tests of rangefinder/detect.py): what a dotted path leads to, what a list of values means, and what each
    matcher asks of the text. */
module EventLaws {
  import opened Prelude
  import opened Pieces
  import opened Telemetry
  import opened Scoring
  import opened KillChain
  import opened SigmaCondition
  import opened SigmaExpression
  import opened SigmaCompile

  // ---------------------------------------------------------------- paths

  /** The keys of `path`, one inside the other, lead from `v` to `found`, which is not null. */
  ghost predicate LeadsTo(v: Value, path: seq<string>, found: Value)
    decreases |path|
  {
    if path == [] then v == found && found != Null
    else v.Obj? && path[0] in v.fields && LeadsTo(v.fields[path[0]], path[1..], found)
  }

  lemma {:induction false} GetLeadsTo(v: Value, path: seq<string>, found: Value)
    ensures LeadsTo(v, path, found) <==> Get(v, path) == found && found != Null
    decreases |path|
  {
    if path != [] && v.Obj? && path[0] in v.fields { GetLeadsTo(v.fields[path[0]], path[1..], found); }
  }

  // ---------------------------------------------------------------- what a matcher asks

  /** The value itself, or one of its items when it is a list. */
  ghost predicate IsOneOf(found: Value, v: Value) {
    if found.List? then v in found.items else v == found
  }

  /** The printed form of a value; what is not plain text or a number prints in its own way. */
  ghost predicate Prints(lib: Library, v: Value, s: string) {
    if v.Scalar? then s == v.text else s == lib.repr(v)
  }

  /** The event has a value under the dotted field name that prints as `s`, by itself or in a list. */
  ghost predicate HasText(lib: Library, event: Value, field: string, s: string) {
    exists path, found, v :: TextAt(lib, event, field, s, path, found, v)
  }

  ghost predicate TextAt(lib: Library, event: Value, field: string, s: string, path: seq<string>, found: Value,
                         v: Value)
  {
    ArePieces(field, '.', path) && LeadsTo(event, path, found) && IsOneOf(found, v) && Prints(lib, v, s)
  }

  lemma TextIsCandidate(lib: Library, event: Value, field: string, s: string)
    ensures HasText(lib, event, field, s) <==>
            Field(event, field) != Null && exists v :: v in Candidates(Field(event, field)) && Str(lib, v) == s
  {
    var path, found := Split(field, '.'), Field(event, field);
    SplitIsPieces(field, '.');
    GetLeadsTo(event, path, found);
    if v :| found != Null && v in Candidates(found) && Str(lib, v) == s {
      assert TextAt(lib, event, field, s, path, found, v);
    }
    if other, reached, v :| TextAt(lib, event, field, s, other, reached, v) {
      PiecesAreSplit(field, '.', other);
      GetLeadsTo(event, path, reached);
      assert v in Candidates(found);
    }
  }

  /** `piece` stands somewhere in `text`. */
  ghost predicate Within(text: string, piece: string) {
    exists a, b :: text == a + piece + b
  }

  lemma ContainsIsWithin(text: string, piece: string)
    ensures Contains(text, piece) <==> Within(text, piece)
  {
    if i :| 0 <= i <= |text| && Occurs(text, piece, i) {
      assert text == text[..i] + piece + text[i + |piece|..];
    }
    if a, b :| text == a + piece + b {
      assert text[|a|..|a| + |piece|] == piece;
      assert Occurs(text, piece, |a|);
    }
  }

  /** A condition holds when the event has a text there that equals the wanted one, or has it inside, capitals
      aside, or that the pattern finds. */
  ghost predicate Wanted(lib: Library, c: Condition, s: string) {
    || c.equals == Some(s)
    || (c.contains.Some? && Within(lib.lower(s), lib.lower(c.contains.value)))
    || (c.regex.Some? && lib.search(c.regex.value, s))
  }

  ghost predicate HoldsOf(lib: Library, c: Condition, event: Value) {
    exists s :: HasText(lib, event, c.field, s) && Wanted(lib, c, s)
  }

  lemma ConditionIs(lib: Library, c: Condition, event: Value)
    ensures ConditionMatches(lib, c, event) <==> HoldsOf(lib, c, event)
  {
    forall s ensures TextMatches(lib, c, s) <==> Wanted(lib, c, s) {
      if c.contains.Some? { ContainsIsWithin(lib.lower(s), lib.lower(c.contains.value)); }
    }
    var found := Field(event, c.field);
    if v :| found != Null && v in Candidates(found) && TextMatches(lib, c, Str(lib, v)) {
      TextIsCandidate(lib, event, c.field, Str(lib, v));
      assert HasText(lib, event, c.field, Str(lib, v)) && Wanted(lib, c, Str(lib, v));
    }
    if s :| HasText(lib, event, c.field, s) && Wanted(lib, c, s) {
      TextIsCandidate(lib, event, c.field, s);
    }
  }

  /** Every condition of the signal holds of the event. */
  ghost predicate Meets(lib: Library, s: Signal, event: Value) {
    forall c :: c in s.all ==> HoldsOf(lib, c, event)
  }

  lemma SignalIs(lib: Library, s: Signal, event: Value)
    ensures SignalMatches(lib, s, event) <==> Meets(lib, s, event)
  {
    forall c ensures ConditionMatches(lib, c, event) <==> HoldsOf(lib, c, event) { ConditionIs(lib, c, event); }
  }

  /** An event counts exactly when it meets every condition of some signal. */
  lemma FiringIs(lib: Library, detect: seq<Signal>, events: seq<Value>, i: nat)
    ensures i in Firing(lib, detect, events) <==>
            i < |events| && exists s :: s in detect && Meets(lib, s, events[i])
  {
    if i < |events| {
      forall s ensures SignalMatches(lib, s, events[i]) <==> Meets(lib, s, events[i]) { SignalIs(lib, s, events[i]); }
    }
  }

  /** A source that says something: an empty text, list or object does not. */
  predicate Says(v: Value) {
    v != Null && v != Scalar("") && v != List([]) && v != Obj(map[])
  }

  /** The sources reported are what the firing events have under source.ip, where that says something. */
  lemma SourcesAre(lib: Library, detect: seq<Signal>, events: seq<Value>, seen: set<nat>, d: DetectResult, ip: Value)
    requires forall i :: i in seen ==> i < |events|
    requires Describes(lib, detect, events, seen, d)
    ensures ip in d.sources <==> Says(ip) && exists i :: i in seen && LeadsTo(events[i], ["source", "ip"], ip)
  {
    forall i | i in seen
      ensures LeadsTo(events[i], ["source", "ip"], ip) <==> Get(events[i], SOURCE_IP) == ip && ip != Null
    {
      GetLeadsTo(events[i], ["source", "ip"], ip);
    }
    assert Truthy(ip) <==> Says(ip);
  }

  // ---------------------------------------------------------------- sequences

  /** Events at these positions of the log, in order, meet the steps one by one; all by one source, when the
      sequence asks for that, and none later than the first by more than its window, where times are read. */
  ghost predicate Happens(h: Hunt, c: seq<nat>) {
    && |c| == |h.q.steps| > 0 && (forall j :: 0 <= j < |c| ==> c[j] < |h.events|)
    && (forall j :: 1 <= j < |c| ==> c[j - 1] < c[j])
    && (forall j :: 0 <= j < |c| ==> Meets(h.lib, h.q.steps[j], h.events[c[j]]))
    && (h.q.sameSource ==> exists ip :: AllFrom(h, c, ip))
    && (h.q.within.Some? ==> forall j :: 1 <= j < |c| ==> Soon(h, c[0], c[j]))
  }

  ghost predicate AllFrom(h: Hunt, c: seq<nat>, ip: Value)
    requires forall j :: 0 <= j < |c| ==> c[j] < |h.events|
  {
    forall j :: 0 <= j < |c| ==> LeadsTo(h.events[c[j]], ["source", "ip"], ip)
  }

  ghost predicate Soon(h: Hunt, first: nat, later: nat)
    requires h.q.within.Some? && first < |h.events| && later < |h.events|
  {
    var t, u := h.lib.epoch(Get(h.events[first], ["@timestamp"])), h.lib.epoch(Get(h.events[later], ["@timestamp"]));
    t.Some? && u.Some? ==> u.value - t.value <= h.q.within.value
  }

  /** Counting for a source is having it under source.ip, where sources matter. */
  lemma SourceIs(h: Hunt, i: nat, src: Value)
    requires i < |h.events|
    ensures SourceOf(h, i) == Some(src) <==>
            if h.q.sameSource then LeadsTo(h.events[i], ["source", "ip"], src) else src == Null
  {
    GetLeadsTo(h.events[i], ["source", "ip"], src);
  }

  lemma EmbedsAsItHappens(h: Hunt, src: Value, c: seq<nat>)
    requires |c| == |h.q.steps| > 0 && Embeds(h, src, c, |h.events|) && InWindow(h, c)
    ensures Happens(h, c)
  {
    forall j | 0 <= j < |c|
      ensures Meets(h.lib, h.q.steps[j], h.events[c[j]])
      ensures h.q.sameSource ==> LeadsTo(h.events[c[j]], ["source", "ip"], src)
    {
      assert StepMatches(h, j, c[j]) && SourceOf(h, c[j]) == Some(src);
      SignalIs(h.lib, h.q.steps[j], h.events[c[j]]);
      SourceIs(h, c[j], src);
    }
    if h.q.sameSource { assert AllFrom(h, c, src); }
    if h.q.within.Some? {
      forall j | 1 <= j < |c| ensures Soon(h, c[0], c[j]) {
        assert !TooSlow(h, TimeOf(h, c[0]), TimeOf(h, c[j]));
      }
    }
  }

  lemma HappensAsEmbedded(h: Hunt, c: seq<nat>) returns (src: Value)
    requires Happens(h, c)
    ensures Embeds(h, src, c, |h.events|)
  {
    if h.q.sameSource {
      src :| AllFrom(h, c, src);
    } else {
      src := Null;
    }
    forall j | 0 <= j < |c| ensures StepMatches(h, j, c[j]) && SourceOf(h, c[j]) == Some(src) {
      SignalIs(h.lib, h.q.steps[j], h.events[c[j]]);
      SourceIs(h, c[j], src);
    }
  }

  /** What is detected has happened; and without a window, whatever happens is detected, no later than at its
      last event. */
  lemma VerdictIsWhatHappens(h: Hunt, r: Option<Detection>, c: seq<nat>)
    requires 0 < |h.q.steps| && IsVerdict(h, r)
    ensures r.Some? ==> Happens(h, r.value.chain)
    ensures h.q.within.None? && Happens(h, c) ==>
              r.Some? && r.value.chain[|r.value.chain| - 1] <= c[|c| - 1]
  {
    if r.Some? { EmbedsAsItHappens(h, r.value.source, r.value.chain); }
    if h.q.within.None? && Happens(h, c) {
      var src := HappensAsEmbedded(h, c);
      var n := c[|c| - 1] + 1;
      EmbedFront(h, src, c, |h.events|);
      MetIffSubsequence(h, n);
      assert !NoneComplete(h, n);
    }
  }

  // ---------------------------------------------------------------- the field tests of a rule

  /** What a rule asks of a text, by the modifiers of its key; of several, the first in this order decides. */
  ghost predicate Asked(lib: Library, mods: seq<string>, wanted: string, s: string) {
    if "re" in mods then lib.search(wanted, s)
    else
      var low, want := lib.lower(s), lib.lower(wanted);
      if "contains" in mods then exists a, b :: low == a + want + b
      else if "startswith" in mods then exists b :: low == want + b
      else if "endswith" in mods then exists a :: low == a + want
      else if "cased" in mods then s == wanted else low == want
  }

  lemma TextAsked(lib: Library, mods: seq<string>, wanted: string, s: string)
    ensures TextMeets(lib, mods, wanted, s) <==> Asked(lib, mods, wanted, s)
  {
    var low, want := lib.lower(s), lib.lower(wanted);
    ContainsIsWithin(low, want);
    if want <= low { assert low == want + low[|want|..]; }
    if EndsWith(low, want) { assert low == low[..|low| - |want|] + want; }
    if a :| low == a + want { assert low[|low| - |want|..] == want; }
  }

  /** The key is a field name and modifiers, joined by bars. */
  ghost predicate KeyOf(key: string, field: string, mods: seq<string>) {
    ArePieces(key, '|', [field] + mods)
  }

  /** An entry of a selection holds when the event has a text under the field that one of the wanted values
      accepts. */
  lemma FieldEntryIs(lib: Library, event: Value, key: string, field: string, mods: seq<string>, wanted: seq<string>)
    requires KeyOf(key, field, mods)
    ensures MatchField(lib, event, key, wanted) <==>
            exists s, w :: HasText(lib, event, field, s) && w in wanted && Asked(lib, mods, w, s)
  {
    PiecesAreSplit(key, '|', [field] + mods);
    var parts, found := Split(key, '|'), Field(event, field);
    assert parts[0] == field && parts[1..] == mods;
    if v, w :| found != Null && v in Candidates(found) && w in wanted && TextMeets(lib, mods, w, Str(lib, v)) {
      TextIsCandidate(lib, event, field, Str(lib, v));
      TextAsked(lib, mods, w, Str(lib, v));
      assert HasText(lib, event, field, Str(lib, v)) && w in wanted && Asked(lib, mods, w, Str(lib, v));
    }
    if s, w :| HasText(lib, event, field, s) && w in wanted && Asked(lib, mods, w, s) {
      TextIsCandidate(lib, event, field, s);
      TextAsked(lib, mods, w, s);
    }
  }

  /** A selection without entries accepts everything, a list without alternatives nothing; an entry more asks
      for more, and an alternative more accepts more. */
  lemma SelectionsAddUp(lib: Library, event: Value, fields: map<string, seq<string>>, key: string,
                        wanted: seq<string>, options: seq<Selection>, option: Selection)
    requires key !in fields
    ensures SelectionMatches(lib, event, Entries(map[])) && !SelectionMatches(lib, event, AnyOf([]))
    ensures SelectionMatches(lib, event, Entries(fields[key := wanted])) <==>
            SelectionMatches(lib, event, Entries(fields)) && MatchField(lib, event, key, wanted)
    ensures SelectionMatches(lib, event, AnyOf(options + [option])) <==>
            SelectionMatches(lib, event, AnyOf(options)) || SelectionMatches(lib, event, option)
  {
    var more := fields[key := wanted];
    assert more[key] == wanted && forall k :: k in fields ==> k in more && more[k] == fields[k];
    assert forall o :: o in options + [option] <==> o in options || o == option;
  }

  /** A rule without a condition fires when any selection matches. */
  lemma NoConditionMeansAny(lib: Library, detection: map<string, Selection>, event: Value)
    ensures RuleMatches(lib, Rule(detection, ""), event)
         == Some(exists n :: n in detection && SelectionMatches(lib, event, detection[n]))
  {
    var matched := Matched(lib, Rule(detection, ""), event);
    assert forall n :: n in matched <==> n in detection;
  }

  lemma MatchedIs(lib: Library, rule: Rule, event: Value)
    ensures Matched(lib, rule, event).Keys == rule.detection.Keys
    ensures forall n :: n in rule.detection ==>
              Matched(lib, rule, event)[n] == SelectionMatches(lib, event, rule.detection[n])
  {}

  lemma WrittenIsSomething(lower: string -> string, e: Expr, m: map<string, bool>)
    requires LowersConditionText(lower) && WellFormed(LowerNames(e))
    ensures Written(e) != ""
  {
    WrittenMeansMeaning(lower, e, m);
    assert AsciiLower("") == "" && Tokenize("") == [];
  }

  /** With a condition that is an expression, it fires when the expression holds of the selections that match. */
  lemma ConditionDecides(lib: Library, rule: Rule, e: Expr, event: Value)
    requires LowersConditionText(lib.lower) && WellFormed(LowerNames(e)) && rule.condition == Written(e)
    ensures RuleMatches(lib, rule, event) == Some(Meaning(LowerNames(e), Matched(lib, rule, event)))
  {
    var matched := Matched(lib, rule, event);
    WrittenIsSomething(lib.lower, e, matched);
    WrittenMeansMeaning(lib.lower, e, matched);
    RuleIsCondition(lib, rule, event);
  }

  lemma RuleIsCondition(lib: Library, rule: Rule, event: Value)
    requires rule.condition != ""
    ensures RuleMatches(lib, rule, event) == ConditionHolds(lib.lower, rule.condition, Matched(lib, rule, event))
  {}

  /** The positions a rule matches, in the order of the log, each once. */
  lemma {:induction false} MatchedPositionsAre(lib: Library, rule: Rule, events: seq<Value>)
    ensures var at := MatchedIndices(lib, rule, events);
            && (forall k :: 1 <= k < |at| ==> at[k - 1] < at[k])
            && forall i: nat :: i in at <==> i < |events| && RuleMatches(lib, rule, events[i]) == Some(true)
    decreases |events|
  {
    if events != [] {
      var n := |events| - 1;
      var front := MatchedIndices(lib, rule, events[..n]);
      MatchedPositionsAre(lib, rule, events[..n]);
      forall k | 0 <= k < |front| ensures front[k] < n { assert front[k] in front; }
      assert forall i: nat :: i in front + [n] <==> i in front || i == n;
    }
  }
}
