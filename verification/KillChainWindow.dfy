/** For which sequences the machine with a time window misses nothing (_eval_sequence in
    rangefinder/scoring.py): where the event that opens a chain always moves on the one being followed
    too, and only then with two steps, or with a window of no length.  Elsewhere a chain can be lost. */
module KillChainWindow {
  import opened Prelude
  import opened Telemetry
  import opened KillChain

  /** Event `e` opens a chain, and does not move on one that waits for step `k`. */
  ghost predicate Dodges(lib: Library, q: Sequence, k: nat, e: Value)
    requires k < |q.steps|
  {
    SignalMatches(lib, q.steps[0], e) && !SignalMatches(lib, q.steps[k], e)
  }

  /** An event that could start a chain also moves any chain on, and so restarts one that is too slow. */
  ghost predicate StartsAnew(lib: Library, q: Sequence) {
    |q.steps| == 1
    || ((|q.steps| == 2 || q.within == Some(0.0)) && forall k, e :: 0 < k < |q.steps| ==> !Dodges(lib, q, k, e))
  }

  /** A chain in the window, by a source whose times are readable and in log order. */
  ghost predicate TimelyChain(h: Hunt, src: Value, c: seq<nat>)
    requires 0 < |h.q.steps|
  {
    FullEmbed(h, src, c) && InWindow(h, c) && Chronological(h, src, c[|c| - 1])
  }

  ghost predicate Found(h: Hunt, src: Value)
    requires 0 < |h.q.steps|
  {
    exists m :: 0 <= m <= |h.events| && CompleteAt(h, src, m)
  }

  ghost predicate MissesNothing(lib: Library, q: Sequence)
    requires 0 < |q.steps|
  {
    forall events, src, c :: TimelyChain(Hunt(lib, q, events), src, c) ==> Found(Hunt(lib, q, events), src)
  }

  // ---------------------------------------------------------------- where nothing is lost

  /** At its first event the chain becomes the one the machine follows, unless another completes there. */
  lemma TakesUpChain(h: Hunt, src: Value, c: seq<nat>)
    requires 0 < |h.q.steps| && StartsAnew(h.lib, h.q) && TimelyChain(h, src, c)
    ensures CompleteAt(h, src, c[0]) || CompleteAt(h, src, c[0] + 1)
            || KeepsPace(h, c, Track(h, src, c[0] + 1), c[0] + 1)
  {
    var a := c[0];
    assert SourceOf(h, a) == Some(src) && StepMatches(h, 0, a);
    var st := Track(h, src, a);
    TrackIsSound(h, src, a);
    assert Track(h, src, a + 1) == Advance(h, st, a);
    if |c| >= 2 { EmbedsAfter(h, src, c); }
    if 0 < st.idx < |h.q.steps| {
      assert !Dodges(h.lib, h.q, st.idx, h.events[a]);
      assert st.chain[0] < a;
    }
  }

  /** The later events of a chain come after its first. */
  lemma EmbedsAfter(h: Hunt, src: Value, c: seq<nat>)
    requires Embeds(h, src, c, |h.events|) && |c| > 0
    ensures forall j :: 1 <= j < |c| ==> c[0] < c[j]
  {
    forall j | 1 <= j < |c| ensures c[0] < c[j] {
      EmbedFront(h, src, c[..j + 1], |h.events|);
      assert c[0] == c[..j + 1][..j][0];
    }
  }

  lemma StartsAnewMissesNothing(h: Hunt, src: Value, c: seq<nat>)
    requires 0 < |h.q.steps| && StartsAnew(h.lib, h.q) && TimelyChain(h, src, c)
    ensures Found(h, src)
  {
    TakesUpChain(h, src, c);
    if KeepsPace(h, c, Track(h, src, c[0] + 1), c[0] + 1) {
      PaceCompletes(h, src, c);
      assert CompleteAt(h, src, c[|c| - 1] + 1);
    }
  }

  /** Without a window nothing is lost. */
  lemma NoWindowMissesNothing(lib: Library, q: Sequence)
    requires 0 < |q.steps| && q.within.None?
    ensures MissesNothing(lib, q)
  {
    forall events, src, c | TimelyChain(Hunt(lib, q, events), src, c) ensures Found(Hunt(lib, q, events), src) {
      var h := Hunt(lib, q, events);
      TrackIsGreedy(h, src, |events|, c);
      TrackIsSound(h, src, |events|);
      assert CompleteAt(h, src, |events|);
    }
  }

  // ---------------------------------------------------------------- where a chain is lost

  /** Three times: of an early start, of another start, and of the rest, which is too late for the first
      and in time for the second. */
  datatype Moments = Moments(first: real, again: real, late: real)

  ghost predicate Straddles(w: real, t: Moments) {
    && t.first <= t.again <= t.late && t.late - t.again <= w < t.late - t.first
    && (w > 0.0 ==> t.again - t.first <= w)
  }

  /** The first `k` steps at the first moment; a first step again, which is where the chain starts; the rest
      of the chain after the window from the first moment, but inside the one from the second. */
  ghost predicate LateLog(h: Hunt, src: Value, k: nat, t: Moments) {
    && 1 <= k < |h.q.steps| && |h.events| == |h.q.steps| + k
    && h.q.within.Some? && Straddles(h.q.within.value, t)
    && LateTimes(h, src, k, t) && LateMatches(h, k) && PassedOver(h, k)
  }

  function LateTime(k: nat, t: Moments, i: nat): real {
    if i < k then t.first else if i == k then t.again else t.late
  }

  ghost predicate LateTimes(h: Hunt, src: Value, k: nat, t: Moments) {
    forall i :: 0 <= i < |h.events| ==> SourceOf(h, i) == Some(src) && TimeOf(h, i) == Some(LateTime(k, t, i))
  }

  /** The step that event `i` is there for. */
  function StepFor(k: nat, i: nat): nat {
    if i < k then i else i - k
  }

  ghost predicate LateMatches(h: Hunt, k: nat)
    requires |h.events| == |h.q.steps| + k && k < |h.q.steps|
  {
    forall i :: 0 <= i < |h.events| ==> MeetsOwnStep(h, k, i)
  }

  ghost predicate MeetsOwnStep(h: Hunt, k: nat, i: nat)
    requires i < |h.events| == |h.q.steps| + k && k < |h.q.steps|
  {
    StepMatches(h, StepFor(k, i), i)
  }

  /** The second start does not complete the first chain, nor restart it. */
  ghost predicate PassedOver(h: Hunt, k: nat)
    requires 1 <= k < |h.q.steps| && |h.events| == |h.q.steps| + k
  {
    !StepMatches(h, k, k) || (k == 1 && |h.q.steps| >= 3 && h.q.within.Some? && h.q.within.value > 0.0)
  }

  /** Still on the clock of the first event, or restarted too late to complete. */
  ghost predicate TooLate(h: Hunt, st: Progress, k: nat, t: Moments, n: nat) {
    && st.idx < |h.q.steps|
    && ((st.idx > 0 && st.firstTs == Some(t.first))
        || (st.idx + k + 1 <= n && (st.idx > 0 ==> st.firstTs == Some(t.late))))
  }

  /** The early events are taken one by one. */
  lemma {:induction false} EarlyTrack(h: Hunt, src: Value, k: nat, t: Moments, n: nat)
    requires LateLog(h, src, k, t) && n <= k
    ensures Track(h, src, n).idx == n && (n > 0 ==> Track(h, src, n).firstTs == Some(t.first))
  {
    if n > 0 {
      EarlyTrack(h, src, k, t, n - 1);
      assert MeetsOwnStep(h, k, n - 1);
      assert Track(h, src, n) == Advance(h, Track(h, src, n - 1), n - 1);
    }
  }

  lemma SecondStart(h: Hunt, src: Value, k: nat, t: Moments)
    requires LateLog(h, src, k, t)
    ensures Track(h, src, k + 1).idx > 0 && TooLate(h, Track(h, src, k + 1), k, t, k + 1)
  {
    EarlyTrack(h, src, k, t, k);
    assert Track(h, src, k + 1) == Advance(h, Track(h, src, k), k);
  }

  /** An event at the late moment leaves the machine too late. */
  lemma LateAdvance(h: Hunt, k: nat, t: Moments, st: Progress, i: nat)
    requires 1 <= k < |h.q.steps| && k < i < |h.events| == |h.q.steps| + k
    requires h.q.within.Some? && Straddles(h.q.within.value, t) && TimeOf(h, i) == Some(t.late)
    requires TooLate(h, st, k, t, i)
    ensures TooLate(h, Advance(h, st, i), k, t, i + 1)
  {}

  ghost predicate LateAt(h: Hunt, src: Value, k: nat, t: Moments, n: nat) {
    0 < |h.q.steps| && n <= |h.events| && TooLate(h, Track(h, src, n), k, t, n)
  }

  lemma LateStep(h: Hunt, src: Value, k: nat, t: Moments, i: nat)
    requires LateLog(h, src, k, t) && k < i < |h.events| && LateAt(h, src, k, t, i)
    ensures LateAt(h, src, k, t, i + 1)
  {
    LateAdvance(h, k, t, Track(h, src, i), i);
  }

  lemma {:induction false} LateFromThen(h: Hunt, src: Value, k: nat, t: Moments, n: nat)
    requires LateAt(h, src, k, t, k + 1) && k < n <= |h.events|
    requires forall i :: k < i < |h.events| && LateAt(h, src, k, t, i) ==> LateAt(h, src, k, t, i + 1)
    ensures LateAt(h, src, k, t, n)
    decreases n
  {
    if n > k + 1 { LateFromThen(h, src, k, t, n - 1); }
  }

  lemma LateTrack(h: Hunt, src: Value, k: nat, t: Moments, n: nat)
    requires LateLog(h, src, k, t) && k < n <= |h.events|
    ensures LateAt(h, src, k, t, n)
  {
    SecondStart(h, src, k, t);
    forall i | k < i < |h.events| && LateAt(h, src, k, t, i) ensures LateAt(h, src, k, t, i + 1) {
      LateStep(h, src, k, t, i);
    }
    LateFromThen(h, src, k, t, n);
  }

  lemma LateLogNeverCompletes(h: Hunt, src: Value, k: nat, t: Moments)
    requires LateLog(h, src, k, t)
    ensures !Found(h, src)
  {
    forall m | 0 <= m <= |h.events| ensures !CompleteAt(h, src, m) {
      if m <= k { EarlyTrack(h, src, k, t, m); } else { LateTrack(h, src, k, t, m); }
    }
  }

  function LateChain(k: nat, m: nat): seq<nat> {
    seq(m, j requires 0 <= j < m => j + k)
  }

  lemma LateChainIsTimely(h: Hunt, src: Value, k: nat, t: Moments)
    requires LateLog(h, src, k, t)
    ensures TimelyChain(h, src, LateChain(k, |h.q.steps|))
  {
    var m := |h.q.steps|;
    var c := LateChain(k, m);
    forall j | 0 <= j < m ensures c[j] == j + k && SourceOf(h, c[j]) == Some(src) && StepMatches(h, j, c[j]) {
      assert MeetsOwnStep(h, k, j + k);
    }
    assert Embeds(h, src, c, |h.events|);
    forall j | 1 <= j < m ensures !TooSlow(h, TimeOf(h, c[0]), TimeOf(h, c[j])) {
      assert c[0] == k && c[j] == j + k;
    }
    forall i | 0 <= i < |h.events| ensures TimeOf(h, i) == Some(LateTime(k, t, i)) {}
    forall i, j | 0 <= i <= j < |h.events| ensures LateTime(k, t, i) <= LateTime(k, t, j) {}
  }

  // ---------------------------------------------------------------- when such a log exists

  /** `e` counts for `src`, and its time reads as `time`. */
  predicate EventAt(lib: Library, q: Sequence, src: Value, time: real, e: Value) {
    lib.epoch(Get(e, TIMESTAMP)) == Some(time)
    && if q.sameSource then src != Null && Get(e, SOURCE_IP) == src else src == Null
  }

  ghost predicate MetBy(lib: Library, q: Sequence, src: Value, time: real, j: nat, e: Value)
    requires j < |q.steps|
  {
    EventAt(lib, q, src, time, e) && SignalMatches(lib, q.steps[j], e)
  }

  ghost predicate MetAt(lib: Library, q: Sequence, src: Value, time: real, j: nat)
    requires j < |q.steps|
  {
    exists e :: MetBy(lib, q, src, time, j, e)
  }

  /** At that time, some event of `src` meets each step. */
  ghost predicate AllMetAt(lib: Library, q: Sequence, src: Value, time: real) {
    forall j :: 0 <= j < |q.steps| ==> MetAt(lib, q, src, time, j)
  }

  /** At that time, some event of `src` dodges each step that any event dodges. */
  ghost predicate AllDodgedAt(lib: Library, q: Sequence, src: Value, time: real) {
    forall k, e :: 0 < k < |q.steps| && Dodges(lib, q, k, e) ==>
      exists d :: EventAt(lib, q, src, time, d) && Dodges(lib, q, k, d)
  }

  /** One source whose events at three moments are as varied as the steps tell events apart. */
  ghost predicate Varied(lib: Library, q: Sequence, src: Value, t: Moments) {
    && q.within.Some? && Straddles(q.within.value, t)
    && AllMetAt(lib, q, src, t.first) && AllMetAt(lib, q, src, t.again) && AllMetAt(lib, q, src, t.late)
    && AllDodgedAt(lib, q, src, t.again)
  }

  ghost predicate MeetInTurn(lib: Library, q: Sequence, src: Value, time: real, es: seq<Value>) {
    |es| <= |q.steps| && forall j :: 0 <= j < |es| ==> MetBy(lib, q, src, time, j, es[j])
  }

  lemma {:induction false} OneEventEach(lib: Library, q: Sequence, src: Value, time: real, n: nat)
    returns (es: seq<Value>)
    requires AllMetAt(lib, q, src, time) && n <= |q.steps|
    ensures |es| == n && MeetInTurn(lib, q, src, time, es)
    decreases n
  {
    if n == 0 {
      es := [];
    } else {
      var front := OneEventEach(lib, q, src, time, n - 1);
      assert MetAt(lib, q, src, time, n - 1);
      var e :| MetBy(lib, q, src, time, n - 1, e);
      es := front + [e];
    }
  }

  /** The second start: an event that dodges step `k`; or any, where two steps remain after the second. */
  lemma ChooseStart(lib: Library, q: Sequence, src: Value, t: Moments) returns (k: nat, x: Value)
    requires Varied(lib, q, src, t) && 0 < |q.steps| && !StartsAnew(lib, q)
    ensures 1 <= k < |q.steps| && MetBy(lib, q, src, t.again, 0, x)
    ensures Dodges(lib, q, k, x) || (k == 1 && |q.steps| >= 3 && q.within.value > 0.0)
  {
    if j, e :| 0 < j < |q.steps| && Dodges(lib, q, j, e) {
      k := j;
      x :| EventAt(lib, q, src, t.again, x) && Dodges(lib, q, k, x);
    } else {
      k := 1;
      assert MetAt(lib, q, src, t.again, 0);
      x :| MetBy(lib, q, src, t.again, 0, x);
    }
  }

  function LateEvents(early: seq<Value>, x: Value, late: seq<Value>): seq<Value>
    requires |late| > 0
  {
    early + [x] + late[1..]
  }

  lemma LateEventIs(lib: Library, q: Sequence, src: Value, t: Moments, early: seq<Value>, x: Value,
                    late: seq<Value>, i: nat)
    requires 1 <= |early| < |late| == |q.steps| && i < |early| + |late|
    requires MeetInTurn(lib, q, src, t.first, early) && MetBy(lib, q, src, t.again, 0, x)
    requires MeetInTurn(lib, q, src, t.late, late)
    ensures var h, k := Hunt(lib, q, LateEvents(early, x, late)), |early|;
            && |h.events| == |late| + k && (i == k ==> h.events[i] == x)
            && SourceOf(h, i) == Some(src) && TimeOf(h, i) == Some(LateTime(k, t, i)) && MeetsOwnStep(h, k, i)
  {
    var k, events := |early|, LateEvents(early, x, late);
    if i < k {
      assert events[i] == early[i] && MetBy(lib, q, src, t.first, i, early[i]);
    } else if i > k {
      assert events[i] == late[i - k] && MetBy(lib, q, src, t.late, i - k, late[i - k]);
    }
  }

  lemma LateLogExists(lib: Library, q: Sequence, src: Value, t: Moments) returns (events: seq<Value>, k: nat)
    requires Varied(lib, q, src, t) && 0 < |q.steps| && !StartsAnew(lib, q)
    ensures LateLog(Hunt(lib, q, events), src, k, t)
  {
    var x;
    k, x := ChooseStart(lib, q, src, t);
    var early := OneEventEach(lib, q, src, t.first, k);
    var late := OneEventEach(lib, q, src, t.late, |q.steps|);
    events := LateEvents(early, x, late);
    var h := Hunt(lib, q, events);
    LateEventIs(lib, q, src, t, early, x, late, k);
    forall i | 0 <= i < |events|
      ensures SourceOf(h, i) == Some(src) && TimeOf(h, i) == Some(LateTime(k, t, i)) && MeetsOwnStep(h, k, i)
    {
      LateEventIs(lib, q, src, t, early, x, late, i);
    }
  }

  lemma StartsAnewSuffices(lib: Library, q: Sequence)
    requires 0 < |q.steps| && StartsAnew(lib, q)
    ensures MissesNothing(lib, q)
  {
    forall events, src, c | TimelyChain(Hunt(lib, q, events), src, c) ensures Found(Hunt(lib, q, events), src) {
      StartsAnewMissesNothing(Hunt(lib, q, events), src, c);
    }
  }

  /** Given one source with varied events at three moments, the machine finds every chain of every readable
      log exactly when the sequence starts anew. */
  lemma WindowMissesNothingIff(lib: Library, q: Sequence, src: Value, t: Moments)
    requires 0 < |q.steps| && Varied(lib, q, src, t)
    ensures MissesNothing(lib, q) <==> StartsAnew(lib, q)
  {
    if StartsAnew(lib, q) {
      StartsAnewSuffices(lib, q);
    } else {
      var events, k := LateLogExists(lib, q, src, t);
      LateChainIsTimely(Hunt(lib, q, events), src, k, t);
      LateLogNeverCompletes(Hunt(lib, q, events), src, k, t);
    }
  }

  // ---------------------------------------------------------------- steps that look at neither time nor source

  predicate LooksElsewhere(q: Sequence) {
    forall s, c :: s in q.steps && c in s.all ==> Split(c.field, '.')[0] !in {"@timestamp", "source"}
  }

  /** `at` writes the three moments so that they are read back. */
  ghost predicate ReadsClock(lib: Library, t: Moments, at: real -> Value) {
    forall r :: r in {t.first, t.again, t.late} ==> lib.epoch(at(r)) == Some(r)
  }

  const ATTACKER := Scalar("10.0.0.66")

  /** An event with its time and source replaced. */
  function Restamp(e: Value, time: Value): Value {
    Obj((if e.Obj? then e.fields else map[])["@timestamp" := time]["source" := Obj(map["ip" := ATTACKER])])
  }

  lemma RestampedTimeAndSource(e: Value, time: Value)
    ensures Get(Restamp(e, time), TIMESTAMP) == time && Get(Restamp(e, time), SOURCE_IP) == ATTACKER
  {
    var stamped := Restamp(e, time);
    assert TIMESTAMP[1..] == [] && SOURCE_IP[1..] == ["ip"] && ["ip"][1..] == [];
    assert Get(stamped, TIMESTAMP) == Get(stamped.fields["@timestamp"], []);
    assert Get(stamped, SOURCE_IP) == Get(stamped.fields["source"], ["ip"]) == Get(ATTACKER, []);
  }

  /** What steps that look elsewhere see does not change. */
  lemma RestampKeepsMatches(lib: Library, q: Sequence, e: Value, time: Value, j: nat)
    requires LooksElsewhere(q) && j < |q.steps|
    ensures SignalMatches(lib, q.steps[j], Restamp(e, time)) <==> SignalMatches(lib, q.steps[j], e)
  {
    var s := q.steps[j];
    assert s in q.steps;
    forall c | c in s.all ensures Field(Restamp(e, time), c.field) == Field(e, c.field) {
      var path := Split(c.field, '.');
      assert path[0] !in {"@timestamp", "source"};
    }
    forall c | c in s.all ensures ConditionMatches(lib, c, Restamp(e, time)) <==> ConditionMatches(lib, c, e) {}
  }

  function Attacker(q: Sequence): Value {
    if q.sameSource then ATTACKER else Null
  }

  ghost predicate Matchable(lib: Library, s: Signal) {
    exists e :: SignalMatches(lib, s, e)
  }

  /** Every step matches some event. */
  ghost predicate Possible(lib: Library, q: Sequence) {
    forall j :: 0 <= j < |q.steps| ==> Matchable(lib, q.steps[j])
  }

  lemma AllMetAnytime(lib: Library, q: Sequence, t: Moments, at: real -> Value, r: real)
    requires LooksElsewhere(q) && ReadsClock(lib, t, at) && Possible(lib, q) && r in {t.first, t.again, t.late}
    ensures AllMetAt(lib, q, Attacker(q), r) && AllDodgedAt(lib, q, Attacker(q), r)
  {
    forall j | 0 <= j < |q.steps| ensures MetAt(lib, q, Attacker(q), r, j) {
      assert Matchable(lib, q.steps[j]);
      var e :| SignalMatches(lib, q.steps[j], e);
      RestampedTimeAndSource(e, at(r));
      RestampKeepsMatches(lib, q, e, at(r), j);
      assert MetBy(lib, q, Attacker(q), r, j, Restamp(e, at(r)));
    }
    forall k, e | 0 < k < |q.steps| && Dodges(lib, q, k, e)
      ensures exists d :: EventAt(lib, q, Attacker(q), r, d) && Dodges(lib, q, k, d)
    {
      RestampedTimeAndSource(e, at(r));
      RestampKeepsMatches(lib, q, e, at(r), 0);
      RestampKeepsMatches(lib, q, e, at(r), k);
      assert Dodges(lib, q, k, Restamp(e, at(r)));
    }
  }

  lemma ChainMakesPossible(h: Hunt, src: Value, c: seq<nat>)
    requires FullEmbed(h, src, c)
    ensures Possible(h.lib, h.q)
  {
    forall j | 0 <= j < |h.q.steps| ensures Matchable(h.lib, h.q.steps[j]) {
      assert StepMatches(h, j, c[j]) && SignalMatches(h.lib, h.q.steps[j], h.events[c[j]]);
    }
  }

  lemma ImpossibleMissesNothing(lib: Library, q: Sequence)
    requires 0 < |q.steps|
    ensures Possible(lib, q) || MissesNothing(lib, q)
  {
    forall events, src, c | TimelyChain(Hunt(lib, q, events), src, c) ensures Possible(lib, q) {
      ChainMakesPossible(Hunt(lib, q, events), src, c);
    }
  }

  /** When no step looks at time or source, and three moments around the window can be read, nothing else
      is needed. */
  lemma PlainStepsMissNothingIff(lib: Library, q: Sequence, t: Moments, at: real -> Value)
    requires 0 < |q.steps| && q.within.Some? && Straddles(q.within.value, t)
    requires LooksElsewhere(q) && ReadsClock(lib, t, at)
    ensures MissesNothing(lib, q) <==> StartsAnew(lib, q) || !Possible(lib, q)
  {
    if Possible(lib, q) {
      AllMetAnytime(lib, q, t, at, t.first);
      AllMetAnytime(lib, q, t, at, t.again);
      AllMetAnytime(lib, q, t, at, t.late);
      WindowMissesNothingIff(lib, q, Attacker(q), t);
    } else {
      ImpossibleMissesNothing(lib, q);
    }
  }

  // ---------------------------------------------------------------- cases

  /** Steps that ask for one field each. */
  function NamedSteps(names: seq<string>, within: real): Sequence {
    Sequence(seq(|names|, i requires 0 <= i < |names| => StepNamed(names[i])), true, Some(within))
  }

  lemma NamedStepsLookElsewhere(names: seq<string>, within: real)
    ensures LooksElsewhere(NamedSteps(names, within))
  {
    assert ['k'] + "" == "k" && "k"[1..] == "" && Split("", '.') == [""] && Split("k", '.') == ["k"];
    var steps := NamedSteps(names, within).steps;
    forall s | s in steps ensures exists i :: 0 <= i < |names| && s == StepNamed(names[i]) {
      var i :| 0 <= i < |steps| && steps[i] == s;
      assert s == StepNamed(names[i]);
    }
  }

  lemma NamedStepsAreMet(lib: Library, names: seq<string>, within: real)
    ensures Possible(lib, NamedSteps(names, within))
  {
    var q := NamedSteps(names, within);
    forall j | 0 <= j < |q.steps| ensures Matchable(lib, q.steps[j]) {
      EventNamedMatches(lib, names[j], names[j], "");
      assert SignalMatches(lib, q.steps[j], EventNamed(names[j], ""));
    }
  }

  /** The start, five and twelve seconds on. */
  function SmallMoments(): Moments {
    Moments(Clock(0.0), Clock(5.0), Clock(12.0))
  }

  function SmallTimes(): real -> Value {
    r => Scalar(Stamp(if r == Clock(0.0) then "00" else if r == Clock(5.0) then "05" else "12"))
  }

  lemma SmallMomentsAreRead()
    ensures Straddles(10.0, SmallMoments()) && ReadsClock(SmallClock(), SmallMoments(), SmallTimes())
  {
    SmallClockReads();
  }

  lemma NamedStepsMissNothingIff(names: seq<string>)
    requires names != []
    ensures var q := NamedSteps(names, 10.0); MissesNothing(SmallClock(), q) <==> StartsAnew(SmallClock(), q)
  {
    NamedStepsLookElsewhere(names, 10.0);
    NamedStepsAreMet(SmallClock(), names, 10.0);
    SmallMomentsAreRead();
    PlainStepsMissNothingIff(SmallClock(), NamedSteps(names, 10.0), SmallMoments(), SmallTimes());
  }

  lemma ADodgesB(lib: Library)
    ensures !StartsAnew(lib, NamedSteps(["a", "b"], 10.0))
  {
    var two := NamedSteps(["a", "b"], 10.0);
    EventNamedMatches(lib, "a", "a", "");
    EventNamedMatches(lib, "b", "a", "");
    assert two.steps[0] == StepNamed("a") && two.steps[1] == StepNamed("b");
    assert Dodges(lib, two, 1, EventNamed("a", ""));
  }

  lemma ThreeTimesA(lib: Library)
    ensures !StartsAnew(lib, NamedSteps(["a", "a", "a"], 10.0))
    ensures StartsAnew(lib, NamedSteps(["a", "a", "a"], 0.0))
  {
    assert forall i :: 0 <= i < 3 ==> ["a", "a", "a"][i] == "a";
  }

  /** Steps a then b within ten seconds can miss a chain, and so can three times a; three times a within no
      time at all misses none. */
  lemma SmallCases()
    ensures !MissesNothing(SmallClock(), NamedSteps(["a", "b"], 10.0))
    ensures !MissesNothing(SmallClock(), NamedSteps(["a", "a", "a"], 10.0))
    ensures MissesNothing(SmallClock(), NamedSteps(["a", "a", "a"], 0.0))
  {
    ADodgesB(SmallClock());
    NamedStepsMissNothingIff(["a", "b"]);
    NamedStepsMissNothingIff(["a", "a", "a"]);
    ThreeTimesA(SmallClock());
    StartsAnewSuffices(SmallClock(), NamedSteps(["a", "a", "a"], 0.0));
  }
}
