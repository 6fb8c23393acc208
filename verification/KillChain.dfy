/** Ordered multi-event detection (_eval_sequence in rangefinder/scoring.py): a state machine per
    source over an interleaved log. */
module KillChain {
  import opened Prelude
  import opened Telemetry

  /** A log and the sequence looked for in it. */
  datatype Hunt = Hunt(lib: Library, q: Sequence, events: seq<Value>)

  /** Progress of one source: the next step, the time of the first, and the events used (by position). */
  datatype Progress = Progress(idx: nat, firstTs: Option<real>, chain: seq<nat>)

  const BLANK := Progress(0, None, [])

  /** The source an event counts for: None when it counts for none, Null for the single global one. */
  function SourceOf(h: Hunt, i: nat): Option<Value>
    requires i < |h.events|
  {
    if !h.q.sameSource then Some(Null)
    else
      var src := Get(h.events[i], SOURCE_IP);
      if src == Null then None else Some(src)
  }

  function TimeOf(h: Hunt, i: nat): Option<real>
    requires i < |h.events|
  {
    h.lib.epoch(Get(h.events[i], TIMESTAMP))
  }

  predicate StepMatches(h: Hunt, j: nat, i: nat)
    requires j < |h.q.steps| && i < |h.events|
  {
    SignalMatches(h.lib, h.q.steps[j], h.events[i])
  }

  predicate TooSlow(h: Hunt, first: Option<real>, ts: Option<real>) {
    h.q.within.Some? && first.Some? && ts.Some? && ts.value - first.value > h.q.within.value
  }

  /** What one event does to the progress of its source. */
  function Advance(h: Hunt, st: Progress, i: nat): Progress
    requires i < |h.events| && 0 < |h.q.steps|
  {
    var ts := TimeOf(h, i);
    if st.idx >= |h.q.steps| || !StepMatches(h, st.idx, i) then st
    else if st.idx > 0 && TooSlow(h, st.firstTs, ts) then
      if StepMatches(h, 0, i) then Progress(1, ts, [i]) else BLANK
    else Progress(st.idx + 1, if st.idx == 0 then ts else st.firstTs, st.chain + [i])
  }

  /** The progress of one source after `n` events, from its own events alone. */
  function Track(h: Hunt, src: Value, n: nat): Progress
    requires n <= |h.events| && 0 < |h.q.steps|
  {
    if n == 0 then BLANK
    else if SourceOf(h, n - 1) == Some(src) then Advance(h, Track(h, src, n - 1), n - 1)
    else Track(h, src, n - 1)
  }

  predicate CompleteAt(h: Hunt, src: Value, n: nat)
    requires n <= |h.events| && 0 < |h.q.steps|
  {
    Track(h, src, n).idx == |h.q.steps|
  }

  // ---------------------------------------------------------------- reference: ordered subsequences

  /** The events at positions `c` are, in order, matches of the first |c| steps, all by `src`. */
  ghost predicate Embeds(h: Hunt, src: Value, c: seq<nat>, n: nat)
    requires n <= |h.events|
  {
    && |c| <= |h.q.steps|
    && (forall j :: 0 <= j < |c| ==> c[j] < n && SourceOf(h, c[j]) == Some(src) && StepMatches(h, j, c[j]))
    && (forall j :: 1 <= j < |c| ==> c[j - 1] < c[j])
  }

  /** No later event of `c` is known to be more than the window after the first. */
  ghost predicate InWindow(h: Hunt, c: seq<nat>)
    requires forall j :: 0 <= j < |c| ==> c[j] < |h.events|
  {
    forall j :: 1 <= j < |c| ==> !TooSlow(h, TimeOf(h, c[0]), TimeOf(h, c[j]))
  }

  /** What a source's record claims: true matches in order, in the window, timed from the first. */
  ghost predicate RecordOk(h: Hunt, src: Value, st: Progress, n: nat)
    requires n <= |h.events|
  {
    && st.idx == |st.chain|
    && Embeds(h, src, st.chain, n) && InWindow(h, st.chain)
    && (st.idx > 0 ==> st.firstTs == TimeOf(h, st.chain[0]))
  }

  lemma ExtendRecord(h: Hunt, src: Value, st: Progress, i: nat, st': Progress)
    requires i < |h.events| && st.idx < |h.q.steps|
    requires RecordOk(h, src, st, i) && SourceOf(h, i) == Some(src) && StepMatches(h, st.idx, i)
    requires st.idx > 0 ==> !TooSlow(h, st.firstTs, TimeOf(h, i))
    requires st' == Progress(st.idx + 1, if st.idx == 0 then TimeOf(h, i) else st.firstTs, st.chain + [i])
    ensures RecordOk(h, src, st', i + 1)
  {
    var c := st'.chain;
    forall j | 0 <= j < |c| ensures c[j] < i + 1 && SourceOf(h, c[j]) == Some(src) && StepMatches(h, j, c[j]) {
      if j < |st.chain| { assert c[j] == st.chain[j]; }
    }
    forall j | 1 <= j < |c| ensures c[j - 1] < c[j] {
      if j < |st.chain| { assert st.chain[j - 1] < st.chain[j]; }
    }
    forall j | 1 <= j < |c| ensures !TooSlow(h, TimeOf(h, c[0]), TimeOf(h, c[j])) {
      if j < |st.chain| { assert c[j] == st.chain[j]; }
    }
  }

  lemma AdvanceIsSound(h: Hunt, src: Value, st: Progress, i: nat)
    requires i < |h.events| && 0 < |h.q.steps|
    requires RecordOk(h, src, st, i) && SourceOf(h, i) == Some(src)
    ensures RecordOk(h, src, Advance(h, st, i), i + 1)
  {
    if st.idx < |h.q.steps| && StepMatches(h, st.idx, i) {
      if st.idx > 0 && TooSlow(h, st.firstTs, TimeOf(h, i)) {
        if StepMatches(h, 0, i) { ExtendRecord(h, src, BLANK, i, Advance(h, st, i)); }
      } else {
        ExtendRecord(h, src, st, i, Advance(h, st, i));
      }
    }
  }

  /** What the machine has recorded is true, with or without a window. */
  lemma {:induction false} TrackIsSound(h: Hunt, src: Value, n: nat)
    requires n <= |h.events| && 0 < |h.q.steps|
    ensures RecordOk(h, src, Track(h, src, n), n)
  {
    if n > 0 {
      TrackIsSound(h, src, n - 1);
      if SourceOf(h, n - 1) == Some(src) { AdvanceIsSound(h, src, Track(h, src, n - 1), n - 1); }
    }
  }

  lemma EmbedFront(h: Hunt, src: Value, c: seq<nat>, n: nat)
    requires n <= |h.events| && Embeds(h, src, c, n) && |c| > 0
    ensures Embeds(h, src, c[..|c| - 1], c[|c| - 1])
    ensures Embeds(h, src, c, c[|c| - 1] + 1)
    decreases |c|
  {
    if |c| > 1 {
      var front := c[..|c| - 1];
      assert Embeds(h, src, front, n);
      EmbedFront(h, src, front, n);
    }
  }

  lemma AdvanceGrows(h: Hunt, st: Progress, i: nat)
    requires i < |h.events| && 0 < |h.q.steps| && h.q.within.None?
    ensures Advance(h, st, i).idx >= st.idx
    ensures st.idx < |h.q.steps| && StepMatches(h, st.idx, i) ==> Advance(h, st, i).idx == st.idx + 1
  {}

  /** Without a window progress is never lost, and is as far as any choice of events could get. */
  lemma {:induction false} TrackIsGreedy(h: Hunt, src: Value, n: nat, c: seq<nat>)
    requires n <= |h.events| && 0 < |h.q.steps| && h.q.within.None?
    requires Embeds(h, src, c, n)
    ensures |c| <= Track(h, src, n).idx
  {
    if |c| > 0 {
      var last := c[|c| - 1];
      EmbedFront(h, src, c, n);
      var st := Track(h, src, n - 1);
      AdvanceGrows(h, st, n - 1);
      if last < n - 1 {
        TrackIsGreedy(h, src, n - 1, c);
      } else {
        TrackIsGreedy(h, src, n - 1, c[..|c| - 1]);
        assert SourceOf(h, last) == Some(src) && StepMatches(h, |c| - 1, last);
        assert Track(h, src, n) == Advance(h, st, n - 1);
      }
    }
  }

  // ---------------------------------------------------------------- the machine over the whole log

  /** A completed sequence: who, and the positions of its events. */
  datatype Detection = Detection(source: Value, chain: seq<nat>)

  /** No source has completed within the first `n` events. */
  ghost predicate NoneComplete(h: Hunt, n: nat)
    requires n <= |h.events| && 0 < |h.q.steps|
  {
    forall src, m :: 0 <= m <= n ==> !CompleteAt(h, src, m)
  }

  /** Nothing, when no source completes; or a chain that completes its source, at the first event at which
      any does. */
  ghost predicate IsVerdict(h: Hunt, r: Option<Detection>)
    requires 0 < |h.q.steps|
  {
    match r
    case None => NoneComplete(h, |h.events|)
    case Some(d) =>
      && |d.chain| == |h.q.steps| && Embeds(h, d.source, d.chain, |h.events|) && InWindow(h, d.chain)
      && CompleteAt(h, d.source, d.chain[|h.q.steps| - 1] + 1) && NoneComplete(h, d.chain[|h.q.steps| - 1])
  }

  /** The machine stops at the first event that completes some source. */
  method EvalSequence(h: Hunt) returns (r: Option<Detection>)
    requires 0 < |h.q.steps|
    ensures IsVerdict(h, r)
  {
    var states: map<Value, Progress> := map[];
    for i := 0 to |h.events|
      invariant forall src :: Track(h, src, i) == (if src in states then states[src] else BLANK)
      invariant forall src :: src in states ==> states[src].idx < |h.q.steps|
      invariant NoneComplete(h, i)
    {
      var source := SourceOf(h, i);
      if source.Some? {
        var src := source.value;
        var st := Advance(h, if src in states then states[src] else BLANK, i);
        assert st == Track(h, src, i + 1);
        states := states[src := st];
        if st.idx == |h.q.steps| {
          CompletionUsesLastEvent(h, src, i);
          return Some(Detection(src, st.chain));
        }
      }
      forall s ensures Track(h, s, i + 1) == (if s in states then states[s] else BLANK) {}
    }
    r := None;
  }

  /** The event that completes a source is the last one of its chain. */
  lemma CompletionUsesLastEvent(h: Hunt, src: Value, i: nat)
    requires i < |h.events| && 0 < |h.q.steps| && SourceOf(h, i) == Some(src)
    requires !CompleteAt(h, src, i) && CompleteAt(h, src, i + 1)
    ensures RecordOk(h, src, Track(h, src, i + 1), |h.events|)
    ensures var c := Track(h, src, i + 1).chain; |c| == |h.q.steps| && c[|c| - 1] == i
  {
    TrackIsSound(h, src, i);
    TrackIsSound(h, src, i + 1);
  }

  // ---------------------------------------------------------------- what a verdict means

  ghost predicate FullEmbed(h: Hunt, src: Value, c: seq<nat>) {
    |c| == |h.q.steps| && Embeds(h, src, c, |h.events|)
  }

  /** Without a window, some source has completed within the first `n` events exactly when some
      source's events among them contain the steps as an ordered subsequence.  As this holds for every
      `n`, the machine stops at the earliest event at which any choice of events completes. */
  lemma MetIffSubsequence(h: Hunt, n: nat)
    requires n <= |h.events| && 0 < |h.q.steps| && h.q.within.None?
    ensures NoneComplete(h, n) <==> !exists src, c :: |c| == |h.q.steps| && Embeds(h, src, c, n)
  {
    forall src, c | |c| == |h.q.steps| && Embeds(h, src, c, n) ensures CompleteAt(h, src, n) {
      TrackIsGreedy(h, src, n, c);
      TrackIsSound(h, src, n);
    }
    forall src, m | 0 <= m <= n && CompleteAt(h, src, m)
      ensures exists c :: |c| == |h.q.steps| && Embeds(h, src, c, n)
    {
      TrackIsSound(h, src, m);
      assert Embeds(h, src, Track(h, src, m).chain, n);
    }
  }

  /** No event of `src` before position `a` matches the first step. */
  ghost predicate FirstAnchor(h: Hunt, src: Value, a: nat)
    requires a < |h.events| && 0 < |h.q.steps|
  {
    forall i :: 0 <= i < a && SourceOf(h, i) == Some(src) ==> !StepMatches(h, 0, i)
  }

  /** The events of `src` up to position `z` carry readable times, in log order. */
  ghost predicate Chronological(h: Hunt, src: Value, z: nat)
    requires z < |h.events|
  {
    && (forall i, j :: 0 <= i <= j <= z && SourceOf(h, i) == Some(src) && SourceOf(h, j) == Some(src) ==>
          TimeOf(h, i).Some? && TimeOf(h, j).Some? && TimeOf(h, i).value <= TimeOf(h, j).value)
  }

  lemma {:induction false} BlankBeforeAnchor(h: Hunt, src: Value, n: nat)
    requires n <= |h.events| && 0 < |h.q.steps|
    requires forall i :: 0 <= i < n && SourceOf(h, i) == Some(src) ==> !StepMatches(h, 0, i)
    ensures Track(h, src, n) == BLANK
  {
    if n > 0 { BlankBeforeAnchor(h, src, n - 1); }
  }

  /** Progress after `n` events is at least the part of `c` seen by then, on the clock of c[0]. */
  ghost predicate KeepsPace(h: Hunt, c: seq<nat>, st: Progress, n: nat)
    requires |c| > 0 && c[0] < |h.events|
  {
    && st.idx > 0 && st.firstTs == TimeOf(h, c[0])
    && forall j :: 0 <= j < |c| && c[j] < n ==> st.idx > j
  }

  lemma AdvanceKeepsPace(h: Hunt, src: Value, c: seq<nat>, st: Progress, n: nat)
    requires 0 < |h.q.steps| && FullEmbed(h, src, c) && InWindow(h, c)
    requires c[0] < n <= c[|c| - 1] && Chronological(h, src, c[|c| - 1])
    requires KeepsPace(h, c, st, n) && SourceOf(h, n) == Some(src)
    ensures KeepsPace(h, c, Advance(h, st, n), n + 1)
  {
    var z := |c| - 1;
    assert SourceOf(h, c[z]) == Some(src) && SourceOf(h, c[0]) == Some(src);
    assert !TooSlow(h, TimeOf(h, c[0]), TimeOf(h, c[z]));
    assert TimeOf(h, n).Some? && TimeOf(h, n).value <= TimeOf(h, c[z]).value;
    assert !TooSlow(h, st.firstTs, TimeOf(h, n));
    forall j | 0 <= j < |c| && c[j] < n + 1 ensures Advance(h, st, n).idx > j {
      if c[j] == n {
        assert StepMatches(h, j, n);
        if j > 0 { assert c[j - 1] < n; }
      }
    }
  }

  lemma PaceAtAnchor(h: Hunt, src: Value, c: seq<nat>)
    requires 0 < |h.q.steps| && FullEmbed(h, src, c) && FirstAnchor(h, src, c[0])
    ensures KeepsPace(h, c, Track(h, src, c[0] + 1), c[0] + 1)
  {
    BlankBeforeAnchor(h, src, c[0]);
    assert StepMatches(h, 0, c[0]) && SourceOf(h, c[0]) == Some(src);
    forall j | 0 <= j < |c| && c[j] < c[0] + 1 ensures j == 0 {
      EmbedFront(h, src, c[..j + 1], |h.events|);
    }
  }

  /** An event of another source changes nothing, and is no event of the chain. */
  lemma OthersKeepPace(h: Hunt, src: Value, c: seq<nat>, st: Progress, n: nat)
    requires FullEmbed(h, src, c) && n < |h.events| && SourceOf(h, n) != Some(src)
    requires |c| > 0 && KeepsPace(h, c, st, n)
    ensures KeepsPace(h, c, st, n + 1)
  {
    forall j | 0 <= j < |c| ensures c[j] != n {
      assert SourceOf(h, c[j]) == Some(src);
    }
  }

  lemma {:induction false} TrackKeepsPace(h: Hunt, src: Value, c: seq<nat>, n: nat)
    requires 0 < |h.q.steps| && FullEmbed(h, src, c) && InWindow(h, c)
    requires c[0] < n <= c[|c| - 1] + 1 && Chronological(h, src, c[|c| - 1])
    requires KeepsPace(h, c, Track(h, src, c[0] + 1), c[0] + 1)
    ensures KeepsPace(h, c, Track(h, src, n), n)
    decreases n
  {
    if n > c[0] + 1 {
      TrackKeepsPace(h, src, c, n - 1);
      var st := Track(h, src, n - 1);
      if SourceOf(h, n - 1) == Some(src) {
        AdvanceKeepsPace(h, src, c, st, n - 1);
      } else {
        OthersKeepPace(h, src, c, st, n - 1);
      }
    }
  }

  /** A chain in the window that the machine starts with is found in time. */
  lemma PaceCompletes(h: Hunt, src: Value, c: seq<nat>)
    requires 0 < |h.q.steps| && FullEmbed(h, src, c) && InWindow(h, c)
    requires Chronological(h, src, c[|c| - 1]) && KeepsPace(h, c, Track(h, src, c[0] + 1), c[0] + 1)
    ensures CompleteAt(h, src, c[|c| - 1] + 1)
  {
    var n := c[|c| - 1] + 1;
    EmbedFront(h, src, c, |h.events|);
    if |c| > 1 { assert c[0] == c[..|c| - 1][0]; }
    TrackKeepsPace(h, src, c, n);
    TrackIsSound(h, src, n);
  }

  /** With a window: a chain in the window is found in time provided it starts at the first event of
      its source that could start one, and the times of that source are readable and in log order. */
  lemma MetInWindow(h: Hunt, src: Value, c: seq<nat>)
    requires 0 < |h.q.steps| && FullEmbed(h, src, c) && InWindow(h, c)
    requires FirstAnchor(h, src, c[0]) && Chronological(h, src, c[|c| - 1])
    ensures exists m :: 0 <= m <= c[|c| - 1] + 1 && CompleteAt(h, src, m)
  {
    PaceAtAnchor(h, src, c);
    PaceCompletes(h, src, c);
  }

  // ---------------------------------------------------------------- where the window loses a chain

  function StepNamed(k: string): Signal {
    Signal(None, [Condition("k", Some(k), None, None)])
  }

  function EventNamed(k: string, time: string): Value {
    Obj(map["k" := Scalar(k), "@timestamp" := Scalar(time)])
  }

  /** So many seconds after ten o'clock, as a log writes it. */
  function Stamp(seconds: string): string {
    "2024-05-01T10:00:" + seconds + "Z"
  }

  /** The same time, as it is read. */
  function Clock(seconds: real): real {
    1714557600.0 + seconds
  }

  /** A library that reads three times of that minute. */
  function SmallClock(): Library {
    Library(v => "", s => s, (p, s) => false,
            v => if v == Scalar(Stamp("00")) then Some(Clock(0.0))
                 else if v == Scalar(Stamp("05")) then Some(Clock(5.0))
                 else if v == Scalar(Stamp("12")) then Some(Clock(12.0)) else None)
  }

  lemma SmallClockReads()
    ensures var read := SmallClock().epoch;
            && read(Scalar(Stamp("00"))) == Some(Clock(0.0)) && read(Scalar(Stamp("05"))) == Some(Clock(5.0))
            && read(Scalar(Stamp("12"))) == Some(Clock(12.0))
  {
    assert Stamp("00")[17..19] == "00" && Stamp("05")[17..19] == "05" && Stamp("12")[17..19] == "12";
    assert "00"[1] != "05"[1] && "00"[0] != "12"[0] && "05"[0] != "12"[0];
  }

  /** Steps a then b within ten seconds; the log has a at 0, a at 5 and b at 12 seconds. */
  function LateRestart(): Hunt {
    Hunt(SmallClock(), Sequence([StepNamed("a"), StepNamed("b")], false, Some(10.0)),
         [EventNamed("a", Stamp("00")), EventNamed("a", Stamp("05")), EventNamed("b", Stamp("12"))])
  }

  lemma EventNamedMatches(lib: Library, k: string, k': string, time: string)
    ensures SignalMatches(lib, StepNamed(k), EventNamed(k', time)) <==> k == k'
  {
    assert "k"[1..] == "" && Split("", '.') == [""];
    assert ['k'] + "" == "k";
    assert Split("k", '.') == ["k"];
    assert ["k"][1..] == [];
    var e := EventNamed(k', time);
    assert e.fields["k"] == Scalar(k');
    assert Get(Scalar(k'), []) == Scalar(k');
    assert Get(e, ["k"]) == Get(e.fields["k"], ["k"][1..]);
    assert Field(e, "k") == Scalar(k');
    assert Candidates(Scalar(k')) == [Scalar(k')];
    assert Scalar(k') in Candidates(Scalar(k'));
    var c := StepNamed(k).all[0];
    assert ConditionMatches(lib, c, e) <==> k == k';
    assert StepNamed(k).all == [c];
  }

  /** The machine keeps the first a as its anchor, so the chain from the second a is missed: with a
      window, completeness needs the chain to start at the first anchor. */
  lemma WindowMissesLaterStart()
    ensures var h := LateRestart();
            && FullEmbed(h, Null, [1, 2]) && InWindow(h, [1, 2])
            && NoneComplete(h, |h.events|)
  {
    var h := LateRestart();
    LateRestartFacts();
    LateRestartAdvances(h);
    forall src, m | 0 <= m <= 3 ensures !CompleteAt(h, src, m) {
      LateRestartTrack(h, src);
    }
  }

  /** What the three events are: two of the first step, one of the second, at 0, 5 and 12. */
  ghost predicate IsLateRestart(h: Hunt) {
    && |h.events| == 3 && |h.q.steps| == 2 && h.q.within == Some(10.0)
    && (forall i :: 0 <= i < 3 ==> SourceOf(h, i) == Some(Null))
    && TimeOf(h, 0) == Some(Clock(0.0)) && TimeOf(h, 1) == Some(Clock(5.0)) && TimeOf(h, 2) == Some(Clock(12.0))
    && StepMatches(h, 0, 0) && StepMatches(h, 0, 1) && !StepMatches(h, 0, 2)
    && !StepMatches(h, 1, 1) && StepMatches(h, 1, 2)
  }

  lemma EventNamedTime(k: string, time: string)
    ensures Get(EventNamed(k, time), TIMESTAMP) == Scalar(time)
  {
    var e := EventNamed(k, time);
    assert TIMESTAMP[1..] == [] && Get(e, TIMESTAMP) == Get(e.fields["@timestamp"], []);
  }

  lemma LateRestartTimes()
    ensures var h := LateRestart();
            && (forall i :: 0 <= i < 3 ==> SourceOf(h, i) == Some(Null))
            && TimeOf(h, 0) == Some(Clock(0.0)) && TimeOf(h, 1) == Some(Clock(5.0)) && TimeOf(h, 2) == Some(Clock(12.0))
  {
    EventNamedTime("a", Stamp("00"));
    EventNamedTime("a", Stamp("05"));
    EventNamedTime("b", Stamp("12"));
    SmallClockReads();
  }

  lemma LateRestartFacts()
    ensures IsLateRestart(LateRestart())
  {
    var h := LateRestart();
    LateRestartTimes();
    EventNamedMatches(h.lib, "a", "a", Stamp("00"));
    EventNamedMatches(h.lib, "a", "a", Stamp("05"));
    EventNamedMatches(h.lib, "a", "b", Stamp("12"));
    EventNamedMatches(h.lib, "b", "a", Stamp("05"));
    EventNamedMatches(h.lib, "b", "b", Stamp("12"));
  }

  lemma LateRestartAdvances(h: Hunt)
    requires IsLateRestart(h)
    ensures Advance(h, BLANK, 0) == Progress(1, Some(Clock(0.0)), [0])
    ensures Advance(h, Progress(1, Some(Clock(0.0)), [0]), 1) == Progress(1, Some(Clock(0.0)), [0])
    ensures Advance(h, Progress(1, Some(Clock(0.0)), [0]), 2) == BLANK
    ensures FullEmbed(h, Null, [1, 2]) && InWindow(h, [1, 2])
  {}

  lemma LateRestartTrack(h: Hunt, src: Value)
    requires |h.events| == 3 && |h.q.steps| == 2
    requires forall i :: 0 <= i < 3 ==> SourceOf(h, i) == Some(Null)
    requires Advance(h, BLANK, 0).idx == 1
    requires Advance(h, Advance(h, BLANK, 0), 1) == Advance(h, BLANK, 0)
    requires Advance(h, Advance(h, BLANK, 0), 2) == BLANK
    ensures forall m :: 0 <= m <= 3 ==> Track(h, src, m).idx < 2
  {
    var t0, t1, t2, t3 := Track(h, src, 0), Track(h, src, 1), Track(h, src, 2), Track(h, src, 3);
    if src == Null {
      assert t1 == Advance(h, BLANK, 0);
      assert t2 == t1 && t3 == BLANK;
    } else {
      assert t0 == t1 == t2 == t3 == BLANK;
    }
    forall m | 0 <= m <= 3 ensures Track(h, src, m).idx < 2 {
      assert m == 0 || m == 1 || m == 2 || m == 3;
    }
  }
}
