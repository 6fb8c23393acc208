/** Single-event scoring of an objective (_eval_detect in rangefinder/scoring.py). */
module Scoring {
  import opened Prelude
  import opened Telemetry

  /** `first` is the position of the first event that fired, `signal` the signal whose label is shown. */
  datatype DetectResult = DetectResult(first: nat, signal: nat, matchCount: nat, sources: set<Value>)

  /** Some signal of the objective matches the event. */
  predicate Fires(lib: Library, detect: seq<Signal>, event: Value) {
    exists s :: s in detect && SignalMatches(lib, s, event)
  }

  /** The positions of the events that meet an objective. */
  function Firing(lib: Library, detect: seq<Signal>, events: seq<Value>): set<nat> {
    set i | 0 <= i < |events| && Fires(lib, detect, events[i])
  }

  lemma FiringOneMore(lib: Library, detect: seq<Signal>, events: seq<Value>, i: nat)
    requires i < |events|
    ensures Firing(lib, detect, events[..i + 1])
         == Firing(lib, detect, events[..i]) + (if Fires(lib, detect, events[i]) then {i} else {})
  {}

  predicate Truthy(v: Value) {
    match v
    case Null => false
    case Scalar(text) => text != ""
    case List(items) => items != []
    case Obj(fields) => fields != map[]
  }

  /** Signal number `k` is the first of the list to match. */
  predicate FirstSignal(lib: Library, detect: seq<Signal>, event: Value, k: nat) {
    && k < |detect| && SignalMatches(lib, detect[k], event)
    && forall j :: 0 <= j < k ==> !SignalMatches(lib, detect[j], event)
  }

  /** The inner loop: the first signal that matches one event. */
  method FindSignal(lib: Library, detect: seq<Signal>, event: Value) returns (k: Option<nat>)
    ensures k.None? <==> !Fires(lib, detect, event)
    ensures k.Some? ==> FirstSignal(lib, detect, event, k.value)
  {
    for j := 0 to |detect|
      invariant forall i :: 0 <= i < j ==> !SignalMatches(lib, detect[i], event)
    {
      if SignalMatches(lib, detect[j], event) {
        return Some(j);
      }
    }
    return None;
  }

  /** `d` describes the firing events `seen`: how many, the earliest, why, and from where. */
  ghost predicate Describes(lib: Library, detect: seq<Signal>, events: seq<Value>, seen: set<nat>, d: DetectResult)
    requires forall i :: i in seen ==> i < |events|
  {
    && d.matchCount == |seen|
    && d.first in seen && (forall i :: i in seen ==> d.first <= i)
    && FirstSignal(lib, detect, events[d.first], d.signal)
    && d.sources == SourcesOf(events, seen)
  }

  ghost function SourcesOf(events: seq<Value>, seen: set<nat>): set<Value>
    requires forall i :: i in seen ==> i < |events|
  {
    set i | i in seen && Truthy(Get(events[i], SOURCE_IP)) :: Get(events[i], SOURCE_IP)
  }

  /** The counters after event `i` fired through signal `k`. */
  function Record(r: Option<DetectResult>, i: nat, k: nat, ip: Value): DetectResult {
    var known := if r.Some? then r.value else DetectResult(i, k, 0, {});
    known.(matchCount := known.matchCount + 1,
           sources := if Truthy(ip) then known.sources + {ip} else known.sources)
  }

  ghost predicate Tally(lib: Library, detect: seq<Signal>, events: seq<Value>, seen: set<nat>, r: Option<DetectResult>)
    requires forall i :: i in seen ==> i < |events|
  {
    if r.Some? then Describes(lib, detect, events, seen, r.value) else seen == {}
  }

  /** One more firing event, after all those seen. */
  lemma RecordKeepsTally(lib: Library, detect: seq<Signal>, events: seq<Value>, seen: set<nat>,
                         r: Option<DetectResult>, i: nat, k: nat)
    requires i < |events| && forall j :: j in seen ==> j < i
    requires FirstSignal(lib, detect, events[i], k)
    requires Tally(lib, detect, events, seen, r)
    ensures Tally(lib, detect, events, seen + {i}, Some(Record(r, i, k, Get(events[i], SOURCE_IP))))
  {
    SourcesOneMore(events, seen, i);
    assert SourcesOf(events, {}) == {};
    var d := Record(r, i, k, Get(events[i], SOURCE_IP));
    assert i !in seen && |seen + {i}| == |seen| + 1;
    assert d.first == if r.Some? then r.value.first else i;
    assert d.sources == SourcesOf(events, seen + {i});
  }

  lemma SourcesOneMore(events: seq<Value>, seen: set<nat>, i: nat)
    requires i < |events| && forall j :: j in seen ==> j < |events|
    ensures var ip := Get(events[i], SOURCE_IP);
            SourcesOf(events, seen + {i}) == SourcesOf(events, seen) + (if Truthy(ip) then {ip} else {})
  {}

  /** Count the events that meet an objective, and report the first. */
  method EvalDetect(lib: Library, detect: seq<Signal>, events: seq<Value>) returns (r: Option<DetectResult>)
    ensures r.None? <==> Firing(lib, detect, events) == {}
    ensures r.Some? ==> Describes(lib, detect, events, Firing(lib, detect, events), r.value)
  {
    r := None;
    ghost var seen: set<nat> := {};
    for i := 0 to |events|
      invariant seen == Firing(lib, detect, events[..i]) && forall j :: j in seen ==> j < i
      invariant Tally(lib, detect, events, seen, r)
    {
      var k := FindSignal(lib, detect, events[i]);
      FiringOneMore(lib, detect, events, i);
      if k.Some? {
        RecordKeepsTally(lib, detect, events, seen, r, i, k.value);
        r := Some(Record(r, i, k.value, Get(events[i], SOURCE_IP)));
        seen := seen + {i};
      }
    }
    assert events[..|events|] == events;
  }
}
