/** Telemetry events and the field predicates evaluated over them (rangefinder/scoring.py and the
    Condition, Signal and Sequence shapes of rangefinder/config/model.py). */
module Telemetry {
  import opened Prelude

  /** A parsed JSON value; `Scalar` carries its printed form. */
  datatype Value = Null | Scalar(text: string) | List(items: seq<Value>) | Obj(fields: map<string, Value>)

  /** Library behaviour the model does not look inside: printing a nested value, str.lower, the
      regular expression search (pattern first), and reading a timestamp. */
  datatype Library = Library(repr: Value -> string, lower: string -> string, search: (string, string) -> bool,
                             epoch: Value -> Option<real>)

  function Str(lib: Library, v: Value): string {
    if v.Scalar? then v.text else lib.repr(v)
  }

  /** Walk a path of keys; Null stands for a missing field as well as a null one. */
  function Get(v: Value, path: seq<string>): Value {
    if path == [] then v
    else if v.Obj? && path[0] in v.fields then Get(v.fields[path[0]], path[1..])
    else Null
  }

  function Field(event: Value, dotted: string): Value {
    Get(event, Split(dotted, '.'))
  }

  const SOURCE_IP: seq<string> := ["source", "ip"]
  const TIMESTAMP: seq<string> := ["@timestamp"]

  function Candidates(v: Value): seq<Value> {
    if v.List? then v.items else [v]
  }

  predicate Contains(text: string, piece: string) {
    exists i :: 0 <= i <= |text| && Occurs(text, piece, i)
  }

  datatype Condition = Condition(field: string, equals: Option<string>, contains: Option<string>, regex: Option<string>)

  /** The schema insists on at least one matcher. */
  predicate HasMatcher(c: Condition) {
    c.equals.Some? || c.contains.Some? || c.regex.Some?
  }

  predicate TextMatches(lib: Library, c: Condition, s: string) {
    || (c.equals.Some? && s == c.equals.value)
    || (c.contains.Some? && Contains(lib.lower(s), lib.lower(c.contains.value)))
    || (c.regex.Some? && lib.search(c.regex.value, s))
  }

  predicate ConditionMatches(lib: Library, c: Condition, event: Value) {
    var value := Field(event, c.field);
    value != Null && exists v :: v in Candidates(value) && TextMatches(lib, c, Str(lib, v))
  }

  datatype Signal = Signal(caption: Option<string>, all: seq<Condition>)

  predicate SignalMatches(lib: Library, s: Signal, event: Value) {
    forall c :: c in s.all ==> ConditionMatches(lib, c, event)
  }

  datatype Sequence = Sequence(steps: seq<Signal>, sameSource: bool, within: Option<real>)
}
