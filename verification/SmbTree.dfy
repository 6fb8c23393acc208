/** What a share holds and in which order a walk meets it (_walk in rangefinder/capture/smb.py). */
module SmbTree {
  import opened Prelude

  /** The bytes of a file, or the error the server answers to reading it. */
  datatype Data = Bytes(bytes: seq<nat>) | ReadError(denied: bool)

  datatype Node = File(name: string, size: nat, data: Data) | Dir(name: string, listing: Listing)

  datatype Listing = Items(nodes: seq<Node>) | ListError(denied: bool)

  type Path = seq<string>

  datatype Content = Omitted(size: nat) | Kept(bytes: seq<nat>)

  /** A file that is captured if there is room, or the error that ends the walk; `taken` when room for a
      file has been used by then. */
  datatype Event = Found(path: Path, content: Content) | Failed(denied: bool, taken: bool)

  predicate IsDots(n: Node) {
    n.name == "." || n.name == ".."
  }

  function EventsOfFile(f: Node, dir: Path, maxSize: nat): Event
    requires f.File?
  {
    if f.size > maxSize then Found(dir + [f.name], Omitted(f.size))
    else
      match f.data
      case Bytes(b) => Found(dir + [f.name], Kept(b))
      case ReadError(denied) => Failed(denied, true)
  }

  /** Depth first, in the order of the listings. */
  function Events(listing: Listing, dir: Path, maxSize: nat): seq<Event>
    decreases listing, 0
  {
    match listing
    case ListError(denied) => [Failed(denied, false)]
    case Items(nodes) => EventsOf(nodes, dir, maxSize)
  }

  function EventsOf(nodes: seq<Node>, dir: Path, maxSize: nat): seq<Event>
    decreases nodes, 0
  {
    if nodes == [] then [] else EventsAt(nodes[0], dir, maxSize) + EventsOf(nodes[1..], dir, maxSize)
  }

  function EventsAt(n: Node, dir: Path, maxSize: nat): seq<Event>
    decreases n, 1
  {
    if IsDots(n) then []
    else
      match n
      case File(_, _, _) => [EventsOfFile(n, dir, maxSize)]
      case Dir(name, listing) => Events(listing, dir + [name], maxSize)
  }

  /** The files before the first error. */
  function Good(events: seq<Event>): (good: seq<Event>)
    ensures |good| <= |events| && good == events[..|good|]
    ensures forall e :: e in good ==> e.Found?
  {
    if events == [] || events[0].Failed? then [] else [events[0]] + Good(events[1..])
  }

  function FirstFailure(events: seq<Event>): (r: Option<Event>)
    ensures r.Some? ==> r.value.Failed?
  {
    if events == [] then None
    else if events[0].Failed? then Some(events[0])
    else FirstFailure(events[1..])
  }

  function Min(a: nat, b: nat): nat {
    if a <= b then a else b
  }

  /** The files captured with room for `room` of them. */
  function Captured(events: seq<Event>, room: nat): (files: seq<Event>)
    ensures forall e :: e in files ==> e.Found?
  {
    Good(events)[..Min(|Good(events)|, room)]
  }

  /** A read that fails has used the room for its file. */
  function Wasted(events: seq<Event>, room: nat): nat {
    if |Good(events)| < room && FirstFailure(events).Some? && FirstFailure(events).value.taken then 1 else 0
  }

  /** The room a walk uses up. */
  function Uses(events: seq<Event>, room: nat): (used: nat)
    ensures used <= room
  {
    Min(|Good(events)|, room) + Wasted(events, room)
  }

  /** The error met by a walk with no room at all: it still lists down to the first entry. */
  function FirstVisit(listing: Listing): Option<bool> {
    match listing
    case ListError(denied) => Some(denied)
    case Items(nodes) => FirstVisitOf(nodes)
  }

  function FirstVisitOf(nodes: seq<Node>): Option<bool> {
    if nodes == [] then None
    else if IsDots(nodes[0]) then FirstVisitOf(nodes[1..])
    else
      match nodes[0]
      case File(_, _, _) => None
      case Dir(_, listing) => FirstVisit(listing)
  }

  /** The error met after the last file there is room for: the walk goes on in the directory of that file
      until an entry stops it, and a directory that comes next is still listed. */
  function Next(listing: Listing, dir: Path, maxSize: nat, room: nat): Option<bool>
    decreases listing, 0
  {
    match listing
    case ListError(denied) => Some(denied)
    case Items(nodes) => NextOf(nodes, dir, maxSize, room)
  }

  function NextOf(nodes: seq<Node>, dir: Path, maxSize: nat, room: nat): Option<bool>
    decreases nodes, 0
  {
    if nodes == [] then None
    else if room == 0 then FirstVisitOf(nodes)
    else
      var n := |Good(EventsAt(nodes[0], dir, maxSize))|;
      if n < room then NextOf(nodes[1..], dir, maxSize, room - n)
      else if nodes[0].Dir? then Next(nodes[0].listing, dir + [nodes[0].name], maxSize, room)
      else FirstVisitOf(nodes[1..])
  }

  /** The error a walk ends in: the first there is, when there is room to reach it. */
  function Denial(listing: Listing, dir: Path, maxSize: nat, room: nat): Option<bool> {
    var events := Events(listing, dir, maxSize);
    if room <= |Good(events)| then Next(listing, dir, maxSize, room)
    else if FirstFailure(events).None? then None
    else Some(FirstFailure(events).value.denied)
  }

  // ---------------------------------------------------------------- the files as a mapping

  type Files = map<Path, Content>

  function Add(files: Files, found: seq<Event>): Files
    requires forall e :: e in found ==> e.Found?
  {
    if found == [] then files
    else Add(files, found[..|found| - 1])[found[|found| - 1].path := found[|found| - 1].content]
  }

  lemma {:induction false} AddAppend(files: Files, a: seq<Event>, b: seq<Event>)
    requires forall e :: e in a + b ==> e.Found?
    ensures (forall e :: e in a ==> e.Found?) && (forall e :: e in b ==> e.Found?)
    ensures Add(files, a + b) == Add(Add(files, a), b)
    decreases |b|
  {
    assert forall e :: e in a ==> e in a + b;
    assert forall e :: e in b ==> e in a + b;
    if b == [] {
      assert a + b == a;
    } else {
      assert (a + b)[..|a + b| - 1] == a + b[..|b| - 1];
      AddAppend(files, a, b[..|b| - 1]);
    }
  }

  lemma {:induction false} GoodAppend(a: seq<Event>, b: seq<Event>)
    ensures FirstFailure(a).Some? ==> Good(a + b) == Good(a) && FirstFailure(a + b) == FirstFailure(a)
    ensures FirstFailure(a).None? ==>
              Good(a) == a && Good(a + b) == a + Good(b) && FirstFailure(a + b) == FirstFailure(b)
    decreases |a|
  {
    if a == [] {
      assert a + b == b && [] + Good(b) == Good(b);
    } else {
      assert (a + b)[1..] == a[1..] + b;
      GoodAppend(a[1..], b);
      assert FirstFailure(a).None? ==> [a[0]] + a[1..] == a;
    }
  }

  // ---------------------------------------------------------------- what the events list

  predicate Under(path: Path, dir: Path) {
    |dir| <= |path| && path[..|dir|] == dir
  }

  /** Following `path` down from the listing leads to a file with that content. */
  predicate InTree(listing: Listing, path: Path, content: Content, maxSize: nat)
    decreases |path|, 1
  {
    listing.Items? && exists n :: n in listing.nodes && AtNode(n, path, content, maxSize)
  }

  predicate AtNode(n: Node, path: Path, content: Content, maxSize: nat)
    decreases |path|, 0
  {
    !IsDots(n) && path != [] && path[0] == n.name &&
    match n
    case File(name, _, _) => |path| == 1 && EventsOfFile(n, [], maxSize) == Found([name], content)
    case Dir(_, listing) => |path| > 1 && InTree(listing, path[1..], content, maxSize)
  }

  /** The walk's order lists the files of the tree and nothing else. */
  lemma {:induction false} EventsAreTheFiles(listing: Listing, dir: Path, path: Path, content: Content, maxSize: nat)
    ensures Found(path, content) in Events(listing, dir, maxSize) <==>
            Under(path, dir) && InTree(listing, path[|dir|..], content, maxSize)
    decreases listing, 0
  {
    if listing.Items? { EventsOfAreTheFiles(listing.nodes, dir, path, content, maxSize); }
  }

  lemma {:induction false} EventsOfAreTheFiles(nodes: seq<Node>, dir: Path, path: Path, content: Content, maxSize: nat)
    ensures Found(path, content) in EventsOf(nodes, dir, maxSize) <==>
            Under(path, dir) && exists n :: n in nodes && AtNode(n, path[|dir|..], content, maxSize)
    decreases nodes, 0
  {
    if nodes != [] {
      EventsAtAreTheFiles(nodes[0], dir, path, content, maxSize);
      EventsOfAreTheFiles(nodes[1..], dir, path, content, maxSize);
      assert nodes == [nodes[0]] + nodes[1..];
      if Under(path, dir) {
        var down := path[|dir|..];
        assert (exists n :: n in nodes && AtNode(n, down, content, maxSize)) <==>
               AtNode(nodes[0], down, content, maxSize)
               || exists n :: n in nodes[1..] && AtNode(n, down, content, maxSize);
      }
    }
  }

  lemma {:induction false} EventsAtAreTheFiles(n: Node, dir: Path, path: Path, content: Content, maxSize: nat)
    ensures Found(path, content) in EventsAt(n, dir, maxSize) <==>
            Under(path, dir) && AtNode(n, path[|dir|..], content, maxSize)
    decreases n, 1
  {
    if !IsDots(n) {
      StepDown(path, dir, n.name);
      match n
      case File(name, _, _) =>
        assert Under(path, dir) && |path[|dir|..]| == 1 && path[|dir|..][0] == name <==> path == dir + [name];
      case Dir(name, listing) =>
        EventsAreTheFiles(listing, dir + [name], path, content, maxSize);
    }
  }

  lemma StepDown(path: Path, dir: Path, name: string)
    ensures Under(path, dir + [name]) <==> Under(path, dir) && path[|dir|..] != [] && path[|dir|..][0] == name
    ensures Under(path, dir + [name]) ==> path[|dir + [name]|..] == path[|dir|..][1..]
  {
    if |path| > |dir| { assert path[..|dir| + 1] == path[..|dir|] + [path[|dir|]]; }
    if Under(path, dir + [name]) { NameOnPath(path, dir, name); }
  }

  // ---------------------------------------------------------------- distinct paths

  /** No directory lists a name twice. */
  ghost predicate Tidy(listing: Listing)
    decreases listing, 0
  {
    listing.Items? ==> TidyNodes(listing.nodes)
  }

  ghost predicate TidyNodes(nodes: seq<Node>)
    decreases nodes, 0
  {
    && (forall i, j :: 0 <= i < j < |nodes| ==> nodes[i].name != nodes[j].name)
    && (forall i :: 0 <= i < |nodes| && nodes[i].Dir? ==> Tidy(nodes[i].listing))
  }

  /** The paths found are distinct and lie under `dir`. */
  ghost predicate Distinct(events: seq<Event>, dir: Path) {
    && (forall i :: 0 <= i < |events| && events[i].Found? ==> Under(events[i].path, dir))
    && (forall i, j :: 0 <= i < j < |events| && events[i].Found? && events[j].Found? ==>
          events[i].path != events[j].path)
  }

  lemma {:induction false} EventsAreDistinct(listing: Listing, dir: Path, maxSize: nat)
    requires Tidy(listing)
    ensures Distinct(Events(listing, dir, maxSize), dir)
    decreases listing, 0
  {
    if listing.Items? { EventsOfAreDistinct(listing.nodes, dir, maxSize); }
  }

  /** Every path among these events goes through one of these nodes. */
  ghost predicate Through(events: seq<Event>, dir: Path, nodes: seq<Node>) {
    forall i :: 0 <= i < |events| && events[i].Found? ==>
      |events[i].path| > |dir| && exists n :: n in nodes && n.name == events[i].path[|dir|]
  }

  lemma {:induction false} EventsOfAreDistinct(nodes: seq<Node>, dir: Path, maxSize: nat)
    requires TidyNodes(nodes)
    ensures Distinct(EventsOf(nodes, dir, maxSize), dir) && Through(EventsOf(nodes, dir, maxSize), dir, nodes)
    decreases nodes, 0
  {
    if nodes != [] {
      var n, rest := nodes[0], nodes[1..];
      EventsAtAreDistinct(n, dir, maxSize);
      EventsOfAreDistinct(rest, dir, maxSize);
      BothDistinct(EventsAt(n, dir, maxSize), EventsOf(rest, dir, maxSize), dir, n, rest);
      assert [n] + rest == nodes;
    }
  }

  lemma {:induction false} EventsAtAreDistinct(n: Node, dir: Path, maxSize: nat)
    requires n.Dir? ==> Tidy(n.listing)
    ensures Distinct(EventsAt(n, dir, maxSize), dir + [n.name])
    decreases n, 1
  {
    if !IsDots(n) && n.Dir? { EventsAreDistinct(n.listing, dir + [n.name], maxSize); }
  }

  lemma NameOnPath(path: Path, dir: Path, name: string)
    requires Under(path, dir + [name])
    ensures Under(path, dir) && |path| > |dir| && path[|dir|] == name
  {
    assert path[..|dir|] == path[..|dir| + 1][..|dir|];
    assert path[|dir|] == path[..|dir| + 1][|dir|];
  }

  lemma BothDistinct(a: seq<Event>, b: seq<Event>, dir: Path, n: Node, rest: seq<Node>)
    requires Distinct(a, dir + [n.name]) && Distinct(b, dir) && Through(b, dir, rest)
    requires forall m :: m in rest ==> m.name != n.name
    ensures Distinct(a + b, dir) && Through(a + b, dir, [n] + rest)
  {
    forall i | 0 <= i < |a| && a[i].Found?
      ensures Under(a[i].path, dir) && |a[i].path| > |dir| && a[i].path[|dir|] == n.name
    {
      NameOnPath(a[i].path, dir, n.name);
    }
    assert n in [n] + rest;
    assert forall m :: m in rest ==> m in [n] + rest;
  }

  predicate HasPath(found: seq<Event>, path: Path) {
    exists i :: 0 <= i < |found| && found[i].Found? && found[i].path == path
  }

  lemma {:induction false} AddKeys(found: seq<Event>)
    requires forall e :: e in found ==> e.Found?
    ensures forall p :: p in Add(map[], found) ==> HasPath(found, p)
    decreases |found|
  {
    if found != [] {
      var most := found[..|found| - 1];
      AddKeys(most);
      assert HasPath(found, found[|found| - 1].path);
      forall p | HasPath(most, p) ensures HasPath(found, p) {
        var i :| 0 <= i < |most| && most[i].Found? && most[i].path == p;
        assert found[i].path == p;
      }
    }
  }

  /** Distinct paths give one entry each. */
  lemma {:induction false} AddDistinct(found: seq<Event>, dir: Path)
    requires Distinct(found, dir) && forall e :: e in found ==> e.Found?
    ensures |Add(map[], found)| == |found|
    decreases |found|
  {
    if found != [] {
      var most, last := found[..|found| - 1], found[|found| - 1];
      AddDistinct(most, dir);
      AddKeys(most);
      assert !HasPath(most, last.path);
      OneMore(Add(map[], most), last.path, last.content);
    }
  }

  lemma OneMore(files: Files, path: Path, content: Content)
    requires path !in files
    ensures |files[path := content]| == |files| + 1
  {
    assert files[path := content].Keys == files.Keys + {path};
  }

  /** A tidy share gives as many files as it captures. */
  lemma OneFileEach(listing: Listing, maxSize: nat, room: nat)
    requires Tidy(listing)
    ensures var captured := Captured(Events(listing, [], maxSize), room);
            |Add(map[], captured)| == |captured|
  {
    var events := Events(listing, [], maxSize);
    var captured := Captured(events, room);
    EventsAreDistinct(listing, [], maxSize);
    assert forall i :: 0 <= i < |captured| ==> captured[i] == events[i];
    AddDistinct(captured, []);
  }
}
