/** The budgeted walk over the shares of a server (rangefinder/capture/smb.py). */
module SmbCapture {
  import opened Prelude
  import opened SmbTree

  function Room(limit: int, used: nat): nat {
    if used >= limit then 0 else limit - used
  }

  /** What the two budgets of a walk show: limits, and files taken so far. */
  datatype Meter = Meter(shareLimit: int, shareUsed: nat, overallLimit: int, overallUsed: nat) {
    function Left(): nat {
      Min(Room(shareLimit, shareUsed), Room(overallLimit, overallUsed))
    }

    function Spend(n: nat): Meter {
      Meter(shareLimit, shareUsed + n, overallLimit, overallUsed + n)
    }
  }

  class Budget {
    const limit: int
    var used: nat

    constructor (limit: int)
      ensures this.limit == limit && used == 0
    {
      this.limit, used := limit, 0;
    }

    function Left(): nat
      reads this`used
    {
      Room(limit, used)
    }

    method Take() returns (taken: bool)
      modifies this`used
      ensures taken <==> old(Left()) > 0
      ensures used == old(used) + if taken then 1 else 0
    {
      if used >= limit { return false; }
      used := used + 1;
      taken := true;
    }

    method Exhausted() returns (none: bool)
      ensures none <==> Left() == 0
    {
      none := used >= limit;
    }
  }

  /** A file needs room in the budget of its share and in the overall one. */
  class Pair {
    const perShare: Budget
    const overall: Budget

    constructor (perShare: Budget, overall: Budget)
      requires perShare != overall
      ensures this.perShare == perShare && this.overall == overall && Apart()
    {
      this.perShare, this.overall := perShare, overall;
    }

    predicate Apart() {
      perShare != overall
    }

    function Gauge(): Meter
      reads perShare`used, overall`used
    {
      Meter(perShare.limit, perShare.used, overall.limit, overall.used)
    }

    method Take() returns (taken: bool)
      requires Apart()
      modifies perShare`used, overall`used
      ensures taken <==> old(Gauge()).Left() > 0
      ensures Gauge() == old(Gauge()).Spend(if taken then 1 else 0)
    {
      var none := Exhausted();
      if none { return false; }
      var _ := perShare.Take();
      var _ := overall.Take();
      taken := true;
    }

    method Exhausted() returns (none: bool)
      ensures none <==> Gauge().Left() == 0
    {
      var a := perShare.Exhausted();
      var b := overall.Exhausted();
      none := a || b;
    }
  }

  // ---------------------------------------------------------------- one walk

  /** A walk that has met `done` and no error, with room for all of it. */
  ghost predicate Going(done: seq<Event>, room: nat) {
    FirstFailure(done).None? && Good(done) == done && |done| <= room
  }

  /** Once a part of the tree ends the walk, what follows changes nothing. */
  lemma PartEndsTheWalk(done: seq<Event>, part: seq<Event>, rest: seq<Event>, room: nat)
    requires Going(done, room)
    requires FirstFailure(part).Some? || room - |done| <= |Good(part)|
    ensures var all, left := done + (part + rest), room - |done|;
            && Captured(all, room) == done + Captured(part, left)
            && Uses(all, room) == |done| + Uses(part, left)
            && (room > |Good(all)| ==> FirstFailure(all) == FirstFailure(part))
            && (room > |Good(all)| <==> left > |Good(part)|)
  {
    GoodAppend(done, part + rest);
    GoodAppend(part, rest);
  }

  /** A part that leaves room has been met completely, if it had no error. */
  lemma PartIsMet(done: seq<Event>, part: seq<Event>, room: nat)
    requires Going(done, room) && FirstFailure(part).None? && |Good(part)| <= room - |done|
    ensures Going(done + part, room) && Captured(part, room - |done|) == part && Uses(part, room - |done|) == |part|
  {
    GoodAppend(done, part);
    GoodAppend(part, []);
  }

  lemma EventsFrom(nodes: seq<Node>, dir: Path, maxSize: nat, i: nat)
    requires i < |nodes|
    ensures EventsOf(nodes[i..], dir, maxSize)
         == EventsAt(nodes[i], dir, maxSize) + EventsOf(nodes[i + 1..], dir, maxSize)
  {
    assert nodes[i..][1..] == nodes[i + 1..];
  }

  lemma NextFrom(nodes: seq<Node>, dir: Path, maxSize: nat, i: nat, room: nat)
    requires i < |nodes|
    ensures var n, size := nodes[i], |Good(EventsAt(nodes[i], dir, maxSize))|;
            NextOf(nodes[i..], dir, maxSize, room) ==
              if (IsDots(n) && room == 0) || size < room then NextOf(nodes[i + 1..], dir, maxSize, room - size)
              else if n.Dir? then Next(n.listing, dir + [n.name], maxSize, room)
              else if room == 0 then None
              else NextOf(nodes[i + 1..], dir, maxSize, 0)
  {
    assert nodes[i..][1..] == nodes[i + 1..] && nodes[i..][0] == nodes[i];
    if nodes[i].Dir? { NoRoomVisits(nodes[i].listing, dir + [nodes[i].name], maxSize); }
    NoRoomVisitsOf(nodes[i + 1..], dir, maxSize);
    if IsDots(nodes[i]) {
      assert EventsAt(nodes[i], dir, maxSize) == [] && Good([]) == [];
    }
  }

  lemma NoRoomVisits(listing: Listing, dir: Path, maxSize: nat)
    ensures Next(listing, dir, maxSize, 0) == FirstVisit(listing)
  {}

  lemma NoRoomVisitsOf(nodes: seq<Node>, dir: Path, maxSize: nat)
    ensures NextOf(nodes, dir, maxSize, 0) == FirstVisitOf(nodes)
  {}

  /** What a walk that meets these events makes of the files and the budgets it began with. */
  ghost predicate Leaves(events: seq<Event>, before: Files, meter: Meter, after: Files, meter': Meter) {
    after == Add(before, Captured(events, meter.Left())) && meter' == meter.Spend(Uses(events, meter.Left()))
  }

  /** How the visit of one entry tells the loop to go on, or to return `error`. */
  ghost predicate Signals(n: Node, dir: Path, maxSize: nat, room: nat, stop: bool, error: Option<bool>) {
    var part := EventsAt(n, dir, maxSize);
    && (!stop ==> FirstFailure(part).None? && 0 < room && |Good(part)| <= room && (n.Dir? ==> |Good(part)| < room))
    && (stop ==> FirstFailure(part).Some? || room <= |Good(part)|)
    && (stop && room > |Good(part)| ==> error == Some(FirstFailure(part).value.denied))
    && (stop && n.Dir? && room <= |Good(part)| ==> error == Next(n.listing, dir + [n.name], maxSize, room))
    && (stop && n.File? && room <= |Good(part)| ==> room == 0 && error == None)
  }

  /** The error of a walk. */
  ghost predicate Ends(listing: Listing, dir: Path, maxSize: nat, room: nat, error: Option<bool>) {
    error == Denial(listing, dir, maxSize, room)
  }

  /** Entries 0 to i - 1 have been visited and all their events, `done`, captured; `before` and `meter` are
      from before the loop, `files` and `meter'` from now. */
  ghost predicate Partway(nodes: seq<Node>, i: nat, dir: Path, maxSize: nat, done: seq<Event>,
                          before: Files, meter: Meter, files: Files, meter': Meter)
    requires i <= |nodes|
  {
    && Going(done, meter.Left())
    && EventsOf(nodes, dir, maxSize) == done + EventsOf(nodes[i..], dir, maxSize)
    && files == Add(before, done) && meter' == meter.Spend(|done|)
    && NextOf(nodes, dir, maxSize, meter.Left()) == NextOf(nodes[i..], dir, maxSize, meter.Left() - |done|)
  }

  lemma WalkStarts(nodes: seq<Node>, dir: Path, maxSize: nat, files: Files, meter: Meter)
    ensures Partway(nodes, 0, dir, maxSize, [], files, meter, files, meter)
  {
    assert nodes[0..] == nodes;
  }

  lemma VisitEnds(nodes: seq<Node>, i: nat, dir: Path, maxSize: nat, done: seq<Event>,
                  before: Files, meter: Meter, files: Files, meter': Meter,
                  after: Files, meter'': Meter, error: Option<bool>)
    requires i < |nodes| && Partway(nodes, i, dir, maxSize, done, before, meter, files, meter') && !IsDots(nodes[i])
    requires var part := EventsAt(nodes[i], dir, maxSize);
             Leaves(part, files, meter', after, meter'') && Signals(nodes[i], dir, maxSize, meter'.Left(), true, error)
    ensures Leaves(EventsOf(nodes, dir, maxSize), before, meter, after, meter'')
    ensures Ends(Items(nodes), dir, maxSize, meter.Left(), error)
  {
    VisitEndsLeaving(nodes, i, dir, maxSize, done, before, meter, files, meter', after, meter'', error);
    VisitEndsWith(nodes, i, dir, maxSize, done, before, meter, files, meter', error);
  }

  lemma VisitEndsLeaving(nodes: seq<Node>, i: nat, dir: Path, maxSize: nat, done: seq<Event>,
                         before: Files, meter: Meter, files: Files, meter': Meter,
                         after: Files, meter'': Meter, error: Option<bool>)
    requires i < |nodes| && Partway(nodes, i, dir, maxSize, done, before, meter, files, meter')
    requires Signals(nodes[i], dir, maxSize, meter'.Left(), true, error)
    requires Leaves(EventsAt(nodes[i], dir, maxSize), files, meter', after, meter'')
    ensures Leaves(EventsOf(nodes, dir, maxSize), before, meter, after, meter'')
  {
    var part := EventsAt(nodes[i], dir, maxSize);
    SpendLeaves(meter, |done|);
    EventsFrom(nodes, dir, maxSize, i);
    PartEndsTheWalk(done, part, EventsOf(nodes[i + 1..], dir, maxSize), meter.Left());
    LeavesAfter(done, part, EventsOf(nodes, dir, maxSize), before, meter, after, meter'');
  }

  lemma VisitEndsWith(nodes: seq<Node>, i: nat, dir: Path, maxSize: nat, done: seq<Event>,
                      before: Files, meter: Meter, files: Files, meter': Meter, error: Option<bool>)
    requires i < |nodes| && Partway(nodes, i, dir, maxSize, done, before, meter, files, meter') && !IsDots(nodes[i])
    requires Signals(nodes[i], dir, maxSize, meter'.Left(), true, error)
    ensures Ends(Items(nodes), dir, maxSize, meter.Left(), error)
  {
    SpendLeaves(meter, |done|);
    EventsFrom(nodes, dir, maxSize, i);
    PartEndsTheWalk(done, EventsAt(nodes[i], dir, maxSize), EventsOf(nodes[i + 1..], dir, maxSize), meter.Left());
    EndsAsPart(nodes, i, dir, maxSize, meter.Left(), meter.Left() - |done|, error);
  }

  lemma LeavesAfter(done: seq<Event>, part: seq<Event>, all: seq<Event>, before: Files, meter: Meter, after: Files,
                    meter': Meter)
    requires Going(done, meter.Left())
    requires Leaves(part, Add(before, Good(done)), meter.Spend(|done|), after, meter')
    requires Captured(all, meter.Left()) == done + Captured(part, meter.Left() - |done|)
    requires Uses(all, meter.Left()) == |done| + Uses(part, meter.Left() - |done|)
    ensures Leaves(all, before, meter, after, meter')
  {
    var left := meter.Left() - |done|;
    SpendLeaves(meter, |done|);
    var captured, used := Captured(part, left), Uses(part, left);
    assert after == Add(Add(before, Good(done)), captured);
    assert meter.Spend(|done|).Spend(used) == meter.Spend(|done| + used);
    AddAppend(before, Good(done), captured);
  }

  lemma SpendLeaves(meter: Meter, n: nat)
    requires n <= meter.Left()
    ensures meter.Spend(n).Left() == meter.Left() - n
  {}

  lemma EndsAsPart(nodes: seq<Node>, i: nat, dir: Path, maxSize: nat, room: nat, left: nat, error: Option<bool>)
    requires i < |nodes| && !IsDots(nodes[i]) && Signals(nodes[i], dir, maxSize, left, true, error)
    requires var part, all := EventsAt(nodes[i], dir, maxSize), EventsOf(nodes, dir, maxSize);
             && (room > |Good(all)| <==> left > |Good(part)|)
             && (room > |Good(all)| ==> FirstFailure(all) == FirstFailure(part))
    requires NextOf(nodes, dir, maxSize, room) == NextOf(nodes[i..], dir, maxSize, left)
    ensures Ends(Items(nodes), dir, maxSize, room, error)
  {
    NextFrom(nodes, dir, maxSize, i, left);
  }

  lemma VisitGoesOn(nodes: seq<Node>, i: nat, dir: Path, maxSize: nat, done: seq<Event>,
                    before: Files, meter: Meter, files: Files, meter': Meter,
                    after: Files, meter'': Meter, error: Option<bool>)
    requires i < |nodes| && Partway(nodes, i, dir, maxSize, done, before, meter, files, meter') && !IsDots(nodes[i])
    requires var part := EventsAt(nodes[i], dir, maxSize);
             Leaves(part, files, meter', after, meter'') && Signals(nodes[i], dir, maxSize, meter'.Left(), false, error)
    ensures Partway(nodes, i + 1, dir, maxSize, done + EventsAt(nodes[i], dir, maxSize), before, meter, after, meter'')
  {
    var part := EventsAt(nodes[i], dir, maxSize);
    SpendLeaves(meter, |done|);
    EventsFrom(nodes, dir, maxSize, i);
    PartIsMet(done, part, meter.Left());
    Associates(done, part, EventsOf(nodes[i + 1..], dir, maxSize));
    FilesGoOn(done, part, before, meter, files, meter', after, meter'');
    NextGoesOn(nodes, i, dir, maxSize, meter.Left() - |done|, error);
  }

  lemma FilesGoOn(done: seq<Event>, part: seq<Event>, before: Files, meter: Meter, files: Files, meter': Meter,
                  after: Files, meter'': Meter)
    requires Going(done, meter.Left()) && Going(done + part, meter.Left())
    requires files == Add(before, done) && meter' == meter.Spend(|done|) && Leaves(part, files, meter', after, meter'')
    requires Captured(part, meter'.Left()) == part && Uses(part, meter'.Left()) == |part|
    ensures after == Add(before, done + part) && meter'' == meter.Spend(|done + part|)
  {
    AddAppend(before, done, part);
  }

  lemma NextGoesOn(nodes: seq<Node>, i: nat, dir: Path, maxSize: nat, left: nat, error: Option<bool>)
    requires i < |nodes| && !IsDots(nodes[i]) && Signals(nodes[i], dir, maxSize, left, false, error)
    ensures var part := EventsAt(nodes[i], dir, maxSize);
            && |part| <= left
            && NextOf(nodes[i..], dir, maxSize, left) == NextOf(nodes[i + 1..], dir, maxSize, left - |part|)
  {
    GoodAppend(EventsAt(nodes[i], dir, maxSize), []);
    NextFrom(nodes, dir, maxSize, i, left);
  }

  lemma DotsGoOn(nodes: seq<Node>, i: nat, dir: Path, maxSize: nat, done: seq<Event>,
                 before: Files, meter: Meter, files: Files, meter': Meter)
    requires i < |nodes| && Partway(nodes, i, dir, maxSize, done, before, meter, files, meter') && IsDots(nodes[i])
    ensures Partway(nodes, i + 1, dir, maxSize, done, before, meter, files, meter')
  {
    EventsFrom(nodes, dir, maxSize, i);
    NextFrom(nodes, dir, maxSize, i, meter.Left() - |done|);
  }

  lemma WalkIsWhole(nodes: seq<Node>, dir: Path, maxSize: nat, done: seq<Event>,
                    before: Files, meter: Meter, files: Files, meter': Meter)
    requires Partway(nodes, |nodes|, dir, maxSize, done, before, meter, files, meter')
    ensures Leaves(EventsOf(nodes, dir, maxSize), before, meter, files, meter')
    ensures Ends(Items(nodes), dir, maxSize, meter.Left(), None)
  {
    assert nodes[|nodes|..] == [] && done + [] == done;
    assert done[..|done|] == done;
  }

  lemma ErrorLeavesNothing(denied: bool, dir: Path, maxSize: nat, files: Files, meter: Meter)
    ensures Leaves([Failed(denied, false)], files, meter, files, meter)
    ensures Ends(ListError(denied), dir, maxSize, meter.Left(), Some(denied))
  {}

  lemma OneEvent(e: Event, files: Files, meter: Meter)
    requires e.Failed? ==> e.taken
    ensures Good([e]) == (if e.Found? then [e] else [])
    ensures FirstFailure([e]) == (if e.Found? then None else Some(e))
    ensures var left := meter.Left();
            Leaves([e], files, meter, if e.Found? && left > 0 then files[e.path := e.content] else files,
                   meter.Spend(if left > 0 then 1 else 0))
  {
    assert [e][1..] == [] && [e][..0] == [];
  }

  class Walker {
    const maxSize: nat
    var files: Files

    constructor (maxSize: nat)
      ensures this.maxSize == maxSize && files == map[]
    {
      this.maxSize, files := maxSize, map[];
    }

    /** One entry of a listing: a directory is walked, a file captured if there is room. */
    method Visit(n: Node, dir: Path, pair: Pair) returns (stop: bool, error: Option<bool>)
      requires pair.Apart() && !IsDots(n)
      modifies this`files, pair.perShare`used, pair.overall`used
      ensures Leaves(EventsAt(n, dir, maxSize), old(files), old(pair.Gauge()), files, pair.Gauge())
      ensures Signals(n, dir, maxSize, old(pair.Gauge()).Left(), stop, error)
      decreases n, 1
    {
      if n.Dir? {
        error := Walk(n.listing, dir + [n.name], pair);
        if error.Some? { return true, error; }
        stop := pair.Exhausted();
      } else {
        OneEvent(EventsOfFile(n, dir, maxSize), files, pair.Gauge());
        var taken := pair.Take();
        if !taken { return true, None; }
        if n.size > maxSize {
          files := files[dir + [n.name] := Omitted(n.size)];
        } else {
          match n.data {
            case ReadError(denied) => return true, Some(denied);
            case Bytes(b) => files := files[dir + [n.name] := Kept(b)];
          }
        }
        stop, error := false, None;
      }
    }

    /** Walk one directory; the result is the error it ended in, if any. */
    method Walk(listing: Listing, dir: Path, pair: Pair) returns (error: Option<bool>)
      requires pair.Apart()
      modifies this`files, pair.perShare`used, pair.overall`used
      ensures Leaves(Events(listing, dir, maxSize), old(files), old(pair.Gauge()), files, pair.Gauge())
      ensures Ends(listing, dir, maxSize, old(pair.Gauge()).Left(), error)
      decreases listing, 0
    {
      ghost var before, meter := files, pair.Gauge();
      if listing.ListError? {
        ErrorLeavesNothing(listing.denied, dir, maxSize, before, meter);
        return Some(listing.denied);
      }
      var nodes := listing.nodes;
      ghost var done: seq<Event> := [];
      WalkStarts(nodes, dir, maxSize, before, meter);
      for i := 0 to |nodes|
        invariant Partway(nodes, i, dir, maxSize, done, before, meter, files, pair.Gauge())
      {
        ghost var files', meter' := files, pair.Gauge();
        if IsDots(nodes[i]) {
          DotsGoOn(nodes, i, dir, maxSize, done, before, meter, files', meter');
        } else {
          var stop;
          stop, error := Visit(nodes[i], dir, pair);
          if stop {
            VisitEnds(nodes, i, dir, maxSize, done, before, meter, files', meter', files, pair.Gauge(), error);
            return;
          }
          VisitGoesOn(nodes, i, dir, maxSize, done, before, meter, files', meter', files, pair.Gauge(), error);
          done := done + EventsAt(nodes[i], dir, maxSize);
        }
      }
      WalkIsWhole(nodes, dir, maxSize, done, before, meter, files, pair.Gauge());
      error := None;
    }
  }
}
