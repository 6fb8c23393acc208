/** The fixpoint that composes LOOT and ACCESS edges (compose_paths in rangefinder/paths.py), and the
    recursions that unfold its provenance maps into the reported path. */
module ComposePaths {
  import opened Prelude
  import opened AttackGraph

  /** How a location became readable: None for anonymously, or the principal and account used. */
  type Unlocker = Option<(Sid, string)>

  /** The set and the maps grown by the fixpoint. */
  datatype Provenance = Provenance(readable: set<Location>, unlockedBy: map<Location, Unlocker>,
                                   lootedAt: map<Sid, Location>)

  /** Rounds of the fixpoint: when each location opened (0 for anonymous), when each principal fell. */
  datatype Rounds = Rounds(loc: map<Location, nat>, sid: map<Sid, nat>)

  datatype ReachableCredential = ReachableCredential(
    usernames: set<string>, grants: set<Grant>, steps: seq<Step>, hops: nat, pivots: seq<Pivot>)

  datatype Graph = Graph(reachable: map<Sid, ReachableCredential>, unreachable: set<Sid>,
                         hostsReached: set<string>)

  // ---------------------------------------------------------------- what the maps mean

  /** How `loc` was opened is a real ACCESS edge of a principal recovered in that same round. */
  ghost predicate OpenedBy(e: Estate, p: Provenance, r: Rounds, loc: Location)
    requires loc in p.unlockedBy && loc in r.loc && r.sid.Keys == p.lootedAt.Keys
  {
    match p.unlockedBy[loc]
    case None => loc.anon && r.loc[loc] == 0
    case Some((sid, user)) =>
      !loc.anon && sid in p.lootedAt && r.sid[sid] == r.loc[loc] && OpensAs(e, sid, user, loc)
  }

  /** Where `sid` was recovered is a real LOOT edge, read one round after the location opened. */
  ghost predicate RecoveredAt(e: Estate, p: Provenance, r: Rounds, sid: Sid)
    requires sid in p.lootedAt && sid in r.sid && r.loc.Keys == p.unlockedBy.Keys
  {
    var loc := p.lootedAt[sid];
    Loots(e, sid, loc) && loc in p.unlockedBy && r.sid[sid] == r.loc[loc] + 1
  }

  ghost predicate Sound(e: Estate, p: Provenance, r: Rounds) {
    && p.readable == p.unlockedBy.Keys && r.loc.Keys == p.unlockedBy.Keys && r.sid.Keys == p.lootedAt.Keys
    && (forall loc :: loc in e.locations && loc.anon ==> loc in p.unlockedBy)
    && (forall loc {:trigger OpenedBy(e, p, r, loc)} :: loc in p.unlockedBy ==> loc in e.locations)
    && (forall loc {:trigger OpenedBy(e, p, r, loc)} :: loc in p.unlockedBy ==> OpenedBy(e, p, r, loc))
    && (forall sid {:trigger RecoveredAt(e, p, r, sid)} :: sid in p.lootedAt ==> RecoveredAt(e, p, r, sid))
  }

  /** No edge between found nodes is a short cut: rounds are shortest distances. */
  ghost predicate NoShortCut(e: Estate, p: Provenance, r: Rounds)
    requires r.loc.Keys == p.unlockedBy.Keys && r.sid.Keys == p.lootedAt.Keys
  {
    && (forall sid, loc :: sid in p.lootedAt && loc in p.unlockedBy && Loots(e, sid, loc) ==>
          r.sid[sid] <= r.loc[loc] + 1)
    && (forall sid, u, loc :: sid in p.lootedAt && loc in p.unlockedBy && OpensAs(e, sid, u, loc) ==>
          r.loc[loc] <= r.sid[sid])
  }

  /** Everything the locations opened before round `k` give away has been recovered. */
  ghost predicate LootDone(e: Estate, p: Provenance, r: Rounds, k: nat)
    requires r.loc.Keys == p.unlockedBy.Keys
  {
    forall sid, loc :: loc in p.unlockedBy && r.loc[loc] < k && Loots(e, sid, loc) ==> sid in p.lootedAt
  }

  /** Everything the principals recovered up to round `k` open has been opened. */
  ghost predicate AccessDone(e: Estate, p: Provenance, r: Rounds, k: nat)
    requires r.sid.Keys == p.lootedAt.Keys
  {
    forall sid, u, loc :: sid in p.lootedAt && r.sid[sid] <= k && OpensAs(e, sid, u, loc) ==> loc in p.unlockedBy
  }

  ghost predicate UpTo(r: Rounds, locRound: nat, sidRound: nat) {
    && (forall loc :: loc in r.loc ==> r.loc[loc] <= locRound)
    && (forall sid :: sid in r.sid ==> r.sid[sid] <= sidRound)
  }

  /** The state during the LOOT pass of round k + 1. */
  ghost predicate Looting(e: Estate, p: Provenance, r: Rounds, k: nat) {
    Sound(e, p, r) && NoShortCut(e, p, r) && LootDone(e, p, r, k) && AccessDone(e, p, r, k) && UpTo(r, k, k + 1)
  }

  /** The state during the ACCESS pass of round k + 1. */
  ghost predicate Accessing(e: Estate, p: Provenance, r: Rounds, k: nat) {
    && Sound(e, p, r) && NoShortCut(e, p, r) && LootDone(e, p, r, k + 1) && AccessDone(e, p, r, k)
    && UpTo(r, k + 1, k + 1)
  }

  function Held(p: Provenance, sid: Sid, loc: Location): Provenance {
    p.(lootedAt := p.lootedAt[sid := loc])
  }

  function Opened(p: Provenance, loc: Location, sid: Sid, user: string): Provenance {
    p.(readable := p.readable + {loc}, unlockedBy := p.unlockedBy[loc := Some((sid, user))])
  }

  /** Sound provenance with shortest rounds, and no edge left to follow. */
  ghost predicate AtFixpoint(e: Estate, p: Provenance, r: Rounds, k: nat) {
    Sound(e, p, r) && NoShortCut(e, p, r) && LootDone(e, p, r, k + 1) && AccessDone(e, p, r, k) && UpTo(r, k, k)
  }

  lemma LootKeepsSound(e: Estate, p: Provenance, r: Rounds, k: nat, sid: Sid, loc: Location)
    requires Looting(e, p, r, k)
    requires sid !in p.lootedAt && loc in p.unlockedBy && Loots(e, sid, loc)
    ensures Sound(e, Held(p, sid, loc), r.(sid := r.sid[sid := k + 1]))
  {
    var q, r' := Held(p, sid, loc), r.(sid := r.sid[sid := k + 1]);
    forall l | l in q.unlockedBy ensures l in e.locations && OpenedBy(e, q, r', l) {
      assert OpenedBy(e, p, r, l);
    }
    forall s | s in q.lootedAt ensures RecoveredAt(e, q, r', s) {
      if s != sid { assert RecoveredAt(e, p, r, s); }
    }
  }

  lemma LootStep(e: Estate, p: Provenance, r: Rounds, k: nat, sid: Sid, loc: Location)
    requires Looting(e, p, r, k)
    requires sid !in p.lootedAt && loc in p.unlockedBy && Loots(e, sid, loc)
    ensures Looting(e, Held(p, sid, loc), r.(sid := r.sid[sid := k + 1]), k)
  {
    LootKeepsSound(e, p, r, k, sid, loc);
  }

  /** What was opened stays as it was, and the new location is opened by a real edge. */
  lemma AccessKeepsOpened(e: Estate, p: Provenance, r: Rounds, k: nat, sid: Sid, user: string, loc: Location)
    requires Accessing(e, p, r, k)
    requires sid in p.lootedAt && loc !in p.unlockedBy && OpensAs(e, sid, user, loc)
    ensures var q, r' := Opened(p, loc, sid, user), r.(loc := r.loc[loc := k + 1]);
            forall l {:trigger OpenedBy(e, q, r', l)} :: l in q.unlockedBy ==> l in e.locations && OpenedBy(e, q, r', l)
  {
    var q, r' := Opened(p, loc, sid, user), r.(loc := r.loc[loc := k + 1]);
    assert RecoveredAt(e, p, r, sid);
    forall l | l in q.unlockedBy ensures l in e.locations && OpenedBy(e, q, r', l) {
      if l != loc { assert OpenedBy(e, p, r, l); }
    }
  }

  lemma AccessKeepsRecovered(e: Estate, p: Provenance, r: Rounds, k: nat, sid: Sid, user: string, loc: Location)
    requires Accessing(e, p, r, k) && loc !in p.unlockedBy
    ensures var q, r' := Opened(p, loc, sid, user), r.(loc := r.loc[loc := k + 1]);
            forall s {:trigger RecoveredAt(e, q, r', s)} :: s in q.lootedAt ==> RecoveredAt(e, q, r', s)
  {
    var q, r' := Opened(p, loc, sid, user), r.(loc := r.loc[loc := k + 1]);
    forall s | s in q.lootedAt ensures RecoveredAt(e, q, r', s) {
      assert RecoveredAt(e, p, r, s);
    }
  }

  lemma AccessKeepsSound(e: Estate, p: Provenance, r: Rounds, k: nat, sid: Sid, user: string, loc: Location)
    requires Accessing(e, p, r, k)
    requires sid in p.lootedAt && loc !in p.unlockedBy && OpensAs(e, sid, user, loc)
    ensures r.sid[sid] == k + 1
    ensures Sound(e, Opened(p, loc, sid, user), r.(loc := r.loc[loc := k + 1]))
  {
    var q, r' := Opened(p, loc, sid, user), r.(loc := r.loc[loc := k + 1]);
    assert q.readable == q.unlockedBy.Keys == r'.loc.Keys;
    NewlyHeld(e, p, r, k, sid, user, loc);
    AccessKeepsOpened(e, p, r, k, sid, user, loc);
    AccessKeepsRecovered(e, p, r, k, sid, user, loc);
    forall l | l in q.unlockedBy ensures l in e.locations { assert OpenedBy(e, q, r', l); }
  }

  /** A principal that opens something new was recovered in this very round. */
  lemma NewlyHeld(e: Estate, p: Provenance, r: Rounds, k: nat, sid: Sid, user: string, loc: Location)
    requires Accessing(e, p, r, k)
    requires sid in p.lootedAt && loc !in p.unlockedBy && OpensAs(e, sid, user, loc)
    ensures r.sid[sid] == k + 1
  {}

  lemma AccessStep(e: Estate, p: Provenance, r: Rounds, k: nat, sid: Sid, user: string, loc: Location)
    requires Accessing(e, p, r, k)
    requires sid in p.lootedAt && loc !in p.unlockedBy && OpensAs(e, sid, user, loc)
    ensures Accessing(e, Opened(p, loc, sid, user), r.(loc := r.loc[loc := k + 1]), k)
  {
    AccessKeepsSound(e, p, r, k, sid, user, loc);
  }

  // ---------------------------------------------------------------- the two passes of a round

  /** The first readable location that gives the principal away. */
  method FindLoot(e: Estate, sid: Sid, readable: set<Location>) returns (loc: Option<Location>)
    ensures loc.Some? ==> loc.value in readable && Loots(e, sid, loc.value)
    ensures loc.None? ==> forall l :: l in readable && l in e.locations ==> !Loots(e, sid, l)
  {
    for j := 0 to |e.locations|
      invariant forall l :: l in e.locations[..j] && l in readable ==> !Loots(e, sid, l)
    {
      if e.locations[j] in readable && Loots(e, sid, e.locations[j]) { return Some(e.locations[j]); }
    }
    assert e.locations[..|e.locations|] == e.locations;
    loc := None;
  }

  /** LOOT: recover each principal not yet held whose secret sits in a readable blob. */
  method LootRound(e: Estate, order: seq<Sid>, p: Provenance, ghost r: Rounds, ghost k: nat)
    returns (q: Provenance, changed: bool, ghost r': Rounds)
    requires forall sid :: sid in order <==> sid in e.principals
    requires Looting(e, p, r, k) && UpTo(r, k, k)
    ensures Accessing(e, q, r', k) && r'.loc == r.loc
    ensures q.unlockedBy == p.unlockedBy && p.lootedAt.Keys <= q.lootedAt.Keys
    ensures if changed then p.lootedAt.Keys < q.lootedAt.Keys else q == p && r' == r
  {
    q, changed, r' := p, false, r;
    for i := 0 to |order|
      invariant Looting(e, q, r', k) && r'.loc == r.loc
      invariant q.unlockedBy == p.unlockedBy && p.lootedAt.Keys <= q.lootedAt.Keys
      invariant if changed then p.lootedAt.Keys < q.lootedAt.Keys else q == p && r' == r
      invariant forall s, l :: s in order[..i] && l in q.unlockedBy && Loots(e, s, l) ==> s in q.lootedAt
    {
      var sid := order[i];
      if sid !in q.lootedAt {
        var loc := FindLoot(e, sid, q.readable);
        if loc.Some? {
          LootStep(e, q, r', k, sid, loc.value);
          q, r' := Held(q, sid, loc.value), r'.(sid := r'.sid[sid := k + 1]);
          changed := true;
        }
      }
    }
    assert order[..|order|] == order;
  }

  /** ACCESS: held principals unlock the locations their grants reach.  Grants are a set: the source
      visits them in no fixed order, and neither does the model. */
  method AccessRound(e: Estate, order: seq<Sid>, p: Provenance, ghost r: Rounds, ghost k: nat)
    returns (q: Provenance, changed: bool, ghost r': Rounds)
    requires forall sid :: sid in order <==> sid in e.principals
    requires Accessing(e, p, r, k)
    ensures Accessing(e, q, r', k) && AccessDone(e, q, r', k + 1)
    ensures q.lootedAt == p.lootedAt && p.unlockedBy.Keys <= q.unlockedBy.Keys
    ensures if changed then p.unlockedBy.Keys < q.unlockedBy.Keys else q == p && r' == r
  {
    q, changed, r' := p, false, r;
    for i := 0 to |order|
      invariant Accessing(e, q, r', k)
      invariant q.lootedAt == p.lootedAt && p.unlockedBy.Keys <= q.unlockedBy.Keys
      invariant if changed then p.unlockedBy.Keys < q.unlockedBy.Keys else q == p && r' == r
      invariant forall s, u, l :: s in order[..i] && s in q.lootedAt && OpensAs(e, s, u, l) ==> l in q.unlockedBy
    {
      var sid := order[i];
      if sid in q.lootedAt {
        assert RecoveredAt(e, q, r', sid);
        var pending := e.principals[sid].grants;
        while pending != {}
          invariant pending <= e.principals[sid].grants
          invariant Accessing(e, q, r', k)
          invariant q.lootedAt == p.lootedAt && p.unlockedBy.Keys <= q.unlockedBy.Keys
          invariant if changed then p.unlockedBy.Keys < q.unlockedBy.Keys else q == p && r' == r
          invariant forall s, u, l :: s in order[..i] && s in q.lootedAt && OpensAs(e, s, u, l) ==> l in q.unlockedBy
          invariant forall g, l :: g in e.principals[sid].grants - pending && l in e.locations && Unlocks(g, l)
                      ==> l in q.unlockedBy
          decreases pending
        {
          var g :| g in pending;
          var changed';
          q, changed', r' := AccessGrant(e, q, r', k, sid, g);
          pending, changed := pending - {g}, changed || changed';
        }
      }
    }
    assert order[..|order|] == order;
    forall s | s in q.lootedAt ensures s in order { assert RecoveredAt(e, q, r', s); }
  }

  /** The innermost loop of ACCESS: one grant of `sid` against every location. */
  method AccessGrant(e: Estate, p: Provenance, ghost r: Rounds, ghost k: nat, sid: Sid, g: Grant)
    returns (q: Provenance, changed: bool, ghost r': Rounds)
    requires Accessing(e, p, r, k)
    requires sid in p.lootedAt && sid in e.principals && g in e.principals[sid].grants
    ensures Accessing(e, q, r', k)
    ensures q.lootedAt == p.lootedAt && p.unlockedBy.Keys <= q.unlockedBy.Keys
    ensures if changed then p.unlockedBy.Keys < q.unlockedBy.Keys else q == p && r' == r
    ensures forall l :: l in e.locations && Unlocks(g, l) ==> l in q.unlockedBy
  {
    q, changed, r' := p, false, r;
    for j := 0 to |e.locations|
      invariant Accessing(e, q, r', k)
      invariant q.lootedAt == p.lootedAt && p.unlockedBy.Keys <= q.unlockedBy.Keys
      invariant if changed then p.unlockedBy.Keys < q.unlockedBy.Keys else q == p && r' == r
      invariant forall l :: l in e.locations[..j] && Unlocks(g, l) ==> l in q.unlockedBy
    {
      var loc := e.locations[j];
      if loc !in q.readable && Unlocks(g, loc) {
        assert OpensAs(e, sid, g.username, loc);
        AccessStep(e, q, r', k, sid, g.username, loc);
        q := Opened(q, loc, sid, g.username);
        r', changed := r'.(loc := r'.loc[loc := k + 1]), true;
      }
    }
    assert e.locations[..|e.locations|] == e.locations;
  }

  // ---------------------------------------------------------------- unfolding the provenance maps

  /** Every principal the maps mention is one they can look up. */
  ghost predicate Closed(e: Estate, p: Provenance) {
    && p.lootedAt.Keys <= e.principals.Keys
    && forall loc :: loc in p.unlockedBy && p.unlockedBy[loc].Some? ==> p.unlockedBy[loc].value.0 in p.lootedAt
  }

  function StepsToLocation(e: Estate, p: Provenance, loc: Location, seen: set<Location>): seq<Step>
    requires Closed(e, p)
    decreases p.unlockedBy.Keys - seen, 0
  {
    if loc !in p.unlockedBy || p.unlockedBy[loc].None? || loc in seen then [AnonymousAccess] else
      var (sid, who) := p.unlockedBy[loc].value;
      StepsToPrincipal(e, p, sid, seen + {loc}) + [Authenticate(loc.hostId, loc.kind, who)]
  }

  function StepsToPrincipal(e: Estate, p: Provenance, sid: Sid, seen: set<Location>): seq<Step>
    requires Closed(e, p) && sid in p.lootedAt
    decreases p.unlockedBy.Keys - seen, 1
  {
    var loc := p.lootedAt[sid];
    StepsToLocation(e, p, loc, seen) + [Read(loc.anchor), Recover(sid, e.principals[sid].usernames)]
  }

  function PivotsToLocation(e: Estate, p: Provenance, loc: Location, seen: set<Location>): seq<Pivot>
    requires Closed(e, p)
    decreases p.unlockedBy.Keys - seen
  {
    if loc !in p.unlockedBy || p.unlockedBy[loc].None? || loc in seen then [] else
      var (sid, who) := p.unlockedBy[loc].value;
      PivotsToLocation(e, p, p.lootedAt[sid], seen + {loc})
      + [Pivot(loc.hostId, loc.kind, loc.qualifier, who)]
  }

  function PivotsToPrincipal(e: Estate, p: Provenance, sid: Sid): seq<Pivot>
    requires Closed(e, p) && sid in p.lootedAt
  {
    PivotsToLocation(e, p, p.lootedAt[sid], {})
  }

  /** Following provenance backwards visits strictly earlier rounds, so the cycle guard `seen` never
      fires, and what is printed is a genuine attack chain with one stage per round. */
  lemma {:induction false} ProvenanceIsAChain(e: Estate, p: Provenance, r: Rounds, sid: Sid, seen: set<Location>)
    returns (c: seq<Link>)
    requires Sound(e, p, r) && Closed(e, p) && sid in p.lootedAt
    requires forall l :: l in seen ==> l in r.loc && r.loc[l] >= r.sid[sid]
    ensures ChainTo(e, c, sid) && |c| == r.sid[sid]
    ensures StepsToPrincipal(e, p, sid, seen) == StepsOf(e, c)
    ensures PivotsToLocation(e, p, p.lootedAt[sid], seen) == PivotsOf(c)
    decreases r.sid[sid]
  {
    var loc := p.lootedAt[sid];
    assert RecoveredAt(e, p, r, sid) && OpenedBy(e, p, r, loc);
    match p.unlockedBy[loc] {
      case None =>
        c := [Link(None, loc, sid)];
        assert c[..0] == [];
      case Some((via, user)) =>
        var front := ProvenanceIsAChain(e, p, r, via, seen + {loc});
        var next := Link(Some(user), loc, sid);
        ChainExtends(e, front, next);
        c := front + [next];
        assert c[..|c| - 1] == front;
    }
  }

  // ---------------------------------------------------------------- completeness

  /** At the fixpoint a chain of m stages ends at a principal recovered in round m or earlier. */
  lemma {:induction false} ChainIsFound(e: Estate, p: Provenance, r: Rounds, k: nat, c: seq<Link>, i: nat)
    requires AtFixpoint(e, p, r, k)
    requires IsChain(e, c) && i < |c|
    ensures c[i].loc in p.unlockedBy && r.loc[c[i].loc] <= i
    ensures c[i].sid in p.lootedAt && r.sid[c[i].sid] <= i + 1
  {
    assert Loots(e, c[i].sid, c[i].loc);
    if i == 0 {
      assert OpenedBy(e, p, r, c[0].loc);
    } else {
      ChainIsFound(e, p, r, k, c, i - 1);
      assert LinkFrom(e, c[i - 1], c[i]);
    }
  }

  // ---------------------------------------------------------------- compose_paths

  /** What the report says of a recovered credential. */
  ghost predicate ReportsShortestChain(e: Estate, sid: Sid, rc: ReachableCredential)
    requires sid in e.principals
  {
    exists c :: ReportedChain(e, sid, rc, c)
  }

  ghost predicate ReportedChain(e: Estate, sid: Sid, rc: ReachableCredential, c: seq<Link>)
    requires sid in e.principals
  {
    && ShortestChainTo(e, c, sid)
    && rc.hops == |c| - 1 && |rc.steps| == 3 * (rc.hops + 1)
    && rc.steps == StepsOf(e, c) && rc.pivots == PivotsOf(c)
    && rc.usernames == e.principals[sid].usernames && rc.grants == e.principals[sid].grants
  }

  /** The report on an estate: exactly the recoverable credentials, each by a shortest chain, and the hosts
      with a breached location. */
  ghost predicate IsGraphOf(e: Estate, graph: Graph) {
    && graph.reachable.Keys == (set sid | sid in e.principals && Recoverable(e, sid))
    && graph.unreachable == e.principals.Keys - graph.reachable.Keys
    && (forall sid :: sid in graph.reachable ==> ReportsShortestChain(e, sid, graph.reachable[sid]))
    && graph.hostsReached == set loc | loc in e.locations && Breached(e, loc) :: loc.hostId
  }

  method Fixpoint(e: Estate, order: seq<Sid>) returns (p: Provenance, ghost r: Rounds, ghost k: nat)
    requires forall sid :: sid in order <==> sid in e.principals
    ensures AtFixpoint(e, p, r, k)
  {
    p := Provenance(set loc | loc in e.locations && loc.anon, map loc | loc in e.locations && loc.anon :: None, map[]);
    r, k := Rounds(map loc | loc in e.locations && loc.anon :: 0, map[]), 0;
    var changed := true;
    while changed
      invariant Looting(e, p, r, k) && UpTo(r, k, k)
      invariant !changed ==> LootDone(e, p, r, k + 1)
      decreases e.principals.Keys - p.lootedAt.Keys, (set loc | loc in e.locations) - p.unlockedBy.Keys, changed
    {
      ghost var p0, r0 := p, r;
      var looted, unlocked;
      p, looted, r := LootRound(e, order, p, r, k);
      ghost var p1 := p;
      p, unlocked, r := AccessRound(e, order, p, r, k);
      forall s | s in p.lootedAt ensures s in e.principals { assert RecoveredAt(e, p, r, s); }
      forall l | l in p.unlockedBy ensures l in e.locations { assert OpenedBy(e, p, r, l); }
      changed := looted || unlocked;
      if looted {
        assert e.principals.Keys - p.lootedAt.Keys < e.principals.Keys - p0.lootedAt.Keys;
      } else if unlocked {
        assert (set loc | loc in e.locations) - p.unlockedBy.Keys
             < (set loc | loc in e.locations) - p0.unlockedBy.Keys;
      }
      k := if changed then k + 1 else k;
    }
  }

  /** Compose the LOOT and ACCESS edges of an estate.  `order` is any listing of the principals (the
      source sorts them): what is reachable, in how many hops, and which hosts fall do not depend on
      it, nor on the order of the grants or locations. */
  method ComposePaths(e: Estate, order: seq<Sid>) returns (graph: Graph)
    requires forall sid :: sid in order <==> sid in e.principals
    ensures IsGraphOf(e, graph)
  {
    var p;
    ghost var r, k;
    p, r, k := Fixpoint(e, order);
    FixpointIsClosed(e, p, r, k);
    LootedIsRecoverable(e, p, r, k);
    GatedIsExact(e, p, r, k);
    ReportsAreShortest(e, p, r, k);
    graph := Graph(Reports(e, p), e.principals.Keys - p.lootedAt.Keys, GatedHosts(p));
  }

  function Reports(e: Estate, p: Provenance): map<Sid, ReachableCredential>
    requires Closed(e, p)
  {
    map sid | sid in p.lootedAt :: Report(e, p, sid)
  }

  function GatedHosts(p: Provenance): set<string> {
    set loc | loc in p.unlockedBy && p.unlockedBy[loc].Some? :: loc.hostId
  }

  lemma ReportsAreShortest(e: Estate, p: Provenance, r: Rounds, k: nat)
    requires AtFixpoint(e, p, r, k) && Closed(e, p)
    ensures Reports(e, p).Keys == p.lootedAt.Keys
    ensures forall sid :: sid in Reports(e, p) ==> ReportsShortestChain(e, sid, Reports(e, p)[sid])
  {
    forall sid | sid in Reports(e, p) ensures ReportsShortestChain(e, sid, Reports(e, p)[sid]) {
      FoundIsShortest(e, p, r, k, sid);
    }
  }

  lemma FixpointIsClosed(e: Estate, p: Provenance, r: Rounds, k: nat)
    requires AtFixpoint(e, p, r, k)
    ensures Closed(e, p)
  {
    forall s | s in p.lootedAt ensures s in e.principals { assert RecoveredAt(e, p, r, s); }
    forall loc | loc in p.unlockedBy && p.unlockedBy[loc].Some? ensures p.unlockedBy[loc].value.0 in p.lootedAt {
      assert OpenedBy(e, p, r, loc);
    }
  }

  lemma LootedIff(e: Estate, p: Provenance, r: Rounds, k: nat, sid: Sid)
    requires AtFixpoint(e, p, r, k) && Closed(e, p)
    ensures sid in p.lootedAt <==> sid in e.principals && Recoverable(e, sid)
  {
    if sid in p.lootedAt {
      FoundIsShortest(e, p, r, k, sid);
    } else if Recoverable(e, sid) {
      var c :| ChainTo(e, c, sid);
      ChainIsFound(e, p, r, k, c, |c| - 1);
    }
  }

  lemma LootedIsRecoverable(e: Estate, p: Provenance, r: Rounds, k: nat)
    requires AtFixpoint(e, p, r, k) && Closed(e, p)
    ensures p.lootedAt.Keys == set sid | sid in e.principals && Recoverable(e, sid)
  {
    forall sid ensures sid in p.lootedAt.Keys <==> sid in e.principals && Recoverable(e, sid) {
      LootedIff(e, p, r, k, sid);
    }
  }

  lemma GatedIsExact(e: Estate, p: Provenance, r: Rounds, k: nat)
    requires AtFixpoint(e, p, r, k) && Closed(e, p)
    ensures GatedHosts(p) == set loc | loc in e.locations && Breached(e, loc) :: loc.hostId
  {
    forall loc ensures loc in p.unlockedBy && p.unlockedBy[loc].Some? <==> loc in e.locations && Breached(e, loc) {
      GatedIsBreached(e, p, r, k, loc);
    }
  }

  function Report(e: Estate, p: Provenance, sid: Sid): ReachableCredential
    requires Closed(e, p) && sid in p.lootedAt
  {
    var pivots := PivotsToPrincipal(e, p, sid);
    ReachableCredential(e.principals[sid].usernames, e.principals[sid].grants,
                        StepsToPrincipal(e, p, sid, {}), |pivots|, pivots)
  }

  lemma FoundIsShortest(e: Estate, p: Provenance, r: Rounds, k: nat, sid: Sid)
    requires AtFixpoint(e, p, r, k) && Closed(e, p) && sid in p.lootedAt
    ensures Recoverable(e, sid) && ReportsShortestChain(e, sid, Report(e, p, sid))
  {
    var c := ProvenanceIsAChain(e, p, r, sid, {});
    forall d | ChainTo(e, d, sid) ensures |c| <= |d| {
      ChainIsFound(e, p, r, k, d, |d| - 1);
    }
    ChainReportSizes(e, c);
    assert ReportedChain(e, sid, Report(e, p, sid), c);
  }

  lemma GatedIsBreached(e: Estate, p: Provenance, r: Rounds, k: nat, loc: Location)
    requires AtFixpoint(e, p, r, k) && Closed(e, p)
    ensures loc in p.unlockedBy && p.unlockedBy[loc].Some? <==> loc in e.locations && Breached(e, loc)
  {
    if loc in p.unlockedBy && p.unlockedBy[loc].Some? {
      assert OpenedBy(e, p, r, loc);
      var (sid, user) := p.unlockedBy[loc].value;
      var c := ProvenanceIsAChain(e, p, r, sid, {});
      assert BreachedAt(e, loc, c, user);
    }
    if Breached(e, loc) {
      var c, user :| BreachedAt(e, loc, c, user);
      ChainIsFound(e, p, r, k, c, |c| - 1);
      assert loc in p.unlockedBy;
      assert OpenedBy(e, p, r, loc);
    }
  }
}
