/** What the report of compose_paths promises about an estate, in the fields of the estate alone
    (rangefinder/paths.py): who is recovered from where, which logins open what, and what is printed. */
module AttackLaws {
  import opened Prelude
  import opened AttackGraph
  import opened ComposePaths

  // ---------------------------------------------------------------- nothing is left to take

  lemma AnonymousIsChain(e: Estate, loc: Location, sid: Sid)
    requires loc.anon && Loots(e, sid, loc)
    ensures Recoverable(e, sid)
  {
    assert ChainTo(e, [Link(None, loc, sid)], sid);
  }

  /** Whatever a recovered credential opens is one more stage of its chain. */
  lemma OpenedIsChain(e: Estate, sid: Sid, g: Grant, loc: Location, next: Sid)
    requires Recoverable(e, sid) && sid in e.principals && g in e.principals[sid].grants
    requires loc in e.locations && Unlocks(g, loc)
    ensures !loc.anon ==> Breached(e, loc)
    ensures Loots(e, next, loc) ==> Recoverable(e, next)
  {
    var c: seq<Link> :| ChainTo(e, c, sid);
    assert OpensAs(e, c[|c| - 1].sid, g.username, loc);
    if !loc.anon { assert BreachedAt(e, loc, c, g.username); }
    if Loots(e, next, loc) {
      ChainExtends(e, c, Link(Some(g.username), loc, next));
      assert ChainTo(e, c + [Link(Some(g.username), loc, next)], next);
    }
  }

  /** A secret of eight characters or more that stands as a whole token in a text anyone can read, other
      than where it is declared, is recovered without a login. */
  lemma AnonymousTextIsRead(e: Estate, graph: Graph, loc: Location, sid: Sid)
    requires IsGraphOf(e, graph) && loc in e.locations && loc.anon && sid in e.principals
    requires |e.principals[sid].secret| >= 8 && e.wholeToken(e.principals[sid].secret, loc.text)
    requires loc.anchor !in e.principals[sid].origins
    ensures sid in graph.reachable && graph.reachable[sid].hops == 0
  {
    AnonymousIsChain(e, loc, sid);
    var c: seq<Link> :| ReportedChain(e, sid, graph.reachable[sid], c);
    assert ChainTo(e, [Link(None, loc, sid)], sid);
  }

  /** A recovered login opens every location of its host and kind, for HTTP of its route; the host counts as
      reached, and the text that lies there is read for every other secret. */
  lemma EveryLoginIsUsed(e: Estate, graph: Graph, sid: Sid, g: Grant, loc: Location, next: Sid)
    requires IsGraphOf(e, graph) && sid in graph.reachable && g in e.principals[sid].grants
    requires loc in e.locations && g.hostId == loc.hostId && g.kind == loc.kind
    requires g.kind == "http" ==> g.qualifier == loc.qualifier
    ensures !loc.anon ==> loc.hostId in graph.hostsReached
    ensures next in e.principals && loc.anchor !in e.principals[next].origins
            && |e.principals[next].secret| >= 8 && e.wholeToken(e.principals[next].secret, loc.text)
            ==> next in graph.reachable && graph.reachable[next].hops <= graph.reachable[sid].hops + 1
  {
    OpenedIsChain(e, sid, g, loc, next);
    if Loots(e, next, loc) { OneMoreHop(e, graph, sid, g, loc, next); }
  }

  lemma OneMoreHop(e: Estate, graph: Graph, sid: Sid, g: Grant, loc: Location, next: Sid)
    requires IsGraphOf(e, graph) && sid in graph.reachable && g in e.principals[sid].grants
    requires loc in e.locations && Unlocks(g, loc) && Loots(e, next, loc) && next in graph.reachable
    ensures graph.reachable[next].hops <= graph.reachable[sid].hops + 1
  {
    var c: seq<Link> :| ReportedChain(e, sid, graph.reachable[sid], c);
    var d: seq<Link> :| ReportedChain(e, next, graph.reachable[next], d);
    assert OpensAs(e, c[|c| - 1].sid, g.username, loc);
    ChainExtends(e, c, Link(Some(g.username), loc, next));
    assert ChainTo(e, c + [Link(Some(g.username), loc, next)], next);
  }

  // ---------------------------------------------------------------- nothing is made up

  /** A place that gives the credential away: its secret is long enough, stands there as a whole token, and
      is not declared there. */
  ghost predicate GivesAway(e: Estate, sid: Sid, loc: Location) {
    && sid in e.principals && loc in e.locations && loc.anchor !in e.principals[sid].origins
    && |e.principals[sid].secret| >= 8 && e.wholeToken(e.principals[sid].secret, loc.text)
  }

  /** A login of `holder` for the host and kind of `loc`, and for HTTP for its route. */
  ghost predicate HasLogin(e: Estate, holder: Sid, g: Grant, loc: Location) {
    && holder in e.principals && g in e.principals[holder].grants && g.hostId == loc.hostId && g.kind == loc.kind
    && (g.kind == "http" ==> g.qualifier == loc.qualifier)
  }

  /** Recovered in one hop more than `holder`, from a place that a login of `holder` opens. */
  ghost predicate FoundThrough(e: Estate, graph: Graph, sid: Sid, holder: Sid, g: Grant, loc: Location)
    requires sid in graph.reachable
  {
    && GivesAway(e, sid, loc) && HasLogin(e, holder, g, loc) && holder in graph.reachable
    && graph.reachable[holder].hops + 1 == graph.reachable[sid].hops
  }

  /** Each recovered credential is given away by a text that anyone can read, when it takes no login, and
      otherwise by one that some credential recovered in one hop less opens. */
  lemma EveryFindHasASource(e: Estate, graph: Graph, sid: Sid)
    requires IsGraphOf(e, graph) && sid in graph.reachable
    ensures graph.reachable[sid].hops == 0 ==> exists loc :: GivesAway(e, sid, loc) && loc.anon
    ensures graph.reachable[sid].hops > 0 ==> exists holder, g, loc :: FoundThrough(e, graph, sid, holder, g, loc)
  {
    var c: seq<Link> :| ReportedChain(e, sid, graph.reachable[sid], c);
    var n := |c| - 1;
    assert Loots(e, c[n].sid, c[n].loc);
    if n == 0 {
      assert GivesAway(e, sid, c[0].loc) && c[0].loc.anon;
    } else {
      assert LinkFrom(e, c[n - 1], c[n]);
      var holder, loc := c[n - 1].sid, c[n].loc;
      var g :| g in e.principals[holder].grants && g.username == c[n].login.value && Unlocks(g, loc);
      FrontIsShortest(e, graph, c, sid);
      assert FoundThrough(e, graph, sid, holder, g, loc);
    }
  }

  lemma FrontIsChain(e: Estate, c: seq<Link>)
    requires IsChain(e, c) && |c| > 1
    ensures ChainTo(e, c[..|c| - 1], c[|c| - 2].sid)
  {
    var front := c[..|c| - 1];
    forall i | 1 <= i < |front| ensures LinkFrom(e, front[i - 1], front[i]) {
      assert LinkFrom(e, c[i - 1], c[i]);
    }
  }

  /** The front of a shortest chain is a shortest chain. */
  lemma FrontIsShortest(e: Estate, graph: Graph, c: seq<Link>, sid: Sid)
    requires IsGraphOf(e, graph) && ShortestChainTo(e, c, sid) && |c| > 1
    ensures c[|c| - 2].sid in graph.reachable && graph.reachable[c[|c| - 2].sid].hops == |c| - 2
  {
    var holder := c[|c| - 2].sid;
    FrontIsChain(e, c);
    assert Loots(e, holder, c[|c| - 2].loc);
    var d: seq<Link> :| ReportedChain(e, holder, graph.reachable[holder], d);
    assert LinkFrom(e, c[|c| - 2], c[|c| - 1]) && Loots(e, sid, c[|c| - 1].loc);
    ChainExtends(e, d, c[|c| - 1]);
    assert ChainTo(e, d + [c[|c| - 1]], sid);
  }

  ghost predicate ReachedThrough(e: Estate, graph: Graph, host: string, holder: Sid, g: Grant, loc: Location) {
    loc in e.locations && !loc.anon && loc.hostId == host && holder in graph.reachable && HasLogin(e, holder, g, loc)
  }

  /** Each host that counts as reached has a location behind a login that some recovered credential has. */
  lemma EveryReachedHostHasALogin(e: Estate, graph: Graph, host: string)
    requires IsGraphOf(e, graph) && host in graph.hostsReached
    ensures exists holder, g, loc :: ReachedThrough(e, graph, host, holder, g, loc)
  {
    var loc :| loc in e.locations && Breached(e, loc) && loc.hostId == host;
    var c: seq<Link>, user :| BreachedAt(e, loc, c, user);
    var holder := c[|c| - 1].sid;
    assert Loots(e, holder, c[|c| - 1].loc) && ChainTo(e, c, holder);
    var g :| g in e.principals[holder].grants && g.username == user && Unlocks(g, loc);
    assert ReachedThrough(e, graph, host, holder, g, loc);
  }

  // ---------------------------------------------------------------- what is printed

  /** The three lines of one stage: how the place is opened, that it is read, and what is recovered. */
  ghost predicate PrintsStage(e: Estate, link: Link, lines: seq<Step>) {
    && |lines| == 3 && link.sid in e.principals
    && lines[0] == (match link.login
                    case None => AnonymousAccess
                    case Some(user) => Authenticate(link.loc.hostId, link.loc.kind, user))
    && lines[1] == Read(link.loc.anchor) && lines[2] == Recover(link.sid, e.principals[link.sid].usernames)
  }

  lemma {:induction false} StepsAt(e: Estate, c: seq<Link>, i: nat)
    requires IsChain(e, c) && i < |c|
    ensures |StepsOf(e, c)| == 3 * |c| && PrintsStage(e, c[i], StepsOf(e, c)[3 * i..3 * i + 3])
    decreases |c|
  {
    var n := |c| - 1;
    ChainReportSizes(e, c);
    assert Loots(e, c[n].sid, c[n].loc);
    if n == 0 {
      assert c[..0] == [];
    } else {
      FrontIsChain(e, c);
      ChainReportSizes(e, c[..n]);
      assert LinkFrom(e, c[n - 1], c[n]);
      if i < n {
        StepsAt(e, c[..n], i);
        assert StepsOf(e, c)[3 * i..3 * i + 3] == StepsOf(e, c[..n])[3 * i..3 * i + 3];
      }
    }
  }

  /** The printed steps of a recovered credential are those of a shortest chain, stage by stage. */
  lemma ReportPrintsAChain(e: Estate, graph: Graph, sid: Sid) returns (c: seq<Link>)
    requires IsGraphOf(e, graph) && sid in graph.reachable
    ensures ShortestChainTo(e, c, sid) && |graph.reachable[sid].steps| == 3 * |c|
    ensures forall i :: 0 <= i < |c| ==> PrintsStage(e, c[i], graph.reachable[sid].steps[3 * i..3 * i + 3])
  {
    c :| ReportedChain(e, sid, graph.reachable[sid], c);
    forall i | 0 <= i < |c| ensures PrintsStage(e, c[i], graph.reachable[sid].steps[3 * i..3 * i + 3]) {
      StepsAt(e, c, i);
    }
  }
}
