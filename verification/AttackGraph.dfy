/** The credential graph of an estate (rangefinder/paths.py): what a location and a principal are,
    the LOOT and ACCESS edges between them, and attack chains, the reference notion of a path from
    an anonymous start to a recovered credential.  Chains say nothing about how they are found. */
module AttackGraph {
  import opened Prelude

  type Sid = string

  /** A readable blob and the access it takes to reach it. */
  datatype Location = Location(hostId: string, kind: string, qualifier: string, anon: bool,
                               anchor: string, text: string)

  /** One service login a secret opens, with the account that authenticates it. */
  datatype Grant = Grant(hostId: string, kind: string, qualifier: string, username: string)

  /** A distinct secret and everything it grants. */
  datatype Principal = Principal(secret: string, usernames: set<string>, grants: set<Grant>,
                                 origins: set<string>)

  /** `wholeToken(secret, text)` is the whole-token regular expression search. */
  datatype Estate = Estate(principals: map<Sid, Principal>, locations: seq<Location>,
                           wholeToken: (string, string) -> bool)

  const MIN_LEAK_SECRET_LEN := 8

  predicate LeakContains(e: Estate, secret: string, text: string) {
    |secret| >= MIN_LEAK_SECRET_LEN && e.wholeToken(secret, text)
  }

  /** HTTP authentication is per route; every other kind is per host. */
  predicate Unlocks(g: Grant, loc: Location) {
    g.hostId == loc.hostId && g.kind == loc.kind && (g.kind != "http" || g.qualifier == loc.qualifier)
  }

  /** LOOT edge: the text of `loc` gives the secret away, and `loc` is not where it is declared. */
  predicate Loots(e: Estate, sid: Sid, loc: Location) {
    && sid in e.principals
    && loc in e.locations
    && loc.anchor !in e.principals[sid].origins
    && LeakContains(e, e.principals[sid].secret, loc.text)
  }

  /** ACCESS edge: `sid` opens `loc`, logging in as `user`. */
  ghost predicate OpensAs(e: Estate, sid: Sid, user: string, loc: Location) {
    && sid in e.principals
    && loc in e.locations
    && exists g :: g in e.principals[sid].grants && g.username == user && Unlocks(g, loc)
  }

  // ---------------------------------------------------------------- attack chains

  /** One stage of an attack: log in (not for the first stage), read `loc`, recover `sid`. */
  datatype Link = Link(login: Option<string>, loc: Location, sid: Sid)

  ghost predicate LinkFrom(e: Estate, previous: Link, next: Link) {
    next.login.Some? && OpensAs(e, previous.sid, next.login.value, next.loc)
  }

  ghost predicate IsChain(e: Estate, c: seq<Link>) {
    && |c| > 0
    && c[0].login.None? && c[0].loc.anon
    && (forall i :: 0 <= i < |c| ==> Loots(e, c[i].sid, c[i].loc))
    && (forall i :: 1 <= i < |c| ==> LinkFrom(e, c[i - 1], c[i]))
  }

  ghost predicate ChainTo(e: Estate, c: seq<Link>, sid: Sid) {
    IsChain(e, c) && c[|c| - 1].sid == sid
  }

  ghost predicate Recoverable(e: Estate, sid: Sid) {
    exists c :: ChainTo(e, c, sid)
  }

  /** No chain to `sid` is shorter than `c`. */
  ghost predicate ShortestChainTo(e: Estate, c: seq<Link>, sid: Sid) {
    ChainTo(e, c, sid) && forall d :: ChainTo(e, d, sid) ==> |c| <= |d|
  }

  /** A location behind authentication that some chain opens. */
  ghost predicate BreachedAt(e: Estate, loc: Location, c: seq<Link>, user: string) {
    !loc.anon && IsChain(e, c) && OpensAs(e, c[|c| - 1].sid, user, loc)
  }

  ghost predicate Breached(e: Estate, loc: Location) {
    exists c, user :: BreachedAt(e, loc, c, user)
  }

  // ---------------------------------------------------------------- what a report prints

  datatype Step =
    | AnonymousAccess
    | Authenticate(hostId: string, kind: string, user: string)
    | Read(anchor: string)
    | Recover(sid: Sid, usernames: set<string>)

  datatype Pivot = Pivot(hostId: string, kind: string, qualifier: string, username: string)

  /** The printed steps of a chain. */
  ghost function StepsOf(e: Estate, c: seq<Link>): seq<Step>
    requires forall i :: 0 <= i < |c| ==> c[i].sid in e.principals
  {
    if |c| == 0 then [AnonymousAccess] else
      var last := c[|c| - 1];
      StepsOf(e, c[..|c| - 1])
      + (if last.login.Some? then [Authenticate(last.loc.hostId, last.loc.kind, last.login.value)] else [])
      + [Read(last.loc.anchor), Recover(last.sid, e.principals[last.sid].usernames)]
  }

  /** The authentications of a chain, in order. */
  ghost function PivotsOf(c: seq<Link>): seq<Pivot> {
    if |c| == 0 then [] else
      var last := c[|c| - 1];
      PivotsOf(c[..|c| - 1])
      + (if last.login.Some?
         then [Pivot(last.loc.hostId, last.loc.kind, last.loc.qualifier, last.login.value)] else [])
  }

  /** A chain is reported in three lines a stage, with one pivot for each stage after the first. */
  lemma {:induction false} ChainReportSizes(e: Estate, c: seq<Link>)
    requires IsChain(e, c)
    ensures |PivotsOf(c)| == |c| - 1
    ensures |StepsOf(e, c)| == 3 * |c|
  {
    if |c| == 1 {
      assert c[..0] == [];
    } else {
      var front := c[..|c| - 1];
      assert IsChain(e, front) by {
        forall i | 1 <= i < |front| ensures LinkFrom(e, front[i - 1], front[i]) {
          assert LinkFrom(e, c[i - 1], c[i]);
        }
      }
      ChainReportSizes(e, front);
      assert LinkFrom(e, c[|c| - 2], c[|c| - 1]);
    }
  }

  /** Pivot number `i - 1` is the login of stage `i`: the place opened and the account used. */
  lemma {:induction false} PivotAt(c: seq<Link>, i: nat)
    requires 1 <= i < |c| && c[0].login.None? && forall j :: 1 <= j < |c| ==> c[j].login.Some?
    ensures |PivotsOf(c)| == |c| - 1
    ensures PivotsOf(c)[i - 1] == Pivot(c[i].loc.hostId, c[i].loc.kind, c[i].loc.qualifier, c[i].login.value)
    decreases |c|
  {
    var front := c[..|c| - 1];
    if |front| == 1 {
      assert PivotsOf(front[..0]) == [] && PivotsOf(front) == [];
    } else {
      PivotAt(front, if i < |front| then i else 1);
    }
  }

  lemma ChainExtends(e: Estate, c: seq<Link>, next: Link)
    requires IsChain(e, c)
    requires Loots(e, next.sid, next.loc) && LinkFrom(e, c[|c| - 1], next)
    ensures ChainTo(e, c + [next], next.sid)
  {
    var d := c + [next];
    forall i | 1 <= i < |d| ensures LinkFrom(e, d[i - 1], d[i]) {
      if i < |c| { assert LinkFrom(e, c[i - 1], c[i]); }
    }
  }

  // ---------------------------------------------------------------- monotonicity

  /** `f` differs from `e` only in ways that help an attacker: more principals, more grants, fewer
      declared origins, and every location still there, perhaps readable anonymously now. */
  ghost predicate AtLeastAsOpen(e: Estate, f: Estate) {
    && e.wholeToken == f.wholeToken
    && (forall sid :: sid in e.principals ==>
          && sid in f.principals
          && f.principals[sid].secret == e.principals[sid].secret
          && e.principals[sid].grants <= f.principals[sid].grants
          && f.principals[sid].origins <= e.principals[sid].origins)
    && (forall loc :: loc in e.locations ==> exists twin :: Reopens(f, loc, twin))
  }

  ghost predicate Reopens(f: Estate, loc: Location, twin: Location) {
    twin in f.locations && (twin == loc || twin == loc.(anon := true))
  }

  /** Every chain of an estate is, stage for stage, a chain of any estate at least as open. */
  lemma {:induction false} ChainTransfers(e: Estate, f: Estate, c: seq<Link>) returns (d: seq<Link>)
    requires AtLeastAsOpen(e, f) && IsChain(e, c)
    ensures IsChain(f, d) && |d| == |c|
    ensures d[|d| - 1].sid == c[|c| - 1].sid
  {
    var last := c[|c| - 1];
    assert Loots(e, last.sid, last.loc);
    var twin :| Reopens(f, last.loc, twin);
    if |c| == 1 {
      d := [Link(None, twin, last.sid)];
    } else {
      var front := c[..|c| - 1];
      assert IsChain(e, front) by {
        forall i | 1 <= i < |front| ensures LinkFrom(e, front[i - 1], front[i]) {
          assert LinkFrom(e, c[i - 1], c[i]);
        }
      }
      var d' := ChainTransfers(e, f, front);
      assert LinkFrom(e, c[|c| - 2], last);
      var next := Link(last.login, twin, last.sid);
      var g :| g in e.principals[c[|c| - 2].sid].grants
        && g.username == last.login.value && Unlocks(g, last.loc);
      assert Unlocks(g, twin);
      assert OpensAs(f, d'[|d'| - 1].sid, last.login.value, twin);
      ChainExtends(f, d', next);
      d := d' + [next];
    }
  }

  /** Opening an estate further never loses a credential and never raises its number of hops. */
  lemma OpeningNeverHelpsTheDefender(e: Estate, f: Estate, sid: Sid, c: seq<Link>)
    requires AtLeastAsOpen(e, f) && ShortestChainTo(e, c, sid)
    ensures Recoverable(f, sid)
    ensures forall d :: ShortestChainTo(f, d, sid) ==> |d| <= |c|
  {
    var t := ChainTransfers(e, f, c);
    assert ChainTo(f, t, sid);
  }

  /** The estate with location number `i` made readable to everyone. */
  function Anonymise(e: Estate, i: nat): Estate
    requires i < |e.locations|
  {
    e.(locations := e.locations[i := e.locations[i].(anon := true)])
  }

  lemma AnonymiseOpens(e: Estate, i: nat)
    requires i < |e.locations|
    ensures AtLeastAsOpen(e, Anonymise(e, i))
  {
    var f := Anonymise(e, i);
    forall loc | loc in e.locations ensures exists twin :: Reopens(f, loc, twin) {
      var j :| 0 <= j < |e.locations| && e.locations[j] == loc;
      assert f.locations[j] in f.locations;
      assert Reopens(f, loc, f.locations[j]);
    }
  }
}
