/** Extending recovered credentials through group membership and captured control edges to a fixpoint
    (escalate_via_acls in rangefinder/paths.py). */
module Escalation {
  import opened Acl

  /** `lower` and `accountOf` are str.lower and the reduction of a login handle to an account name. */
  datatype Domain = Domain(edges: seq<AclEdge>, membership: map<string, set<string>>,
                           lower: string -> string, accountOf: string -> string)

  // ---------------------------------------------------------------- control paths

  function GroupsOf(d: Domain, name: string): set<string> {
    if name in d.membership then d.membership[name] else {}
  }

  predicate Usable(d: Domain, edge: AclEdge) {
    d.lower(edge.trustee) != "" && d.lower(edge.objectName) != ""
  }

  /** `edge` hands control of `target` to `trustee`. */
  predicate Controls(d: Domain, edge: AclEdge, trustee: string, target: string) {
    && Usable(d, edge) && edge.right != DCSync
    && d.lower(edge.trustee) == trustee && d.lower(edge.objectName) == target
  }

  ghost predicate ControlStep(d: Domain, a: string, b: string) {
    b in GroupsOf(d, a) || exists edge :: edge in d.edges && Controls(d, edge, a, b)
  }

  /** The account behind login handle `user` of some recovered credential. */
  ghost predicate SeedUser(d: Domain, reachable: seq<seq<string>>, user: string, name: string) {
    name != "" && d.accountOf(user) == name && exists i :: 0 <= i < |reachable| && user in reachable[i]
  }

  ghost predicate IsSeed(d: Domain, reachable: seq<seq<string>>, name: string) {
    exists user :: SeedUser(d, reachable, user, name)
  }

  ghost predicate IsControlPath(d: Domain, reachable: seq<seq<string>>, path: seq<string>) {
    && |path| > 0 && IsSeed(d, reachable, path[0])
    && forall i :: 1 <= i < |path| ==> ControlStep(d, path[i - 1], path[i])
  }

  ghost predicate PathTo(d: Domain, reachable: seq<seq<string>>, path: seq<string>, name: string) {
    IsControlPath(d, reachable, path) && path[|path| - 1] == name
  }

  /** The reference notion: some path of memberships and control edges leads from a seed to `name`. */
  ghost predicate Controlled(d: Domain, reachable: seq<seq<string>>, name: string) {
    exists path :: PathTo(d, reachable, path, name)
  }

  ghost predicate IsMembershipPath(d: Domain, path: seq<string>) {
    |path| > 0 && forall i :: 1 <= i < |path| ==> path[i] in GroupsOf(d, path[i - 1])
  }

  /** `group` is a group of `name`, directly or through other groups. */
  ghost predicate InGroup(d: Domain, name: string, group: string) {
    exists path :: IsMembershipPath(d, path) && path[0] == name && path[|path| - 1] == group
  }

  lemma ControlledStep(d: Domain, reachable: seq<seq<string>>, a: string, b: string)
    requires Controlled(d, reachable, a) && ControlStep(d, a, b)
    ensures Controlled(d, reachable, b)
  {
    var path :| PathTo(d, reachable, path, a);
    assert PathTo(d, reachable, path + [b], b);
  }

  lemma {:induction false} ControlledGroup(d: Domain, reachable: seq<seq<string>>, name: string, path: seq<string>)
    requires Controlled(d, reachable, name) && IsMembershipPath(d, path) && path[0] == name
    ensures Controlled(d, reachable, path[|path| - 1])
  {
    if |path| > 1 {
      var front := path[..|path| - 1];
      ControlledGroup(d, reachable, name, front);
      ControlledStep(d, reachable, front[|front| - 1], path[|path| - 1]);
    }
  }

  // ---------------------------------------------------------------- group closure

  lemma InGroupStep(d: Domain, name: string, a: string, g: string)
    requires InGroup(d, name, a) && g in GroupsOf(d, a)
    ensures InGroup(d, name, g)
  {
    var path :| IsMembershipPath(d, path) && path[0] == name && path[|path| - 1] == a;
    var longer := path + [g];
    assert IsMembershipPath(d, longer) && longer[0] == name && longer[|longer| - 1] == g;
  }

  ghost function AllGroups(d: Domain): set<string> {
    set name, g | name in d.membership && g in d.membership[name] :: g
  }

  /** Add to `into` the groups `name` belongs to, and theirs, without re-entering what is there. */
  method WithGroups(d: Domain, name: string, into0: set<string>) returns (into: set<string>)
    ensures into0 <= into
    ensures GroupsOf(d, name) <= into
    ensures forall x :: x in into - into0 ==> InGroup(d, name, x) && GroupsOf(d, x) <= into
  {
    into := into0;
    var stack := [name];
    assert IsMembershipPath(d, [name]);
    while stack != []
      invariant into0 <= into
      invariant name in stack || GroupsOf(d, name) <= into
      invariant forall x :: x in into - into0 ==> x in stack || GroupsOf(d, x) <= into
      invariant forall x :: x in stack || x in into - into0 ==> InGroup(d, name, x)
      decreases AllGroups(d) - into, |stack|
    {
      var p := stack[|stack| - 1];
      ghost var stack0, into1 := stack, into;
      stack := stack[..|stack| - 1];
      assert stack0 == stack + [p];
      var pending := GroupsOf(d, p);
      while pending != {}
        invariant pending <= GroupsOf(d, p)
        invariant into1 <= into && into0 <= into
        invariant GroupsOf(d, p) - pending <= into
        invariant name in stack || name == p || GroupsOf(d, name) <= into
        invariant forall x :: x in into - into0 ==> x in stack || x == p || GroupsOf(d, x) <= into
        invariant forall x :: x in stack || x in into - into0 ==> InGroup(d, name, x)
        invariant into == into1 ==> |stack| < |stack0|
        invariant into - into1 <= AllGroups(d)
        decreases pending
      {
        var g :| g in pending;
        pending := pending - {g};
        if g !in into {
          InGroupStep(d, name, p, g);
          into, stack := into + {g}, stack + [g];
        }
      }
      if into != into1 {
        assert exists g :: g in into && g !in into1;
        var g :| g in into && g !in into1;
        assert AllGroups(d) - into < AllGroups(d) - into1;
      }
    }
  }

  // ---------------------------------------------------------------- provenance of control

  datatype Origin =
    | Seed(user: string)
    | Member(of: string)
    | ByAcl(via: string, right: Right, display: string)

  datatype Step =
    | SeedStep(user: string)
    | ActsAs(group: string)
    | AclStep(right: Right, display: string)
    | Control(name: string)
    | ReplicateDomain

  datatype Escalated = Escalated(target: string, right: Right, steps: seq<Step>, domainCompromise: bool)

  /** Ranks order names by when they were brought under control. */
  ghost predicate OriginOk(d: Domain, reachable: seq<seq<string>>, origin: map<string, Origin>,
                           rank: map<string, nat>, x: string)
    requires x in origin && rank.Keys == origin.Keys
  {
    match origin[x]
    case Seed(user) => SeedUser(d, reachable, user, x)
    case Member(of) => of in origin && rank[of] < rank[x] && InGroup(d, of, x)
    case ByAcl(via, right, display) =>
      via in origin && rank[via] < rank[x] && exists edge :: edge in d.edges && ViaEdge(d, edge, via, right, display, x)
  }

  ghost predicate ViaEdge(d: Domain, edge: AclEdge, via: string, right: Right, display: string, x: string) {
    Controls(d, edge, via, x) && edge.right == right && edge.objectName == display
  }

  ghost predicate OriginsOk(d: Domain, reachable: seq<seq<string>>, origin: map<string, Origin>,
                            rank: map<string, nat>)
  {
    && rank.Keys == origin.Keys
    && forall x {:trigger OriginOk(d, reachable, origin, rank, x)} :: x in origin ==>
         OriginOk(d, reachable, origin, rank, x)
  }

  /** The printed chain to `x`; `seen` guards against cycles. */
  function EscChain(origin: map<string, Origin>, x: string, seen: set<string>): seq<Step>
    decreases origin.Keys - seen
  {
    if x !in origin || x in seen then [Control(x)] else
      match origin[x]
      case Seed(user) => [SeedStep(user)]
      case Member(of) => EscChain(origin, of, seen + {x}) + [ActsAs(x)]
      case ByAcl(via, right, display) => EscChain(origin, via, seen + {x}) + [AclStep(right, display)]
  }

  /** A chain that starts with a recovered credential and reaches `x` by steps that exist. */
  ghost predicate Genuine(d: Domain, reachable: seq<seq<string>>, steps: seq<Step>, x: string)
    decreases |steps|
  {
    |steps| > 0 &&
    match steps[|steps| - 1]
    case SeedStep(user) => |steps| == 1 && SeedUser(d, reachable, user, x)
    case ActsAs(group) =>
      group == x && exists y :: Genuine(d, reachable, steps[..|steps| - 1], y) && InGroup(d, y, x)
    case AclStep(right, display) =>
      exists y, edge :: Genuine(d, reachable, steps[..|steps| - 1], y)
                        && edge in d.edges && ViaEdge(d, edge, y, right, display, x)
    case _ => false
  }

  /** Provenance is well-founded: the guard never fires and the chain is genuine. */
  lemma {:induction false} EscChainIsGenuine(d: Domain, reachable: seq<seq<string>>, origin: map<string, Origin>,
                                             rank: map<string, nat>, x: string, seen: set<string>)
    requires OriginsOk(d, reachable, origin, rank) && x in origin
    requires forall y :: y in seen ==> y in rank && rank[y] > rank[x]
    ensures Genuine(d, reachable, EscChain(origin, x, seen), x)
    decreases rank[x]
  {
    assert OriginOk(d, reachable, origin, rank, x);
    var steps := EscChain(origin, x, seen);
    match origin[x]
    case Seed(user) =>
    case Member(of) =>
      EscChainIsGenuine(d, reachable, origin, rank, of, seen + {x});
      assert steps[..|steps| - 1] == EscChain(origin, of, seen + {x});
    case ByAcl(via, right, display) =>
      EscChainIsGenuine(d, reachable, origin, rank, via, seen + {x});
      assert steps[..|steps| - 1] == EscChain(origin, via, seen + {x});
  }

  lemma {:induction false} OriginsAreControlled(d: Domain, reachable: seq<seq<string>>, origin: map<string, Origin>,
                                                rank: map<string, nat>, x: string)
    requires OriginsOk(d, reachable, origin, rank) && x in origin
    ensures Controlled(d, reachable, x)
    decreases rank[x]
  {
    assert OriginOk(d, reachable, origin, rank, x);
    match origin[x]
    case Seed(user) =>
      assert PathTo(d, reachable, [x], x);
    case Member(of) =>
      OriginsAreControlled(d, reachable, origin, rank, of);
      var path :| IsMembershipPath(d, path) && path[0] == of && path[|path| - 1] == x;
      ControlledGroup(d, reachable, of, path);
    case ByAcl(via, right, display) =>
      OriginsAreControlled(d, reachable, origin, rank, via);
      var edge :| edge in d.edges && ViaEdge(d, edge, via, right, display, x);
      ControlledStep(d, reachable, via, x);
  }

  // ---------------------------------------------------------------- the state of the fixpoint

  /** The names under control, and how each came to be so. */
  datatype State = State(controlled: set<string>, origin: map<string, Origin>, escalations: seq<Escalated>,
                         dcsyncDone: bool)

  /** Each control escalation is one ACL-owned name, reported once and with a genuine chain. */
  ghost predicate AclReport(d: Domain, reachable: seq<seq<string>>, st: State, i: nat)
    requires i < |st.escalations|
  {
    var esc := st.escalations[i];
    var x := d.lower(esc.target);
    && x in st.origin && st.origin[x].ByAcl? && st.origin[x].right == esc.right && st.origin[x].display == esc.target
    && Genuine(d, reachable, esc.steps, x) && esc.steps[|esc.steps| - 1] == AclStep(esc.right, esc.target)
  }

  ghost predicate DcSyncReport(d: Domain, reachable: seq<seq<string>>, st: State, i: nat)
    requires i < |st.escalations|
  {
    var esc := st.escalations[i];
    && esc.target == "<domain>" && esc.right == DCSync && |esc.steps| > 0
    && esc.steps[|esc.steps| - 1] == ReplicateDomain
    && exists edge :: edge in d.edges && edge.right == DCSync && Usable(d, edge)
                      && d.lower(edge.trustee) in st.origin
                      && Genuine(d, reachable, esc.steps[..|esc.steps| - 1], d.lower(edge.trustee))
  }

  ghost predicate AclReports(d: Domain, reachable: seq<seq<string>>, st: State) {
    forall i :: 0 <= i < |st.escalations| && !st.escalations[i].domainCompromise ==> AclReport(d, reachable, st, i)
  }

  ghost predicate DcSyncReports(d: Domain, reachable: seq<seq<string>>, st: State) {
    forall i :: 0 <= i < |st.escalations| && st.escalations[i].domainCompromise ==> DcSyncReport(d, reachable, st, i)
  }

  ghost predicate TakenAt(d: Domain, st: State, x: string, i: int) {
    0 <= i < |st.escalations| && !st.escalations[i].domainCompromise && d.lower(st.escalations[i].target) == x
  }

  /** Every ACL-owned name is reported, and only once. */
  ghost predicate TakenOnce(d: Domain, st: State) {
    && (forall x :: x in st.origin && st.origin[x].ByAcl? ==> exists i :: TakenAt(d, st, x, i))
    && (forall x, i, j :: TakenAt(d, st, x, i) && TakenAt(d, st, x, j) ==> i == j)
  }

  ghost predicate CompromisedAt(st: State, i: int) {
    0 <= i < |st.escalations| && st.escalations[i].domainCompromise
  }

  /** Domain compromise is reported at most once. */
  ghost predicate CompromisedOnce(st: State) {
    && (st.dcsyncDone <==> exists i :: CompromisedAt(st, i))
    && (forall i, j :: CompromisedAt(st, i) && CompromisedAt(st, j) ==> i == j)
  }

  ghost predicate Reported(d: Domain, reachable: seq<seq<string>>, st: State) {
    AclReports(d, reachable, st) && DcSyncReports(d, reachable, st) && TakenOnce(d, st) && CompromisedOnce(st)
  }

  ghost predicate GroupClosed(d: Domain, origin: map<string, Origin>) {
    forall x {:trigger GroupsOf(d, x)} :: x in origin ==> GroupsOf(d, x) <= origin.Keys
  }

  ghost predicate SeedsIn(d: Domain, reachable: seq<seq<string>>, origin: map<string, Origin>) {
    forall x :: IsSeed(d, reachable, x) ==> x in origin
  }

  ghost predicate Inv(d: Domain, reachable: seq<seq<string>>, st: State, rank: map<string, nat>, clock: nat) {
    && st.controlled == st.origin.Keys && OriginsOk(d, reachable, st.origin, rank)
    && (forall x :: x in rank ==> rank[x] < clock)
    && SeedsIn(d, reachable, st.origin) && GroupClosed(d, st.origin)
    && Reported(d, reachable, st)
  }

  /** Nothing is left to do for `edge`. */
  ghost predicate Settled(d: Domain, st: State, edge: AclEdge) {
    Usable(d, edge) && d.lower(edge.trustee) in st.origin ==>
      if edge.right == DCSync then st.dcsyncDone else d.lower(edge.objectName) in st.origin
  }

  /** At the fixpoint everything on a control path is controlled. */
  lemma {:induction false} PathIsControlled(d: Domain, reachable: seq<seq<string>>, origin: map<string, Origin>,
                                            st: State, path: seq<string>)
    requires st.origin == origin && SeedsIn(d, reachable, origin) && GroupClosed(d, origin)
    requires forall edge :: edge in d.edges ==> Settled(d, st, edge)
    requires IsControlPath(d, reachable, path)
    ensures path[|path| - 1] in origin
  {
    if |path| > 1 {
      var front := path[..|path| - 1];
      PathIsControlled(d, reachable, origin, st, front);
      assert ControlStep(d, path[|path| - 2], path[|path| - 1]);
    }
  }

  // ---------------------------------------------------------------- steps that keep the invariant

  /** `origin'` adds names to `origin` and overwrites none. */
  ghost predicate Extends(origin: map<string, Origin>, origin': map<string, Origin>) {
    forall x :: x in origin ==> x in origin' && origin'[x] == origin[x]
  }

  /** Those of `groups` that have no origin are recorded as groups of `of`. */
  function RecordGroups(origin: map<string, Origin>, groups: set<string>, of: string): map<string, Origin> {
    origin + map g | g in groups - origin.Keys :: Member(of)
  }

  ghost function RecordRanks(rank: map<string, nat>, groups: set<string>, clock: nat): map<string, nat> {
    rank + map g | g in groups - rank.Keys :: clock
  }

  lemma GroupsKeepOrigins(d: Domain, reachable: seq<seq<string>>, origin: map<string, Origin>, rank: map<string, nat>,
                          clock: nat, groups: set<string>, of: string)
    requires OriginsOk(d, reachable, origin, rank) && of in origin && rank[of] < clock
    requires forall g :: g in groups - origin.Keys ==> InGroup(d, of, g)
    ensures OriginsOk(d, reachable, RecordGroups(origin, groups, of), RecordRanks(rank, groups, clock))
  {
    var origin', rank' := RecordGroups(origin, groups, of), RecordRanks(rank, groups, clock);
    forall x | x in origin' ensures OriginOk(d, reachable, origin', rank', x) {
      if x in origin { assert OriginOk(d, reachable, origin, rank, x); }
    }
  }

  /** The state once groups of `of` have been added to the controlled names. */
  function AddGroups(st: State, controlled: set<string>, of: string): State {
    st.(controlled := controlled, origin := RecordGroups(st.origin, controlled - st.controlled, of))
  }

  lemma GroupsKeepReports(d: Domain, reachable: seq<seq<string>>, st: State, controlled: set<string>, of: string)
    requires Reported(d, reachable, st)
    ensures Reported(d, reachable, AddGroups(st, controlled, of))
  {
    var st' := AddGroups(st, controlled, of);
    ReportsSurvive(d, reachable, st, st');
    forall x | x in st'.origin && st'.origin[x].ByAcl? ensures exists i :: TakenAt(d, st', x, i) {
      var i :| TakenAt(d, st, x, i);
      assert TakenAt(d, st', x, i);
    }
    forall x, i, j | TakenAt(d, st', x, i) && TakenAt(d, st', x, j) ensures i == j {
      assert TakenAt(d, st, x, i) && TakenAt(d, st, x, j);
    }
    SameCompromise(st, st');
  }

  /** Reports stay true as control grows. */
  lemma ReportsSurvive(d: Domain, reachable: seq<seq<string>>, st: State, st': State)
    requires AclReports(d, reachable, st) && DcSyncReports(d, reachable, st)
    requires Extends(st.origin, st'.origin) && st.escalations <= st'.escalations
    ensures forall i :: 0 <= i < |st.escalations| && !st.escalations[i].domainCompromise ==>
              AclReport(d, reachable, st', i)
    ensures forall i :: 0 <= i < |st.escalations| && st.escalations[i].domainCompromise ==>
              DcSyncReport(d, reachable, st', i)
  {
    forall i | 0 <= i < |st.escalations| && !st.escalations[i].domainCompromise
      ensures AclReport(d, reachable, st', i)
    {
      assert AclReport(d, reachable, st, i);
    }
    forall i | 0 <= i < |st.escalations| && st.escalations[i].domainCompromise
      ensures DcSyncReport(d, reachable, st', i)
    {
      assert DcSyncReport(d, reachable, st, i);
    }
  }

  /** Adding control escalations leaves the domain-compromise report alone. */
  lemma SameCompromise(st: State, st': State)
    requires CompromisedOnce(st) && st.escalations <= st'.escalations && st'.dcsyncDone == st.dcsyncDone
    requires forall i :: |st.escalations| <= i < |st'.escalations| ==> !st'.escalations[i].domainCompromise
    ensures CompromisedOnce(st')
  {
    forall i ensures CompromisedAt(st, i) <==> CompromisedAt(st', i) {}
  }

  /** Taking over a target through an edge, before its groups are added. */
  function TakeOver(st: State, edge: AclEdge, trustee: string, target: string): State {
    var origin := st.origin[target := ByAcl(trustee, edge.right, edge.objectName)];
    st.(controlled := st.controlled + {target}, origin := origin,
        escalations := st.escalations + [Escalated(edge.objectName, edge.right, EscChain(origin, target, {}), false)])
  }

  lemma TakeOverKeepsOrigins(d: Domain, reachable: seq<seq<string>>, st: State, rank: map<string, nat>, clock: nat,
                             edge: AclEdge, trustee: string, target: string)
    requires OriginsOk(d, reachable, st.origin, rank) && forall x :: x in rank ==> rank[x] < clock
    requires edge in d.edges && Controls(d, edge, trustee, target)
    requires trustee in st.origin && target !in st.origin
    ensures OriginsOk(d, reachable, TakeOver(st, edge, trustee, target).origin, rank[target := clock])
  {
    var st', rank' := TakeOver(st, edge, trustee, target), rank[target := clock];
    assert ViaEdge(d, edge, trustee, edge.right, edge.objectName, target);
    forall x | x in st'.origin ensures OriginOk(d, reachable, st'.origin, rank', x) {
      if x != target { assert OriginOk(d, reachable, st.origin, rank, x); }
    }
  }

  lemma TakeOverKeepsReports(d: Domain, reachable: seq<seq<string>>, st: State, rank': map<string, nat>,
                             edge: AclEdge, trustee: string, target: string)
    requires Reported(d, reachable, st) && target !in st.origin && d.lower(edge.objectName) == target
    requires OriginsOk(d, reachable, TakeOver(st, edge, trustee, target).origin, rank')
    requires forall y :: y in rank' ==> rank'[y] <= rank'[target]
    ensures Reported(d, reachable, TakeOver(st, edge, trustee, target))
  {
    var st' := TakeOver(st, edge, trustee, target);
    EscChainIsGenuine(d, reachable, st'.origin, rank', target, {});
    ReportsSurvive(d, reachable, st, st');
    assert AclReport(d, reachable, st', |st.escalations|);
    TakenOnceMore(d, reachable, st, edge, trustee, target);
    SameCompromise(st, st');
  }

  lemma TakenOnceMore(d: Domain, reachable: seq<seq<string>>, st: State, edge: AclEdge, trustee: string,
                      target: string)
    requires AclReports(d, reachable, st) && TakenOnce(d, st)
    requires target !in st.origin && d.lower(edge.objectName) == target
    ensures TakenOnce(d, TakeOver(st, edge, trustee, target))
  {
    var st', n := TakeOver(st, edge, trustee, target), |st.escalations|;
    forall x, i | TakenAt(d, st', x, i) && i < n ensures TakenAt(d, st, x, i) && x in st.origin {
      assert AclReport(d, reachable, st, i);
    }
    forall x | x in st'.origin && st'.origin[x].ByAcl? ensures exists i :: TakenAt(d, st', x, i) {
      if x == target {
        assert TakenAt(d, st', x, n);
      } else {
        var i :| TakenAt(d, st, x, i);
        assert TakenAt(d, st', x, i);
      }
    }
  }

  function Replicate(st: State, trustee: string): State {
    st.(dcsyncDone := true,
        escalations := st.escalations
          + [Escalated("<domain>", DCSync, EscChain(st.origin, trustee, {}) + [ReplicateDomain], true)])
  }

  lemma ReplicateKeeps(d: Domain, reachable: seq<seq<string>>, st: State, rank: map<string, nat>, edge: AclEdge)
    requires OriginsOk(d, reachable, st.origin, rank) && Reported(d, reachable, st) && !st.dcsyncDone
    requires edge in d.edges && edge.right == DCSync && Usable(d, edge) && d.lower(edge.trustee) in st.origin
    ensures Reported(d, reachable, Replicate(st, d.lower(edge.trustee)))
  {
    var st' := Replicate(st, d.lower(edge.trustee));
    var n := |st.escalations|;
    EscChainIsGenuine(d, reachable, st.origin, rank, d.lower(edge.trustee), {});
    ReportsSurvive(d, reachable, st, st');
    var steps := st'.escalations[n].steps;
    assert steps[..|steps| - 1] == EscChain(st.origin, d.lower(edge.trustee), {});
    assert DcSyncReport(d, reachable, st', n);
    forall x, i ensures TakenAt(d, st', x, i) <==> TakenAt(d, st, x, i) {}
    forall i ensures CompromisedAt(st', i) <==> i == n { assert !CompromisedAt(st, i); }
    assert CompromisedAt(st', n);
  }

  // ---------------------------------------------------------------- the phases

  /** Every account of a recovered credential seeds control. */
  method SeedAccounts(d: Domain, reachable: seq<seq<string>>)
    returns (controlled: set<string>, origin: map<string, Origin>, ghost rank: map<string, nat>)
    ensures controlled == origin.Keys && OriginsOk(d, reachable, origin, rank)
    ensures forall x :: x in rank ==> rank[x] == 0
    ensures forall x :: x in origin ==> origin[x].Seed?
    ensures SeedsIn(d, reachable, origin)
  {
    controlled, origin, rank := {}, map[], map[];
    for i := 0 to |reachable|
      invariant controlled == origin.Keys
      invariant OriginsOk(d, reachable, origin, rank) && forall x :: x in rank ==> rank[x] == 0
      invariant forall x :: x in origin ==> origin[x].Seed?
      invariant forall k, u :: 0 <= k < i && u in reachable[k] && d.accountOf(u) != "" ==> d.accountOf(u) in origin
    {
      for j := 0 to |reachable[i]|
        invariant controlled == origin.Keys
        invariant OriginsOk(d, reachable, origin, rank) && forall x :: x in rank ==> rank[x] == 0
        invariant forall x :: x in origin ==> origin[x].Seed?
        invariant forall k, u :: 0 <= k < i && u in reachable[k] && d.accountOf(u) != "" ==> d.accountOf(u) in origin
        invariant forall u :: u in reachable[i][..j] && d.accountOf(u) != "" ==> d.accountOf(u) in origin
      {
        var u := reachable[i][j];
        var p := d.accountOf(u);
        if p != "" {
          if p !in origin {
            SeedKeepsOrigins(d, reachable, origin, rank, u);
            origin, rank := origin[p := Seed(u)], rank[p := 0];
          }
          controlled := controlled + {p};
        }
        assert reachable[i][..j + 1] == reachable[i][..j] + [u];
      }
      assert reachable[i][..|reachable[i]|] == reachable[i];
    }
  }

  lemma SeedKeepsOrigins(d: Domain, reachable: seq<seq<string>>, origin: map<string, Origin>, rank: map<string, nat>,
                         u: string)
    requires OriginsOk(d, reachable, origin, rank)
    requires SeedUser(d, reachable, u, d.accountOf(u)) && d.accountOf(u) !in origin
    ensures OriginsOk(d, reachable, origin[d.accountOf(u) := Seed(u)], rank[d.accountOf(u) := 0])
  {
    var p := d.accountOf(u);
    var origin', rank' := origin[p := Seed(u)], rank[p := 0];
    forall x | x in origin' ensures OriginOk(d, reachable, origin', rank', x) {
      if x != p { assert OriginOk(d, reachable, origin, rank, x); }
    }
  }

  /** The groups of the seeds, one seed at a time in any order. */
  method SeedGroups(d: Domain, reachable: seq<seq<string>>)
    returns (controlled: set<string>, origin: map<string, Origin>, ghost rank: map<string, nat>)
    ensures controlled == origin.Keys && OriginsOk(d, reachable, origin, rank)
    ensures forall x :: x in rank ==> rank[x] < 2
    ensures forall x :: x in origin ==> !origin[x].ByAcl?
    ensures SeedsIn(d, reachable, origin) && GroupClosed(d, origin)
  {
    controlled, origin, rank := SeedAccounts(d, reachable);
    var pending := controlled;
    while pending != {}
      invariant controlled == origin.Keys
      invariant OriginsOk(d, reachable, origin, rank) && forall x :: x in rank ==> rank[x] < 2
      invariant pending <= origin.Keys && forall s :: s in pending ==> rank[s] == 0
      invariant forall x :: x in origin ==> !origin[x].ByAcl?
      invariant forall x :: x in rank && rank[x] == 0 ==> x in origin
      invariant SeedsIn(d, reachable, origin)
      invariant forall x :: x in origin && x !in pending ==> GroupsOf(d, x) <= origin.Keys
      decreases pending
    {
      var s :| s in pending;
      var before := controlled;
      controlled := WithGroups(d, s, before);
      GroupsKeepOrigins(d, reachable, origin, rank, 1, controlled - before, s);
      origin, rank := RecordGroups(origin, controlled - before, s), RecordRanks(rank, controlled - before, 1);
      pending := pending - {s};
    }
  }

  /** The targets an edge can name. */
  ghost function Targets(d: Domain): set<string> {
    set edge | edge in d.edges :: d.lower(edge.objectName)
  }

  /** One edge, with the state as it stands. */
  method FollowEdge(d: Domain, reachable: seq<seq<string>>, st: State, ghost rank: map<string, nat>, ghost clock: nat,
                    edge: AclEdge)
    returns (st': State, changed: bool, ghost rank': map<string, nat>, ghost clock': nat)
    requires Inv(d, reachable, st, rank, clock) && edge in d.edges
    ensures Inv(d, reachable, st', rank', clock')
    ensures Extends(st.origin, st'.origin) && (st.dcsyncDone ==> st'.dcsyncDone)
    ensures !changed ==> st' == st && Settled(d, st, edge)
    ensures changed ==> || Targets(d) - st'.origin.Keys < Targets(d) - st.origin.Keys
                        || (!st.dcsyncDone && st'.dcsyncDone && st'.origin == st.origin)
  {
    st', changed, rank', clock' := st, false, rank, clock;
    var trustee, target := d.lower(edge.trustee), d.lower(edge.objectName);
    if trustee == "" || target == "" || trustee !in st.controlled { return; }
    if edge.right == DCSync {
      if !st.dcsyncDone {
        ReplicateKeeps(d, reachable, st, rank, edge);
        st', changed := Replicate(st, trustee), true;
      }
      return;
    }
    if target !in st.controlled {
      st', rank', clock' := TakeTarget(d, reachable, st, rank, clock, edge, trustee, target);
      changed := true;
      assert target in Targets(d);
    }
  }

  method TakeTarget(d: Domain, reachable: seq<seq<string>>, st: State, ghost rank: map<string, nat>, ghost clock: nat,
                    edge: AclEdge, trustee: string, target: string)
    returns (st': State, ghost rank': map<string, nat>, ghost clock': nat)
    requires Inv(d, reachable, st, rank, clock)
    requires edge in d.edges && Controls(d, edge, trustee, target)
    requires trustee in st.origin && target !in st.origin
    ensures Inv(d, reachable, st', rank', clock')
    ensures Extends(st.origin, st'.origin) && target in st'.origin && st'.dcsyncDone == st.dcsyncDone
  {
    var taken := TakeOver(st, edge, trustee, target);
    var controlled := WithGroups(d, target, taken.controlled);
    ghost var added := controlled - taken.controlled;
    TakeOverKeepsOrigins(d, reachable, st, rank, clock, edge, trustee, target);
    TakingKeepsOrigins(d, reachable, st, taken, rank[target := clock], clock, controlled, target);
    TakeOverKeepsReports(d, reachable, st, rank[target := clock], edge, trustee, target);
    GroupsKeepReports(d, reachable, taken, controlled, target);
    st' := AddGroups(taken, controlled, target);
    rank', clock' := RecordRanks(rank[target := clock], added, clock + 1), clock + 2;
  }

  /** The names and origins after a takeover and its groups. */
  lemma TakingKeepsOrigins(d: Domain, reachable: seq<seq<string>>, st: State, taken: State, rank: map<string, nat>,
                           clock: nat, controlled: set<string>, target: string)
    requires st.controlled == st.origin.Keys && SeedsIn(d, reachable, st.origin) && GroupClosed(d, st.origin)
    requires taken.controlled == taken.origin.Keys == st.origin.Keys + {target} && Extends(st.origin, taken.origin)
    requires OriginsOk(d, reachable, taken.origin, rank) && forall x :: x in rank ==> rank[x] <= clock
    requires taken.controlled <= controlled && GroupsOf(d, target) <= controlled
    requires forall x :: x in controlled - taken.controlled ==> InGroup(d, target, x) && GroupsOf(d, x) <= controlled
    ensures var st' := AddGroups(taken, controlled, target);
            var rank' := RecordRanks(rank, controlled - taken.controlled, clock + 1);
            && st'.controlled == st'.origin.Keys && OriginsOk(d, reachable, st'.origin, rank')
            && (forall x :: x in rank' ==> rank'[x] < clock + 2)
            && SeedsIn(d, reachable, st'.origin) && GroupClosed(d, st'.origin) && Extends(st.origin, st'.origin)
  {
    var origin' := AddGroups(taken, controlled, target).origin;
    GroupsKeepOrigins(d, reachable, taken.origin, rank, clock + 1, controlled - taken.controlled, target);
    assert origin'.Keys == controlled;
    ClosedAfterTaking(d, st, target, controlled, origin');
  }

  lemma ClosedAfterTaking(d: Domain, st: State, target: string, groups: set<string>, origin': map<string, Origin>)
    requires GroupClosed(d, st.origin) && st.origin.Keys + {target} <= groups && GroupsOf(d, target) <= groups
    requires forall x :: x in groups - (st.origin.Keys + {target}) ==> GroupsOf(d, x) <= groups
    requires origin'.Keys == groups
    ensures GroupClosed(d, origin')
  {
    forall x | x in origin' ensures GroupsOf(d, x) <= origin'.Keys {
      if x in st.origin { assert GroupsOf(d, x) <= st.origin.Keys; }
    }
  }

  // ---------------------------------------------------------------- escalate_via_acls

  ghost predicate UsableDcSync(d: Domain, reachable: seq<seq<string>>, edge: AclEdge) {
    edge in d.edges && edge.right == DCSync && Usable(d, edge) && Controlled(d, reachable, d.lower(edge.trustee))
  }

  /** The names brought under control are exactly those on a control path; each is the seed it was
      recovered as, a group, or one reported takeover; the domain falls exactly when some controlled
      name may replicate it.  With no edges or no recovered credential nothing is explored. */
  ghost predicate IsOutcome(d: Domain, reachable: seq<seq<string>>, st: State) {
    && Reported(d, reachable, st)
    && ((exists i :: CompromisedAt(st, i)) <==> (exists edge :: UsableDcSync(d, reachable, edge)))
    && st.controlled == st.origin.Keys && (exists rank :: OriginsOk(d, reachable, st.origin, rank))
    && (d.edges != [] && reachable != [] ==> forall x :: x in st.controlled <==> Controlled(d, reachable, x))
    && (d.edges == [] || reachable == [] ==> st.controlled == {} && st.escalations == [])
  }

  method Escalate(d: Domain, reachable: seq<seq<string>>) returns (st: State)
    ensures IsOutcome(d, reachable, st)
  {
    if d.edges == [] || reachable == [] {
      NothingToExplore(d, reachable);
      assert OriginsOk(d, reachable, map[], map[]);
      return State({}, map[], [], false);
    }
    var controlled, origin;
    ghost var rank, clock;
    controlled, origin, rank := SeedGroups(d, reachable);
    st, clock := State(controlled, origin, [], false), 2;
    var changed := true;
    while changed
      invariant Inv(d, reachable, st, rank, clock)
      invariant !changed ==> forall edge :: edge in d.edges ==> Settled(d, st, edge)
      decreases Targets(d) - st.origin.Keys, !st.dcsyncDone, changed
    {
      changed := false;
      ghost var st0 := st;
      for i := 0 to |d.edges|
        invariant Inv(d, reachable, st, rank, clock)
        invariant Targets(d) - st.origin.Keys <= Targets(d) - st0.origin.Keys
        invariant Extends(st0.origin, st.origin) && (st0.dcsyncDone ==> st.dcsyncDone)
        invariant !changed ==> st == st0 && forall edge :: edge in d.edges[..i] ==> Settled(d, st, edge)
        invariant changed ==> || Targets(d) - st.origin.Keys < Targets(d) - st0.origin.Keys
                              || (!st0.dcsyncDone && st.dcsyncDone)
      {
        ghost var st1 := st;
        var moved;
        st, moved, rank, clock := FollowEdge(d, reachable, st, rank, clock, d.edges[i]);
        changed := changed || moved;
        assert d.edges[..i + 1] == d.edges[..i] + [d.edges[i]];
        assert Targets(d) - st.origin.Keys <= Targets(d) - st1.origin.Keys;
      }
      assert d.edges[..|d.edges|] == d.edges;
    }
    forall x ensures x in st.origin <==> Controlled(d, reachable, x) {
      ControlledIsExact(d, reachable, st, rank, x);
    }
    CompromiseIsExact(d, reachable, st);
  }

  lemma ControlledIsExact(d: Domain, reachable: seq<seq<string>>, st: State, rank: map<string, nat>, x: string)
    requires OriginsOk(d, reachable, st.origin, rank)
    requires SeedsIn(d, reachable, st.origin) && GroupClosed(d, st.origin)
    requires forall edge :: edge in d.edges ==> Settled(d, st, edge)
    ensures x in st.origin <==> Controlled(d, reachable, x)
  {
    if x in st.origin { OriginsAreControlled(d, reachable, st.origin, rank, x); }
    if Controlled(d, reachable, x) {
      var path :| PathTo(d, reachable, path, x);
      PathIsControlled(d, reachable, st.origin, st, path);
    }
  }

  lemma CompromiseIsExact(d: Domain, reachable: seq<seq<string>>, st: State)
    requires DcSyncReports(d, reachable, st) && CompromisedOnce(st)
    requires forall edge {:trigger Settled(d, st, edge)} :: edge in d.edges ==> Settled(d, st, edge)
    requires forall x {:trigger Controlled(d, reachable, x)} :: x in st.origin <==> Controlled(d, reachable, x)
    ensures (exists i :: CompromisedAt(st, i)) <==>
            (exists edge :: UsableDcSync(d, reachable, edge))
  {
    if i :| CompromisedAt(st, i) {
      assert DcSyncReport(d, reachable, st, i);
      var edge :| edge in d.edges && edge.right == DCSync && Usable(d, edge) && d.lower(edge.trustee) in st.origin;
      assert Controlled(d, reachable, d.lower(edge.trustee));
      assert UsableDcSync(d, reachable, edge);
    }
    if edge :| UsableDcSync(d, reachable, edge) {
      assert Settled(d, st, edge);
    }
  }

  lemma NothingToExplore(d: Domain, reachable: seq<seq<string>>)
    requires d.edges == [] || reachable == []
    ensures !exists edge :: UsableDcSync(d, reachable, edge)
  {
    forall x | Controlled(d, reachable, x) ensures reachable != [] {
      SomeSeed(d, reachable, x);
    }
  }

  lemma SomeSeed(d: Domain, reachable: seq<seq<string>>, x: string)
    requires Controlled(d, reachable, x)
    ensures |reachable| > 0
  {
    var path :| PathTo(d, reachable, path, x);
    assert IsSeed(d, reachable, path[0]);
  }

  /** A captured descriptor of a domain head lets a controlled principal replicate the domain. */
  ghost predicate DomainFalls(d: Domain, reachable: seq<seq<string>>, entry: Entry, names: map<string, string>,
                              sid: string)
  {
    && entry.isDomain && CanReplicate(entry.aces, sid)
    && d.lower(entry.name) != "" && d.lower(Resolve(sid, names)) != ""
    && Controlled(d, reachable, d.lower(Resolve(sid, names)))
  }

  /** End to end: with the edges that the access-control analysis finds, domain compromise is possible
      exactly when a controlled principal holds the replication rights on a domain head, even if they
      come from different entries of its list. */
  lemma CompromiseFromDescriptors(d: Domain, reachable: seq<seq<string>>, entries: seq<Entry>,
                                  names: map<string, string>)
    requires AreEdgesOf(entries, names, d.edges)
    ensures (exists edge :: UsableDcSync(d, reachable, edge)) <==>
            (exists i, sid :: 0 <= i < |entries| && DomainFalls(d, reachable, entries[i], names, sid))
  {
    if edge :| UsableDcSync(d, reachable, edge) {
      var i :| 0 <= i < |entries| && Justified(entries[i], names, edge);
      assert DomainFalls(d, reachable, entries[i], names, edge.trusteeSid);
    }
    if i, sid :| 0 <= i < |entries| && DomainFalls(d, reachable, entries[i], names, sid) {
      var edge := EdgeFor(entries[i], names, sid, DCSync);
      assert Justified(entries[i], names, edge);
      assert UsableDcSync(d, reachable, edge);
    }
  }
}
