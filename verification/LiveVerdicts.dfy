/** Promoting an advisory graph with measured verdicts (collapse_verdicts and annotate_live in
    rangefinder/paths.py).  A verdict is keyed like a pivot: host, kind, route and account. */
module LiveVerdicts {
  import opened Prelude
  import opened AttackGraph
  import opened ComposePaths
  import opened Credentials

  datatype Verdict = Untested | Refuted | MeasuredLive
  datatype PathVerdict = Anonymous | PathRefuted | ConfirmedLive | PathUntested

  /** The verdict of one probe of one service. */
  datatype Probe = Probe(key: Pivot, verdict: Verdict)

  function Precedence(v: Verdict): nat {
    match v
    case MeasuredLive => 3
    case Refuted => 2
    case Untested => 1
  }

  ghost predicate Strongest(probes: seq<Probe>, key: Pivot, v: Verdict) {
    && Probe(key, v) in probes
    && forall q :: q in probes && q.key == key ==> Precedence(q.verdict) <= Precedence(v)
  }

  method CollapseVerdicts(probes: seq<Probe>) returns (out: map<Pivot, Verdict>)
    ensures out.Keys == set q | q in probes :: q.key
    ensures forall key :: key in out ==> Strongest(probes, key, out[key])
  {
    out := map[];
    for i := 0 to |probes|
      invariant out.Keys == set q | q in probes[..i] :: q.key
      invariant forall key :: key in out ==> Strongest(probes[..i], key, out[key])
    {
      var q := probes[i];
      ghost var before := out;
      if q.key !in out || Precedence(q.verdict) > Precedence(out[q.key]) {
        out := out[q.key := q.verdict];
      }
      assert probes[..i + 1] == probes[..i] + [q];
      forall key | key in out ensures Strongest(probes[..i + 1], key, out[key]) {
        if key in before { assert Strongest(probes[..i], key, before[key]); }
      }
    }
    assert probes[..|probes|] == probes;
  }

  function VerdictFor(verdicts: map<Pivot, Verdict>, key: Pivot): Verdict {
    if key in verdicts then verdicts[key] else Untested
  }

  function JudgePath(verdicts: map<Pivot, Verdict>, pivots: seq<Pivot>): PathVerdict {
    if pivots == [] then Anonymous
    else if exists q :: q in pivots && VerdictFor(verdicts, q) == Refuted then PathRefuted
    else if forall q :: q in pivots ==> VerdictFor(verdicts, q) == MeasuredLive then ConfirmedLive
    else PathUntested
  }

  /** The printed name of a grant; it leaves the account out, so two grants can share one. */
  function GrantLabel(g: Pivot): string {
    g.kind + "@" + g.hostId + g.qualifier
  }

  /** The table that assigning each grant's verdict to its label, in order, leaves behind. */
  function GrantTable(targets: seq<Pivot>, verdicts: map<Pivot, Verdict>): map<string, Verdict> {
    if targets == [] then map[] else
      var last := targets[|targets| - 1];
      GrantTable(targets[..|targets| - 1], verdicts)[GrantLabel(last) := VerdictFor(verdicts, last)]
  }

  /** A grant's verdict is the one shown unless a later grant prints under the same name. */
  lemma {:induction false} LastGrantDecides(targets: seq<Pivot>, verdicts: map<Pivot, Verdict>, i: nat)
    requires i < |targets|
    requires forall j :: i < j < |targets| ==> GrantLabel(targets[j]) != GrantLabel(targets[i])
    ensures GrantLabel(targets[i]) in GrantTable(targets, verdicts)
    ensures GrantTable(targets, verdicts)[GrantLabel(targets[i])] == VerdictFor(verdicts, targets[i])
  {
    if i < |targets| - 1 {
      LastGrantDecides(targets[..|targets| - 1], verdicts, i);
    }
  }

  /** Grant number `i` is the last that prints as `shown`: kind, host and route, not the account. */
  ghost predicate LastAs(targets: seq<Pivot>, shown: string, i: nat) {
    && i < |targets| && targets[i].kind + "@" + targets[i].hostId + targets[i].qualifier == shown
    && forall j :: i < j < |targets| ==> targets[j].kind + "@" + targets[j].hostId + targets[j].qualifier != shown
  }

  /** The table has a line for each way a grant prints, and says there what was measured for the last such. */
  lemma {:induction false} TableIs(targets: seq<Pivot>, verdicts: map<Pivot, Verdict>, shown: string)
    ensures shown in GrantTable(targets, verdicts) <==> exists i: nat :: LastAs(targets, shown, i)
    ensures forall i: nat :: LastAs(targets, shown, i) ==>
              shown in GrantTable(targets, verdicts)
              && GrantTable(targets, verdicts)[shown]
                 == if targets[i] in verdicts then verdicts[targets[i]] else Untested
    decreases |targets|
  {
    if targets != [] {
      var most, n := targets[..|targets| - 1], |targets| - 1;
      TableIs(most, verdicts, shown);
      if GrantLabel(targets[n]) == shown {
        assert LastAs(targets, shown, n);
      } else {
        forall i: nat ensures LastAs(targets, shown, i) <==> LastAs(most, shown, i) {}
      }
    }
  }

  class LiveCredential {
    const pivots: seq<Pivot>
    const grantTargets: seq<Pivot>
    var grantVerdicts: map<string, Verdict>
    var pathVerdict: Option<PathVerdict>

    constructor (pivots: seq<Pivot>, grantTargets: seq<Pivot>)
      ensures this.pivots == pivots && this.grantTargets == grantTargets
      ensures grantVerdicts == map[] && pathVerdict == None
    {
      this.pivots, this.grantTargets := pivots, grantTargets;
      grantVerdicts, pathVerdict := map[], None;
    }

    method TagGrants(verdicts: map<Pivot, Verdict>)
      modifies this`grantVerdicts
      ensures grantVerdicts == old(grantVerdicts) + GrantTable(grantTargets, verdicts)
    {
      for i := 0 to |grantTargets|
        invariant grantVerdicts == old(grantVerdicts) + GrantTable(grantTargets[..i], verdicts)
      {
        var g := grantTargets[i];
        grantVerdicts := grantVerdicts[GrantLabel(g) := VerdictFor(verdicts, g)];
        assert grantTargets[..i + 1][..i] == grantTargets[..i];
      }
      assert grantTargets[..|grantTargets|] == grantTargets;
    }
  }

  /** Tag every credential of a graph, in place. */
  method AnnotateLive(reachable: seq<LiveCredential>, verdicts: map<Pivot, Verdict>)
    requires forall i, j :: 0 <= i < j < |reachable| ==> reachable[i] != reachable[j]
    modifies reachable
    ensures forall r :: r in reachable ==> r.pathVerdict == Some(JudgePath(verdicts, r.pivots))
    ensures forall r :: r in reachable ==>
              r.grantVerdicts == old(r.grantVerdicts) + GrantTable(r.grantTargets, verdicts)
  {
    for i := 0 to |reachable|
      invariant forall j :: i <= j < |reachable| ==> reachable[j].grantVerdicts == old(reachable[j].grantVerdicts)
      invariant forall j :: 0 <= j < i ==> reachable[j].pathVerdict == Some(JudgePath(verdicts, reachable[j].pivots))
      invariant forall j :: 0 <= j < i ==>
                reachable[j].grantVerdicts ==
                old(reachable[j].grantVerdicts) + GrantTable(reachable[j].grantTargets, verdicts)
    {
      reachable[i].TagGrants(verdicts);
      reachable[i].pathVerdict := Some(JudgePath(verdicts, reachable[i].pivots));
    }
  }

  // ---------------------------------------------------------------- what a path verdict means

  ghost predicate SomeProbe(probes: seq<Probe>, key: Pivot, v: Verdict) {
    Probe(key, v) in probes
  }

  /** The four outcomes, in terms of the raw probes: a path is confirmed exactly when it has a pivot
      and each pivot logged in on at least one matching service; it is refuted exactly when some pivot
      was rejected somewhere and accepted nowhere. */
  lemma PathVerdictFromProbes(probes: seq<Probe>, verdicts: map<Pivot, Verdict>, pivots: seq<Pivot>)
    requires verdicts.Keys == set q | q in probes :: q.key
    requires forall key :: key in verdicts ==> Strongest(probes, key, verdicts[key])
    ensures JudgePath(verdicts, pivots) == Anonymous <==> pivots == []
    ensures JudgePath(verdicts, pivots) == ConfirmedLive <==>
              pivots != [] && forall q :: q in pivots ==> SomeProbe(probes, q, MeasuredLive)
    ensures JudgePath(verdicts, pivots) == PathRefuted <==>
              exists q :: q in pivots && SomeProbe(probes, q, Refuted) && !SomeProbe(probes, q, MeasuredLive)
  {
    forall q
      ensures VerdictFor(verdicts, q) == MeasuredLive <==> SomeProbe(probes, q, MeasuredLive)
      ensures VerdictFor(verdicts, q) == Refuted <==>
                SomeProbe(probes, q, Refuted) && !SomeProbe(probes, q, MeasuredLive)
    {
      if q in verdicts {
        assert Strongest(probes, q, verdicts[q]);
        if SomeProbe(probes, q, MeasuredLive) { assert Probe(q, MeasuredLive).key == q; }
        if SomeProbe(probes, q, Refuted) { assert Probe(q, Refuted).key == q; }
      } else {
        forall w | w in probes ensures w.key != q { assert w.key in verdicts; }
      }
    }
    if pivots != [] { assert pivots[0] in pivots; }
  }

  /** Every declared login was tried, and some try of it was answered. */
  ghost predicate AllAnswered(probes: seq<Probe>, creds: seq<Credential>) {
    forall c :: c in creds && c.secret != "" ==>
      SomeProbe(probes, KeyOf(c.grant), MeasuredLive) || SomeProbe(probes, KeyOf(c.grant), Refuted)
  }

  /** Each pivot of a path was answered. */
  ghost predicate Answered(probes: seq<Probe>, pivots: seq<Pivot>) {
    forall k :: 0 <= k < |pivots| ==>
      SomeProbe(probes, pivots[k], MeasuredLive) || SomeProbe(probes, pivots[k], Refuted)
  }

  lemma StageIsAnswered(e: Estate, creds: seq<Credential>, chain: seq<Link>, i: nat, probes: seq<Probe>)
    requires 1 <= i < |chain| && StageIsReal(e, creds, chain, i) && AllAnswered(probes, creds)
    ensures |PivotsOf(chain)| == |chain| - 1
    ensures var pivot := PivotsOf(chain)[i - 1];
            SomeProbe(probes, pivot, MeasuredLive) || SomeProbe(probes, pivot, Refuted)
  {
    var c :| PivotIsReal(e, creds, chain, i, c);
  }

  lemma ReportedPathIsAnswered(e: Estate, creds: seq<Credential>, idOf: string -> Sid, sid: Sid,
                               rc: ReachableCredential, probes: seq<Probe>)
    requires Declared(e, creds, idOf) && sid in e.principals && ReportsShortestChain(e, sid, rc)
    requires AllAnswered(probes, creds)
    ensures |rc.pivots| == rc.hops && Answered(probes, rc.pivots)
  {
    var chain :| ReportedChain(e, sid, rc, chain);
    ReportedPivotsAreGrants(e, creds, idOf, sid, rc, chain);
    forall k | 0 <= k < |rc.pivots|
      ensures SomeProbe(probes, rc.pivots[k], MeasuredLive) || SomeProbe(probes, rc.pivots[k], Refuted)
    {
      StageIsAnswered(e, creds, chain, k + 1, probes);
    }
  }

  /** When every declared login was answered, no reported path stays untested: with no login it is
      anonymous, and otherwise confirmed when all its logins were accepted, and refuted when not. */
  lemma AnsweredPathsAreDecided(e: Estate, creds: seq<Credential>, idOf: string -> Sid, sid: Sid,
                                rc: ReachableCredential, probes: seq<Probe>, verdicts: map<Pivot, Verdict>)
    requires Declared(e, creds, idOf) && sid in e.principals && ReportsShortestChain(e, sid, rc)
    requires verdicts.Keys == (set q | q in probes :: q.key) && AllAnswered(probes, creds)
    requires forall key :: key in verdicts ==> Strongest(probes, key, verdicts[key])
    ensures JudgePath(verdicts, rc.pivots) ==
            if rc.hops == 0 then Anonymous
            else if forall q :: q in rc.pivots ==> SomeProbe(probes, q, MeasuredLive) then ConfirmedLive
            else PathRefuted
  {
    ReportedPathIsAnswered(e, creds, idOf, sid, rc, probes);
    DecidedWhenAnswered(probes, verdicts, rc.pivots);
  }

  lemma DecidedWhenAnswered(probes: seq<Probe>, verdicts: map<Pivot, Verdict>, pivots: seq<Pivot>)
    requires verdicts.Keys == (set q | q in probes :: q.key) && Answered(probes, pivots)
    requires forall key :: key in verdicts ==> Strongest(probes, key, verdicts[key])
    ensures JudgePath(verdicts, pivots) ==
            if pivots == [] then Anonymous
            else if forall q :: q in pivots ==> SomeProbe(probes, q, MeasuredLive) then ConfirmedLive
            else PathRefuted
  {
    PathVerdictFromProbes(probes, verdicts, pivots);
    forall q | q in pivots ensures SomeProbe(probes, q, MeasuredLive) || SomeProbe(probes, q, Refuted) {
      var k :| 0 <= k < |pivots| && pivots[k] == q;
    }
  }
}
