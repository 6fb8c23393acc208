/** Grouping declared credentials by secret (_principals in rangefinder/paths.py), and what that makes
    of an attack chain: every login on it is a declared one, with a secret read just before. */
module Credentials {
  import opened Prelude
  import opened AttackGraph
  import opened ComposePaths

  /** One login claim embedded in a range configuration. */
  datatype Credential = Credential(secret: string, origin: string, grant: Grant)

  /** The principal that `creds` make of the identifier `sid`; `secret` is supplied by the caller. */
  function PrincipalOf(creds: seq<Credential>, idOf: string -> Sid, sid: Sid, secret: string): Principal {
    Principal(secret,
              set c | c in creds && Backs(c, idOf, sid) :: c.grant.username,
              set c | c in creds && Backs(c, idOf, sid) :: c.grant,
              set c | c in creds && Backs(c, idOf, sid) :: c.origin)
  }

  predicate Backs(c: Credential, idOf: string -> Sid, sid: Sid) {
    c.secret != "" && idOf(c.secret) == sid
  }

  /** The table is exactly what the credentials declare. */
  ghost predicate Groups(creds: seq<Credential>, idOf: string -> Sid, table: map<Sid, Principal>) {
    && (forall c :: c in creds && c.secret != "" ==> idOf(c.secret) in table)
    && (forall sid :: sid in table ==>
          && table[sid] == PrincipalOf(creds, idOf, sid, table[sid].secret)
          && exists c :: c in creds && Backs(c, idOf, sid) && c.secret == table[sid].secret)
  }

  /** `idOf` is the truncated hash that stands for a secret in reports. */
  method GroupPrincipals(creds: seq<Credential>, idOf: string -> Sid) returns (table: map<Sid, Principal>)
    ensures Groups(creds, idOf, table)
  {
    table := map[];
    for i := 0 to |creds|
      invariant Groups(creds[..i], idOf, table)
    {
      var c := creds[i];
      ghost var before := table;
      if c.secret != "" {
        var sid := idOf(c.secret);
        var p := if sid in table then table[sid] else Principal(c.secret, {}, {}, {});
        table := table[sid := Principal(p.secret, p.usernames + {c.grant.username}, p.grants + {c.grant},
                                        p.origins + {c.origin})];
      }
      assert creds[..i + 1] == creds[..i] + [c];
      GroupsStep(creds[..i], c, idOf, before, table);
    }
    assert creds[..|creds|] == creds;
  }

  lemma GroupsStep(creds: seq<Credential>, c: Credential, idOf: string -> Sid,
                   before: map<Sid, Principal>, after: map<Sid, Principal>)
    requires Groups(creds, idOf, before)
    requires c.secret == "" ==> after == before
    requires c.secret != "" ==>
               var sid := idOf(c.secret);
               var p := if sid in before then before[sid] else Principal(c.secret, {}, {}, {});
               after == before[sid := Principal(p.secret, p.usernames + {c.grant.username},
                                                p.grants + {c.grant}, p.origins + {c.origin})]
    ensures Groups(creds + [c], idOf, after)
  {
    var all := creds + [c];
    forall sid | sid in after
      ensures after[sid] == PrincipalOf(all, idOf, sid, after[sid].secret)
      ensures exists d :: d in all && Backs(d, idOf, sid) && d.secret == after[sid].secret
    {
      if sid in before {
        var d :| d in creds && Backs(d, idOf, sid) && d.secret == before[sid].secret;
        assert d in all;
      } else {
        assert c in all && Backs(c, idOf, sid);
        assert forall d :: d in creds ==> !Backs(d, idOf, sid);
      }
      assert forall d :: d in all <==> d in creds || d == c;
      if Backs(c, idOf, sid) {
        var q := PrincipalOf(all, idOf, sid, after[sid].secret);
        assert after[sid].usernames == q.usernames;
        assert after[sid].grants == q.grants;
        assert after[sid].origins == q.origins;
      } else {
        assert after[sid].usernames == PrincipalOf(all, idOf, sid, after[sid].secret).usernames;
      }
    }
  }

  /** Different declared secrets have different identifiers. */
  ghost predicate NoCollision(creds: seq<Credential>, idOf: string -> Sid) {
    forall c, d :: c in creds && d in creds && c.secret != "" && d.secret != "" && idOf(c.secret) == idOf(d.secret)
      ==> c.secret == d.secret
  }

  /** `c` is the declared login used for stage `i` of `chain`, and its secret is a whole token of the
      blob read at the stage before, which is not where the credential is declared. */
  ghost predicate LoginIsReal(e: Estate, creds: seq<Credential>, chain: seq<Link>, i: nat, c: Credential)
    requires 1 <= i < |chain|
  {
    && c in creds
    && chain[i].login == Some(c.grant.username)
    && Unlocks(c.grant, chain[i].loc)
    && LeakContains(e, c.secret, chain[i - 1].loc.text)
    && chain[i - 1].loc.anchor != c.origin
  }

  /** `c` is one of the logins that the principal recovered just before stage `i` opens. */
  ghost predicate IsGrantAt(e: Estate, chain: seq<Link>, i: nat, c: Credential)
    requires 1 <= i < |chain|
  {
    c.secret != "" && chain[i - 1].sid in e.principals && c.grant in e.principals[chain[i - 1].sid].grants
  }

  /** No login is invented. */
  lemma EveryLoginIsDeclaredAndLeaked(e: Estate, creds: seq<Credential>, idOf: string -> Sid,
                                      chain: seq<Link>, i: nat)
    requires Groups(creds, idOf, e.principals) && NoCollision(creds, idOf)
    requires IsChain(e, chain) && 1 <= i < |chain|
    ensures exists c :: LoginIsReal(e, creds, chain, i, c) && IsGrantAt(e, chain, i, c)
  {
    var sid := chain[i - 1].sid;
    assert LinkFrom(e, chain[i - 1], chain[i]);
    assert Loots(e, sid, chain[i - 1].loc);
    var g :| g in e.principals[sid].grants && g.username == chain[i].login.value && Unlocks(g, chain[i].loc);
    assert g in PrincipalOf(creds, idOf, sid, e.principals[sid].secret).grants;
    var c :| c in creds && Backs(c, idOf, sid) && c.grant == g;
    assert c.origin in PrincipalOf(creds, idOf, sid, e.principals[sid].secret).origins;
    assert c.origin in e.principals[sid].origins;
    assert LoginIsReal(e, creds, chain, i, c);
  }

  // ---------------------------------------------------------------- what is reported of a login

  /** Only HTTP has routes: readable locations and declared logins of any other kind name none. */
  ghost predicate OnlyHttpHasRoutes(e: Estate, creds: seq<Credential>) {
    && (forall loc :: loc in e.locations && loc.kind != "http" ==> loc.qualifier == "")
    && (forall c :: c in creds && c.grant.kind != "http" ==> c.grant.qualifier == "")
  }

  /** The key under which a declared login is probed. */
  function KeyOf(g: Grant): Pivot {
    Pivot(g.hostId, g.kind, g.qualifier, g.username)
  }

  /** The pivot reported for stage `i` is, field by field, the declared login used there. */
  ghost predicate PivotIsReal(e: Estate, creds: seq<Credential>, chain: seq<Link>, i: nat, c: Credential)
    requires 1 <= i < |chain|
  {
    && LoginIsReal(e, creds, chain, i, c) && IsGrantAt(e, chain, i, c)
    && |PivotsOf(chain)| == |chain| - 1 && PivotsOf(chain)[i - 1] == KeyOf(c.grant)
  }

  ghost predicate StageIsReal(e: Estate, creds: seq<Credential>, chain: seq<Link>, i: nat)
    requires 1 <= i < |chain|
  {
    exists c :: PivotIsReal(e, creds, chain, i, c)
  }

  ghost predicate Declared(e: Estate, creds: seq<Credential>, idOf: string -> Sid) {
    Groups(creds, idOf, e.principals) && NoCollision(creds, idOf) && OnlyHttpHasRoutes(e, creds)
  }

  lemma EveryPivotIsAGrant(e: Estate, creds: seq<Credential>, idOf: string -> Sid, chain: seq<Link>, i: nat)
    requires Declared(e, creds, idOf) && IsChain(e, chain) && 1 <= i < |chain|
    ensures StageIsReal(e, creds, chain, i)
  {
    EveryLoginIsDeclaredAndLeaked(e, creds, idOf, chain, i);
    var c :| LoginIsReal(e, creds, chain, i, c) && IsGrantAt(e, chain, i, c);
    assert Loots(e, chain[i].sid, chain[i].loc);
    forall j | 1 <= j < |chain| ensures chain[j].login.Some? { assert LinkFrom(e, chain[j - 1], chain[j]); }
    PivotAt(chain, i);
    assert PivotIsReal(e, creds, chain, i, c);
  }

  lemma ReportedIsChain(e: Estate, sid: Sid, rc: ReachableCredential, chain: seq<Link>)
    requires sid in e.principals && ReportedChain(e, sid, rc, chain)
    ensures IsChain(e, chain) && rc.pivots == PivotsOf(chain) && |rc.pivots| == |chain| - 1 == rc.hops
  {
    ChainReportSizes(e, chain);
  }

  /** Every pivot of a reported path is a declared login, whose secret the place read just before gives
      away. */
  lemma ReportedPivotsAreGrants(e: Estate, creds: seq<Credential>, idOf: string -> Sid, sid: Sid,
                                rc: ReachableCredential, chain: seq<Link>)
    requires Declared(e, creds, idOf) && sid in e.principals && ReportedChain(e, sid, rc, chain)
    ensures rc.pivots == PivotsOf(chain) && |rc.pivots| == |chain| - 1 == rc.hops
    ensures forall i :: 1 <= i < |chain| ==> StageIsReal(e, creds, chain, i)
  {
    ReportedIsChain(e, sid, rc, chain);
    forall i | 1 <= i < |chain| ensures StageIsReal(e, creds, chain, i) {
      EveryPivotIsAGrant(e, creds, idOf, chain, i);
    }
  }
}
