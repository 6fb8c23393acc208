/** What the control edges and the escalations promise, in the fields of the captured descriptors alone
    (rangefinder/acl.py, and escalate_via_acls in rangefinder/paths.py). */
module ControlLaws {
  import opened Prelude
  import opened Acl
  import opened Escalation

  // ---------------------------------------------------------------- who is privileged anyway

  /** SYSTEM and the like, the operator groups, and in any domain the administrators and the other
      groups that hold every right by default. */
  predicate Privileged(sid: string) {
    sid in {"S-1-5-18", "S-1-5-9", "S-1-5-10", "S-1-3-0", "S-1-5-32-544", "S-1-5-32-548", "S-1-5-32-549",
            "S-1-5-32-550", "S-1-5-32-551"}
    || ("S-1-5-21-" <= sid
        && exists rid :: rid in {"500", "512", "516", "517", "518", "519", "520"} && EndsWith(sid, "-" + rid))
  }

  /** `last` is what follows the last hyphen, or everything when there is none. */
  predicate IsLast(sid: string, last: string) {
    '-' !in last && EndsWith(sid, last) && ('-' in sid ==> EndsWith(sid, "-" + last))
  }

  lemma LastGrows(front: string, last: string, c: char)
    requires IsLast(front, last) && c != '-'
    ensures IsLast(front + [c], last + [c])
  {
    TailGrows(front, last, c);
    if '-' in front {
      TailGrows(front, "-" + last, c);
      assert "-" + (last + [c]) == ("-" + last) + [c];
    }
  }

  lemma EmptyLast(sid: string)
    requires sid == "" || sid[|sid| - 1] == '-'
    ensures IsLast(sid, "")
  {
    if sid != "" { assert sid[|sid| - 1..] == "-" && "-" + "" == "-"; }
  }

  lemma {:induction false} LastIsSuffix(sid: string)
    ensures IsLast(sid, LastComponent(sid))
    decreases |sid|
  {
    if sid == "" || sid[|sid| - 1] == '-' {
      EmptyLast(sid);
    } else {
      var front, c := sid[..|sid| - 1], sid[|sid| - 1];
      LastIsSuffix(front);
      LastGrows(front, LastComponent(front), c);
      assert sid == front + [c];
    }
  }

  lemma TailGrows(front: string, tail: string, c: char)
    requires EndsWith(front, tail)
    ensures EndsWith(front + [c], tail + [c])
  {
    var k := |front| - |tail|;
    assert (front + [c])[k..] == front[k..] + [c];
  }

  lemma NoHyphenAfter(sid: string, tail: string)
    requires '-' !in tail && EndsWith(sid, "-" + tail)
    ensures var k := |sid| - |tail| - 1; k >= 0 && sid[k] == '-' && sid[k + 1..] == tail
    ensures forall i :: |sid| - |tail| <= i < |sid| ==> sid[i] != '-'
  {
    var k := |sid| - |tail| - 1;
    assert sid[k..] == "-" + tail && sid[k..][0] == '-' && sid[k + 1..] == sid[k..][1..];
    forall i | k < i < |sid| ensures sid[i] != '-' { assert sid[k + 1..][i - k - 1] in tail; }
  }

  /** Only one text without a hyphen follows the last hyphen. */
  lemma LastIsOnly(sid: string, rid: string)
    requires '-' !in rid && EndsWith(sid, "-" + rid)
    ensures LastComponent(sid) == rid
  {
    NoHyphenAfter(sid, rid);
    LastIsSuffix(sid);
    NoHyphenAfter(sid, LastComponent(sid));
  }

  lemma BenignIsPrivileged(sid: string)
    ensures IsBenign(sid) <==> Privileged(sid)
  {
    if "S-1-5-21-" <= sid {
      assert sid[1] == '-';
      LastIsSuffix(sid);
      if rid :| rid in {"500", "512", "516", "517", "518", "519", "520"} && EndsWith(sid, "-" + rid) {
        LastIsOnly(sid, rid);
      }
    }
  }

  // ---------------------------------------------------------------- what the edges are

  /** The bits and the object type by which one entry gives a right. */
  predicate GivenBy(ace: Ace, r: Right) {
    match r
    case GenericAll => ace.mask & 0x10000000 != 0
    case GenericWrite => ace.mask & 0x40000000 != 0
    case WriteDacl => ace.mask & 0x00040000 != 0
    case WriteOwner => ace.mask & 0x00080000 != 0
    case ForceChangePassword => ace.mask & 0x100 != 0 && ace.guid == ForceChangePwGuid
    case GetChanges => ace.mask & 0x100 != 0 && ace.guid == GetChangesGuid
    case GetChangesAll => ace.mask & 0x100 != 0 && ace.guid == GetChangesAllGuid
    case AllExtendedRights => ace.mask & 0x100 != 0 && ace.guid == Unscoped
    case AddMember => ace.mask & 0x20 != 0 && ace.guid == WriteMemberGuid
    case Owns => false
    case DCSync => false
  }

  predicate ListGives(entry: Entry, sid: string, r: Right) {
    exists ace :: ace in entry.aces && ace.trustee == sid && GivenBy(ace, r)
  }

  lemma RightsAreGiven(ace: Ace, r: Right)
    ensures r in RightsFor(ace.mask, ace.guid) <==> GivenBy(ace, r)
  {}

  lemma HeldIsGiven(entry: Entry, sid: string, r: Right)
    ensures Holds(entry.aces, sid, r) <==> !Privileged(sid) && ListGives(entry, sid, r)
  {
    BenignIsPrivileged(sid);
    if ListGives(entry, sid, r) {
      var ace :| ace in entry.aces && ace.trustee == sid && GivenBy(ace, r);
      RightsAreGiven(ace, r);
      assert Gives(ace, sid, r);
    }
    if ace :| ace in entry.aces && Gives(ace, sid, r) { RightsAreGiven(ace, r); }
  }

  /** What a descriptor must say for `sid` to have a control edge to the object: ownership; on a domain head,
      both replication rights, from any entries, or all extended rights, which make one edge there; elsewhere
      all extended rights by themselves, and never half a replication right; and any other right as given. */
  predicate Amounts(entry: Entry, sid: string, r: Right) {
    match r
    case Owns => entry.owner == Some(sid)
    case DCSync => entry.isDomain && (ListGives(entry, sid, AllExtendedRights)
                                      || (ListGives(entry, sid, GetChanges) && ListGives(entry, sid, GetChangesAll)))
    case AllExtendedRights => !entry.isDomain && ListGives(entry, sid, AllExtendedRights)
    case GetChanges => false
    case GetChangesAll => false
    case _ => ListGives(entry, sid, r)
  }

  lemma GrantsAmount(entry: Entry, sid: string, r: Right)
    ensures Grants(entry, sid, r) <==> !Privileged(sid) && Amounts(entry, sid, r)
  {
    BenignIsPrivileged(sid);
    HeldIsGiven(entry, sid, r);
    HeldIsGiven(entry, sid, AllExtendedRights);
    HeldIsGiven(entry, sid, GetChanges);
    HeldIsGiven(entry, sid, GetChangesAll);
  }

  /** The label of a captured object; for others one of five well-known names, or the identifier itself. */
  predicate IsNameOf(name: string, sid: string, names: map<string, string>) {
    if sid in names then name == names[sid]
    else match sid
         case "S-1-1-0" => name == "Everyone"
         case "S-1-5-11" => name == "Authenticated Users"
         case "S-1-5-7" => name == "Anonymous"
         case "S-1-5-32-545" => name == "BUILTIN\\Users"
         case "S-1-5-32-554" => name == "BUILTIN\\Pre-Windows 2000 Compatible Access"
         case _ => name == sid
  }

  lemma ResolveIsName(sid: string, names: map<string, string>, name: string)
    ensures name == Resolve(sid, names) <==> IsNameOf(name, sid, names)
  {}

  /** `entry` has the object's name, and its descriptor gives the trustee the right. */
  ghost predicate EdgeFrom(entry: Entry, edge: AclEdge) {
    entry.name == edge.objectName && !Privileged(edge.trusteeSid) && Amounts(entry, edge.trusteeSid, edge.right)
  }

  /** An edge is reported exactly when the descriptor of some object amounts to it, under the name its
      trustee goes by. */
  lemma EdgesAreInTheDescriptors(entries: seq<Entry>, names: map<string, string>, edges: seq<AclEdge>, edge: AclEdge)
    requires AreEdgesOf(entries, names, edges)
    ensures edge in edges <==>
            IsNameOf(edge.trustee, edge.trusteeSid, names) && exists entry :: entry in entries && EdgeFrom(entry, edge)
  {
    ResolveIsName(edge.trusteeSid, names, edge.trustee);
    forall entry ensures Justified(entry, names, edge) <==>
                         edge.trustee == Resolve(edge.trusteeSid, names) && EdgeFrom(entry, edge)
    {
      GrantsAmount(entry, edge.trusteeSid, edge.right);
    }
    if edge in edges {
      var i :| 0 <= i < |entries| && Justified(entries[i], names, edge);
      assert EdgeFrom(entries[i], edge);
    }
    if edge.trustee == Resolve(edge.trusteeSid, names) {
      if entry :| entry in entries && EdgeFrom(entry, edge) {
        var i :| 0 <= i < |entries| && entries[i] == entry;
        assert Justified(entries[i], names, edge);
      }
    }
  }

  // ---------------------------------------------------------------- what is controlled

  /** Control starts from the account names of recovered credentials, and is closed under membership and
      under every named control edge but replication. */
  lemma ControlIsClosed(d: Domain, reachable: seq<seq<string>>, st: State)
    requires IsOutcome(d, reachable, st) && d.edges != []
    ensures forall i, user :: 0 <= i < |reachable| && user in reachable[i] && d.accountOf(user) != "" ==>
              d.accountOf(user) in st.controlled
    ensures forall x, g :: x in st.controlled && x in d.membership && g in d.membership[x] ==> g in st.controlled
    ensures forall edge :: edge in d.edges && edge.right != DCSync ==>
              d.lower(edge.trustee) != "" && d.lower(edge.objectName) != ""
              && d.lower(edge.trustee) in st.controlled ==>
              d.lower(edge.objectName) in st.controlled
  {
    if reachable != [] {
      forall i, user | 0 <= i < |reachable| && user in reachable[i] && d.accountOf(user) != ""
        ensures d.accountOf(user) in st.controlled
      {
        var x := d.accountOf(user);
        assert SeedUser(d, reachable, user, x);
        assert PathTo(d, reachable, [x], x);
      }
      forall x, g | x in st.controlled && x in d.membership && g in d.membership[x] ensures g in st.controlled {
        assert g in GroupsOf(d, x);
        ControlledStep(d, reachable, x, g);
      }
      forall edge | edge in d.edges && edge.right != DCSync && d.lower(edge.trustee) != ""
                    && d.lower(edge.objectName) != "" && d.lower(edge.trustee) in st.controlled
        ensures d.lower(edge.objectName) in st.controlled
      {
        assert Controls(d, edge, d.lower(edge.trustee), d.lower(edge.objectName));
        ControlledStep(d, reachable, d.lower(edge.trustee), d.lower(edge.objectName));
      }
    }
  }

  /** How control of a name is passed on: from a member to its group, or along a control edge. */
  ghost predicate PassedOn(d: Domain, a: string, x: string) {
    (a in d.membership && x in d.membership[a])
    || exists edge :: edge in d.edges && edge.right != DCSync && d.lower(edge.trustee) == a != ""
                      && d.lower(edge.objectName) == x != ""
  }

  /** Each controlled name is the account of a recovered credential, or control of it is passed on from
      another. */
  lemma ControlHasASource(d: Domain, reachable: seq<seq<string>>, st: State, x: string)
    requires IsOutcome(d, reachable, st) && x in st.controlled
    ensures (exists i, user :: 0 <= i < |reachable| && user in reachable[i] && d.accountOf(user) == x != "")
            || exists a :: a in st.controlled && PassedOn(d, a, x)
  {
    var path :| PathTo(d, reachable, path, x);
    if |path| == 1 {
      var user :| SeedUser(d, reachable, user, x);
    } else {
      var front := path[..|path| - 1];
      assert PathTo(d, reachable, front, front[|front| - 1]);
      assert ControlStep(d, front[|front| - 1], x);
      assert PassedOn(d, front[|front| - 1], x);
    }
  }

  /** A reported takeover names an object that some edge, other than replication, hands to a controlled
      trustee, and the right of that edge. */
  ghost predicate TakenBy(d: Domain, st: State, esc: Escalated, edge: AclEdge) {
    && edge in d.edges && edge.right == esc.right != DCSync && edge.objectName == esc.target
    && d.lower(edge.trustee) in st.controlled && d.lower(edge.trustee) != "" && d.lower(edge.objectName) != ""
  }

  lemma TakeoversAreEdges(d: Domain, reachable: seq<seq<string>>, st: State, k: nat)
    requires IsOutcome(d, reachable, st) && k < |st.escalations| && !st.escalations[k].domainCompromise
    ensures exists edge :: TakenBy(d, st, st.escalations[k], edge)
    ensures var steps := st.escalations[k].steps;
            steps != [] && steps[|steps| - 1] == AclStep(st.escalations[k].right, st.escalations[k].target)
  {
    var esc, x := st.escalations[k], d.lower(st.escalations[k].target);
    assert AclReport(d, reachable, st, k);
    var rank :| OriginsOk(d, reachable, st.origin, rank);
    assert OriginOk(d, reachable, st.origin, rank, x);
    var edge :| edge in d.edges && ViaEdge(d, edge, st.origin[x].via, esc.right, esc.target, x);
    assert TakenBy(d, st, esc, edge);
  }

  // ---------------------------------------------------------------- when the domain falls

  /** The descriptor of a domain head gives `sid` all extended rights, or both replication rights, and the
      name `sid` goes by is one under control. */
  ghost predicate Falls(d: Domain, names: map<string, string>, st: State, entry: Entry, sid: string, name: string) {
    && entry.isDomain && !Privileged(sid) && IsNameOf(name, sid, names)
    && (ListGives(entry, sid, AllExtendedRights)
        || (ListGives(entry, sid, GetChanges) && ListGives(entry, sid, GetChangesAll)))
    && d.lower(entry.name) != "" && d.lower(name) != "" && d.lower(name) in st.controlled
  }

  lemma ReplicationIsListed(entry: Entry, sid: string)
    ensures CanReplicate(entry.aces, sid) <==>
            !Privileged(sid) && (ListGives(entry, sid, AllExtendedRights)
                                 || (ListGives(entry, sid, GetChanges) && ListGives(entry, sid, GetChangesAll)))
  {
    HeldIsGiven(entry, sid, AllExtendedRights);
    HeldIsGiven(entry, sid, GetChanges);
    HeldIsGiven(entry, sid, GetChangesAll);
  }

  lemma FallsWhen(d: Domain, reachable: seq<seq<string>>, names: map<string, string>, st: State, entry: Entry,
                  sid: string)
    requires forall x :: x in st.controlled <==> Controlled(d, reachable, x)
    ensures DomainFalls(d, reachable, entry, names, sid) <==> exists name :: Falls(d, names, st, entry, sid, name)
  {
    ReplicationIsListed(entry, sid);
    ResolveIsName(sid, names, Resolve(sid, names));
    forall name | IsNameOf(name, sid, names) ensures name == Resolve(sid, names) { ResolveIsName(sid, names, name); }
    if DomainFalls(d, reachable, entry, names, sid) { assert Falls(d, names, st, entry, sid, Resolve(sid, names)); }
  }

  /** From captured descriptors to the verdict: a domain compromise is reported exactly when some credential
      was recovered and a domain head lets a name under control replicate it, by its captured label where
      there is one. */
  lemma CompromiseIsInTheDescriptors(d: Domain, reachable: seq<seq<string>>, entries: seq<Entry>,
                                     names: map<string, string>, st: State)
    requires AreEdgesOf(entries, names, d.edges) && IsOutcome(d, reachable, st)
    ensures (exists k :: CompromisedAt(st, k)) <==>
            exists i, sid, name :: 0 <= i < |entries| && Falls(d, names, st, entries[i], sid, name)
  {
    CompromiseFromDescriptors(d, reachable, entries, names);
    if d.edges == [] || reachable == [] {
      NothingToExplore(d, reachable);
    } else {
      forall i, sid | 0 <= i < |entries|
        ensures DomainFalls(d, reachable, entries[i], names, sid) <==>
                exists name :: Falls(d, names, st, entries[i], sid, name)
      {
        FallsWhen(d, reachable, names, st, entries[i], sid);
      }
      if i, sid :| 0 <= i < |entries| && DomainFalls(d, reachable, entries[i], names, sid) {
        var name :| Falls(d, names, st, entries[i], sid, name);
      }
      if i, sid, name :| 0 <= i < |entries| && Falls(d, names, st, entries[i], sid, name) {
        assert DomainFalls(d, reachable, entries[i], names, sid);
      }
    }
  }
}
