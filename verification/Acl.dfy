/** Control edges read from captured access-control lists (analyze_acls in rangefinder/acl.py).
    Security descriptors arrive parsed: an owner and a list of allow entries. */
module Acl {
  import opened Prelude

  datatype Right = GenericAll | GenericWrite | WriteDacl | WriteOwner | Owns | ForceChangePassword | AddMember
                 | GetChanges | GetChangesAll | AllExtendedRights | DCSync

  /** The object type of an entry, as far as the analysis tells object types apart. */
  datatype ObjectType = Unscoped | GetChangesGuid | GetChangesAllGuid | ForceChangePwGuid | WriteMemberGuid | OtherGuid

  datatype Ace = Ace(mask: bv32, trustee: string, guid: ObjectType)

  /** One directory object; `isDomain` says it heads a domain naming context. */
  datatype Entry = Entry(name: string, owner: Option<string>, aces: seq<Ace>, isDomain: bool)

  datatype AclEdge = AclEdge(trustee: string, trusteeSid: string, right: Right, objectName: string)

  const GENERIC_ALL: bv32 := 0x10000000
  const GENERIC_WRITE: bv32 := 0x40000000
  const WRITE_DACL: bv32 := 0x00040000
  const WRITE_OWNER: bv32 := 0x00080000
  const WRITE_PROP: bv32 := 0x00000020
  const CONTROL_ACCESS: bv32 := 0x00000100

  const BENIGN_SIDS: set<string> := {
    "S-1-5-18", "S-1-5-9", "S-1-5-10", "S-1-3-0", "S-1-5-32-544", "S-1-5-32-548", "S-1-5-32-549",
    "S-1-5-32-550", "S-1-5-32-551" }
  const BENIGN_RIDS: set<string> := { "500", "512", "516", "517", "518", "519", "520" }
  const DOMAIN_PREFIX := "S-1-5-21-"

  /** What follows the last hyphen. */
  function LastComponent(sid: string): string {
    if sid == "" || sid[|sid| - 1] == '-' then "" else LastComponent(sid[..|sid| - 1]) + [sid[|sid| - 1]]
  }

  predicate IsBenign(sid: string) {
    sid in BENIGN_SIDS || (DOMAIN_PREFIX <= sid && LastComponent(sid) in BENIGN_RIDS)
  }

  function When(granted: bool, right: Right): seq<Right> {
    if granted then [right] else []
  }

  /** The named primitives one entry grants. */
  function RightsFor(mask: bv32, guid: ObjectType): seq<Right> {
    When(mask & GENERIC_ALL != 0, GenericAll)
    + When(mask & WRITE_DACL != 0, WriteDacl)
    + When(mask & WRITE_OWNER != 0, WriteOwner)
    + When(mask & GENERIC_WRITE != 0, GenericWrite)
    + (if mask & CONTROL_ACCESS == 0 then [] else
         match guid
         case ForceChangePwGuid => [ForceChangePassword]
         case GetChangesGuid => [GetChanges]
         case GetChangesAllGuid => [GetChangesAll]
         case Unscoped => [AllExtendedRights]
         case WriteMemberGuid => []
         case OtherGuid => [])
    + When(mask & WRITE_PROP != 0 && guid == WriteMemberGuid, AddMember)
  }

  predicate IsReplication(r: Right) {
    r == GetChanges || r == GetChangesAll || r == AllExtendedRights
  }

  /** Some entry of the list gives `sid` the right `r`. */
  predicate Holds(aces: seq<Ace>, sid: string, r: Right) {
    !IsBenign(sid) && exists ace :: ace in aces && Gives(ace, sid, r)
  }

  predicate Gives(ace: Ace, sid: string, r: Right) {
    ace.trustee == sid && r in RightsFor(ace.mask, ace.guid)
  }

  /** DCSync needs both replication rights, from any entries of the list, or all extended rights. */
  predicate CanReplicate(aces: seq<Ace>, sid: string) {
    Holds(aces, sid, AllExtendedRights) || (Holds(aces, sid, GetChanges) && Holds(aces, sid, GetChangesAll))
  }

  /** When the descriptor of `entry` amounts to the right `r` for `sid`. */
  ghost predicate Grants(entry: Entry, sid: string, r: Right) {
    match r
    case Owns => entry.owner == Some(sid) && !IsBenign(sid)
    case DCSync => entry.isDomain && CanReplicate(entry.aces, sid)
    case AllExtendedRights => !entry.isDomain && Holds(entry.aces, sid, AllExtendedRights)
    case GetChanges => false
    case GetChangesAll => false
    case _ => Holds(entry.aces, sid, r)
  }

  const WELL_KNOWN_NAMES: map<string, string> := map[
    "S-1-1-0" := "Everyone", "S-1-5-11" := "Authenticated Users", "S-1-5-7" := "Anonymous",
    "S-1-5-32-545" := "BUILTIN\\Users", "S-1-5-32-554" := "BUILTIN\\Pre-Windows 2000 Compatible Access"]

  /** A captured object's label, else a well-known name, else the raw identifier. */
  function Resolve(sid: string, names: map<string, string>): string {
    if sid in names then names[sid]
    else if sid in WELL_KNOWN_NAMES then WELL_KNOWN_NAMES[sid]
    else sid
  }

  function EdgeFor(entry: Entry, names: map<string, string>, sid: string, r: Right): AclEdge {
    AclEdge(Resolve(sid, names), sid, r, entry.name)
  }

  /** `edge` is one that the descriptor of `entry` amounts to. */
  ghost predicate Justified(entry: Entry, names: map<string, string>, edge: AclEdge) {
    edge == EdgeFor(entry, names, edge.trusteeSid, edge.right) && Grants(entry, edge.trusteeSid, edge.right)
  }

  // ---------------------------------------------------------------- the accumulation

  /** Every (trustee, right) pair that the entries of a list name, benign trustees left out. */
  ghost function Named(aces: seq<Ace>): set<(string, Right)> {
    if aces == [] then {} else
      var last := aces[|aces| - 1];
      Named(aces[..|aces| - 1])
      + (if IsBenign(last.trustee) then {} else set r | r in RightsFor(last.mask, last.guid) :: (last.trustee, r))
  }

  lemma HeldByFrontOrLast(aces: seq<Ace>, sid: string, r: Right)
    requires aces != []
    ensures var last := aces[|aces| - 1];
            Holds(aces, sid, r) <==>
            Holds(aces[..|aces| - 1], sid, r) || (!IsBenign(sid) && Gives(last, sid, r))
  {
    var front, last := aces[..|aces| - 1], aces[|aces| - 1];
    assert aces == front + [last];
    forall ace ensures ace in aces <==> ace in front || ace == last {}
  }

  lemma {:induction false} NamedIsHeld(aces: seq<Ace>, sid: string, r: Right)
    ensures (sid, r) in Named(aces) <==> Holds(aces, sid, r)
  {
    if aces != [] {
      HeldByFrontOrLast(aces, sid, r);
      NamedIsHeld(aces[..|aces| - 1], sid, r);
    }
  }

  /** The replication rights among the pairs `named` seen so far, by trustee. */
  ghost predicate ReplHas(named: set<(string, Right)>, repl: map<string, set<Right>>) {
    && (forall sid, r :: sid in repl && r in repl[sid] ==> (sid, r) in named && IsReplication(r))
    && (forall sid, r :: (sid, r) in named && IsReplication(r) ==> sid in repl && r in repl[sid])
  }

  /** The edges that need no accumulation: ownership, and the other rights seen so far. */
  ghost predicate IsDirect(entry: Entry, names: map<string, string>, named: set<(string, Right)>, edge: AclEdge) {
    && edge == EdgeFor(entry, names, edge.trusteeSid, edge.right)
    && if edge.right == Owns then Grants(entry, edge.trusteeSid, Owns)
       else !IsReplication(edge.right) && (edge.trusteeSid, edge.right) in named
  }

  ghost predicate EdgesHave(entry: Entry, names: map<string, string>, named: set<(string, Right)>,
                            edges: seq<AclEdge>)
  {
    forall edge :: edge in edges <==> IsDirect(entry, names, named, edge)
  }

  lemma RightsForNeverOwns(mask: bv32, guid: ObjectType)
    ensures Owns !in RightsFor(mask, guid) && DCSync !in RightsFor(mask, guid)
  {}

  lemma {:induction false} NamedNeverOwns(aces: seq<Ace>, sid: string)
    ensures (sid, Owns) !in Named(aces) && (sid, DCSync) !in Named(aces)
  {
    if aces != [] {
      var last := aces[|aces| - 1];
      NamedNeverOwns(aces[..|aces| - 1], sid);
      RightsForNeverOwns(last.mask, last.guid);
    }
  }

  /** The rights of one entry go to one accumulator or the other. */
  method AddRights(entry: Entry, names: map<string, string>, trustee: string, rights: seq<Right>,
                   ghost named: set<(string, Right)>, repl0: map<string, set<Right>>, edges0: seq<AclEdge>)
    returns (repl: map<string, set<Right>>, edges: seq<AclEdge>)
    requires Owns !in rights
    requires ReplHas(named, repl0) && EdgesHave(entry, names, named, edges0)
    ensures ReplHas(named + (set r | r in rights :: (trustee, r)), repl)
    ensures EdgesHave(entry, names, named + (set r | r in rights :: (trustee, r)), edges)
  {
    repl, edges := repl0, edges0;
    ghost var seen := named;
    for j := 0 to |rights|
      invariant seen == named + (set r | r in rights[..j] :: (trustee, r))
      invariant ReplHas(seen, repl) && EdgesHave(entry, names, seen, edges)
    {
      var right := rights[j];
      assert rights[..j + 1] == rights[..j] + [right];
      assert right in rights;
      if IsReplication(right) {
        var got := if trustee in repl then repl[trustee] else {};
        repl := repl[trustee := got + {right}];
        assert forall edge :: IsDirect(entry, names, seen + {(trustee, right)}, edge) <==>
                              IsDirect(entry, names, seen, edge);
      } else {
        DirectStep(entry, names, seen, edges, trustee, right);
        edges := edges + [EdgeFor(entry, names, trustee, right)];
      }
      seen := seen + {(trustee, right)};
    }
    assert rights[..|rights|] == rights;
  }

  lemma DirectStep(entry: Entry, names: map<string, string>, named: set<(string, Right)>, edges: seq<AclEdge>,
                   trustee: string, right: Right)
    requires EdgesHave(entry, names, named, edges) && !IsReplication(right) && right != Owns
    ensures EdgesHave(entry, names, named + {(trustee, right)}, edges + [EdgeFor(entry, names, trustee, right)])
  {
    var extra := EdgeFor(entry, names, trustee, right);
    forall edge
      ensures edge in edges + [extra] <==> IsDirect(entry, names, named + {(trustee, right)}, edge)
    {
      assert edge in edges + [extra] <==> edge in edges || edge == extra;
    }
  }

  /** The rights of every entry in turn, benign trustees left out. */
  method CollectRights(entry: Entry, names: map<string, string>, edges0: seq<AclEdge>)
    returns (repl: map<string, set<Right>>, edges: seq<AclEdge>)
    requires EdgesHave(entry, names, {}, edges0)
    ensures ReplHas(Named(entry.aces), repl) && EdgesHave(entry, names, Named(entry.aces), edges)
  {
    repl, edges := map[], edges0;
    for i := 0 to |entry.aces|
      invariant ReplHas(Named(entry.aces[..i]), repl)
      invariant EdgesHave(entry, names, Named(entry.aces[..i]), edges)
    {
      var ace := entry.aces[i];
      assert entry.aces[..i + 1][..i] == entry.aces[..i];
      if !IsBenign(ace.trustee) {
        RightsForNeverOwns(ace.mask, ace.guid);
        repl, edges := AddRights(entry, names, ace.trustee, RightsFor(ace.mask, ace.guid),
                                 Named(entry.aces[..i]), repl, edges);
      }
    }
    assert entry.aces[..|entry.aces|] == entry.aces;
  }

  /** The control edges of one directory object: exactly those its descriptor amounts to. */
  method AnalyzeEntry(entry: Entry, names: map<string, string>) returns (edges: seq<AclEdge>)
    ensures forall edge :: edge in edges <==> Justified(entry, names, edge)
  {
    edges := [];
    if entry.owner.Some? && !IsBenign(entry.owner.value) {
      edges := [EdgeFor(entry, names, entry.owner.value, Owns)];
    }
    var repl;
    repl, edges := CollectRights(entry, names, edges);
    ghost var direct := edges;
    edges := AddReplication(entry, names, repl, edges);
    forall edge ensures edge in edges <==> Justified(entry, names, edge) {
      EdgeIsJustified(entry, names, repl, direct, edge);
    }
  }

  /** One edge for each trustee whose accumulated rights replicate, or extend everything. */
  method AddReplication(entry: Entry, names: map<string, string>, repl: map<string, set<Right>>, edges0: seq<AclEdge>)
    returns (edges: seq<AclEdge>)
    ensures forall edge :: edge in edges <==> edge in edges0 || FromReplication(entry, names, repl, {}, edge)
  {
    edges := edges0;
    var pending := repl.Keys;
    while pending != {}
      invariant pending <= repl.Keys
      invariant forall edge :: edge in edges <==> edge in edges0 || FromReplication(entry, names, repl, pending, edge)
      decreases pending
    {
      var sid :| sid in pending;
      var got := repl[sid];
      if entry.isDomain && (AllExtendedRights in got || {GetChanges, GetChangesAll} <= got) {
        edges := edges + [EdgeFor(entry, names, sid, DCSync)];
      } else if AllExtendedRights in got {
        edges := edges + [EdgeFor(entry, names, sid, AllExtendedRights)];
      }
      pending := pending - {sid};
    }
  }

  /** The edge that the accumulated rights of a trustee already visited turn into. */
  ghost predicate FromReplication(entry: Entry, names: map<string, string>, repl: map<string, set<Right>>,
                                  pending: set<string>, edge: AclEdge) {
    var sid := edge.trusteeSid;
    && edge == EdgeFor(entry, names, sid, edge.right)
    && sid in repl && sid !in pending
    && (if entry.isDomain && (AllExtendedRights in repl[sid] || {GetChanges, GetChangesAll} <= repl[sid])
        then edge.right == DCSync
        else AllExtendedRights in repl[sid] && edge.right == AllExtendedRights)
  }

  lemma ReplIsHeld(aces: seq<Ace>, repl: map<string, set<Right>>, sid: string, r: Right)
    requires ReplHas(Named(aces), repl) && IsReplication(r)
    ensures sid in repl && r in repl[sid] <==> Holds(aces, sid, r)
  {
    NamedIsHeld(aces, sid, r);
  }

  /** The accumulator turned into what the list of entries says. */
  lemma ReplicationIsHeld(entry: Entry, names: map<string, string>, repl: map<string, set<Right>>, edge: AclEdge)
    requires ReplHas(Named(entry.aces), repl)
    ensures FromReplication(entry, names, repl, {}, edge) <==>
            edge == EdgeFor(entry, names, edge.trusteeSid, edge.right)
            && if entry.isDomain && CanReplicate(entry.aces, edge.trusteeSid) then edge.right == DCSync
               else edge.right == AllExtendedRights && Holds(entry.aces, edge.trusteeSid, AllExtendedRights)
  {
    var sid := edge.trusteeSid;
    ReplIsHeld(entry.aces, repl, sid, AllExtendedRights);
    ReplIsHeld(entry.aces, repl, sid, GetChanges);
    ReplIsHeld(entry.aces, repl, sid, GetChangesAll);
    if sid in repl {
      assert {GetChanges, GetChangesAll} <= repl[sid] <==> GetChanges in repl[sid] && GetChangesAll in repl[sid];
    }
  }

  /** The edges that need no accumulation, in the terms of the descriptor. */
  lemma DirectIsGranted(entry: Entry, names: map<string, string>, edge: AclEdge)
    ensures IsDirect(entry, names, Named(entry.aces), edge) <==>
            edge == EdgeFor(entry, names, edge.trusteeSid, edge.right)
            && if edge.right == Owns then Grants(entry, edge.trusteeSid, Owns)
               else !IsReplication(edge.right) && edge.right != DCSync && Holds(entry.aces, edge.trusteeSid, edge.right)
  {
    NamedNeverOwns(entry.aces, edge.trusteeSid);
    NamedIsHeld(entry.aces, edge.trusteeSid, edge.right);
  }

  lemma EdgeIsJustified(entry: Entry, names: map<string, string>, repl: map<string, set<Right>>,
                        direct: seq<AclEdge>, edge: AclEdge)
    requires ReplHas(Named(entry.aces), repl) && EdgesHave(entry, names, Named(entry.aces), direct)
    ensures edge in direct || FromReplication(entry, names, repl, {}, edge) <==> Justified(entry, names, edge)
  {
    DirectIsGranted(entry, names, edge);
    ReplicationIsHeld(entry, names, repl, edge);
    assert edge in direct <==> IsDirect(entry, names, Named(entry.aces), edge);
  }

  ghost predicate AreEdgesOf(entries: seq<Entry>, names: map<string, string>, edges: seq<AclEdge>) {
    forall edge :: edge in edges <==> exists i :: 0 <= i < |entries| && Justified(entries[i], names, edge)
  }

  /** All objects of the directory. */
  method AnalyzeAcls(entries: seq<Entry>, names: map<string, string>) returns (edges: seq<AclEdge>)
    ensures AreEdgesOf(entries, names, edges)
  {
    edges := [];
    for i := 0 to |entries|
      invariant forall edge :: edge in edges <==> exists j :: 0 <= j < i && Justified(entries[j], names, edge)
    {
      var more := AnalyzeEntry(entries[i], names);
      ghost var before := edges;
      edges := edges + more;
      forall edge
        ensures edge in edges <==> exists j :: 0 <= j < i + 1 && Justified(entries[j], names, edge)
      {
        assert edge in edges <==> edge in before || edge in more;
      }
    }
  }
}
