/** Merging directory accounts and objectives (_merge_identities and _merge_objectives in
    rangefinder/orchestrate/merge.py): the first definition of a key stands. */
module MergeTables {
  import opened Prelude

  /** A user, group or objective: its key, and everything else about it. */
  datatype Named = Named(key: string, body: string)

  /** `rest` is what the block says besides its domain, users and groups. */
  datatype Identities = Identities(domain: string, rest: string, users: seq<Named>, groups: seq<Named>)

  function Keys(items: seq<Named>): set<string> {
    set x | x in items :: x.key
  }

  /** Append each item whose key is not there yet. */
  function AppendNew(items: seq<Named>, more: seq<Named>): seq<Named>
    decreases |more|
  {
    if more == [] then items
    else AppendNew(if more[0].key in Keys(items) then items else items + [more[0]], more[1..])
  }

  /** Fold the accounts of one more block into `base`; None when it is of another domain. */
  function AddBlock(base: Identities, extra: Identities): Option<Identities> {
    if extra.domain != base.domain then None
    else Some(base.(users := AppendNew(base.users, extra.users), groups := AppendNew(base.groups, extra.groups)))
  }

  function FoldBlocks(base: Identities, rest: seq<Identities>): Option<Identities>
    decreases |rest|
  {
    if rest == [] then Some(base)
    else
      match AddBlock(base, rest[0])
      case None => None
      case Some(next) => FoldBlocks(next, rest[1..])
  }

  /** The one block of a merge, if there is any; an error when two are of different domains. */
  function MergeBlocks(blocks: seq<Identities>): Result<Option<Identities>, string> {
    if blocks == [] then Ok(None)
    else
      match FoldBlocks(blocks[0], blocks[1..])
      case None => Err(blocks[0].domain)
      case Some(merged) => Ok(Some(merged))
  }

  // ---------------------------------------------------------------- what a merged table holds

  predicate DistinctKeys(items: seq<Named>) {
    forall i, j :: 0 <= i < j < |items| ==> items[i].key != items[j].key
  }

  /** The first item with a key. */
  function FirstWith(items: seq<Named>, key: string): (x: Named)
    requires key in Keys(items)
    ensures x in items && x.key == key
  {
    if items[0].key == key then items[0] else FirstWith(items[1..], key)
  }

  lemma FirstWithJoin(a: seq<Named>, b: seq<Named>, key: string)
    requires key in Keys(a + b)
    ensures FirstWith(a + b, key) == if key in Keys(a) then FirstWith(a, key) else FirstWith(b, key)
    decreases |a|
  {
    if a == [] {
      assert a + b == b;
    } else if a[0].key != key {
      assert (a + b)[1..] == a[1..] + b;
      assert a == [a[0]] + a[1..];
      FirstWithJoin(a[1..], b, key);
    }
  }

  /** `items` come first, unchanged; each key of either list is there, under its first definition; and
      what is added repeats no key. */
  ghost predicate Appended(items: seq<Named>, more: seq<Named>, all: seq<Named>) {
    && items <= all && Keys(all) == Keys(items + more)
    && (forall key :: key in Keys(all) ==> FirstWith(all, key) == FirstWith(items + more, key))
    && (DistinctKeys(items) ==> DistinctKeys(all))
    && forall i, j :: 0 <= i < j < |all| && |items| <= j ==> all[i].key != all[j].key
  }

  lemma {:induction false} AppendNewIsFirst(items: seq<Named>, more: seq<Named>)
    ensures Appended(items, more, AppendNew(items, more))
    decreases |more|
  {
    if more == [] {
      assert items + more == items;
    } else {
      var next := if more[0].key in Keys(items) then items else items + [more[0]];
      OneMore(items, more[0]);
      AppendNewIsFirst(next, more[1..]);
      AppendedInTurn(items, more[0], next, more[1..], AppendNew(next, more[1..]));
      assert [more[0]] + more[1..] == more;
    }
  }

  lemma OneMore(items: seq<Named>, x: Named)
    ensures Appended(items, [x], if x.key in Keys(items) then items else items + [x])
  {
    var both := items + [x];
    assert forall y :: y in both <==> y in items || y == x;
    forall key | key in Keys(both)
      ensures FirstWith(both, key) == if key in Keys(items) then FirstWith(items, key) else x
    {
      FirstWithJoin(items, [x], key);
    }
    forall i | 0 <= i < |items| && x.key !in Keys(items) ensures items[i].key != x.key { assert items[i] in items; }
  }

  lemma AppendedInTurn(items: seq<Named>, x: Named, next: seq<Named>, rest: seq<Named>, all: seq<Named>)
    requires Appended(items, [x], next) && Appended(next, rest, all) && |next| <= |items| + 1
    ensures Appended(items, [x] + rest, all)
  {
    var both := items + [x];
    assert items + ([x] + rest) == both + rest;
    assert forall y :: y in both + rest <==> y in both || y in rest;
    assert forall y :: y in next + rest <==> y in next || y in rest;
    assert Keys(both + rest) == Keys(both) + Keys(rest) && Keys(next + rest) == Keys(next) + Keys(rest);
    forall key | key in Keys(all) ensures FirstWith(all, key) == FirstWith(both + rest, key) {
      FirstWithJoin(next, rest, key);
      FirstWithJoin(both, rest, key);
    }
    forall i, j | 0 <= i < j < |all| && |items| <= j ensures all[i].key != all[j].key {
      if j < |next| { assert all[i] == next[i] && all[j] == next[j]; }
    }
  }

  /** Appending two lists in turn is appending their concatenation. */
  lemma {:induction false} AppendNewJoins(items: seq<Named>, a: seq<Named>, b: seq<Named>)
    ensures AppendNew(items, a + b) == AppendNew(AppendNew(items, a), b)
    decreases |a|
  {
    if a == [] {
      assert a + b == b;
    } else {
      assert (a + b)[1..] == a[1..] + b;
      AppendNewJoins(if a[0].key in Keys(items) then items else items + [a[0]], a[1..], b);
    }
  }

  /** A list without repeated keys is appended to nothing as it is. */
  lemma {:induction false} AppendDistinct(items: seq<Named>, more: seq<Named>)
    requires DistinctKeys(items + more)
    ensures AppendNew(items, more) == items + more
    decreases |more|
  {
    if more == [] {
      assert items + more == items;
    } else {
      assert (items + more)[|items|] == more[0];
      forall x | x in items ensures x.key != more[0].key {
        var i :| 0 <= i < |items| && items[i] == x;
        assert (items + more)[i] == x;
      }
      assert (items + [more[0]]) + more[1..] == items + more;
      AppendDistinct(items + [more[0]], more[1..]);
    }
  }

  // ---------------------------------------------------------------- the blocks of several inputs

  function AllUsers(blocks: seq<Identities>): seq<Named> {
    if blocks == [] then [] else blocks[0].users + AllUsers(blocks[1..])
  }

  function AllGroups(blocks: seq<Identities>): seq<Named> {
    if blocks == [] then [] else blocks[0].groups + AllGroups(blocks[1..])
  }

  ghost predicate OneDomain(blocks: seq<Identities>) {
    forall a, b :: a in blocks && b in blocks ==> a.domain == b.domain
  }

  lemma {:induction false} FoldIsAppend(base: Identities, rest: seq<Identities>)
    ensures FoldBlocks(base, rest).Some? <==> forall b :: b in rest ==> b.domain == base.domain
    ensures FoldBlocks(base, rest).Some? ==>
              FoldBlocks(base, rest).value == base.(users := AppendNew(base.users, AllUsers(rest)),
                                                    groups := AppendNew(base.groups, AllGroups(rest)))
    decreases |rest|
  {
    if rest != [] {
      assert rest == [rest[0]] + rest[1..];
      if rest[0].domain == base.domain {
        FoldIsAppend(AddBlock(base, rest[0]).value, rest[1..]);
        AppendNewJoins(base.users, rest[0].users, AllUsers(rest[1..]));
        AppendNewJoins(base.groups, rest[0].groups, AllGroups(rest[1..]));
      }
    }
  }

  /** Merging blocks fails exactly when two are of different domains.  Otherwise the first block stands,
      and every account and group of any block is there under its first definition. */
  lemma MergeBlocksIsUnion(blocks: seq<Identities>)
    requires blocks != []
    ensures MergeBlocks(blocks).Ok? <==> OneDomain(blocks)
    ensures MergeBlocks(blocks).Ok? ==>
              var m := MergeBlocks(blocks).value;
              && m.Some? && m.value.domain == blocks[0].domain && m.value.rest == blocks[0].rest
              && Appended(blocks[0].users, AllUsers(blocks[1..]), m.value.users)
              && Appended(blocks[0].groups, AllGroups(blocks[1..]), m.value.groups)
  {
    FoldIsAppend(blocks[0], blocks[1..]);
    assert blocks == [blocks[0]] + blocks[1..];
    AppendNewIsFirst(blocks[0].users, AllUsers(blocks[1..]));
    AppendNewIsFirst(blocks[0].groups, AllGroups(blocks[1..]));
  }

  // ---------------------------------------------------------------- the loops

  /** Append in order what is not in the table of seen keys. */
  method AppendUnseen(items: seq<Named>, more: seq<Named>) returns (all: seq<Named>)
    ensures all == AppendNew(items, more)
  {
    all := items;
    var seen := Keys(items);
    for i := 0 to |more|
      invariant seen == Keys(all)
      invariant AppendNew(items, more) == AppendNew(all, more[i..])
    {
      assert more[i..][1..] == more[i + 1..];
      if more[i].key !in seen {
        assert forall x :: x in all + [more[i]] <==> x in all || x == more[i];
        all, seen := all + [more[i]], seen + {more[i].key};
      }
    }
  }

  method MergeIdentities(blocks: seq<Identities>) returns (r: Result<Option<Identities>, string>)
    ensures r == MergeBlocks(blocks)
  {
    if blocks == [] { return Ok(None); }
    var base := blocks[0];
    for i := 1 to |blocks|
      invariant base.domain == blocks[0].domain
      invariant FoldBlocks(blocks[0], blocks[1..]) == FoldBlocks(base, blocks[i..])
    {
      var extra := blocks[i];
      assert blocks[i..][1..] == blocks[i + 1..];
      if extra.domain != base.domain { return Err(base.domain); }
      var users := AppendUnseen(base.users, extra.users);
      var groups := AppendUnseen(base.groups, extra.groups);
      base := base.(users := users, groups := groups);
    }
    r := Ok(Some(base));
  }
}
