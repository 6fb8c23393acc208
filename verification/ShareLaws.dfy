/** What a capture of shares gives its caller (rangefinder/capture/smb.py): which shares, how much of each, and
    which are gated. */
module ShareLaws {
  import opened Prelude
  import opened SmbTree
  import opened SmbCapture
  import opened SmbShares

  // ---------------------------------------------------------------- which shares

  /** Not administrative, by name or by a dollar sign at the end, and named in the selection if there is one. */
  ghost predicate Chosen(job: Job, s: Share) {
    && job.upper(s.name) != "IPC$" && job.upper(s.name) != "ADMIN$" && job.upper(s.name) != "PRINT$"
    && (forall front :: s.name != front + "$")
    && (job.want.Some? ==> job.lower(s.name) in job.want.value)
  }

  lemma WantedIsChosen(job: Job, s: Share)
    ensures IsWanted(job, s) <==> Chosen(job, s)
  {
    if s.name != "" && s.name[|s.name| - 1] == '$' { assert s.name == s.name[..|s.name| - 1] + "$"; }
    if front :| s.name == front + "$" { assert s.name[|s.name| - 1] == '$'; }
  }

  lemma {:induction false} WantedHas(job: Job, shares: seq<Share>, s: Share)
    ensures s in Wanted(job, shares) <==> s in shares && Chosen(job, s)
  {
    if shares != [] {
      WantedIsChosen(job, shares[0]);
      WantedHas(job, shares[1..], s);
      assert shares == [shares[0]] + shares[1..];
    }
  }

  lemma {:induction false} WantedJoins(job: Job, a: seq<Share>, b: seq<Share>)
    ensures Wanted(job, a + b) == Wanted(job, a) + Wanted(job, b)
    decreases |a|
  {
    if a == [] {
      assert a + b == b;
    } else {
      assert (a + b)[1..] == a[1..] + b;
      WantedJoins(job, a[1..], b);
      Associates([a[0]], Wanted(job, a[1..]), Wanted(job, b));
    }
  }

  // ---------------------------------------------------------------- how much of each

  lemma {:induction false} AddIsBounded(found: seq<Event>)
    requires forall e :: e in found ==> e.Found?
    ensures |Add(map[], found)| <= |found|
    decreases |found|
  {
    if found != [] {
      var most, last := found[..|found| - 1], found[|found| - 1];
      AddIsBounded(most);
      assert Add(map[], found).Keys == Add(map[], most).Keys + {last.path};
    }
  }

  /** No share gives more files than the limit for a share, and none more than was left overall. */
  lemma FilesAreBounded(job: Job, s: Share, left: nat)
    ensures |FilesOf(job, s, left)| <= left
    ensures job.maxFilesPerShare >= 0 ==> |FilesOf(job, s, left)| <= job.maxFilesPerShare
    ensures job.maxFilesPerShare < 0 ==> FilesOf(job, s, left) == map[]
  {
    AddIsBounded(Captured(EventsIn(job, s), ShareRoom(job, left)));
  }

  // ---------------------------------------------------------------- the entries


  /** The fields of the entry for a share that was captured. */
  ghost predicate Tells(job: Job, s: Share, entry: Entry) {
    && entry.name == s.name && entry.comment == s.comment
    && (!job.anonymous ==> (entry.restrictAnonymous <==> job.anonCanRead(s.name) != Some(true)))
    && (job.anonymous && entry.files != map[] ==> !entry.restrictAnonymous)
    && (job.anonymous && s.root.ListError? ==> entry.restrictAnonymous == s.root.denied && entry.files == map[])
    && (job.maxFilesPerShare >= 0 ==> |entry.files| <= job.maxFilesPerShare)
  }

  /** Each entry tells of one of the chosen shares, in their order.  With credentials a share counts as open
      only when a null session was seen to read it, so an inconclusive probe gates it; without, it counts as
      gated only when nothing was read and access was refused. */
  lemma EntriesTell(job: Job, shares: seq<Share>, entries: seq<Entry>, used: nat, n: nat)
    requires Finished(job, Wanted(job, shares), entries, used) && n < |entries|
    ensures n < |Wanted(job, shares)| && Chosen(job, Wanted(job, shares)[n])
    ensures Tells(job, Wanted(job, shares)[n], entries[n])
  {
    var wanted := Wanted(job, shares);
    var left := LeftBefore(job, wanted, n);
    assert IsEntry(job, wanted, n, entries[n]);
    WantedHas(job, shares, wanted[n]);
    FilesAreBounded(job, wanted[n], left);
    if wanted[n].root.ListError? { RefusedGivesNothing(job, wanted[n], left); }
  }

  lemma RefusedGivesNothing(job: Job, s: Share, left: nat)
    requires s.root.ListError?
    ensures FilesOf(job, s, left) == map[]
    ensures Denial(s.root, [], job.maxSize, ShareRoom(job, left)) == Some(s.root.denied)
  {
    var events := EventsIn(job, s);
    assert events == [Failed(s.root.denied, false)] && Good(events) == [];
    assert Captured(events, ShareRoom(job, left)) == [];
  }

  // ---------------------------------------------------------------- the files of a share

  /** Following the names of `path` down from the listing, past no dot entries, leads to a file of this size
      and data. */
  ghost predicate FileAt(listing: Listing, path: Path, size: nat, data: Data)
    decreases |path|
  {
    && listing.Items? && path != [] && path[0] != "." && path[0] != ".."
    && exists n :: n in listing.nodes && NodeAt(n, path, size, data)
  }

  ghost predicate NodeAt(n: Node, path: Path, size: nat, data: Data)
    requires path != []
    decreases |path|, 0
  {
    n.name == path[0] &&
    match n
    case File(_, s, d) => path[1..] == [] && s == size && d == data
    case Dir(_, below) => path[1..] != [] && FileAt(below, path[1..], size, data)
  }

  /** A file above the size limit is left out by its size, and any other is kept as it was read. */
  predicate KeptAs(size: nat, data: Data, maxSize: nat, content: Content) {
    if size > maxSize then content == Omitted(size) else data.Bytes? && content == Kept(data.bytes)
  }

  ghost predicate FileKept(listing: Listing, path: Path, maxSize: nat, content: Content) {
    exists size, data :: FileAt(listing, path, size, data) && KeptAs(size, data, maxSize, content)
  }

  lemma {:induction false} TreeHoldsFiles(listing: Listing, path: Path, maxSize: nat, content: Content)
    ensures InTree(listing, path, content, maxSize) <==> FileKept(listing, path, maxSize, content)
    decreases |path|
  {
    if listing.Items? && path != [] {
      forall n: Node ensures AtNode(n, path, content, maxSize) <==>
                             path[0] != "." && path[0] != ".." && NodeKept(n, path, maxSize, content)
      {
        NodeHoldsFiles(n, path, maxSize, content);
      }
      if FileKept(listing, path, maxSize, content) {
        var size, data :| FileAt(listing, path, size, data) && KeptAs(size, data, maxSize, content);
        var n :| n in listing.nodes && NodeAt(n, path, size, data);
        assert NodeKept(n, path, maxSize, content);
      }
      if n :| n in listing.nodes && AtNode(n, path, content, maxSize) {
        var size, data :| NodeAt(n, path, size, data) && KeptAs(size, data, maxSize, content);
        assert FileAt(listing, path, size, data);
      }
    }
  }

  ghost predicate NodeKept(n: Node, path: Path, maxSize: nat, content: Content)
    requires path != []
  {
    exists size, data :: NodeAt(n, path, size, data) && KeptAs(size, data, maxSize, content)
  }

  lemma {:induction false} NodeHoldsFiles(n: Node, path: Path, maxSize: nat, content: Content)
    requires path != []
    ensures AtNode(n, path, content, maxSize) <==>
            path[0] != "." && path[0] != ".." && NodeKept(n, path, maxSize, content)
    decreases |path|, 0
  {
    match n
    case File(name, size, data) =>
      if NodeKept(n, path, maxSize, content) {
        var s, d :| NodeAt(n, path, s, d) && KeptAs(s, d, maxSize, content);
      }
      if AtNode(n, path, content, maxSize) {
        assert NodeAt(n, path, size, data) && KeptAs(size, data, maxSize, content);
      }
    case Dir(name, below) =>
      if path[1..] != [] {
        TreeHoldsFiles(below, path[1..], maxSize, content);
        if FileKept(below, path[1..], maxSize, content) && n.name == path[0] {
          var s, d :| FileAt(below, path[1..], s, d) && KeptAs(s, d, maxSize, content);
          assert NodeAt(n, path, s, d);
        }
        if NodeKept(n, path, maxSize, content) {
          var s, d :| NodeAt(n, path, s, d) && KeptAs(s, d, maxSize, content);
          assert FileAt(below, path[1..], s, d);
        }
      }
  }

  lemma {:induction false} AddedIs(found: seq<Event>, k: nat)
    requires forall e :: e in found ==> e.Found?
    requires k < |found| && forall j :: k < j < |found| ==> found[j].path != found[k].path
    ensures found[k].path in Add(map[], found) && Add(map[], found)[found[k].path] == found[k].content
    decreases |found|
  {
    if k < |found| - 1 { AddedIs(found[..|found| - 1], k); }
  }

  /** A share that lists no name twice, without errors and with room for all its files, is captured file by
      file: what leads to a file holds what is kept of it, and nothing else is there. */
  lemma WholeShareIsKept(job: Job, s: Share, left: nat, path: Path, c: Content)
    requires FirstFailure(EventsIn(job, s)).None? && |EventsIn(job, s)| <= ShareRoom(job, left) && Tidy(s.root)
    ensures path in FilesOf(job, s, left) && FilesOf(job, s, left)[path] == c <==>
            FileKept(s.root, path, job.maxSize, c)
  {
    var events, files := EventsIn(job, s), FilesOf(job, s, left);
    GoodAppend(events, []);
    assert Captured(events, ShareRoom(job, left)) == events;
    EventsAreDistinct(s.root, [], job.maxSize);
    EventIsFile(job, s, path, c);
    if Found(path, c) in events {
      var k :| 0 <= k < |events| && events[k] == Found(path, c);
      AddedIs(events, k);
    }
    if path in files {
      PathsAdded(events, path);
      var d :| Found(path, d) in events;
      var k :| 0 <= k < |events| && events[k] == Found(path, d);
      AddedIs(events, k);
    }
  }

  lemma EventIsFile(job: Job, s: Share, path: Path, c: Content)
    ensures Found(path, c) in EventsIn(job, s) <==> FileKept(s.root, path, job.maxSize, c)
  {
    EventsAreTheFiles(s.root, [], path, c, job.maxSize);
    assert path[0..] == path && path[..0] == [];
    TreeHoldsFiles(s.root, path, job.maxSize, c);
  }
}
