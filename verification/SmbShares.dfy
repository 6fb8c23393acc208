/** Capturing the shares of a server, one overall budget between them (rangefinder/capture/smb.py). */
module SmbShares {
  import opened Prelude
  import opened SmbTree
  import opened SmbCapture

  datatype Share = Share(name: string, comment: string, root: Listing)

  /** `want` holds names in lower case; `anonCanRead` is what a null session was seen to be able to read. */
  datatype Job = Job(want: Option<set<string>>, anonymous: bool, anonCanRead: string -> Option<bool>,
                     upper: string -> string, lower: string -> string,
                     maxFiles: int, maxFilesPerShare: int, maxSize: nat)

  datatype Entry = Entry(name: string, comment: string, restrictAnonymous: bool, files: Files)

  predicate IsWanted(job: Job, s: Share) {
    && job.upper(s.name) !in {"IPC$", "ADMIN$", "PRINT$"}
    && !(s.name != "" && s.name[|s.name| - 1] == '$')
    && (job.want.None? || job.lower(s.name) in job.want.value)
  }

  function Wanted(job: Job, shares: seq<Share>): seq<Share> {
    if shares == [] then []
    else if IsWanted(job, shares[0]) then [shares[0]] + Wanted(job, shares[1..])
    else Wanted(job, shares[1..])
  }

  function EventsIn(job: Job, s: Share): seq<Event> {
    Events(s.root, [], job.maxSize)
  }

  /** Room for files of one share when `left` may still be taken overall. */
  function ShareRoom(job: Job, left: nat): nat {
    Min(Room(job.maxFilesPerShare, 0), left)
  }

  /** Overall room left before share n. */
  function LeftBefore(job: Job, wanted: seq<Share>, n: nat): nat
    requires n <= |wanted|
  {
    if n == 0 then Room(job.maxFiles, 0)
    else
      var left := LeftBefore(job, wanted, n - 1);
      left - Uses(EventsIn(job, wanted[n - 1]), ShareRoom(job, left))
  }

  /** The files a share yields: the first of its listing, as many as there is room for. */
  function FilesOf(job: Job, s: Share, left: nat): Files {
    Add(map[], Captured(EventsIn(job, s), ShareRoom(job, left)))
  }

  /** Whether a share is gated: to this session when it was refused and nothing was read; otherwise, with
      credentials, unless a null session is known to read it. */
  function Gated(job: Job, s: Share, left: nat): bool {
    if job.anonymous then
      FilesOf(job, s, left) == map[] && Denial(s.root, [], job.maxSize, ShareRoom(job, left)) == Some(true)
    else job.anonCanRead(s.name) != Some(true)
  }

  function EntryFor(job: Job, s: Share, left: nat): Entry {
    Entry(s.name, s.comment, Gated(job, s, left), FilesOf(job, s, left))
  }

  /** Capture one share with a budget of its own beside the overall one. */
  method CaptureShare(job: Job, s: Share, overall: Budget) returns (entry: Entry)
    requires overall.limit == job.maxFiles
    modifies overall`used
    ensures var left := old(overall.Left());
            && entry == EntryFor(job, s, left)
            && overall.used == old(overall.used) + Uses(EventsIn(job, s), ShareRoom(job, left))
  {
    ghost var left := overall.Left();
    var perShare := new Budget(job.maxFilesPerShare);
    var pair := new Pair(perShare, overall);
    var walker := new Walker(job.maxSize);
    var error := walker.Walk(s.root, [], pair);
    var gated;
    if job.anonymous {
      gated := error == Some(true) && walker.files == map[];
    } else {
      gated := job.anonCanRead(s.name) != Some(true);
    }
    entry := Entry(s.name, s.comment, gated, walker.files);
  }

  /** The entries are those of the first wanted shares, each with the room the ones before it left; only
      the overall budget can have stopped the loop before the last. */
  ghost predicate Covers(job: Job, wanted: seq<Share>, entries: seq<Entry>) {
    && |entries| <= |wanted|
    && (forall n {:trigger entries[n]} :: 0 <= n < |entries| ==> IsEntry(job, wanted, n, entries[n]))
    && (forall n {:trigger Continues(job, wanted, n)} :: 0 < n < |entries| ==> Continues(job, wanted, n))
  }

  ghost predicate IsEntry(job: Job, wanted: seq<Share>, n: nat, entry: Entry)
    requires n < |wanted|
  {
    entry == EntryFor(job, wanted[n], LeftBefore(job, wanted, n))
  }

  /** There is room left when share n is reached. */
  ghost predicate Continues(job: Job, wanted: seq<Share>, n: nat)
    requires n <= |wanted|
  {
    LeftBefore(job, wanted, n) > 0
  }

  lemma {:induction false} OneMoreEntry(job: Job, wanted: seq<Share>, entries: seq<Entry>, entry: Entry)
    requires Covers(job, wanted, entries) && |entries| < |wanted|
    requires entries != [] ==> Continues(job, wanted, |entries|)
    requires IsEntry(job, wanted, |entries|, entry)
    ensures Covers(job, wanted, entries + [entry])
  {}

  /** Share i of the listing is skipped, or is the next of the wanted ones. */
  lemma NextWanted(job: Job, shares: seq<Share>, i: nat, todo: seq<Share>)
    requires i < |shares| && todo == Wanted(job, shares[i..])
    ensures if IsWanted(job, shares[i]) then todo == [shares[i]] + Wanted(job, shares[i + 1..])
            else todo == Wanted(job, shares[i + 1..])
  {
    assert shares[i..][1..] == shares[i + 1..];
  }

  /** The entries, and what has been used, once the loop is over: every wanted share has an entry, unless the
      overall budget is used up. */
  ghost predicate Finished(job: Job, wanted: seq<Share>, entries: seq<Entry>, used: nat) {
    && Covers(job, wanted, entries)
    && (|entries| < |wanted| ==> entries != [] && LeftBefore(job, wanted, |entries|) == 0)
    && used == Room(job.maxFiles, 0) - LeftBefore(job, wanted, |entries|)
  }

  /** The same while wanted shares are still to do. */
  ghost predicate Underway(job: Job, wanted: seq<Share>, entries: seq<Entry>, todo: seq<Share>, left: nat, used: nat) {
    && Covers(job, wanted, entries) && wanted[|entries|..] == todo
    && left == LeftBefore(job, wanted, |entries|) && used == Room(job.maxFiles, 0) - left
    && (entries != [] ==> left > 0)
  }

  lemma ShareDone(job: Job, wanted: seq<Share>, entries: seq<Entry>, todo: seq<Share>, left: nat, used: nat)
    requires Underway(job, wanted, entries, todo, left, used) && todo != []
    ensures var more := entries + [EntryFor(job, todo[0], left)];
            var taken := Uses(EventsIn(job, todo[0]), ShareRoom(job, left));
            if taken < left then Underway(job, wanted, more, todo[1..], left - taken, used + taken)
            else Finished(job, wanted, more, used + taken)
  {
    var n := |entries|;
    assert todo[0] == wanted[n] && todo[1..] == wanted[n + 1..];
    OneMoreEntry(job, wanted, entries, EntryFor(job, todo[0], left));
  }

  lemma AllDone(job: Job, wanted: seq<Share>, entries: seq<Entry>, left: nat, used: nat)
    requires Underway(job, wanted, entries, [], left, used)
    ensures Finished(job, wanted, entries, used)
  {
    assert |wanted[|entries|..]| == 0;
  }

  /** Every wanted share in turn, until the overall budget is used up. */
  method CaptureShares(job: Job, shares: seq<Share>) returns (entries: seq<Entry>, used: nat)
    ensures Finished(job, Wanted(job, shares), entries, used)
  {
    ghost var wanted := Wanted(job, shares);
    var overall := new Budget(job.maxFiles);
    entries := [];
    assert shares[0..] == shares && wanted[0..] == wanted;
    for i := 0 to |shares|
      invariant overall.limit == job.maxFiles
      invariant Underway(job, wanted, entries, Wanted(job, shares[i..]), overall.Left(), overall.used)
    {
      ghost var todo := Wanted(job, shares[i..]);
      NextWanted(job, shares, i, todo);
      if !IsWanted(job, shares[i]) { continue; }
      ShareDone(job, wanted, entries, todo, overall.Left(), overall.used);
      assert todo[0] == shares[i] && todo[1..] == Wanted(job, shares[i + 1..]);
      var entry := CaptureShare(job, shares[i], overall);
      entries := entries + [entry];
      var none := overall.Exhausted();
      if none { return entries, overall.used; }
    }
    AllDone(job, wanted, entries, overall.Left(), overall.used);
    used := overall.used;
  }

  // ---------------------------------------------------------------- what the budgets add up to

  /** Files captured from the first n wanted shares. */
  function FileCount(job: Job, wanted: seq<Share>, n: nat): nat
    requires n <= |wanted|
  {
    if n == 0 then 0
    else FileCount(job, wanted, n - 1) + |FilesOf(job, wanted[n - 1], LeftBefore(job, wanted, n - 1))|
  }

  /** Walks of the first n wanted shares that ended on a file that could not be read. */
  function FailedReads(job: Job, wanted: seq<Share>, n: nat): nat
    requires n <= |wanted|
  {
    if n == 0 then 0
    else FailedReads(job, wanted, n - 1)
         + Wasted(EventsIn(job, wanted[n - 1]), ShareRoom(job, LeftBefore(job, wanted, n - 1)))
  }

  /** The overall budget is the room still left, the files captured from all shares, and one for each walk
      that ended on a failed read. */
  lemma {:induction false} BudgetIsConserved(job: Job, wanted: seq<Share>, n: nat)
    requires n <= |wanted| && forall k :: 0 <= k < n ==> Tidy(wanted[k].root)
    ensures Room(job.maxFiles, 0)
         == LeftBefore(job, wanted, n) + FileCount(job, wanted, n) + FailedReads(job, wanted, n)
    decreases n
  {
    if n > 0 {
      BudgetIsConserved(job, wanted, n - 1);
      OneFileEach(wanted[n - 1].root, job.maxSize, ShareRoom(job, LeftBefore(job, wanted, n - 1)));
    }
  }

  /** A tidy share yields the files of its listing up to the first error, as many as both limits allow. */
  lemma ShareYield(job: Job, s: Share, left: nat)
    requires Tidy(s.root)
    ensures |FilesOf(job, s, left)| == Min(|Good(EventsIn(job, s))|, Min(Room(job.maxFilesPerShare, 0), left))
  {
    OneFileEach(s.root, job.maxSize, ShareRoom(job, left));
  }

  /** A share without errors and with room for all its files is captured whole: a path is in the result
      exactly when it leads to a file of the tree. */
  lemma WholeShareIsCaptured(job: Job, s: Share, left: nat, path: Path)
    requires FirstFailure(EventsIn(job, s)).None? && |EventsIn(job, s)| <= ShareRoom(job, left)
    ensures path in FilesOf(job, s, left) <==> exists c :: InTree(s.root, path, c, job.maxSize)
  {
    var events := EventsIn(job, s);
    GoodAppend(events, []);
    assert Captured(events, ShareRoom(job, left)) == events;
    PathsAdded(events, path);
    forall c ensures Found(path, c) in events <==> InTree(s.root, path, c, job.maxSize) {
      EventsAreTheFiles(s.root, [], path, c, job.maxSize);
      assert path[0..] == path && path[..0] == [];
    }
    if path in FilesOf(job, s, left) {
      var c :| Found(path, c) in events;
      assert InTree(s.root, path, c, job.maxSize);
    }
  }

  lemma {:induction false} PathsAdded(found: seq<Event>, path: Path)
    requires forall e :: e in found ==> e.Found?
    ensures path in Add(map[], found) <==> exists c :: Found(path, c) in found
    decreases |found|
  {
    if found != [] {
      var most, last := found[..|found| - 1], found[|found| - 1];
      PathsAdded(most, path);
      assert found == most + [last];
      if last.path == path { assert Found(path, last.content) in found; }
    }
  }
}
