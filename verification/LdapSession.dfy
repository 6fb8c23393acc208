/** One connection to the directory (_handle_bind and _handle_search in rangefinder/facades/ldap.py):
    anonymous and simple binds, and searches. */
module LdapSession {
  import opened LdapScope

  datatype Entry = Entry(dn: string, attributes: map<string, seq<string>>)

  /** `passwords` by account name in lower case; `account` takes the account name out of a bind name. */
  datatype Directory = Directory(allowAnonymous: bool, passwords: map<string, string>, account: string -> string,
                                 entries: seq<Entry>, rootDse: Entry, text: Text)

  datatype Request = Bind(dn: string, password: string)
                   | Search(base: string, scope: Scope, sizeLimit: nat, matches: Entry -> bool)

  datatype Code = Success | InvalidCredentials | InappropriateAuthentication

  datatype Answer = BindAnswer(code: Code) | Refused | Entries(found: seq<Entry>, truncated: bool)

  function BindCode(d: Directory, dn: string, password: string): Code {
    if dn == "" && password == "" then
      if d.allowAnonymous then Success else InappropriateAuthentication
    else
      var user := d.account(dn);
      if user in d.passwords then (if password == d.passwords[user] then Success else InvalidCredentials)
      else if d.allowAnonymous then Success
      else InvalidCredentials
  }

  function Selected(entries: seq<Entry>, keep: Entry -> bool): seq<Entry> {
    if entries == [] then []
    else if keep(entries[0]) then [entries[0]] + Selected(entries[1..], keep)
    else Selected(entries[1..], keep)
  }

  predicate IsRootDse(base: string, scope: Scope) {
    base == "" && scope == Base
  }

  function Candidates(d: Directory, s: Request): seq<Entry>
    requires s.Search?
  {
    if IsRootDse(s.base, s.scope) then [d.rootDse]
    else Selected(d.entries, (e: Entry) => InScope(d.text, e.dn, s.base, s.scope) && s.matches(e))
  }

  /** What a search that is let through answers. */
  function Found(d: Directory, s: Request): Answer
    requires s.Search?
  {
    var all := Candidates(d, s);
    if s.sizeLimit != 0 && |all| > s.sizeLimit then Entries(all[..s.sizeLimit], true) else Entries(all, false)
  }

  class Session {
    var authenticated: bool

    constructor ()
      ensures !authenticated
    {
      authenticated := false;
    }

    /** Every bind attempt settles the state of the connection, whatever it was. */
    method HandleBind(d: Directory, dn: string, password: string) returns (a: Answer)
      modifies this
      ensures a == BindAnswer(BindCode(d, dn, password))
      ensures authenticated <==> BindCode(d, dn, password) == Success
    {
      var code;
      if dn == "" && password == "" {
        code := if d.allowAnonymous then Success else InappropriateAuthentication;
      } else {
        var user := d.account(dn);
        if user in d.passwords {
          code := if password == d.passwords[user] then Success else InvalidCredentials;
        } else if d.allowAnonymous {
          code := Success;
        } else {
          code := InvalidCredentials;
        }
      }
      authenticated := code == Success;
      a := BindAnswer(code);
    }

    method HandleSearch(d: Directory, s: Request) returns (a: Answer)
      requires s.Search?
      ensures a == if d.allowAnonymous || authenticated || IsRootDse(s.base, s.scope) then Found(d, s) else Refused
    {
      if !d.allowAnonymous && !authenticated && !IsRootDse(s.base, s.scope) { return Refused; }
      var candidates, truncated := Candidates(d, s), false;
      if s.sizeLimit != 0 && |candidates| > s.sizeLimit {
        candidates, truncated := candidates[..s.sizeLimit], true;
      }
      a := Entries(candidates, truncated);
    }
  }

  // ---------------------------------------------------------------- whole connections

  /** Request j is a bind, and no other comes between it and request k. */
  predicate IsLastBind(run: seq<Request>, j: nat, k: nat) {
    j < k <= |run| && run[j].Bind? && forall i :: j < i < k ==> run[i].Search?
  }

  /** The latest bind before request k succeeded. */
  ghost predicate Unlocked(d: Directory, run: seq<Request>, k: nat) {
    exists j :: 0 <= j < k && IsLastBind(run, j, k) && BindCode(d, run[j].dn, run[j].password) == Success
  }

  /** The answer to request k, told from the requests alone. */
  ghost function Expected(d: Directory, run: seq<Request>, k: nat): Answer
    requires k < |run|
  {
    match run[k]
    case Bind(dn, password) => BindAnswer(BindCode(d, dn, password))
    case Search(base, scope, _, _) =>
      if d.allowAnonymous || IsRootDse(base, scope) || Unlocked(d, run, k) then Found(d, run[k]) else Refused
  }

  lemma UnlockedNext(d: Directory, run: seq<Request>, k: nat)
    requires k < |run|
    ensures run[k].Bind? ==> (Unlocked(d, run, k + 1) <==> BindCode(d, run[k].dn, run[k].password) == Success)
    ensures run[k].Search? ==> (Unlocked(d, run, k + 1) <==> Unlocked(d, run, k))
  {
    var next := k + 1;
    if run[k].Bind? {
      assert IsLastBind(run, k, next);
      forall j | 0 <= j < next && IsLastBind(run, j, next) ensures j == k {}
    } else {
      forall j | 0 <= j < next ensures IsLastBind(run, j, next) <==> IsLastBind(run, j, k) {
        if IsLastBind(run, j, k) { assert forall i :: j < i < next ==> run[i].Search?; }
      }
    }
  }

  /** Serve a connection from its first request to its last. */
  method Serve(d: Directory, run: seq<Request>) returns (answers: seq<Answer>)
    ensures |answers| == |run|
    ensures forall k :: 0 <= k < |run| ==> answers[k] == Expected(d, run, k)
  {
    var session := new Session();
    answers := [];
    for k := 0 to |run|
      invariant |answers| == k
      invariant session.authenticated <==> Unlocked(d, run, k)
      invariant forall i :: 0 <= i < k ==> answers[i] == Expected(d, run, i)
    {
      UnlockedNext(d, run, k);
      var a;
      match run[k] {
        case Bind(dn, password) => a := session.HandleBind(d, dn, password);
        case Search(_, _, _, _) => a := session.HandleSearch(d, run[k]);
      }
      answers := answers + [a];
    }
  }

  /** In a directory that allows no anonymous bind, a search beyond the root entry is answered exactly when
      the latest bind before it named a known account and gave its password. */
  lemma ClosedDirectoryNeedsThePassword(d: Directory, run: seq<Request>, k: nat)
    requires k < |run| && run[k].Search? && !d.allowAnonymous && !(run[k].base == "" && run[k].scope == Base)
    ensures Expected(d, run, k).Entries? <==>
            exists j :: 0 <= j < k && IsLastBind(run, j, k) && !(run[j].dn == "" && run[j].password == "")
                        && d.account(run[j].dn) in d.passwords
                        && run[j].password == d.passwords[d.account(run[j].dn)]
  {
    forall j | 0 <= j < k && run[j].Bind? { BindMeaning(d, run[j].dn, run[j].password); }
  }

  /** A closed directory accepts a bind exactly when it is not anonymous and gives a known account's
      password; an open one refuses only a wrong password for a known account. */
  lemma BindMeaning(d: Directory, dn: string, password: string)
    ensures var anonymous := dn == "" && password == "";
            var known := d.account(dn) in d.passwords;
            var right := known && password == d.passwords[d.account(dn)];
            && (!d.allowAnonymous ==> (BindCode(d, dn, password) == Success <==> !anonymous && right))
            && (d.allowAnonymous ==> (BindCode(d, dn, password) != Success <==> !anonymous && known && !right))
            && (BindCode(d, dn, password) == InappropriateAuthentication <==> anonymous && !d.allowAnonymous)
  {}

  /** Entry `e` is what a search asks for. */
  predicate Asked(d: Directory, s: Request, e: Entry)
    requires s.Search?
  {
    if s.base == "" && s.scope == Base then e == d.rootDse
    else e in d.entries && InScope(d.text, e.dn, s.base, s.scope) && s.matches(e)
  }

  /** A search that is let through gives only what was asked for, and no more than the size limit, where
      there is one; it says so exactly when something asked for may be missing, and gives everything
      otherwise. */
  lemma SearchMeaning(d: Directory, s: Request)
    requires s.Search?
    ensures var a := Found(d, s);
            && a.Entries? && (forall e :: e in a.found ==> Asked(d, s, e))
            && (s.sizeLimit != 0 ==> |a.found| <= s.sizeLimit)
            && (!a.truncated ==> forall e :: Asked(d, s, e) ==> e in a.found)
            && (a.truncated <==> 0 < s.sizeLimit < |Candidates(d, s)|)
            && (a.truncated ==> |a.found| == s.sizeLimit && a.found <= Candidates(d, s))
  {
    if !IsRootDse(s.base, s.scope) {
      var keep := (e: Entry) => InScope(d.text, e.dn, s.base, s.scope) && s.matches(e);
      SelectedOnly(d.entries, keep);
      forall e | Asked(d, s, e) ensures e in Selected(d.entries, keep) {
        var i :| 0 <= i < |d.entries| && d.entries[i] == e;
        SelectedHas(d.entries, keep, i);
      }
    }
    assert forall e :: e in Candidates(d, s) <==> Asked(d, s, e);
  }

  /** Entry i of a directory is among the selected ones, once for each place it has, and order is kept. */
  lemma {:induction false} SelectedKeepsOrder(entries: seq<Entry>, keep: Entry -> bool, i: nat, j: nat)
    requires i < j < |entries| && keep(entries[i]) && keep(entries[j])
    ensures exists p, q :: 0 <= p < q < |Selected(entries, keep)|
                           && Selected(entries, keep)[p] == entries[i] && Selected(entries, keep)[q] == entries[j]
    decreases |entries|
  {
    var out, rest := Selected(entries, keep), Selected(entries[1..], keep);
    if i == 0 {
      SelectedHas(entries[1..], keep, j - 1);
      var q :| 0 <= q < |rest| && rest[q] == entries[j];
      assert out[0] == entries[0] && out[q + 1] == entries[j];
    } else {
      SelectedKeepsOrder(entries[1..], keep, i - 1, j - 1);
      var p, q :| 0 <= p < q < |rest| && rest[p] == entries[i] && rest[q] == entries[j];
      var shift := |out| - |rest|;
      assert out[p + shift] == entries[i] && out[q + shift] == entries[j];
    }
  }

  lemma {:induction false} SelectedHas(entries: seq<Entry>, keep: Entry -> bool, i: nat)
    requires i < |entries| && keep(entries[i])
    ensures entries[i] in Selected(entries, keep)
    decreases |entries|
  {
    if i > 0 { SelectedHas(entries[1..], keep, i - 1); }
  }

  lemma {:induction false} SelectedOnly(entries: seq<Entry>, keep: Entry -> bool)
    ensures forall e :: e in Selected(entries, keep) ==> e in entries && keep(e)
    decreases |entries|
  {
    if entries != [] { SelectedOnly(entries[1..], keep); }
  }
}
