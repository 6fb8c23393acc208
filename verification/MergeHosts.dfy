/** Merging as rangefinder/orchestrate/merge.py does it: host records changed in place, tables and sets
    that grow, and a pool of addresses that is consumed.  Each step is proved against the functions of
    EstateMerge. */
module MergeHosts {
  import opened Prelude
  import opened Ipv4
  import opened EstateMerge
  import opened MergeTables
  import opened MergeRange

  class Host {
    const id: string
    var hostname: string
    var ip: Address
    var os: string
    var tags: seq<string>
    var services: seq<Service>

    ghost function Value(): HostSpec
      reads this
    {
      HostSpec(id, hostname, ip, os, tags, services)
    }

    /** A private copy of an input host. */
    constructor (spec: HostSpec)
      ensures Value() == spec
    {
      id, hostname, ip, os, tags, services := spec.id, spec.hostname, spec.ip, spec.os, spec.tags, spec.services;
    }

    /** Add the services of `src`; false when one disagrees with what is already on its port. */
    method AddServices(src: seq<Service>) returns (ok: bool)
      modifies this`services
      ensures ok <==> Absorb(old(services), src).Some?
      ensures ok ==> services == Absorb(old(services), src).value
    {
      var existing := map p | p in Ports(services) :: ByPort(services, p);
      for i := 0 to |src|
        invariant existing.Keys == Ports(services)
        invariant forall p :: p in existing ==> existing[p] == ByPort(services, p)
        invariant Absorb(old(services), src) == Absorb(services, src[i..])
      {
        var svc := src[i];
        assert src[i..][1..] == src[i + 1..];
        if svc.port !in existing {
          ghost var before := services;
          services := services + [svc];
          existing := existing[svc.port := svc];
          assert services[..|services| - 1] == before;
          assert forall s :: s in services <==> s in before || s == svc;
        } else if existing[svc.port] != svc {
          return false;
        }
      }
      return true;
    }

    method AppendTags(src: seq<string>)
      modifies this`tags
      ensures tags == AddTags(old(tags), src)
    {
      for i := 0 to |src|
        invariant AddTags(old(tags), src) == AddTags(tags, src[i..])
      {
        assert src[i..][1..] == src[i + 1..];
        if src[i] !in tags { tags := tags + [src[i]]; }
      }
    }

    /** Fold another record of the same host into this one. */
    method FoldIn(src: HostSpec) returns (ok: bool)
      modifies this
      ensures ok <==> UnionHost(old(Value()), src).Some?
      ensures ok ==> Value() == UnionHost(old(Value()), src).value
    {
      ok := AddServices(src.services);
      if !ok { return; }
      if src.ip != ip && ip == PLACEHOLDER_IP && src.ip != PLACEHOLDER_IP { ip := src.ip; }
      if src.os != os && os == GENERIC_OS { os := src.os; }
      AppendTags(src.tags);
    }
  }

  // ---------------------------------------------------------------- the union by id

  /** The table of merged hosts and the order of their ids stand for the list `hosts`. */
  ghost predicate Represents(merged: map<string, Host>, order: seq<string>, hosts: seq<HostSpec>)
    reads set id | id in merged :: merged[id]
  {
    && |order| == |hosts| && DistinctIds(hosts)
    && merged.Keys == (set id | id in order)
    && (forall id :: id in merged ==> merged[id].id == id)
    && (forall k :: 0 <= k < |order| ==> order[k] == hosts[k].id && order[k] in merged
                                         && merged[order[k]].Value() == hosts[k])
  }

  /** The records are different objects. */
  ghost predicate Separate(hosts: seq<Host>) {
    forall i, j :: 0 <= i < j < |hosts| ==> hosts[i] != hosts[j]
  }

  ghost predicate OwnIds(hosts: seq<Host>) {
    forall i, j :: 0 <= i < j < |hosts| ==> hosts[i].id != hosts[j].id
  }

  /** One more record: a new host, or more about a known one. */
  method AddRecord(merged: map<string, Host>, order: seq<string>, ghost hosts: seq<HostSpec>, h: HostSpec)
    returns (ok: bool, merged': map<string, Host>, order': seq<string>)
    requires Represents(merged, order, hosts)
    modifies set id | id in merged :: merged[id]
    ensures ok <==> AddHost(hosts, h).Some?
    ensures ok ==> Represents(merged', order', AddHost(hosts, h).value)
    ensures forall id :: id in merged' ==> fresh(merged'[id]) || (id in merged && merged'[id] == merged[id])
  {
    merged', order', ok := merged, order, true;
    FindId(hosts, order, h.id);
    ghost var k := IndexOf(hosts, h.id);
    if h.id !in merged {
      var copy := new Host(h);
      merged', order' := merged[h.id := copy], order + [h.id];
      assert forall id :: id in merged ==> merged[id].Value() == old(merged[id].Value());
    } else {
      assert order[k] == h.id && merged[h.id].Value() == hosts[k];
      forall j | 0 <= j < |order| && j != k ensures merged[order[j]] != merged[h.id] {
        assert hosts[j].id != hosts[k].id && merged[order[j]].id == order[j];
      }
      ok := merged[h.id].FoldIn(h);
    }
  }

  method UnionHosts(all: seq<HostSpec>) returns (ok: bool, hosts: seq<Host>)
    ensures ok <==> UnionAll(all).Some?
    ensures ok ==> Separate(hosts) && OwnIds(hosts) && fresh(hosts) && |hosts| == |UnionAll(all).value|
    ensures ok ==> forall k :: 0 <= k < |hosts| ==> hosts[k].Value() == UnionAll(all).value[k]
  {
    var merged: map<string, Host> := map[];
    var order: seq<string> := [];
    hosts := [];
    for i := 0 to |all|
      invariant UnionAll(all[..i]).Some?
      invariant forall id :: id in merged ==> fresh(merged[id])
      invariant Represents(merged, order, UnionAll(all[..i]).value)
    {
      assert all[..i + 1][..i] == all[..i] && all[..i + 1][i] == all[i];
      ok, merged, order := AddRecord(merged, order, UnionAll(all[..i]).value, all[i]);
      if !ok {
        UnionFailsEarly(all, i + 1);
        return;
      }
    }
    assert all[..|all|] == all;
    hosts := seq(|order|, k requires 0 <= k < |order| && order[k] in merged => merged[order[k]]);
    ok := true;
  }

  lemma FindId(hosts: seq<HostSpec>, order: seq<string>, id: string)
    requires |order| == |hosts| && forall k :: 0 <= k < |order| ==> order[k] == hosts[k].id
    ensures id in order <==> IndexOf(hosts, id) < |hosts|
  {}

  lemma {:induction false} UnionFailsEarly(all: seq<HostSpec>, n: nat)
    requires n <= |all| && UnionAll(all[..n]).None?
    ensures UnionAll(all).None?
    decreases |all|
  {
    if n == |all| {
      assert all[..n] == all;
    } else {
      assert all[..|all| - 1][..n] == all[..n];
      UnionFailsEarly(all[..|all| - 1], n);
    }
  }

  // ---------------------------------------------------------------- addresses

  ghost function Values(hosts: seq<Host>): seq<HostSpec>
    reads hosts
  {
    seq(|hosts|, i requires 0 <= i < |hosts| reads hosts => hosts[i].Value())
  }

  lemma {:induction false} FilterGrows(s: seq<nat>, p: nat -> bool, n: nat)
    requires n <= |s|
    ensures Filter(s[..n], p) <= Filter(s, p)
    decreases |s|
  {
    if n == |s| {
      assert s[..n] == s;
    } else {
      assert s[..|s| - 1][..n] == s[..n];
      FilterGrows(s[..|s| - 1], p, n);
    }
  }

  /** The pool has been read up to `cursor`; its first `m` addresses outside `kept` are handed out. */
  ghost predicate HandedOut(pool: seq<nat>, kept: set<nat>, cursor: nat, used: set<nat>, m: nat) {
    && cursor <= |pool| && m <= |Without(pool, kept)|
    && Without(pool[..cursor], kept) == Without(pool, kept)[..m]
    && used == kept + set ip | ip in Without(pool, kept)[..m]
  }

  /** The next address of the pool that is not in use; None when the pool is exhausted. */
  method NextFree(pool: seq<nat>, ghost kept: set<nat>, cursor0: nat, used: set<nat>, ghost m: nat)
    returns (ip: Option<nat>, cursor: nat)
    requires Distinct(pool) && HandedOut(pool, kept, cursor0, used, m)
    ensures ip.None? <==> m == |Without(pool, kept)|
    ensures ip.Some? ==> m < |Without(pool, kept)| && ip.value == Without(pool, kept)[m]
                         && HandedOut(pool, kept, cursor, used + {ip.value}, m + 1)
  {
    cursor := cursor0;
    while cursor < |pool|
      invariant HandedOut(pool, kept, cursor, used, m)
      decreases |pool| - cursor
    {
      ReadOne(pool, kept, cursor, used, m);
      cursor := cursor + 1;
      if pool[cursor - 1] !in used {
        return Some(pool[cursor - 1]), cursor;
      }
    }
    assert pool[..cursor] == pool;
    ip := None;
  }

  lemma StartHanding(net: Net, gw: Option<nat>, kept: set<nat>)
    requires net.prefix <= 32
    ensures Distinct(Pool(net, gw)) && HandedOut(Pool(net, gw), kept, 0, kept, 0)
  {
    PoolIsExact(net, gw);
    assert Pool(net, gw)[..0] == [];
  }

  /** Reading one more address either skips a kept one or yields the next free one. */
  lemma ReadOne(pool: seq<nat>, kept: set<nat>, cursor: nat, used: set<nat>, m: nat)
    requires Distinct(pool) && cursor < |pool| && HandedOut(pool, kept, cursor, used, m)
    ensures pool[cursor] in used ==> HandedOut(pool, kept, cursor + 1, used, m)
    ensures pool[cursor] !in used ==> m < |Without(pool, kept)| && pool[cursor] == Without(pool, kept)[m]
                                      && HandedOut(pool, kept, cursor + 1, used + {pool[cursor]}, m + 1)
  {
    var x, free := pool[cursor], Without(pool, kept);
    assert pool[..cursor + 1][..cursor] == pool[..cursor] && pool[..cursor + 1][cursor] == x;
    assert x !in pool[..cursor];
    assert x !in free[..m];
    FilterGrows(pool, ip => ip !in kept, cursor + 1);
    if x !in used {
      assert Without(pool[..cursor + 1], kept) == free[..m] + [x];
      assert free[..m + 1] == free[..m] + [x];
    }
  }

  ghost predicate Have(hosts: seq<Host>, ips: seq<Address>)
    reads hosts
  {
    |ips| == |hosts| && forall i :: 0 <= i < |hosts| ==> hosts[i].ip == ips[i]
  }

  /** The ids of the hosts that keep their address, and those addresses. */
  method Pin(hosts: seq<Host>, ghost ips: seq<Address>, net: Net, gw: Option<Address>)
    returns (pinned: set<string>, used: set<nat>)
    requires OwnIds(hosts) && net.prefix <= 32 && Have(hosts, ips)
    ensures forall i :: 0 <= i < |hosts| ==> (hosts[i].id in pinned <==> Pinned(ips, net, gw, i))
    ensures used == PinnedSet(ips, net, gw)
  {
    var claims := multiset{};
    for i := 0 to |hosts|
      invariant claims == multiset(ips[..i])
    {
      claims := claims + multiset{hosts[i].ip};
      assert ips[..i + 1] == ips[..i] + [ips[i]];
    }
    assert ips[..|hosts|] == ips;
    pinned, used := {}, {};
    for i := 0 to |hosts|
      invariant forall k :: 0 <= k < i ==> (hosts[k].id in pinned <==> Pinned(ips, net, gw, k))
      invariant forall id :: id in pinned ==> exists k :: 0 <= k < i && hosts[k].id == id
      invariant used == set k | 0 <= k < i && Pinned(ips, net, gw, k) :: ips[k]
    {
      var ip := hosts[i].ip;
      OnlyClaim(ips, i);
      if claims[ip] == 1 && InNet(ip, net) && ip != net.base && (gw.None? || ip != gw.value) {
        pinned, used := pinned + {hosts[i].id}, used + {ip};
      }
    }
  }

  /** An address is claimed once exactly when no other host has it. */
  lemma OnlyClaim(ips: seq<nat>, i: nat)
    requires i < |ips|
    ensures multiset(ips)[ips[i]] == 1 <==> forall j :: 0 <= j < |ips| && j != i ==> ips[j] != ips[i]
  {
    var rest := ips[..i] + ips[i + 1..];
    assert ips == ips[..i] + [ips[i]] + ips[i + 1..];
    assert multiset(ips)[ips[i]] == multiset(rest)[ips[i]] + 1;
    forall j | 0 <= j < |ips| && j != i ensures ips[j] in rest {
      assert ips[j] == if j < i then rest[j] else rest[j - 1];
    }
  }

  /** Where host `k` ends up, as far as the pool reaches. */
  ghost function Target(ips: seq<nat>, net: Net, gw: Option<nat>, k: nat): nat
    requires k < |ips| && net.prefix <= 32
  {
    if Pinned(ips, net, gw, k) then ips[k]
    else if Moving(ips, net, gw, k) < |Free(ips, net, gw)| then Free(ips, net, gw)[Moving(ips, net, gw, k)]
    else 0
  }

  ghost predicate AreTargets(ips: seq<nat>, net: Net, gw: Option<nat>, targets: seq<nat>)
    requires net.prefix <= 32
  {
    |targets| == |ips|
    && forall k :: 0 <= k < |ips| ==> targets[k] == Target(ips, net, gw, k)
  }

  lemma TargetList(ips: seq<nat>, net: Net, gw: Option<nat>) returns (targets: seq<nat>)
    requires net.prefix <= 32
    ensures AreTargets(ips, net, gw, targets) && |targets| == |ips|
  {
    targets := seq(|ips|, k requires 0 <= k < |ips| => Target(ips, net, gw, k));
  }

  lemma TargetsAreAssigned(ips: seq<nat>, net: Net, gw: Option<nat>, targets: seq<nat>)
    requires net.prefix <= 32 && AreTargets(ips, net, gw, targets)
    ensures AssignIps(ips, net, gw).Some? <==> Moving(ips, net, gw, |ips|) <= |Free(ips, net, gw)|
    ensures AssignIps(ips, net, gw).Some? ==> AssignIps(ips, net, gw).value == targets
  {
    if AssignIps(ips, net, gw).Some? {
      forall k | 0 <= k < |ips| ensures AssignIps(ips, net, gw).value[k] == targets[k] {
        MovingGrows(ips, net, gw, k, |ips|);
      }
    }
  }

  /** What host `i` adds to the number of moves, and where it goes. */
  lemma TargetStep(ips: seq<nat>, net: Net, gw: Option<nat>, targets: seq<nat>, i: nat)
    requires i < |ips| && net.prefix <= 32 && AreTargets(ips, net, gw, targets)
    ensures |targets| == |ips|
    ensures Pinned(ips, net, gw, i) ==> targets[i] == ips[i] && Moving(ips, net, gw, i + 1) == Moving(ips, net, gw, i)
    ensures !Pinned(ips, net, gw, i) ==>
              Moving(ips, net, gw, i + 1) == Moving(ips, net, gw, i) + 1 <= Moving(ips, net, gw, |ips|)
    ensures !Pinned(ips, net, gw, i) && Moving(ips, net, gw, i) < |Free(ips, net, gw)| ==>
              targets[i] == Free(ips, net, gw)[Moving(ips, net, gw, i)]
  {
    MovingGrows(ips, net, gw, i + 1, |ips|);
  }

  ghost predicate AllAddresses(s: seq<nat>) {
    forall k :: 0 <= k < |s| ==> s[k] < 0x1_0000_0000
  }

  lemma FreeAreAddresses(ips: seq<nat>, net: Net, gw: Option<nat>)
    requires ValidNet(net)
    ensures AllAddresses(Free(ips, net, gw))
  {
    FreeIsExact(ips, net, gw);
    NetEnds(net.base, HostBits(net.prefix), Shr(net.base, HostBits(net.prefix)));
    var free := Free(ips, net, gw);
    forall k | 0 <= k < |free| ensures free[k] < 0x1_0000_0000 {
      assert free[k] in free;
      NetHostsInNet(net, free[k]);
    }
  }

  /** The first `n` hosts have reached their addresses. */
  ghost predicate Placed(hosts: seq<Host>, targets: seq<nat>, n: nat)
    reads hosts
  {
    n <= |hosts| == |targets| && forall k :: 0 <= k < n ==> hosts[k].ip == targets[k]
  }

  /** The hosts from number `n` on still have the addresses they came with. */
  ghost predicate Untouched(hosts: seq<Host>, ips: seq<Address>, n: nat)
    reads hosts
  {
    n <= |hosts| == |ips| && forall k :: n <= k < |hosts| ==> hosts[k].ip == ips[k]
  }

  /** Leave host `i` alone if it is pinned, else give it the next free address. */
  method SettleHost(hosts: seq<Host>, i: nat, keep: bool, pool: seq<nat>, cursor0: nat, used0: set<nat>,
                    ghost kept: set<nat>, ghost m: nat, ghost ips: seq<Address>, ghost targets: seq<nat>)
    returns (ok: bool, cursor: nat, used: set<nat>)
    requires Separate(hosts) && i < |hosts| && Placed(hosts, targets, i) && Untouched(hosts, ips, i)
    requires Distinct(pool) && HandedOut(pool, kept, cursor0, used0, m) && AllAddresses(Without(pool, kept))
    requires keep ==> targets[i] == ips[i]
    requires !keep && m < |Without(pool, kept)| ==> targets[i] == Without(pool, kept)[m]
    modifies hosts`ip
    ensures ok <==> keep || m < |Without(pool, kept)|
    ensures ok ==> Placed(hosts, targets, i + 1) && Untouched(hosts, ips, i + 1)
    ensures ok ==> HandedOut(pool, kept, cursor, used, if keep then m else m + 1)
  {
    ok, cursor, used := true, cursor0, used0;
    if !keep {
      var free;
      free, cursor := NextFree(pool, kept, cursor0, used0, m);
      ok := free.Some?;
      if ok {
        used := used0 + {free.value};
        hosts[i].ip := free.value;
      }
    }
  }

  /** Where the assignment stands before host `i`. */
  ghost predicate Reassigning(hosts: seq<Host>, ips: seq<Address>, net: Net, gw: Option<Address>, targets: seq<nat>,
                              cursor: nat, used: set<nat>, i: nat)
    requires net.prefix <= 32
    reads hosts
  {
    && Placed(hosts, targets, i) && Untouched(hosts, ips, i)
    && HandedOut(Pool(net, gw), PinnedSet(ips, net, gw), cursor, used, Moving(ips, net, gw, i))
  }

  /** One turn of the loop over the hosts. */
  method ReassignOne(hosts: seq<Host>, keep: bool, pool: seq<nat>, cursor0: nat, used0: set<nat>, i: nat,
                     ghost ips: seq<Address>, ghost net: Net, ghost gw: Option<Address>, ghost targets: seq<nat>)
    returns (ok: bool, cursor: nat, used: set<nat>)
    requires Separate(hosts) && i < |hosts| && net.prefix <= 32 && pool == Pool(net, gw)
    requires AllAddresses(Free(ips, net, gw)) && AreTargets(ips, net, gw, targets)
    requires Reassigning(hosts, ips, net, gw, targets, cursor0, used0, i)
    requires keep <==> Pinned(ips, net, gw, i)
    modifies hosts`ip
    ensures if ok then Reassigning(hosts, ips, net, gw, targets, cursor, used, i + 1)
            else Moving(ips, net, gw, |hosts|) > |Free(ips, net, gw)|
  {
    TargetStep(ips, net, gw, targets, i);
    PoolIsExact(net, gw);
    ok, cursor, used := SettleHost(hosts, i, keep, pool, cursor0, used0, PinnedSet(ips, net, gw),
                                   Moving(ips, net, gw, i), ips, targets);
  }

  /** Give the hosts that are not pinned free addresses, in order. */
  method Reassign(hosts: seq<Host>, pinned: set<string>, used0: set<nat>, ghost ips: seq<Address>, net: Net,
                  gw: Option<Address>, ghost targets: seq<nat>)
    returns (ok: bool)
    requires Separate(hosts) && Untouched(hosts, ips, 0) && Placed(hosts, targets, 0)
    requires net.prefix <= 32 && AllAddresses(Free(ips, net, gw))
    requires forall i {:trigger Pinned(ips, net, gw, i)} :: 0 <= i < |hosts| ==>
               (hosts[i].id in pinned <==> Pinned(ips, net, gw, i))
    requires used0 == PinnedSet(ips, net, gw) && AreTargets(ips, net, gw, targets)
    modifies hosts`ip
    ensures ok <==> Moving(ips, net, gw, |hosts|) <= |Free(ips, net, gw)|
    ensures ok ==> Placed(hosts, targets, |hosts|)
  {
    var used, pool, cursor := used0, Pool(net, gw), 0;
    StartHanding(net, gw, used0);
    for i := 0 to |hosts|
      invariant Reassigning(hosts, ips, net, gw, targets, cursor, used, i)
    {
      ok, cursor, used := ReassignOne(hosts, hosts[i].id in pinned, pool, cursor, used, i, ips, net, gw, targets);
      if !ok { return; }
    }
    ok := true;
  }

  /** Keep each address that is unique and usable; give the other hosts free ones, in order. */
  method AssignAddresses(hosts: seq<Host>, ghost ips: seq<Address>, net: Net, gw: Option<Address>) returns (ok: bool)
    requires Separate(hosts) && OwnIds(hosts) && Have(hosts, ips) && ValidNet(net)
    modifies hosts`ip
    ensures ok <==> AssignIps(ips, net, gw).Some?
    ensures ok ==> forall i :: 0 <= i < |hosts| ==> hosts[i].ip == AssignIps(ips, net, gw).value[i]
  {
    var pinned, used := Pin(hosts, ips, net, gw);
    FreeAreAddresses(ips, net, gw);
    ghost var targets := TargetList(ips, net, gw);
    ok := Reassign(hosts, pinned, used, ips, net, gw, targets);
    TargetsAreAssigned(ips, net, gw, targets);
  }

  // ---------------------------------------------------------------- hostnames

  /** Give every host a name of its own. */
  method DedupHostnames(hosts: seq<Host>, ghost names: seq<string>)
    requires Separate(hosts) && |names| == |hosts| && forall i :: 0 <= i < |hosts| ==> hosts[i].hostname == names[i]
    modifies hosts`hostname
    ensures forall i :: 0 <= i < |hosts| ==> hosts[i].hostname == Dedup(names)[i]
  {
    var seen: set<string> := {};
    for i := 0 to |hosts|
      invariant seen == NameSet(Dedup(names[..i]))
      invariant forall k :: i <= k < |hosts| ==> hosts[k].hostname == names[k]
      invariant forall k :: 0 <= k < i ==> hosts[k].hostname == Dedup(names[..i])[k]
    {
      var name := hosts[i].hostname;
      DedupStep(names, i);
      assert name == names[i];
      if name in seen {
        var n := FreeSuffix(name, seen);
        hosts[i].hostname := Suffixed(name, n);
      }
      seen := seen + {hosts[i].hostname};
    }
    assert names[..|hosts|] == names;
  }

  lemma DedupStep(names: seq<string>, i: nat)
    requires i < |names|
    ensures Dedup(names[..i + 1]) == Dedup(names[..i]) + [Rename(names[i], NameSet(Dedup(names[..i])))]
    ensures NameSet(Dedup(names[..i + 1])) ==
            NameSet(Dedup(names[..i])) + {Rename(names[i], NameSet(Dedup(names[..i])))}
  {
    assert names[..i + 1][..i] == names[..i] && names[..i + 1][i] == names[i];
  }

  /** Count up from two until the suffixed name is unused. */
  method FreeSuffix(name: string, seen: set<string>) returns (n: nat)
    requires name in seen
    ensures n == FirstFree(name, seen, 2)
  {
    n := 2;
    while Suffixed(name, n) in seen
      invariant n >= 2 && TakenBelow(name, seen, n) && FirstFree(name, seen, 2) == FirstFree(name, seen, n)
      decreases |seen| + 2 - n
    {
      n := n + 1;
      TakenAreFew(name, seen, n);
    }
  }

  // ---------------------------------------------------------------- merge_configs

  method MergeConfigs(configs: seq<Config>, name: string, subnet: Option<Net>)
    returns (r: Result<Merged, MergeError>)
    requires subnet.Some? ==> ValidNet(subnet.value)
    ensures r == MergeResult(configs, name, subnet)
  {
    if configs == [] { return Err(NoConfigs); }
    var all, gateway := Gather(configs);
    if all == [] { return Err(NoHosts); }
    var topology := MergeTopology(configs, all, gateway, subnet);
    if topology.Err? { return Err(topology.error); }
    var blocks, objectives, version := GatherRest(configs);
    var identities := MergeIdentities(blocks);
    if identities.Err? { return Err(DomainClash); }
    var merged := AppendUnseen([], objectives);
    r := Ok(Merged(ChooseName(name, configs), version, topology.value, identities.value, merged));
  }

  method MergeTopology(ghost configs: seq<Config>, all: seq<HostSpec>, gateway: Option<Address>, subnet: Option<Net>)
    returns (r: Result<Topology, MergeError>)
    requires configs != [] && all == AllHosts(configs) && all != [] && gateway == FirstGateway(configs)
    requires subnet.Some? ==> ValidNet(subnet.value)
    ensures r == MergedTopology(configs, subnet)
  {
    var ok, hosts := UnionHosts(all);
    if !ok { return Err(PortConflict); }
    UnionIsNotEmpty(all);
    ghost var united := UnionAll(all).value;
    assert Values(hosts) == united;
    var net := ChooseSubnet(hosts, united, subnet);
    r := FinishHosts(hosts, united, net, ClampGateway(gateway, net));
  }

  /** The directory blocks and objectives of every input in order, and the latest schema version. */
  method GatherRest(configs: seq<Config>)
    returns (blocks: seq<Identities>, objectives: seq<Named>, version: Option<int>)
    ensures blocks == Blocks(configs) && objectives == AllObjectives(configs) && version == LatestVersion(configs)
  {
    blocks, objectives, version := [], [], None;
    for i := 0 to |configs|
      invariant blocks == Blocks(configs[..i]) && objectives == AllObjectives(configs[..i])
      invariant version == LatestVersion(configs[..i])
    {
      assert configs[..i + 1][..i] == configs[..i];
      var c := configs[i];
      blocks, objectives, version := blocks + BlockOf(c), objectives + c.objectives, Later(version, c.version);
    }
    assert configs[..|configs|] == configs;
  }

  /** A united host with the address and the name it was given. */
  ghost predicate IsSettled(h: HostSpec, was: HostSpec, ip: nat, name: string) {
    h.ip == ip && h == was.(ip := h.ip, hostname := name)
  }

  /** Addresses, then names; nothing else of a host changes. */
  method SettleHosts(hosts: seq<Host>, ghost united: seq<HostSpec>, net: Net, gw: Option<Address>) returns (ok: bool)
    requires Separate(hosts) && OwnIds(hosts) && Values(hosts) == united && ValidNet(net)
    modifies hosts`ip, hosts`hostname
    ensures ok <==> AssignIps(Addresses(united), net, gw).Some?
    ensures ok ==> forall i {:trigger hosts[i]} :: 0 <= i < |hosts| ==>
              IsSettled(hosts[i].Value(), united[i], AssignIps(Addresses(united), net, gw).value[i],
                        Dedup(Names(united))[i])
  {
    forall i | 0 <= i < |hosts| ensures hosts[i].Value() == united[i] { assert Values(hosts)[i] == united[i]; }
    ok := AssignAddresses(hosts, Addresses(united), net, gw);
    if ok {
      ghost var ips, names := AssignIps(Addresses(united), net, gw).value, Dedup(Names(united));
      DedupHostnames(hosts, Names(united));
      forall i | 0 <= i < |hosts| ensures IsSettled(hosts[i].Value(), united[i], ips[i], names[i]) {
        var h := hosts[i];
        assert h.Value() == old(h.Value()).(ip := h.ip, hostname := h.hostname);
      }
    }
  }

  method FinishHosts(hosts: seq<Host>, ghost united: seq<HostSpec>, net: Net, gw: Option<Address>)
    returns (r: Result<Topology, MergeError>)
    requires Separate(hosts) && OwnIds(hosts) && Values(hosts) == united && ValidNet(net)
    modifies hosts
    ensures r == Finish(united, net, gw)
  {
    var ok := SettleHosts(hosts, united, net, gw);
    if !ok { return Err(SubnetTooSmall); }
    var specs := Snapshot(hosts);
    SettledAre(united, net, gw, specs);
    r := Ok(Topology(net, gw, specs));
  }

  lemma SettledAre(hosts: seq<HostSpec>, net: Net, gw: Option<Address>, specs: seq<HostSpec>)
    requires ValidNet(net) && AssignIps(Addresses(hosts), net, gw).Some? && |specs| == |hosts|
    requires forall i {:trigger specs[i]} :: 0 <= i < |hosts| ==>
               IsSettled(specs[i], hosts[i], AssignIps(Addresses(hosts), net, gw).value[i], Dedup(Names(hosts))[i])
    ensures Finish(hosts, net, gw) == Ok(Topology(net, gw, specs))
  {
    AssignedAreAddresses(Addresses(hosts), net, gw);
    assert specs == Settle(hosts, AssignIps(Addresses(hosts), net, gw).value, Dedup(Names(hosts)));
  }

  /** The hosts of every input in order, and the first gateway named. */
  method Gather(configs: seq<Config>) returns (all: seq<HostSpec>, gateway: Option<Address>)
    ensures all == AllHosts(configs) && gateway == FirstGateway(configs)
  {
    all, gateway := [], None;
    for i := 0 to |configs|
      invariant all == AllHosts(configs[..i])
      invariant FirstGateway(configs) == if gateway.Some? then gateway else FirstGateway(configs[i..])
    {
      assert configs[..i + 1][..i] == configs[..i];
      assert configs[i..][1..] == configs[i + 1..];
      all := all + configs[i].hosts;
      if gateway.None? { gateway := configs[i].gateway; }
    }
    assert configs[..|configs|] == configs;
  }

  /** The explicit subnet, or one that covers the hosts. */
  method ChooseSubnet(hosts: seq<Host>, ghost united: seq<HostSpec>, subnet: Option<Net>) returns (net: Net)
    requires subnet.Some? ==> ValidNet(subnet.value)
    requires hosts != [] && united == Values(hosts)
    ensures net == Subnet(united, subnet)
  {
    if subnet.Some? { return subnet.value; }
    var ips: seq<Address> := [];
    for i := 0 to |hosts|
      invariant ips == Addresses(united)[..i]
    {
      ips := ips + [hosts[i].ip];
    }
    assert ips == Addresses(united);
    net := DeriveSubnet(ips);
  }

  /** The finished records, as they are written out. */
  method Snapshot(hosts: seq<Host>) returns (specs: seq<HostSpec>)
    ensures specs == Values(hosts)
  {
    specs := [];
    for i := 0 to |hosts|
      invariant specs == Values(hosts)[..i]
    {
      var h := hosts[i];
      specs := specs + [HostSpec(h.id, h.hostname, h.ip, h.os, h.tags, h.services)];
    }
  }
}
