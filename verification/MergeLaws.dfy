/** What a merge gives its caller, field by field (rangefinder/orchestrate/merge.py): which address a host
    that moves gets, how a clashing name is changed, and where every other field comes from. */
module MergeLaws {
  import opened Prelude
  import opened Decimal
  import opened Ipv4
  import opened EstateMerge
  import opened MergeRange

  // ---------------------------------------------------------------- the addresses of a network

  /** Neither the first nor the last address, where there are more than two. */
  predicate IsHostAddress(a: nat, net: Net) {
    if net.prefix == 32 then a == net.base
    else if net.prefix == 31 then a == net.base || a == net.base + 1
    else net.prefix < 31 && net.base < a < net.base + Pow2(32 - net.prefix) - 1
  }

  lemma HostAddressesAre(net: Net, a: nat)
    requires net.prefix <= 32
    ensures a in NetHosts(net) <==> IsHostAddress(a, net)
    ensures Ascending(NetHosts(net))
  {
    var hosts := NetHosts(net);
    if IsHostAddress(a, net) && net.prefix < 32 {
      var first := if net.prefix == 31 then net.base else net.base + 1;
      assert hosts[a - first] == a;
    }
  }

  /** A host keeps its address: no other host has it, it lies in the network, and it is neither the network
      address nor the gateway. */
  predicate Keeps(ips: seq<nat>, net: Net, gw: Option<nat>, i: nat) {
    && i < |ips| && (forall j :: 0 <= j < |ips| && ips[j] == ips[i] ==> j == i)
    && net.prefix <= 32 && net.base < ips[i] < net.base + Pow2(32 - net.prefix) && gw != Some(ips[i])
  }

  lemma PinnedIsKept(ips: seq<nat>, net: Net, gw: Option<nat>, i: nat)
    requires i < |ips| && net.prefix <= 32
    ensures Pinned(ips, net, gw, i) <==> Keeps(ips, net, gw, i)
  {}

  // ---------------------------------------------------------------- the order addresses are handed out in

  predicate Ascending(s: seq<nat>) {
    forall p, q :: 0 <= p < q < |s| ==> s[p] < s[q]
  }

  /** Offsets from ten up come before the others; within either, the lower first. */
  predicate Sooner(base: nat, x: nat, y: nat) {
    if (x >= base + 10) == (y >= base + 10) then x <= y else x >= base + 10
  }

  predicate InOrder(base: nat, s: seq<nat>) {
    forall p, q :: 0 <= p < q < |s| ==> Sooner(base, s[p], s[q])
  }

  lemma {:induction false} FilterAscends(s: seq<nat>, p: nat -> bool)
    requires Ascending(s)
    ensures Ascending(Filter(s, p))
  {
    if s != [] {
      var front, last := s[..|s| - 1], s[|s| - 1];
      FilterAscends(front, p);
      var kept := Filter(front, p);
      forall i | 0 <= i < |kept| ensures kept[i] < last { assert kept[i] in kept; }
    }
  }

  lemma {:induction false} FilterInOrder(base: nat, s: seq<nat>, p: nat -> bool)
    requires InOrder(base, s)
    ensures InOrder(base, Filter(s, p))
  {
    if s != [] {
      var front, last := s[..|s| - 1], s[|s| - 1];
      FilterInOrder(base, front, p);
      var kept := Filter(front, p);
      forall i | 0 <= i < |kept| ensures Sooner(base, kept[i], last) { assert kept[i] in kept; }
    }
  }

  lemma PoolInOrder(net: Net, gw: Option<nat>)
    requires net.prefix <= 32
    ensures InOrder(net.base, Pool(net, gw))
  {
    HostAddressesAre(net, 0);
    var high, low := Filter(NetHosts(net), ip => ip - net.base >= 10 && gw != Some(ip)),
                     Filter(NetHosts(net), ip => ip - net.base < 10 && gw != Some(ip));
    FilterAscends(NetHosts(net), ip => ip - net.base >= 10 && gw != Some(ip));
    FilterAscends(NetHosts(net), ip => ip - net.base < 10 && gw != Some(ip));
    forall i | 0 <= i < |high| ensures high[i] >= net.base + 10 { assert high[i] in high; }
    forall i | 0 <= i < |low| ensures low[i] < net.base + 10 { assert low[i] in low; }
  }

  lemma {:induction false} MoverNumber(ips: seq<nat>, net: Net, gw: Option<nat>, n: nat, q: nat) returns (j: nat)
    requires n <= |ips| && net.prefix <= 32 && q < Moving(ips, net, gw, n)
    ensures j < n && !Pinned(ips, net, gw, j) && Moving(ips, net, gw, j) == q
    decreases n
  {
    if q < Moving(ips, net, gw, n - 1) { j := MoverNumber(ips, net, gw, n - 1, q); } else { j := n - 1; }
  }

  /** Nobody keeps address `a`, and no host before host `i` was given it. */
  ghost predicate StillFree(ips: seq<nat>, net: Net, gw: Option<nat>, out: seq<nat>, i: nat, a: nat) {
    && IsHostAddress(a, net) && gw != Some(a)
    && (forall j :: 0 <= j < |ips| && Keeps(ips, net, gw, j) ==> ips[j] != a)
    && forall j :: 0 <= j < i && j < |out| ==> out[j] != a
  }

  lemma FreeHas(ips: seq<nat>, net: Net, gw: Option<nat>, a: nat) returns (q: nat)
    requires net.prefix <= 32 && IsHostAddress(a, net) && gw != Some(a)
    requires forall j :: 0 <= j < |ips| && Keeps(ips, net, gw, j) ==> ips[j] != a
    ensures q < |Free(ips, net, gw)| && Free(ips, net, gw)[q] == a
  {
    HostAddressesAre(net, a);
    FreeIsExact(ips, net, gw);
    forall j | 0 <= j < |ips| && Pinned(ips, net, gw, j) ensures ips[j] != a { PinnedIsKept(ips, net, gw, j); }
    assert a in Free(ips, net, gw);
    q :| 0 <= q < |Free(ips, net, gw)| && Free(ips, net, gw)[q] == a;
  }

  lemma FreeInOrder(ips: seq<nat>, net: Net, gw: Option<nat>)
    requires net.prefix <= 32
    ensures InOrder(net.base, Free(ips, net, gw))
  {
    PoolInOrder(net, gw);
    var gone := PinnedSet(ips, net, gw);
    FilterInOrder(net.base, Pool(net, gw), ip => ip !in gone);
  }

  /** Each host that moves gets the first address still free: the least from offset ten up, and only when none
      is left there the least below. */
  lemma MoverGetsTheFirst(ips: seq<nat>, net: Net, gw: Option<nat>, i: nat, a: nat)
    requires net.prefix <= 32 && AssignIps(ips, net, gw).Some? && i < |ips| && !Keeps(ips, net, gw, i)
    ensures var out := AssignIps(ips, net, gw).value;
            && StillFree(ips, net, gw, out, i, out[i])
            && (StillFree(ips, net, gw, out, i, a) ==> Sooner(net.base, out[i], a))
  {
    var out, m := AssignIps(ips, net, gw).value, Moving(ips, net, gw, i);
    PinnedIsKept(ips, net, gw, i);
    MovingGrows(ips, net, gw, i, |ips|);
    AssignedIsFree(ips, net, gw, i);
    if StillFree(ips, net, gw, out, i, a) {
      var q := FreeHas(ips, net, gw, a);
      if q < m { var j := EarlierWasGiven(ips, net, gw, i, q); }
      FreeInOrder(ips, net, gw);
    }
  }

  lemma EarlierWasGiven(ips: seq<nat>, net: Net, gw: Option<nat>, i: nat, q: nat) returns (j: nat)
    requires net.prefix <= 32 && AssignIps(ips, net, gw).Some? && i < |ips| && q < Moving(ips, net, gw, i)
    ensures j < i && q < |Free(ips, net, gw)| && AssignIps(ips, net, gw).value[j] == Free(ips, net, gw)[q]
  {
    j := MoverNumber(ips, net, gw, i, q);
    MovingGrows(ips, net, gw, i, |ips|);
  }

  lemma AssignedIsFree(ips: seq<nat>, net: Net, gw: Option<nat>, i: nat)
    requires net.prefix <= 32 && AssignIps(ips, net, gw).Some? && i < |ips| && !Pinned(ips, net, gw, i)
    ensures var out := AssignIps(ips, net, gw).value; StillFree(ips, net, gw, out, i, out[i])
  {
    var out := AssignIps(ips, net, gw).value;
    AssignedFromFree(ips, net, gw, i);
    FreeIsExact(ips, net, gw);
    HostAddressesAre(net, out[i]);
    forall j | 0 <= j < |ips| && Keeps(ips, net, gw, j) ensures ips[j] != out[i] {
      PinnedIsKept(ips, net, gw, j);
      assert ips[j] in PinnedSet(ips, net, gw);
    }
    forall j | 0 <= j < i ensures out[j] != out[i] { AssignedDiffer(ips, net, gw, j, i); }
  }

  // ---------------------------------------------------------------- the addresses of a merge

  /** The addresses and names of settled hosts, against those they came with. */
  ghost predicate IsSettledFrom(before: seq<HostSpec>, t: Topology) {
    && ValidNet(t.net) && AssignIps(Addresses(before), t.net, t.gateway).Some?
    && Addresses(t.hosts) == AssignIps(Addresses(before), t.net, t.gateway).value
    && Names(t.hosts) == Dedup(Names(before)) && |t.hosts| == |before|
  }

  lemma FinishSettles(hosts: seq<HostSpec>, net: Net, gw: Option<Address>)
    requires ValidNet(net) && Finish(hosts, net, gw).Ok?
    ensures IsSettledFrom(hosts, Finish(hosts, net, gw).value)
  {
    AssignedAreAddresses(Addresses(hosts), net, gw);
    SettledParts(hosts, AssignIps(Addresses(hosts), net, gw).value, Dedup(Names(hosts)));
  }

  /** The hosts of a merge that returns, before and after they are settled. */
  lemma MergedIsSettled(configs: seq<Config>, name: string, subnet: Option<Net>)
    requires subnet.Some? ==> ValidNet(subnet.value)
    requires MergeResult(configs, name, subnet).Ok?
    ensures UnionAll(AllHosts(configs)).Some?
    ensures IsSettledFrom(United(configs), MergeResult(configs, name, subnet).value.topology)
  {
    UnionIsNotEmpty(AllHosts(configs));
    var net := Subnet(United(configs), subnet);
    FinishSettles(United(configs), net, ClampGateway(FirstGateway(configs), net));
  }

  /** Host `i` keeps a usable address of its own; or it gets one still free, and the first such, as far as `a`
      is one. */
  ghost predicate Placed(before: seq<nat>, net: Net, gw: Option<nat>, after: seq<nat>, i: nat, a: nat) {
    i < |before| == |after| &&
    if Keeps(before, net, gw, i) then after[i] == before[i]
    else StillFree(before, net, gw, after, i, after[i])
         && (StillFree(before, net, gw, after, i, a) ==> Sooner(net.base, after[i], a))
  }

  lemma AssignedIsPlaced(ips: seq<nat>, net: Net, gw: Option<nat>, i: nat, a: nat)
    requires net.prefix <= 32 && AssignIps(ips, net, gw).Some? && i < |ips|
    ensures Placed(ips, net, gw, AssignIps(ips, net, gw).value, i, a)
  {
    PinnedIsKept(ips, net, gw, i);
    if !Keeps(ips, net, gw, i) { MoverGetsTheFirst(ips, net, gw, i, a); }
  }

  /** In a merge that returns, a host keeps a usable address that is its own, and any other host gets the
      first address still free, from offset ten up while there is one. */
  lemma MergedAddressesAreFirstFree(configs: seq<Config>, name: string, subnet: Option<Net>, i: nat, a: nat)
    requires subnet.Some? ==> ValidNet(subnet.value)
    requires MergeResult(configs, name, subnet).Ok?
    ensures UnionAll(AllHosts(configs)).Some?
    ensures var t, before := MergeResult(configs, name, subnet).value.topology, United(configs);
            |t.hosts| == |before|
            && (i < |before| ==> Placed(Addresses(before), t.net, t.gateway, Addresses(t.hosts), i, a))
  {
    MergedIsSettled(configs, name, subnet);
    var t, before := MergeResult(configs, name, subnet).value.topology, United(configs);
    if i < |before| { AssignedIsPlaced(Addresses(before), t.net, t.gateway, i, a); }
  }

  const DEFAULT_NET: Net := Net(0x0A63_0000, 24)

  lemma PlaceholderNet()
    ensures ValidNet(DEFAULT_NET) && DerivedNet([PLACEHOLDER_IP, PLACEHOLDER_IP]) == DEFAULT_NET
  {
    var ips: seq<Address> := [PLACEHOLDER_IP, PLACEHOLDER_IP];
    assert Pow2(4) == 16 && Pow2(8) == 256;
    ShrUnique(PLACEHOLDER_IP, 0x0A6300, 8);
    NetOfIsValid(PLACEHOLDER_IP, 24);
    assert NetOf(PLACEHOLDER_IP, 24) == DEFAULT_NET && CoversAt(DEFAULT_NET, ips, 24);
    DerivedPrefixIsLongest(ips, 24);
    NoTighterNet(ips, DerivedNet(ips), DEFAULT_NET);
  }

  /** Two hosts at the placeholder address: the first stays on it as its new address, the second gets the
      next, and the addresses below ten are left alone. */
  lemma PlaceholdersGetTenAndEleven()
    ensures AssignIps([PLACEHOLDER_IP, PLACEHOLDER_IP], DEFAULT_NET, None) == Some([0x0A63_000A, 0x0A63_000B])
  {
    var ips: seq<nat>, net := [PLACEHOLDER_IP, PLACEHOLDER_IP], DEFAULT_NET;
    assert Pow2(4) == 16 && Pow2(8) == 256;
    assert ips[0] == ips[1] && !Keeps(ips, net, None, 0) && !Keeps(ips, net, None, 1);
    TwoAreAssigned(ips, net);
    var out := AssignIps(ips, net, None).value;
    MoverGetsTheFirst(ips, net, None, 0, net.base + 10);
    MoverGetsTheFirst(ips, net, None, 1, net.base + 11);
    assert StillFree(ips, net, None, out, 0, net.base + 10) && out[0] == net.base + 10;
    assert StillFree(ips, net, None, out, 1, net.base + 11) && out[1] == net.base + 11;
    assert out == [0x0A63_000A, 0x0A63_000B];
  }

  lemma TwoAreAssigned(ips: seq<nat>, net: Net)
    requires |ips| == 2 && net.prefix == 24 && !Keeps(ips, net, None, 0) && !Keeps(ips, net, None, 1)
    ensures AssignIps(ips, net, None).Some?
  {
    assert Pow2(4) == 16 && Pow2(8) == 256;
    PinnedIsKept(ips, net, None, 0);
    PinnedIsKept(ips, net, None, 1);
    forall j | 0 <= j < |ips| ensures !Keeps(ips, net, None, j) {}
    var p := FreeHas(ips, net, None, net.base + 10);
    var q := FreeHas(ips, net, None, net.base + 11);
    assert Moving(ips, net, None, 1) <= 1;
  }

  // ---------------------------------------------------------------- hostnames

  /** A name that no earlier host ended up with stays; any other gets the least number from two up that makes
      it new. */
  ghost predicate NamedAt(names: seq<string>, out: seq<string>, i: nat) {
    i < |names| == |out| &&
    if names[i] !in out[..i] then out[i] == names[i]
    else exists n :: NumberedAt(names, out, i, n)
  }

  ghost predicate NumberedAt(names: seq<string>, out: seq<string>, i: nat, n: nat)
    requires i < |names| == |out|
  {
    n >= 2 && out[i] == names[i] + "-" + Numeral(n) && out[i] !in out[..i]
    && forall k :: 2 <= k < n ==> names[i] + "-" + Numeral(k) in out[..i]
  }

  lemma {:induction false} DedupNames(names: seq<string>, i: nat)
    requires i < |names|
    ensures NamedAt(names, Dedup(names), i)
    decreases |names|
  {
    var front, out := names[..|names| - 1], Dedup(names);
    var before := Dedup(front);
    assert out[..|front|] == before;
    if i < |front| {
      DedupNames(front, i);
      assert out[..i] == before[..i];
      if names[i] in out[..i] {
        var n :| NumberedAt(front, before, i, n);
        assert NumberedAt(names, out, i, n);
      }
    } else {
      var name, seen := names[i], NameSet(before);
      assert forall s :: s in seen <==> s in before;
      if name in seen {
        var n := FirstFree(name, seen, 2);
        forall k | 2 <= k < n ensures name + "-" + Numeral(k) in out[..i] { assert Suffixed(name, k) in seen; }
        assert NumberedAt(names, out, i, n);
      }
    }
  }

  /** The names of a merge that returns. */
  lemma MergedNamesAreNew(configs: seq<Config>, name: string, subnet: Option<Net>, i: nat)
    requires subnet.Some? ==> ValidNet(subnet.value)
    requires MergeResult(configs, name, subnet).Ok?
    ensures UnionAll(AllHosts(configs)).Some?
    ensures i < |United(configs)| ==>
              NamedAt(Names(United(configs)), Names(MergeResult(configs, name, subnet).value.topology.hosts), i)
  {
    MergedIsSettled(configs, name, subnet);
    if i < |United(configs)| { DedupNames(Names(United(configs)), i); }
  }

  // ---------------------------------------------------------------- every other field

  /** A tag is on a merged host when some input put it there, and the tags of its first input come first. */
  ghost predicate TagsFrom(all: seq<HostSpec>, h: HostSpec) {
    && (forall t :: t in h.tags <==> TaggedIn(all, h.id, t))
    && exists i: nat :: FirstOf(all, h.id, i) && all[i].tags <= h.tags
  }

  ghost predicate TaggedIn(all: seq<HostSpec>, id: string, t: string) {
    exists g :: g in all && g.id == id && t in g.tags
  }

  ghost predicate FirstOf(all: seq<HostSpec>, id: string, i: nat) {
    i < |all| && all[i].id == id && forall j :: 0 <= j < i ==> all[j].id != id
  }

  lemma {:induction false} UnionKeepsTags(all: seq<HostSpec>)
    requires InputsValid(all) && UnionAll(all).Some?
    ensures forall h :: h in UnionAll(all).value ==> TagsFrom(all, h)
    decreases |all|
  {
    if all != [] {
      var front, g := all[..|all| - 1], all[|all| - 1];
      assert all == front + [g];
      UnionKeepsTags(front);
      UnionAllIsUnion(front);
      var hosts := UnionAll(front).value;
      AbsentId(hosts, g.id);
      var k := IndexOf(hosts, g.id);
      forall h | h in UnionAll(all).value ensures TagsFrom(all, h) {
        if h.id != g.id {
          assert h in hosts;
          OtherTags(front, g, h);
        } else if k == |hosts| {
          NewTags(front, g);
        } else {
          assert hosts[k] in hosts && h == UnionHost(hosts[k], g).value;
          MoreTags(front, g, hosts[k]);
        }
      }
    }
  }

  lemma OtherTags(front: seq<HostSpec>, g: HostSpec, h: HostSpec)
    requires TagsFrom(front, h) && h.id != g.id
    ensures TagsFrom(front + [g], h)
  {
    var all := front + [g];
    assert forall x :: x in all <==> x in front || x == g;
    forall t ensures TaggedIn(all, h.id, t) <==> TaggedIn(front, h.id, t) {}
    var i: nat :| FirstOf(front, h.id, i) && front[i].tags <= h.tags;
    assert FirstOf(all, h.id, i) && all[i] == front[i];
  }

  lemma NewTags(front: seq<HostSpec>, g: HostSpec)
    requires g.id !in Ids(front)
    ensures TagsFrom(front + [g], g)
  {
    var all := front + [g];
    assert forall x :: x in all <==> x in front || x == g;
    forall j | 0 <= j < |front| ensures all[j].id != g.id { assert front[j] in front; }
    assert FirstOf(all, g.id, |front|) && all[|front|] == g;
  }

  lemma MoreTags(front: seq<HostSpec>, g: HostSpec, h: HostSpec)
    requires TagsFrom(front, h) && h.id == g.id && UnionHost(h, g).Some?
    ensures TagsFrom(front + [g], UnionHost(h, g).value)
  {
    var all, u := front + [g], UnionHost(h, g).value;
    TagsAreFirstSeen(h.tags, g.tags);
    assert forall x :: x in all <==> x in front || x == g;
    forall t ensures t in u.tags <==> TaggedIn(all, u.id, t) {
      assert TaggedIn(all, u.id, t) <==> TaggedIn(front, u.id, t) || t in g.tags;
    }
    var i: nat :| FirstOf(front, h.id, i) && front[i].tags <= h.tags;
    assert FirstOf(all, h.id, i) && all[i] == front[i];
  }

  /** One more record of a host: the address 10.99.0.10 and the system "generic_linux" give way to what the
      record says, and nothing else of the first record changes but its services and tags. */
  lemma FoldByField(dst: HostSpec, src: HostSpec)
    requires UnionHost(dst, src).Some?
    ensures var u := UnionHost(dst, src).value;
            && u.id == dst.id && u.hostname == dst.hostname
            && u.ip == (if dst.ip == 10 * 0x100_0000 + 99 * 0x1_0000 + 10 then src.ip else dst.ip)
            && u.os == (if dst.os == "generic_linux" then src.os else dst.os)
            && u.tags == AddTags(dst.tags, src.tags)
  {}

  /** Tags in the order they were first seen, each once when the first host repeats none. */
  lemma {:induction false} TagsAreFirstSeen(tags: seq<string>, more: seq<string>)
    ensures var all := AddTags(tags, more);
            && tags <= all && (forall t :: t in all <==> t in tags || t in more)
            && forall i, j :: 0 <= i < j < |all| && |tags| <= j ==> all[i] != all[j]
    decreases |more|
  {
    if more != [] {
      var next := if more[0] in tags then tags else tags + [more[0]];
      TagsAreFirstSeen(next, more[1..]);
      var all := AddTags(tags, more);
      assert more == [more[0]] + more[1..];
      forall i, j | 0 <= i < j < |all| && |tags| <= j ensures all[i] != all[j] {
        if j < |next| { assert all[j] == next[j] == more[0] && all[i] == tags[i]; }
      }
    }
  }

  lemma {:induction false} TagsInTurn(tags: seq<string>, a: seq<string>, b: seq<string>)
    ensures AddTags(tags, a + b) == AddTags(AddTags(tags, a), b)
    decreases |a|
  {
    if a == [] {
      assert a + b == b;
    } else {
      assert (a + b)[1..] == a[1..] + b;
      TagsInTurn(if a[0] in tags then tags else tags + [a[0]], a[1..], b);
    }
  }

  /** The gateway is that of the first input that names one, if it lies in the network, and otherwise none. */
  ghost predicate FirstNamed(configs: seq<Config>, k: nat) {
    k < |configs| && configs[k].gateway.Some? && forall j :: 0 <= j < k ==> configs[j].gateway.None?
  }

  lemma {:induction false} GatewayIsFirst(configs: seq<Config>)
    ensures FirstGateway(configs).None? ==> forall c :: c in configs ==> c.gateway.None?
    ensures FirstGateway(configs).Some? ==>
              exists k: nat :: FirstNamed(configs, k) && configs[k].gateway == FirstGateway(configs)
  {
    if configs != [] {
      if configs[0].gateway.Some? {
        assert FirstNamed(configs, 0);
      } else {
        GatewayIsFirst(configs[1..]);
        if k: nat :| FirstNamed(configs[1..], k) && configs[1..][k].gateway == FirstGateway(configs[1..]) {
          assert forall j :: 1 <= j < k + 1 ==> configs[j] == configs[1..][j - 1];
          assert FirstNamed(configs, k + 1);
        }
      }
    }
  }

  ghost predicate FirstCalled(configs: seq<Config>, k: nat) {
    k < |configs| && configs[k].name != "" && forall j :: 0 <= j < k ==> configs[j].name == ""
  }

  lemma {:induction false} NameIsFirst(configs: seq<Config>)
    ensures NameGiven(configs) == "" ==> forall c :: c in configs ==> c.name == ""
    ensures NameGiven(configs) != "" ==>
              exists k: nat :: FirstCalled(configs, k) && configs[k].name == NameGiven(configs)
  {
    if configs != [] {
      if configs[0].name != "" {
        assert FirstCalled(configs, 0);
      } else {
        NameIsFirst(configs[1..]);
        if k: nat :| FirstCalled(configs[1..], k) && configs[1..][k].name == NameGiven(configs[1..]) {
          assert forall j :: 1 <= j < k + 1 ==> configs[j] == configs[1..][j - 1];
          assert FirstCalled(configs, k + 1);
        }
      }
    }
  }

  lemma {:induction false} VersionIsLatest(configs: seq<Config>)
    ensures LatestVersion(configs).None? <==> forall c :: c in configs ==> c.version.None?
    ensures LatestVersion(configs).Some? ==>
              && (exists c :: c in configs && c.version == LatestVersion(configs))
              && forall c :: c in configs && c.version.Some? ==> c.version.value <= LatestVersion(configs).value
  {
    if configs != [] {
      var front, last := configs[..|configs| - 1], configs[|configs| - 1];
      VersionIsLatest(front);
      assert configs == front + [last];
      assert forall c :: c in configs <==> c in front || c == last;
    }
  }

  lemma MergedParts(configs: seq<Config>, name: string, subnet: Option<Net>)
    requires subnet.Some? ==> ValidNet(subnet.value)
    requires MergeResult(configs, name, subnet).Ok?
    ensures var m := MergeResult(configs, name, subnet).value;
            && m.name == ChooseName(name, configs) && m.version == LatestVersion(configs)
            && ValidNet(m.topology.net) && (subnet.Some? ==> m.topology.net == subnet.value)
            && m.topology.gateway == ClampGateway(FirstGateway(configs), m.topology.net)
  {
    UnionIsNotEmpty(AllHosts(configs));
  }

  /** The name asked for, or the first that an input has, or "merged". */
  ghost predicate IsCalled(configs: seq<Config>, name: string, r: string) {
    if name != "" then r == name
    else if forall c :: c in configs ==> c.name == "" then r == "merged"
    else exists k: nat :: FirstCalled(configs, k) && r == configs[k].name
  }

  lemma MergedName(configs: seq<Config>, name: string, subnet: Option<Net>)
    requires subnet.Some? ==> ValidNet(subnet.value)
    requires MergeResult(configs, name, subnet).Ok?
    ensures IsCalled(configs, name, MergeResult(configs, name, subnet).value.name)
  {
    MergedParts(configs, name, subnet);
    NameIsFirst(configs);
    if NameGiven(configs) != "" {
      var k: nat :| FirstCalled(configs, k) && configs[k].name == NameGiven(configs);
      assert configs[k] in configs;
    }
  }

  ghost predicate IsHighest(configs: seq<Config>, version: Option<int>) {
    match version
    case None => forall c :: c in configs ==> c.version.None?
    case Some(v) => (exists c :: c in configs && c.version == Some(v))
                    && forall c :: c in configs && c.version.Some? ==> c.version.value <= v
  }

  lemma MergedVersion(configs: seq<Config>, name: string, subnet: Option<Net>)
    requires subnet.Some? ==> ValidNet(subnet.value)
    requires MergeResult(configs, name, subnet).Ok?
    ensures IsHighest(configs, MergeResult(configs, name, subnet).value.version)
  {
    MergedParts(configs, name, subnet);
    VersionIsLatest(configs);
  }

  /** `gw` is the gateway the first input with one names, and lies in the network. */
  ghost predicate GatewayInside(configs: seq<Config>, net: Net, gw: Address, k: nat) {
    && FirstNamed(configs, k) && configs[k].gateway == Some(gw)
    && net.prefix <= 32 && net.base <= gw < net.base + Pow2(32 - net.prefix)
  }

  lemma ClampedIsInside(configs: seq<Config>, net: Net, gw: Address)
    requires net.prefix <= 32
    ensures ClampGateway(FirstGateway(configs), net) == Some(gw) <==>
            exists k: nat :: GatewayInside(configs, net, gw, k)
  {
    GatewayIsFirst(configs);
    if k: nat :| GatewayInside(configs, net, gw, k) {
      assert configs[k] in configs;
      var j: nat :| FirstNamed(configs, j) && configs[j].gateway == FirstGateway(configs);
      assert j == k;
    }
    if ClampGateway(FirstGateway(configs), net) == Some(gw) {
      var k: nat :| FirstNamed(configs, k) && configs[k].gateway == FirstGateway(configs);
      assert GatewayInside(configs, net, gw, k);
    }
  }

  /** The gateway is the first named, where it lies in the network, and otherwise there is none; a subnet that
      was asked for is taken. */
  lemma MergedGateway(configs: seq<Config>, name: string, subnet: Option<Net>, gw: Address)
    requires subnet.Some? ==> ValidNet(subnet.value)
    requires MergeResult(configs, name, subnet).Ok?
    ensures var t := MergeResult(configs, name, subnet).value.topology;
            && (subnet.Some? ==> t.net == subnet.value)
            && (t.gateway == Some(gw) <==> exists k: nat :: GatewayInside(configs, t.net, gw, k))
  {
    MergedParts(configs, name, subnet);
    ClampedIsInside(configs, MergeResult(configs, name, subnet).value.topology.net, gw);
  }
}
