/** merge_configs as a function of its inputs (rangefinder/orchestrate/merge.py), and what a merge
    guarantees: when it fails, when its result meets the schema of a range, and that merging a result
    again changes nothing. */
module MergeRange {
  import opened Prelude
  import opened Ipv4
  import opened EstateMerge
  import opened MergeTables

  // ---------------------------------------------------------------- the whole merge

  /** One input.  An empty name is no name. */
  datatype Config = Config(name: string, version: Option<int>, hosts: seq<HostSpec>, gateway: Option<Address>,
                           identities: Option<Identities>, objectives: seq<Named>)

  datatype Topology = Topology(net: Net, gateway: Option<Address>, hosts: seq<HostSpec>)

  datatype Merged = Merged(name: string, version: Option<int>, topology: Topology, identities: Option<Identities>,
                           objectives: seq<Named>)

  datatype MergeError = NoConfigs | NoHosts | PortConflict | SubnetTooSmall | DomainClash

  function AllHosts(configs: seq<Config>): seq<HostSpec> {
    if configs == [] then [] else AllHosts(configs[..|configs| - 1]) + configs[|configs| - 1].hosts
  }

  /** The gateway of the first input that names one. */
  function FirstGateway(configs: seq<Config>): Option<Address> {
    if configs == [] then None
    else if configs[0].gateway.Some? then configs[0].gateway
    else FirstGateway(configs[1..])
  }

  function NameGiven(configs: seq<Config>): string {
    if configs == [] then "" else if configs[0].name != "" then configs[0].name else NameGiven(configs[1..])
  }

  function Later(a: Option<int>, b: Option<int>): Option<int> {
    if a.None? then b else if b.None? || a.value > b.value then a else b
  }

  /** The highest schema version any input names. */
  function LatestVersion(configs: seq<Config>): Option<int> {
    if configs == [] then None
    else Later(LatestVersion(configs[..|configs| - 1]), configs[|configs| - 1].version)
  }

  function BlockOf(c: Config): seq<Identities> {
    if c.identities.Some? then [c.identities.value] else []
  }

  function Blocks(configs: seq<Config>): seq<Identities> {
    if configs == [] then [] else Blocks(configs[..|configs| - 1]) + BlockOf(configs[|configs| - 1])
  }

  function AllObjectives(configs: seq<Config>): seq<Named> {
    if configs == [] then [] else AllObjectives(configs[..|configs| - 1]) + configs[|configs| - 1].objectives
  }

  /** The name asked for, or the first an input has, or "merged". */
  function ChooseName(name: string, configs: seq<Config>): (r: string)
    ensures r != ""
  {
    if name != "" then name else if NameGiven(configs) != "" then NameGiven(configs) else "merged"
  }

  function Addresses(hosts: seq<HostSpec>): seq<Address> {
    seq(|hosts|, i requires 0 <= i < |hosts| => hosts[i].ip)
  }

  function Names(hosts: seq<HostSpec>): seq<string> {
    seq(|hosts|, i requires 0 <= i < |hosts| => hosts[i].hostname)
  }

  function ClampGateway(gateway: Option<Address>, net: Net): Option<Address>
    requires net.prefix <= 32
  {
    if gateway.Some? && InNet(gateway.value, net) then gateway else None
  }

  /** The hosts with their assigned addresses and final names. */
  function Settle(hosts: seq<HostSpec>, ips: seq<nat>, names: seq<string>): seq<HostSpec>
    requires |ips| == |hosts| == |names|
    requires forall i :: 0 <= i < |ips| ==> ips[i] < 0x1_0000_0000
  {
    seq(|hosts|, i requires 0 <= i < |hosts| => hosts[i].(ip := ips[i], hostname := names[i]))
  }

  /** Addresses and names for the united hosts. */
  function Finish(hosts: seq<HostSpec>, net: Net, gw: Option<Address>): Result<Topology, MergeError>
    requires ValidNet(net)
  {
    match AssignIps(Addresses(hosts), net, gw)
    case None => Err(SubnetTooSmall)
    case Some(ips) =>
      AssignedAreAddresses(Addresses(hosts), net, gw);
      Ok(Topology(net, gw, Settle(hosts, ips, Dedup(Names(hosts)))))
  }

  /** The explicit subnet, or the one derived from the hosts. */
  function Subnet(hosts: seq<HostSpec>, subnet: Option<Net>): (net: Net)
    requires hosts != [] && (subnet.Some? ==> ValidNet(subnet.value))
    ensures ValidNet(net)
  {
    if subnet.Some? then subnet.value else DerivedNet(Addresses(hosts))
  }

  /** The hosts and the network of a merge, given an explicit subnet or none. */
  function MergedTopology(configs: seq<Config>, subnet: Option<Net>): Result<Topology, MergeError>
    requires subnet.Some? ==> ValidNet(subnet.value)
  {
    if configs == [] then Err(NoConfigs)
    else if AllHosts(configs) == [] then Err(NoHosts)
    else
      match UnionAll(AllHosts(configs))
      case None => Err(PortConflict)
      case Some(hosts) =>
        UnionIsNotEmpty(AllHosts(configs));
        var net := Subnet(hosts, subnet);
        Finish(hosts, net, ClampGateway(FirstGateway(configs), net))
  }

  /** What merge_configs returns. */
  function MergeResult(configs: seq<Config>, name: string, subnet: Option<Net>): Result<Merged, MergeError>
    requires subnet.Some? ==> ValidNet(subnet.value)
  {
    match MergedTopology(configs, subnet)
    case Err(e) => Err(e)
    case Ok(topology) =>
      match MergeBlocks(Blocks(configs))
      case Err(_) => Err(DomainClash)
      case Ok(identities) =>
        Ok(Merged(ChooseName(name, configs), LatestVersion(configs), topology, identities,
                  AppendNew([], AllObjectives(configs))))
  }

  lemma {:induction false} UnionIsNotEmpty(all: seq<HostSpec>)
    requires all != [] && UnionAll(all).Some?
    ensures UnionAll(all).value != []
  {
    if |all| > 1 { UnionIsNotEmpty(all[..|all| - 1]); }
  }

  /** A block of a power of two that starts below two to the 32 ends there at the latest. */
  lemma NetEnds(base: nat, h: nat, q: nat)
    requires h <= 32 && base == q * Pow2(h) && base < 0x1_0000_0000
    ensures base + Pow2(h) <= 0x1_0000_0000
  {
    Pow2Splits(32 - h, h);
    TwoToThe32();
    BlockWithin(q, Pow2(32 - h), Pow2(h));
  }

  lemma TwoToThe32()
    ensures Pow2(32) == 0x1_0000_0000
  {
    assert Pow2(8) == 0x100 && Pow2(16) == 0x1_0000 && Pow2(24) == 0x100_0000;
  }

  lemma BlockWithin(q: nat, n: nat, p: nat)
    requires q * p < n * p
    ensures q * p + p <= n * p
  {
    BlocksApart(q, n, p);
    BlocksApart(n, q, p);
  }

  lemma {:induction false} Pow2Splits(a: nat, b: nat)
    ensures Pow2(a) * Pow2(b) == Pow2(a + b)
  {
    if a > 0 {
      Pow2Splits(a - 1, b);
      Associate(Pow2(a - 1), Pow2(b));
    }
  }

  lemma Associate(x: nat, y: nat)
    ensures (2 * x) * y == 2 * (x * y)
  {}

  lemma AssignedAreAddresses(ips: seq<nat>, net: Net, gw: Option<nat>)
    requires ValidNet(net) && AssignIps(ips, net, gw).Some?
    ensures forall i :: 0 <= i < |ips| ==> AssignIps(ips, net, gw).value[i] < 0x1_0000_0000
  {
    AssignMeetsSchema(ips, net, gw);
    NetEnds(net.base, HostBits(net.prefix), Shr(net.base, HostBits(net.prefix)));
  }

  // ---------------------------------------------------------------- what merging guarantees

  /** Every structural check of the configuration schema: RangeConfig._cross_checks and
      Host._unique_ports. */
  ghost predicate SchemaValid(m: Topology) {
    && m.net.prefix <= 32 && m.hosts != []
    && (m.gateway.Some? ==> InNet(m.gateway.value, m.net))
    && DistinctIds(m.hosts) && Distinct(Names(m.hosts))
    && AddressesValid(Addresses(m.hosts), m.net, m.gateway)
    && forall h :: h in m.hosts ==> UniquePorts(h.services)
  }

  /** The hosts of a merge before addresses and names are settled. */
  function United(configs: seq<Config>): seq<HostSpec>
    requires UnionAll(AllHosts(configs)).Some?
  {
    UnionAll(AllHosts(configs)).value
  }

  /** No host of the merge had to be given another address. */
  predicate NobodyMoves(hosts: seq<HostSpec>, net: Net, gw: Option<Address>)
    requires net.prefix <= 32
  {
    Moving(Addresses(hosts), net, gw, |hosts|) == 0
  }

  lemma SettledParts(hosts: seq<HostSpec>, ips: seq<nat>, names: seq<string>)
    requires |ips| == |hosts| == |names| && forall i :: 0 <= i < |ips| ==> ips[i] < 0x1_0000_0000
    ensures Addresses(Settle(hosts, ips, names)) == ips && Names(Settle(hosts, ips, names)) == names
    ensures DistinctIds(hosts) ==> DistinctIds(Settle(hosts, ips, names))
    ensures forall i :: 0 <= i < |hosts| ==> Settle(hosts, ips, names)[i].services == hosts[i].services
  {}

  lemma FinishMeetsSchema(all: seq<HostSpec>, hosts: seq<HostSpec>, net: Net, gw: Option<Address>)
    requires ValidNet(net) && (gw.Some? ==> InNet(gw.value, net))
    requires hosts != [] && UnionOf(all, hosts) && Finish(hosts, net, gw).Ok?
    ensures var m := Finish(hosts, net, gw).value;
            m.net == net && m.gateway == gw
            && (SchemaValid(m) <==> (net.prefix <= 30 || gw == Some(net.base) || NobodyMoves(hosts, net, gw)))
  {
    var m := Finish(hosts, net, gw).value;
    var ips, names := AssignIps(Addresses(hosts), net, gw).value, Dedup(Names(hosts));
    AssignedAreAddresses(Addresses(hosts), net, gw);
    SettledParts(hosts, ips, names);
    DedupDistinct(Names(hosts));
    AssignedValidIff(Addresses(hosts), net, gw);
    forall i | 0 <= i < |m.hosts| ensures UniquePorts(m.hosts[i].services) {
      assert hosts[i] in hosts && ServesMeasured(all, hosts[i]);
    }
    assert Addresses(m.hosts) == ips && Names(m.hosts) == names;
  }

  /** What a caller can check of a subnet before merging into it: it has a separate network address, or the
      first gateway inside it occupies that address, or every host may keep its own. */
  predicate LeavesNetworkAddress(configs: seq<Config>, net: Net)
    requires net.prefix <= 32 && UnionAll(AllHosts(configs)).Some?
  {
    var gw := ClampGateway(FirstGateway(configs), net);
    net.prefix <= 30 || gw == Some(net.base) || NobodyMoves(United(configs), net, gw)
  }

  /** A merge that returns satisfies the schema always when the subnet is derived, and exactly under that
      condition when it is given. */
  lemma MergeMeetsSchema(configs: seq<Config>, name: string, subnet: Option<Net>)
    requires subnet.Some? ==> ValidNet(subnet.value)
    requires InputsValid(AllHosts(configs)) && MergeResult(configs, name, subnet).Ok?
    ensures UnionAll(AllHosts(configs)).Some?
    ensures SchemaValid(MergeResult(configs, name, subnet).value.topology) <==>
            (subnet.None? || LeavesNetworkAddress(configs, subnet.value))
  {
    var hosts := United(configs);
    UnionIsNotEmpty(AllHosts(configs));
    UnionAllIsUnion(AllHosts(configs));
    var net := Subnet(hosts, subnet);
    FinishMeetsSchema(AllHosts(configs), hosts, net, ClampGateway(FirstGateway(configs), net));
  }

  /** A host whose address no other host has, and which it can have in the network, keeps it, whatever
      happens to the others. */
  lemma UsableAddressesStay(configs: seq<Config>, name: string, subnet: Option<Net>)
    requires subnet.Some? ==> ValidNet(subnet.value)
    requires MergeResult(configs, name, subnet).Ok?
    ensures UnionAll(AllHosts(configs)).Some?
    ensures var before, after := United(configs), MergeResult(configs, name, subnet).value.topology;
            && |after.hosts| == |before| && ValidNet(after.net)
            && forall i :: 0 <= i < |before| && Pinned(Addresses(before), after.net, after.gateway, i) ==>
                 after.hosts[i].ip == before[i].ip
  {
    UnionIsNotEmpty(AllHosts(configs));
  }

  /** A host that a capture named but could not place, with the one service it measured. */
  function Unplaced(id: string): Config {
    Config(id, None, [HostSpec(id, id, PLACEHOLDER_IP, GENERIC_OS, [], [Service(22, "ssh")])], None, None, [])
  }

  function TwoUnplaced(): seq<Config> {
    [Unplaced("a"), Unplaced("b")]
  }

  const TINY: Net := Net(0x0A63_0000, 31)

  lemma TinyIsValid()
    ensures ValidNet(TINY)
  {
    assert HostBits(31) == 1 && Pow2(1) == 2;
    assert Shr(0x0A63_0000, 1) == 0x0A63_0000 / 2;
  }

  /** Two hosts with one address must both move, and a /31 has two addresses for them. */
  lemma TinyHoldsTwo()
    ensures var ips := [PLACEHOLDER_IP, PLACEHOLDER_IP];
            Moving(ips, TINY, None, 2) == 2 && |Free(ips, TINY, None)| >= 2
  {
    var ips := [PLACEHOLDER_IP, PLACEHOLDER_IP];
    assert ips[0] == ips[1];
    assert !Pinned(ips, TINY, None, 0) && !Pinned(ips, TINY, None, 1);
    assert Moving(ips, TINY, None, 1) == 1;
    FreeIsExact(ips, TINY, None);
    assert TINY.base in Free(ips, TINY, None) && TINY.base + 1 in Free(ips, TINY, None);
  }

  /** What the two captures hold together. */
  lemma TwoUnplacedHosts()
    ensures AllHosts(TwoUnplaced()) == Unplaced("a").hosts + Unplaced("b").hosts
    ensures FirstGateway(TwoUnplaced()) == None && Blocks(TwoUnplaced()) == []
  {
    var configs := TwoUnplaced();
    assert configs[..1] == [Unplaced("a")] && configs[..1][..0] == [];
    assert AllHosts([]) == [] && AllHosts(configs[..1]) == Unplaced("a").hosts;
    assert Blocks([]) == [] && Blocks(configs[..1]) == [];
    assert configs[1..] == [Unplaced("b")] && configs[1..][1..] == [];
    assert FirstGateway(configs[1..][1..]) == None && FirstGateway(configs[1..]) == None;
  }

  lemma TwoUnplacedUnite()
    ensures var all := AllHosts(TwoUnplaced());
            && UnionAll(all) == Some(all) && InputsValid(all) && all != []
            && Addresses(all) == [PLACEHOLDER_IP, PLACEHOLDER_IP]
  {
    TwoUnplacedHosts();
    var all := AllHosts(TwoUnplaced());
    assert |all| == 2 && all[0] == Unplaced("a").hosts[0] && all[1] == Unplaced("b").hosts[0];
    assert "a"[0] != "b"[0];
    UnionOfDistinct(all);
  }

  /** Two captures whose hosts have to move into a /31: the merge returns, and one host gets the network
      address. */
  lemma TinySubnetBreaksSchema()
    ensures var configs := TwoUnplaced();
            && ValidNet(TINY) && InputsValid(AllHosts(configs)) && MergeResult(configs, "", Some(TINY)).Ok?
            && !SchemaValid(MergeResult(configs, "", Some(TINY)).value.topology)
  {
    var configs := TwoUnplaced();
    TwoUnplacedHosts();
    TwoUnplacedUnite();
    TinyIsValid();
    TinyHoldsTwo();
    assert ClampGateway(FirstGateway(configs), TINY) == None;
    assert MergedTopology(configs, Some(TINY)) == Finish(AllHosts(configs), TINY, None);
    assert !LeavesNetworkAddress(configs, TINY);
    MergeMeetsSchema(configs, "", Some(TINY));
  }

  /** More hosts have to move than the network has free addresses. */
  predicate TooManyMove(configs: seq<Config>, subnet: Option<Net>)
    requires subnet.Some? ==> ValidNet(subnet.value)
    requires UnionAll(AllHosts(configs)).Some? && United(configs) != []
  {
    var ips, net := Addresses(United(configs)), Subnet(United(configs), subnet);
    var gw := ClampGateway(FirstGateway(configs), net);
    Moving(ips, net, gw, |ips|) > |Free(ips, net, gw)|
  }

  lemma TopologyFailsIff(configs: seq<Config>, subnet: Option<Net>)
    requires subnet.Some? ==> ValidNet(subnet.value)
    requires InputsValid(AllHosts(configs)) && AllHosts(configs) != []
    ensures var r, all := MergedTopology(configs, subnet), AllHosts(configs);
            && (UnionAll(all).Some? <==> Agree(all)) && (r == Err(PortConflict) <==> !Agree(all))
            && (Agree(all) ==> United(configs) != [] && (r == Err(SubnetTooSmall) <==> TooManyMove(configs, subnet)))
            && (r.Err? ==> r.error == PortConflict || r.error == SubnetTooSmall)
  {
    UnionAllIsUnion(AllHosts(configs));
    if UnionAll(AllHosts(configs)).Some? { UnionIsNotEmpty(AllHosts(configs)); }
  }

  /** Each way a merge fails, and only those: no input, no host, a port measured twice with different
      results, more hosts to move than free addresses, or directory blocks of different domains. */
  lemma MergeFailsIff(configs: seq<Config>, name: string, subnet: Option<Net>)
    requires subnet.Some? ==> ValidNet(subnet.value)
    requires InputsValid(AllHosts(configs))
    ensures var r, all := MergeResult(configs, name, subnet), AllHosts(configs);
            && (r == Err(NoConfigs) <==> configs == [])
            && (r == Err(NoHosts) <==> configs != [] && all == [])
            && (r == Err(PortConflict) <==> !Agree(all))
            && (all != [] && Agree(all) ==>
                  && UnionAll(all).Some? && United(configs) != []
                  && (r == Err(SubnetTooSmall) <==> TooManyMove(configs, subnet))
                  && (r == Err(DomainClash) <==> !TooManyMove(configs, subnet) && !OneDomain(Blocks(configs))))
  {
    if AllHosts(configs) != [] { TopologyFailsIff(configs, subnet); } else { assert Agree([]); }
    if Blocks(configs) != [] { MergeBlocksIsUnion(Blocks(configs)); }
  }

  /** What a merge that returns says of accounts and objectives: the first definition of each, once. */
  lemma MergeKeepsFirstDefinitions(configs: seq<Config>, name: string, subnet: Option<Net>)
    requires subnet.Some? ==> ValidNet(subnet.value)
    requires MergeResult(configs, name, subnet).Ok?
    ensures var m, blocks := MergeResult(configs, name, subnet).value, Blocks(configs);
            && Appended([], AllObjectives(configs), m.objectives) && DistinctKeys(m.objectives)
            && (m.identities.Some? <==> blocks != [])
            && (blocks != [] ==>
                  && m.identities.value.domain == blocks[0].domain && m.identities.value.rest == blocks[0].rest
                  && Appended(blocks[0].users, AllUsers(blocks[1..]), m.identities.value.users)
                  && Appended(blocks[0].groups, AllGroups(blocks[1..]), m.identities.value.groups))
  {
    AppendNewIsFirst([], AllObjectives(configs));
    if Blocks(configs) != [] { MergeBlocksIsUnion(Blocks(configs)); }
  }

  lemma {:induction false} UnionOfDistinct(hosts: seq<HostSpec>)
    requires DistinctIds(hosts)
    ensures UnionAll(hosts) == Some(hosts)
  {
    if hosts != [] {
      var front, last := hosts[..|hosts| - 1], hosts[|hosts| - 1];
      UnionOfDistinct(front);
      assert IndexOf(front, last.id) == |front|;
      assert hosts == front + [last];
    }
  }

  lemma FinishKeepsValid(m: Topology)
    requires SchemaValid(m) && ValidNet(m.net)
    ensures Finish(m.hosts, m.net, m.gateway) == Ok(m)
  {
    ValidAddressesStay(Addresses(m.hosts), m.net, m.gateway, |m.hosts|);
    DedupDistinct(Names(m.hosts));
    assert Settle(m.hosts, Addresses(m.hosts), Names(m.hosts)) == m.hosts;
  }

  /** The merged range as an input. */
  function AsInput(m: Merged): Config {
    Config(m.name, m.version, m.topology.hosts, m.topology.gateway, m.identities, m.objectives)
  }

  lemma OneConfig(c: Config)
    ensures AllHosts([c]) == c.hosts && FirstGateway([c]) == c.gateway
    ensures Blocks([c]) == BlockOf(c) && AllObjectives([c]) == c.objectives
    ensures NameGiven([c]) == c.name && LatestVersion([c]) == c.version
  {
    assert [c][..0] == [] && [c][1..] == [];
    assert AllHosts([]) == [] && Blocks([]) == [] && AllObjectives([]) == [] && LatestVersion([]) == None;
  }

  /** A valid range with a name and no objective twice, merged alone into its own subnet, comes back
      unchanged. */
  lemma MergedAloneIsSame(m: Merged)
    requires SchemaValid(m.topology) && ValidNet(m.topology.net) && m.name != "" && DistinctKeys(m.objectives)
    ensures MergeResult([AsInput(m)], "", Some(m.topology.net)) == Ok(m)
  {
    var t := m.topology;
    OneConfig(AsInput(m));
    UnionOfDistinct(t.hosts);
    assert ClampGateway(t.gateway, t.net) == t.gateway;
    FinishKeepsValid(t);
    assert [] + m.objectives == m.objectives;
    AppendDistinct([], m.objectives);
    if m.identities.Some? { assert BlockOf(AsInput(m))[1..] == []; }
  }

  /** Merging again what a merge returned, into the subnet it chose, returns it unchanged. */
  lemma RemergeIsIdentity(configs: seq<Config>, name: string, subnet: Option<Net>)
    requires subnet.Some? ==> ValidNet(subnet.value)
    requires MergeResult(configs, name, subnet).Ok?
    requires SchemaValid(MergeResult(configs, name, subnet).value.topology)
    ensures var m := MergeResult(configs, name, subnet).value;
            ValidNet(m.topology.net) && MergeResult([AsInput(m)], "", Some(m.topology.net)) == Ok(m)
  {
    UnionIsNotEmpty(AllHosts(configs));
    MergeKeepsFirstDefinitions(configs, name, subnet);
    MergedAloneIsSame(MergeResult(configs, name, subnet).value);
  }
}
