/** What merging captured ranges computes (rangefinder/orchestrate/merge.py), as functions of the
    hosts: the union of hosts by id, the address of each host, and its hostname. */
module EstateMerge {
  import opened Prelude
  import opened Decimal
  import opened Ipv4

  /** `body` stands for everything measured about a service besides its port. */
  datatype Service = Service(port: nat, body: string)

  datatype HostSpec = HostSpec(id: string, hostname: string, ip: Address, os: string, tags: seq<string>,
                               services: seq<Service>)

  /** The address `capture` writes when it was given a hostname. */
  const PLACEHOLDER_IP: Address := 0x0A63_000A
  const GENERIC_OS := "generic_linux"

  // ---------------------------------------------------------------- one host union

  function Ports(services: seq<Service>): set<nat> {
    set s | s in services :: s.port
  }

  /** The service that a table keyed by port keeps: the last with that port. */
  function ByPort(services: seq<Service>, port: nat): Service
    requires port in Ports(services)
  {
    var last := services[|services| - 1];
    if last.port == port then last else ByPort(services[..|services| - 1], port)
  }

  predicate UniquePorts(services: seq<Service>) {
    forall i, j :: 0 <= i < j < |services| ==> services[i].port != services[j].port
  }

  /** Add services one by one; None when one disagrees with what is already on its port. */
  function Absorb(services: seq<Service>, more: seq<Service>): Option<seq<Service>>
    decreases |more|
  {
    if more == [] then Some(services)
    else if more[0].port !in Ports(services) then Absorb(services + [more[0]], more[1..])
    else if ByPort(services, more[0].port) == more[0] then Absorb(services, more[1..])
    else None
  }

  function AddTags(tags: seq<string>, more: seq<string>): seq<string>
    decreases |more|
  {
    if more == [] then tags
    else AddTags(if more[0] in tags then tags else tags + [more[0]], more[1..])
  }

  /** Fold `src` into `dst`: a measured address beats the placeholder, a specific operating system
      the generic one, and otherwise the first stands. */
  function UnionHost(dst: HostSpec, src: HostSpec): Option<HostSpec> {
    match Absorb(dst.services, src.services)
    case None => None
    case Some(services) =>
      Some(dst.(services := services,
                ip := if dst.ip == PLACEHOLDER_IP then src.ip else dst.ip,
                os := if dst.os == GENERIC_OS then src.os else dst.os,
                tags := AddTags(dst.tags, src.tags)))
  }

  // ---------------------------------------------------------------- the union over all inputs

  function IndexOf(hosts: seq<HostSpec>, id: string): (k: nat)
    ensures k <= |hosts|
    ensures k < |hosts| ==> hosts[k].id == id
    ensures forall i :: 0 <= i < k ==> hosts[i].id != id
  {
    if hosts == [] || hosts[0].id == id then 0 else 1 + IndexOf(hosts[1..], id)
  }

  function AddHost(hosts: seq<HostSpec>, h: HostSpec): Option<seq<HostSpec>> {
    var k := IndexOf(hosts, h.id);
    if k == |hosts| then Some(hosts + [h])
    else
      match UnionHost(hosts[k], h)
      case None => None
      case Some(u) => Some(hosts[k := u])
  }

  /** Hosts by id, in the order the ids first appear; None on a port conflict. */
  function UnionAll(all: seq<HostSpec>): Option<seq<HostSpec>> {
    if all == [] then Some([]) else
      match UnionAll(all[..|all| - 1])
      case None => None
      case Some(hosts) => AddHost(hosts, all[|all| - 1])
  }

  predicate DistinctIds(hosts: seq<HostSpec>) {
    forall i, j :: 0 <= i < j < |hosts| ==> hosts[i].id != hosts[j].id
  }

  // ---------------------------------------------------------------- what the union contains

  /** Some input host `id` has this service. */
  ghost predicate Measured(all: seq<HostSpec>, id: string, s: Service) {
    exists h :: h in all && h.id == id && s in h.services
  }

  /** No port of a host was measured twice with different results. */
  ghost predicate Agree(all: seq<HostSpec>) {
    forall id, s, t :: Measured(all, id, s) && Measured(all, id, t) && s.port == t.port ==> s == t
  }

  /** The validation every input has passed. */
  ghost predicate InputsValid(all: seq<HostSpec>) {
    forall h :: h in all ==> UniquePorts(h.services)
  }

  ghost function Ids(hosts: seq<HostSpec>): set<string> {
    set h | h in hosts :: h.id
  }

  /** `h` serves, once each, exactly what the inputs measured for its id. */
  ghost predicate ServesMeasured(all: seq<HostSpec>, h: HostSpec) {
    UniquePorts(h.services) && forall s :: s in h.services <==> Measured(all, h.id, s)
  }

  ghost predicate UnionOf(all: seq<HostSpec>, hosts: seq<HostSpec>) {
    && DistinctIds(hosts) && Ids(hosts) == Ids(all)
    && forall h :: h in hosts ==> ServesMeasured(all, h)
  }

  lemma {:induction false} ByPortIsMember(services: seq<Service>, port: nat)
    requires port in Ports(services)
    ensures ByPort(services, port) in services && ByPort(services, port).port == port
  {
    var n := |services| - 1;
    if services[n].port != port {
      assert services == services[..n] + [services[n]];
      ByPortIsMember(services[..n], port);
    }
  }

  /** Absorbing succeeds exactly when the lists agree on every shared port, and then the result is
      their union, still without duplicate ports. */
  lemma {:induction false} AbsorbIsUnion(services: seq<Service>, more: seq<Service>)
    requires UniquePorts(services) && UniquePorts(more)
    ensures Absorb(services, more).Some? <==>
              forall s, t :: s in services && t in more && s.port == t.port ==> s == t
    ensures Absorb(services, more).Some? ==>
              var u := Absorb(services, more).value;
              UniquePorts(u) && forall s :: s in u <==> s in services || s in more
    decreases |more|
  {
    if more != [] {
      var m, rest := more[0], more[1..];
      assert more == [m] + rest;
      if m.port !in Ports(services) {
        forall s | s in services ensures s.port != m.port { assert s.port in Ports(services); }
        forall t | t in rest ensures t.port != m.port {
          var j :| 0 <= j < |rest| && rest[j] == t;
          assert more[j + 1] == t;
        }
        AbsorbIsUnion(services + [m], rest);
      } else {
        ByPortIsMember(services, m.port);
        AbsorbIsUnion(services, rest);
      }
    }
  }

  lemma UnionHostIsUnion(dst: HostSpec, src: HostSpec)
    requires UniquePorts(dst.services) && UniquePorts(src.services)
    ensures UnionHost(dst, src).Some? <==>
              forall s, t :: s in dst.services && t in src.services && s.port == t.port ==> s == t
    ensures UnionHost(dst, src).Some? ==>
              var u := UnionHost(dst, src).value;
              u.id == dst.id && UniquePorts(u.services)
              && forall s :: s in u.services <==> s in dst.services || s in src.services
  {
    AbsorbIsUnion(dst.services, src.services);
  }

  lemma MeasuredOneMore(all: seq<HostSpec>, h: HostSpec, id: string, s: Service)
    ensures Measured(all + [h], id, s) <==> Measured(all, id, s) || (h.id == id && s in h.services)
  {
    assert forall g :: g in all + [h] <==> g in all || g == h;
  }

  lemma IdsOneMore(hosts: seq<HostSpec>, h: HostSpec)
    ensures Ids(hosts + [h]) == Ids(hosts) + {h.id}
  {
    assert forall g :: g in hosts + [h] <==> g in hosts || g == h;
  }

  lemma AddNewHost(all: seq<HostSpec>, hosts: seq<HostSpec>, h: HostSpec)
    requires UnionOf(all, hosts) && UniquePorts(h.services) && h.id !in Ids(hosts)
    ensures UnionOf(all + [h], hosts + [h])
    ensures forall s :: !Measured(all, h.id, s)
  {
    IdsOneMore(all, h);
    IdsOneMore(hosts, h);
    forall g | g in all ensures g.id != h.id { assert g.id in Ids(all); }
    forall i, j | 0 <= i < j < |hosts + [h]| ensures (hosts + [h])[i].id != (hosts + [h])[j].id {
      assert hosts[i] in hosts;
    }
    forall g | g in hosts + [h] ensures ServesMeasured(all + [h], g) {
      assert g in hosts || g == h;
      forall s ensures s in g.services <==> Measured(all + [h], g.id, s) {
        MeasuredOneMore(all, h, g.id, s);
        if g in hosts { assert g.id in Ids(hosts); assert ServesMeasured(all, g); }
      }
      if g in hosts { assert ServesMeasured(all, g); }
    }
  }

  lemma ReplaceHost(all: seq<HostSpec>, hosts: seq<HostSpec>, h: HostSpec, k: nat, u: HostSpec)
    requires UnionOf(all, hosts) && k < |hosts| && u.id == hosts[k].id == h.id && UniquePorts(u.services)
    requires forall s :: s in u.services <==> s in hosts[k].services || s in h.services
    ensures UnionOf(all + [h], hosts[k := u])
  {
    var hosts' := hosts[k := u];
    IdsOneMore(all, h);
    assert hosts[k] in hosts && h.id in Ids(hosts);
    assert Ids(hosts') == Ids(hosts) by {
      forall id | id in Ids(hosts) ensures id in Ids(hosts') {
        var i :| 0 <= i < |hosts| && hosts[i].id == id;
        assert hosts'[i] in hosts' && hosts'[i].id == id;
      }
      forall id | id in Ids(hosts') ensures id in Ids(hosts) {
        var i :| 0 <= i < |hosts'| && hosts'[i].id == id;
        assert hosts[i] in hosts && hosts[i].id == id;
      }
    }
    forall i | 0 <= i < |hosts'| ensures ServesMeasured(all + [h], hosts'[i]) {
      assert hosts[i] in hosts && ServesMeasured(all, hosts[i]);
      forall s ensures s in hosts'[i].services <==> Measured(all + [h], hosts'[i].id, s) {
        MeasuredOneMore(all, h, hosts'[i].id, s);
      }
    }
  }

  lemma AbsentId(hosts: seq<HostSpec>, id: string)
    ensures IndexOf(hosts, id) == |hosts| <==> id !in Ids(hosts)
  {
    var k := IndexOf(hosts, id);
    if k < |hosts| { assert hosts[k] in hosts; }
  }

  /** One more input keeps the union a union, or reveals a disagreement. */
  lemma AddHostIsUnion(all: seq<HostSpec>, hosts: seq<HostSpec>, h: HostSpec)
    requires UnionOf(all, hosts) && UniquePorts(h.services)
    ensures AddHost(hosts, h).Some? <==>
              forall s, t :: Measured(all, h.id, s) && t in h.services && s.port == t.port ==> s == t
    ensures AddHost(hosts, h).Some? ==> UnionOf(all + [h], AddHost(hosts, h).value)
  {
    var k := IndexOf(hosts, h.id);
    AbsentId(hosts, h.id);
    if k == |hosts| {
      AddNewHost(all, hosts, h);
    } else {
      assert hosts[k] in hosts && ServesMeasured(all, hosts[k]);
      UnionHostIsUnion(hosts[k], h);
      if AddHost(hosts, h).Some? { ReplaceHost(all, hosts, h, k, UnionHost(hosts[k], h).value); }
    }
  }

  /** The union succeeds exactly when the inputs agree on every port of every host, whatever their
      order, and then it holds each measured service of each host, and nothing else. */
  lemma {:induction false} UnionAllIsUnion(all: seq<HostSpec>)
    requires InputsValid(all)
    ensures UnionAll(all).Some? <==> Agree(all)
    ensures UnionAll(all).Some? ==> UnionOf(all, UnionAll(all).value)
  {
    if all != [] {
      var front, h := all[..|all| - 1], all[|all| - 1];
      assert all == front + [h];
      UnionAllIsUnion(front);
      forall id, s ensures Measured(all, id, s) <==> Measured(front, id, s) || (h.id == id && s in h.services) {
        MeasuredOneMore(front, h, id, s);
      }
      if UnionAll(front).Some? {
        AddHostIsUnion(front, UnionAll(front).value, h);
      }
      AgreeOneMore(front, h);
    }
  }

  lemma AgreeOneMore(all: seq<HostSpec>, h: HostSpec)
    requires UniquePorts(h.services)
    ensures Agree(all + [h]) <==>
              (Agree(all) && forall s, t :: Measured(all, h.id, s) && t in h.services && s.port == t.port ==> s == t)
  {
    forall id, s ensures Measured(all + [h], id, s) <==> Measured(all, id, s) || (h.id == id && s in h.services) {
      MeasuredOneMore(all, h, id, s);
    }
  }

  /** The order of the inputs decides neither success nor what each host ends up serving. */
  lemma UnionIgnoresOrder(all: seq<HostSpec>, other: seq<HostSpec>)
    requires InputsValid(all) && forall h :: h in all <==> h in other
    ensures UnionAll(all).Some? <==> UnionAll(other).Some?
    ensures UnionAll(all).Some? ==>
              forall g, h, s :: g in UnionAll(all).value && h in UnionAll(other).value && g.id == h.id ==>
                (s in g.services <==> s in h.services)
  {
    UnionAllIsUnion(all);
    UnionAllIsUnion(other);
    forall id, s ensures Measured(all, id, s) <==> Measured(other, id, s) {}
    if UnionAll(all).Some? {
      forall g, h, s | g in UnionAll(all).value && h in UnionAll(other).value && g.id == h.id
        ensures s in g.services <==> s in h.services
      {
        assert ServesMeasured(all, g) && ServesMeasured(other, h);
      }
    }
  }

  // ---------------------------------------------------------------- address, system and name of a union

  /** `ip` is the first measured address among the inputs for `id`, or the placeholder if none was. */
  ghost predicate FirstAddress(all: seq<HostSpec>, id: string, ip: Address) {
    || (exists i :: 0 <= i < |all| && all[i].id == id && all[i].ip == ip != PLACEHOLDER_IP
                    && forall j :: 0 <= j < i && all[j].id == id ==> all[j].ip == PLACEHOLDER_IP)
    || (ip == PLACEHOLDER_IP && forall i :: 0 <= i < |all| && all[i].id == id ==> all[i].ip == PLACEHOLDER_IP)
  }

  ghost predicate FirstSystem(all: seq<HostSpec>, id: string, os: string) {
    || (exists i :: 0 <= i < |all| && all[i].id == id && all[i].os == os != GENERIC_OS
                    && forall j :: 0 <= j < i && all[j].id == id ==> all[j].os == GENERIC_OS)
    || (os == GENERIC_OS && forall i :: 0 <= i < |all| && all[i].id == id ==> all[i].os == GENERIC_OS)
  }

  ghost predicate FirstName(all: seq<HostSpec>, id: string, name: string) {
    exists i :: 0 <= i < |all| && all[i].id == id && all[i].hostname == name
                && forall j :: 0 <= j < i ==> all[j].id != id
  }

  ghost predicate FirstFacts(all: seq<HostSpec>, h: HostSpec) {
    FirstAddress(all, h.id, h.ip) && FirstSystem(all, h.id, h.os) && FirstName(all, h.id, h.hostname)
  }

  /** A measured address stays the first. */
  lemma FirstAddressKept(all: seq<HostSpec>, g: HostSpec, id: string, ip: Address)
    requires FirstAddress(all, id, ip) && (ip != PLACEHOLDER_IP || g.id != id)
    ensures FirstAddress(all + [g], id, ip)
  {
    var more := all + [g];
    assert forall i :: 0 <= i < |all| ==> more[i] == all[i];
    if ip != PLACEHOLDER_IP {
      var i :| 0 <= i < |all| && all[i].id == id && all[i].ip == ip
               && forall j :: 0 <= j < i && all[j].id == id ==> all[j].ip == PLACEHOLDER_IP;
      assert more[i].ip == ip;
    }
  }

  lemma FirstSystemKept(all: seq<HostSpec>, g: HostSpec, id: string, os: string)
    requires FirstSystem(all, id, os) && (os != GENERIC_OS || g.id != id)
    ensures FirstSystem(all + [g], id, os)
  {
    var more := all + [g];
    assert forall i :: 0 <= i < |all| ==> more[i] == all[i];
    if os != GENERIC_OS {
      var i :| 0 <= i < |all| && all[i].id == id && all[i].os == os
               && forall j :: 0 <= j < i && all[j].id == id ==> all[j].os == GENERIC_OS;
      assert more[i].os == os;
    }
  }

  lemma FirstFactsOfOther(all: seq<HostSpec>, g: HostSpec, h: HostSpec)
    requires FirstFacts(all, h) && g.id != h.id
    ensures FirstFacts(all + [g], h)
  {
    FirstNameKept(all, g, h.id, h.hostname);
    FirstAddressKept(all, g, h.id, h.ip);
    FirstSystemKept(all, g, h.id, h.os);
  }

  lemma FirstNameKept(all: seq<HostSpec>, g: HostSpec, id: string, name: string)
    requires FirstName(all, id, name)
    ensures FirstName(all + [g], id, name)
  {
    var more := all + [g];
    var i :| 0 <= i < |all| && all[i].id == id && all[i].hostname == name && forall j :: 0 <= j < i ==> all[j].id != id;
    assert more[i] == all[i] && forall j :: 0 <= j < i ==> more[j] == all[j];
  }

  /** Where only the placeholder was seen, the next input decides. */
  lemma FirstAddressFound(all: seq<HostSpec>, g: HostSpec)
    requires FirstAddress(all, g.id, PLACEHOLDER_IP)
    ensures FirstAddress(all + [g], g.id, g.ip)
  {
    var more := all + [g];
    assert more[|all|] == g && forall i :: 0 <= i < |all| ==> more[i] == all[i];
  }

  lemma FirstSystemFound(all: seq<HostSpec>, g: HostSpec)
    requires FirstSystem(all, g.id, GENERIC_OS)
    ensures FirstSystem(all + [g], g.id, g.os)
  {
    var more := all + [g];
    assert more[|all|] == g && forall i :: 0 <= i < |all| ==> more[i] == all[i];
  }

  lemma FirstFactsOfUnion(all: seq<HostSpec>, dst: HostSpec, src: HostSpec)
    requires FirstFacts(all, dst) && src.id == dst.id && UnionHost(dst, src).Some?
    ensures FirstFacts(all + [src], UnionHost(dst, src).value)
  {
    FirstNameKept(all, src, dst.id, dst.hostname);
    if dst.ip != PLACEHOLDER_IP {
      FirstAddressKept(all, src, dst.id, dst.ip);
    } else {
      FirstAddressFound(all, src);
    }
    if dst.os != GENERIC_OS {
      FirstSystemKept(all, src, dst.id, dst.os);
    } else {
      FirstSystemFound(all, src);
    }
  }

  lemma FirstFactsOfNew(all: seq<HostSpec>, h: HostSpec)
    requires h.id !in Ids(all)
    ensures FirstFacts(all + [h], h)
  {
    var more := all + [h];
    forall j | 0 <= j < |all| ensures more[j].id != h.id { assert all[j] in all; }
    assert more[|all|] == h;
  }

  /** A merged host keeps the first measured address, the first specific system and the first name. */
  lemma {:induction false} UnionKeepsFirst(all: seq<HostSpec>)
    requires InputsValid(all) && UnionAll(all).Some?
    ensures forall h :: h in UnionAll(all).value ==> FirstFacts(all, h)
  {
    if all != [] {
      var front, g := all[..|all| - 1], all[|all| - 1];
      assert all == front + [g];
      UnionKeepsFirst(front);
      UnionAllIsUnion(front);
      var hosts := UnionAll(front).value;
      AbsentId(hosts, g.id);
      var k := IndexOf(hosts, g.id);
      if k == |hosts| {
        FirstFactsOfNew(front, g);
      } else {
        assert hosts[k] in hosts;
        FirstFactsOfUnion(front, hosts[k], g);
      }
      forall i | 0 <= i < |UnionAll(all).value| ensures FirstFacts(all, UnionAll(all).value[i]) {
        if i < |hosts| && i != k {
          assert hosts[i] in hosts;
          FirstFactsOfOther(front, g, hosts[i]);
        }
      }
    }
  }

  // ---------------------------------------------------------------- addresses

  function Range(lo: nat, hi: nat): (r: seq<nat>)
    ensures forall i :: 0 <= i < |r| ==> r[i] == lo + i
  {
    seq(if lo <= hi then hi - lo else 0, i requires 0 <= i => lo + i)
  }

  /** The host addresses of a network: all but its first and last, unless it is too small for that. */
  function NetHosts(net: Net): seq<nat>
    requires net.prefix <= 32
  {
    if net.prefix == 32 then [net.base]
    else if net.prefix == 31 then Range(net.base, net.base + 2)
    else Range(net.base + 1, net.base + Size(net) - 1)
  }

  function Filter(s: seq<nat>, p: nat -> bool): (r: seq<nat>)
    ensures forall x :: x in r <==> x in s && p(x)
  {
    if s == [] then []
    else
      var front := Filter(s[..|s| - 1], p);
      assert s == s[..|s| - 1] + [s[|s| - 1]];
      if p(s[|s| - 1]) then front + [s[|s| - 1]] else front
  }

  /** Addresses in the order they are handed out: from offset ten up, then the low ones; never the
      gateway. */
  function Pool(net: Net, gw: Option<nat>): seq<nat>
    requires net.prefix <= 32
  {
    Filter(NetHosts(net), ip => ip - net.base >= 10 && gw != Some(ip))
    + Filter(NetHosts(net), ip => ip - net.base < 10 && gw != Some(ip))
  }

  /** Host `i` keeps its address: nobody else claims it and it can stand in the network. */
  predicate Pinned(ips: seq<nat>, net: Net, gw: Option<nat>, i: nat)
    requires i < |ips| && net.prefix <= 32
  {
    && (forall j :: 0 <= j < |ips| && j != i ==> ips[j] != ips[i])
    && InNet(ips[i], net) && ips[i] != net.base && gw != Some(ips[i])
  }

  function PinnedSet(ips: seq<nat>, net: Net, gw: Option<nat>): set<nat>
    requires net.prefix <= 32
  {
    set i | 0 <= i < |ips| && Pinned(ips, net, gw, i) :: ips[i]
  }

  function Without(s: seq<nat>, gone: set<nat>): seq<nat> {
    Filter(s, ip => ip !in gone)
  }

  /** What is left of the pool for the hosts that must move. */
  function Free(ips: seq<nat>, net: Net, gw: Option<nat>): seq<nat>
    requires net.prefix <= 32
  {
    Without(Pool(net, gw), PinnedSet(ips, net, gw))
  }

  /** How many of the first `n` hosts must move. */
  function Moving(ips: seq<nat>, net: Net, gw: Option<nat>, n: nat): nat
    requires n <= |ips| && net.prefix <= 32
  {
    if n == 0 then 0
    else Moving(ips, net, gw, n - 1) + (if Pinned(ips, net, gw, n - 1) then 0 else 1)
  }

  lemma {:induction false} MovingGrows(ips: seq<nat>, net: Net, gw: Option<nat>, m: nat, n: nat)
    requires m <= n <= |ips| && net.prefix <= 32
    ensures Moving(ips, net, gw, m) <= Moving(ips, net, gw, n)
    ensures forall i :: m <= i < n && !Pinned(ips, net, gw, i) ==> Moving(ips, net, gw, m) < Moving(ips, net, gw, n)
    decreases n
  {
    if m < n { MovingGrows(ips, net, gw, m, n - 1); }
  }

  /** The address of host `i` after assignment. */
  function Assigned(ips: seq<nat>, net: Net, gw: Option<nat>, i: nat): nat
    requires i < |ips| && net.prefix <= 32
    requires Moving(ips, net, gw, |ips|) <= |Free(ips, net, gw)|
  {
    MovingGrows(ips, net, gw, i, |ips|);
    if Pinned(ips, net, gw, i) then ips[i] else Free(ips, net, gw)[Moving(ips, net, gw, i)]
  }

  function AssignIps(ips: seq<nat>, net: Net, gw: Option<nat>): Option<seq<nat>>
    requires net.prefix <= 32
  {
    if Moving(ips, net, gw, |ips|) > |Free(ips, net, gw)| then None
    else Some(seq(|ips|, i requires 0 <= i < |ips| => Assigned(ips, net, gw, i)))
  }

  predicate Distinct<T(==)>(s: seq<T>) {
    forall i, j :: 0 <= i < j < |s| ==> s[i] != s[j]
  }

  lemma {:induction false} FilterDistinct(s: seq<nat>, p: nat -> bool)
    requires Distinct(s)
    ensures Distinct(Filter(s, p))
  {
    if s != [] {
      var front, last := s[..|s| - 1], s[|s| - 1];
      FilterDistinct(front, p);
      assert last !in front;
    }
  }

  /** The pool is, once each, the host addresses other than the gateway. */
  lemma PoolIsExact(net: Net, gw: Option<nat>)
    requires net.prefix <= 32
    ensures Distinct(Pool(net, gw))
    ensures forall ip :: ip in Pool(net, gw) <==> ip in NetHosts(net) && gw != Some(ip)
  {
    var high, low := Filter(NetHosts(net), ip => ip - net.base >= 10 && gw != Some(ip)),
                     Filter(NetHosts(net), ip => ip - net.base < 10 && gw != Some(ip));
    FilterDistinct(NetHosts(net), ip => ip - net.base >= 10 && gw != Some(ip));
    FilterDistinct(NetHosts(net), ip => ip - net.base < 10 && gw != Some(ip));
    forall i, j | 0 <= i < |high| && 0 <= j < |low| ensures high[i] != low[j] {
      assert high[i] in high && low[j] in low;
    }
    assert forall ip :: ip in high + low <==> ip in high || ip in low;
  }

  /** The free addresses are, once each, the host addresses that are neither gateway nor pinned. */
  lemma FreeIsExact(ips: seq<nat>, net: Net, gw: Option<nat>)
    requires net.prefix <= 32
    ensures Distinct(Free(ips, net, gw))
    ensures forall ip :: ip in Free(ips, net, gw) <==>
              ip in NetHosts(net) && gw != Some(ip) && ip !in PinnedSet(ips, net, gw)
  {
    PoolIsExact(net, gw);
    var gone := PinnedSet(ips, net, gw);
    FilterDistinct(Pool(net, gw), ip => ip !in gone);
  }

  lemma NetHostsInNet(net: Net, ip: nat)
    requires net.prefix <= 32 && ip in NetHosts(net)
    ensures InNet(ip, net)
    ensures net.prefix <= 30 ==> ip != net.base
  {
    assert Pow2(0) == 1 && Pow2(1) == 2;
  }

  /** The schema's demands on the addresses of a range (RangeConfig._cross_checks). */
  predicate AddressesValid(ips: seq<nat>, net: Net, gw: Option<nat>)
    requires net.prefix <= 32
  {
    Distinct(ips) && forall i :: 0 <= i < |ips| ==> InNet(ips[i], net) && ips[i] != net.base && gw != Some(ips[i])
  }

  lemma AssignedFromFree(ips: seq<nat>, net: Net, gw: Option<nat>, i: nat)
    requires i < |ips| && net.prefix <= 32 && Moving(ips, net, gw, |ips|) <= |Free(ips, net, gw)|
    ensures Pinned(ips, net, gw, i) ==> Assigned(ips, net, gw, i) in PinnedSet(ips, net, gw)
    ensures !Pinned(ips, net, gw, i) ==> Assigned(ips, net, gw, i) in Free(ips, net, gw)
  {
    MovingGrows(ips, net, gw, i, |ips|);
  }

  lemma AssignedDiffer(ips: seq<nat>, net: Net, gw: Option<nat>, i: nat, j: nat)
    requires i < j < |ips| && net.prefix <= 32 && Moving(ips, net, gw, |ips|) <= |Free(ips, net, gw)|
    ensures Assigned(ips, net, gw, i) != Assigned(ips, net, gw, j)
  {
    FreeIsExact(ips, net, gw);
    AssignedFromFree(ips, net, gw, i);
    AssignedFromFree(ips, net, gw, j);
    if !Pinned(ips, net, gw, i) && !Pinned(ips, net, gw, j) {
      MovingGrows(ips, net, gw, i, j);
      MovingGrows(ips, net, gw, j, |ips|);
    }
  }

  /** Wherever the network has room for a separate network address, assignment meets the schema. */
  lemma AssignMeetsSchema(ips: seq<nat>, net: Net, gw: Option<nat>)
    requires net.prefix <= 32 && AssignIps(ips, net, gw).Some?
    ensures Distinct(AssignIps(ips, net, gw).value)
    ensures forall i :: 0 <= i < |ips| ==>
              InNet(Assigned(ips, net, gw, i), net) && gw != Some(Assigned(ips, net, gw, i))
    ensures forall i :: 0 <= i < |ips| && Assigned(ips, net, gw, i) == net.base ==>
              net.prefix > 30 && gw != Some(net.base) && !Pinned(ips, net, gw, i)
  {
    var out := AssignIps(ips, net, gw).value;
    forall i, j | 0 <= i < j < |out| ensures out[i] != out[j] { AssignedDiffer(ips, net, gw, i, j); }
    FreeIsExact(ips, net, gw);
    forall i | 0 <= i < |ips|
      ensures InNet(Assigned(ips, net, gw, i), net) && gw != Some(Assigned(ips, net, gw, i))
      ensures Assigned(ips, net, gw, i) == net.base ==>
                net.prefix > 30 && gw != Some(net.base) && !Pinned(ips, net, gw, i)
    {
      AssignedFromFree(ips, net, gw, i);
      if !Pinned(ips, net, gw, i) { NetHostsInNet(net, Assigned(ips, net, gw, i)); }
    }
  }

  /** In a network of one or two addresses the first host to move gets the network address. */
  lemma TinyNetGivesBase(ips: seq<nat>, net: Net, gw: Option<nat>, i: nat)
    requires 30 < net.prefix <= 32 && gw != Some(net.base) && AssignIps(ips, net, gw).Some?
    requires i < |ips| && !Pinned(ips, net, gw, i) && Moving(ips, net, gw, i) == 0
    ensures Assigned(ips, net, gw, i) == net.base
  {
    var hosts := NetHosts(net);
    var low := ip => ip - net.base < 10 && gw != Some(ip);
    var high := ip => ip - net.base >= 10 && gw != Some(ip);
    FilterDropsAll(hosts, high);
    assert hosts[0] == net.base;
    FilterKeepsFirst(hosts, low);
    assert net.base !in PinnedSet(ips, net, gw);
    assert Pool(net, gw)[0] == net.base;
    FilterKeepsFirst(Pool(net, gw), ip => ip !in PinnedSet(ips, net, gw));
    MovingGrows(ips, net, gw, i, |ips|);
  }

  lemma {:induction false} FilterDropsAll(s: seq<nat>, p: nat -> bool)
    requires forall x :: x in s ==> !p(x)
    ensures Filter(s, p) == []
  {
    if s != [] {
      assert s[|s| - 1] in s;
      FilterDropsAll(s[..|s| - 1], p);
    }
  }

  lemma {:induction false} FilterKeepsFirst(s: seq<nat>, p: nat -> bool)
    requires s != [] && p(s[0])
    ensures Filter(s, p) != [] && Filter(s, p)[0] == s[0]
  {
    if |s| > 1 { FilterKeepsFirst(s[..|s| - 1], p); }
  }

  lemma {:induction false} FirstMover(ips: seq<nat>, net: Net, gw: Option<nat>, n: nat) returns (i: nat)
    requires n <= |ips| && net.prefix <= 32 && Moving(ips, net, gw, n) > 0
    ensures i < n && !Pinned(ips, net, gw, i) && Moving(ips, net, gw, i) == 0
  {
    if Moving(ips, net, gw, n - 1) > 0 { i := FirstMover(ips, net, gw, n - 1); } else { i := n - 1; }
  }

  /** Exactly when the assigned addresses satisfy the schema: the network has a separate network
      address, or the gateway takes that address, or no host has to move. */
  lemma AssignedValidIff(ips: seq<nat>, net: Net, gw: Option<nat>)
    requires net.prefix <= 32 && AssignIps(ips, net, gw).Some?
    ensures AddressesValid(AssignIps(ips, net, gw).value, net, gw) <==>
              net.prefix <= 30 || gw == Some(net.base) || Moving(ips, net, gw, |ips|) == 0
  {
    var out := AssignIps(ips, net, gw).value;
    AssignMeetsSchema(ips, net, gw);
    if Moving(ips, net, gw, |ips|) == 0 {
      forall i | 0 <= i < |ips| ensures Pinned(ips, net, gw, i) { MovingGrows(ips, net, gw, 0, |ips|); }
    } else if net.prefix > 30 && gw != Some(net.base) {
      var i := FirstMover(ips, net, gw, |ips|);
      TinyNetGivesBase(ips, net, gw, i);
      assert out[i] == net.base;
    }
  }

  /** Valid addresses are left alone. */
  lemma {:induction false} ValidAddressesStay(ips: seq<nat>, net: Net, gw: Option<nat>, n: nat)
    requires net.prefix <= 32 && AddressesValid(ips, net, gw) && n <= |ips|
    ensures Moving(ips, net, gw, n) == 0
    ensures n == |ips| ==> AssignIps(ips, net, gw) == Some(ips)
  {
    forall i | 0 <= i < |ips| ensures Pinned(ips, net, gw, i) {}
    if n > 0 { ValidAddressesStay(ips, net, gw, n - 1); }
    if n == |ips| { assert AssignIps(ips, net, gw).value == ips; }
  }

  // ---------------------------------------------------------------- hostnames

  function Suffixed(name: string, n: nat): string {
    name + "-" + Numeral(n)
  }

  lemma SuffixesDiffer(name: string, m: nat, n: nat)
    requires Suffixed(name, m) == Suffixed(name, n)
    ensures m == n
  {
    var k := |name| + 1;
    assert Suffixed(name, m)[k..] == Numeral(m) && Suffixed(name, n)[k..] == Numeral(n);
    NumeralIsInjective(m, n);
  }

  /** The suffixes 2 to n - 1 are all taken. */
  ghost predicate TakenBelow(name: string, seen: set<string>, n: nat) {
    forall k :: 2 <= k < n ==> Suffixed(name, k) in seen
  }

  /** There are no more taken suffixes than taken names, so the search for a free one ends. */
  lemma {:induction false} TakenAreFew(name: string, seen: set<string>, n: nat)
    requires n >= 2 && TakenBelow(name, seen, n)
    ensures n - 2 <= |seen|
    decreases n
  {
    if n > 2 {
      var last := Suffixed(name, n - 1);
      forall k | 2 <= k < n - 1 ensures Suffixed(name, k) in seen - {last} {
        if Suffixed(name, k) == last { SuffixesDiffer(name, k, n - 1); }
      }
      TakenAreFew(name, seen - {last}, n - 1);
    }
  }

  /** The least suffix from `n` up that is not taken. */
  function FirstFree(name: string, seen: set<string>, n: nat): (r: nat)
    requires n >= 2 && TakenBelow(name, seen, n)
    ensures r >= 2 && Suffixed(name, r) !in seen && TakenBelow(name, seen, r)
    decreases |seen| + 2 - n
  {
    TakenAreFew(name, seen, n);
    if Suffixed(name, n) !in seen then n
    else
      TakenAreFew(name, seen, n + 1);
      FirstFree(name, seen, n + 1)
  }

  function Rename(name: string, seen: set<string>): string {
    if name !in seen then name else Suffixed(name, FirstFree(name, seen, 2))
  }

  function NameSet(names: seq<string>): set<string> {
    set n | n in names
  }

  /** Each hostname in turn, renamed if an earlier host ended up with it. */
  function Dedup(names: seq<string>): (r: seq<string>)
    ensures |r| == |names|
  {
    if names == [] then [] else
      var front := Dedup(names[..|names| - 1]);
      front + [Rename(names[|names| - 1], NameSet(front))]
  }

  /** Renaming leaves all hostnames different, and keeps those that were. */
  lemma {:induction false} DedupDistinct(names: seq<string>)
    ensures Distinct(Dedup(names))
    ensures Distinct(names) ==> Dedup(names) == names
  {
    if names != [] {
      var front := names[..|names| - 1];
      DedupDistinct(front);
      var last := Dedup(names)[|names| - 1];
      assert last !in Dedup(front);
      if Distinct(names) {
        assert names[|names| - 1] !in front;
        assert names == front + [names[|names| - 1]];
      }
    }
  }
}
