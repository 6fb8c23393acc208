/** IPv4 networks as ranges of addresses, and the smallest network that covers a set of hosts
    (_subnet in rangefinder/importers/nmap.py).  Addresses are numbers below two to the 32. */
module Ipv4 {

  function Pow2(h: nat): (r: nat)
    ensures r > 0
  {
    if h == 0 then 1 else 2 * Pow2(h - 1)
  }

  /** x >> h. */
  function Shr(x: nat, h: nat): nat {
    if h == 0 then x else Shr(x / 2, h - 1)
  }

  function Xor(a: nat, b: nat): nat
    decreases a + b
  {
    if a == 0 && b == 0 then 0 else (if a % 2 == b % 2 then 0 else 1) + 2 * Xor(a / 2, b / 2)
  }

  function Or(a: nat, b: nat): nat
    decreases a + b
  {
    if a == 0 && b == 0 then 0 else (if a % 2 == 0 && b % 2 == 0 then 0 else 1) + 2 * Or(a / 2, b / 2)
  }

  /** int.bit_length. */
  function BitLength(x: nat): nat {
    if x == 0 then 0 else 1 + BitLength(x / 2)
  }

  type Address = a: nat | a < 0x1_0000_0000

  /** A network: its first address and its prefix length. */
  datatype Net = Net(base: nat, prefix: nat)

  function HostBits(prefix: nat): nat
    requires prefix <= 32
  {
    32 - prefix
  }

  predicate ValidNet(net: Net) {
    net.prefix <= 32 && net.base == Shr(net.base, HostBits(net.prefix)) * Pow2(HostBits(net.prefix))
    && net.base < 0x1_0000_0000
  }

  function Size(net: Net): nat
    requires net.prefix <= 32
  {
    Pow2(HostBits(net.prefix))
  }

  predicate InNet(ip: nat, net: Net)
    requires net.prefix <= 32
  {
    net.base <= ip < net.base + Size(net)
  }

  /** The network of a given prefix length that `ip` lies in (ip_network with strict off). */
  function NetOf(ip: nat, prefix: nat): Net
    requires prefix <= 32
  {
    Net(Shr(ip, HostBits(prefix)) * Pow2(HostBits(prefix)), prefix)
  }

  // ---------------------------------------------------------------- bits and ranges

  lemma {:induction false} ShrZero(h: nat)
    ensures Shr(0, h) == 0
  {
    if h > 0 { ShrZero(h - 1); }
  }

  lemma {:induction false} ShrRange(x: nat, h: nat)
    ensures Shr(x, h) * Pow2(h) <= x < Shr(x, h) * Pow2(h) + Pow2(h)
  {
    if h > 0 {
      ShrRange(x / 2, h - 1);
      var q, p := Shr(x / 2, h - 1), Pow2(h - 1);
      Doubling(q, p);
      HalfRange(x, q * p, p);
    }
  }

  lemma Doubling(q: nat, p: nat)
    ensures q * (2 * p) == 2 * (q * p)
  {}

  lemma HalfRange(x: nat, a: nat, p: nat)
    requires a <= x / 2 < a + p
    ensures 2 * a <= x < 2 * a + 2 * p
  {}

  /** A later block starts no earlier than the end of an earlier one. */
  lemma BlocksApart(q: int, s: int, p: nat)
    ensures q < s ==> q * p + p <= s * p
  {
    if q < s { Product(s - q - 1, p); Distribute(q, s - q, p); Distribute(1, s - q - 1, p); }
  }

  lemma Product(d: nat, p: nat)
    ensures d * p >= 0
  {}

  lemma Distribute(x: int, y: int, p: int)
    ensures (x + y) * p == x * p + y * p
  {}

  /** Only one multiple of a block size has `x` in its block. */
  lemma ShrUnique(x: nat, q: nat, h: nat)
    requires q * Pow2(h) <= x < q * Pow2(h) + Pow2(h)
    ensures q == Shr(x, h)
  {
    ShrRange(x, h);
    BlocksApart(q, Shr(x, h), Pow2(h));
    BlocksApart(Shr(x, h), q, Pow2(h));
  }

  /** Two addresses share a network of a prefix length when their leading bits agree. */
  lemma InNetOf(a: nat, b: nat, prefix: nat)
    requires prefix <= 32
    ensures InNet(b, NetOf(a, prefix)) <==> Shr(a, HostBits(prefix)) == Shr(b, HostBits(prefix))
  {
    var h := HostBits(prefix);
    ShrRange(b, h);
    if InNet(b, NetOf(a, prefix)) { ShrUnique(b, Shr(a, h), h); }
  }

  lemma {:induction false} ShrXor(a: nat, b: nat, h: nat)
    ensures Shr(Xor(a, b), h) == 0 <==> Shr(a, h) == Shr(b, h)
  {
    if h == 0 {
      XorZero(a, b);
    } else {
      if a == 0 && b == 0 { ShrZero(h); }
      else {
        assert Xor(a, b) / 2 == Xor(a / 2, b / 2);
        ShrXor(a / 2, b / 2, h - 1);
      }
    }
  }

  lemma {:induction false} XorZero(a: nat, b: nat)
    ensures Xor(a, b) == 0 <==> a == b
    decreases a + b
  {
    if a != 0 || b != 0 { XorZero(a / 2, b / 2); }
  }

  lemma {:induction false} ShrOr(a: nat, b: nat, h: nat)
    ensures Shr(Or(a, b), h) == 0 <==> Shr(a, h) == 0 && Shr(b, h) == 0
  {
    if h == 0 {
      OrZero(a, b);
    } else {
      if a == 0 && b == 0 { ShrZero(h); }
      else {
        assert Or(a, b) / 2 == Or(a / 2, b / 2);
        ShrOr(a / 2, b / 2, h - 1);
      }
    }
  }

  lemma {:induction false} OrZero(a: nat, b: nat)
    ensures Or(a, b) == 0 <==> a == 0 && b == 0
    decreases a + b
  {
    if a != 0 || b != 0 { OrZero(a / 2, b / 2); }
  }

  /** Bit `k` of a number. */
  predicate Bit(x: nat, k: nat) {
    Shr(x, k) % 2 == 1
  }

  /** The two operations, bit by bit. */
  lemma {:induction false} BitByBit(a: nat, b: nat, k: nat)
    ensures Bit(Xor(a, b), k) <==> Bit(a, k) != Bit(b, k)
    ensures Bit(Or(a, b), k) <==> Bit(a, k) || Bit(b, k)
    decreases k
  {
    if k > 0 {
      BitByBit(a / 2, b / 2, k - 1);
      if a == 0 && b == 0 {
        ShrZero(k);
      } else {
        assert Xor(a, b) / 2 == Xor(a / 2, b / 2) && Or(a, b) / 2 == Or(a / 2, b / 2);
      }
    }
  }

  lemma {:induction false} BitLengthBound(x: nat, h: nat)
    ensures BitLength(x) <= h <==> Shr(x, h) == 0
  {
    if h == 0 || x == 0 {
      ShrZero(h);
    } else {
      BitLengthBound(x / 2, h - 1);
    }
  }

  // ---------------------------------------------------------------- the derived subnet

  const MAX_DERIVED_PREFIX := 24

  ghost predicate Covers(net: Net, ips: seq<Address>)
    requires net.prefix <= 32
  {
    forall ip :: ip in ips ==> InNet(ip, net)
  }

  /** The network around the first address that covers them all with a prefix of 24, or with a shorter
      one where no longer one does. */
  ghost predicate TightestCover(net: Net, ips: seq<Address>)
    requires |ips| > 0
  {
    && net.prefix <= MAX_DERIVED_PREFIX && net == NetOf(ips[0], net.prefix) && Covers(net, ips)
    && (net.prefix < MAX_DERIVED_PREFIX ==> forall p :: net.prefix < p <= 32 ==> !Covers(NetOf(ips[0], p), ips))
  }

  lemma AddressBits(ip: Address)
    ensures Shr(ip, 32) == 0
  {
    assert Pow2(8) == 0x100 && Pow2(16) == 0x1_0000 && Pow2(24) == 0x100_0000 && Pow2(32) == 0x1_0000_0000;
    ShrUnique(ip, 0, 32);
  }

  lemma CoversByBits(ips: seq<Address>, p: nat)
    requires |ips| > 0 && p <= 32
    ensures Covers(NetOf(ips[0], p), ips) <==> forall k :: 0 <= k < |ips| ==> Shr(ips[0], 32 - p) == Shr(ips[k], 32 - p)
  {
    forall k | 0 <= k < |ips|
      ensures InNet(ips[k], NetOf(ips[0], p)) <==> Shr(ips[0], 32 - p) == Shr(ips[k], 32 - p)
    {
      InNetOf(ips[0], ips[k], p);
    }
    if Covers(NetOf(ips[0], p), ips) {
      forall k | 0 <= k < |ips| ensures Shr(ips[0], 32 - p) == Shr(ips[k], 32 - p) { assert ips[k] in ips; }
    }
  }

  /** The bits on which some address differs from the first decide the prefix. */
  ghost predicate DiffersIn(ips: seq<Address>, n: nat, xored: nat)
    requires 0 < n <= |ips|
  {
    forall h: nat {:trigger Shr(xored, h)} ::
      Shr(xored, h) == 0 <==> forall k :: 0 <= k < n ==> Shr(ips[0], h) == Shr(ips[k], h)
  }

  lemma DiffersStep(ips: seq<Address>, n: nat, xored: nat)
    requires 0 < n < |ips| && DiffersIn(ips, n, xored)
    ensures DiffersIn(ips, n + 1, Or(xored, Xor(ips[0], ips[n])))
  {
    var next := Or(xored, Xor(ips[0], ips[n]));
    forall h: nat
      ensures Shr(next, h) == 0 <==> forall k :: 0 <= k < n + 1 ==> Shr(ips[0], h) == Shr(ips[k], h)
    {
      ShrOr(xored, Xor(ips[0], ips[n]), h);
      ShrXor(ips[0], ips[n], h);
    }
  }

  function PrefixFor(xored: nat): int {
    if 32 - BitLength(xored) < MAX_DERIVED_PREFIX then 32 - BitLength(xored) else MAX_DERIVED_PREFIX
  }

  lemma TightestFromBits(ips: seq<Address>, xored: nat)
    requires |ips| > 0 && DiffersIn(ips, |ips|, xored)
    ensures 0 <= PrefixFor(xored) <= 32
    ensures TightestCover(NetOf(ips[0], PrefixFor(xored)), ips)
  {
    forall k | 0 <= k < |ips| ensures Shr(ips[0], 32) == Shr(ips[k], 32) {
      AddressBits(ips[0]);
      AddressBits(ips[k]);
    }
    BitLengthBound(xored, 32);
    forall p: nat | p <= 32 ensures Covers(NetOf(ips[0], p), ips) <==> p <= 32 - BitLength(xored) {
      CoversByBits(ips, p);
      BitLengthBound(xored, 32 - p);
    }
  }

  lemma NetOfIsValid(ip: Address, prefix: nat)
    requires prefix <= 32
    ensures ValidNet(NetOf(ip, prefix))
  {
    var h := HostBits(prefix);
    ShrRange(ip, h);
    ShrUnique(NetOf(ip, prefix).base, Shr(ip, h), h);
  }

  /** The bits on which one of the first `n` addresses differs from the first. */
  function DifferingBits(ips: seq<Address>, n: nat): nat
    requires n <= |ips|
  {
    if n <= 1 then 0 else Or(DifferingBits(ips, n - 1), Xor(ips[0], ips[n - 1]))
  }

  lemma {:induction false} DifferingBitsDiffer(ips: seq<Address>, n: nat)
    requires 0 < n <= |ips|
    ensures DiffersIn(ips, n, DifferingBits(ips, n))
  {
    if n == 1 {
      forall h: nat ensures Shr(0, h) == 0 { ShrZero(h); }
    } else {
      DifferingBitsDiffer(ips, n - 1);
      DiffersStep(ips, n - 1, DifferingBits(ips, n - 1));
    }
  }

  /** The network derived for a set of hosts. */
  function DerivedNet(ips: seq<Address>): (net: Net)
    requires |ips| > 0
    ensures ValidNet(net) && TightestCover(net, ips)
  {
    var xored := DifferingBits(ips, |ips|);
    DifferingBitsDiffer(ips, |ips|);
    TightestFromBits(ips, xored);
    NetOfIsValid(ips[0], PrefixFor(xored));
    NetOf(ips[0], PrefixFor(xored))
  }

  method DeriveSubnet(ips: seq<Address>) returns (net: Net)
    requires |ips| > 0
    ensures net == DerivedNet(ips)
  {
    var xored := 0;
    for i := 1 to |ips|
      invariant xored == DifferingBits(ips, i)
    {
      xored := Or(xored, Xor(ips[0], ips[i]));
    }
    DifferingBitsDiffer(ips, |ips|);
    TightestFromBits(ips, xored);
    net := NetOf(ips[0], PrefixFor(xored));
  }

  /** Any network that covers the hosts has a prefix no longer than the derived one, unless the derived
      prefix is 24 and the other is longer still. */
  lemma NoTighterNet(ips: seq<Address>, net: Net, other: Net)
    requires |ips| > 0 && ValidNet(net) && TightestCover(net, ips)
    requires ValidNet(other) && Covers(other, ips)
    ensures other.prefix <= net.prefix || net.prefix == MAX_DERIVED_PREFIX < other.prefix
    ensures other.prefix == net.prefix ==> other == net
  {
    assert InNet(ips[0], other);
    ShrUnique(ips[0], Shr(other.base, HostBits(other.prefix)), HostBits(other.prefix));
    assert other == NetOf(ips[0], other.prefix);
  }

  /** The derived prefix is the longest up to 24 that any network covering the hosts has, and below 24 the
      longest of all. */
  lemma DerivedPrefixIsLongest(ips: seq<Address>, p: nat)
    requires |ips| > 0 && p <= 32
    ensures p <= DerivedNet(ips).prefix <==> p <= MAX_DERIVED_PREFIX && exists net :: CoversAt(net, ips, p)
    ensures DerivedNet(ips).prefix < MAX_DERIVED_PREFIX ==>
              (p <= DerivedNet(ips).prefix <==> exists net :: CoversAt(net, ips, p))
  {
    var derived := DerivedNet(ips);
    if p <= derived.prefix {
      CoversByBits(ips, derived.prefix);
      CoversByBits(ips, p);
      forall k | 0 <= k < |ips| ensures Shr(ips[0], 32 - p) == Shr(ips[k], 32 - p) {
        ShrFurther(ips[0], 32 - derived.prefix, derived.prefix - p);
        ShrFurther(ips[k], 32 - derived.prefix, derived.prefix - p);
      }
      NetOfIsValid(ips[0], p);
      assert CoversAt(NetOf(ips[0], p), ips, p);
    }
    forall net | CoversAt(net, ips, p) ensures p <= derived.prefix || derived.prefix == MAX_DERIVED_PREFIX < p {
      NoTighterNet(ips, derived, net);
    }
  }

  ghost predicate CoversAt(net: Net, ips: seq<Address>, p: nat) {
    p <= 32 && net.prefix == p && ValidNet(net) && Covers(net, ips)
  }

  lemma {:induction false} ShrFurther(x: nat, h: nat, k: nat)
    ensures Shr(x, h + k) == Shr(Shr(x, h), k)
    decreases h
  {
    if h > 0 { ShrFurther(x / 2, h - 1, k); }
  }

  /** The source lists the distinct addresses in sorted order; any listing derives the same network. */
  lemma DerivedNetIgnoresOrder(ips: seq<Address>, other: seq<Address>)
    requires |ips| > 0 && |other| > 0 && forall ip :: ip in ips <==> ip in other
    ensures DerivedNet(ips) == DerivedNet(other)
  {
    NoTighterNet(ips, DerivedNet(ips), DerivedNet(other));
    NoTighterNet(other, DerivedNet(other), DerivedNet(ips));
  }
}
