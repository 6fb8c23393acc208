/** Bytes and the numbers that wire formats pack into them, most significant first. */
module Octets {
  type Byte = b: nat | b < 256

  function U16(n: nat): seq<Byte>
    requires n < 0x1_0000
  {
    [n / 0x100, n % 0x100]
  }

  function U32(n: nat): seq<Byte>
    requires n < 0x1_0000_0000
  {
    U16(n / 0x1_0000) + U16(n % 0x1_0000)
  }

  function ReadU16(data: seq<Byte>, o: nat): nat
    requires o + 2 <= |data|
  {
    (data[o] as nat) * 0x100 + data[o + 1] as nat
  }

  function ReadU32(data: seq<Byte>, o: nat): nat
    requires o + 4 <= |data|
  {
    ReadU16(data, o) * 0x1_0000 + ReadU16(data, o + 2)
  }

  /** The message holds these bytes at `o`. */
  predicate Holds(data: seq<Byte>, o: nat, part: seq<Byte>) {
    o + |part| <= |data| && forall i {:trigger part[i]} :: 0 <= i < |part| ==> data[o + i] == part[i]
  }

  lemma HoldsBoth(data: seq<Byte>, o: nat, a: seq<Byte>, b: seq<Byte>)
    requires Holds(data, o, a + b)
    ensures Holds(data, o, a) && Holds(data, o + |a|, b)
  {
    var part := a + b;
    forall i | 0 <= i < |a| ensures data[o + i] == a[i] {
      assert part[i] == a[i];
    }
    forall i | 0 <= i < |b| ensures data[o + |a| + i] == b[i] {
      assert part[|a| + i] == b[i];
    }
  }

  lemma HoldsSlice(data: seq<Byte>, o: nat, part: seq<Byte>)
    ensures Holds(data, o, part) <==> o + |part| <= |data| && data[o..o + |part|] == part
  {
    if o + |part| <= |data| && data[o..o + |part|] == part {
      forall i | 0 <= i < |part| ensures data[o + i] == part[i] {
        assert data[o..o + |part|][i] == part[i];
      }
    }
  }

  lemma ReadU16At(data: seq<Byte>, o: nat, n: nat)
    requires n < 0x1_0000 && Holds(data, o, U16(n))
    ensures ReadU16(data, o) == n
  {
    assert U16(n)[0] == n / 0x100 && U16(n)[1] == n % 0x100;
  }

  lemma ReadU32At(data: seq<Byte>, o: nat, n: nat)
    requires n < 0x1_0000_0000 && Holds(data, o, U32(n))
    ensures ReadU32(data, o) == n
  {
    HoldsBoth(data, o, U16(n / 0x1_0000), U16(n % 0x1_0000));
    ReadU16At(data, o, n / 0x1_0000);
    ReadU16At(data, o + 2, n % 0x1_0000);
  }
}
