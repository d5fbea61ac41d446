/** CIDR comparison of IPv4 addresses and the choice of valid networks (installadm_common.py). */
module Cidr {
  import opened Text
  import opened Addresses
  import opened Bits

  const MASK_TUPLE: seq<nat> := [0, 128, 192, 224, 240, 248, 252, 254, 255]

  /** _convert_ipv4 packs the last octet highest. */
  function ConvertIPv4(ip: IPv4): nat {
    ip.Reversed()
  }

  /** The number of mask bits that fall into octet j. */
  function BitsInOctet(n: nat, j: nat): nat {
    if n <= 8 * j then 0 else if n >= 8 * j + 8 then 8 else n - 8 * j
  }

  lemma MaskTuple()
    ensures forall k | 0 <= k <= 8 :: MASK_TUPLE[k] == OctetMask(k)
  {
  }

  function PrefixMask(n: nat): (m: IPv4)
  {
    IPv4(OctetMask(BitsInOctet(n, 0)), OctetMask(BitsInOctet(n, 1)), OctetMask(BitsInOctet(n, 2)), OctetMask(BitsInOctet(n, 3)))
  }

  /** The dotted mask of n leading ones; None for a mask longer than an address. */
  method ConvertCidrMask(n: nat) returns (r: Option<IPv4>)
    ensures r.None? <==> n > 32
    ensures r.Some? ==> r.value == PrefixMask(n)
  {
    if n > 32 {
      return None;
    }
    MaskTuple();
    if n == 0 {
      return Some(IPv4(0, 0, 0, 0));
    }
    var mask := seq(n / 8, _ => 255);
    if |mask| != 4 {
      var index := n % 8;
      mask := mask + [MASK_TUPLE[index]];
    }
    if |mask| != 4 {
      mask := mask + seq(3 - n / 8, _ => 0);
    }
    assert forall j | 0 <= j < 4 :: mask[j] == OctetMask(BitsInOctet(n, j));
    r := Some(IPv4(mask[0], mask[1], mask[2], mask[3]));
  }

  lemma PrefixMaskIsValid(n: nat)
    ensures PrefixMask(n).Valid()
  {
    MaskTuple();
  }

  function OctetAt(ip: IPv4, j: nat): nat
    requires j < 4
  {
    if j == 0 then ip.a else if j == 1 then ip.b else if j == 2 then ip.c else ip.d
  }

  /** Bit i of the address in network order. */
  function AddressBit(ip: IPv4, i: nat): nat
    requires i < 32
  {
    OctetBit(OctetAt(ip, i / 8), i % 8)
  }

  /** Section 3.1 of RFC 4632: the prefix of length n is the first n bits of the address. */
  predicate SamePrefix(x: IPv4, y: IPv4, n: nat)
    requires n <= 32
  {
    forall i | 0 <= i < n :: AddressBit(x, i) == AddressBit(y, i)
  }

  /** An address as entered, with the length behind its slash when there is one. */
  datatype Entry = Entry(ip: IPv4, length: Option<nat>)

  /** The address is that of the network, or the network has a valid mask under which they share
      their prefix. */
  predicate InNetwork(ip: IPv4, network: Entry) {
    match network.length
    case None => ip == network.ip
    case Some(n) => n <= 32 && SamePrefix(ip, network.ip, n)
  }

  lemma PrefixByOctets(x: IPv4, y: IPv4, n: nat)
    requires n <= 32
    ensures SamePrefix(x, y, n) <==> forall j | 0 <= j < 4 :: SameBits(OctetAt(x, j), OctetAt(y, j), BitsInOctet(n, j))
  {
    if SamePrefix(x, y, n) {
      forall j, i | 0 <= j < 4 && 0 <= i < BitsInOctet(n, j)
        ensures OctetBit(OctetAt(x, j), i) == OctetBit(OctetAt(y, j), i)
      {
        assert AddressBit(x, 8 * j + i) == AddressBit(y, 8 * j + i);
      }
    }
    if forall j | 0 <= j < 4 :: SameBits(OctetAt(x, j), OctetAt(y, j), BitsInOctet(n, j)) {
      forall i | 0 <= i < n
        ensures AddressBit(x, i) == AddressBit(y, i)
      {
        assert SameBits(OctetAt(x, i / 8), OctetAt(y, i / 8), BitsInOctet(n, i / 8));
        assert i % 8 < BitsInOctet(n, i / 8);
      }
    }
  }

  lemma MaskedAddressesAgree(x: IPv4, y: IPv4, n: nat)
    requires x.Valid() && y.Valid() && n <= 32
    ensures And4(x, PrefixMask(n)) == And4(y, PrefixMask(n)) <==> SamePrefix(x, y, n)
  {
    forall j | 0 <= j < 4
      ensures And(OctetAt(x, j), OctetMask(BitsInOctet(n, j))) == And(OctetAt(y, j), OctetMask(BitsInOctet(n, j)))
              <==> SameBits(OctetAt(x, j), OctetAt(y, j), BitsInOctet(n, j))
    {
      MaskedOctetsAgree(OctetAt(x, j), OctetAt(y, j), BitsInOctet(n, j));
    }
    assert And4(x, PrefixMask(n)) == And4(y, PrefixMask(n)) <==>
      forall j | 0 <= j < 4 :: And(OctetAt(x, j), OctetMask(BitsInOctet(n, j))) == And(OctetAt(y, j), OctetMask(BitsInOctet(n, j)));
    PrefixByOctets(x, y, n);
  }

  /** Although address and mask are packed in reversed byte order, ANDing the words compares the
      first n bits in network order. */
  lemma MaskedWordsAgree(x: IPv4, y: IPv4, n: nat)
    requires x.Valid() && y.Valid() && n <= 32
    ensures And(y.Reversed(), PrefixMask(n).Reversed()) == And(x.Reversed(), PrefixMask(n).Reversed()) <==> SamePrefix(x, y, n)
  {
    PrefixMaskIsValid(n);
    WordsAgreeByOctets(x, y, PrefixMask(n));
    MaskedAddressesAgree(x, y, n);
  }

  /** A mask behind the first address is ignored. */
  method CompareIPv4(one: Entry, two: Entry) returns (r: bool)
    requires one.ip.Valid() && two.ip.Valid()
    ensures r <==> InNetwork(one.ip, two)
  {
    var oneNum := ConvertIPv4(one.ip);
    var length := if two.length.None? then 0 else two.length.value;
    var maskTwo := ConvertCidrMask(length);
    if maskTwo.None? {
      return false;
    }
    MaskedWordsAgree(one.ip, two.ip, length);
    var twoNum := ConvertIPv4(two.ip);
    var maskNum := ConvertIPv4(maskTwo.value);
    ReversedOrder(one.ip, two.ip);
    if two.length.Some? && And(twoNum, maskNum) == And(oneNum, maskNum) {
      return true;
    } else if oneNum == twoNum {
      return true;
    }
    r := false;
  }

  method InNetworks(inter: Entry, networks: seq<Entry>) returns (r: bool)
    requires inter.ip.Valid() && forall n | n in networks :: n.ip.Valid()
    ensures r <==> exists n :: n in networks && InNetwork(inter.ip, n)
  {
    for k := 0 to |networks|
      invariant forall i | 0 <= i < k :: !InNetwork(inter.ip, networks[i])
    {
      assert networks[k] in networks;
      var same := CompareIPv4(inter, networks[k]);
      if same {
        return true;
      }
    }
    r := false;
  }

  /** The addresses, without their masks, of the interfaces that the exclude flag and the list of
      networks let through. */
  method GetValidNetworks(interfaces: seq<Entry>, exclude: bool, networks: seq<Entry>) returns (valid: set<IPv4>)
    requires (forall e | e in interfaces :: e.ip.Valid()) && forall n | n in networks :: n.ip.Valid()
    ensures forall ip :: ip in valid <==>
              exists e :: e in interfaces && e.ip == ip && ((exists n :: n in networks && InNetwork(ip, n)) <==> !exclude)
  {
    valid := {};
    for k := 0 to |interfaces|
      invariant forall ip :: ip in valid <==>
        exists i :: 0 <= i < k && interfaces[i].ip == ip && ((exists n :: n in networks && InNetwork(ip, n)) <==> !exclude)
    {
      assert interfaces[k] in interfaces;
      var inNet := InNetworks(interfaces[k], networks);
      if (inNet && !exclude) || (!inNet && exclude) {
        valid := valid + {interfaces[k].ip};
      }
    }
  }
}
