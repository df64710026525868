/**
 IPv4 networks in prefix notation (section 3.1 of RFC 4632). A network is an
 address with its low bits cleared together with the number of those bits.
 */
module Cidr {
  import opened Wrappers
  import opened Bits

  // A network of 2^exp addresses, exp being 32 minus the prefix length.
  datatype Net = Net(first: nat, exp: nat)
  {
    predicate Valid() {
      exp <= 32 && first < TWO_32 && Mask(first, exp) == first
    }

    // net.IPNet.Contains: the address is in the network when masking it gives
    // the network address.
    predicate Contains(ip: nat) {
      Mask(ip, exp) == first
    }

    // LastIP: the highest address of the network
    function Last(): int {
      first + Pow2(exp) - 1
    }
  }

  type Block = b: Net | b.Valid() witness Net(0, 0)

  // The network that an address belongs to when its lowest exp bits are host bits.
  function NetworkOf(ip: Word32, exp: nat): (b: Block)
    requires exp <= 32
  {
    MaskMask(ip, exp, exp);
    MaskBounds(ip, exp);
    Net(Mask(ip, exp), exp)
  }

  // uintToIP: an address holds the lowest 32 bits of an unsigned integer.
  function UintToIP(n: nat): (ip: Word32)
    ensures n < TWO_32 ==> ip == n
    ensures n == TWO_32 ==> ip == 0
  {
    n % 0x1_0000_0000
  }

  // A CIDR string: missing, rejected by net.ParseCIDR, or an address and a prefix
  // length. The address may have host bits set, as "10.10.10.128/22" has.
  datatype CidrText =
    | NoText
    | BadText(raw: string)
    | Text(ip: Word32, prefix: nat)

  // net.ParseCIDR, keeping the network only
  function ParseNet(text: CidrText): (net: Option<Block>)
    ensures net.Some? <==> text.Text? && text.prefix <= 32
  {
    match text
    case Text(ip, prefix) => if prefix <= 32 then Some(NetworkOf(ip, 32 - prefix)) else None
    case _ => None
  }

  ghost predicate WellFormed(text: CidrText)
  {
    ParseNet(text).Some?
  }

  // The two networks have an address in common.
  ghost predicate Share(a: Block, b: Block)
  {
    exists x: nat :: a.Contains(x) && b.Contains(x)
  }

  // The containment test of the code, in both directions
  predicate Overlap(a: Block, b: Block)
  {
    a.Contains(b.first) || b.Contains(a.first)
  }

  lemma BlockBounds(b: Block)
    ensures b.first <= b.Last() < TWO_32
  {
    Pow2Is32();
    MaskEnd(b.first, b.exp, 32);
  }

  // Containment is membership in the interval of addresses.
  lemma ContainsIsInterval(b: Block, x: nat)
    ensures b.Contains(x) <==> b.first <= x <= b.Last()
  {
    MaskSame(b.first, x, b.exp);
  }

  // A network is the same as its arithmetic description: the first address is a
  // multiple of the size.
  lemma ValidIsDivisible(n: Net)
    ensures n.Valid() <==> n.exp <= 32 && n.first < TWO_32 && n.first % Pow2(n.exp) == 0
  {
    MaskIsSubtractRemainder(n.first, n.exp);
  }

  // Two networks are nested or disjoint: sharing an address makes the smaller
  // one a part of the larger one.
  lemma Nesting(a: Block, b: Block, x: nat)
    requires a.exp <= b.exp && a.Contains(x) && b.Contains(x)
    ensures b.Contains(a.first) && b.Contains(a.Last())
    ensures forall y: nat :: a.Contains(y) ==> b.Contains(y)
  {
    forall y: nat | a.Contains(y)
      ensures b.Contains(y)
    {
      MaskMask(x, a.exp, b.exp);
      MaskMask(y, a.exp, b.exp);
    }
    ContainsIsInterval(a, a.first);
    ContainsIsInterval(a, a.Last());
  }

  // The code's test is exact: two networks overlap iff they share an address.
  lemma OverlapIsShare(a: Block, b: Block)
    ensures Overlap(a, b) <==> Share(a, b)
  {
    ContainsIsInterval(a, a.first);
    ContainsIsInterval(b, b.first);
    if Share(a, b) {
      var x: nat :| a.Contains(x) && b.Contains(x);
      if a.exp <= b.exp { Nesting(a, b, x); } else { Nesting(b, a, x); }
    }
    if a.Contains(b.first) {
      assert b.Contains(b.first);
    } else if b.Contains(a.first) {
      assert a.Contains(a.first);
    }
  }

  // Two networks of the same size that share an address are the same network.
  lemma SameSizeSameNet(a: Block, b: Block, x: nat)
    requires a.exp == b.exp && a.Contains(x) && b.Contains(x)
    ensures a == b
  {
  }
}
