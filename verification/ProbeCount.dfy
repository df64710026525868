/**
 The bound on the number of probes is reached: for every k there are k allocated
 blocks for which the search asks 2k + 1 times.
 */
module ProbeCount {
  import opened Wrappers
  import opened Bits
  import opened Cidr
  import opened Search

  const BASE: nat := 0x8000_0000

  // 128.0.0.0/1
  function UpperHalf(): Block
  {
    MaskIsSubtractRemainder(0x8000_0000, 31);
    Pow2Is32();
    Net(0x8000_0000, 31)
  }

  // Single addresses, each at the start of a block of two addresses
  function EvenAddresses(k: nat): (blocks: seq<Block>)
    requires 2 * k <= BASE
    ensures |blocks| == k
    ensures forall i | 0 <= i < k :: blocks[i] == Net(BASE + 2 * i, 0)
  {
    if k == 0 then [] else EvenAddresses(k - 1) + [Net(BASE + 2 * (k - 1), 0)]
  }

  lemma PairOf(ip: Word32)
    ensures NetworkOf(ip, 1) == Net(ip - ip % 2, 1) && NetworkOf(ip, 1).Last() == ip - ip % 2 + 1
  {
    assert Mask(ip, 1) == 2 * Mask(ip / 2, 0);
    assert Pow2(1) == 2 * Pow2(0);
  }

  lemma InUpperHalf(ip: Word32)
    requires BASE <= ip
    ensures InRange(UpperHalf(), ip, 1)
  {
    Pow2Is32();
    PairOf(ip);
    ContainsIsInterval(UpperHalf(), ip);
    ContainsIsInterval(UpperHalf(), ip - ip % 2 + 1);
  }

  // The first block in the way is the one in the same pair of addresses.
  lemma ConflictIsPair(k: nat, i: nat, ip: Word32)
    requires 2 * k <= BASE && i < k && BASE + 2 * i <= ip <= BASE + 2 * i + 1
    ensures FirstConflict(EvenAddresses(k), ip, NetworkOf(ip, 1)) == Some(ip)
  {
    var blocks := EvenAddresses(k);
    var cand := NetworkOf(ip, 1);
    PairOf(ip);
    forall b <- blocks
      ensures b.Contains(ip) ==> b.Last() == ip
      ensures cand.Contains(b.first) && !b.Contains(ip) ==> cand.Last() == ip
    {
      OnlyEven(k, b, ip);
    }
    SomeConflict(blocks, i, ip);
    ConflictCause(blocks, ip, cand);
  }

  lemma SomeConflict(blocks: seq<Block>, i: nat, ip: Word32)
    requires i < |blocks| && blocks[i].first == ip - ip % 2
    ensures FirstConflict(blocks, ip, NetworkOf(ip, 1)).Some?
  {
    PairOf(ip);
    ConflictCause(blocks, ip, NetworkOf(ip, 1));
    ContainsIsInterval(NetworkOf(ip, 1), blocks[i].first);
    assert blocks[i] in blocks;
  }

  lemma OnlyEven(k: nat, b: Block, ip: Word32)
    requires 2 * k <= BASE && b in EvenAddresses(k)
    ensures b.Contains(ip) <==> b.first == ip
    ensures b.Last() == b.first && b.first % 2 == 0
    ensures NetworkOf(ip, 1).Contains(b.first) <==> b.first == ip - ip % 2
  {
    PairOf(ip);
    ContainsIsInterval(NetworkOf(ip, 1), b.first);
  }

  // Each of the blocks refuses twice: at its own address, and at the address after
  // it, which has its block of two addresses in common with it.
  lemma RefusedTwice(k: nat, i: nat)
    requires 2 * k <= BASE && i < k
    ensures var blocks := EvenAddresses(k);
            && ProbeAt(UpperHalf(), blocks, 1, BASE + 2 * i) == Refused(BASE + 2 * i)
            && ProbeAt(UpperHalf(), blocks, 1, BASE + 2 * i + 1) == Refused(BASE + 2 * i + 1)
  {
    RefusedAt(k, i, BASE + 2 * i);
    RefusedAt(k, i, BASE + 2 * i + 1);
  }

  lemma RefusedAt(k: nat, i: nat, ip: Word32)
    requires 2 * k <= BASE && i < k && BASE + 2 * i <= ip <= BASE + 2 * i + 1
    ensures ProbeAt(UpperHalf(), EvenAddresses(k), 1, ip) == Refused(ip)
  {
    InUpperHalf(ip);
    ConflictIsPair(k, i, ip);
  }

  lemma TwoRefusals(net: Block, blocks: seq<Block>, ip: Word32, left: nat)
    requires 0 < ip < TWO_32 - 2
    requires ProbeAt(net, blocks, 1, ip) == Refused(ip) && ProbeAt(net, blocks, 1, ip + 1) == Refused(ip + 1)
    ensures SearchFrom(net, blocks, 1, ip, left + 2) == SearchFrom(net, blocks, 1, ip + 2, left)
  {
    RefusalStep(net, blocks, 1, ip, ip, left + 1);
    RefusalStep(net, blocks, 1, ip + 1, ip + 1, left);
  }

  lemma {:induction false} SearchFromSlot(k: nat, i: nat)
    requires 2 * k < BASE && i <= k
    ensures var blocks := EvenAddresses(k);
            && SearchFrom(UpperHalf(), blocks, 1, BASE + 2 * i, 2 * (k - i)).Probing?
            && SearchFrom(UpperHalf(), blocks, 1, BASE + 2 * i, 2 * (k - i) + 1) == Found(BASE + 2 * k)
    decreases k - i
  {
    var net, blocks := UpperHalf(), EvenAddresses(k);
    if i == k {
      InUpperHalf(BASE + 2 * k);
      NotRefused(k);
    } else {
      RefusedTwice(k, i);
      SearchFromSlot(k, i + 1);
      var left := 2 * (k - i - 1);
      TwoRefusals(net, blocks, BASE + 2 * i, left);
      TwoRefusals(net, blocks, BASE + 2 * i, left + 1);
    }
  }

  lemma NotRefused(k: nat)
    requires 2 * k < BASE
    ensures ProbeAt(UpperHalf(), EvenAddresses(k), 1, BASE + 2 * k) == Granted
  {
    var blocks := EvenAddresses(k);
    var ip := BASE + 2 * k;
    InUpperHalf(ip);
    ConflictCause(blocks, ip, NetworkOf(ip, 1));
    forall b <- blocks
      ensures !b.Contains(ip) && !NetworkOf(ip, 1).Contains(b.first)
    {
      OnlyEven(k, b, ip);
    }
  }

  // With k blocks, 2k probes need not be enough, while 2k + 1 always are unless the
  // search never ends.
  lemma ProbeBoundIsReached(k: nat)
    requires 2 * k < BASE
    ensures var net, blocks := UpperHalf(), EvenAddresses(k);
            && |blocks| == k
            && SearchFrom(net, blocks, 1, net.first, 2 * k).Probing?
            && SearchFrom(net, blocks, 1, net.first, 2 * k + 1) == Found(BASE + 2 * k)
  {
    SearchFromSlot(k, 0);
  }
}
