/**
 The allocator that owns the list of allocated blocks: a request for one block,
 the search for the next block of a size, and the allocation for a cluster that
 first lists every block recorded in the registry.
 */
module Allocator {
  import opened Wrappers
  import opened Bits
  import opened Cidr
  import opened Search
  import opened Globalnet
  import opened AllocationTheory

  datatype Answer = Yes | No | NotYet

  // After this number of requests, the latest of them for ip, a search with a budget
  // of at least that number has this answer.
  ghost predicate Answered(net: Block, blocks: seq<Block>, exp: nat, budget: nat, probes: nat, ip: Word32, last: Word32, ok: bool)
    requires exp <= 32
  {
    probes <= budget ==>
      SearchFrom(net, blocks, exp, net.first, budget)
      == if ok then Found(ip)
         else if last == 0 then NoSpace
         else SearchFrom(net, blocks, exp, UintToIP(last as nat + 1), budget - probes)
  }

  ghost predicate AnsweredForAll(net: Block, blocks: seq<Block>, exp: nat, probes: nat, ip: Word32, last: Word32, ok: bool)
    requires exp <= 32
  {
    forall budget: nat :: Answered(net, blocks, exp, budget, probes, ip, last, ok)
  }

  lemma FirstAnswer(net: Block, blocks: seq<Block>, exp: nat, last: Word32, ok: bool)
    requires exp <= 32
    requires ProbeAt(net, blocks, exp, net.first) == if ok then Granted else Refused(last)
    ensures AnsweredForAll(net, blocks, exp, 1, net.first, last, ok)
  {
  }

  lemma NextAnswer(net: Block, blocks: seq<Block>, exp: nat, probes: nat, ip: Word32, skipped: Word32, last: Word32, ok: bool)
    requires exp <= 32 && skipped != 0
    requires AnsweredForAll(net, blocks, exp, probes, ip, skipped, false)
    requires ProbeAt(net, blocks, exp, UintToIP(skipped as nat + 1)) == if ok then Granted else Refused(last)
    ensures AnsweredForAll(net, blocks, exp, probes + 1, UintToIP(skipped as nat + 1), last, ok)
  {
    var more, next := probes + 1, UintToIP(skipped as nat + 1);
    forall budget: nat
      ensures Answered(net, blocks, exp, budget, more, next, last, ok)
    {
      assert Answered(net, blocks, exp, budget, probes, ip, skipped, false);
    }
  }

  // The search is undecided after this number of requests, ...
  ghost predicate Undecided(net: Block, blocks: seq<Block>, exp: nat, probes: nat)
    requires exp <= 32
  {
    SearchFrom(net, blocks, exp, net.first, probes).Probing?
  }

  // ... which is the least number that decides it.
  ghost predicate DecidedBy(net: Block, blocks: seq<Block>, exp: nat, probes: nat)
    requires exp <= 32
  {
    probes > 0 && Undecided(net, blocks, exp, probes - 1) && !Undecided(net, blocks, exp, probes)
  }

  class GlobalCidr {
    var cidr: CidrText
    var net: Block
    var allocatedClusters: seq<Block>
    var allocatedCount: nat
    // the number of requests made so far
    ghost var requests: nat

    predicate Valid()
      reads this
    {
      allocatedCount == |allocatedClusters|
    }

    constructor ()
      ensures Valid()
    {
      cidr, net, allocatedClusters, allocatedCount := NoText, NetworkOf(0, 0), [], 0;
      requests := 0;
    }

    /** Asks for one block. When it is refused, last is the address after which a
        search may go on, or 0 if there is none. */
    method AllocateByCidr(text: CidrText) returns (last: Word32, ok: bool)
      requires Valid()
      modifies this
      ensures Valid() && cidr == old(cidr) && net == old(net) && requests == old(requests) + 1
      ensures ParseNet(text).None? ==> !ok && last == 0
      ensures ParseNet(text).Some? ==>
                ProbeAt(net, old(allocatedClusters), 32 - text.prefix, text.ip) == if ok then Granted else Refused(last)
      ensures ok ==> last == 0 && allocatedClusters == old(allocatedClusters) + [ParseNet(text).value]
      ensures !ok ==> allocatedClusters == old(allocatedClusters)
    {
      requests := requests + 1;
      var parsed := ParseNet(text);
      if parsed.None? || !net.Contains(text.ip) {
        return 0, false;
      }
      var clusterCidr := parsed.value;
      BlockBounds(clusterCidr);
      if !net.Contains(UintToIP(clusterCidr.Last())) {
        return 0, false;
      }
      var i := 0;
      while i < allocatedCount
        invariant i <= allocatedCount
        invariant FirstConflict(allocatedClusters, text.ip, clusterCidr)
                  == FirstConflict(allocatedClusters[i..], text.ip, clusterCidr)
      {
        var taken := allocatedClusters[i];
        assert allocatedClusters[i..][1..] == allocatedClusters[i + 1..];
        if taken.Contains(text.ip) {
          BlockBounds(taken);
          return taken.Last(), false;
        }
        if clusterCidr.Contains(taken.first) {
          return clusterCidr.Last(), false;
        }
        i := i + 1;
      }
      allocatedClusters := allocatedClusters + [clusterCidr];
      allocatedCount := allocatedCount + 1;
      return 0, true;
    }

    /** Searches for a block of the given number of addresses, one request after
        the other, watching at most budget requests. Endless stands for a search
        that has not returned by then. The requests made are no more than it takes
        to decide. */
    method AllocateByClusterSize(numSize: Word64, budget: nat) returns (result: Allocation, probes: nat)
      requires Valid() && budget > 0
      modifies this
      ensures Valid() && cidr == old(cidr) && net == old(net)
      ensures probes == requests - old(requests)
      ensures result == AllocateWithin(net, old(allocatedClusters), numSize, budget)
      ensures if BlockExp(numSize) > 32 then probes == 1
              else if result == Endless then probes == budget
              else probes <= budget && DecidedBy(net, old(allocatedClusters), BlockExp(numSize), probes)
      ensures result.Allocated? ==> WellFormed(result.cidr)
                                    && allocatedClusters == old(allocatedClusters) + [ParseNet(result.cidr).value]
      ensures !result.Allocated? ==> allocatedClusters == old(allocatedClusters)
    {
      var bitSize := BlockExp(numSize);
      var clusterPrefix := 32 - bitSize as int;
      // the prefix length is printed as it is, and does not parse when it is negative
      if clusterPrefix < 0 {
        var _, _ := AllocateByCidr(BadText("negative prefix"));
        return Unavailable, 1;
      }
      var found, ip;
      found, ip, probes := FindBlock(bitSize, budget);
      match found {
        case Yes => return Allocated(Text(ip, clusterPrefix)), probes;
        case No => return Unavailable, probes;
        case NotYet => return Endless, probes;
      }
    }

    // The search itself, for a block size that has a prefix length
    method FindBlock(exp: nat, budget: nat) returns (found: Answer, ip: Word32, probes: nat)
      requires Valid() && budget > 0 && exp <= 32
      modifies this
      ensures Valid() && cidr == old(cidr) && net == old(net) && probes == requests - old(requests)
      ensures if found == NotYet then probes == budget
              else probes <= budget && DecidedBy(net, old(allocatedClusters), exp, probes)
      ensures match SearchFrom(net, old(allocatedClusters), exp, net.first, budget)
              case Found(at) => found == Yes && ip == at
              case NoSpace => found == No
              case Probing(_) => found == NotYet
      ensures allocatedClusters
              == if found == Yes then old(allocatedClusters) + [NetworkOf(ip, exp)] else old(allocatedClusters)
    {
      ghost var range, blocks := net, allocatedClusters;
      ip := net.first;
      var last, ok := AllocateByCidr(Text(ip, 32 - exp));
      probes := 1;
      FirstAnswer(range, blocks, exp, last, ok);
      assert Answered(range, blocks, exp, 1, 1, ip, last, ok) && Answered(range, blocks, exp, budget, 1, ip, last, ok);
      if !ok && last == 0 {
        return No, ip, probes;
      }
      while !ok
        invariant Valid() && cidr == old(cidr) && net == range
        invariant 1 <= probes <= budget && probes == requests - old(requests)
        invariant ok || last != 0
        invariant Answered(range, blocks, exp, budget, probes, ip, last, ok)
        invariant AnsweredForAll(range, blocks, exp, probes, ip, last, ok)
        invariant ok ==> DecidedBy(range, blocks, exp, probes)
        invariant allocatedClusters == if ok then blocks + [NetworkOf(ip, exp)] else blocks
        decreases budget - probes, !ok
      {
        if probes == budget {
          return NotYet, ip, probes;
        }
        assert Answered(range, blocks, exp, probes, probes, ip, last, ok);
        ghost var skipped, was := last, ip;
        ip := UintToIP(last as nat + 1);
        last, ok := AllocateByCidr(Text(ip, 32 - exp));
        NextAnswer(range, blocks, exp, probes, was, skipped, last, ok);
        probes := probes + 1;
        assert Answered(range, blocks, exp, probes, probes, ip, last, ok);
        assert Answered(range, blocks, exp, budget, probes, ip, last, ok);
        if !ok && last == 0 {
          return No, ip, probes;
        }
      }
      return Yes, ip, probes;
    }

    /** Allocates a block for a cluster: starts over with an empty list, lists the
        blocks of the registry in whatever order the map yields them, and searches. */
    method AllocateGlobalCidr(info: GlobalnetInfo) returns (result: Allocation)
      requires Valid()
      modifies this
      ensures Valid()
      ensures MayAllocate(info, result)
      ensures RegularRequest(info) ==> RightAllocation(info, result)
    {
      cidr, allocatedClusters, allocatedCount := info.range, [], 0;
      var parsed := ParseNet(cidr);
      if parsed.None? {
        AllocationIsRight(info, Unavailable);
        return Unavailable;
      }
      net := parsed.value;
      var rest := info.networks.Keys;
      ghost var done: map<string, GlobalNetwork> := map[];
      while rest != {}
        invariant Valid() && net == parsed.value && cidr == info.range
        invariant rest <= info.networks.Keys
        invariant done == map k | k in info.networks && k !in rest :: info.networks[k]
        invariant AllWellFormed(done) && Lists(allocatedClusters, done)
        decreases rest
      {
        var key :| key in rest;
        var ok := AddAll(info.networks[key].cidrs);
        if !ok {
          AllocationIsRight(info, Unavailable);
          return Unavailable;
        }
        rest := rest - {key};
        RecordsOneMore(done, key, info.networks[key]);
        done := done[key := info.networks[key]];
      }
      assert done == info.networks;
      ghost var order := allocatedClusters;
      var probes;
      result, probes := AllocateByClusterSize(info.clusterSize, 2 * allocatedCount + 1);
      assert result == Allocate(parsed.value, order, info.clusterSize);
      AllocationIsRight(info, result);
    }

    // Appends the blocks of one registry entry.
    method AddAll(cidrs: seq<CidrText>) returns (ok: bool)
      requires Valid()
      modifies this
      ensures Valid() && cidr == old(cidr) && net == old(net)
      ensures ok <==> forall t <- cidrs :: WellFormed(t)
      ensures ok ==> forall b: Block :: b in allocatedClusters <==>
                       b in old(allocatedClusters) || exists t <- cidrs :: ParseNet(t) == Some(b)
    {
      for i := 0 to |cidrs|
        invariant Valid() && cidr == old(cidr) && net == old(net)
        invariant forall t <- cidrs[..i] :: WellFormed(t)
        invariant forall b: Block :: b in allocatedClusters <==>
                    b in old(allocatedClusters) || exists t <- cidrs[..i] :: ParseNet(t) == Some(b)
      {
        assert cidrs[..i + 1] == cidrs[..i] + [cidrs[i]];
        var parsed := ParseNet(cidrs[i]);
        if parsed.None? {
          assert cidrs[i] in cidrs;
          return false;
        }
        allocatedClusters := allocatedClusters + [parsed.value];
        allocatedCount := allocatedCount + 1;
      }
      assert cidrs[..|cidrs|] == cidrs;
      return true;
    }
  }
}
