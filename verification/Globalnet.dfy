/**
 Validation and overlap checks on the Globalnet configuration: the data a
 joining cluster reads from the broker, the cluster size rules, and the test
 that a CIDR chosen by the user collides with no other cluster.
 */
module Globalnet {
  import opened Wrappers
  import opened Bits
  import opened Cidr

  datatype GlobalNetwork = GlobalNetwork(cidrs: seq<CidrText>, clusterId: string)

  // What is read from the broker's config map
  datatype GlobalnetInfo = GlobalnetInfo(
    enabled: bool,
    range: CidrText,
    clusterSize: Word64,
    networks: map<string, GlobalNetwork>)

  // The part of a joining cluster's configuration that matters for Globalnet
  datatype Config = Config(clusterId: string, cidr: CidrText, clusterSize: Word64)

  // ---------- Cluster sizes ----------

  // The exponent of the block size for a requested number of addresses, computed
  // from leading zeros with the wrap-around of numSize - 1.
  function BlockExp(numSize: Word64): nat
  {
    LeadingZeros(0) - LeadingZeros(if numSize == 0 then TWO_64 - 1 else numSize - 1)
  }

  // GetValidClusterSize; None for an error
  function ValidClusterSize(range: CidrText, size: Word64): Option<nat>
  {
    match ParseNet(range)
    case None => None
    case Some(net) =>
      var rounded := RoundUp(size % 0x1_0000_0000);
      if rounded > Pow2(net.exp) / 2 then None else Some(rounded)
  }

  // What GetValidClusterSize should answer, the size being cut to 32 bits: an error
  // if the range does not parse or a block of the size is more than half of it, the
  // least power of two that is large enough otherwise, and 0 where there is none in
  // 32 bits.
  ghost predicate RightClusterSize(range: CidrText, size: Word64, r: Option<nat>)
  {
    var word := size % 0x1_0000_0000;
    if ParseNet(range).None? then r == None
    else if 1 <= word <= 0x8000_0000 then
      && (r.Some? <==> 2 * word <= Pow2(ParseNet(range).value.exp))
      && (r.Some? ==> IsLeastPow2(r.value, word))
    else r == Some(0)
  }

  method GetValidClusterSize(range: CidrText, clusterSize: Word64) returns (r: Option<nat>)
    ensures r == ValidClusterSize(range, clusterSize)
    ensures RightClusterSize(range, clusterSize, r)
  {
    ValidClusterSizeExact(range, clusterSize);
    var parsed := ParseNet(range);
    if parsed.None? {
      return None;
    }
    var availableSize := Pow2(parsed.value.exp);
    var rounded := NextPowerOf2(clusterSize % 0x1_0000_0000);
    if rounded > availableSize / 2 {
      return None;
    }
    return Some(rounded);
  }

  lemma ValidClusterSizeExact(range: CidrText, size: Word64)
    ensures RightClusterSize(range, size, ValidClusterSize(range, size))
  {
    var word: Word32 := size % 0x1_0000_0000;
    if ParseNet(range).Some? && 1 <= word <= 0x8000_0000 {
      RoundUpIsLeast(word);
      AtMostHalf(word, RoundUp(word), ParseNet(range).value.exp);
    }
  }

  // A number is at most half of a power of two iff its rounded value is.
  lemma AtMostHalf(n: nat, p: nat, exp: nat)
    requires n >= 1 && IsLeastPow2(p, n)
    ensures p <= Pow2(exp) / 2 <==> 2 * n <= Pow2(exp)
  {
    if exp > 0 { assert Pow2(exp) / 2 == Pow2(exp - 1); }
  }

  // 2^exp is the least power of two that is no smaller than the number of addresses.
  ghost predicate IsBlockSize(size: nat, exp: nat)
  {
    1 <= size <= Pow2(exp) && forall k: nat :: size <= Pow2(k) ==> exp <= k
  }

  // A size and its rounded value have the same block size.
  lemma RoundedBlockSize(size: nat, rounded: nat, exp: nat)
    requires size > 0 && IsLeastPow2(rounded, size)
    ensures IsBlockSize(size, exp) <==> IsBlockSize(rounded, exp)
  {
    forall k: nat
      ensures size <= Pow2(k) <==> rounded <= Pow2(k)
    {
    }
  }

  // The leading zeros give the block size of every size but 0, which has none.
  lemma BlockExpExact(size: Word64, exp: nat)
    ensures size > 0 ==> (IsBlockSize(size, exp) <==> exp == BlockExp(size))
    ensures size == 0 ==> BlockExp(size) == 64
  {
    if size > 0 {
      var e := BlockExp(size);
      assert e == BitLen(size - 1);
      forall k: nat
        ensures size <= Pow2(k) <==> e <= k
      {
        BitLenAtMost(size - 1, k);
      }
      assert size <= Pow2(e) && (size <= Pow2(exp) <==> e <= exp);
    } else {
      MaxWord();
    }
  }

  lemma MaxWord()
    ensures BitLen(TWO_64 - 1) == 64
  {
    Pow2Is32();
    Pow2Add(32, 32);
    BitLenAtMost(TWO_64 - 1, 64);
    BitLenAtMost(TWO_64 - 1, 63);
  }

  // A nonzero power of two is its own block size.
  lemma {:induction false} BlockExpOfPow2(e: nat)
    requires e < 64 && Pow2(e) < TWO_64
    ensures BlockExp(Pow2(e)) == e
  {
    BitLenAtMost(Pow2(e) - 1, e);
    if e > 0 { BitLenAtMost(Pow2(e) - 1, e - 1); }
  }

  // Rounding up gives the block size the allocator derives from the size itself
  // and from the rounded size.
  lemma RoundUpIsBlockSize(size: Word32)
    requires RoundUp(size) != 0
    ensures BlockExp(size) <= 31 && RoundUp(size) == Pow2(BlockExp(size))
    ensures RoundUp(size) < TWO_64 && BlockExp(RoundUp(size)) == BlockExp(size)
  {
    Pow2Is32();
    RoundUpIsLeast(size);
    BitLenAtMost(size - 1, 31);
    BlockExpOfPow2(BlockExp(size));
  }

  // A size that does not fit in 32 bits has a block size of more than 2^31.
  lemma LargeSize(size: Word64)
    requires size >= TWO_32
    ensures Pow2(BlockExp(size)) > 0x8000_0000
  {
    Pow2Is32();
    BitLenAtMost(size - 1, 31);
    Pow2Monotone(32, BlockExp(size));
  }

  // An accepted size is the block size the allocator derives from the size as
  // given iff the given size fits in 32 bits; it is always the block size derived
  // from the rounded size, and two such blocks fit in the range.
  lemma ValidSizeIsBlockSize(range: CidrText, size: Word64)
    requires ValidClusterSize(range, size).Some? && ValidClusterSize(range, size).value != 0
    ensures var rounded := ValidClusterSize(range, size).value;
            && rounded < TWO_64
            && rounded == Pow2(BlockExp(rounded))
            && 2 * rounded <= Pow2(ParseNet(range).value.exp)
            && BlockExp(rounded) < ParseNet(range).value.exp
            && (rounded == Pow2(BlockExp(size)) <==> size < TWO_32)
  {
    var word: Word32 := size % 0x1_0000_0000;
    RoundUpIsBlockSize(word);
    GivenSize(size, word);
    FitsTwice(BlockExp(word), ParseNet(range).value.exp);
  }

  lemma FitsTwice(e: nat, exp: nat)
    requires Pow2(e) <= Pow2(exp) / 2
    ensures e < exp && 2 * Pow2(e) <= Pow2(exp)
  {
    if exp <= e { Pow2Monotone(exp, e); }
  }

  // The size as given has the same block size as the size cut to 32 bits iff nothing
  // is cut off.
  lemma GivenSize(size: Word64, word: Word32)
    requires word == size % 0x1_0000_0000 && RoundUp(word) != 0
    ensures RoundUp(word) == Pow2(BlockExp(size)) <==> size < TWO_32
  {
    if size < TWO_32 {
      RoundUpIsBlockSize(word);
    } else {
      LargeSize(size);
      RoundUpIsLeast(word);
    }
  }

  // ---------- Overlap with other clusters ----------

  // isOverlappingCIDR after the new CIDR has been parsed: the first listed CIDR
  // that overlaps or cannot be parsed decides; None for the parse error.
  function OverlapScan(cidrs: seq<CidrText>, block: Block): Option<bool>
  {
    if cidrs == [] then Some(false)
    else match ParseNet(cidrs[0])
      case None => None
      case Some(base) => if Overlap(base, block) then Some(true) else OverlapScan(cidrs[1..], block)
  }

  method IsOverlappingCidr(cidrList: seq<CidrText>, cidr: CidrText) returns (r: Option<bool>)
    ensures r == if ParseNet(cidr).None? then None else OverlapScan(cidrList, ParseNet(cidr).value)
  {
    var parsed := ParseNet(cidr);
    if parsed.None? {
      return None;
    }
    for i := 0 to |cidrList|
      invariant OverlapScan(cidrList, parsed.value) == OverlapScan(cidrList[i..], parsed.value)
    {
      assert cidrList[i..][1..] == cidrList[i + 1..];
      var base := ParseNet(cidrList[i]);
      if base.None? {
        return None;
      }
      if base.value.Contains(parsed.value.first) || parsed.value.Contains(base.value.first) {
        return Some(true);
      }
    }
    return Some(false);
  }

  // The CIDR parses and shares an address with the block.
  ghost predicate Clashes(t: CidrText, block: Block)
  {
    ParseNet(t).Some? && Share(ParseNet(t).value, block)
  }

  // The CIDR at i shares an address with the block, and all up to it parse.
  ghost predicate ClashesAt(cidrs: seq<CidrText>, i: nat, block: Block)
    requires i < |cidrs|
  {
    (forall j | 0 <= j <= i :: WellFormed(cidrs[j])) && Clashes(cidrs[i], block)
  }

  // The test reports an overlap iff a listed CIDR that parses, with none before
  // it that does not, shares an address with the new one; it is an error iff some
  // CIDR does not parse and no CIDR before it shares an address.
  lemma {:induction false} OverlapScanExact(cidrs: seq<CidrText>, block: Block)
    ensures OverlapScan(cidrs, block) == Some(true) <==> exists i | 0 <= i < |cidrs| :: ClashesAt(cidrs, i, block)
    ensures OverlapScan(cidrs, block) == Some(false) <==>
            forall t <- cidrs :: WellFormed(t) && !Clashes(t, block)
  {
    if cidrs != [] && WellFormed(cidrs[0]) {
      OverlapIsShare(ParseNet(cidrs[0]).value, block);
      if Overlap(ParseNet(cidrs[0]).value, block) {
        assert ClashesAt(cidrs, 0, block);
      } else {
        OverlapScanExact(cidrs[1..], block);
        forall i | 0 < i < |cidrs|
          ensures ClashesAt(cidrs, i, block) <==> ClashesAt(cidrs[1..], i - 1, block)
        {
          ClashesShift(cidrs, i, block);
        }
        assert forall i | 0 <= i < |cidrs[1..]| :: ClashesAt(cidrs[1..], i, block) ==> ClashesAt(cidrs, i + 1, block);
      }
    }
  }

  lemma ClashesShift(cidrs: seq<CidrText>, i: nat, block: Block)
    requires 0 < i < |cidrs| && WellFormed(cidrs[0])
    ensures ClashesAt(cidrs, i, block) <==> ClashesAt(cidrs[1..], i - 1, block)
  {
    var rest := cidrs[1..];
    if forall j | 0 <= j <= i :: WellFormed(cidrs[j]) {
      assert forall j | 0 <= j <= i - 1 :: rest[j] == cidrs[j + 1];
    }
    if forall j | 0 <= j <= i - 1 :: WellFormed(rest[j]) {
      assert forall j | 0 < j <= i :: cidrs[j] == rest[j - 1];
    }
  }

  // A cluster's entry does not stand in the way: its CIDRs can be compared, and
  // an overlap counts only when the entry belongs to another cluster.
  predicate EntryAllows(networks: map<string, GlobalNetwork>, key: string, config: Config)
    requires key in networks
  {
    && ParseNet(config.cidr).Some?
    && var scan := OverlapScan(networks[key].cidrs, ParseNet(config.cidr).value);
       scan.Some? && (scan.value ==> key == config.clusterId)
  }

  // CheckOverlappingCidrs without the iteration order
  ghost predicate NoOverlap(networks: map<string, GlobalNetwork>, config: Config)
  {
    forall key <- networks :: EntryAllows(networks, key, config)
  }

  // The answer does not depend on the order in which the map is visited.
  method CheckOverlappingCidrs(networks: map<string, GlobalNetwork>, config: Config) returns (ok: bool)
    ensures ok <==> NoOverlap(networks, config)
    ensures ok <==> Compatible(networks, config)
  {
    NoOverlapIffCompatible(networks, config);
    var rest := networks.Keys;
    while rest != {}
      invariant rest <= networks.Keys
      invariant forall key <- networks.Keys - rest :: EntryAllows(networks, key, config)
      decreases rest
    {
      var key :| key in rest;
      var overlap := IsOverlappingCidr(networks[key].cidrs, config.cidr);
      if overlap.None? || (overlap.value && key != config.clusterId) {
        return false;
      }
      rest := rest - {key};
    }
    return true;
  }

  ghost predicate AllWellFormed(networks: map<string, GlobalNetwork>)
  {
    forall key <- networks, t <- networks[key].cidrs :: WellFormed(t)
  }

  // The block is one that the registry records, under whatever cluster.
  ghost predicate Records(networks: map<string, GlobalNetwork>, b: Block)
  {
    exists key <- networks, t <- networks[key].cidrs :: ParseNet(t) == Some(b)
  }

  // The scan ends before it meets a CIDR that does not parse.
  ghost predicate Comparable(cidrs: seq<CidrText>, block: Block)
  {
    (forall t <- cidrs :: WellFormed(t)) || exists i | 0 <= i < |cidrs| :: ClashesAt(cidrs, i, block)
  }

  // What every entry asks of a choice: that it parses, that it shares no address
  // with another cluster's CIDRs, all of which parse, and that the cluster's own can
  // be compared with it.
  ghost predicate Compatible(networks: map<string, GlobalNetwork>, config: Config)
  {
    forall key <- networks ::
      && WellFormed(config.cidr)
      && var block := ParseNet(config.cidr).value;
         if key == config.clusterId then Comparable(networks[key].cidrs, block)
         else forall t <- networks[key].cidrs :: WellFormed(t) && !Clashes(t, block)
  }

  lemma NoOverlapIffCompatible(networks: map<string, GlobalNetwork>, config: Config)
    ensures NoOverlap(networks, config) <==> Compatible(networks, config)
  {
    forall key <- networks | WellFormed(config.cidr)
      ensures var block := ParseNet(config.cidr).value;
              EntryAllows(networks, key, config) <==>
              if key == config.clusterId then Comparable(networks[key].cidrs, block)
              else forall t <- networks[key].cidrs :: WellFormed(t) && !Clashes(t, block)
    {
      var block := ParseNet(config.cidr).value;
      OverlapScanExact(networks[key].cidrs, block);
      ScanIffComparable(networks[key].cidrs, block);
    }
  }

  lemma ScanIffComparable(cidrs: seq<CidrText>, block: Block)
    ensures OverlapScan(cidrs, block).Some? <==> Comparable(cidrs, block)
  {
    OverlapScanExact(cidrs, block);
    if forall t <- cidrs :: WellFormed(t) { ScanParses(cidrs, block); }
    var scan := OverlapScan(cidrs, block);
    assert scan.Some? ==> scan == Some(scan.value) && (scan.value || !scan.value);
  }

  // On a registry of well-formed CIDRs, a well-formed choice is accepted iff it
  // shares no address with a block of another cluster; the cluster's own entry
  // never causes a rejection.
  lemma NoOverlapExact(networks: map<string, GlobalNetwork>, config: Config)
    requires AllWellFormed(networks) && WellFormed(config.cidr)
    ensures NoOverlap(networks, config) <==>
            forall key <- networks, t <- networks[key].cidrs ::
              key != config.clusterId ==> !Clashes(t, ParseNet(config.cidr).value)
  {
    var block := ParseNet(config.cidr).value;
    forall key <- networks
      ensures EntryAllows(networks, key, config) <==>
              forall t <- networks[key].cidrs :: key != config.clusterId ==> !Clashes(t, block)
    {
      OverlapScanExact(networks[key].cidrs, block);
      assert forall t <- networks[key].cidrs :: WellFormed(t);
      assert OverlapScan(networks[key].cidrs, block) != None by {
        ScanParses(networks[key].cidrs, block);
      }
    }
  }

  lemma {:induction false} ScanParses(cidrs: seq<CidrText>, block: Block)
    requires forall t <- cidrs :: WellFormed(t)
    ensures OverlapScan(cidrs, block).Some?
  {
    if cidrs != [] {
      assert WellFormed(cidrs[0]);
      ScanParses(cidrs[1..], block);
    }
  }

  // ---------- Validation of a request ----------

  // ValidateGlobalnetConfiguration: the CIDR to go on with (None for an error),
  // and the cluster size it leaves in the information read from the broker.
  function Validate(info: GlobalnetInfo, config: Config): (Option<CidrText>, Word64)
  {
    var resize := info.enabled && config.clusterSize != 0 && config.clusterSize != info.clusterSize;
    var valid := ValidClusterSize(info.range, config.clusterSize);
    if resize && (valid.None? || valid.value == 0) then (None, info.clusterSize)
    else
      assert resize ==> valid.value < TWO_64 by { if resize { ValidSizeIsBlockSize(info.range, config.clusterSize); } }
      var size := if resize then valid.value else info.clusterSize;
      if config.cidr != NoText && config.clusterSize != 0 then (None, size)
      else if config.cidr != NoText && ParseNet(config.cidr).None? then (None, size)
      else if info.enabled then (Some(config.cidr), size)
      else if config.cidr != NoText then (Some(NoText), size)
      else if config.clusterSize != 0 then (Some(NoText), 0)
      else (Some(NoText), size)
  }

  // The request asks for a size of its own, other than the broker's.
  predicate Resizes(enabled: bool, stored: Word64, config: Config)
  {
    enabled && config.clusterSize != 0 && config.clusterSize != stored
  }

  // Two blocks of the requested size, cut to 32 bits, fit in the range.
  ghost predicate SizeFits(range: CidrText, size: Word64)
  {
    ParseNet(range).Some? && 2 <= 2 * (size % 0x1_0000_0000) <= Pow2(ParseNet(range).value.exp)
  }

  // What is asked of a request: a size that fits, and a CIDR that parses and comes
  // without a size.
  ghost predicate Acceptable(enabled: bool, range: CidrText, stored: Word64, config: Config)
  {
    && (Resizes(enabled, stored, config) ==> SizeFits(range, config.clusterSize))
    && (config.cidr == NoText || (config.clusterSize == 0 && WellFormed(config.cidr)))
  }

  // What validation should answer and leave as the cluster size: an error iff the
  // request is not acceptable; the CIDR as it is, or none if Globalnet is disabled;
  // the size rounded up if the request has one of its own, 0 for a size that is
  // ignored, and the broker's size otherwise.
  ghost predicate RightValidation(info: GlobalnetInfo, config: Config, cidr: Option<CidrText>, size: Word64)
  {
    && (cidr.Some? <==> Acceptable(info.enabled, info.range, info.clusterSize, config))
    && (cidr.Some? ==> cidr.value == if info.enabled then config.cidr else NoText)
    && if Resizes(info.enabled, info.clusterSize, config) && SizeFits(info.range, config.clusterSize) then
         IsLeastPow2(size, config.clusterSize % 0x1_0000_0000)
       else
         size == if !info.enabled && config.clusterSize != 0 && config.cidr == NoText then 0 else info.clusterSize
  }

  lemma ValidateExact(info: GlobalnetInfo, config: Config)
    ensures RightValidation(info, config, Validate(info, config).0, Validate(info, config).1)
  {
    AcceptedIffFits(info.range, config.clusterSize);
  }

  lemma AcceptedIffFits(range: CidrText, size: Word64)
    ensures var r := ValidClusterSize(range, size);
            && (r.Some? && r.value != 0 <==> SizeFits(range, size))
            && (SizeFits(range, size) ==> IsLeastPow2(r.value, size % 0x1_0000_0000))
  {
    Pow2Is32();
    ValidClusterSizeExact(range, size);
    if ParseNet(range).Some? { Pow2Monotone(ParseNet(range).value.exp, 32); }
  }

  // isCIDRPreConfigured
  predicate PreConfigured(clusterId: string, networks: map<string, GlobalNetwork>)
  {
    clusterId in networks && networks[clusterId].cidrs != []
  }
}
