/**
 What an attempt of a join should decide on the object it has read, said in terms of
 the request, the range and the recorded blocks, and the proof that it does.
 */
module Choice {
  import opened Wrappers
  import opened Bits
  import opened Cidr
  import opened Search
  import opened FirstFitTheory
  import opened Globalnet
  import opened AllocationTheory
  import opened Registry
  import opened Join
  import opened JoinTheory

  // ---------- What is asked for and what is free ----------

  // The number of addresses: the request's own, cut to 32 bits, or the broker's
  function SizeAskedFor(cell: Cell, config: Config): nat
  {
    if Resizes(cell.enabled, cell.clusterSize, config) then config.clusterSize % 0x1_0000_0000 else cell.clusterSize
  }

  // The block shares no address with a recorded one.
  ghost predicate Unused(clusters: seq<ClusterInfo>, block: Block)
  {
    forall e <- clusters, b: Block | OneBlock(e, b) :: !Share(b, block)
  }

  // A block of the least sufficient size that lies in the range and is not used
  ghost predicate FreeBlock(cell: Cell, config: Config, c: Block)
  {
    && ParseNet(cell.range).Some? && Within(c, ParseNet(cell.range).value)
    && IsBlockSize(SizeAskedFor(cell, config), c.exp) && Unused(cell.clusters, c)
  }

  ghost predicate LowestFreeBlock(cell: Cell, config: Config, c: Block)
  {
    FreeBlock(cell, config, c) && forall d: Block | FreeBlock(cell, config, d) :: c.first <= d.first
  }

  ghost predicate Accepts(cell: Cell, config: Config)
  {
    Acceptable(cell.enabled, cell.range, cell.clusterSize, config)
  }

  ghost predicate HasFreeBlock(cell: Cell, config: Config)
  {
    exists c: Block :: FreeBlock(cell, config, c)
  }

  // A range that does not start at 0.0.0.0, or nothing harmful to a search from there
  // is recorded; for a block larger than the range, the range is not its top end, or
  // the block is used.
  ghost predicate Regular(cell: Cell, config: Config)
  {
    ParseNet(cell.range).Some? ==>
      forall exp: nat | exp <= 32 && IsBlockSize(SizeAskedFor(cell, config), exp) ::
        var net := ParseNet(cell.range).value;
        if exp > net.exp then
          AtTopOf(net, exp) ==> !Unused(cell.clusters, NetworkOf(net.first, exp))
        else
          net.first == 0 ==>
            forall e <- cell.clusters, b: Block | OneBlock(e, b) :: Harmless(net, exp, HasFreeBlock(cell, config), b)
  }

  // ---------- The right decision ----------

  // What an attempt relies on: a sound registry, and a regular request if a block has
  // to be allocated
  ghost predicate CanDecide(cell: Cell, config: Config)
  {
    && SoundRegistry(cell.clusters)
    && (cell.enabled && config.cidr == NoText && !Listed(cell.clusters, config.clusterId) ==> Regular(cell, config))
  }

  // The join in the given phase with this CIDR in its configuration
  function Deciding(j: Joiner, phase: Phase, cidr: CidrText): Joiner
  {
    j.(phase := phase, config := j.config.(cidr := cidr))
  }

  // A cluster without an entry can be given a CIDR: the one it asks for is not used,
  // or it asks for none and there is a free block.
  ghost predicate HasPlaceFor(cell: Cell, config: Config)
    requires config.cidr == NoText || WellFormed(config.cidr)
  {
    if config.cidr != NoText then Unused(cell.clusters, ParseNet(config.cidr).value)
    else HasFreeBlock(cell, config)
  }

  // The CIDR for a cluster without an entry: the one it asks for, or the lowest free
  // block, written without host bits
  ghost predicate RightNewCidr(cell: Cell, config: Config, cidr: CidrText)
  {
    if config.cidr != NoText then cidr == config.cidr
    else exists c: Block | LowestFreeBlock(cell, config, c) :: cidr == Text(c.first, 32 - c.exp)
  }

  // A request that is not acceptable fails. Without Globalnet there is nothing to do.
  // A recorded cluster has its CIDR. A new one has the CIDR it asks for, if that is
  // not used, or else the lowest free block; otherwise it fails.
  ghost predicate RightChoice(j: Joiner, j': Joiner)
  {
    var cell, config := j.snapshot, j.config;
    if !Accepts(cell, config) then j' == Deciding(j, Failed, NoText)
    else if !cell.enabled then j' == Deciding(j, Joined, NoText)
    else if Listed(cell.clusters, config.clusterId) then
      Recorded(cell.clusters, config.clusterId, j'.config.cidr) && j' == Deciding(j, Joined, j'.config.cidr)
    else if HasPlaceFor(cell, config) then
      RightNewCidr(cell, config, j'.config.cidr) && j' == Deciding(j, Writing, j'.config.cidr)
    else j' == Deciding(j, Failed, NoText)
  }

  // On every sound snapshot, an attempt decides rightly.
  lemma ChoiceIsRight(j: Joiner, j': Joiner)
    requires j.phase == Choosing && Choose(j, j')
    ensures CanDecide(j.snapshot, j.config) ==> RightChoice(j, j')
  {
    var info := ReadInfo(j.snapshot);
    ValidateExact(info, j.config);
    if CanDecide(j.snapshot, j.config) && Accepts(j.snapshot, j.config) && j.snapshot.enabled {
      var r := AssignmentOfChoice(j, j');
      var asked := Asked(j);
      AssignmentIsRight(asked, j.config, r);
      NetworksOfKeys(j.snapshot.clusters, j.config.clusterId);
      SoundNetworks(j.snapshot.clusters);
      if Listed(j.snapshot.clusters, j.config.clusterId) {
        NetworksOfEntry(j.snapshot.clusters, j.config.clusterId);
        assert info.networks[j.config.clusterId].cidrs == [info.networks[j.config.clusterId].cidrs[0]];
      } else if j.config.cidr != NoText {
        NoOverlapOnSound(j.snapshot.clusters, j.config);
        NoOverlapIffCompatible(info.networks, j.config);
      } else {
        GrantOnSound(j, r);
      }
    }
  }

  // A choice that ends before anything is assigned
  lemma UnassignedChoice(j: Joiner, j': Joiner)
    requires j.phase == Choosing
    requires var (cidr, size) := Validate(ReadInfo(j.snapshot), j.config);
             if cidr.None? then j' == Deciding(j, Failed, NoText)
             else !ReadInfo(j.snapshot).enabled && j' == Deciding(j, Joined, cidr.value)
    ensures Choose(j, j') && (CanDecide(j.snapshot, j.config) ==> RightChoice(j, j'))
  {
    ChoiceIsRight(j, j');
  }

  lemma AssignedChoice(j: Joiner, cidr: CidrText, size: Word64, r: Assignment)
    requires j.phase == Choosing && ReadInfo(j.snapshot).enabled
    requires Validate(ReadInfo(j.snapshot), j.config) == (Some(cidr), size)
    requires MayAssign(ReadInfo(j.snapshot).(clusterSize := size), j.config.(cidr := cidr), r)
    ensures var j' := AfterAssignment(j, ReadInfo(j.snapshot), cidr, r);
            Choose(j, j') && (CanDecide(j.snapshot, j.config) ==> RightChoice(j, j'))
  {
    ChoiceIsRight(j, AfterAssignment(j, ReadInfo(j.snapshot), cidr, r));
  }

  // The information an accepted request is assigned on, with the size it asks for
  function Asked(j: Joiner): GlobalnetInfo
  {
    ReadInfo(j.snapshot).(clusterSize := Validate(ReadInfo(j.snapshot), j.config).1)
  }

  lemma AssignmentOfChoice(j: Joiner, j': Joiner) returns (r: Assignment)
    requires j.phase == Choosing && Choose(j, j') && j.snapshot.enabled && Accepts(j.snapshot, j.config)
    ensures MayAssign(Asked(j), j.config, r) && j' == AfterAssignment(j, ReadInfo(j.snapshot), j.config.cidr, r)
  {
    var info := ReadInfo(j.snapshot);
    ValidateExact(info, j.config);
    assert Validate(info, j.config).0 == Some(j.config.cidr) && j.config.(cidr := j.config.cidr) == j.config;
    r :| MayAssign(Asked(j), j.config, r) && j' == AfterAssignment(j, info, j.config.cidr, r);
  }

  lemma SizeOfAsked(j: Joiner, exp: nat)
    requires j.snapshot.enabled && Accepts(j.snapshot, j.config)
    ensures IsBlockSize(Asked(j).clusterSize, exp) <==> IsBlockSize(SizeAskedFor(j.snapshot, j.config), exp)
  {
    var info := ReadInfo(j.snapshot);
    ValidateExact(info, j.config);
    if Resizes(info.enabled, info.clusterSize, j.config) {
      RoundedBlockSize(j.config.clusterSize % 0x1_0000_0000, Asked(j).clusterSize, exp);
    }
  }

  lemma RoomOnSound(j: Joiner, c: Block)
    requires j.snapshot.enabled && Accepts(j.snapshot, j.config) && SoundRegistry(j.snapshot.clusters)
    ensures Room(Asked(j), c) <==> FreeBlock(j.snapshot, j.config, c)
  {
    SizeOfAsked(j, c.exp);
    forall b: Block
      ensures Records(Asked(j).networks, b) <==> exists e <- j.snapshot.clusters :: OneBlock(e, b)
    {
      RecordsIffEntry(j.snapshot.clusters, b);
    }
  }

  lemma RegularOnSound(j: Joiner)
    requires j.snapshot.enabled && Accepts(j.snapshot, j.config) && SoundRegistry(j.snapshot.clusters)
    requires Regular(j.snapshot, j.config)
    ensures RegularRequest(Asked(j))
  {
    forall c: Block
      ensures Room(Asked(j), c) <==> FreeBlock(j.snapshot, j.config, c)
    {
      RoomOnSound(j, c);
    }
    assert HasRoom(Asked(j)) <==> HasFreeBlock(j.snapshot, j.config);
    forall exp: nat
      ensures IsBlockSize(Asked(j).clusterSize, exp) <==> IsBlockSize(SizeAskedFor(j.snapshot, j.config), exp)
    {
      SizeOfAsked(j, exp);
    }
    forall b: Block
      ensures Records(Asked(j).networks, b) <==> exists e <- j.snapshot.clusters :: OneBlock(e, b)
    {
      RecordsIffEntry(j.snapshot.clusters, b);
    }
  }

  // What is granted on a sound snapshot is the lowest free block.
  lemma GrantOnSound(j: Joiner, r: Assignment)
    requires j.snapshot.enabled && Accepts(j.snapshot, j.config) && SoundRegistry(j.snapshot.clusters)
    requires Regular(j.snapshot, j.config) && RightAssignment(Asked(j), j.config, r)
    requires !Listed(j.snapshot.clusters, j.config.clusterId) && j.config.cidr == NoText
    ensures match r
      case Assigned(cidr) =>
        exists c: Block | LowestFreeBlock(j.snapshot, j.config, c) :: cidr == Text(c.first, 32 - c.exp)
      case AssignError => forall c: Block :: !FreeBlock(j.snapshot, j.config, c)
      case AssignHangs => false
  {
    NetworksOfKeys(j.snapshot.clusters, j.config.clusterId);
    SoundNetworks(j.snapshot.clusters);
    RegularOnSound(j);
    forall c: Block
      ensures Room(Asked(j), c) <==> FreeBlock(j.snapshot, j.config, c)
    {
      RoomOnSound(j, c);
    }
    if r.Assigned? {
      var c: Block :| LowestRoom(Asked(j), c) && r.cidr == Text(c.first, 32 - c.exp);
      assert LowestFreeBlock(j.snapshot, j.config, c);
    }
  }

  // ---------- Any snapshot ----------

  // On any registry, sound or not, an accepted request of a cluster with a recorded
  // CIDR has the first one. Otherwise there has to be a place for it, and if there is,
  // a cluster without an entry is written, while one whose entry has an empty list
  // makes the join crash.
  lemma ChoiceOnAnyRegistry(j: Joiner, j': Joiner)
    requires j.phase == Choosing && Choose(j, j') && j.snapshot.enabled && Accepts(j.snapshot, j.config)
    ensures var networks, id := NetworksOf(j.snapshot.clusters), j.config.clusterId;
            if id in networks && networks[id].cidrs != [] then
              j' == Deciding(j, Joined, networks[id].cidrs[0])
            else if j.config.cidr != NoText then
              j'.phase == if !Compatible(networks, j.config) then Failed else if id in networks then Crashed else Writing
            else
              RegularRequest(Asked(j)) ==>
                j'.phase == if !(AllWellFormed(networks) && exists c: Block :: Room(Asked(j), c)) then Failed
                            else if id in networks then Crashed else Writing
  {
    var r := AssignmentOfChoice(j, j');
    AssignmentIsRight(Asked(j), j.config, r);
    if j.config.cidr == NoText && r.Assigned? && !PreConfigured(j.config.clusterId, Asked(j).networks) && RegularRequest(Asked(j)) {
      assert RightGrant(Asked(j), Some(r.cidr));
    }
  }

  // An attempt hangs only if some order of the recorded blocks makes the search run
  // forever, and it does hang if all orders do.
  lemma ChoiceHangs(j: Joiner, j': Joiner, net: Block, exp: nat)
    requires j.phase == Choosing && Choose(j, j') && j.snapshot.enabled && Accepts(j.snapshot, j.config)
    requires SoundRegistry(j.snapshot.clusters) && !Listed(j.snapshot.clusters, j.config.clusterId)
    requires j.config.cidr == NoText && ParseNet(j.snapshot.range) == Some(net)
    requires IsBlockSize(SizeAskedFor(j.snapshot, j.config), exp) && exp <= net.exp
    ensures j'.phase == Hanging ==>
              exists order :: Lists(order, NetworksOf(j.snapshot.clusters)) && NeverReturns(net, order, exp)
    ensures (forall order | Lists(order, NetworksOf(j.snapshot.clusters)) :: NeverReturns(net, order, exp)) ==>
              j'.phase == Hanging
  {
    var r := AssignmentOfChoice(j, j');
    var asked := Asked(j);
    NetworksOfKeys(j.snapshot.clusters, j.config.clusterId);
    SoundNetworks(j.snapshot.clusters);
    var a: Allocation :| MayAllocate(asked, a) && r == FromAllocation(a);
    var order :| Lists(order, asked.networks) && a == Allocate(net, order, asked.clusterSize);
    SizeOfAsked(j, exp);
    AllocationOfOrder(net, order, asked.clusterSize, exp);
  }
}
