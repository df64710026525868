/**
 The join protocol: any number of clusters read the broker's registry, choose a
 CIDR on the snapshot they read, and write it back under optimistic concurrency,
 starting over on a conflict. The broker may reset the registry at any time.
 */
module Join {
  import opened Wrappers
  import opened Bits
  import opened Cidr
  import opened Search
  import opened Globalnet
  import opened AllocationTheory
  import opened Allocator
  import opened Registry

  // ---------- Choosing a CIDR on a snapshot ----------

  datatype Assignment = Assigned(cidr: CidrText) | AssignError | AssignHangs

  function FromAllocation(a: Allocation): Assignment
  {
    match a
    case Allocated(cidr) => Assigned(cidr)
    case Unavailable => AssignError
    case Endless => AssignHangs
  }

  // What AssignGlobalnetIPs may answer
  ghost predicate MayAssign(info: GlobalnetInfo, config: Config, r: Assignment)
  {
    if PreConfigured(config.clusterId, info.networks) then
      r == Assigned(info.networks[config.clusterId].cidrs[0])
    else if config.cidr == NoText then
      exists a: Allocation :: MayAllocate(info, a) && r == FromAllocation(a)
    else
      r == if NoOverlap(info.networks, config) then Assigned(config.cidr) else AssignError
  }

  // What AssignGlobalnetIPs should answer: the first recorded CIDR of the cluster; or
  // else the CIDR asked for, if it is compatible with all that is recorded; or else
  // the lowest room.
  ghost predicate RightAssignment(info: GlobalnetInfo, config: Config, r: Assignment)
  {
    if config.clusterId in info.networks && info.networks[config.clusterId].cidrs != [] then
      r == Assigned(info.networks[config.clusterId].cidrs[0])
    else if config.cidr != NoText then
      r == if Compatible(info.networks, config) then Assigned(config.cidr) else AssignError
    else
      RegularRequest(info) ==>
        match r
        case Assigned(cidr) => RightGrant(info, Some(cidr))
        case AssignError => RightGrant(info, None)
        case AssignHangs => false
  }

  lemma AssignmentIsRight(info: GlobalnetInfo, config: Config, r: Assignment)
    requires MayAssign(info, config, r)
    ensures RightAssignment(info, config, r)
  {
    NoOverlapIffCompatible(info.networks, config);
    if !PreConfigured(config.clusterId, info.networks) && config.cidr == NoText {
      var a: Allocation :| MayAllocate(info, a) && r == FromAllocation(a);
      AllocationIsRight(info, a);
    }
  }

  method AssignGlobalnetIPs(allocator: GlobalCidr, info: GlobalnetInfo, config: Config) returns (r: Assignment)
    requires allocator.Valid()
    modifies allocator
    ensures allocator.Valid()
    ensures MayAssign(info, config, r)
    ensures RightAssignment(info, config, r)
  {
    if config.cidr == NoText {
      if PreConfigured(config.clusterId, info.networks) {
        return Assigned(info.networks[config.clusterId].cidrs[0]);
      }
      var a := allocator.AllocateGlobalCidr(info);
      assert MayAllocate(info, a);
      r := FromAllocation(a);
      AssignmentIsRight(info, config, r);
      return;
    }
    if PreConfigured(config.clusterId, info.networks) {
      return Assigned(info.networks[config.clusterId].cidrs[0]);
    }
    var ok := CheckOverlappingCidrs(info.networks, config);
    return if ok then Assigned(config.cidr) else AssignError;
  }

  // ---------- One joining cluster ----------

  // Joining: about to read. Choosing: has a snapshot. Writing: about to write back.
  // Crashed: indexed an empty list of CIDRs. Hanging: in a search without end.
  datatype Phase = Joining | Choosing | Writing | Joined | Failed | Crashed | Hanging

  // config.cidr is overwritten by every attempt. committed is the version of the
  // registry that this join has written, if any, and writes the number of writes.
  datatype Joiner = Joiner(
    phase: Phase,
    config: Config,
    retries: nat,
    snapshot: Cell,
    committed: Option<Cell>,
    writes: nat)

  // The attempt after the snapshot has been read, up to the write
  ghost predicate Choose(j: Joiner, j': Joiner)
  {
    var info := ReadInfo(j.snapshot);
    var (cidr, size) := Validate(info, j.config);
    if cidr.None? then
      j' == j.(phase := Failed, config := j.config.(cidr := NoText))
    else if !info.enabled then
      j' == j.(phase := Joined, config := j.config.(cidr := cidr.value))
    else
      exists r: Assignment ::
        && MayAssign(info.(clusterSize := size), j.config.(cidr := cidr.value), r)
        && j' == AfterAssignment(j, info, cidr.value, r)
  }

  function AfterAssignment(j: Joiner, info: GlobalnetInfo, validated: CidrText, r: Assignment): Joiner
  {
    match r
    case AssignError => j.(phase := Failed, config := j.config.(cidr := NoText))
    case AssignHangs => j.(phase := Hanging, config := j.config.(cidr := validated))
    case Assigned(cidr) =>
      var chosen := j.(config := j.config.(cidr := cidr));
      if j.config.clusterId !in info.networks then chosen.(phase := Writing)
      else if info.networks[j.config.clusterId].cidrs == [] then chosen.(phase := Crashed)
      else if info.networks[j.config.clusterId].cidrs[0] != cidr then chosen.(phase := Writing)
      else chosen.(phase := Joined)
  }

  // The registry as the write makes it
  ghost function CellWrittenBy(j: Joiner): Cell
  {
    j.snapshot.(version := j.snapshot.version + 1,
                clusters := Upsert(j.snapshot.clusters, j.config.clusterId, [j.config.cidr]))
  }

  // ---------- The system ----------

  datatype System = System(cell: Cell, joiners: map<nat, Joiner>)

  // The join as it is after its write has been stored, in the given phase
  ghost function HavingWritten(j: Joiner, phase: Phase): Joiner
  {
    j.(phase := phase, committed := Some(CellWrittenBy(j)), writes := j.writes + 1)
  }

  // A step of the join's own: reading, choosing, or writing, where a write is
  // refused iff the object has changed since it was read.
  ghost predicate OwnStep(j: Joiner, cell: Cell, j': Joiner, cell': Cell)
  {
    match j.phase
    case Joining => cell' == cell && j' == j.(phase := Choosing, snapshot := cell)
    case Choosing => cell' == cell && Choose(j, j')
    case Writing =>
      if j.snapshot.version == cell.version then
        cell' == CellWrittenBy(j) && j' == HavingWritten(j, Joined)
      else
        cell' == cell && j' == if j.retries > 0 then j.(phase := Joining, retries := j.retries - 1) else j.(phase := Failed)
    case _ => false
  }

  // A call to the broker fails for a reason of its own, which ends the join; a
  // write may have been stored all the same.
  ghost predicate CallFails(j: Joiner, cell: Cell, j': Joiner, cell': Cell)
  {
    || (j.phase in {Joining, Writing} && cell' == cell && j' == j.(phase := Failed))
    || (j.phase == Writing && j.snapshot.version == cell.version && cell' == CellWrittenBy(j) && j' == HavingWritten(j, Failed))
  }

  // One step of one join
  ghost predicate LocalStep(j: Joiner, cell: Cell, j': Joiner, cell': Cell)
  {
    OwnStep(j, cell, j', cell') || CallFails(j, cell, j', cell')
  }

  ghost predicate JoinerStep(s: System, s': System, i: nat)
  {
    && i in s.joiners && i in s'.joiners
    && s'.joiners == s.joiners[i := s'.joiners[i]]
    && LocalStep(s.joiners[i], s.cell, s'.joiners[i], s'.cell)
  }

  ghost predicate JoinStep(s: System, s': System)
  {
    exists i :: JoinerStep(s, s', i)
  }

  ghost predicate ResetStep(s: System, s': System)
  {
    && s'.joiners == s.joiners
    && exists enabled, range, size :: s'.cell == ResetCell(s.cell, enabled, range, size)
  }

  ghost predicate Next(s: System, s': System)
  {
    ResetStep(s, s') || JoinStep(s, s')
  }

  // The broker starts with an empty list; the joining clusters start with
  // whatever configuration they have been given.
  ghost predicate Init(s: System)
  {
    && s.cell.clusters == []
    && forall i <- s.joiners :: s.joiners[i].phase == Joining && s.joiners[i].committed == None && s.joiners[i].writes == 0
  }

  ghost predicate NextAt(run: seq<System>, k: nat)
    requires k < |run| - 1
  {
    Next(run[k], run[k + 1])
  }

  ghost predicate IsRun(run: seq<System>)
  {
    && run != [] && Init(run[0])
    && forall k | 0 <= k < |run| - 1 :: NextAt(run, k)
  }

  // ---------- What holds in every reachable state ----------

  // The block of the entry's only CIDR
  ghost predicate OneBlock(c: ClusterInfo, b: Block)
  {
    |c.globalCidr| == 1 && ParseNet(c.globalCidr[0]) == Some(b)
  }

  ghost predicate SingleCidrs(clusters: seq<ClusterInfo>)
  {
    forall c <- clusters :: |c.globalCidr| == 1 && WellFormed(c.globalCidr[0])
  }

  // Entries of different clusters share no address.
  ghost predicate PairwiseDisjoint(clusters: seq<ClusterInfo>)
  {
    forall i, j, a: Block, b: Block | 0 <= i < j < |clusters| && OneBlock(clusters[i], a) && OneBlock(clusters[j], b) ::
      !Share(a, b)
  }

  ghost predicate SoundRegistry(clusters: seq<ClusterInfo>)
  {
    UniqueIds(clusters) && SingleCidrs(clusters) && PairwiseDisjoint(clusters)
  }

  // The CIDR recorded for a cluster
  ghost predicate Recorded(clusters: seq<ClusterInfo>, clusterId: string, cidr: CidrText)
  {
    ClusterInfo(clusterId, [cidr]) in clusters
  }

  // The cluster is new and its CIDR is disjoint from everything recorded.
  ghost predicate CanAppend(clusters: seq<ClusterInfo>, config: Config)
  {
    && !Listed(clusters, config.clusterId)
    && WellFormed(config.cidr)
    && forall c <- clusters, b: Block | OneBlock(c, b) :: !Share(b, ParseNet(config.cidr).value)
  }

  ghost predicate SoundJoiner(j: Joiner, cell: Cell)
  {
    && j.phase != Crashed
    && (j.phase in {Choosing, Writing} ==>
          && j.snapshot.version <= cell.version
          && (j.snapshot.version == cell.version ==> j.snapshot == cell)
          && SoundRegistry(j.snapshot.clusters))
    && (j.phase == Writing ==> j.snapshot.enabled && CanAppend(j.snapshot.clusters, j.config))
    && (j.committed.None? ==> j.writes == 0)
    && (j.committed.Some? ==> j.writes == 1 && j.phase in {Joined, Failed})
    && (j.phase == Joined && j.snapshot.enabled ==>
          Recorded(if j.committed.Some? then j.committed.value.clusters else j.snapshot.clusters,
                   j.config.clusterId, j.config.cidr))
  }

  ghost predicate Sound(s: System)
  {
    && SoundRegistry(s.cell.clusters)
    && forall i <- s.joiners :: SoundJoiner(s.joiners[i], s.cell)
  }

  // ---------- The registry as a map, on sound lists ----------

  lemma {:induction false} NetworksOfSound(clusters: seq<ClusterInfo>, c: ClusterInfo)
    requires UniqueIds(clusters) && c in clusters
    ensures c.clusterId in NetworksOf(clusters) && NetworksOf(clusters)[c.clusterId] == GlobalNetwork(c.globalCidr, c.clusterId)
  {
    var n := |clusters| - 1;
    if c != clusters[n] {
      var i :| 0 <= i < |clusters| && clusters[i] == c;
      assert c == clusters[..n][i];
      NetworksOfSound(clusters[..n], c);
    }
  }

  // Every value of the map is an entry of the list.
  lemma {:induction false} NetworksOfEntry(clusters: seq<ClusterInfo>, clusterId: string)
    requires clusterId in NetworksOf(clusters)
    ensures ClusterInfo(clusterId, NetworksOf(clusters)[clusterId].cidrs) in clusters
  {
    var n := |clusters| - 1;
    if clusterId != clusters[n].clusterId {
      NetworksOfEntry(clusters[..n], clusterId);
    }
  }

  lemma SoundNetworks(clusters: seq<ClusterInfo>)
    requires SingleCidrs(clusters)
    ensures AllWellFormed(NetworksOf(clusters))
    ensures forall id <- NetworksOf(clusters) :: |NetworksOf(clusters)[id].cidrs| == 1
  {
    var networks := NetworksOf(clusters);
    forall id <- networks
      ensures |networks[id].cidrs| == 1 && WellFormed(networks[id].cidrs[0])
    {
      NetworksOfEntry(clusters, id);
    }
  }

  // A block of a listed entry is recorded in the map.
  lemma EntryIsRecorded(clusters: seq<ClusterInfo>, c: ClusterInfo, b: Block)
    requires UniqueIds(clusters) && c in clusters && OneBlock(c, b)
    ensures Records(NetworksOf(clusters), b)
  {
    NetworksOfSound(clusters, c);
    var networks := NetworksOf(clusters);
    assert c.globalCidr[0] in networks[c.clusterId].cidrs;
  }

  // On a sound list the map records exactly the blocks of the entries.
  lemma RecordsIffEntry(clusters: seq<ClusterInfo>, b: Block)
    requires UniqueIds(clusters) && SingleCidrs(clusters)
    ensures Records(NetworksOf(clusters), b) <==> exists c <- clusters :: OneBlock(c, b)
  {
    var networks := NetworksOf(clusters);
    if Records(networks, b) {
      var key, t :| key in networks && t in networks[key].cidrs && ParseNet(t) == Some(b);
      NetworksOfEntry(clusters, key);
      assert OneBlock(ClusterInfo(key, networks[key].cidrs), b);
    }
    if c :| c in clusters && OneBlock(c, b) {
      EntryIsRecorded(clusters, c, b);
    }
  }

  // ---------- A new assignment collides with nothing ----------

  // An allocated block is disjoint from every recorded block, whatever the range
  // and the size.
  lemma AllocationIsDisjoint(net: Block, blocks: seq<Block>, numSize: Word64)
    ensures match Allocate(net, blocks, numSize)
      case Allocated(cidr) => WellFormed(cidr) && forall b <- blocks :: !Share(b, ParseNet(cidr).value)
      case _ => true
  {
    var exp := BlockExp(numSize);
    if exp <= 32 { FoundIsDisjoint(net, blocks, exp, net.first, ProbeBound(blocks)); }
  }

  lemma {:induction false} FoundIsDisjoint(net: Block, blocks: seq<Block>, exp: nat, ip: Word32, budget: nat)
    requires exp <= 32
    ensures match SearchFrom(net, blocks, exp, ip, budget)
      case Found(at) => forall b <- blocks :: !Share(b, NetworkOf(at, exp))
      case _ => true
    decreases budget
  {
    if budget > 0 {
      GrantIsDisjoint(net, blocks, exp, ip);
      match ProbeAt(net, blocks, exp, ip)
      case Granted =>
      case Refused(last) =>
        if last != 0 { FoundIsDisjoint(net, blocks, exp, UintToIP(last + 1), budget - 1); }
    }
  }

  // On a sound snapshot, an assignment to a cluster without an entry can be
  // appended to the registry.
  lemma AssignmentCanBeAppended(cell: Cell, size: Word64, config: Config, r: Assignment)
    requires SoundRegistry(cell.clusters) && !Listed(cell.clusters, config.clusterId)
    requires config.cidr == NoText || WellFormed(config.cidr)
    requires MayAssign(ReadInfo(cell).(clusterSize := size), config, r)
    ensures r.Assigned? ==> CanAppend(cell.clusters, config.(cidr := r.cidr))
  {
    var info := ReadInfo(cell).(clusterSize := size);
    var networks := info.networks;
    NetworksOfKeys(cell.clusters, config.clusterId);
    SoundNetworks(cell.clusters);
    if r.Assigned? {
      if config.cidr == NoText {
        var a: Allocation :| MayAllocate(info, a) && r == FromAllocation(a);
        var order :| Lists(order, networks) && a == Allocate(ParseNet(info.range).value, order, size);
        AllocationIsDisjoint(ParseNet(info.range).value, order, size);
        forall c <- cell.clusters, b: Block | OneBlock(c, b)
          ensures !Share(b, ParseNet(r.cidr).value)
        {
          EntryIsRecorded(cell.clusters, c, b);
        }
      } else {
        NoOverlapExact(networks, config);
        forall c <- cell.clusters, b: Block | OneBlock(c, b)
          ensures !Share(b, ParseNet(r.cidr).value)
        {
          NetworksOfSound(cell.clusters, c);
          assert c.globalCidr[0] in networks[c.clusterId].cidrs;
          assert !Clashes(c.globalCidr[0], ParseNet(config.cidr).value);
        }
      }
    }
  }

  lemma AppendIsSound(clusters: seq<ClusterInfo>, config: Config)
    requires SoundRegistry(clusters) && CanAppend(clusters, config)
    ensures Upsert(clusters, config.clusterId, [config.cidr]) == clusters + [ClusterInfo(config.clusterId, [config.cidr])]
    ensures SoundRegistry(Upsert(clusters, config.clusterId, [config.cidr]))
    ensures Recorded(Upsert(clusters, config.clusterId, [config.cidr]), config.clusterId, config.cidr)
  {
    var more := Upsert(clusters, config.clusterId, [config.cidr]);
    UpsertRefinesMapUpdate(clusters, config.clusterId, [config.cidr]);
    assert more[|clusters|] == ClusterInfo(config.clusterId, [config.cidr]);
    forall i, j, a: Block, b: Block | 0 <= i < j < |more| && OneBlock(more[i], a) && OneBlock(more[j], b)
      ensures !Share(a, b)
    {
      assert more[i] == clusters[i];
      if j < |clusters| { assert more[j] == clusters[j]; } else { assert clusters[i] in clusters; }
    }
  }

  // ---------- Every step keeps the system sound ----------

  // The answer to a request that passes validation parses.
  lemma ValidatedParses(info: GlobalnetInfo, config: Config)
    ensures Validate(info, config).0.Some? ==>
              Validate(info, config).0.value == NoText || WellFormed(Validate(info, config).0.value)
  {
  }

  lemma ChooseIsSound(j: Joiner, j': Joiner, cell: Cell)
    requires j.phase == Choosing && SoundJoiner(j, cell) && Choose(j, j')
    ensures SoundJoiner(j', cell)
  {
    var info := ReadInfo(j.snapshot);
    var (cidr, size) := Validate(info, j.config);
    ValidatedParses(info, j.config);
    SoundNetworks(j.snapshot.clusters);
    NetworksOfKeys(j.snapshot.clusters, j.config.clusterId);
    if cidr.Some? && info.enabled {
      var config := j.config.(cidr := cidr.value);
      var r: Assignment :| MayAssign(info.(clusterSize := size), config, r)
                           && j' == AfterAssignment(j, info, cidr.value, r);
      if j.config.clusterId in info.networks {
        NetworksOfEntry(j.snapshot.clusters, j.config.clusterId);
        assert info.networks[j.config.clusterId].cidrs == [info.networks[j.config.clusterId].cidrs[0]];
      } else {
        AssignmentCanBeAppended(j.snapshot, size, config, r);
      }
    }
  }

  // A step of a join keeps the join and the registry sound.
  lemma LocalStepIsSound(j: Joiner, cell: Cell, j': Joiner, cell': Cell)
    requires SoundRegistry(cell.clusters) && SoundJoiner(j, cell) && LocalStep(j, cell, j', cell')
    ensures SoundRegistry(cell'.clusters) && SoundJoiner(j', cell') && Later(cell, cell')
  {
    if j.phase == Writing { AppendIsSound(j.snapshot.clusters, j.config); }
    if j.phase == Choosing { ChooseIsSound(j, j', cell); }
  }

  // The store has been left alone or written.
  ghost predicate Later(cell: Cell, cell': Cell)
  {
    cell' == cell || cell'.version > cell.version
  }

  // Writes of others do not disturb a join.
  lemma OthersKeepSound(j: Joiner, cell: Cell, cell': Cell)
    requires SoundJoiner(j, cell) && Later(cell, cell')
    ensures SoundJoiner(j, cell')
  {
  }

  lemma NextIsSound(s: System, s': System)
    requires Sound(s) && Next(s, s')
    ensures Sound(s')
  {
    if ResetStep(s, s') {
      forall i <- s'.joiners
        ensures SoundJoiner(s'.joiners[i], s'.cell)
      {
        OthersKeepSound(s.joiners[i], s.cell, s'.cell);
      }
    } else {
      var i :| JoinerStep(s, s', i);
      LocalStepIsSound(s.joiners[i], s.cell, s'.joiners[i], s'.cell);
      forall k <- s'.joiners
        ensures SoundJoiner(s'.joiners[k], s'.cell)
      {
        if k != i { OthersKeepSound(s.joiners[k], s.cell, s'.cell); }
      }
    }
  }

  lemma {:induction false} SoundAt(run: seq<System>, k: nat)
    requires IsRun(run) && k < |run|
    ensures Sound(run[k])
  {
    if k > 0 {
      SoundAt(run, k - 1);
      assert NextAt(run, k - 1);
      NextIsSound(run[k - 1], run[k]);
    }
  }

  // In every state of every run: cluster IDs are unique, every entry holds exactly
  // one well-formed CIDR, entries share no address, no join has indexed an empty
  // list, and no join has written more than once.
  lemma RunIsSound(run: seq<System>, k: nat)
    requires IsRun(run) && k < |run|
    ensures UniqueIds(run[k].cell.clusters) && SingleCidrs(run[k].cell.clusters) && PairwiseDisjoint(run[k].cell.clusters)
    ensures forall i <- run[k].joiners :: run[k].joiners[i].phase != Crashed && run[k].joiners[i].writes <= 1
  {
    SoundAt(run, k);
    assert forall i <- run[k].joiners :: SoundJoiner(run[k].joiners[i], run[k].cell);
  }
}
