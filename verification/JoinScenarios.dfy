/**
 Whole histories of the join protocol: filling a range to the last block, losing
 a race, and joining again after the broker has forgotten an allocation.
 */
module JoinScenarios {
  import opened Wrappers
  import opened Bits
  import opened Cidr
  import opened Search
  import opened FirstFitTheory
  import opened Capacity
  import opened Globalnet
  import opened AllocationTheory
  import opened Registry
  import opened Join
  import opened JoinTheory

  // The registry after the clusters have joined one after the other, each asking
  // for a block of the same size
  function Enrolled(net: Block, exp: nat, ids: seq<string>): seq<ClusterInfo>
    requires exp <= net.exp && |ids| <= Slots(net, exp)
  {
    if ids == [] then []
    else
      var n := |ids| - 1;
      Enrolled(net, exp, ids[..n]) + [ClusterInfo(ids[n], [SlotText(net, exp, n)])]
  }

  // The CIDR string of a slot
  function SlotText(net: Block, exp: nat, n: nat): CidrText
    requires exp <= net.exp && n < Slots(net, exp)
  {
    Text(Slot(net, exp, n).first, 32 - exp)
  }

  ghost predicate Distinct(ids: seq<string>)
  {
    forall i, j | 0 <= i < j < |ids| :: ids[i] != ids[j]
  }

  lemma {:induction false} EnrolledEntries(net: Block, exp: nat, ids: seq<string>)
    requires exp <= net.exp && |ids| <= Slots(net, exp)
    ensures |Enrolled(net, exp, ids)| == |ids| == |Filled(net, exp, |ids|)|
    ensures forall i | 0 <= i < |ids| ::
              Enrolled(net, exp, ids)[i] == ClusterInfo(ids[i], [SlotText(net, exp, i)])
    ensures forall i | 0 <= i < |ids| ::
              Filled(net, exp, |ids|)[i] == Slot(net, exp, i) && ParseNet(SlotText(net, exp, i)) == Some(Slot(net, exp, i))
  {
    if ids != [] {
      var n := |ids| - 1;
      EnrolledEntries(net, exp, ids[..n]);
      SlotIsAligned(net, exp, n);
    }
  }

  lemma EnrolledBlocks(net: Block, exp: nat, ids: seq<string>, b: Block)
    requires exp <= net.exp && |ids| <= Slots(net, exp)
    ensures (exists c <- Enrolled(net, exp, ids) :: OneBlock(c, b)) <==> b in Filled(net, exp, |ids|)
  {
    var clusters := Enrolled(net, exp, ids);
    var taken := Filled(net, exp, |ids|);
    EnrolledEntries(net, exp, ids);
    if b in taken {
      var i :| 0 <= i < |taken| && taken[i] == b;
      assert OneBlock(clusters[i], b);
    }
    if c :| c in clusters && OneBlock(c, b) {
      var i :| 0 <= i < |clusters| && clusters[i] == c;
      assert taken[i] == b;
    }
  }

  lemma EnrolledIsFilled(net: Block, exp: nat, ids: seq<string>, id: string, order: seq<Block>)
    requires exp <= net.exp && |ids| <= Slots(net, exp) && Distinct(ids) && id !in ids
    requires Lists(order, NetworksOf(Enrolled(net, exp, ids)))
    ensures SameBlocks(order, Filled(net, exp, |ids|))
  {
    EnrolledIsSound(net, exp, ids, id);
    forall b: Block
      ensures b in order <==> b in Filled(net, exp, |ids|)
    {
      RecordsIffEntry(Enrolled(net, exp, ids), b);
      EnrolledBlocks(net, exp, ids, b);
    }
  }

  lemma EnrolledIsSound(net: Block, exp: nat, ids: seq<string>, id: string)
    requires exp <= net.exp && |ids| <= Slots(net, exp) && Distinct(ids) && id !in ids
    ensures var clusters := Enrolled(net, exp, ids);
            SoundRegistry(clusters) && !Listed(clusters, id) && id !in NetworksOf(clusters)
  {
    var clusters := Enrolled(net, exp, ids);
    EnrolledEntries(net, exp, ids);
    NetworksOfKeys(clusters, id);
    forall c <- clusters
      ensures |c.globalCidr| == 1 && WellFormed(c.globalCidr[0]) && c.clusterId != id
    {
      var i :| 0 <= i < |clusters| && clusters[i] == c;
      assert clusters[i] == ClusterInfo(ids[i], [SlotText(net, exp, i)]);
    }
    EnrolledAreDisjoint(net, exp, ids);
  }

  lemma EnrolledAreDisjoint(net: Block, exp: nat, ids: seq<string>)
    requires exp <= net.exp && |ids| <= Slots(net, exp)
    ensures PairwiseDisjoint(Enrolled(net, exp, ids))
  {
    var clusters := Enrolled(net, exp, ids);
    EnrolledEntries(net, exp, ids);
    forall i, j, a: Block, b: Block | 0 <= i < j < |clusters| && OneBlock(clusters[i], a) && OneBlock(clusters[j], b)
      ensures !Share(a, b)
    {
      assert a == Slot(net, exp, i) && b == Slot(net, exp, j);
      SlotsAreDisjoint(net, exp, i, j);
    }
  }

  // What the allocator answers on an enrolled registry, in any listing order
  lemma EnrolledAllocation(net: Block, exp: nat, info: GlobalnetInfo, ids: seq<string>, id: string, a: Allocation)
    requires ParseNet(info.range) == Some(net) && Distinct(ids) && id !in ids
    requires exp == BlockExp(info.clusterSize) && exp <= net.exp && |ids| <= Slots(net, exp) && FillsUp(net, exp)
    requires info.networks == NetworksOf(Enrolled(net, exp, ids))
    requires AllWellFormed(info.networks) && MayAllocate(info, a)
    ensures a == if |ids| < Slots(net, exp) then Allocated(SlotText(net, exp, |ids|)) else Unavailable
  {
    var order :| Lists(order, info.networks) && a == Allocate(net, order, info.clusterSize);
    EnrolledIsFilled(net, exp, ids, id, order);
    AllocationAfter(net, exp, |ids|, order, info.clusterSize);
  }

  lemma AllocationAfter(net: Block, exp: nat, n: nat, order: seq<Block>, size: Word64)
    requires exp == BlockExp(size) && exp <= net.exp && n <= Slots(net, exp) && FillsUp(net, exp)
    requires SameBlocks(order, Filled(net, exp, n))
    ensures Allocate(net, order, size) == if n < Slots(net, exp) then Allocated(SlotText(net, exp, n)) else Unavailable
  {
    SameAsFilled(net, exp, n, order);
  }

  // A cluster without an entry and without a CIDR of its own gets an allocation.
  lemma NewAssignment(info: GlobalnetInfo, config: Config, r: Assignment) returns (a: Allocation)
    requires config.clusterId !in info.networks && config.cidr == NoText && MayAssign(info, config, r)
    ensures MayAllocate(info, a) && r == FromAllocation(a)
  {
    a :| MayAllocate(info, a) && r == FromAllocation(a);
  }

  // Exact capacity of the whole allocation path: with n clusters enrolled in a
  // range that fills up, the next one gets slot n while there is one, and an error
  // from then on, whatever order the registry is listed in.
  lemma EnrolmentIsExact(net: Block, exp: nat, cell: Cell, ids: seq<string>, id: string, r: Assignment)
    requires cell.enabled && ParseNet(cell.range) == Some(net) && FillsUp(net, exp)
    requires exp == BlockExp(cell.clusterSize) && exp <= net.exp
    requires |ids| <= Slots(net, exp) && Distinct(ids) && id !in ids
    requires cell.clusters == Enrolled(net, exp, ids)
    requires MayAssign(ReadInfo(cell), Config(id, NoText, 0), r)
    ensures r == if |ids| < Slots(net, exp) then Assigned(SlotText(net, exp, |ids|)) else AssignError
  {
    EnrolledIsSound(net, exp, ids, id);
    SoundNetworks(cell.clusters);
    var a := NewAssignment(ReadInfo(cell), Config(id, NoText, 0), r);
    EnrolledAllocation(net, exp, ReadInfo(cell), ids, id, a);
  }

  // Recording slot n enrols the next cluster.
  lemma EnrolNext(net: Block, exp: nat, ids: seq<string>, id: string)
    requires exp <= net.exp && |ids| < Slots(net, exp) && Distinct(ids) && id !in ids
    ensures Upsert(Enrolled(net, exp, ids), id, [SlotText(net, exp, |ids|)]) == Enrolled(net, exp, ids + [id])
  {
    EnrolledEntries(net, exp, ids);
    assert (ids + [id])[..|ids|] == ids;
  }

  // ---------- Losing a race ----------

  // From a refused write over the next read to the next choice: the join still
  // carries the CIDR it chose first, and gets through iff no size is configured
  // and its cluster has been recorded meanwhile or nothing recorded is in its way.
  lemma RetrySucceedsIff(j: Joiner, cell: Cell, again: Joiner, now: Cell, choosing: Joiner, chosen: Joiner)
    requires j.phase == Writing && SoundJoiner(j, cell) && j.snapshot.version != cell.version && again.phase == Joining
    requires LocalStep(j, cell, again, cell)
    requires LocalStep(again, now, choosing, now) && choosing.phase == Choosing
    requires now.enabled && SoundRegistry(now.clusters)
    requires Choose(choosing, chosen)
    ensures choosing.config == j.config
    ensures Succeeds(chosen) <==>
            && j.config.clusterSize == 0
            && (Listed(now.clusters, j.config.clusterId)
                || forall c <- now.clusters, b: Block | OneBlock(c, b) :: !Share(b, ParseNet(j.config.cidr).value))
  {
    AttemptWithCidrSucceedsIff(choosing, chosen);
  }

  // ---------- Runs of joins that start afresh ----------

  // A join that has not started and asks for any block of the default size
  ghost predicate ReadyToJoin(j: Joiner)
  {
    && j.phase == Joining && j.config == Config(j.config.clusterId, NoText, 0)
    && j.committed == None && j.writes == 0
  }

  // An enabled broker that has recorded these clusters, one slot after the other
  ghost predicate HasEnrolled(net: Block, cell: Cell, ids: seq<string>)
  {
    var exp := BlockExp(cell.clusterSize);
    && cell.enabled && ParseNet(cell.range) == Some(net) && exp <= net.exp
    && |ids| <= Slots(net, exp) && Distinct(ids) && cell.clusters == Enrolled(net, exp, ids)
  }

  // An enabled broker with an empty list and a range in which a block fits
  ghost predicate FreshBroker(net: Block, cell: Cell)
  {
    HasEnrolled(net, cell, [])
  }

  ghost predicate WithoutReset(run: seq<System>)
  {
    run != [] && NoReset(run, 0, |run| - 1)
  }

  // The run goes on with a step of join i.
  lemma ExtendRun(run: seq<System>, i: nat, j': Joiner, cell': Cell) returns (longer: seq<System>)
    requires IsRun(run) && i in run[|run| - 1].joiners
    requires LocalStep(run[|run| - 1].joiners[i], run[|run| - 1].cell, j', cell')
    ensures IsRun(longer) && longer == run + [System(cell', run[|run| - 1].joiners[i := j'])]
    ensures WithoutReset(run) ==> WithoutReset(longer)
  {
    var s := run[|run| - 1];
    var s' := System(cell', s.joiners[i := j']);
    longer := run + [s'];
    assert JoinerStep(s, s', i);
    assert NextAt(longer, |run| - 1) && JoinAt(longer, |run| - 1);
    forall k | 0 <= k < |run| - 1
      ensures NextAt(longer, k) && (WithoutReset(run) ==> JoinAt(longer, k))
    {
      assert NextAt(run, k);
      if WithoutReset(run) { assert JoinAt(run, k); }
    }
  }

  // What a new cluster may be given, on any registry of enrolled clusters, or on an
  // empty one even if the range does not fill up
  lemma SlotMayBeAssigned(net: Block, cell: Cell, ids: seq<string>, id: string)
    requires HasEnrolled(net, cell, ids) && id !in ids && |ids| < Slots(net, BlockExp(cell.clusterSize))
    requires FillsUp(net, BlockExp(cell.clusterSize)) || ids == []
    ensures MayAssign(ReadInfo(cell), Config(id, NoText, 0), Assigned(SlotText(net, BlockExp(cell.clusterSize), |ids|)))
  {
    var exp := BlockExp(cell.clusterSize);
    var info := ReadInfo(cell);
    var order := Filled(net, exp, |ids|);
    EnrolledIsSound(net, exp, ids, id);
    SoundNetworks(cell.clusters);
    forall b: Block
      ensures b in order <==> Records(info.networks, b)
    {
      RecordsIffEntry(cell.clusters, b);
      EnrolledBlocks(net, exp, ids, b);
    }
    NextSlotIsFound(net, exp, |ids|);
    var a := Allocate(net, order, cell.clusterSize);
    assert MayAllocate(info, a);
    assert FromAllocation(a) == Assigned(SlotText(net, exp, |ids|));
  }

  lemma NextSlotIsFound(net: Block, exp: nat, n: nat)
    requires exp <= net.exp && n < Slots(net, exp) && (FillsUp(net, exp) || n == 0)
    ensures Run(net, Filled(net, exp, n), exp) == Found(Slot(net, exp, n).first)
  {
    if FillsUp(net, exp) {
      CapacityHolds(net, exp, n);
    } else {
      FoundIffFree(net, [], exp);
      SlotIsFree(net, exp, 0);
      ExpectedIsFirstFit(net, exp, 0);
      FirstFitUnique(net, [], exp, Run(net, [], exp), Expected(net, exp, 0));
    }
  }

  // The join with its snapshot, and with the next slot chosen on it
  function HavingRead(j: Joiner, cell: Cell): Joiner
  {
    j.(phase := Choosing, snapshot := cell)
  }

  function HavingChosen(j: Joiner, cell: Cell, cidr: CidrText): Joiner
  {
    j.(phase := Writing, snapshot := cell, config := j.config.(cidr := cidr))
  }

  lemma MayChoose(net: Block, cell: Cell, ids: seq<string>, j: Joiner)
    requires HasEnrolled(net, cell, ids) && |ids| < Slots(net, BlockExp(cell.clusterSize))
    requires FillsUp(net, BlockExp(cell.clusterSize)) || ids == []
    requires ReadyToJoin(j) && j.config.clusterId !in ids
    ensures Choose(HavingRead(j, cell), HavingChosen(j, cell, SlotText(net, BlockExp(cell.clusterSize), |ids|)))
  {
    var cidr := SlotText(net, BlockExp(cell.clusterSize), |ids|);
    var info := ReadInfo(cell);
    EnrolledIsSound(net, BlockExp(cell.clusterSize), ids, j.config.clusterId);
    SlotMayBeAssigned(net, cell, ids, j.config.clusterId);
    assert Validate(info, j.config) == (Some(NoText), info.clusterSize);
    assert MayAssign(info.(clusterSize := info.clusterSize), j.config.(cidr := NoText), Assigned(cidr));
    assert HavingChosen(j, cell, cidr) == AfterAssignment(HavingRead(j, cell), info, NoText, Assigned(cidr));
  }

  // Writing back the next slot enrols the cluster.
  lemma WriteEnrols(net: Block, cell: Cell, ids: seq<string>, j: Joiner)
    requires HasEnrolled(net, cell, ids) && |ids| < Slots(net, BlockExp(cell.clusterSize)) && j.config.clusterId !in ids
    ensures var written := CellWrittenBy(HavingChosen(j, cell, SlotText(net, BlockExp(cell.clusterSize), |ids|)));
            && HasEnrolled(net, written, ids + [j.config.clusterId])
            && written == cell.(version := cell.version + 1, clusters := written.clusters)
  {
    EnrolNext(net, BlockExp(cell.clusterSize), ids, j.config.clusterId);
  }

  // A join reads and chooses the next slot.
  lemma ChoosesNext(net: Block, run: seq<System>, i: nat, ids: seq<string>) returns (longer: seq<System>)
    requires IsRun(run) && i in run[|run| - 1].joiners
    requires var s := run[|run| - 1]; var exp := BlockExp(s.cell.clusterSize);
             && HasEnrolled(net, s.cell, ids) && |ids| < Slots(net, exp) && (FillsUp(net, exp) || ids == [])
             && ReadyToJoin(s.joiners[i]) && s.joiners[i].config.clusterId !in ids
    ensures IsRun(longer) && run <= longer && (WithoutReset(run) ==> WithoutReset(longer))
    ensures var s := run[|run| - 1];
            longer[|longer| - 1] == System(s.cell, s.joiners[i := HavingChosen(s.joiners[i], s.cell,
                                                                               SlotText(net, BlockExp(s.cell.clusterSize), |ids|))])
  {
    var s := run[|run| - 1];
    var j := s.joiners[i];
    MayChoose(net, s.cell, ids, j);
    longer := ExtendRun(run, i, HavingRead(j, s.cell), s.cell);
    longer := ExtendRun(longer, i, HavingChosen(j, s.cell, SlotText(net, BlockExp(s.cell.clusterSize), |ids|)), s.cell);
  }

  // A join that meets no other reads, chooses the next slot, and writes.
  lemma UndisturbedJoin(net: Block, run: seq<System>, i: nat, ids: seq<string>) returns (longer: seq<System>)
    requires IsRun(run) && i in run[|run| - 1].joiners
    requires var s := run[|run| - 1]; var exp := BlockExp(s.cell.clusterSize);
             && HasEnrolled(net, s.cell, ids) && |ids| < Slots(net, exp) && (FillsUp(net, exp) || ids == [])
             && ReadyToJoin(s.joiners[i]) && s.joiners[i].config.clusterId !in ids
    ensures IsRun(longer) && run <= longer && (WithoutReset(run) ==> WithoutReset(longer))
    ensures var s, t := run[|run| - 1], longer[|longer| - 1];
            && i in t.joiners && t.joiners == s.joiners[i := t.joiners[i]]
            && Owns(t.joiners[i])
            && t.joiners[i].config == Config(s.joiners[i].config.clusterId, SlotText(net, BlockExp(s.cell.clusterSize), |ids|), 0)
            && t.cell.clusterSize == s.cell.clusterSize
            && t.cell.range == s.cell.range
            && HasEnrolled(net, t.cell, ids + [s.joiners[i].config.clusterId])
  {
    var s := run[|run| - 1];
    var j, exp := s.joiners[i], BlockExp(s.cell.clusterSize);
    var chosen := HavingChosen(j, s.cell, SlotText(net, exp, |ids|));
    longer := ChoosesNext(net, run, i, ids);
    longer := ExtendRun(longer, i, HavingWritten(chosen, Joined), CellWrittenBy(chosen));
    WriteEnrols(net, s.cell, ids, j);
  }

  // ---------- A race, lost although there is space ----------

  // Two clusters choose on the same empty registry and the other one writes first:
  // in this run the loser fails on its next attempt, although a cluster that started
  // afresh would be given the second slot.
  lemma LostRaceFailsWithSpaceLeft(net: Block, cell: Cell, x: Joiner, y: Joiner) returns (run: seq<System>)
    requires FreshBroker(net, cell) && ReadyToJoin(x) && ReadyToJoin(y) && x.config.clusterId != y.config.clusterId
    requires BlockExp(cell.clusterSize) < net.exp && FillsUp(net, BlockExp(cell.clusterSize)) && y.retries > 0
    ensures IsRun(run) && WithoutReset(run) && run[0] == System(cell, map[0 := x, 1 := y])
    ensures var end, exp := run[|run| - 1], BlockExp(cell.clusterSize);
            && 0 in end.joiners && 1 in end.joiners
            && Owns(end.joiners[0]) && end.joiners[1].phase == Failed
            && HasEnrolled(net, end.cell, [x.config.clusterId])
            && Slots(net, exp) > 1
            && forall r | MayAssign(ReadInfo(end.cell), Config(y.config.clusterId, NoText, 0), r) ::
                 r == Assigned(SlotText(net, exp, 1))
  {
    var exp, winner := BlockExp(cell.clusterSize), x.config.clusterId;
    Pow2Monotone(1, net.exp - exp);
    run := BothChoose(net, cell, x, y);
    NextSlotForAll(net, run[|run| - 1].cell, [winner], y.config.clusterId);
    run := LoserRetries(net, cell, y, winner, run);
  }

  lemma NextSlotForAll(net: Block, cell: Cell, ids: seq<string>, id: string)
    requires HasEnrolled(net, cell, ids) && id !in ids && FillsUp(net, BlockExp(cell.clusterSize))
    requires |ids| < Slots(net, BlockExp(cell.clusterSize))
    ensures forall r | MayAssign(ReadInfo(cell), Config(id, NoText, 0), r) ::
              r == Assigned(SlotText(net, BlockExp(cell.clusterSize), |ids|))
  {
    forall r | MayAssign(ReadInfo(cell), Config(id, NoText, 0), r)
      ensures r == Assigned(SlotText(net, BlockExp(cell.clusterSize), |ids|))
    {
      EnrolmentIsExact(net, BlockExp(cell.clusterSize), cell, ids, id, r);
    }
  }

  // Both joins choose the first slot, and the first one has written it.
  lemma BothChoose(net: Block, cell: Cell, x: Joiner, y: Joiner) returns (run: seq<System>)
    requires FreshBroker(net, cell) && ReadyToJoin(x) && ReadyToJoin(y)
    ensures IsRun(run) && WithoutReset(run) && run[0] == System(cell, map[0 := x, 1 := y])
    ensures var s, slot := run[|run| - 1], SlotText(net, BlockExp(cell.clusterSize), 0);
            && s.joiners.Keys == {0, 1} && Owns(s.joiners[0]) && s.joiners[1] == HavingChosen(y, cell, slot)
            && s.cell.version == cell.version + 1 && s.cell.clusterSize == cell.clusterSize
            && HasEnrolled(net, s.cell, [x.config.clusterId])
  {
    var x' := HavingChosen(x, cell, SlotText(net, BlockExp(cell.clusterSize), 0));
    run := [System(cell, map[0 := x, 1 := y])];
    run := ChoosesNext(net, run, 0, []);
    run := ChoosesNext(net, run, 1, []);
    run := ExtendRun(run, 0, HavingWritten(x', Joined), CellWrittenBy(x'));
    WriteEnrols(net, cell, [], x);
    assert [] + [x.config.clusterId] == [x.config.clusterId];
  }

  // The write of the other join is refused; it reads again and gives up.
  lemma LoserRetries(net: Block, cell: Cell, y: Joiner, winner: string, run: seq<System>) returns (longer: seq<System>)
    requires IsRun(run) && WithoutReset(run) && ReadyToJoin(y) && y.retries > 0 && y.config.clusterId != winner
    requires var s := run[|run| - 1];
             && FreshBroker(net, cell) && HasEnrolled(net, s.cell, [winner]) && s.cell.version != cell.version
             && s.cell.clusterSize == cell.clusterSize
             && 1 in s.joiners && s.joiners[1] == HavingChosen(y, cell, SlotText(net, BlockExp(cell.clusterSize), 0))
    ensures IsRun(longer) && WithoutReset(longer) && run <= longer
    ensures var s, t := run[|run| - 1], longer[|longer| - 1];
            && t.cell == s.cell && 1 in t.joiners && t.joiners == s.joiners[1 := t.joiners[1]]
            && t.joiners[1].phase == Failed
  {
    var now := run[|run| - 1].cell;
    var again := run[|run| - 1].joiners[1].(phase := Joining, retries := y.retries - 1);
    var failed := HavingRead(again, now).(phase := Failed, config := y.config);
    RetryIsRefused(net, now, winner, HavingRead(again, now), failed);
    longer := ExtendRun(run, 1, again, now);
    longer := ExtendRun(longer, 1, HavingRead(again, now), now);
    longer := ExtendRun(longer, 1, failed, now);
  }

  lemma RetryIsRefused(net: Block, cell: Cell, winner: string, j: Joiner, failed: Joiner)
    requires HasEnrolled(net, cell, [winner]) && j.phase == Choosing && j.snapshot == cell
    requires j.config == Config(j.config.clusterId, SlotText(net, BlockExp(cell.clusterSize), 0), 0) && j.config.clusterId != winner
    requires failed == j.(phase := Failed, config := j.config.(cidr := NoText))
    ensures Choose(j, failed)
  {
    var info := ReadInfo(cell);
    SameSlotIsRefused(net, BlockExp(cell.clusterSize), [winner], 0, j.config.clusterId);
    EnrolledIsSound(net, BlockExp(cell.clusterSize), [winner], j.config.clusterId);
    assert Validate(info, j.config) == (Some(j.config.cidr), info.clusterSize);
    assert j.config.(cidr := j.config.cidr) == j.config && info.(clusterSize := info.clusterSize) == info;
    assert MayAssign(info, j.config, AssignError);
    assert failed == AfterAssignment(j, info, j.config.cidr, AssignError);
  }

  lemma SameSlotIsRefused(net: Block, exp: nat, ids: seq<string>, k: nat, loser: string)
    requires exp <= net.exp && k < |ids| <= Slots(net, exp) && Distinct(ids) && loser !in ids
    ensures !NoOverlap(NetworksOf(Enrolled(net, exp, ids)), Config(loser, SlotText(net, exp, k), 0))
  {
    var clusters := Enrolled(net, exp, ids);
    EnrolledIsSound(net, exp, ids, loser);
    NoOverlapOnSound(clusters, Config(loser, SlotText(net, exp, k), 0));
    TakenSlotShares(net, exp, ids, k);
  }

  // A slot that is taken shares its addresses with the entry that has it.
  lemma TakenSlotShares(net: Block, exp: nat, ids: seq<string>, k: nat)
    requires exp <= net.exp && k < |ids| <= Slots(net, exp)
    ensures WellFormed(SlotText(net, exp, k))
    ensures exists c <- Enrolled(net, exp, ids), b: Block | OneBlock(c, b) :: Share(b, ParseNet(SlotText(net, exp, k)).value)
  {
    EnrolledEntries(net, exp, ids);
    var slot := Slot(net, exp, k);
    ContainsIsInterval(slot, slot.first);
    assert Share(slot, slot);
    assert OneBlock(Enrolled(net, exp, ids)[k], slot);
  }

  // ---------- Broker resets ----------

  // The restriction in JoinTheory.OwnersAreDisjoint is needed: for every enabled
  // broker with an empty list and space for a block there is a run with one reset
  // between two joins after which two clusters own the same block.
  lemma ResetCanDuplicate(net: Block, cell: Cell, x: Joiner, y: Joiner) returns (run: seq<System>)
    requires FreshBroker(net, cell) && ReadyToJoin(x) && ReadyToJoin(y) && x.config.clusterId != y.config.clusterId
    ensures IsRun(run) && run[0] == System(cell, map[0 := x, 1 := y])
    ensures var end := run[|run| - 1].joiners;
            && 0 in end && 1 in end && Owns(end[0]) && Owns(end[1])
            && end[0].config.clusterId != end[1].config.clusterId
            && end[0].config.cidr == end[1].config.cidr
  {
    var s0 := System(cell, map[0 := x, 1 := y]);
    run := UndisturbedJoin(net, [s0], 0, []);
    var s := run[|run| - 1];
    var t := System(ResetCell(s.cell, true, s.cell.range, s.cell.clusterSize), s.joiners);
    run := ExtendByReset(run, t);
    run := UndisturbedJoin(net, run, 1, []);
  }

  lemma ExtendByReset(run: seq<System>, s: System) returns (longer: seq<System>)
    requires IsRun(run) && ResetStep(run[|run| - 1], s)
    ensures IsRun(longer) && longer == run + [s]
  {
    longer := run + [s];
    forall k | 0 <= k < |longer| - 1
      ensures NextAt(longer, k)
    {
      if k < |run| - 1 { assert NextAt(run, k); }
    }
  }
}
