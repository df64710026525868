/**
 Exact capacity of the whole protocol. Whatever the joins of fresh clusters do at
 the same time, the registry only ever holds the first slots of the range, one
 after the other, and every number of clusters up to the last slot is reached.
 */
module Enrolment {
  import opened Wrappers
  import opened Cidr
  import opened Capacity
  import opened Globalnet
  import opened Registry
  import opened Join
  import opened JoinTheory
  import opened JoinScenarios

  // The stored object once these clusters have been added to an empty list
  function EnrolledCell(net: Block, start: Cell, ids: seq<string>): Cell
    requires Fits(net, start, ids)
  {
    start.(version := start.version + |ids|, clusters := Enrolled(net, BlockExp(start.clusterSize), ids))
  }

  predicate Fits(net: Block, start: Cell, ids: seq<string>)
  {
    BlockExp(start.clusterSize) <= net.exp && |ids| <= Slots(net, BlockExp(start.clusterSize))
  }

  // The CIDR is one of the first n slots.
  ghost predicate IsSlotBefore(net: Block, start: Cell, n: nat, cidr: CidrText)
    requires BlockExp(start.clusterSize) <= net.exp && n <= Slots(net, BlockExp(start.clusterSize))
  {
    exists k | 0 <= k < n :: cidr == SlotText(net, BlockExp(start.clusterSize), k)
  }

  // The join carries no CIDR, or, after a lost race, a slot that is taken.
  ghost predicate CarriesNothingFree(net: Block, start: Cell, n: nat, j: Joiner)
    requires BlockExp(start.clusterSize) <= net.exp && n <= Slots(net, BlockExp(start.clusterSize))
  {
    j.config.clusterSize == 0 && (j.config.cidr == NoText || IsSlotBefore(net, start, n, j.config.cidr))
  }

  // The snapshot shows the first n clusters; a write is for a new cluster and the
  // slot after theirs.
  ghost predicate HasSeen(net: Block, start: Cell, ids: seq<string>, n: nat, j: Joiner)
    requires Fits(net, start, ids) && n <= |ids|
  {
    && j.snapshot == EnrolledCell(net, start, ids[..n])
    && (j.phase == Choosing ==> CarriesNothingFree(net, start, n, j))
    && (j.phase == Writing ==>
          && j.config.clusterId !in ids[..n] && n < Slots(net, BlockExp(start.clusterSize))
          && j.config.clusterSize == 0 && j.config.cidr == SlotText(net, BlockExp(start.clusterSize), n))
  }

  ghost predicate OnSchedule(net: Block, start: Cell, ids: seq<string>, j: Joiner)
    requires Fits(net, start, ids)
  {
    && (j.phase == Joining ==> CarriesNothingFree(net, start, |ids|, j))
    && (j.phase in {Choosing, Writing} ==> exists n | 0 <= n <= |ids| :: HasSeen(net, start, ids, n, j))
  }

  // What every state looks like when these clusters have been recorded
  ghost predicate Enrolling(net: Block, start: Cell, ids: seq<string>, s: System)
  {
    && Fits(net, start, ids) && Distinct(ids)
    && s.cell == EnrolledCell(net, start, ids)
    && forall i <- s.joiners :: OnSchedule(net, start, ids, s.joiners[i])
  }

  // More clusters on the list do not disturb a join.
  lemma LaterOnSchedule(net: Block, start: Cell, ids: seq<string>, more: seq<string>, j: Joiner)
    requires Fits(net, start, more) && ids <= more && OnSchedule(net, start, ids, j)
    ensures OnSchedule(net, start, more, j)
  {
    if j.phase in {Choosing, Writing} {
      var n :| 0 <= n <= |ids| && HasSeen(net, start, ids, n, j);
      assert more[..n] == ids[..n];
      assert HasSeen(net, start, more, n, j);
    }
  }

  // ---------- One choice ----------

  // A recorded cluster has nothing to write.
  lemma RecordedChoice(j: Joiner, j': Joiner)
    requires j.phase == Choosing && SoundRegistry(j.snapshot.clusters) && Choose(j, j')
    requires Listed(j.snapshot.clusters, j.config.clusterId)
    ensures j'.phase in {Joined, Failed} && j'.committed == j.committed && j'.writes == j.writes
    ensures j'.config.clusterId == j.config.clusterId && j'.snapshot == j.snapshot
  {
    NetworksOfKeys(j.snapshot.clusters, j.config.clusterId);
    SoundNetworks(j.snapshot.clusters);
  }

  // A join that carries a taken slot, for a cluster that is not recorded, gives up.
  lemma TakenChoice(net: Block, start: Cell, ids: seq<string>, j: Joiner, j': Joiner)
    requires Fits(net, start, ids) && Distinct(ids) && start.enabled && j.snapshot == EnrolledCell(net, start, ids)
    requires j.phase == Choosing && Choose(j, j') && !Listed(j.snapshot.clusters, j.config.clusterId)
    requires j.config.clusterSize == 0 && IsSlotBefore(net, start, |ids|, j.config.cidr)
    ensures j' == j.(phase := Failed, config := j.config.(cidr := NoText))
  {
    var exp := BlockExp(start.clusterSize);
    var k :| 0 <= k < |ids| && j.config.cidr == SlotText(net, exp, k);
    NotListed(net, exp, ids, j.config.clusterId);
    SameSlotIsRefused(net, exp, ids, k, j.config.clusterId);
    EnrolledIsSound(net, exp, ids, j.config.clusterId);
    var info := ReadInfo(j.snapshot);
    TakenSlotShares(net, exp, ids, k);
    assert Validate(info, j.config) == (Some(j.config.cidr), info.clusterSize);
    assert info.(clusterSize := info.clusterSize) == info && j.config.(cidr := j.config.cidr) == j.config;
    assert j.config == Config(j.config.clusterId, SlotText(net, exp, k), 0);
  }

  lemma NotListed(net: Block, exp: nat, ids: seq<string>, id: string)
    requires exp <= net.exp && |ids| <= Slots(net, exp)
    ensures Listed(Enrolled(net, exp, ids), id) <==> id in ids
  {
    var clusters := Enrolled(net, exp, ids);
    EnrolledEntries(net, exp, ids);
    if id in ids {
      var i :| 0 <= i < |ids| && ids[i] == id;
      assert clusters[i] in clusters;
    }
    if c :| c in clusters && c.clusterId == id {
      var i :| 0 <= i < |clusters| && clusters[i] == c;
      assert ids[i] == id;
    }
  }

  // A join that carries no CIDR goes on with the next slot or not at all.
  lemma FreshChoice(net: Block, ids: seq<string>, j: Joiner, j': Joiner)
    requires HasEnrolled(net, j.snapshot, ids) && FillsUp(net, BlockExp(j.snapshot.clusterSize))
    requires j.phase == Choosing && Choose(j, j') && j.config.clusterId !in ids
    requires j.config.clusterSize == 0 && j.config.cidr == NoText
    ensures j' == if |ids| < Slots(net, BlockExp(j.snapshot.clusterSize))
                  then HavingChosen(j, j.snapshot, SlotText(net, BlockExp(j.snapshot.clusterSize), |ids|))
                  else j.(phase := Failed)
  {
    var r := AssignmentOf(j, j');
    EnrolledIsSound(net, BlockExp(j.snapshot.clusterSize), ids, j.config.clusterId);
    EnrolmentIsExact(net, BlockExp(j.snapshot.clusterSize), j.snapshot, ids, j.config.clusterId, r);
  }

  lemma AssignmentOf(j: Joiner, j': Joiner) returns (r: Assignment)
    requires j.phase == Choosing && Choose(j, j') && j.snapshot.enabled
    requires j.config.clusterSize == 0 && j.config.cidr == NoText
    ensures MayAssign(ReadInfo(j.snapshot), Config(j.config.clusterId, NoText, 0), r)
    ensures j' == AfterAssignment(j, ReadInfo(j.snapshot), NoText, r)
  {
    var info := ReadInfo(j.snapshot);
    assert Validate(info, j.config) == (Some(NoText), info.clusterSize);
    assert info.(clusterSize := info.clusterSize) == info;
    assert j.config.(cidr := NoText) == Config(j.config.clusterId, NoText, 0);
    r :| MayAssign(info, Config(j.config.clusterId, NoText, 0), r) && j' == AfterAssignment(j, info, NoText, r);
  }

  lemma ChoiceOnSchedule(net: Block, start: Cell, ids: seq<string>, j: Joiner, j': Joiner)
    requires Fits(net, start, ids) && Distinct(ids)
    requires start.enabled && ParseNet(start.range) == Some(net) && FillsUp(net, BlockExp(start.clusterSize))
    requires j.phase == Choosing && OnSchedule(net, start, ids, j) && SoundRegistry(j.snapshot.clusters) && Choose(j, j')
    ensures OnSchedule(net, start, ids, j')
    ensures j.config.cidr != NoText ==>
              && j'.phase in {Joined, Failed} && j'.writes == j.writes
              && (j'.phase == Joined ==> Listed(j'.snapshot.clusters, j'.config.clusterId))
  {
    var n :| 0 <= n <= |ids| && HasSeen(net, start, ids, n, j);
    NotListed(net, BlockExp(start.clusterSize), ids[..n], j.config.clusterId);
    if Listed(j.snapshot.clusters, j.config.clusterId) {
      RecordedChoice(j, j');
    } else if j.config.cidr == NoText {
      FreshChoice(net, ids[..n], j, j');
      if j'.phase == Writing { assert HasSeen(net, start, ids, n, j'); }
    } else {
      TakenChoice(net, start, ids[..n], j, j');
    }
  }

  // ---------- One step ----------

  // A write that is stored is the next slot's; one that is refused leaves the join
  // with a slot that is taken.
  lemma WriteOnSchedule(net: Block, start: Cell, ids: seq<string>, j: Joiner)
    requires Fits(net, start, ids) && Distinct(ids) && j.phase == Writing && OnSchedule(net, start, ids, j)
    ensures var cell := EnrolledCell(net, start, ids);
            if j.snapshot.version == cell.version then
              var more := ids + [j.config.clusterId];
              Fits(net, start, more) && Distinct(more) && CellWrittenBy(j) == EnrolledCell(net, start, more)
            else CarriesNothingFree(net, start, |ids|, j)
  {
    var n :| 0 <= n <= |ids| && HasSeen(net, start, ids, n, j);
    if n == |ids| {
      assert ids[..n] == ids;
      EnrolNext(net, BlockExp(start.clusterSize), ids, j.config.clusterId);
    } else {
      assert IsSlotBefore(net, start, |ids|, j.config.cidr);
    }
  }

  lemma LocalStepOnSchedule(net: Block, start: Cell, ids: seq<string>, j: Joiner, j': Joiner, cell': Cell) returns (more: seq<string>)
    requires Fits(net, start, ids) && Distinct(ids)
    requires start.enabled && ParseNet(start.range) == Some(net) && FillsUp(net, BlockExp(start.clusterSize))
    requires OnSchedule(net, start, ids, j) && SoundJoiner(j, EnrolledCell(net, start, ids))
    requires LocalStep(j, EnrolledCell(net, start, ids), j', cell')
    ensures ids <= more && Fits(net, start, more) && Distinct(more) && cell' == EnrolledCell(net, start, more)
    ensures OnSchedule(net, start, more, j')
  {
    more := ids;
    match j.phase
    case Joining =>
      assert ids[..|ids|] == ids;
      if j'.phase == Choosing { assert HasSeen(net, start, ids, |ids|, j'); }
    case Choosing => ChoiceOnSchedule(net, start, ids, j, j');
    case Writing =>
      WriteOnSchedule(net, start, ids, j);
      if cell' != EnrolledCell(net, start, ids) { more := ids + [j.config.clusterId]; }
    case _ =>
  }

  lemma StepOnSchedule(net: Block, start: Cell, ids: seq<string>, s: System, s': System) returns (more: seq<string>)
    requires start.enabled && ParseNet(start.range) == Some(net) && FillsUp(net, BlockExp(start.clusterSize))
    requires Enrolling(net, start, ids, s) && Sound(s) && JoinStep(s, s')
    ensures Enrolling(net, start, more, s')
  {
    var i :| JoinerStep(s, s', i);
    assert SoundJoiner(s.joiners[i], s.cell);
    more := LocalStepOnSchedule(net, start, ids, s.joiners[i], s'.joiners[i], s'.cell);
    forall k <- s'.joiners
      ensures OnSchedule(net, start, more, s'.joiners[k])
    {
      if k != i { LaterOnSchedule(net, start, ids, more, s.joiners[k]); }
    }
  }

  // ---------- All runs ----------

  // The broker is fresh and no join has started yet.
  ghost predicate AllFresh(net: Block, s: System)
  {
    FreshBroker(net, s.cell) && forall i <- s.joiners :: ReadyToJoin(s.joiners[i])
  }

  lemma {:induction false} EnrollingAt(net: Block, run: seq<System>, m: nat, k: nat) returns (ids: seq<string>)
    requires IsRun(run) && m <= k < |run| && NoReset(run, m, k)
    requires AllFresh(net, run[m]) && FillsUp(net, BlockExp(run[m].cell.clusterSize))
    ensures Enrolling(net, run[m].cell, ids, run[k])
    decreases k
  {
    if m == k {
      ids := [];
      assert EnrolledCell(net, run[m].cell, []) == run[m].cell;
    } else {
      var before := EnrollingAt(net, run, m, k - 1);
      SoundAt(run, k - 1);
      assert JoinAt(run, k - 1);
      ids := StepOnSchedule(net, run[m].cell, before, run[k - 1], run[k]);
    }
  }

  // From a state with an empty list on, however any number of fresh joins get in
  // each other's way: until the next reset the registry holds different clusters,
  // cluster i owning slot i of the range, and never more than there are slots.
  lemma RegistryIsEnrolled(net: Block, run: seq<System>, m: nat, k: nat) returns (ids: seq<string>)
    requires IsRun(run) && m <= k < |run| && NoReset(run, m, k)
    requires AllFresh(net, run[m]) && FillsUp(net, BlockExp(run[m].cell.clusterSize))
    ensures HasEnrolled(net, run[k].cell, ids)
    ensures run[k].cell == run[m].cell.(version := run[m].cell.version + |ids|, clusters := run[k].cell.clusters)
  {
    ids := EnrollingAt(net, run, m, k);
  }

  // ---------- Losing a race, in all runs ----------

  // The join has not written, carries the CIDR of an earlier attempt, and can end
  // in success only if its cluster is in its snapshot.
  ghost predicate HasLost(j: Joiner, writes: nat)
  {
    && j.writes == writes
    && (j.phase in {Joining, Choosing} ==> j.config.cidr != NoText)
    && j.phase in {Joining, Choosing, Joined, Failed}
    && (j.phase == Joined ==> Listed(j.snapshot.clusters, j.config.clusterId))
  }

  lemma LoserStep(net: Block, start: Cell, ids: seq<string>, s: System, s': System, i: nat, writes: nat)
    requires start.enabled && ParseNet(start.range) == Some(net) && FillsUp(net, BlockExp(start.clusterSize))
    requires Enrolling(net, start, ids, s) && Sound(s) && JoinStep(s, s')
    requires i in s.joiners && HasLost(s.joiners[i], writes)
    ensures i in s'.joiners && HasLost(s'.joiners[i], writes)
  {
    var k :| JoinerStep(s, s', k);
    var j := s.joiners[i];
    assert SoundJoiner(j, s.cell) && OnSchedule(net, start, ids, j);
    if k == i && j.phase == Choosing { ChoiceOnSchedule(net, start, ids, j, s'.joiners[i]); }
  }

  // A join that has lost a race never writes anything again, on any schedule: it
  // fails, or another join has recorded its cluster.
  lemma {:induction false} LoserNeverWrites(net: Block, run: seq<System>, m: nat, a: nat, b: nat, i: nat)
    requires IsRun(run) && m <= a <= b < |run| && NoReset(run, m, b)
    requires AllFresh(net, run[m]) && FillsUp(net, BlockExp(run[m].cell.clusterSize))
    requires i in run[a].joiners && run[a].joiners[i].phase == Joining && run[a].joiners[i].config.cidr != NoText
    ensures i in run[b].joiners && HasLost(run[b].joiners[i], run[a].joiners[i].writes)
    decreases b
  {
    if a < b {
      LoserNeverWrites(net, run, m, a, b - 1, i);
      var ids := EnrollingAt(net, run, m, b - 1);
      SoundAt(run, b - 1);
      assert JoinAt(run, b - 1);
      LoserStep(net, run[m].cell, ids, run[b - 1], run[b], i, run[a].joiners[i].writes);
    }
  }

  // ---------- Every slot is reached ----------

  // The IDs of the first n joins
  function IdsOf(joiners: map<nat, Joiner>, n: nat): (ids: seq<string>)
    requires forall i | 0 <= i < n :: i in joiners
    ensures |ids| == n
  {
    if n == 0 then [] else IdsOf(joiners, n - 1) + [joiners[n - 1].config.clusterId]
  }

  // The first n joins are for n different clusters, and there are as many slots.
  ghost predicate CanJoinInTurn(net: Block, start: System, n: nat)
  {
    && Init(start) && AllFresh(net, start) && FillsUp(net, BlockExp(start.cell.clusterSize))
    && n <= Slots(net, BlockExp(start.cell.clusterSize))
    && (forall i | 0 <= i < n :: i in start.joiners)
    && Distinct(IdsOf(start.joiners, n))
  }

  // The first n joins own the first n slots, and the others have not started.
  ghost predicate FirstHaveJoined(net: Block, start: System, n: nat, end: System)
    requires CanJoinInTurn(net, start, n)
  {
    && HasEnrolled(net, end.cell, IdsOf(start.joiners, n)) && end.cell.clusterSize == start.cell.clusterSize
    && end.joiners.Keys == start.joiners.Keys
    && (forall i <- start.joiners | i >= n :: end.joiners[i] == start.joiners[i])
    && forall i | 0 <= i < n :: OwnsSlot(net, start, i, end)
  }

  // Join i owns slot i.
  ghost predicate OwnsSlot(net: Block, start: System, i: nat, end: System)
  {
    && BlockExp(start.cell.clusterSize) <= net.exp && i < Slots(net, BlockExp(start.cell.clusterSize))
    && i in start.joiners && i in end.joiners && Owns(end.joiners[i])
    && end.joiners[i].config == Config(start.joiners[i].config.clusterId,
                                       SlotText(net, BlockExp(start.cell.clusterSize), i), 0)
  }

  // The run leads, without a reset, from the start to the first n joins having joined.
  ghost predicate Reaches(net: Block, start: System, n: nat, run: seq<System>)
    requires CanJoinInTurn(net, start, n)
  {
    IsRun(run) && run[0] == start && WithoutReset(run) && FirstHaveJoined(net, start, n, run[|run| - 1])
  }

  ghost predicate CanReach(net: Block, start: System, n: nat)
    requires CanJoinInTurn(net, start, n)
  {
    exists run :: Reaches(net, start, n, run)
  }

  // One after the other, n clusters with different IDs get the first n slots.
  lemma {:induction false} OneAfterTheOther(net: Block, start: System, n: nat)
    requires CanJoinInTurn(net, start, n)
    ensures CanReach(net, start, n)
  {
    if n == 0 {
      NoneHasJoined(net, start, n);
    } else {
      CanJoinBefore(net, start, n);
      OneAfterTheOther(net, start, n - 1);
      OneMore(net, start, n);
    }
  }

  lemma NoneHasJoined(net: Block, start: System, n: nat)
    requires CanJoinInTurn(net, start, n) && n == 0
    ensures Reaches(net, start, n, [start])
  {
    assert IdsOf(start.joiners, n) == [];
  }

  lemma CanJoinBefore(net: Block, start: System, n: nat)
    requires CanJoinInTurn(net, start, n) && n > 0
    ensures CanJoinInTurn(net, start, n - 1) && start.joiners[n - 1].config.clusterId !in IdsOf(start.joiners, n - 1)
  {
    DistinctFront(IdsOf(start.joiners, n - 1), start.joiners[n - 1].config.clusterId);
  }

  lemma DistinctFront(ids: seq<string>, id: string)
    requires Distinct(ids + [id])
    ensures Distinct(ids) && id !in ids
  {
    var more := ids + [id];
    forall i | 0 <= i < |ids|
      ensures ids[i] != id
    {
      assert more[i] == ids[i] && more[|ids|] == id;
    }
    assert forall i | 0 <= i < |ids| :: ids[i] == more[i];
  }

  lemma OneMore(net: Block, start: System, n: nat)
    requires CanJoinInTurn(net, start, n) && n > 0 && CanJoinInTurn(net, start, n - 1)
    requires CanReach(net, start, n - 1)
    ensures CanReach(net, start, n)
  {
    var run :| Reaches(net, start, n - 1, run);
    CanJoinBefore(net, start, n);
    var longer := UndisturbedJoin(net, run, n - 1, IdsOf(start.joiners, n - 1));
    JoinedOneMore(net, start, n, run[|run| - 1], longer[|longer| - 1]);
    assert Reaches(net, start, n, longer);
  }

  lemma JoinedOneMore(net: Block, start: System, n: nat, s: System, t: System)
    requires CanJoinInTurn(net, start, n) && n > 0 && CanJoinInTurn(net, start, n - 1)
    requires FirstHaveJoined(net, start, n - 1, s)
    requires HasEnrolled(net, t.cell, IdsOf(start.joiners, n)) && t.cell.clusterSize == s.cell.clusterSize
    requires n - 1 in t.joiners && t.joiners == s.joiners[n - 1 := t.joiners[n - 1]] && OwnsSlot(net, start, n - 1, t)
    ensures FirstHaveJoined(net, start, n, t)
  {
    forall i | 0 <= i < n
      ensures OwnsSlot(net, start, i, t)
    {
      if i < n - 1 { assert OwnsSlot(net, start, i, s); }
    }
  }
}
