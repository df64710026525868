/**
 What the join protocol gives the clusters that use it: allocations that stay,
 agreement with the registry, and the exact effect of a lost race.
 */
module JoinTheory {
  import opened Wrappers
  import opened Cidr
  import opened Globalnet
  import opened Registry
  import opened Join

  ghost predicate JoinAt(run: seq<System>, k: nat)
    requires k < |run| - 1
  {
    JoinStep(run[k], run[k + 1])
  }

  // No broker reset happens between states a and b of the run.
  ghost predicate NoReset(run: seq<System>, a: nat, b: nat)
    requires a <= b < |run|
  {
    forall k | a <= k < b :: JoinAt(run, k)
  }

  // A join step leaves the registry alone or appends one entry to it.
  lemma JoinerStepAppends(s: System, s': System, i: nat)
    requires Sound(s) && JoinerStep(s, s', i)
    ensures s.cell.clusters <= s'.cell.clusters
    ensures s'.cell.enabled == s.cell.enabled && s'.cell.range == s.cell.range && s'.cell.clusterSize == s.cell.clusterSize
    ensures s'.cell != s.cell ==> s'.joiners[i].committed == Some(s'.cell)
  {
    var j := s.joiners[i];
    assert SoundJoiner(j, s.cell);
    if j.phase == Writing { AppendIsSound(j.snapshot.clusters, j.config); }
  }

  lemma JoinStepAppends(s: System, s': System)
    requires Sound(s) && JoinStep(s, s')
    ensures s.cell.clusters <= s'.cell.clusters
  {
    var i :| JoinerStep(s, s', i);
    JoinerStepAppends(s, s', i);
  }

  // Between broker resets the registry only grows at its end, so that an entry
  // never changes and never disappears.
  lemma {:induction false} RegistryOnlyGrows(run: seq<System>, a: nat, b: nat)
    requires IsRun(run) && a <= b < |run| && NoReset(run, a, b)
    ensures run[a].cell.clusters <= run[b].cell.clusters
    decreases b
  {
    if a < b {
      RegistryOnlyGrows(run, a, b - 1);
      SoundAt(run, b - 1);
      assert JoinAt(run, b - 1);
      JoinStepAppends(run[b - 1], run[b]);
    }
  }

  // Whatever happens, the stored object stays sound and every change of it has a new
  // version: what a single join sees of the others is fair.
  lemma {:induction false} StoreIsLater(run: seq<System>, a: nat, b: nat)
    requires IsRun(run) && a <= b < |run|
    ensures Later(run[a].cell, run[b].cell) && SoundRegistry(run[b].cell.clusters)
    decreases b
  {
    SoundAt(run, b);
    if a < b {
      StoreIsLater(run, a, b - 1);
      SoundAt(run, b - 1);
      assert NextAt(run, b - 1);
      NextIsLater(run[b - 1], run[b]);
    }
  }

  lemma NextIsLater(s: System, s': System)
    requires Sound(s) && Next(s, s')
    ensures Later(s.cell, s'.cell)
  {
    if !ResetStep(s, s') {
      var i :| JoinerStep(s, s', i);
      LocalStepIsSound(s.joiners[i], s.cell, s'.joiners[i], s'.cell);
    }
  }

  // ---------- A join for a cluster that is already recorded ----------

  // The join has not started to write and its snapshot, if it has one, has the entry.
  ghost predicate WillKeep(j: Joiner, id: string, cidr: CidrText, writes: nat)
  {
    && j.config.clusterId == id && j.writes == writes && j.committed == None
    && j.phase in {Joining, Choosing, Joined, Failed}
    && (j.phase in {Choosing, Joined} ==> Recorded(j.snapshot.clusters, id, cidr))
    && (j.phase == Joined && j.snapshot.enabled ==> j.config.cidr == cidr)
  }

  lemma ChooseKeeps(j: Joiner, j': Joiner, id: string, cidr: CidrText)
    requires j.phase == Choosing && SoundRegistry(j.snapshot.clusters) && WillKeep(j, id, cidr, j.writes) && Choose(j, j')
    ensures WillKeep(j', id, cidr, j.writes)
  {
    var info := ReadInfo(j.snapshot);
    NetworksOfSound(j.snapshot.clusters, ClusterInfo(id, [cidr]));
    assert info.networks[id].cidrs == [cidr];
  }

  lemma StepKeeps(s: System, s': System, i: nat, id: string, cidr: CidrText, writes: nat)
    requires Sound(s) && JoinStep(s, s')
    requires Recorded(s.cell.clusters, id, cidr)
    requires i in s.joiners && WillKeep(s.joiners[i], id, cidr, writes)
    ensures i in s'.joiners && WillKeep(s'.joiners[i], id, cidr, writes)
  {
    var m :| JoinerStep(s, s', m);
    assert SoundJoiner(s.joiners[i], s.cell);
    if m == i && s.joiners[i].phase == Choosing { ChooseKeeps(s.joiners[i], s'.joiners[i], id, cidr); }
  }

  lemma {:induction false} RunKeeps(run: seq<System>, a: nat, b: nat, i: nat, id: string, cidr: CidrText, writes: nat)
    requires IsRun(run) && a <= b < |run| && NoReset(run, a, b)
    requires Recorded(run[a].cell.clusters, id, cidr)
    requires i in run[a].joiners && WillKeep(run[a].joiners[i], id, cidr, writes)
    ensures i in run[b].joiners && WillKeep(run[b].joiners[i], id, cidr, writes)
    decreases b
  {
    if a < b {
      RunKeeps(run, a, b - 1, i, id, cidr, writes);
      SoundAt(run, b - 1);
      RegistryOnlyGrows(run, a, b - 1);
      assert JoinAt(run, b - 1);
      StepKeeps(run[b - 1], run[b], i, id, cidr, writes);
    }
  }

  // A join that starts when its cluster is recorded, with no reset since, writes
  // nothing, and if it succeeds with Globalnet enabled it ends with the recorded
  // CIDR, whatever CIDR or size it was configured with.
  lemma RecordedJoinWritesNothing(run: seq<System>, a: nat, b: nat, i: nat, cidr: CidrText)
    requires IsRun(run) && a <= b < |run| && NoReset(run, a, b)
    requires i in run[a].joiners && run[a].joiners[i].phase == Joining && run[a].joiners[i].committed == None
    requires Recorded(run[a].cell.clusters, run[a].joiners[i].config.clusterId, cidr)
    ensures i in run[b].joiners
    ensures run[b].joiners[i].writes == run[a].joiners[i].writes && run[b].joiners[i].committed == None
    ensures run[b].joiners[i].phase == Joined && run[b].joiners[i].snapshot.enabled ==> run[b].joiners[i].config.cidr == cidr
  {
    RunKeeps(run, a, b, i, run[a].joiners[i].config.clusterId, cidr, run[a].joiners[i].writes);
  }

  // ---------- Agreement with the registry ----------

  // A version that a join has written was the broker's at some point of the run.
  lemma {:induction false} CommittedWasStored(run: seq<System>, k: nat, i: nat)
    requires IsRun(run) && k < |run| && i in run[k].joiners && run[k].joiners[i].committed.Some?
    ensures exists m | 0 < m <= k :: run[m].cell == run[k].joiners[i].committed.value
    decreases k
  {
    if k > 0 {
      var s, s' := run[k - 1], run[k];
      assert NextAt(run, k - 1);
      assert i in s.joiners && (s.joiners[i] == s'.joiners[i] || JoinerStep(s, s', i)) by {
        if !ResetStep(s, s') {
          var m :| JoinerStep(s, s', m);
        }
      }
      if s.joiners[i].committed == s'.joiners[i].committed {
        CommittedWasStored(run, k - 1, i);
      } else {
        assert run[k].cell == s'.joiners[i].committed.value;
      }
    }
  }

  // A join that has succeeded with Globalnet enabled in its last snapshot has
  // written at most once, and its CIDR is the one recorded for its cluster in the
  // version that it wrote, which the broker has stored, or else in its snapshot.
  lemma JoinAgreement(run: seq<System>, k: nat, i: nat)
    requires IsRun(run) && k < |run| && i in run[k].joiners
    requires run[k].joiners[i].phase == Joined && run[k].joiners[i].snapshot.enabled
    ensures var j := run[k].joiners[i];
            && j.writes <= 1
            && (j.writes == 1 <==> j.committed.Some?)
            && Recorded(if j.committed.Some? then j.committed.value.clusters else j.snapshot.clusters,
                        j.config.clusterId, j.config.cidr)
            && (j.committed.Some? ==> exists m | 0 < m <= k :: run[m].cell == j.committed.value)
  {
    SoundAt(run, k);
    assert SoundJoiner(run[k].joiners[i], run[k].cell);
    if run[k].joiners[i].committed.Some? { CommittedWasStored(run, k, i); }
  }

  // ---------- Clusters that have joined ----------

  // The cluster believes to own the CIDR in its configuration.
  ghost predicate Owns(j: Joiner)
  {
    j.phase == Joined && j.snapshot.enabled
  }

  ghost predicate SnapshotIsPrefix(cell: Cell, j: Joiner)
  {
    && (j.phase in {Choosing, Writing} ==> j.snapshot.clusters <= cell.clusters)
    && (Owns(j) ==> Recorded(cell.clusters, j.config.clusterId, j.config.cidr))
  }

  lemma PrefixOfLonger(cell: Cell, cell': Cell, j: Joiner)
    requires SnapshotIsPrefix(cell, j) && cell.clusters <= cell'.clusters
    ensures SnapshotIsPrefix(cell', j)
  {
  }

  lemma LocalStepKeepsPrefix(j: Joiner, cell: Cell, j': Joiner, cell': Cell)
    requires SoundJoiner(j, cell) && SoundJoiner(j', cell') && LocalStep(j, cell, j', cell')
    requires SnapshotIsPrefix(cell, j)
    ensures SnapshotIsPrefix(cell', j')
  {
  }

  lemma StepKeepsPrefix(s: System, s': System, k: nat)
    requires Sound(s) && Sound(s') && JoinStep(s, s') && k in s.joiners
    requires SnapshotIsPrefix(s.cell, s.joiners[k])
    ensures k in s'.joiners && SnapshotIsPrefix(s'.cell, s'.joiners[k])
  {
    var i :| JoinerStep(s, s', i);
    if i == k {
      assert SoundJoiner(s.joiners[k], s.cell) && SoundJoiner(s'.joiners[k], s'.cell);
      LocalStepKeepsPrefix(s.joiners[k], s.cell, s'.joiners[k], s'.cell);
    } else {
      JoinerStepAppends(s, s', i);
      PrefixOfLonger(s.cell, s'.cell, s.joiners[k]);
    }
  }

  lemma SameJoiners(s: System, s': System)
    requires JoinStep(s, s')
    ensures s.joiners.Keys == s'.joiners.Keys
  {
  }

  // The join was about to read at some state m with no reset since.
  ghost predicate StartedSinceReset(run: seq<System>, m: nat, k: nat, i: nat)
    requires m <= k < |run|
  {
    NoReset(run, m, k) && i in run[m].joiners && run[m].joiners[i].phase == Joining
  }

  lemma {:induction false} OwnersAreRecorded(run: seq<System>, m: nat, k: nat, i: nat)
    requires IsRun(run) && m <= k < |run| && StartedSinceReset(run, m, k, i)
    ensures i in run[k].joiners && SnapshotIsPrefix(run[k].cell, run[k].joiners[i])
    decreases k
  {
    if m < k {
      assert JoinAt(run, k - 1);
      SameJoiners(run[k - 1], run[k]);
      OwnersAreRecorded(run, m, k - 1, i);
      SoundAt(run, k - 1);
      SoundAt(run, k);
      StepKeepsPrefix(run[k - 1], run[k], i);
    }
  }

  // Whatever resets there have been: clusters with different IDs whose joins have
  // been about to read since the latest one, and have joined, own blocks without a
  // common address; joins for the same ID own the same CIDR. The remaining case is a
  // reset after one of them has read, in which JoinScenarios.ResetCanDuplicate gives
  // two clusters the same block.
  lemma OwnersAreDisjoint(run: seq<System>, m: nat, n: nat, k: nat, a: nat, b: nat)
    requires IsRun(run) && m <= k && n <= k < |run|
    requires StartedSinceReset(run, m, k, a) && StartedSinceReset(run, n, k, b)
    requires a in run[k].joiners && b in run[k].joiners && Owns(run[k].joiners[a]) && Owns(run[k].joiners[b])
    ensures var x, y := run[k].joiners[a].config, run[k].joiners[b].config;
            && WellFormed(x.cidr) && WellFormed(y.cidr)
            && if x.clusterId == y.clusterId then x.cidr == y.cidr
               else !Share(ParseNet(x.cidr).value, ParseNet(y.cidr).value)
  {
    OwnersAreRecorded(run, m, k, a);
    OwnersAreRecorded(run, n, k, b);
    SoundAt(run, k);
    var clusters := run[k].cell.clusters;
    var x, y := run[k].joiners[a].config, run[k].joiners[b].config;
    var p :| 0 <= p < |clusters| && clusters[p] == ClusterInfo(x.clusterId, [x.cidr]);
    var q :| 0 <= q < |clusters| && clusters[q] == ClusterInfo(y.clusterId, [y.cidr]);
    assert OneBlock(clusters[p], ParseNet(x.cidr).value) && OneBlock(clusters[q], ParseNet(y.cidr).value);
    if x.clusterId != y.clusterId {
      if p < q {
        assert !Share(ParseNet(x.cidr).value, ParseNet(y.cidr).value);
      } else {
        assert q < p;
        assert !Share(ParseNet(y.cidr).value, ParseNet(x.cidr).value);
        OverlapIsShare(ParseNet(x.cidr).value, ParseNet(y.cidr).value);
        OverlapIsShare(ParseNet(y.cidr).value, ParseNet(x.cidr).value);
      }
    }
  }

  // ---------- Losing a race ----------

  // The attempt goes on to a write or has nothing to write.
  ghost predicate Succeeds(j': Joiner)
  {
    j'.phase in {Writing, Joined}
  }

  // After a conflict the CIDR that the first attempt chose is still in the
  // configuration. With a CIDR in the configuration, an attempt on an enabled,
  // sound snapshot succeeds iff no cluster size is configured and the cluster is
  // recorded by now or the CIDR shares no address with any recorded block.
  lemma AttemptWithCidrSucceedsIff(j: Joiner, j': Joiner)
    requires j.phase == Choosing && j.snapshot.enabled && SoundRegistry(j.snapshot.clusters)
    requires WellFormed(j.config.cidr) && Choose(j, j')
    ensures Succeeds(j') <==>
            && j.config.clusterSize == 0
            && (Listed(j.snapshot.clusters, j.config.clusterId)
                || forall c <- j.snapshot.clusters, b: Block | OneBlock(c, b) :: !Share(b, ParseNet(j.config.cidr).value))
  {
    var info := ReadInfo(j.snapshot);
    var (cidr, size) := Validate(info, j.config);
    var clusters := j.snapshot.clusters;
    if cidr.Some? {
      assert cidr.value == j.config.cidr && j.config.clusterSize == 0;
      var config := j.config;
      assert j.config.(cidr := cidr.value) == config;
      var r: Assignment :| MayAssign(info.(clusterSize := size), config, r) && j' == AfterAssignment(j, info, cidr.value, r);
      NetworksOfKeys(clusters, config.clusterId);
      SoundNetworks(clusters);
      if Listed(clusters, config.clusterId) {
        assert PreConfigured(config.clusterId, info.networks);
      } else {
        NoOverlapOnSound(clusters, config);
      }
    }
  }

  // For a cluster without an entry, the overlap check looks at all recorded blocks.
  lemma NoOverlapOnSound(clusters: seq<ClusterInfo>, config: Config)
    requires SoundRegistry(clusters) && !Listed(clusters, config.clusterId) && WellFormed(config.cidr)
    ensures NoOverlap(NetworksOf(clusters), config) <==>
            forall c <- clusters, b: Block | OneBlock(c, b) :: !Share(b, ParseNet(config.cidr).value)
  {
    var networks := NetworksOf(clusters);
    var block := ParseNet(config.cidr).value;
    SoundNetworks(clusters);
    NoOverlapExact(networks, config);
    NetworksOfKeys(clusters, config.clusterId);
    if NoOverlap(networks, config) {
      forall c <- clusters, b: Block | OneBlock(c, b)
        ensures !Share(b, block)
      {
        NetworksOfSound(clusters, c);
        assert c.globalCidr[0] in networks[c.clusterId].cidrs;
        assert !Clashes(c.globalCidr[0], block);
      }
    }
    if forall c <- clusters, b: Block | OneBlock(c, b) :: !Share(b, block) {
      forall key <- networks, t <- networks[key].cidrs
        ensures !Clashes(t, block)
      {
        NetworksOfEntry(clusters, key);
        var c := ClusterInfo(key, networks[key].cidrs);
        assert t == c.globalCidr[0];
        assert OneBlock(c, ParseNet(t).value);
      }
    }
  }
}
