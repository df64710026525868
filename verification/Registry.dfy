/**
 The registry of clusters kept in the broker's config map: a list of entries on
 the broker, a map from cluster ID to CIDRs for a reader.
 */
module Registry {
  import opened Bits
  import opened Cidr
  import opened Globalnet

  datatype ClusterInfo = ClusterInfo(clusterId: string, globalCidr: seq<CidrText>)

  // The stored object. The version changes with every write.
  datatype Cell = Cell(
    version: nat,
    enabled: bool,
    range: CidrText,
    clusterSize: Word64,
    clusters: seq<ClusterInfo>)

  // ---------- The list as a map ----------

  function NetworksOf(clusters: seq<ClusterInfo>): map<string, GlobalNetwork>
  {
    if clusters == [] then map[]
    else
      var last := clusters[|clusters| - 1];
      NetworksOf(clusters[..|clusters| - 1])[last.clusterId := GlobalNetwork(last.globalCidr, last.clusterId)]
  }

  // What GetGlobalNetworks makes of the stored object; the range and the size are
  // read only when Globalnet is enabled.
  function ReadInfo(cell: Cell): GlobalnetInfo
  {
    GlobalnetInfo(
      cell.enabled,
      if cell.enabled then cell.range else NoText,
      if cell.enabled then cell.clusterSize else 0,
      NetworksOf(cell.clusters))
  }

  method GetGlobalNetworks(cell: Cell) returns (info: GlobalnetInfo)
    ensures info == ReadInfo(cell)
  {
    var range, size := NoText, 0;
    if cell.enabled {
      size := cell.clusterSize;
      range := cell.range;
    }
    var globalNetworks := map[];
    for i := 0 to |cell.clusters|
      invariant globalNetworks == NetworksOf(cell.clusters[..i])
    {
      var cluster := cell.clusters[i];
      assert cell.clusters[..i + 1][..i] == cell.clusters[..i];
      globalNetworks := globalNetworks[cluster.clusterId := GlobalNetwork(cluster.globalCidr, cluster.clusterId)];
    }
    assert cell.clusters[..|cell.clusters|] == cell.clusters;
    return GlobalnetInfo(cell.enabled, range, size, globalNetworks);
  }

  // ---------- Upsert ----------

  ghost predicate Listed(clusters: seq<ClusterInfo>, clusterId: string)
  {
    exists c <- clusters :: c.clusterId == clusterId
  }

  // Every entry of the cluster gets the new CIDRs.
  function SetCidrs(clusters: seq<ClusterInfo>, clusterId: string, cidrs: seq<CidrText>): (r: seq<ClusterInfo>)
    ensures |r| == |clusters|
    ensures forall i | 0 <= i < |clusters| ::
              r[i] == if clusters[i].clusterId == clusterId then ClusterInfo(clusterId, cidrs) else clusters[i]
  {
    seq(|clusters|, i requires 0 <= i < |clusters| =>
      if clusters[i].clusterId == clusterId then ClusterInfo(clusterId, cidrs) else clusters[i])
  }

  ghost function Upsert(clusters: seq<ClusterInfo>, clusterId: string, cidrs: seq<CidrText>): seq<ClusterInfo>
  {
    if Listed(clusters, clusterId) then SetCidrs(clusters, clusterId, cidrs)
    else clusters + [ClusterInfo(clusterId, cidrs)]
  }

  ghost predicate UniqueIds(clusters: seq<ClusterInfo>)
  {
    forall i, j | 0 <= i < j < |clusters| :: clusters[i].clusterId != clusters[j].clusterId
  }

  // The config map as a client holds it: read from the broker, changed in place,
  // written back under the version that was read.
  class ConfigMap {
    var cell: Cell

    constructor (cell: Cell)
      ensures this.cell == cell
    {
      this.cell := cell;
    }
  }

  datatype WriteResult = Written | Conflict

  // The broker's store. An update is atomic and is refused when the object has
  // changed since it was read.
  class Broker {
    var stored: Cell

    constructor (cell: Cell)
      ensures stored == cell
    {
      stored := cell;
    }

    method Get() returns (configMap: ConfigMap)
      ensures fresh(configMap) && configMap.cell == stored
    {
      configMap := new ConfigMap(stored);
    }

    method Update(configMap: ConfigMap) returns (r: WriteResult)
      modifies this
      ensures r == if old(stored).version == configMap.cell.version then Written else Conflict
      ensures stored == if r == Written then configMap.cell.(version := configMap.cell.version + 1) else old(stored)
    {
      if stored.version != configMap.cell.version {
        return Conflict;
      }
      stored := configMap.cell.(version := configMap.cell.version + 1);
      return Written;
    }

    /** GeneralGlobalnetConfigMap: the broker's own reconcile puts back an empty
        list; the object is written only if that changes it. */
    method Reset(enabled: bool, range: CidrText, clusterSize: Word64)
      modifies this
      ensures stored == ResetCell(old(stored), enabled, range, clusterSize)
    {
      stored := ResetCell(stored, enabled, range, clusterSize);
    }
  }

  // The object after the broker's reconcile: an empty list under the given settings,
  // and a new version iff anything else has changed.
  function ResetCell(cell: Cell, enabled: bool, range: CidrText, clusterSize: Word64): (r: Cell)
    ensures r.clusters == [] && r.enabled == enabled
    ensures if enabled then r.range == range && r.clusterSize == clusterSize else r.range == NoText && r.clusterSize == 0
    ensures r.version == if r == cell then cell.version else cell.version + 1
  {
    var reset := if enabled then Cell(cell.version, true, range, clusterSize, [])
                 else Cell(cell.version, false, NoText, 0, []);
    if reset == cell then cell else reset.(version := cell.version + 1)
  }

  /** Records the CIDRs of a cluster in the config map and writes it back. */
  method UpdateGlobalnetConfigMap(broker: Broker, configMap: ConfigMap, newCluster: ClusterInfo) returns (r: WriteResult)
    modifies broker, configMap
    ensures configMap.cell
            == old(configMap.cell).(clusters := Upsert(old(configMap.cell).clusters, newCluster.clusterId, newCluster.globalCidr))
    ensures r == if old(broker.stored).version == old(configMap.cell).version then Written else Conflict
    ensures broker.stored
            == if r == Written then configMap.cell.(version := configMap.cell.version + 1) else old(broker.stored)
  {
    var clusterInfo := configMap.cell.clusters;
    ghost var before := clusterInfo;
    var found := false;
    for k := 0 to |clusterInfo|
      invariant |clusterInfo| == |before|
      invariant clusterInfo[k..] == before[k..]
      invariant clusterInfo[..k] == SetCidrs(before, newCluster.clusterId, newCluster.globalCidr)[..k]
      invariant found <==> Listed(before[..k], newCluster.clusterId)
    {
      assert clusterInfo[k] == clusterInfo[k..][0] == before[k];
      assert before[..k + 1] == before[..k] + [before[k]];
      if clusterInfo[k].clusterId == newCluster.clusterId {
        clusterInfo := clusterInfo[k := clusterInfo[k].(globalCidr := newCluster.globalCidr)];
        found := true;
      }
    }
    assert before[..|before|] == before;
    if !found {
      NothingToSet(before, newCluster.clusterId, newCluster.globalCidr);
      clusterInfo := clusterInfo + [ClusterInfo(newCluster.clusterId, newCluster.globalCidr)];
    }
    configMap.cell := configMap.cell.(clusters := clusterInfo);
    r := broker.Update(configMap);
  }

  lemma NothingToSet(clusters: seq<ClusterInfo>, clusterId: string, cidrs: seq<CidrText>)
    requires !Listed(clusters, clusterId)
    ensures SetCidrs(clusters, clusterId, cidrs) == clusters
  {
    forall i | 0 <= i < |clusters|
      ensures clusters[i].clusterId != clusterId
    {
      assert clusters[i] in clusters;
    }
  }

  // ---------- Upsert refines a map update ----------

  // The keys of the map are the listed cluster IDs.
  lemma {:induction false} NetworksOfKeys(clusters: seq<ClusterInfo>, clusterId: string)
    ensures clusterId in NetworksOf(clusters) <==> Listed(clusters, clusterId)
  {
    if clusters != [] {
      var n := |clusters| - 1;
      NetworksOfKeys(clusters[..n], clusterId);
      assert clusters == clusters[..n] + [clusters[n]];
    }
  }

  // For a cluster that is listed more than once, the last entry counts.
  lemma {:induction false} LastEntryCounts(clusters: seq<ClusterInfo>, i: nat)
    requires i < |clusters| && forall k | i < k < |clusters| :: clusters[k].clusterId != clusters[i].clusterId
    ensures var c := clusters[i];
            c.clusterId in NetworksOf(clusters) && NetworksOf(clusters)[c.clusterId] == GlobalNetwork(c.globalCidr, c.clusterId)
    decreases |clusters|
  {
    var n := |clusters| - 1;
    if i < n {
      assert clusters[n].clusterId != clusters[i].clusterId;
      LastEntryCounts(clusters[..n], i);
    }
  }

  lemma SetCidrsSnoc(clusters: seq<ClusterInfo>, last: ClusterInfo, clusterId: string, cidrs: seq<CidrText>)
    ensures SetCidrs(clusters + [last], clusterId, cidrs)
            == SetCidrs(clusters, clusterId, cidrs)
               + [if last.clusterId == clusterId then ClusterInfo(clusterId, cidrs) else last]
  {
  }

  lemma NetworksOfSnoc(clusters: seq<ClusterInfo>, last: ClusterInfo)
    ensures NetworksOf(clusters + [last])
            == NetworksOf(clusters)[last.clusterId := GlobalNetwork(last.globalCidr, last.clusterId)]
  {
    assert (clusters + [last])[..|clusters|] == clusters;
  }

  lemma {:induction false} NetworksOfSet(clusters: seq<ClusterInfo>, clusterId: string, cidrs: seq<CidrText>)
    ensures NetworksOf(SetCidrs(clusters, clusterId, cidrs))
            == if Listed(clusters, clusterId) then NetworksOf(clusters)[clusterId := GlobalNetwork(cidrs, clusterId)]
               else NetworksOf(clusters)
  {
    if clusters != [] {
      var front, last := clusters[..|clusters| - 1], clusters[|clusters| - 1];
      assert clusters == front + [last];
      NetworksOfSet(front, clusterId, cidrs);
      SetCidrsSnoc(front, last, clusterId, cidrs);
      NetworksOfSnoc(front, last);
      NetworksOfSnoc(SetCidrs(front, clusterId, cidrs), if last.clusterId == clusterId then ClusterInfo(clusterId, cidrs) else last);
    }
  }

  // For every list, even one that names a cluster twice, recording and then
  // reading the list as a map is updating the map; the recorded list keeps the
  // entries of other clusters and their order, and stays free of duplicates.
  lemma UpsertRefinesMapUpdate(clusters: seq<ClusterInfo>, clusterId: string, cidrs: seq<CidrText>)
    ensures NetworksOf(Upsert(clusters, clusterId, cidrs))
            == NetworksOf(clusters)[clusterId := GlobalNetwork(cidrs, clusterId)]
    ensures var r := Upsert(clusters, clusterId, cidrs);
            && |clusters| <= |r| <= |clusters| + 1
            && (forall i | 0 <= i < |clusters| :: r[i].clusterId == clusters[i].clusterId)
            && (forall i | 0 <= i < |clusters| :: clusters[i].clusterId != clusterId ==> r[i] == clusters[i])
    ensures UniqueIds(clusters) ==> UniqueIds(Upsert(clusters, clusterId, cidrs))
  {
    var r := Upsert(clusters, clusterId, cidrs);
    if Listed(clusters, clusterId) {
      NetworksOfSet(clusters, clusterId, cidrs);
    } else {
      assert r[..|clusters|] == clusters;
      forall i | 0 <= i < |clusters|
        ensures clusters[i].clusterId != clusterId
      {
        assert clusters[i] in clusters;
      }
    }
  }
}
