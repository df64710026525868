/**
 The join as the program runs it: one routine that reads the broker's config map,
 validates and assigns, overwrites the CIDR in its own configuration, and writes
 the config map back, starting over when somebody else has written in between.
 */
module JoinImpl {
  import opened Wrappers
  import opened Cidr
  import opened Globalnet
  import opened Allocator
  import opened Registry
  import opened Join
  import opened Choice
  import opened JoinHistory

  // The join configuration, overwritten by every attempt
  class NetConfig {
    var config: Config

    constructor (config: Config)
      ensures this.config == config
    {
      this.config := config;
    }
  }

  // The information read from the broker; validation replaces its cluster size.
  class InfoRef {
    var info: GlobalnetInfo

    constructor (info: GlobalnetInfo)
      ensures this.info == info
    {
      this.info := info;
    }
  }

  method ValidateGlobalnetConfiguration(ref: InfoRef, netconfig: Config) returns (cidr: Option<CidrText>)
    modifies ref
    ensures (cidr, ref.info.clusterSize) == Validate(old(ref.info), netconfig)
    ensures ref.info == old(ref.info).(clusterSize := ref.info.clusterSize)
    ensures RightValidation(old(ref.info), netconfig, cidr, ref.info.clusterSize)
  {
    ValidateExact(ref.info, netconfig);
    var globalnetClusterSize, globalnetCidr := netconfig.clusterSize, netconfig.cidr;
    if ref.info.enabled && globalnetClusterSize != 0 && globalnetClusterSize != ref.info.clusterSize {
      var clusterSize := GetValidClusterSize(ref.info.range, globalnetClusterSize);
      if clusterSize.None? || clusterSize.value == 0 {
        return None;
      }
      ValidSizeIsBlockSize(ref.info.range, globalnetClusterSize);
      ref.info := ref.info.(clusterSize := clusterSize.value);
    }
    if globalnetCidr != NoText && globalnetClusterSize != 0 {
      return None;
    }
    if globalnetCidr != NoText && ParseNet(globalnetCidr).None? {
      return None;
    }
    if !ref.info.enabled {
      if globalnetCidr != NoText {
        globalnetCidr := NoText;
      } else if globalnetClusterSize != 0 {
        ref.info := ref.info.(clusterSize := 0);
      }
    }
    return Some(globalnetCidr);
  }

  /** Runs a join to its end, while others replace what the broker stores by
      others[n] before call n. If the registry was sound and the others keep it so,
      it still is, the join has not indexed an empty list, it has added at most its
      own entry to what the others have left, and if it succeeds with Globalnet
      enabled its CIDR is the recorded one. It fails only because its choice has failed
      or because others have changed the object during every attempt. Left alone, it
      does to the store and to its configuration what RightOutcome says. */
  method AllocateAndUpdateGlobalCidrConfigMap(broker: Broker, allocator: GlobalCidr, netconfig: NetConfig,
                                              retries: nat, others: seq<Cell>)
    returns (r: JoinResult, ghost history: seq<Moment>)
    requires allocator.Valid()
    modifies broker, allocator, netconfig
    ensures allocator.Valid()
    ensures IsHistory(history, others) && history[0] == Start(old(netconfig.config), retries, old(broker.stored))
    ensures Last(history).cell == broker.stored && Last(history).joiner.config == netconfig.config
    ensures Finished(Last(history).joiner.phase) && r == ResultOf(Last(history).joiner.phase)
    ensures OthersAreFair(old(broker.stored), others) ==>
              JoinsSoundly(LeftBy(old(broker.stored), others, Last(history).calls), broker.stored, netconfig.config, r)
    ensures r == Err ==> ChoiceHasFailed(history) || RacedBefore(old(broker.stored), others, retries + 1)
    ensures others == [] && CanDecide(old(broker.stored), old(netconfig.config)) ==>
              RightOutcome(old(broker.stored), old(netconfig.config), broker.stored, netconfig.config, r)
  {
    var left, call := retries, 0;
    ghost var j := Joiner(Joining, netconfig.config, retries, broker.stored, None, 0);
    history := [Moment(j, broker.stored, 0)];
    while true
      invariant allocator.Valid() && IsHistory(history, others)
      invariant history[0] == Start(old(netconfig.config), retries, old(broker.stored))
      invariant Last(history) == Moment(j, broker.stored, call)
      invariant j.phase == Joining && j.config == netconfig.config && j.retries == left
      decreases left
    {
      broker.stored := MetBy(broker.stored, others, call);
      var configMap := broker.Get();
      call := call + 1;
      ghost var read := j.(phase := Choosing, snapshot := broker.stored);
      ReadFollows(Last(history), others);
      history := Extended(history, others, Moment(read, broker.stored, call));

      var write, outcome;
      write, outcome, j := Attempt(allocator, netconfig, configMap.cell, read);
      history := Extended(history, others, Moment(j, broker.stored, call));
      if !write {
        EndIsRight(history, others, old(netconfig.config), retries, old(broker.stored));
        return outcome, history;
      }

      broker.stored := MetBy(broker.stored, others, call);
      var written := UpdateGlobalnetConfigMap(broker, configMap, ClusterInfo(netconfig.config.clusterId, [netconfig.config.cidr]));
      call := call + 1;
      WriteFollows(Last(history), others, written, broker.stored);
      j := AfterWrite(j, written);
      history := Extended(history, others, Moment(j, broker.stored, call));
      if written == Written || left == 0 {
        EndIsRight(history, others, old(netconfig.config), retries, old(broker.stored));
        return if written == Written then Ok else Err, history;
      }
      left := left - 1;
    }
  }

  /** One attempt on a snapshot, up to the write: whether there is something to
      write, the result if there is not, and where the join stands. */
  method Attempt(allocator: GlobalCidr, netconfig: NetConfig, snapshot: Cell, ghost j: Joiner)
    returns (write: bool, r: JoinResult, ghost j': Joiner)
    requires allocator.Valid()
    requires j.phase == Choosing && j.snapshot == snapshot && j.config == netconfig.config
    modifies allocator, netconfig
    ensures allocator.Valid()
    ensures Choose(j, j') && j'.config == netconfig.config
    ensures j'.phase in {Writing, Joined, Failed, Crashed, Hanging}
    ensures write <==> j'.phase == Writing
    ensures !write ==> r == ResultOf(j'.phase)
    ensures j' == j.(phase := j'.phase, config := j'.config)
    ensures CanDecide(snapshot, j.config) ==> RightChoice(j, j')
  {
    var info := GetGlobalNetworks(snapshot);
    var ref := new InfoRef(info);
    var validated := ValidateGlobalnetConfiguration(ref, netconfig.config);
    if validated.None? {
      netconfig.config := netconfig.config.(cidr := NoText);
      j' := j.(phase := Failed, config := netconfig.config);
      UnassignedChoice(j, j');
      return false, Err, j';
    }
    netconfig.config := netconfig.config.(cidr := validated.value);
    if !ref.info.enabled {
      j' := j.(phase := Joined, config := netconfig.config);
      UnassignedChoice(j, j');
      return false, Ok, j';
    }
    write, r, j' := AssignAndCompare(allocator, netconfig, ref.info, j);
  }

  // The part of an attempt for an enabled broker, after validation
  method AssignAndCompare(allocator: GlobalCidr, netconfig: NetConfig, info: GlobalnetInfo, ghost j: Joiner)
    returns (write: bool, r: JoinResult, ghost j': Joiner)
    requires allocator.Valid()
    requires j.phase == Choosing && info.enabled && info == ReadInfo(j.snapshot).(clusterSize := info.clusterSize)
    requires netconfig.config == j.config.(cidr := netconfig.config.cidr)
    requires Validate(ReadInfo(j.snapshot), j.config) == (Some(netconfig.config.cidr), info.clusterSize)
    modifies allocator, netconfig
    ensures allocator.Valid()
    ensures Choose(j, j') && j'.config == netconfig.config
    ensures j'.phase in {Writing, Joined, Failed, Crashed, Hanging}
    ensures write <==> j'.phase == Writing
    ensures !write ==> r == ResultOf(j'.phase)
    ensures j' == j.(phase := j'.phase, config := j'.config)
    ensures CanDecide(j.snapshot, j.config) ==> RightChoice(j, j')
  {
    var id := netconfig.config.clusterId;
    var networks := info.networks;
    var a := AssignGlobalnetIPs(allocator, info, netconfig.config);
    j' := AfterAssignment(j, ReadInfo(j.snapshot), netconfig.config.cidr, a);
    AssignedChoice(j, netconfig.config.cidr, info.clusterSize, a);
    match a {
      case AssignError =>
        netconfig.config := netconfig.config.(cidr := NoText);
        write, r := false, Err;
      case AssignHangs =>
        write, r := false, Hang;
      case Assigned(cidr) =>
        netconfig.config := netconfig.config.(cidr := cidr);
        if id !in networks {
          write, r := true, Ok;
        } else if networks[id].cidrs == [] {
          write, r := false, Panic;
        } else {
          write, r := networks[id].cidrs[0] != cidr, Ok;
        }
    }
  }
}
