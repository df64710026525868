/**
 The history of a single join: its own steps on what it finds in the broker's store,
 which others change between its calls, and what follows for its result.
 */
module JoinHistory {
  import opened Wrappers
  import opened Cidr
  import opened Capacity
  import opened Globalnet
  import opened Registry
  import opened Join
  import opened JoinTheory
  import opened Choice
  import opened JoinScenarios
  import opened Enrolment

  // ---------- The history of one join ----------

  // Where the join stands, what the broker stores, and how many times the join has
  // called the broker so far
  datatype Moment = Moment(joiner: Joiner, cell: Cell, calls: nat)

  // What the broker stores when call n arrives: others may have replaced the object
  // before it by others[n], which is the old object again if they have not.
  function MetBy(cell: Cell, others: seq<Cell>, n: nat): Cell
  {
    if n < |others| then others[n] else cell
  }

  // From one moment to the next the join makes one step of its own, on the object
  // that is stored when it calls the broker to read or to write.
  ghost predicate Follows(m: Moment, m': Moment, others: seq<Cell>)
  {
    if m.joiner.phase == Choosing then
      m'.calls == m.calls && OwnStep(m.joiner, m.cell, m'.joiner, m'.cell)
    else
      m'.calls == m.calls + 1 && OwnStep(m.joiner, MetBy(m.cell, others, m.calls), m'.joiner, m'.cell)
  }

  ghost predicate FollowsAt(history: seq<Moment>, others: seq<Cell>, k: nat)
    requires k < |history| - 1
  {
    Follows(history[k], history[k + 1], others)
  }

  ghost predicate IsHistory(history: seq<Moment>, others: seq<Cell>)
  {
    history != [] && forall k | 0 <= k < |history| - 1 :: FollowsAt(history, others, k)
  }

  function Last(history: seq<Moment>): Moment
    requires history != []
  {
    history[|history| - 1]
  }

  // The join before its first call
  function Start(config: Config, retries: nat, cell: Cell): Moment
  {
    Moment(Joiner(Joining, config, retries, cell, None, 0), cell, 0)
  }

  lemma ExtendHistory(history: seq<Moment>, others: seq<Cell>, m: Moment)
    requires IsHistory(history, others) && Follows(Last(history), m, others)
    ensures IsHistory(history + [m], others)
  {
    var more := history + [m];
    forall k | 0 <= k < |more| - 1
      ensures FollowsAt(more, others, k)
    {
      if k < |history| - 1 { assert FollowsAt(history, others, k); }
    }
  }

  datatype JoinResult = Ok | Err | Panic | Hang

  // No step of its own is left to the join.
  predicate Finished(phase: Phase)
  {
    phase in {Joined, Failed, Crashed, Hanging}
  }

  function ResultOf(phase: Phase): JoinResult
    requires Finished(phase)
  {
    match phase
    case Joined => Ok
    case Failed => Err
    case Crashed => Panic
    case Hanging => Hang
  }

  // The join after its write has been accepted or refused
  ghost function AfterWrite(j: Joiner, written: WriteResult): Joiner
  {
    if written == Written then HavingWritten(j, Joined)
    else if j.retries > 0 then j.(phase := Joining, retries := j.retries - 1)
    else j.(phase := Failed)
  }

  lemma ReadFollows(m: Moment, others: seq<Cell>)
    requires m.joiner.phase == Joining
    ensures var met := MetBy(m.cell, others, m.calls);
            Follows(m, Moment(m.joiner.(phase := Choosing, snapshot := met), met, m.calls + 1), others)
  {
  }

  lemma WriteFollows(m: Moment, others: seq<Cell>, written: WriteResult, stored: Cell)
    requires m.joiner.phase == Writing
    requires var met := MetBy(m.cell, others, m.calls);
             && written == (if met.version == m.joiner.snapshot.version then Written else Conflict)
             && stored == if written == Written then CellWrittenBy(m.joiner) else met
    ensures Follows(m, Moment(AfterWrite(m.joiner, written), stored, m.calls + 1), others)
  {
  }

  lemma Extended(history: seq<Moment>, others: seq<Cell>, m: Moment) returns (more: seq<Moment>)
    requires IsHistory(history, others) && Follows(Last(history), m, others)
    ensures IsHistory(more, others) && more[0] == history[0] && Last(more) == m
  {
    ExtendHistory(history, others, m);
    more := history + [m];
  }

  // ---------- The join among others ----------

  // What the others have left in the store once n calls have arrived
  function LeftBy(cell: Cell, others: seq<Cell>, n: nat): Cell
  {
    if n == 0 then cell else MetBy(LeftBy(cell, others, n - 1), others, n - 1)
  }

  ghost predicate FairAt(cell: Cell, others: seq<Cell>, n: nat)
    requires n < |others|
  {
    SoundRegistry(others[n].clusters) && Later(LeftBy(cell, others, n), others[n])
  }

  // The others start from a sound registry, leave a sound registry behind each time
  // and change the version with every write.
  ghost predicate OthersAreFair(cell: Cell, others: seq<Cell>)
  {
    SoundRegistry(cell.clusters) && forall n | 0 <= n < |others| :: FairAt(cell, others, n)
  }

  // The store is as the others have left it, or the join has succeeded and added an
  // entry for its cluster at the end.
  ghost predicate AddsAtMostItsEntry(left: Cell, cell: Cell, config: Config, r: JoinResult)
  {
    || cell == left
    || (r == Ok && left.enabled && !Listed(left.clusters, config.clusterId)
        && cell == left.(version := left.version + 1,
                         clusters := left.clusters + [ClusterInfo(config.clusterId, [config.cidr])]))
  }

  // The registry is sound, nothing but the join's own entry has been added to what
  // the others have left, no empty list has been indexed, and a join that has
  // succeeded with Globalnet enabled has the recorded CIDR.
  ghost predicate JoinsSoundly(left: Cell, cell: Cell, config: Config, r: JoinResult)
  {
    && SoundRegistry(cell.clusters) && AddsAtMostItsEntry(left, cell, config, r)
    && r != Panic
    && (r == Ok && cell.enabled ==> Recorded(cell.clusters, config.clusterId, config.cidr))
  }

  // What holds at every moment of a join among fair others
  ghost predicate SoundMoment(m: Moment, cell: Cell, others: seq<Cell>)
  {
    var left := LeftBy(cell, others, m.calls);
    && SoundRegistry(m.cell.clusters) && SoundJoiner(m.joiner, m.cell)
    && (m.joiner.phase == Joined ==> m.cell == if m.joiner.committed.Some? then m.joiner.committed.value else m.joiner.snapshot)
    && (m.joiner.phase == Choosing ==> m.joiner.snapshot == m.cell)
    && (m.joiner.phase != Joined ==> m.cell == left && m.joiner.committed.None?)
    && (m.joiner.phase == Joined ==>
          m.cell.enabled == m.joiner.snapshot.enabled && AddsAtMostItsEntry(left, m.cell, m.joiner.config, Ok))
  }

  lemma MetIsLater(m: Moment, cell: Cell, others: seq<Cell>)
    requires OthersAreFair(cell, others) && SoundMoment(m, cell, others) && m.joiner.phase != Joined
    ensures var met := MetBy(m.cell, others, m.calls);
            SoundRegistry(met.clusters) && SoundJoiner(m.joiner, met) && met == LeftBy(cell, others, m.calls + 1)
  {
    var met := MetBy(m.cell, others, m.calls);
    if m.calls < |others| { assert FairAt(cell, others, m.calls); }
    OthersKeepSound(m.joiner, m.cell, met);
  }

  lemma StepIsSound(m: Moment, m': Moment, cell: Cell, others: seq<Cell>)
    requires OthersAreFair(cell, others) && SoundMoment(m, cell, others) && Follows(m, m', others)
    ensures SoundMoment(m', cell, others)
  {
    var j := m.joiner;
    if j.phase == Choosing {
      LocalStepIsSound(j, m.cell, m'.joiner, m'.cell);
    } else {
      var met := MetBy(m.cell, others, m.calls);
      MetIsLater(m, cell, others);
      LocalStepIsSound(j, met, m'.joiner, m'.cell);
      if j.phase == Writing && j.snapshot.version == met.version { AppendIsSound(met.clusters, j.config); }
    }
  }

  lemma {:induction false} HistoryIsSound(history: seq<Moment>, others: seq<Cell>, cell: Cell, k: nat)
    requires IsHistory(history, others) && OthersAreFair(cell, others) && k < |history|
    requires SoundMoment(history[0], cell, others)
    ensures SoundMoment(history[k], cell, others)
  {
    if k > 0 {
      HistoryIsSound(history, others, cell, k - 1);
      assert FollowsAt(history, others, k - 1);
      StepIsSound(history[k - 1], history[k], cell, others);
    }
  }

  // What a join can rely on and gives in return
  lemma JoinAmongOthers(history: seq<Moment>, others: seq<Cell>)
    requires IsHistory(history, others) && history[0] == Start(history[0].joiner.config, history[0].joiner.retries, history[0].cell)
    requires Finished(Last(history).joiner.phase)
    ensures OthersAreFair(history[0].cell, others) ==>
              var m := Last(history);
              && m.joiner.writes <= 1
              && JoinsSoundly(LeftBy(history[0].cell, others, m.calls), m.cell, m.joiner.config, ResultOf(m.joiner.phase))
  {
    if OthersAreFair(history[0].cell, others) {
      HistoryIsSound(history, others, history[0].cell, |history| - 1);
    }
  }

  // ---------- Where fair others come from ----------

  // The objects found at some states of a run
  ghost predicate FoundIn(run: seq<System>, at: seq<nat>, others: seq<Cell>)
  {
    && |at| == |others| + 1
    && (forall n | 0 <= n < |at| :: at[n] < |run|)
    && (forall n | 0 <= n < |others| :: at[n] <= at[n + 1])
    && forall n | 0 <= n < |others| :: others[n] == run[at[n + 1]].cell
  }

  lemma {:induction false} LeftByRun(run: seq<System>, at: seq<nat>, others: seq<Cell>, n: nat)
    requires FoundIn(run, at, others) && n <= |others|
    ensures LeftBy(run[at[0]].cell, others, n) == run[at[n]].cell
  {
    if n > 0 { LeftByRun(run, at, others, n - 1); }
  }

  // Whatever the broker and any number of joins do in a run, a join that meets the
  // store at states of the run, one after the other, is among fair others.
  lemma RunsAreFair(run: seq<System>, at: seq<nat>, others: seq<Cell>)
    requires IsRun(run) && FoundIn(run, at, others)
    ensures OthersAreFair(run[at[0]].cell, others)
  {
    StoreIsLater(run, at[0], at[0]);
    forall n | 0 <= n < |others|
      ensures FairAt(run[at[0]].cell, others, n)
    {
      LeftByRun(run, at, others, n);
      StoreIsLater(run, at[n], at[n + 1]);
    }
  }

  // ---------- A join that meets no other ----------

  lemma UnfinishedBefore(history: seq<Moment>, others: seq<Cell>)
    requires IsHistory(history, others)
    ensures forall k | 0 <= k < |history| - 1 :: !Finished(history[k].joiner.phase)
  {
    forall k | 0 <= k < |history| - 1
      ensures !Finished(history[k].joiner.phase)
    {
      assert FollowsAt(history, others, k);
    }
  }

  lemma SecondStep(history: seq<Moment>)
    requires IsHistory(history, []) && Finished(Last(history).joiner.phase) && history[0].joiner.phase == Joining
    ensures |history| > 2 && history[1] == Moment(HavingRead(history[0].joiner, history[0].cell), history[0].cell, 1 + history[0].calls)
    ensures history[2].cell == history[0].cell && history[2].calls == history[1].calls
    ensures Choose(history[1].joiner, history[2].joiner)
  {
    assert FollowsAt(history, [], 0);
    assert FollowsAt(history, [], 1);
  }

  lemma ThirdStep(history: seq<Moment>)
    requires IsHistory(history, []) && |history| > 2 && history[2].joiner.phase == Writing && Finished(Last(history).joiner.phase)
    requires history[2].joiner.snapshot == history[2].cell
    ensures Last(history).joiner == HavingWritten(history[2].joiner, Joined) && Last(history).cell == CellWrittenBy(history[2].joiner)
  {
    assert FollowsAt(history, [], 2);
    UnfinishedBefore(history, []);
  }

  // What a join that is left alone should do to the store and to its configuration
  ghost predicate RightOutcome(cell: Cell, config: Config, cell': Cell, config': Config, r: JoinResult)
  {
    if !Accepts(cell, config) then r == Err && cell' == cell && config' == config.(cidr := NoText)
    else if !cell.enabled then r == Ok && cell' == cell && config' == config.(cidr := NoText)
    else if Listed(cell.clusters, config.clusterId) then
      r == Ok && cell' == cell && config' == config.(cidr := config'.cidr) && Recorded(cell.clusters, config.clusterId, config'.cidr)
    else if HasPlaceFor(cell, config) then
      && r == Ok && config' == config.(cidr := config'.cidr) && RightNewCidr(cell, config, config'.cidr)
      && cell' == cell.(version := cell.version + 1, clusters := cell.clusters + [ClusterInfo(config.clusterId, [config'.cidr])])
    else r == Err && cell' == cell && config' == config.(cidr := NoText)
  }

  // On a sound registry, a join that is left alone does the right thing, whatever it
  // asks for.
  lemma JoinAloneIsRight(history: seq<Moment>, config: Config, retries: nat, cell: Cell)
    requires CanDecide(cell, config)
    requires IsHistory(history, []) && history[0] == Start(config, retries, cell) && Finished(Last(history).joiner.phase)
    ensures var end := Last(history); RightOutcome(cell, config, end.cell, end.joiner.config, ResultOf(end.joiner.phase))
  {
    UnfinishedBefore(history, []);
    SecondStep(history);
    ChoiceIsRight(history[1].joiner, history[2].joiner);
    if history[2].joiner.phase == Writing { ThirdStep(history); }
  }

  // A join that is left alone and asks for any block has the slot of its cluster, if
  // that is enrolled; or is given the next slot, which it has then recorded; or fails
  // without a write because there is none.
  lemma JoinAlone(net: Block, ids: seq<string>, history: seq<Moment>, config: Config, retries: nat, cell: Cell)
    requires HasEnrolled(net, cell, ids) && FillsUp(net, BlockExp(cell.clusterSize))
    requires config == Config(config.clusterId, NoText, 0)
    requires IsHistory(history, []) && history[0] == Start(config, retries, cell) && Finished(Last(history).joiner.phase)
    ensures var end, exp := Last(history), BlockExp(cell.clusterSize);
            if config.clusterId in ids then
              && ResultOf(end.joiner.phase) == Ok && end.cell == cell
              && exists k | 0 <= k < |ids| :: ids[k] == config.clusterId && end.joiner.config.cidr == SlotText(net, exp, k)
            else if |ids| < Slots(net, exp) then
              && ResultOf(end.joiner.phase) == Ok && end.joiner.config.cidr == SlotText(net, exp, |ids|)
              && HasEnrolled(net, end.cell, ids + [config.clusterId])
            else
              ResultOf(end.joiner.phase) == Err && end.cell == cell
  {
    UnfinishedBefore(history, []);
    SecondStep(history);
    if config.clusterId in ids {
      EnrolledChoice(net, ids, history[1].joiner, history[2].joiner);
    } else {
      FreshChoice(net, ids, history[1].joiner, history[2].joiner);
      if |ids| < Slots(net, BlockExp(cell.clusterSize)) {
        ThirdStep(history);
        WriteEnrols(net, cell, ids, history[0].joiner);
      }
    }
  }

  // An enrolled cluster has the slot of its place in the list.
  lemma EnrolledChoice(net: Block, ids: seq<string>, j: Joiner, j': Joiner)
    requires j.phase == Choosing && Choose(j, j') && HasEnrolled(net, j.snapshot, ids)
    requires j.config.clusterId in ids && j.config.clusterSize == 0 && j.config.cidr == NoText
    ensures j'.phase == Joined
    ensures exists k | 0 <= k < |ids| ::
              ids[k] == j.config.clusterId && j'.config.cidr == SlotText(net, BlockExp(j.snapshot.clusterSize), k)
  {
    var exp := BlockExp(j.snapshot.clusterSize);
    var clusters := j.snapshot.clusters;
    var k :| 0 <= k < |ids| && ids[k] == j.config.clusterId;
    EnrolledEntries(net, exp, ids);
    assert clusters[k] == ClusterInfo(ids[k], [SlotText(net, exp, k)]);
    EnrolledIsUnique(net, exp, ids);
    NetworksOfSound(clusters, clusters[k]);
    ChoiceOnAnyRegistry(j, j');
  }

  lemma EnrolledIsUnique(net: Block, exp: nat, ids: seq<string>)
    requires exp <= net.exp && |ids| <= Slots(net, exp) && Distinct(ids)
    ensures UniqueIds(Enrolled(net, exp, ids))
  {
    EnrolledEntries(net, exp, ids);
  }

  // ---------- Every attempt, and why a join fails ----------

  // Among others too, each attempt decides rightly on the object it has read.
  lemma EveryChoiceIsRight(history: seq<Moment>, others: seq<Cell>, k: nat)
    requires IsHistory(history, others) && k < |history| - 1 && history[k].joiner.phase == Choosing
    ensures CanDecide(history[k].joiner.snapshot, history[k].joiner.config) ==>
              RightChoice(history[k].joiner, history[k + 1].joiner)
  {
    assert FollowsAt(history, others, k);
    ChoiceIsRight(history[k].joiner, history[k + 1].joiner);
  }

  // Others have changed the object between the read and the write of attempt k.
  ghost predicate Raced(cell: Cell, others: seq<Cell>, k: nat)
  {
    LeftBy(cell, others, 2 * k + 2).version != LeftBy(cell, others, 2 * k + 1).version
  }

  ghost predicate RacedBefore(cell: Cell, others: seq<Cell>, n: nat)
  {
    forall k | 0 <= k < n :: Raced(cell, others, k)
  }

  // How far the join is: so many attempts have lost a race, and each has taken a read
  // and a write.
  ghost predicate InAttempt(m: Moment, cell: Cell, others: seq<Cell>, retries: nat)
  {
    var j := m.joiner;
    && j.retries <= retries
    && var lost := retries - j.retries;
       match j.phase
       case Joining => m.calls == 2 * lost && m.cell == LeftBy(cell, others, m.calls) && RacedBefore(cell, others, lost)
       case Choosing => m.calls == 2 * lost + 1 && m.cell == j.snapshot == LeftBy(cell, others, m.calls) && RacedBefore(cell, others, lost)
       case Writing => m.calls == 2 * lost + 1 && m.cell == j.snapshot == LeftBy(cell, others, m.calls) && RacedBefore(cell, others, lost)
       case Failed => m.calls % 2 == 1 || (m.calls == 2 * (retries + 1) && RacedBefore(cell, others, retries + 1))
       case _ => true
  }

  lemma StepInAttempt(m: Moment, m': Moment, cell: Cell, others: seq<Cell>, retries: nat)
    requires InAttempt(m, cell, others, retries) && Follows(m, m', others)
    ensures InAttempt(m', cell, others, retries)
    ensures m'.joiner.phase == Failed && m'.calls % 2 == 1 ==> m.joiner.phase == Choosing && Choose(m.joiner, m'.joiner)
  {
    var j := m.joiner;
    if j.phase == Writing {
      var lost := retries - j.retries;
      assert LeftBy(cell, others, m.calls + 1) == MetBy(LeftBy(cell, others, m.calls), others, m.calls);
      if m'.joiner.phase != Joined { assert Raced(cell, others, lost); }
    }
  }

  lemma {:induction false} InAttemptAt(history: seq<Moment>, others: seq<Cell>, k: nat)
    requires IsHistory(history, others) && k < |history|
    requires history[0] == Start(history[0].joiner.config, history[0].joiner.retries, history[0].cell)
    ensures InAttempt(history[k], history[0].cell, others, history[0].joiner.retries)
  {
    if k > 0 {
      InAttemptAt(history, others, k - 1);
      assert FollowsAt(history, others, k - 1);
      StepInAttempt(history[k - 1], history[k], history[0].cell, others, history[0].joiner.retries);
    }
  }

  // The last choice has failed.
  ghost predicate ChoiceHasFailed(history: seq<Moment>)
  {
    && |history| >= 2
    && var m, m' := history[|history| - 2], history[|history| - 1];
       m.joiner.phase == Choosing && Choose(m.joiner, m'.joiner) && m'.joiner.phase == Failed
  }

  // A join fails only for one of two reasons: its choice has failed, or it has made
  // all its attempts, and others have changed the object during each of them.
  lemma FailureHasReason(history: seq<Moment>, others: seq<Cell>)
    requires IsHistory(history, others) && Last(history).joiner.phase == Failed
    requires history[0] == Start(history[0].joiner.config, history[0].joiner.retries, history[0].cell)
    ensures ChoiceHasFailed(history)
            || (Last(history).calls == 2 * (history[0].joiner.retries + 1)
                && RacedBefore(history[0].cell, others, history[0].joiner.retries + 1))
  {
    var n := |history| - 1;
    InAttemptAt(history, others, n);
    InAttemptAt(history, others, n - 1);
    assert FollowsAt(history, others, n - 1);
    StepInAttempt(history[n - 1], history[n], history[0].cell, others, history[0].joiner.retries);
  }

  // Everything that holds of the end of a join
  lemma EndIsRight(history: seq<Moment>, others: seq<Cell>, config: Config, retries: nat, cell: Cell)
    requires IsHistory(history, others) && history[0] == Start(config, retries, cell) && Finished(Last(history).joiner.phase)
    ensures var m := Last(history);
            var r := ResultOf(m.joiner.phase);
            && (OthersAreFair(cell, others) ==> JoinsSoundly(LeftBy(cell, others, m.calls), m.cell, m.joiner.config, r))
            && (r == Err ==> ChoiceHasFailed(history) || RacedBefore(cell, others, retries + 1))
            && (others == [] && CanDecide(cell, config) ==> RightOutcome(cell, config, m.cell, m.joiner.config, r))
  {
    JoinAmongOthers(history, others);
    if Last(history).joiner.phase == Failed { FailureHasReason(history, others); }
    if others == [] && CanDecide(cell, config) { JoinAloneIsRight(history, config, retries, cell); }
  }
}
