/**
 Replacing the Submariner resource: poll until an old object is gone, deleting it
 if necessary, and then create the new one. Others may change the object between
 any two calls.
 */
module SubmarinerCr {

  type Spec = string

  // The stored object; Terminating once it has a deletion timestamp
  datatype Object = Absent | Live(spec: Spec) | Terminating(spec: Spec)

  // What the outside contributes to one poll: the object that the read meets and
  // the one that the write meets, whether the calls fail for a reason of their own,
  // and whether a deleted object stays on as terminating.
  datatype Surroundings = Surroundings(
    atRead: Object,
    readFails: bool,
    atWrite: Object,
    writeFails: bool,
    lingers: bool)

  // How a deletion ends: the object is gone or going, there was none, or the call
  // failed for a reason of its own.
  datatype Deletion = Deleted | NotFound | DeleteFailed

  datatype Call = Got(seen: Object) | GetFailed | Create(before: Object, ok: bool) | Delete(before: Object, result: Deletion)

  datatype Poll = Again | Done | Error

  // The backoff allows 20 polls at most; its cap can end it earlier.
  const STEPS: nat := 20

  // ---------- One poll ----------

  // The calls of one poll, its answer, and the object it leaves behind
  function PollCalls(spec: Spec, s: Surroundings): seq<Call>
  {
    if s.readFails then [GetFailed]
    else match s.atRead
      case Absent => [Got(Absent), Create(s.atWrite, CreateWorks(s))]
      case Terminating(_) => [Got(s.atRead)]
      case Live(_) => [Got(s.atRead), Delete(s.atWrite, DeletionOf(s))]
  }

  function DeletionOf(s: Surroundings): Deletion
  {
    if s.writeFails then DeleteFailed else if s.atWrite == Absent then NotFound else Deleted
  }

  predicate CreateWorks(s: Surroundings)
  {
    s.atWrite == Absent && !s.writeFails
  }

  function PollAnswer(s: Surroundings): Poll
  {
    if s.readFails then Error
    else match s.atRead
      case Absent => if CreateWorks(s) then Done else Error
      case Terminating(_) => Again
      case Live(_) => if s.writeFails then Error else Again
  }

  function AfterPoll(spec: Spec, s: Surroundings): Object
  {
    if s.readFails then s.atRead
    else match s.atRead
      case Absent => if CreateWorks(s) then Live(spec) else s.atWrite
      case Terminating(_) => s.atRead
      case Live(_) => if s.writeFails then s.atWrite else AfterDelete(s.atWrite, s.lingers)
  }

  function AfterDelete(obj: Object, lingers: bool): Object
  {
    match obj
    case Live(spec) => if lingers then Terminating(spec) else Absent
    case _ => obj
  }

  // ---------- All polls ----------

  datatype Ending = Ok | Err | Timeout

  // How the polls end, given the surroundings of each poll that the backoff grants
  function EndingOf(polls: seq<Surroundings>): Ending
  {
    if polls == [] then Timeout
    else match PollAnswer(polls[0])
      case Done => Ok
      case Error => Err
      case Again => EndingOf(polls[1..])
  }

  function CallsOf(spec: Spec, polls: seq<Surroundings>): seq<Call>
  {
    if polls == [] then []
    else PollCalls(spec, polls[0]) + if PollAnswer(polls[0]) == Again then CallsOf(spec, polls[1..]) else []
  }

  // The API server, with a record of the calls it has served
  class ApiServer {
    var obj: Object
    var calls: seq<Call>

    constructor (obj: Object)
      ensures this.obj == obj && calls == []
    {
      this.obj, calls := obj, [];
    }

    method Get(s: Surroundings) returns (r: Call)
      modifies this
      ensures obj == s.atRead && r == (if s.readFails then GetFailed else Got(s.atRead)) && calls == old(calls) + [r]
    {
      obj := s.atRead;
      r := if s.readFails then GetFailed else Got(obj);
      calls := calls + [r];
    }

    method CreateObject(spec: Spec, s: Surroundings) returns (ok: bool)
      modifies this
      ensures ok == CreateWorks(s) && obj == (if ok then Live(spec) else s.atWrite)
      ensures calls == old(calls) + [Create(s.atWrite, ok)]
    {
      obj := s.atWrite;
      ok := obj == Absent && !s.writeFails;
      calls := calls + [Create(obj, ok)];
      if ok { obj := Live(spec); }
    }

    // A missing object is reported apart from other errors.
    method DeleteObject(s: Surroundings) returns (r: Deletion)
      modifies this
      ensures r == DeletionOf(s)
      ensures obj == if s.writeFails then s.atWrite else AfterDelete(s.atWrite, s.lingers)
      ensures calls == old(calls) + [Delete(s.atWrite, r)]
    {
      obj := s.atWrite;
      r := if s.writeFails then DeleteFailed else if obj == Absent then NotFound else Deleted;
      calls := calls + [Delete(obj, r)];
      if r == Deleted {
        obj := AfterDelete(obj, s.lingers);
      }
    }
  }

  // The polls that take place
  function Granted(polls: seq<Surroundings>): seq<Surroundings>
  {
    if |polls| <= STEPS then polls else polls[..STEPS]
  }

  // The calls of the polls from the first one on, after some earlier calls
  lemma CallsStep(earlier: seq<Call>, spec: Spec, polls: seq<Surroundings>)
    requires polls != []
    ensures var now := earlier + PollCalls(spec, polls[0]);
            earlier + CallsOf(spec, polls)
            == if PollAnswer(polls[0]) == Again then now + CallsOf(spec, polls[1..]) else now
  {
  }

  /** The body of the polling loop: whether to go on, to stop, or to give up. */
  method PollOnce(api: ApiServer, spec: Spec, s: Surroundings) returns (r: Poll)
    modifies api
    ensures r == PollAnswer(s) && api.calls == old(api.calls) + PollCalls(spec, s)
    ensures api.obj == AfterPoll(spec, s)
  {
    var got := api.Get(s);
    match got {
      case Got(Absent) =>
        var ok := api.CreateObject(spec, s);
        return if ok then Done else Error;
      case Got(Terminating(_)) =>
        return Again;
      case Got(Live(_)) =>
        var r' := api.DeleteObject(s);
        return if r' == DeleteFailed then Error else Again;
      case _ =>
        return Error;
    }
  }

  /** Replaces the object by one with the given spec; Timeout when the polls run out. */
  method Ensure(api: ApiServer, spec: Spec, polls: seq<Surroundings>) returns (r: Ending)
    modifies api
    ensures r == EndingOf(Granted(polls))
    ensures api.calls == old(api.calls) + CallsOf(spec, Granted(polls))
    ensures r == Ok ==> api.obj == Live(spec)
  {
    var left := Granted(polls);
    while left != []
      invariant EndingOf(Granted(polls)) == EndingOf(left)
      invariant old(api.calls) + CallsOf(spec, Granted(polls)) == api.calls + CallsOf(spec, left)
      decreases |left|
    {
      CallsStep(api.calls, spec, left);
      var answer := PollOnce(api, spec, left[0]);
      match answer {
        case Done => return Ok;
        case Error => return Err;
        case Again => left := left[1..];
      }
    }
    return Timeout;
  }

  // ---------- What every sequence of calls satisfies ----------

  function SuccessfulCreates(calls: seq<Call>): nat
  {
    if calls == [] then 0
    else (if calls[0].Create? && calls[0].ok then 1 else 0) + SuccessfulCreates(calls[1..])
  }

  function Reads(calls: seq<Call>): nat
  {
    if calls == [] then 0
    else (if calls[0].Got? || calls[0].GetFailed? then 1 else 0) + Reads(calls[1..])
  }

  lemma {:induction false} CountsConcat(a: seq<Call>, b: seq<Call>)
    ensures SuccessfulCreates(a + b) == SuccessfulCreates(a) + SuccessfulCreates(b)
    ensures Reads(a + b) == Reads(a) + Reads(b)
  {
    if a == [] {
      assert a + b == b;
    } else {
      assert (a + b)[1..] == a[1..] + b;
      CountsConcat(a[1..], b);
    }
  }

  lemma PollCounts(spec: Spec, s: Surroundings)
    ensures SuccessfulCreates(PollCalls(spec, s)) == if PollAnswer(s) == Done then 1 else 0
    ensures Reads(PollCalls(spec, s)) == 1
  {
    var calls := PollCalls(spec, s);
    if |calls| == 2 {
      assert calls == [calls[0]] + [calls[1]];
      CountsConcat([calls[0]], [calls[1]]);
    }
  }

  // What call k has to do with its neighbours: a read that finds nothing is followed
  // at once by a creation, one that finds an object not yet being deleted by its
  // deletion, and there is no other write; a creation works on an absent object only;
  // a deletion reports that there is no object only of an absent one.
  ghost predicate InOrder(calls: seq<Call>, k: nat)
    requires k < |calls|
  {
    match calls[k]
    case Got(Absent) => k + 1 < |calls| && calls[k + 1].Create?
    case Got(Live(_)) => k + 1 < |calls| && calls[k + 1].Delete?
    case Got(Terminating(_)) => k + 1 < |calls| ==> calls[k + 1].Got? || calls[k + 1].GetFailed?
    case GetFailed => true
    case Create(before, ok) => k > 0 && calls[k - 1] == Got(Absent) && (ok ==> before == Absent)
    case Delete(before, r) =>
      && k > 0 && calls[k - 1].Got? && calls[k - 1].seen.Live?
      && (r == NotFound ==> before == Absent) && (r == Deleted ==> before != Absent)
  }

  ghost predicate AllInOrder(calls: seq<Call>)
  {
    forall k | 0 <= k < |calls| :: InOrder(calls, k)
  }

  // The error calls: a read or a deletion that failed for a reason of its own, and a
  // creation that did not work
  predicate IsError(call: Call)
  {
    match call
    case GetFailed => true
    case Create(_, ok) => !ok
    case Delete(_, r) => r == DeleteFailed
    case _ => false
  }

  // A call that ends the polling
  predicate IsFinal(call: Call)
  {
    IsError(call) || call.Create?
  }

  ghost predicate FinalOnlyLast(calls: seq<Call>)
  {
    forall k | 0 <= k < |calls| - 1 :: !IsFinal(calls[k])
  }

  lemma PollInOrder(spec: Spec, s: Surroundings)
    ensures var calls := PollCalls(spec, s);
            && 1 <= |calls| <= 2 && AllInOrder(calls) && FinalOnlyLast(calls) && (calls[0].Got? || calls[0].GetFailed?)
            && (PollAnswer(s) == Again <==> !IsFinal(calls[|calls| - 1]))
            && (PollAnswer(s) == Error <==> IsError(calls[|calls| - 1]))
  {
  }

  lemma InOrderConcat(a: seq<Call>, b: seq<Call>)
    requires AllInOrder(a) && AllInOrder(b) && FinalOnlyLast(a) && FinalOnlyLast(b)
    requires a != [] && !IsFinal(a[|a| - 1])
    requires b != [] ==> b[0].Got? || b[0].GetFailed?
    ensures AllInOrder(a + b) && FinalOnlyLast(a + b)
  {
    forall k | 0 <= k < |a + b|
      ensures InOrder(a + b, k) && (k < |a + b| - 1 ==> !IsFinal((a + b)[k]))
    {
      assert if k < |a| then InOrder(a, k) else InOrder(b, k - |a|);
    }
  }

  // In any run: it succeeds iff a creation has succeeded, and then that was the last
  // call, on an absent object that the call before had found absent; it ends in an
  // error iff its last call is one; there is never more than one creation; every read
  // is followed by the write that it asks for and every write by a read; and there is
  // at most one read for each poll that the backoff grants.
  lemma {:induction false} CallsAreSound(spec: Spec, polls: seq<Surroundings>)
    ensures var calls := CallsOf(spec, polls);
            && SuccessfulCreates(calls) == (if EndingOf(polls) == Ok then 1 else 0)
            && Reads(calls) <= |polls|
            && AllInOrder(calls) && FinalOnlyLast(calls)
            && (EndingOf(polls) == Ok <==> calls != [] && calls[|calls| - 1] == Create(Absent, true))
            && (EndingOf(polls) == Err <==> calls != [] && IsError(calls[|calls| - 1]))
            && (calls != [] ==> calls[0].Got? || calls[0].GetFailed?)
  {
    if polls != [] {
      var first := PollCalls(spec, polls[0]);
      PollCounts(spec, polls[0]);
      PollInOrder(spec, polls[0]);
      if PollAnswer(polls[0]) == Again {
        CallsAreSound(spec, polls[1..]);
        var rest := CallsOf(spec, polls[1..]);
        CountsConcat(first, rest);
        InOrderConcat(first, rest);
        assert CallsOf(spec, polls) == first + rest;
      } else {
        assert CallsOf(spec, polls) == first + [] == first;
      }
    }
  }

  // It ends with the backoff iff every poll has been taken and none was final.
  lemma {:induction false} TimeoutTakesAllPolls(spec: Spec, polls: seq<Surroundings>)
    ensures EndingOf(polls) == Timeout ==> Reads(CallsOf(spec, polls)) == |polls|
  {
    if polls != [] && PollAnswer(polls[0]) == Again {
      PollCounts(spec, polls[0]);
      TimeoutTakesAllPolls(spec, polls[1..]);
      CountsConcat(PollCalls(spec, polls[0]), CallsOf(spec, polls[1..]));
    }
  }

  // The number of steps of the backoff bounds the reads.
  lemma EnsureIsBounded(spec: Spec, polls: seq<Surroundings>)
    ensures Reads(CallsOf(spec, Granted(polls))) <= 20
  {
    CallsAreSound(spec, Granted(polls));
  }

  // ---------- Left alone, the replacement succeeds ----------

  // What the next poll meets when nobody interferes: what the last call has left,
  // except that a terminating object disappears when no poll is left for it.
  function Met(obj: Object, left: nat): Object
  {
    if obj.Terminating? && left == 0 then Absent else obj
  }

  // No call fails, nobody changes the object, and a deleted object lingers for another
  // left polls: each poll meets what the one before has left behind.
  ghost predicate LeftAlone(spec: Spec, obj: Object, left: nat, polls: seq<Surroundings>)
    decreases polls
  {
    polls != [] ==>
      var s, met := polls[0], Met(obj, left);
      && s == Surroundings(met, false, met, false, left > 0)
      && LeftAlone(spec, AfterPoll(spec, s), if met.Terminating? then left - 1 else left, polls[1..])
  }

  // There are such polls, as many as one likes.
  lemma {:induction false} PollsLeftAlone(spec: Spec, obj: Object, left: nat, n: nat) returns (polls: seq<Surroundings>)
    ensures |polls| == n && LeftAlone(spec, obj, left, polls)
    decreases n
  {
    polls := [];
    if n > 0 {
      var met := Met(obj, left);
      var s := Surroundings(met, false, met, false, left > 0);
      var rest := PollsLeftAlone(spec, AfterPoll(spec, s), if met.Terminating? then left - 1 else left, n - 1);
      polls := [s] + rest;
    }
  }

  // The number of polls needed to replace an object that lingers for n polls
  function PollsNeeded(obj: Object, n: nat): nat
  {
    match obj
    case Absent => 1
    case Terminating(_) => n + 1
    case Live(_) => n + 2
  }

  lemma {:induction false} LeftAloneEnds(spec: Spec, obj: Object, left: nat, polls: seq<Surroundings>)
    requires LeftAlone(spec, obj, left, polls)
    ensures EndingOf(polls) == if PollsNeeded(obj, left) <= |polls| then Ok else Timeout
    decreases polls
  {
    if polls != [] {
      var s, met := polls[0], Met(obj, left);
      LeftAloneEnds(spec, AfterPoll(spec, s), if met.Terminating? then left - 1 else left, polls[1..]);
    }
  }

  lemma {:induction false} LeftAlonePrefix(spec: Spec, obj: Object, left: nat, polls: seq<Surroundings>, few: nat)
    requires LeftAlone(spec, obj, left, polls) && few <= |polls|
    ensures LeftAlone(spec, obj, left, polls[..few])
    decreases few
  {
    if few > 0 {
      var s, met := polls[0], Met(obj, left);
      assert polls[..few][1..] == polls[1..][..few - 1];
      LeftAlonePrefix(spec, AfterPoll(spec, s), if met.Terminating? then left - 1 else left, polls[1..], few - 1);
    }
  }

  // If nobody interferes, the replacement succeeds iff the backoff grants the polls
  // that the deletion takes: one more than the object lingers for, two more if it has
  // to be deleted first.
  lemma UndisturbedSucceedsIff(spec: Spec, obj: Object, left: nat, polls: seq<Surroundings>)
    requires LeftAlone(spec, obj, left, polls)
    ensures EndingOf(Granted(polls)) == Ok <==> PollsNeeded(obj, left) <= |polls| && PollsNeeded(obj, left) <= 20
    ensures EndingOf(Granted(polls)) != Err
  {
    LeftAlonePrefix(spec, obj, left, polls, if |polls| <= STEPS then |polls| else STEPS);
    assert polls[..|polls|] == polls;
    LeftAloneEnds(spec, obj, left, Granted(polls));
  }
}
