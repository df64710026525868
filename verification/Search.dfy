/**
 The probe sequence of the block search, as a function of the allocated list.
 One probe asks for the network of the wanted size at an address; a refused
 probe names the last address to skip. The search is given a budget of probes,
 because the loop it describes does not stop on every input.
 */
module Search {
  import opened Wrappers
  import opened Bits
  import opened Cidr

  // What asking for one block answers. Refused(0) stands for "no continuation".
  datatype Probe = Granted | Refused(last: Word32)

  // Scans the allocated blocks in list order for the first one in the way of a
  // request for the network cand, written with address ip.
  function FirstConflict(blocks: seq<Block>, ip: Word32, cand: Block): Option<Word32>
  {
    if blocks == [] then None
    else if blocks[0].Contains(ip) then BlockBounds(blocks[0]); Some(blocks[0].Last())
    else if cand.Contains(blocks[0].first) then BlockBounds(cand); Some(cand.Last())
    else FirstConflict(blocks[1..], ip, cand)
  }

  // The request itself and the last address of its network must be in the range.
  predicate InRange(net: Block, ip: Word32, exp: nat)
    requires exp <= 32
  {
    BlockBounds(NetworkOf(ip, exp));
    net.Contains(ip) && net.Contains(NetworkOf(ip, exp).Last())
  }

  function ProbeAt(net: Block, blocks: seq<Block>, exp: nat, ip: Word32): Probe
    requires exp <= 32
  {
    if !InRange(net, ip, exp) then Refused(0)
    else match FirstConflict(blocks, ip, NetworkOf(ip, exp))
      case Some(last) => Refused(last)
      case None => Granted
  }

  // What the search has found after at most budget probes: an address, the
  // answer that there is none, or nothing yet.
  datatype Outcome = Found(ip: Word32) | NoSpace | Probing(ip: Word32)

  function SearchFrom(net: Block, blocks: seq<Block>, exp: nat, ip: Word32, budget: nat): Outcome
    requires exp <= 32
    decreases budget
  {
    if budget == 0 then Probing(ip)
    else match ProbeAt(net, blocks, exp, ip)
      case Granted => Found(ip)
      case Refused(last) =>
        if last == 0 then NoSpace
        else SearchFrom(net, blocks, exp, UintToIP(last + 1), budget - 1)
  }

  // The number of probes after which the search has finished or never will.
  function ProbeBound(blocks: seq<Block>): nat
  {
    2 * |blocks| + 1
  }

  function Run(net: Block, blocks: seq<Block>, exp: nat): Outcome
    requires exp <= 32
  {
    SearchFrom(net, blocks, exp, net.first, ProbeBound(blocks))
  }

  // ---------- What the search is for ----------

  ghost predicate Within(a: Block, b: Block)
  {
    forall x: nat :: a.Contains(x) ==> b.Contains(x)
  }

  // b lies in the range and shares no address with an allocated block.
  ghost predicate Free(net: Block, blocks: seq<Block>, b: Block)
  {
    Within(b, net) && forall a <- blocks :: !Share(a, b)
  }

  // The lowest free block of the size, or no answer because there is no free block.
  ghost predicate FirstFit(net: Block, blocks: seq<Block>, exp: nat, out: Outcome)
    requires exp <= 32
  {
    match out
    case Found(ip) =>
      && Mask(ip, exp) == ip
      && Free(net, blocks, NetworkOf(ip, exp))
      && forall c: Block :: c.exp == exp && Free(net, blocks, c) ==> ip <= c.first
    case NoSpace => forall c: Block :: c.exp == exp ==> !Free(net, blocks, c)
    case Probing(_) => false
  }

  lemma FirstFitUnique(net: Block, blocks: seq<Block>, exp: nat, out: Outcome, out': Outcome)
    requires exp <= 32
    requires FirstFit(net, blocks, exp, out) && FirstFit(net, blocks, exp, out')
    ensures out == out'
  {
    if out.Found? { assert NetworkOf(out.ip, exp).first == out.ip; }
    if out'.Found? { assert NetworkOf(out'.ip, exp).first == out'.ip; }
  }

  // ---------- One probe ----------

  // A refusal names the last address of a block that contains the address, or of
  // the candidate when a block starts inside it; a grant rules both out.
  lemma {:induction false} ConflictCause(blocks: seq<Block>, ip: Word32, cand: Block)
    ensures match FirstConflict(blocks, ip, cand)
      case Some(last) =>
        exists b <- blocks ::
          || (b.Contains(ip) && last == b.Last())
          || (!b.Contains(ip) && cand.Contains(b.first) && last == cand.Last())
      case None => forall b <- blocks :: !b.Contains(ip) && !cand.Contains(b.first)
  {
    if blocks != [] && !blocks[0].Contains(ip) && !cand.Contains(blocks[0].first) {
      ConflictCause(blocks[1..], ip, cand);
    }
  }

  lemma NetworkOfContains(ip: Word32, exp: nat, x: nat)
    requires exp <= 32
    ensures NetworkOf(ip, exp).Contains(ip)
    ensures NetworkOf(ip, exp).Contains(x) <==> NetworkOf(ip, exp).first <= x <= NetworkOf(ip, exp).Last()
  {
    ContainsIsInterval(NetworkOf(ip, exp), x);
  }

  // A block is in the way of a request exactly when it shares an address with
  // the requested network, even when the request has host bits set.
  lemma InTheWay(b: Block, ip: Word32, exp: nat)
    requires exp <= 32
    ensures b.Contains(ip) || NetworkOf(ip, exp).Contains(b.first) <==> Share(b, NetworkOf(ip, exp))
  {
    var cand := NetworkOf(ip, exp);
    OverlapIsShare(b, cand);
    if b.Contains(ip) {
      assert cand.Contains(ip);
    } else if Share(b, cand) && !cand.Contains(b.first) {
      assert b.Contains(cand.first);
      ContainsIsInterval(b, b.first);
      if cand.exp <= b.exp {
        assert cand.Contains(cand.first);
        Nesting(cand, b, cand.first);
      } else {
        assert cand.Contains(cand.first);
        Nesting(b, cand, cand.first);
      }
    }
  }

  // A granted request is disjoint from every allocated block, whatever the size
  // of the block and the range.
  lemma GrantIsDisjoint(net: Block, blocks: seq<Block>, exp: nat, ip: Word32)
    requires exp <= 32
    ensures ProbeAt(net, blocks, exp, ip) == Granted <==>
            InRange(net, ip, exp) && forall b <- blocks :: !Share(b, NetworkOf(ip, exp))
  {
    var cand := NetworkOf(ip, exp);
    ConflictCause(blocks, ip, cand);
    forall b <- blocks
      ensures b.Contains(ip) || cand.Contains(b.first) <==> Share(b, cand)
    {
      InTheWay(b, ip, exp);
    }
  }

  // ---------- Progress: every refusal uses up one of 2k reasons ----------

  function Count(b: bool): nat { if b then 1 else 0 }

  // Each block can refuse once for containing the address and once for starting
  // in the candidate; this counts the reasons not yet behind the address.
  function Pending(blocks: seq<Block>, exp: nat, ip: nat): nat
    requires exp <= 32
  {
    if blocks == [] then 0
    else Count(ip <= blocks[0].Last()) + Count(ip <= NetworkOf(blocks[0].first, exp).Last())
         + Pending(blocks[1..], exp, ip)
  }

  lemma {:induction false} PendingDecreases(blocks: seq<Block>, exp: nat, ip: nat, ip': nat)
    requires exp <= 32 && ip <= ip'
    ensures Pending(blocks, exp, ip') <= Pending(blocks, exp, ip) <= 2 * |blocks|
    ensures (exists b <- blocks :: ip <= b.Last() < ip' || ip <= NetworkOf(b.first, exp).Last() < ip')
            ==> Pending(blocks, exp, ip') < Pending(blocks, exp, ip)
  {
    if blocks != [] {
      PendingDecreases(blocks[1..], exp, ip, ip');
      assert blocks == [blocks[0]] + blocks[1..];
    }
  }

  // A refused request in the range moves the address forward and uses up a reason.
  lemma RefusalProgress(net: Block, blocks: seq<Block>, exp: nat, ip: Word32)
    requires exp <= 32 && InRange(net, ip, exp)
    ensures match ProbeAt(net, blocks, exp, ip)
      case Granted => true
      case Refused(last) =>
        ip <= last && Pending(blocks, exp, last + 1) < Pending(blocks, exp, ip)
  {
    var cand := NetworkOf(ip, exp);
    ConflictCause(blocks, ip, cand);
    match FirstConflict(blocks, ip, cand)
    case None =>
    case Some(last) =>
      var b :| b in blocks && ((b.Contains(ip) && last == b.Last())
                               || (!b.Contains(ip) && cand.Contains(b.first) && last == cand.Last()));
      ContainsIsInterval(b, ip);
      NetworkOfContains(ip, exp, ip);
      assert cand.Contains(b.first) ==> NetworkOf(b.first, exp) == cand;
      PendingDecreases(blocks, exp, ip, last + 1);
  }

  // ---------- The search finishes within 2k + 1 probes or never ----------

  lemma {:induction false} BudgetMonotone(net: Block, blocks: seq<Block>, exp: nat, ip: Word32, n: nat, m: nat)
    requires exp <= 32 && n <= m
    ensures var s := SearchFrom(net, blocks, exp, ip, n);
            !s.Probing? ==> SearchFrom(net, blocks, exp, ip, m) == s
    decreases n
  {
    if n > 0 {
      match ProbeAt(net, blocks, exp, ip)
      case Granted =>
      case Refused(last) =>
        if last != 0 { BudgetMonotone(net, blocks, exp, UintToIP(last + 1), n - 1, m - 1); }
    }
  }

  // A refused probe hands over to the search from the next address.
  lemma RefusalStep(net: Block, blocks: seq<Block>, exp: nat, ip: Word32, last: Word32, n: nat)
    requires exp <= 32 && ProbeAt(net, blocks, exp, ip) == Refused(last) && last != 0
    ensures SearchFrom(net, blocks, exp, ip, n + 1) == SearchFrom(net, blocks, exp, UintToIP(last + 1), n)
  {
  }

  // After j probes from ip the search is where it would be when starting at 0.0.0.0.
  ghost predicate WrapsAfter(net: Block, blocks: seq<Block>, exp: nat, ip: Word32, j: nat)
    requires exp <= 32
  {
    forall n: nat :: SearchFrom(net, blocks, exp, ip, j + n) == SearchFrom(net, blocks, exp, 0, n)
  }

  lemma WrapsLater(net: Block, blocks: seq<Block>, exp: nat, ip: Word32, last: Word32, j: nat)
    requires exp <= 32 && ProbeAt(net, blocks, exp, ip) == Refused(last) && 0 < last < TWO_32 - 1
    requires WrapsAfter(net, blocks, exp, last + 1, j)
    ensures WrapsAfter(net, blocks, exp, ip, j + 1)
  {
    forall n: nat
      ensures SearchFrom(net, blocks, exp, ip, j + 1 + n) == SearchFrom(net, blocks, exp, 0, n)
    {
      RefusalStep(net, blocks, exp, ip, last, j + n);
      assert SearchFrom(net, blocks, exp, last + 1, j + n) == SearchFrom(net, blocks, exp, 0, n);
    }
  }

  // The search from ip ends before it runs out of reasons for a refusal.
  ghost predicate Ends(net: Block, blocks: seq<Block>, exp: nat, ip: Word32)
    requires exp <= 32
  {
    !SearchFrom(net, blocks, exp, ip, Pending(blocks, exp, ip) + 1).Probing?
  }

  lemma EndsLater(net: Block, blocks: seq<Block>, exp: nat, ip: Word32, last: Word32, n: nat, m: nat)
    requires exp <= 32 && ProbeAt(net, blocks, exp, ip) == Refused(last) && 0 < last < TWO_32 - 1
    requires n <= m && !SearchFrom(net, blocks, exp, last + 1, n).Probing?
    ensures !SearchFrom(net, blocks, exp, ip, m + 1).Probing?
  {
    BudgetMonotone(net, blocks, exp, last + 1, n, m);
    RefusalStep(net, blocks, exp, ip, last, m);
  }

  lemma WrapsNow(net: Block, blocks: seq<Block>, exp: nat, ip: Word32)
    requires exp <= 32 && ProbeAt(net, blocks, exp, ip) == Refused(TWO_32 - 1)
    ensures WrapsAfter(net, blocks, exp, ip, 1)
  {
    forall n: nat
      ensures SearchFrom(net, blocks, exp, ip, 1 + n) == SearchFrom(net, blocks, exp, 0, n)
    {
      RefusalStep(net, blocks, exp, ip, TWO_32 - 1, n);
    }
  }

  // With more probes than reasons left, the search ends or the address has
  // wrapped around to 0.0.0.0 after j probes.
  lemma {:induction false} EndsOrWraps(net: Block, blocks: seq<Block>, exp: nat, ip: Word32) returns (j: nat)
    requires exp <= 32
    ensures Ends(net, blocks, exp, ip)
            || (1 <= j <= Pending(blocks, exp, ip) && WrapsAfter(net, blocks, exp, ip, j))
    decreases Pending(blocks, exp, ip)
  {
    j := 1;
    match ProbeAt(net, blocks, exp, ip)
    case Granted =>
    case Refused(last) =>
      if last != 0 {
        RefusalProgress(net, blocks, exp, ip);
        if last == TWO_32 - 1 {
          WrapsNow(net, blocks, exp, ip);
        } else {
          j := EndsOrWraps(net, blocks, exp, last + 1);
          if Ends(net, blocks, exp, last + 1) {
            EndsLater(net, blocks, exp, ip, last, Pending(blocks, exp, last + 1) + 1, Pending(blocks, exp, ip));
          } else {
            WrapsLater(net, blocks, exp, ip, last, j);
          }
          j := j + 1;
        }
      }
  }

  lemma {:induction false} CycleNeverEnds(net: Block, blocks: seq<Block>, exp: nat, j: nat, n: nat)
    requires exp <= 32 && 1 <= j
    requires SearchFrom(net, blocks, exp, 0, j).Probing?
    requires WrapsAfter(net, blocks, exp, 0, j)
    ensures SearchFrom(net, blocks, exp, 0, n).Probing?
  {
    if n <= j {
      BudgetMonotone(net, blocks, exp, 0, n, j);
    } else {
      CycleNeverEnds(net, blocks, exp, j, n - j);
      assert SearchFrom(net, blocks, exp, 0, j + (n - j)).Probing?;
    }
  }

  // Still probing after a wrap means that 0.0.0.0 is in the range, as its first address.
  lemma WrappedInside(net: Block, blocks: seq<Block>, exp: nat, j: nat, bound: nat)
    requires exp <= 32 && j < bound
    requires WrapsAfter(net, blocks, exp, net.first, j)
    requires SearchFrom(net, blocks, exp, net.first, bound).Probing?
    ensures net.first == 0
  {
    assert SearchFrom(net, blocks, exp, net.first, j + (bound - j)) == SearchFrom(net, blocks, exp, 0, bound - j);
    MaskZero(net.exp);
  }

  // For every range, list and size: after 2k + 1 probes the answer is final, or
  // the search runs forever, which takes a range that starts at 0.0.0.0.
  lemma SettlesOrDiverges(net: Block, blocks: seq<Block>, exp: nat)
    requires exp <= 32
    ensures var out := Run(net, blocks, exp);
            if out.Probing?
            then net.first == 0 && forall n: nat :: SearchFrom(net, blocks, exp, net.first, n).Probing?
            else forall n: nat :: ProbeBound(blocks) <= n ==> SearchFrom(net, blocks, exp, net.first, n) == out
  {
    var bound := ProbeBound(blocks);
    var p := Pending(blocks, exp, net.first);
    PendingDecreases(blocks, exp, net.first, net.first);
    var j := EndsOrWraps(net, blocks, exp, net.first);
    BudgetMonotone(net, blocks, exp, net.first, p + 1, bound);
    if Run(net, blocks, exp).Probing? {
      WrappedInside(net, blocks, exp, j, bound);
      BudgetMonotone(net, blocks, exp, 0, j, bound);
      forall n: nat
        ensures SearchFrom(net, blocks, exp, net.first, n).Probing?
      {
        CycleNeverEnds(net, blocks, exp, j, n);
      }
    } else {
      forall n: nat | bound <= n
        ensures SearchFrom(net, blocks, exp, net.first, n) == Run(net, blocks, exp)
      {
        BudgetMonotone(net, blocks, exp, net.first, bound, n);
      }
    }
  }

  lemma {:induction false} MaskZero(e: nat)
    ensures Mask(0, e) == 0
  {
    if e > 0 { MaskZero(e - 1); }
  }
}
