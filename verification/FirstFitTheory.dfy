/**
 What the block search computes: the lowest free block, exactly when the range
 does not start at 0.0.0.0 (and the block is not larger than the range).
 */
module FirstFitTheory {
  import opened Wrappers
  import opened Bits
  import opened Cidr
  import opened Search

  // ---------- Alignment ----------

  // An address inside a candidate instead of at its start is there because a
  // block lies in the candidate, so that a request for it cannot be granted.
  ghost predicate AlignedOrBlocked(blocks: seq<Block>, exp: nat, ip: Word32)
    requires exp <= 32
  {
    Mask(ip, exp) == ip || exists b <- blocks :: NetworkOf(ip, exp).Contains(b.first)
  }

  // The address after any network is aligned for the wanted size, or the network
  // is inside the candidate that this address belongs to.
  lemma AfterBlock(b: Block, exp: nat, next: Word32)
    requires exp <= 32 && next == b.Last() + 1
    ensures Mask(next, exp) == next || NetworkOf(next, exp).Contains(b.first)
  {
    if exp <= b.exp {
      MaskStep(b.first, b.exp);
      MaskMask(next, exp, b.exp);
    } else {
      var cand := NetworkOf(next, exp);
      NetworkOfContains(next, exp, next);
      NetworkOfContains(next, exp, b.Last());
      if Mask(next, exp) != next {
        assert cand.Contains(b.Last());
        BlockBounds(b);
        ContainsIsInterval(b, b.Last());
        Nesting(b, cand, b.Last());
      }
    }
  }

  // Every refusal leaves the next address aligned or blocked.
  lemma RefusalKeepsAlignment(net: Block, blocks: seq<Block>, exp: nat, ip: Word32)
    requires exp <= 32
    ensures match ProbeAt(net, blocks, exp, ip)
      case Granted => true
      case Refused(last) => last > 0 ==> AlignedOrBlocked(blocks, exp, UintToIP(last + 1))
  {
    var cand := NetworkOf(ip, exp);
    ConflictCause(blocks, ip, cand);
    MaskZero(exp);
    match ProbeAt(net, blocks, exp, ip)
    case Granted =>
    case Refused(last) =>
      if 0 < last < TWO_32 - 1 {
        var b :| b in blocks && ((b.Contains(ip) && last == b.Last())
                                 || (!b.Contains(ip) && cand.Contains(b.first) && last == cand.Last()));
        AfterBlock(if last == b.Last() then b else cand, exp, last + 1);
        if last != b.Last() {
          MaskStep(cand.first, exp);
        }
      }
  }

  // Every address that is granted has no host bits, although the addresses that
  // were asked for on the way may have some.
  lemma {:induction false} GrantsAreAligned(net: Block, blocks: seq<Block>, exp: nat, ip: Word32, budget: nat)
    requires exp <= 32 && AlignedOrBlocked(blocks, exp, ip)
    ensures var out := SearchFrom(net, blocks, exp, ip, budget);
            out.Found? ==> Mask(out.ip, exp) == out.ip
    decreases budget
  {
    if budget > 0 {
      match ProbeAt(net, blocks, exp, ip)
      case Granted =>
        ConflictCause(blocks, ip, NetworkOf(ip, exp));
      case Refused(last) =>
        if last != 0 {
          RefusalKeepsAlignment(net, blocks, exp, ip);
          GrantsAreAligned(net, blocks, exp, UintToIP(last + 1), budget - 1);
        }
    }
  }

  // ---------- First fit ----------

  // No address of 0 can be mistaken for the "no continuation" mark and the
  // address cannot wrap around inside the range.
  predicate Tame(net: Block, blocks: seq<Block>)
  {
    net.first != 0 || (net.exp < 32 && forall b <- blocks :: b.Last() != 0 && b.exp < 32)
  }

  lemma WithinIsSmaller(a: Block, b: Block)
    requires Within(a, b)
    ensures a.exp <= b.exp && b.Contains(a.first) && b.Contains(a.Last())
  {
    ContainsIsInterval(a, a.first);
    ContainsIsInterval(a, a.Last());
    assert b.Contains(a.first) && b.Contains(a.Last());
    ContainsIsInterval(b, a.first);
    ContainsIsInterval(b, a.Last());
    if b.exp < a.exp { Pow2Monotone(b.exp, a.exp); }
  }

  // For a block no larger than the range, the two tests on a request say that
  // the whole block lies in the range, and the address alone decides it.
  lemma InRangeIsWithin(net: Block, exp: nat, ip: Word32)
    requires exp <= net.exp
    ensures InRange(net, ip, exp) <==> Within(NetworkOf(ip, exp), net)
    ensures InRange(net, ip, exp) <==> net.Contains(ip)
  {
    var cand := NetworkOf(ip, exp);
    NetworkOfContains(ip, exp, ip);
    NetworkOfContains(ip, exp, cand.Last());
    if net.Contains(ip) { Nesting(cand, net, ip); }
  }

  // The free blocks of the size all start at or after the address.
  ghost predicate AllFreeFrom(net: Block, blocks: seq<Block>, exp: nat, ip: nat)
  {
    forall c: Block :: c.exp == exp && Free(net, blocks, c) ==> ip <= c.first
  }

  // A refused address can be skipped up to the named last address without
  // missing a free block.
  lemma SkipIsSafe(net: Block, blocks: seq<Block>, exp: nat, ip: Word32)
    requires exp <= net.exp && InRange(net, ip, exp)
    requires AllFreeFrom(net, blocks, exp, ip)
    ensures match ProbeAt(net, blocks, exp, ip)
      case Granted => true
      case Refused(last) => AllFreeFrom(net, blocks, exp, last + 1)
  {
    var cand := NetworkOf(ip, exp);
    ConflictCause(blocks, ip, cand);
    match ProbeAt(net, blocks, exp, ip)
    case Granted =>
    case Refused(last) =>
      var b :| b in blocks && ((b.Contains(ip) && last == b.Last())
                               || (!b.Contains(ip) && cand.Contains(b.first) && last == cand.Last()));
      forall c: Block | c.exp == exp && Free(net, blocks, c)
        ensures last + 1 <= c.first
      {
        assert !Share(b, c);
        assert c.Contains(c.first);
        if c.first <= last {
          if b.Contains(ip) && last == b.Last() {
            ContainsIsInterval(b, ip);
            ContainsIsInterval(b, c.first);
          } else {
            NetworkOfContains(ip, exp, ip);
            NetworkOfContains(ip, exp, c.first);
            SameSizeSameNet(c, cand, c.first);
            ContainsIsInterval(b, b.first);
          }
          assert false;
        }
      }
  }

  // ---------- What the search answers, for every list ----------

  ghost predicate HasFree(net: Block, blocks: seq<Block>, exp: nat)
  {
    exists c: Block :: c.exp == exp && Free(net, blocks, c)
  }

  // The first probe is refused by 0.0.0.0/32, whose last address reads as "no
  // continuation".
  predicate GivesUpAtZero(net: Block, blocks: seq<Block>, exp: nat)
    requires exp <= 32
  {
    net.first == 0 && FirstConflict(blocks, 0, NetworkOf(0, exp)) == Some(0)
  }

  // 0.0.0.0/0
  function WholeSpace(): Block
  {
    MaskZero(32);
    Net(0, 32)
  }

  lemma WholeSpaceContains(ip: Word32)
    ensures WholeSpace().Contains(ip) && WholeSpace().Last() == TWO_32 - 1
  {
    Pow2Is32();
    ContainsIsInterval(WholeSpace(), ip);
  }

  // A search that wraps around to 0.0.0.0 inside the range starts all over again:
  // the range is the whole space and full, or 0.0.0.0/0 is listed and the blocks
  // listed before it would leave something free.
  ghost predicate NeverReturns(net: Block, blocks: seq<Block>, exp: nat)
    requires exp <= 32
  {
    && net.first == 0 && !GivesUpAtZero(net, blocks, exp)
    && if net.exp == 32 then !HasFree(net, blocks, exp)
       else exists w | 0 <= w < |blocks| :: blocks[w] == WholeSpace() && HasFree(net, blocks[..w], exp)
  }

  // Whatever is found, and from wherever the search starts, is free.
  lemma {:induction false} FoundIsFree(net: Block, blocks: seq<Block>, exp: nat, ip: Word32, budget: nat)
    requires exp <= net.exp
    ensures match SearchFrom(net, blocks, exp, ip, budget)
      case Found(at) => Free(net, blocks, NetworkOf(at, exp))
      case _ => true
    decreases budget
  {
    if budget > 0 {
      GrantIsDisjoint(net, blocks, exp, ip);
      InRangeIsWithin(net, exp, ip);
      match ProbeAt(net, blocks, exp, ip)
      case Granted =>
      case Refused(last) =>
        if last != 0 { FoundIsFree(net, blocks, exp, UintToIP(last + 1), budget - 1); }
    }
  }

  // What is found is the lowest free block if no free block has been skipped;
  // past the end of the address space there is none left to be found.
  lemma {:induction false} FoundIsLowest(net: Block, blocks: seq<Block>, exp: nat, ip: Word32, budget: nat)
    requires exp <= net.exp && AllFreeFrom(net, blocks, exp, ip)
    ensures match SearchFrom(net, blocks, exp, ip, budget)
      case Found(at) => AllFreeFrom(net, blocks, exp, at)
      case _ => true
    decreases budget
  {
    if budget > 0 && InRange(net, ip, exp) {
      SkipIsSafe(net, blocks, exp, ip);
      match ProbeAt(net, blocks, exp, ip)
      case Granted =>
      case Refused(last) =>
        if last == TWO_32 - 1 {
          FoundIsFree(net, blocks, exp, 0, budget - 1);
        } else if last != 0 {
          FoundIsLowest(net, blocks, exp, last + 1, budget - 1);
        }
    }
  }

  // A free block that has not been skipped is reached.
  lemma {:induction false} FreeIsReached(net: Block, blocks: seq<Block>, exp: nat, ip: Word32, budget: nat)
    requires exp <= net.exp && net.first <= ip && AllFreeFrom(net, blocks, exp, ip) && HasFree(net, blocks, exp)
    requires ip == 0 ==> !GivesUpAtZero(net, blocks, exp)
    requires Pending(blocks, exp, ip) < budget
    ensures SearchFrom(net, blocks, exp, ip, budget).Found?
    decreases budget
  {
    FreeIsAhead(net, blocks, exp, ip);
    match ProbeAt(net, blocks, exp, ip)
    case Granted =>
    case Refused(last) => FreeIsReached(net, blocks, exp, last + 1, budget - 1);
  }

  lemma FreeIsAhead(net: Block, blocks: seq<Block>, exp: nat, ip: Word32)
    requires exp <= net.exp && net.first <= ip && AllFreeFrom(net, blocks, exp, ip) && HasFree(net, blocks, exp)
    requires ip == 0 ==> !GivesUpAtZero(net, blocks, exp)
    ensures match ProbeAt(net, blocks, exp, ip)
      case Granted => true
      case Refused(last) =>
        && 0 < last < TWO_32 - 1 && ip <= last && AllFreeFrom(net, blocks, exp, last + 1)
        && Pending(blocks, exp, last + 1) < Pending(blocks, exp, ip)
  {
    var c: Block :| c.exp == exp && Free(net, blocks, c);
    WithinIsSmaller(c, net);
    ContainsIsInterval(net, c.first);
    ContainsIsInterval(net, ip);
    InRangeIsWithin(net, exp, ip);
    SkipIsSafe(net, blocks, exp, ip);
    RefusalProgress(net, blocks, exp, ip);
  }

  lemma StartIsAligned(net: Block, blocks: seq<Block>, exp: nat)
    requires exp <= net.exp
    ensures AlignedOrBlocked(blocks, exp, net.first)
    ensures AllFreeFrom(net, blocks, exp, net.first)
  {
    MaskMask(net.first, exp, net.exp);
    forall c: Block | c.exp == exp && Free(net, blocks, c)
      ensures net.first <= c.first
    {
      WithinIsSmaller(c, net);
      ContainsIsInterval(net, c.first);
    }
  }

  // For every list and every range: a granted block is the lowest free one, and
  // there is a grant iff there is a free block and the search does not give up at
  // 0.0.0.0.
  lemma FoundIffFree(net: Block, blocks: seq<Block>, exp: nat)
    requires exp <= net.exp
    ensures var out := Run(net, blocks, exp);
            && (out.Found? ==> FirstFit(net, blocks, exp, out))
            && (out.Found? <==> HasFree(net, blocks, exp) && !GivesUpAtZero(net, blocks, exp))
  {
    StartIsAligned(net, blocks, exp);
    PendingDecreases(blocks, exp, net.first, net.first);
    FoundIsFree(net, blocks, exp, net.first, ProbeBound(blocks));
    FoundIsLowest(net, blocks, exp, net.first, ProbeBound(blocks));
    GrantsAreAligned(net, blocks, exp, net.first, ProbeBound(blocks));
    if HasFree(net, blocks, exp) && !GivesUpAtZero(net, blocks, exp) {
      FreeIsReached(net, blocks, exp, net.first, ProbeBound(blocks));
    }
    if GivesUpAtZero(net, blocks, exp) { GivingUp(net, blocks, exp, ProbeBound(blocks)); }
  }

  lemma GivingUp(net: Block, blocks: seq<Block>, exp: nat, budget: nat)
    requires exp <= net.exp && GivesUpAtZero(net, blocks, exp) && budget > 0
    ensures SearchFrom(net, blocks, exp, net.first, budget) == NoSpace
  {
    ContainsIsInterval(net, 0);
    InRangeIsWithin(net, exp, 0);
  }

  // ---------- When the search does not return ----------

  // A full range that is the whole address space refuses every probe and names an
  // address to go on from.
  lemma {:induction false} FullSpaceDiverges(net: Block, blocks: seq<Block>, exp: nat, ip: Word32, budget: nat)
    requires exp <= net.exp == 32 && net.first == 0
    requires !HasFree(net, blocks, exp) && !GivesUpAtZero(net, blocks, exp)
    ensures SearchFrom(net, blocks, exp, ip, budget).Probing?
    decreases budget
  {
    if budget > 0 {
      FullSpaceRefuses(net, blocks, exp, ip);
      match ProbeAt(net, blocks, exp, ip)
      case Granted =>
      case Refused(last) => FullSpaceDiverges(net, blocks, exp, UintToIP(last + 1), budget - 1);
    }
  }

  lemma FullSpaceRefuses(net: Block, blocks: seq<Block>, exp: nat, ip: Word32)
    requires exp <= net.exp == 32 && net.first == 0
    requires !HasFree(net, blocks, exp) && !GivesUpAtZero(net, blocks, exp)
    ensures match ProbeAt(net, blocks, exp, ip)
      case Granted => false
      case Refused(last) => last > 0
  {
    WholeSpaceContains(ip);
    InRangeIsWithin(net, exp, ip);
    GrantIsDisjoint(net, blocks, exp, ip);
    RefusalProgress(net, blocks, exp, ip);
    assert NetworkOf(ip, exp).exp == exp;
  }

  // The blocks listed first decide, as long as one of them is in the way.
  lemma {:induction false} ConflictOfPrefix(blocks: seq<Block>, w: nat, ip: Word32, cand: Block)
    requires w <= |blocks|
    ensures FirstConflict(blocks[..w], ip, cand).Some? ==>
              FirstConflict(blocks, ip, cand) == FirstConflict(blocks[..w], ip, cand)
    ensures FirstConflict(blocks[..w], ip, cand).None? && w < |blocks| && blocks[w] == WholeSpace() ==>
              FirstConflict(blocks, ip, cand) == Some(TWO_32 - 1)
  {
    WholeSpaceContains(ip);
    if w > 0 {
      assert blocks[..w][1..] == blocks[1..][..w - 1];
      ConflictOfPrefix(blocks[1..], w - 1, ip, cand);
    }
  }

  // A block found without 0.0.0.0/0 and what is listed after it is refused with it,
  // which takes the search back to 0.0.0.0.
  lemma {:induction false} FoundBeforeWraps(net: Block, blocks: seq<Block>, w: nat, exp: nat, ip: Word32, budget: nat) returns (j: nat)
    requires exp <= net.exp && w < |blocks| && blocks[w] == WholeSpace()
    requires SearchFrom(net, blocks[..w], exp, ip, budget).Found?
    ensures 1 <= j && WrapsAfter(net, blocks, exp, ip, j) && SearchFrom(net, blocks, exp, ip, j).Probing?
    decreases budget
  {
    ConflictOfPrefix(blocks, w, ip, NetworkOf(ip, exp));
    j := 1;
    match ProbeAt(net, blocks, exp, ip)
    case Granted =>
    case Refused(last) =>
      if last == TWO_32 - 1 {
        WrapsNow(net, blocks, exp, ip);
      } else {
        j := FoundBeforeWraps(net, blocks, w, exp, last + 1, budget - 1);
        WrapsLater(net, blocks, exp, ip, last, j);
        RefusalStep(net, blocks, exp, ip, last, j);
        j := j + 1;
      }
  }

  lemma {:induction false} NoSpaceBefore(net: Block, blocks: seq<Block>, w: nat, exp: nat, ip: Word32, budget: nat)
    requires exp <= 32 && w <= |blocks| && SearchFrom(net, blocks[..w], exp, ip, budget) == NoSpace
    ensures SearchFrom(net, blocks, exp, ip, budget) == NoSpace
    decreases budget
  {
    ConflictOfPrefix(blocks, w, ip, NetworkOf(ip, exp));
    match ProbeAt(net, blocks, exp, ip)
    case Granted =>
    case Refused(last) =>
      if last != 0 { NoSpaceBefore(net, blocks, w, exp, UintToIP(last + 1), budget - 1); }
  }

  // A block that reaches into a range at the bottom of the address space ends
  // before the top of it, unless it is 0.0.0.0/0.
  lemma SmallBlockFromZero(net: Block, b: Block, ip: Word32)
    requires net.first == 0 && net.exp < 32 && b.exp < 32 && net.Contains(ip) && b.Contains(ip)
    ensures b.Last() < TWO_32 - 1
  {
    Pow2Is32();
    Pow2Monotone(net.exp, 31);
    Pow2Monotone(b.exp, 31);
    ContainsIsInterval(net, ip);
    if b.exp <= net.exp {
      Nesting(b, net, ip);
      ContainsIsInterval(net, b.Last());
    } else {
      assert net.Contains(0) by { MaskZero(net.exp); }
      Nesting(net, b, ip);
      assert b.Contains(0);
      ContainsIsInterval(b, 0);
    }
  }

  // Without 0.0.0.0/0 a search in a smaller range does not wrap around.
  lemma RefusalBelowTop(net: Block, blocks: seq<Block>, exp: nat, ip: Word32)
    requires exp <= net.exp < 32 && net.first == 0 && InRange(net, ip, exp) && WholeSpace() !in blocks
    ensures match ProbeAt(net, blocks, exp, ip)
      case Granted => true
      case Refused(last) => last < TWO_32 - 1
  {
    var cand := NetworkOf(ip, exp);
    ConflictCause(blocks, ip, cand);
    NetworkOfContains(ip, exp, ip);
    SmallBlockFromZero(net, cand, ip);
    match ProbeAt(net, blocks, exp, ip)
    case Granted =>
    case Refused(last) =>
      if last != cand.Last() {
        var b :| b in blocks && b.Contains(ip) && last == b.Last();
        WideIsWhole(b);
        SmallBlockFromZero(net, b, ip);
      }
  }

  lemma WideIsWhole(b: Block)
    ensures b.exp < 32 || b == WholeSpace()
  {
    Pow2Is32();
    BlockBounds(b);
  }

  lemma {:induction false} EndsBelowTop(net: Block, blocks: seq<Block>, exp: nat, ip: Word32, budget: nat)
    requires exp <= net.exp < 32 && net.first == 0 && WholeSpace() !in blocks
    requires Pending(blocks, exp, ip) < budget
    ensures !SearchFrom(net, blocks, exp, ip, budget).Probing?
    decreases budget
  {
    if InRange(net, ip, exp) {
      RefusalBelowTop(net, blocks, exp, ip);
      RefusalProgress(net, blocks, exp, ip);
      match ProbeAt(net, blocks, exp, ip)
      case Granted =>
      case Refused(last) =>
        if last != 0 { EndsBelowTop(net, blocks, exp, last + 1, budget - 1); }
    }
  }

  lemma {:induction false} FirstWhole(blocks: seq<Block>) returns (w: nat)
    ensures w <= |blocks| && WholeSpace() !in blocks[..w]
    ensures w < |blocks| ==> blocks[w] == WholeSpace()
  {
    w := 0;
    if blocks != [] && blocks[0] != WholeSpace() {
      var v := FirstWhole(blocks[1..]);
      w := v + 1;
      assert blocks[..w] == [blocks[0]] + blocks[1..][..v];
    }
  }

  // The search runs forever in exactly these cases.
  lemma DivergesIff(net: Block, blocks: seq<Block>, exp: nat)
    requires exp <= net.exp
    ensures Run(net, blocks, exp).Probing? <==> NeverReturns(net, blocks, exp)
  {
    if NeverReturns(net, blocks, exp) {
      if net.exp == 32 {
        FullSpaceDiverges(net, blocks, exp, 0, ProbeBound(blocks));
      } else {
        var w :| 0 <= w < |blocks| && blocks[w] == WholeSpace() && HasFree(net, blocks[..w], exp);
        ConflictOfPrefix(blocks, w, 0, NetworkOf(0, exp));
        FoundIffFree(net, blocks[..w], exp);
        var j := FoundBeforeWraps(net, blocks, w, exp, 0, ProbeBound(blocks[..w]));
        CycleNeverEnds(net, blocks, exp, j, ProbeBound(blocks));
      }
    } else if Run(net, blocks, exp).Probing? {
      SettlesOrDiverges(net, blocks, exp);
      FoundIffFree(net, blocks, exp);
      if GivesUpAtZero(net, blocks, exp) { GivingUp(net, blocks, exp, ProbeBound(blocks)); }
      NothingBeforeEnds(net, blocks, exp);
    }
  }

  lemma NothingBeforeEnds(net: Block, blocks: seq<Block>, exp: nat)
    requires exp <= net.exp < 32 && net.first == 0 && !HasFree(net, blocks, exp)
    requires !NeverReturns(net, blocks, exp) && !GivesUpAtZero(net, blocks, exp)
    ensures !Run(net, blocks, exp).Probing?
  {
    var w := FirstWhole(blocks);
    var before := blocks[..w];
    if w == |blocks| { assert before == blocks; }
    PendingDecreases(before, exp, 0, 0);
    EndsBelowTop(net, before, exp, 0, ProbeBound(before));
    FoundIffFree(net, before, exp);
    NoSpaceBefore(net, blocks, w, exp, 0, ProbeBound(before));
    BudgetMonotone(net, blocks, exp, 0, ProbeBound(before), ProbeBound(blocks));
  }

  // For every range, list and size that fits: the search gives the lowest free
  // block, or fails because there is none, unless it gives up at 0.0.0.0 although
  // something is free or never returns.
  lemma RunIsFirstFitIff(net: Block, blocks: seq<Block>, exp: nat)
    requires exp <= net.exp
    ensures FirstFit(net, blocks, exp, Run(net, blocks, exp)) <==>
            if HasFree(net, blocks, exp) then !GivesUpAtZero(net, blocks, exp) else !NeverReturns(net, blocks, exp)
  {
    FoundIffFree(net, blocks, exp);
    DivergesIff(net, blocks, exp);
  }

  // On a list that cannot be mistaken for "no continuation" and cannot make the
  // address wrap around, the search is a first fit.
  lemma TameRun(net: Block, blocks: seq<Block>, exp: nat)
    requires exp <= net.exp && Tame(net, blocks)
    ensures FirstFit(net, blocks, exp, Run(net, blocks, exp))
  {
    RunIsFirstFitIff(net, blocks, exp);
    if net.first == 0 { LargeBlocksGoOn(net, blocks, exp); }
  }

  // Only 0.0.0.0/32 makes the search give up at 0.0.0.0.
  lemma LargeBlocksGoOn(net: Block, blocks: seq<Block>, exp: nat)
    requires exp <= net.exp && forall b <- blocks :: b.Last() != 0
    ensures !GivesUpAtZero(net, blocks, exp)
  {
    var cand := NetworkOf(0, exp);
    ConflictCause(blocks, 0, cand);
    forall b <- blocks | cand.Contains(b.first) && !b.Contains(0)
      ensures cand.Last() != 0
    {
      ContainsIsInterval(cand, b.first);
    }
  }

  // ---------- Exactly when the search is a first fit ----------

  // The candidate for the first address of the range ends where the range ends.
  predicate AtTopOf(net: Block, exp: nat)
    requires exp <= 32
  {
    NetworkOf(net.first, exp).Last() == net.Last()
  }

  // What a caller can check about the range and the size before the call.
  predicate Suitable(net: Block, exp: nat)
    requires exp <= 32
  {
    if exp <= net.exp then net.first != 0 else !AtTopOf(net, exp)
  }

  // The search is a first fit for every list of allocated blocks iff the range
  // and the size are suitable.
  lemma FirstFitIffSuitable(net: Block, exp: nat)
    requires exp <= 32
    ensures (forall blocks: seq<Block> :: FirstFit(net, blocks, exp, Run(net, blocks, exp)))
            <==> Suitable(net, exp)
  {
    if Suitable(net, exp) {
      forall blocks: seq<Block>
        ensures FirstFit(net, blocks, exp, Run(net, blocks, exp))
      {
        if exp <= net.exp { TameRun(net, blocks, exp); } else { TooLargeIsRefused(net, blocks, exp); }
      }
    } else if exp <= net.exp {
      WholeSpaceDiverges(net, [WholeSpace()], exp, ProbeBound([WholeSpace()]));
      assert !FirstFit(net, [WholeSpace()], exp, Run(net, [WholeSpace()], exp));
    } else {
      TooLargeIsGranted(net, exp);
      assert !FirstFit(net, [], exp, Run(net, [], exp));
    }
  }

  // For a block larger than the range the containment tests pass only when the
  // range is the top end of the candidate.
  lemma TooLargeInRange(net: Block, exp: nat, ip: Word32)
    requires net.exp < exp <= 32 && net.Contains(ip)
    ensures NetworkOf(ip, exp) == NetworkOf(net.first, exp)
    ensures InRange(net, ip, exp) <==> AtTopOf(net, exp)
    ensures !Within(NetworkOf(ip, exp), net)
  {
    var cand := NetworkOf(ip, exp);
    assert cand.Contains(ip);
    Nesting(net, cand, ip);
    assert cand.Contains(net.first);
    ContainsIsInterval(net, cand.Last());
    ContainsIsInterval(cand, net.Last());
    if Within(cand, net) { WithinIsSmaller(cand, net); }
  }

  lemma TooLargeIsRefused(net: Block, blocks: seq<Block>, exp: nat)
    requires net.exp < exp <= 32 && !AtTopOf(net, exp)
    ensures Run(net, blocks, exp) == NoSpace && FirstFit(net, blocks, exp, NoSpace)
  {
    TooLargeInRange(net, exp, net.first);
    forall c: Block | c.exp == exp
      ensures !Free(net, blocks, c)
    {
      if Within(c, net) { WithinIsSmaller(c, net); }
    }
  }

  lemma TooLargeIsGranted(net: Block, exp: nat)
    requires net.exp < exp <= 32 && AtTopOf(net, exp)
    ensures Run(net, [], exp) == Found(net.first) && !Within(NetworkOf(net.first, exp), net)
  {
    TooLargeInRange(net, exp, net.first);
  }

  // 0.0.0.0/32
  function LowestAddress(): Block
  {
    Net(0, 0)
  }

  // A range at 0.0.0.0 with 0.0.0.0/0 first in the list sends every probe back to
  // the start,
  lemma WholeSpaceRefuses(net: Block, blocks: seq<Block>, exp: nat)
    requires exp <= net.exp && net.first == 0 && blocks != [] && blocks[0] == WholeSpace()
    ensures ProbeAt(net, blocks, exp, 0) == Refused(TWO_32 - 1)
  {
    WholeSpaceContains(0);
    InRangeIsWithin(net, exp, 0);
  }

  lemma {:induction false} WholeSpaceDiverges(net: Block, blocks: seq<Block>, exp: nat, budget: nat)
    requires exp <= net.exp && net.first == 0 && blocks != [] && blocks[0] == WholeSpace()
    ensures SearchFrom(net, blocks, exp, 0, budget).Probing?
    decreases budget
  {
    if budget > 0 {
      WholeSpaceRefuses(net, blocks, exp);
      WholeSpaceDiverges(net, blocks, exp, budget - 1);
    }
  }

  // and with 0.0.0.0/32 first in the list the search gives up at once: the last
  // address of that block reads as "no continuation".
  lemma LowestAddressEndsSearch(net: Block, blocks: seq<Block>, exp: nat)
    requires exp <= net.exp && net.first == 0 && blocks != [] && blocks[0].Last() == 0
    ensures Run(net, blocks, exp) == NoSpace
  {
    BlockBounds(blocks[0]);
    ContainsIsInterval(blocks[0], 0);
    GivingUp(net, blocks, exp, ProbeBound(blocks));
  }

  // ---------- Order independence ----------

  ghost predicate SameBlocks(a: seq<Block>, b: seq<Block>)
  {
    forall x: Block :: x in a <==> x in b
  }

  // The order in which the registry is listed has no influence on the answer iff
  // the range does not start at 0.0.0.0 (or the block is larger than the range).
  lemma OrderIndependentIff(net: Block, exp: nat)
    requires exp <= 32
    ensures (forall a: seq<Block>, b: seq<Block> :: SameBlocks(a, b) ==> Run(net, a, exp) == Run(net, b, exp))
            <==> exp > net.exp || net.first != 0
  {
    if exp > net.exp || net.first != 0 {
      forall a: seq<Block>, b: seq<Block> | SameBlocks(a, b)
        ensures Run(net, a, exp) == Run(net, b, exp)
      {
        OrderIndependent(net, a, b, exp);
      }
    } else {
      var a, b := TwoOrders();
      assert a[0].Last() == 0;
      LowestAddressEndsSearch(net, a, exp);
      WholeSpaceDiverges(net, b, exp, ProbeBound(b));
      assert Run(net, a, exp) != Run(net, b, exp);
    }
  }

  // The same two blocks in both orders
  lemma TwoOrders() returns (a: seq<Block>, b: seq<Block>)
    ensures SameBlocks(a, b) && a != [] && b != [] && a[0] == LowestAddress() && b[0] == WholeSpace()
  {
    a, b := [LowestAddress(), WholeSpace()], [WholeSpace(), LowestAddress()];
  }

  lemma OrderIndependent(net: Block, a: seq<Block>, b: seq<Block>, exp: nat)
    requires exp <= 32 && (exp > net.exp || net.first != 0) && SameBlocks(a, b)
    ensures Run(net, a, exp) == Run(net, b, exp)
  {
    if exp <= net.exp {
      TameRun(net, a, exp);
      TameRun(net, b, exp);
      assert forall c: Block :: Free(net, a, c) <==> Free(net, b, c);
      FirstFitUnique(net, a, exp, Run(net, a, exp), Run(net, b, exp));
    } else if AtTopOf(net, exp) {
      TooLargeRun(net, a, exp);
      TooLargeRun(net, b, exp);
    } else {
      TooLargeIsRefused(net, a, exp);
      TooLargeIsRefused(net, b, exp);
    }
  }

  // At the top of an oversized candidate the range is granted as a whole or not
  // at all, depending on whether anything is allocated in the candidate.
  lemma TooLargeRun(net: Block, blocks: seq<Block>, exp: nat)
    requires net.exp < exp <= 32 && AtTopOf(net, exp)
    ensures Run(net, blocks, exp)
            == if forall b <- blocks :: !Share(b, NetworkOf(net.first, exp)) then Found(net.first) else NoSpace
  {
    TooLargeInRange(net, exp, net.first);
    GrantIsDisjoint(net, blocks, exp, net.first);
    if exists b <- blocks :: Share(b, NetworkOf(net.first, exp)) {
      NeverGranted(net, blocks, exp, net.first, ProbeBound(blocks));
      SettlesOrDiverges(net, blocks, exp);
      TopIsNotZero(net, exp);
    }
  }

  lemma TopIsNotZero(net: Block, exp: nat)
    requires net.exp < exp <= 32 && AtTopOf(net, exp)
    ensures net.first != 0
  {
    MaskZero(exp);
    Pow2Monotone(net.exp, exp);
  }

  lemma {:induction false} NeverGranted(net: Block, blocks: seq<Block>, exp: nat, ip: Word32, budget: nat)
    requires net.exp < exp <= 32
    requires exists b <- blocks :: Share(b, NetworkOf(net.first, exp))
    ensures !SearchFrom(net, blocks, exp, ip, budget).Found?
    decreases budget
  {
    if budget > 0 {
      GrantIsDisjoint(net, blocks, exp, ip);
      if net.Contains(ip) { TooLargeInRange(net, exp, ip); }
      match ProbeAt(net, blocks, exp, ip)
      case Granted =>
      case Refused(last) =>
        if last != 0 { NeverGranted(net, blocks, exp, UintToIP(last + 1), budget - 1); }
    }
  }

  // ---------- Host bits of the granted string ----------

  // Every granted address is free of host bits iff the block fits in the range
  // or the range is not the top end of an oversized candidate.
  lemma GrantsCanonicalIff(net: Block, exp: nat)
    requires exp <= 32
    ensures (forall blocks: seq<Block> :: Run(net, blocks, exp).Found? ==>
               Mask(Run(net, blocks, exp).ip, exp) == Run(net, blocks, exp).ip)
            <==> exp <= net.exp || !AtTopOf(net, exp)
  {
    if exp <= net.exp {
      forall blocks: seq<Block> | Run(net, blocks, exp).Found?
        ensures Mask(Run(net, blocks, exp).ip, exp) == Run(net, blocks, exp).ip
      {
        StartIsAligned(net, blocks, exp);
        GrantsAreAligned(net, blocks, exp, net.first, ProbeBound(blocks));
      }
    } else if AtTopOf(net, exp) {
      TooLargeIsGranted(net, exp);
      Pow2Monotone(net.exp, exp);
      assert Run(net, [], exp).ip == net.first;
    } else {
      forall blocks: seq<Block>
        ensures !Run(net, blocks, exp).Found?
      {
        TooLargeIsRefused(net, blocks, exp);
      }
    }
  }
}
