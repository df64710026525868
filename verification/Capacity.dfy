/**
 How many blocks of one size a range yields when every granted block is
 recorded before the next request: all of them, one after the other.
 */
module Capacity {
  import opened Bits
  import opened Cidr
  import opened Search
  import opened FirstFitTheory

  // The number of blocks of 2^exp addresses in the range
  function Slots(net: Block, exp: nat): nat
    requires exp <= net.exp
  {
    Pow2(net.exp - exp)
  }

  // The first address of slot i
  function SlotStart(net: Block, exp: nat, i: nat): nat
  {
    if i == 0 then net.first else SlotStart(net, exp, i - 1) + Pow2(exp)
  }

  // Slot i starts i block sizes after the range.
  lemma {:induction false} SlotStartIsMultiple(net: Block, exp: nat, i: nat)
    ensures SlotStart(net, exp, i) == net.first + i * Pow2(exp)
  {
    if i > 0 {
      SlotStartIsMultiple(net, exp, i - 1);
      assert i * Pow2(exp) == (i - 1) * Pow2(exp) + Pow2(exp);
    }
  }

  lemma {:induction false} SlotIsAligned(net: Block, exp: nat, i: nat)
    requires exp <= net.exp
    ensures Mask(SlotStart(net, exp, i), exp) == SlotStart(net, exp, i)
  {
    if i == 0 {
      MaskMask(net.first, exp, net.exp);
    } else {
      SlotIsAligned(net, exp, i - 1);
      MaskStep(SlotStart(net, exp, i - 1), exp);
    }
  }

  lemma SlotInRange(net: Block, exp: nat, i: nat)
    requires exp <= net.exp
    ensures i < Slots(net, exp) ==> SlotStart(net, exp, i) + Pow2(exp) <= net.Last() + 1
    ensures i == Slots(net, exp) ==> SlotStart(net, exp, i) == net.Last() + 1
  {
    SlotStartIsMultiple(net, exp, i);
    Pow2Add(net.exp - exp, exp);
    if i < Slots(net, exp) {
      assert (Slots(net, exp) - i) * Pow2(exp) == Slots(net, exp) * Pow2(exp) - i * Pow2(exp);
      MulAtLeast(Slots(net, exp) - i, Pow2(exp));
    }
  }

  function Slot(net: Block, exp: nat, i: nat): (b: Block)
    requires exp <= net.exp && i < Slots(net, exp)
  {
    SlotIsAligned(net, exp, i);
    SlotInRange(net, exp, i);
    BlockBounds(net);
    Net(SlotStart(net, exp, i), exp)
  }

  // The first n slots, in the order in which they are handed out
  function Filled(net: Block, exp: nat, n: nat): (s: seq<Block>)
    requires exp <= net.exp && n <= Slots(net, exp)
  {
    if n == 0 then [] else Filled(net, exp, n - 1) + [Slot(net, exp, n - 1)]
  }

  // What the search should answer when n slots are taken
  function Expected(net: Block, exp: nat, n: nat): Outcome
    requires exp <= net.exp && n <= Slots(net, exp)
  {
    if n < Slots(net, exp) then Found(Slot(net, exp, n).first) else NoSpace
  }

  lemma {:induction false} FilledBelow(net: Block, exp: nat, n: nat)
    requires exp <= net.exp && n <= Slots(net, exp)
    ensures |Filled(net, exp, n)| == n
    ensures forall b <- Filled(net, exp, n) :: b.exp == exp && b.Last() < SlotStart(net, exp, n)
  {
    if n > 0 { FilledBelow(net, exp, n - 1); }
  }

  // Every address before slot n is in one of the n taken slots.
  lemma {:induction false} FilledCovers(net: Block, exp: nat, n: nat, x: nat) returns (b: Block)
    requires exp <= net.exp && n <= Slots(net, exp)
    requires net.first <= x < SlotStart(net, exp, n)
    ensures b in Filled(net, exp, n) && b.Contains(x)
  {
    b := Slot(net, exp, n - 1);
    ContainsIsInterval(b, x);
    if x < SlotStart(net, exp, n - 1) {
      b := FilledCovers(net, exp, n - 1, x);
    }
  }

  lemma SlotWithin(net: Block, exp: nat, n: nat)
    requires exp <= net.exp && n < Slots(net, exp)
    ensures Within(Slot(net, exp, n), net)
  {
    var slot := Slot(net, exp, n);
    SlotInRange(net, exp, n);
    SlotAfterFirst(net, exp, n);
    forall x: nat | slot.Contains(x)
      ensures net.Contains(x)
    {
      ContainsIsInterval(slot, x);
      ContainsIsInterval(net, x);
    }
  }

  lemma {:induction false} SlotAfterFirst(net: Block, exp: nat, n: nat)
    ensures net.first <= SlotStart(net, exp, n)
  {
    if n > 0 { SlotAfterFirst(net, exp, n - 1); }
  }

  lemma SlotIsFree(net: Block, exp: nat, n: nat)
    requires exp <= net.exp && n < Slots(net, exp)
    ensures Free(net, Filled(net, exp, n), Slot(net, exp, n))
  {
    SlotWithin(net, exp, n);
    FilledBelow(net, exp, n);
    forall b <- Filled(net, exp, n)
      ensures !Share(b, Slot(net, exp, n))
    {
      LowerIsDisjoint(b, Slot(net, exp, n));
    }
  }

  lemma LowerIsDisjoint(a: Block, b: Block)
    requires a.Last() < b.first
    ensures !Share(a, b)
  {
    forall x: nat
      ensures !(a.Contains(x) && b.Contains(x))
    {
      ContainsIsInterval(a, x);
      ContainsIsInterval(b, x);
    }
  }

  lemma SlotsAreDisjoint(net: Block, exp: nat, i: nat, j: nat)
    requires exp <= net.exp && i < j < Slots(net, exp)
    ensures !Share(Slot(net, exp, i), Slot(net, exp, j))
  {
    SlotEndsBefore(net, exp, i, j);
    LowerIsDisjoint(Slot(net, exp, i), Slot(net, exp, j));
  }

  lemma {:induction false} SlotEndsBefore(net: Block, exp: nat, i: nat, j: nat)
    requires exp <= net.exp && i < j < Slots(net, exp)
    ensures Slot(net, exp, i).Last() < SlotStart(net, exp, j)
    decreases j
  {
    if i < j - 1 { SlotEndsBefore(net, exp, i, j - 1); }
  }

  // The lowest free block is the next slot, and there is none after the last one.
  lemma ExpectedIsFirstFit(net: Block, exp: nat, n: nat)
    requires exp <= net.exp && n <= Slots(net, exp)
    ensures FirstFit(net, Filled(net, exp, n), exp, Expected(net, exp, n))
  {
    var taken := Filled(net, exp, n);
    forall c: Block | c.exp == exp && Free(net, taken, c)
      ensures SlotStart(net, exp, n) <= c.first && n < Slots(net, exp)
    {
      FreeIsLater(net, exp, n, c);
    }
    if n < Slots(net, exp) {
      SlotIsFree(net, exp, n);
      SlotIsAligned(net, exp, n);
      assert NetworkOf(Slot(net, exp, n).first, exp) == Slot(net, exp, n);
    }
  }

  lemma FreeIsLater(net: Block, exp: nat, n: nat, c: Block)
    requires exp <= net.exp && n <= Slots(net, exp)
    requires c.exp == exp && Free(net, Filled(net, exp, n), c)
    ensures SlotStart(net, exp, n) <= c.first && n < Slots(net, exp)
  {
    WithinIsSmaller(c, net);
    ContainsIsInterval(net, c.first);
    ContainsIsInterval(c, c.first);
    SlotInRange(net, exp, n);
    if c.first < SlotStart(net, exp, n) {
      var b := FilledCovers(net, exp, n, c.first);
      OverlapIsShare(b, c);
    }
  }

  // ---------- Allocating and recording, over and over ----------

  // What is recorded after n requests on an empty list, each granted block being
  // recorded before the next request
  function AfterRequests(net: Block, exp: nat, n: nat): seq<Block>
    requires exp <= 32
  {
    if n == 0 then []
    else
      var taken := AfterRequests(net, exp, n - 1);
      match Run(net, taken, exp)
      case Found(ip) => taken + [NetworkOf(ip, exp)]
      case _ => taken
  }

  function AtMost(n: nat, bound: nat): nat { if n <= bound then n else bound }

  // What a caller can check about the range and the size before the first request:
  // the range does not start at 0.0.0.0, or is a single address, or neither the
  // blocks are single addresses nor the range is the whole address space.
  predicate FillsUp(net: Block, exp: nat)
  {
    net.first != 0 || net.exp == 0 || (exp > 0 && net.exp < 32)
  }

  // Request i of any number of requests is granted slot i, and every request after
  // the last slot is refused, iff the range fills up.
  lemma ExactCapacityIff(net: Block, exp: nat)
    requires exp <= net.exp
    ensures (forall n: nat :: AfterRequests(net, exp, n) == Filled(net, exp, AtMost(n, Slots(net, exp)))
                              && (Slots(net, exp) <= n ==> Run(net, AfterRequests(net, exp, n), exp) == NoSpace))
            <==> FillsUp(net, exp)
  {
    if FillsUp(net, exp) {
      forall n: nat
        ensures AfterRequests(net, exp, n) == Filled(net, exp, AtMost(n, Slots(net, exp)))
        ensures Slots(net, exp) <= n ==> Run(net, AfterRequests(net, exp, n), exp) == NoSpace
      {
        RequestsFill(net, exp, n);
        CapacityHolds(net, exp, AtMost(n, Slots(net, exp)));
      }
    } else if exp == 0 {
      SecondAddressIsMissed(net, exp, Filled(net, exp, 1));
      FilledBelow(net, exp, 1);
      FilledBelow(net, exp, 2);
      assert AfterRequests(net, exp, 1) == Filled(net, exp, 1) ==> AfterRequests(net, exp, 2) != Filled(net, exp, 2);
    } else if AfterRequests(net, exp, Slots(net, exp)) == Filled(net, exp, Slots(net, exp)) {
      FullIsNeverLeft(net, exp);
    }
  }

  lemma {:induction false} RequestsFill(net: Block, exp: nat, n: nat)
    requires exp <= net.exp && FillsUp(net, exp)
    ensures AfterRequests(net, exp, n) == Filled(net, exp, AtMost(n, Slots(net, exp)))
  {
    if n > 0 {
      RequestsFill(net, exp, n - 1);
      var m := AtMost(n - 1, Slots(net, exp));
      CapacityHolds(net, exp, m);
      if m < Slots(net, exp) { SlotIsNetworkOf(net, exp, m); }
    }
  }

  lemma SlotIsNetworkOf(net: Block, exp: nat, n: nat)
    requires exp <= net.exp && n < Slots(net, exp)
    ensures NetworkOf(Slot(net, exp, n).first, exp) == Slot(net, exp, n)
  {
    SlotIsAligned(net, exp, n);
  }

  // Single addresses from 0.0.0.0 on: with the first one taken, the search gives up.
  lemma SecondAddressIsMissed(net: Block, exp: nat, taken: seq<Block>)
    requires Pow2(exp) == 1 && exp < net.exp && net.first == 0 && taken == Filled(net, exp, 1)
    ensures Slots(net, exp) >= 2 && Run(net, taken, exp) == NoSpace
  {
    Pow2Monotone(1, net.exp - exp);
    assert taken == [] + [Slot(net, exp, 0)];
    LowestAddressEndsSearch(net, taken, exp);
  }

  // Once 0.0.0.0/0 is full, the next request never returns.
  lemma FullIsNeverLeft(net: Block, exp: nat)
    requires 0 < exp <= net.exp == 32 && net.first == 0
    ensures Run(net, Filled(net, exp, Slots(net, exp)), exp).Probing?
  {
    var taken := Filled(net, exp, Slots(net, exp));
    ExpectedIsFirstFit(net, exp, Slots(net, exp));
    FilledBelow(net, exp, Slots(net, exp));
    LargeBlocksGoOn(net, taken, exp);
    DivergesIff(net, taken, exp);
  }

  lemma CapacityHolds(net: Block, exp: nat, n: nat)
    requires exp <= net.exp && n <= Slots(net, exp) && FillsUp(net, exp)
    ensures Run(net, Filled(net, exp, n), exp) == Expected(net, exp, n)
  {
    SameAsFilled(net, exp, n, Filled(net, exp, n));
  }

  // The answer depends on the blocks in the list only, not on their order.
  lemma SameAsFilled(net: Block, exp: nat, n: nat, taken: seq<Block>)
    requires exp <= net.exp && n <= Slots(net, exp) && FillsUp(net, exp)
    requires SameBlocks(taken, Filled(net, exp, n))
    ensures Run(net, taken, exp) == Expected(net, exp, n)
  {
    FilledBelow(net, exp, n);
    ExpectedIsFirstFit(net, exp, n);
    if net.first == 0 && net.exp == 0 && n > 0 {
      OnlyAddressTaken(net, exp, taken);
    } else {
      if exp > 0 { Pow2Monotone(1, exp); }
      TameRun(net, taken, exp);
      assert forall c: Block :: Free(net, taken, c) <==> Free(net, Filled(net, exp, n), c);
      FirstFitUnique(net, taken, exp, Run(net, taken, exp), Expected(net, exp, n));
    }
  }

  // The range 0.0.0.0/32 when its address is taken
  lemma OnlyAddressTaken(net: Block, exp: nat, taken: seq<Block>)
    requires net.first == 0 && exp == net.exp && Pow2(exp) == 1 && Slots(net, exp) == 1
    requires SameBlocks(taken, Filled(net, exp, 1))
    ensures Run(net, taken, exp) == NoSpace
  {
    var slot := Slot(net, exp, 0);
    assert Filled(net, exp, 1) == [] + [slot];
    assert slot in Filled(net, exp, 1);
    assert taken[0] in taken;
    assert taken[0] == slot;
    LowestAddressEndsSearch(net, taken, exp);
  }
}
