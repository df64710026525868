/**
 What an allocation over a registry answers: the lowest free block of the size asked
 for, whatever is recorded and in whatever order it is listed, and exactly when.
 */
module AllocationTheory {
  import opened Wrappers
  import opened Bits
  import opened Cidr
  import opened Search
  import opened FirstFitTheory
  import opened Globalnet

  // Endless: the search never returns.
  datatype Allocation = Allocated(cidr: CidrText) | Unavailable | Endless

  function ToAllocation(out: Outcome, exp: nat): Allocation
    requires exp <= 32
  {
    match out
    case Found(ip) => Allocated(Text(ip, 32 - exp))
    case NoSpace => Unavailable
    case Probing(_) => Endless
  }

  // What a search for numSize addresses has given after at most budget requests.
  // A size of 0 or above 2^32 makes a prefix length that does not parse.
  function AllocateWithin(net: Block, blocks: seq<Block>, numSize: Word64, budget: nat): Allocation
  {
    var exp := BlockExp(numSize);
    if exp > 32 then Unavailable else ToAllocation(SearchFrom(net, blocks, exp, net.first, budget), exp)
  }

  // What the search finally gives
  function Allocate(net: Block, blocks: seq<Block>, numSize: Word64): Allocation
  {
    AllocateWithin(net, blocks, numSize, ProbeBound(blocks))
  }

  // The list holds exactly the blocks that the registry records.
  ghost predicate Lists(blocks: seq<Block>, networks: map<string, GlobalNetwork>)
  {
    forall b: Block :: b in blocks <==> Records(networks, b)
  }

  // What an allocation over the registry, in any listing order, may answer
  ghost predicate MayAllocate(info: GlobalnetInfo, r: Allocation)
  {
    if ParseNet(info.range).None? || !AllWellFormed(info.networks) then r == Unavailable
    else exists order :: Lists(order, info.networks)
                         && r == Allocate(ParseNet(info.range).value, order, info.clusterSize)
  }

  // ---------- First fit over a registry ----------

  // A block of the size asked for that lies in the range and shares no address with
  // a recorded block
  ghost predicate Room(info: GlobalnetInfo, c: Block)
  {
    && ParseNet(info.range).Some? && IsBlockSize(info.clusterSize, c.exp)
    && Within(c, ParseNet(info.range).value) && forall b: Block | Records(info.networks, b) :: !Share(b, c)
  }

  ghost predicate LowestRoom(info: GlobalnetInfo, c: Block)
  {
    Room(info, c) && forall d: Block | Room(info, d) :: c.first <= d.first
  }

  ghost predicate HasRoom(info: GlobalnetInfo)
  {
    exists c: Block :: Room(info, c)
  }

  // A recorded block does no harm to a search from 0.0.0.0: it is not 0.0.0.0/0; it is
  // not 0.0.0.0/32 if there is room to be found; and it is not another one than that
  // in the way of the first probe if there is none and the range is the whole space.
  ghost predicate Harmless(net: Block, exp: nat, room: bool, b: Block)
    requires exp <= 32
  {
    b.exp < 32 && if room then b.Last() != 0 else net.exp == 32 && Share(b, NetworkOf(net.first, exp)) ==> b.Last() == 0
  }

  // A range that does not start at 0.0.0.0, or nothing harmful is recorded; for a
  // block larger than the range, the range is not its top end, or the block is used.
  ghost predicate RegularFor(info: GlobalnetInfo, net: Block, exp: nat)
    requires exp <= 32
  {
    if exp > net.exp then
      AtTopOf(net, exp) ==> exists b: Block | Records(info.networks, b) :: Share(b, NetworkOf(net.first, exp))
    else
      net.first == 0 ==> forall b: Block | Records(info.networks, b) :: Harmless(net, exp, HasRoom(info), b)
  }

  // If the request is for a block at all, it is regular for that size.
  ghost predicate RegularRequest(info: GlobalnetInfo)
  {
    ParseNet(info.range).Some? && AllWellFormed(info.networks) ==>
      forall exp: nat | exp <= 32 && IsBlockSize(info.clusterSize, exp) :: RegularFor(info, ParseNet(info.range).value, exp)
  }

  // The lowest room, written without host bits, or nothing because there is none
  ghost predicate RightGrant(info: GlobalnetInfo, cidr: Option<CidrText>)
  {
    match cidr
    case Some(text) => AllWellFormed(info.networks) && exists c: Block | LowestRoom(info, c) :: text == Text(c.first, 32 - c.exp)
    case None => AllWellFormed(info.networks) ==> forall c: Block :: !Room(info, c)
  }

  // The answer as an address range, if it is one
  function CidrOf(a: Allocation): Option<CidrText>
  {
    match a
    case Allocated(cidr) => Some(cidr)
    case _ => None
  }

  ghost predicate RightAllocation(info: GlobalnetInfo, a: Allocation)
  {
    RightGrant(info, CidrOf(a)) && a != Endless
  }

  // Whatever mix of sizes and CIDRs is recorded, in whatever order it is listed, a
  // regular request is given the lowest room, or fails because there is none.
  lemma AllocationIsRight(info: GlobalnetInfo, a: Allocation)
    requires MayAllocate(info, a)
    ensures RegularRequest(info) ==> RightAllocation(info, a)
  {
    if ParseNet(info.range).Some? && AllWellFormed(info.networks) && RegularRequest(info) {
      var net := ParseNet(info.range).value;
      var order :| Lists(order, info.networks) && a == Allocate(net, order, info.clusterSize);
      var exp := BlockExp(info.clusterSize);
      BlockExpExact(info.clusterSize, exp);
      RoomsAreFree(info, net, order);
      if exp <= net.exp {
        BlockExpIsSize(info.clusterSize);
        RegularIsFirstFit(info, net, order, exp);
        FirstFitIsRight(info, net, order, exp);
      } else if exp <= 32 {
        BlockExpIsSize(info.clusterSize);
        LargeIsRefused(info, net, order, exp);
      }
    }
  }

  lemma RegularIsFirstFit(info: GlobalnetInfo, net: Block, order: seq<Block>, exp: nat)
    requires ParseNet(info.range) == Some(net) && Lists(order, info.networks) && exp <= net.exp
    requires forall c: Block :: Room(info, c) <==> c.exp == exp && Free(net, order, c)
    requires net.first == 0 ==> forall b <- order :: Harmless(net, exp, HasRoom(info), b)
    ensures FirstFit(net, order, exp, Run(net, order, exp))
  {
    RunIsFirstFitIff(net, order, exp);
    if net.first == 0 {
      assert HasRoom(info) <==> HasFree(net, order, exp);
      if HasRoom(info) {
        LargeBlocksGoOn(net, order, exp);
      } else if net.exp == 32 {
        FullSpaceGivesUp(net, order, exp);
      } else {
        forall w | 0 <= w < |order|
          ensures order[w] != WholeSpace()
        {
          assert Harmless(net, exp, HasRoom(info), order[w]);
        }
      }
    }
  }

  // If nothing is free in the whole space and only 0.0.0.0/32 is in the way of the
  // first probe, the search gives up at once.
  lemma FullSpaceGivesUp(net: Block, order: seq<Block>, exp: nat)
    requires exp <= net.exp == 32 && net.first == 0 && !HasFree(net, order, exp)
    requires forall b <- order :: Share(b, NetworkOf(0, exp)) ==> b.Last() == 0
    ensures GivesUpAtZero(net, order, exp)
  {
    var cand := NetworkOf(0, exp);
    WholeSpaceContains(0);
    InRangeIsWithin(net, exp, 0);
    GrantIsDisjoint(net, order, exp, 0);
    assert cand.exp == exp;
    ConflictCause(order, 0, cand);
    forall b <- order | b.Contains(0) || cand.Contains(b.first)
      ensures b.Last() == 0 && b.Contains(0)
    {
      InTheWay(b, 0, exp);
      BlockBounds(b);
      ContainsIsInterval(b, 0);
    }
  }

  // A block larger than the range is refused, as it should be.
  lemma LargeIsRefused(info: GlobalnetInfo, net: Block, order: seq<Block>, exp: nat)
    requires ParseNet(info.range) == Some(net) && Lists(order, info.networks) && net.exp < exp <= 32
    requires AtTopOf(net, exp) ==> exists b: Block | Records(info.networks, b) :: Share(b, NetworkOf(net.first, exp))
    ensures Run(net, order, exp) == NoSpace && forall c: Block | c.exp == exp :: !Within(c, net)
  {
    forall c: Block | c.exp == exp
      ensures !Within(c, net)
    {
      if Within(c, net) { WithinIsSmaller(c, net); }
    }
    if AtTopOf(net, exp) {
      TooLargeRun(net, order, exp);
    } else {
      TooLargeIsRefused(net, order, exp);
    }
  }

  // ---------- The condition is exact ----------

  // Every registry of well-formed CIDRs can be listed, with any recorded block first.
  lemma {:induction false} CanBeListed(networks: map<string, GlobalNetwork>) returns (order: seq<Block>)
    requires AllWellFormed(networks)
    ensures Lists(order, networks)
    decreases |networks|
  {
    order := [];
    if networks != map[] {
      var key :| key in networks;
      var rest := networks - {key};
      order := CanBeListed(rest);
      RecordsOneMore(rest, key, networks[key]);
      assert rest[key := networks[key]] == networks;
      order := order + BlocksOf(networks[key].cidrs);
      BlocksOfExact(networks[key].cidrs);
    }
  }

  ghost function BlocksOf(cidrs: seq<CidrText>): (blocks: seq<Block>)
    requires forall t <- cidrs :: WellFormed(t)
    ensures |blocks| == |cidrs| && forall i | 0 <= i < |cidrs| :: ParseNet(cidrs[i]) == Some(blocks[i])
  {
    if cidrs == [] then []
    else
      var last := cidrs[|cidrs| - 1];
      assert WellFormed(last);
      BlocksOf(cidrs[..|cidrs| - 1]) + [ParseNet(last).value]
  }

  lemma BlocksOfExact(cidrs: seq<CidrText>)
    requires forall t <- cidrs :: WellFormed(t)
    ensures forall b: Block :: b in BlocksOf(cidrs) <==> exists t <- cidrs :: ParseNet(t) == Some(b)
  {
    var blocks := BlocksOf(cidrs);
    forall b: Block
      ensures b in blocks <==> exists t <- cidrs :: ParseNet(t) == Some(b)
    {
      if b in blocks {
        var i :| 0 <= i < |blocks| && blocks[i] == b;
        assert cidrs[i] in cidrs;
      }
      if t :| t in cidrs && ParseNet(t) == Some(b) {
        var i :| 0 <= i < |cidrs| && cidrs[i] == t;
        assert blocks[i] == b;
      }
    }
  }

  // A harmful block listed first makes the search go wrong.
  lemma HarmfulFirst(net: Block, order: seq<Block>, exp: nat, b: Block)
    requires exp <= net.exp && net.first == 0 && order != [] && order[0] == b
    requires !Harmless(net, exp, HasFree(net, order, exp), b)
    ensures !FirstFit(net, order, exp, Run(net, order, exp))
  {
    if b.exp >= 32 {
      WideFirst(net, order, exp);
    } else if HasFree(net, order, exp) {
      LowestFirst(net, order, exp);
    } else {
      FirstInTheWay(net, order, exp, b);
      RunIsFirstFitIff(net, order, exp);
    }
  }

  lemma WideFirst(net: Block, order: seq<Block>, exp: nat)
    requires exp <= net.exp && net.first == 0 && order != [] && order[0].exp >= 32
    ensures Run(net, order, exp).Probing?
  {
    WideIsWhole(order[0]);
    WholeSpaceDiverges(net, order, exp, ProbeBound(order));
  }

  lemma LowestFirst(net: Block, order: seq<Block>, exp: nat)
    requires exp <= net.exp && net.first == 0 && order != [] && order[0].Last() == 0 && HasFree(net, order, exp)
    ensures !FirstFit(net, order, exp, Run(net, order, exp))
  {
    LowestAddressEndsSearch(net, order, exp);
    NoSpaceIsWrong(net, order, exp);
  }

  lemma NoSpaceIsWrong(net: Block, order: seq<Block>, exp: nat)
    requires exp <= 32 && HasFree(net, order, exp)
    ensures !FirstFit(net, order, exp, NoSpace)
  {
  }

  lemma FirstInTheWay(net: Block, order: seq<Block>, exp: nat, b: Block)
    requires exp <= 32 && net.first == 0 && order != [] && order[0] == b && b.Last() != 0
    requires Share(b, NetworkOf(net.first, exp))
    ensures !GivesUpAtZero(net, order, exp)
  {
    var ip := net.first;
    var cand := NetworkOf(ip, exp);
    InTheWay(b, ip, exp);
    if !b.Contains(ip) {
      ContainsIsInterval(cand, b.first);
      ContainsIsInterval(b, b.first);
    }
  }

  // The allocation is right in every listing order iff the request is regular.
  lemma AllocationIsRightIff(info: GlobalnetInfo)
    ensures (forall a: Allocation | MayAllocate(info, a) :: RightAllocation(info, a)) <==> RegularRequest(info)
  {
    if RegularRequest(info) {
      forall a: Allocation | MayAllocate(info, a)
        ensures RightAllocation(info, a)
      {
        AllocationIsRight(info, a);
      }
    } else {
      var a := WrongAllocation(info);
    }
  }

  lemma WrongAllocation(info: GlobalnetInfo) returns (a: Allocation)
    requires !RegularRequest(info)
    ensures MayAllocate(info, a) && !RightAllocation(info, a)
  {
    var net := ParseNet(info.range).value;
    var exp: nat :| exp <= 32 && IsBlockSize(info.clusterSize, exp) && !RegularFor(info, net, exp);
    BlockExpExact(info.clusterSize, exp);
    if exp > net.exp {
      a := WrongForLarge(info, net, exp);
    } else {
      a := WrongForHarmful(info, net, exp);
    }
  }

  lemma WrongForLarge(info: GlobalnetInfo, net: Block, exp: nat) returns (a: Allocation)
    requires ParseNet(info.range) == Some(net) && AllWellFormed(info.networks) && exp == BlockExp(info.clusterSize)
    requires net.exp < exp <= 32 && !RegularFor(info, net, exp)
    ensures MayAllocate(info, a) && !RightAllocation(info, a)
  {
    var order := CanBeListed(info.networks);
    TooLargeRun(net, order, exp);
    NoRoomForLarge(info, net, exp);
    a := Allocate(net, order, info.clusterSize);
  }

  lemma WrongForHarmful(info: GlobalnetInfo, net: Block, exp: nat) returns (a: Allocation)
    requires ParseNet(info.range) == Some(net) && AllWellFormed(info.networks) && exp == BlockExp(info.clusterSize)
    requires exp <= net.exp && !RegularFor(info, net, exp)
    ensures MayAllocate(info, a) && !RightAllocation(info, a)
  {
    var b: Block :| Records(info.networks, b) && !Harmless(net, exp, HasRoom(info), b);
    var order := ListedFirst(info.networks, b);
    WrongForOrder(info, net, order, exp, b);
    a := Allocate(net, order, info.clusterSize);
  }

  lemma ListedFirst(networks: map<string, GlobalNetwork>, b: Block) returns (order: seq<Block>)
    requires AllWellFormed(networks) && Records(networks, b)
    ensures Lists(order, networks) && order != [] && order[0] == b
  {
    order := CanBeListed(networks);
    order := [b] + order;
  }

  lemma WrongForOrder(info: GlobalnetInfo, net: Block, order: seq<Block>, exp: nat, b: Block)
    requires ParseNet(info.range) == Some(net) && AllWellFormed(info.networks) && exp == BlockExp(info.clusterSize)
    requires exp <= net.exp && net.first == 0 && Lists(order, info.networks) && order != [] && order[0] == b
    requires !Harmless(net, exp, HasRoom(info), b)
    ensures !RightAllocation(info, Allocate(net, order, info.clusterSize))
  {
    RoomsAreFree(info, net, order);
    assert HasRoom(info) <==> HasFree(net, order, exp);
    HarmfulFirst(net, order, exp, b);
    WrongIsNotRight(info, net, order, exp);
  }

  lemma NoRoomForLarge(info: GlobalnetInfo, net: Block, exp: nat)
    requires ParseNet(info.range) == Some(net) && exp == BlockExp(info.clusterSize) && net.exp < exp
    ensures forall c: Block :: !Room(info, c)
  {
    forall c: Block
      ensures !Room(info, c)
    {
      BlockExpExact(info.clusterSize, c.exp);
      if Within(c, net) { WithinIsSmaller(c, net); }
    }
  }

  // An answer that is not a first fit is not right.
  lemma WrongIsNotRight(info: GlobalnetInfo, net: Block, order: seq<Block>, exp: nat)
    requires exp <= net.exp && !FirstFit(net, order, exp, Run(net, order, exp)) && AllWellFormed(info.networks)
    requires forall c: Block :: Room(info, c) <==> c.exp == exp && Free(net, order, c)
    ensures !RightAllocation(info, ToAllocation(Run(net, order, exp), exp))
  {
    FoundIffFree(net, order, exp);
  }

  lemma RoomsAreFree(info: GlobalnetInfo, net: Block, order: seq<Block>)
    requires ParseNet(info.range) == Some(net) && Lists(order, info.networks)
    ensures forall c: Block :: Room(info, c) <==> c.exp == BlockExp(info.clusterSize) && Free(net, order, c)
  {
    forall c: Block
      ensures Room(info, c) <==> c.exp == BlockExp(info.clusterSize) && Free(net, order, c)
    {
      RoomIsFree(info, net, order, c);
    }
  }

  lemma BlockExpIsSize(size: Word64)
    requires BlockExp(size) <= 32
    ensures IsBlockSize(size, BlockExp(size))
  {
    BlockExpExact(size, BlockExp(size));
  }

  lemma RoomIsFree(info: GlobalnetInfo, net: Block, order: seq<Block>, c: Block)
    requires ParseNet(info.range) == Some(net) && Lists(order, info.networks)
    ensures Room(info, c) <==> c.exp == BlockExp(info.clusterSize) && Free(net, order, c)
  {
    BlockExpExact(info.clusterSize, c.exp);
  }

  lemma FirstFitIsRight(info: GlobalnetInfo, net: Block, order: seq<Block>, exp: nat)
    requires exp <= 32 && FirstFit(net, order, exp, Run(net, order, exp)) && AllWellFormed(info.networks)
    requires forall c: Block :: Room(info, c) <==> c.exp == exp && Free(net, order, c)
    ensures RightGrant(info, CidrOf(ToAllocation(Run(net, order, exp), exp)))
  {
    var out := Run(net, order, exp);
    if out.Found? {
      var c := NetworkOf(out.ip, exp);
      assert LowestRoom(info, c);
      assert c.first == out.ip;
    }
  }

  // For one listing order and a block that fits, whatever the range: there is a grant
  // iff there is room and the search does not give up at 0.0.0.0, it is the lowest
  // one, and the allocation is endless exactly if the search never returns. Without
  // a block size there is no grant.
  lemma AllocationOfOrder(net: Block, order: seq<Block>, size: Word64, exp: nat)
    requires size > 0 ==> IsBlockSize(size, exp)
    ensures size == 0 || exp > 32 ==> Allocate(net, order, size) == Unavailable
    ensures size > 0 && exp <= net.exp ==>
              && (Allocate(net, order, size).Allocated? <==> HasFree(net, order, exp) && !GivesUpAtZero(net, order, exp))
              && (Allocate(net, order, size).Endless? <==> NeverReturns(net, order, exp))
              && (Allocate(net, order, size).Allocated? ==>
                    exists ip: Word32 :: Allocate(net, order, size) == Allocated(Text(ip, 32 - exp))
                                         && FirstFit(net, order, exp, Found(ip)))
  {
    BlockExpExact(size, exp);
    if size > 0 && exp <= net.exp {
      FoundIffFree(net, order, exp);
      DivergesIff(net, order, exp);
      var out := Run(net, order, exp);
      if out.Found? { assert FirstFit(net, order, exp, Found(out.ip)); }
    }
  }

  // ---------- One request ----------

  // What one request promises, for a block no larger than the range: it is granted
  // iff the block lies in the range and shares no address with an allocated block;
  // a refusal inside the range names an address that is not before the request.
  lemma SingleRequest(net: Block, blocks: seq<Block>, exp: nat, ip: Word32)
    requires exp <= net.exp
    ensures ProbeAt(net, blocks, exp, ip).Granted? <==> Free(net, blocks, NetworkOf(ip, exp))
    ensures match ProbeAt(net, blocks, exp, ip)
      case Granted => true
      case Refused(last) => if net.Contains(ip) then ip <= last else last == 0
  {
    InRangeIsWithin(net, exp, ip);
    GrantIsDisjoint(net, blocks, exp, ip);
    if net.Contains(ip) { RefusalProgress(net, blocks, exp, ip); }
  }

  // The order in which the registry is listed does not matter for a range that
  // does not start at 0.0.0.0.
  lemma RegistryOrderIsIrrelevant(net: Block, networks: map<string, GlobalNetwork>, a: seq<Block>, b: seq<Block>, numSize: Word64)
    requires net.first != 0 && Lists(a, networks) && Lists(b, networks)
    ensures Allocate(net, a, numSize) == Allocate(net, b, numSize)
  {
    if BlockExp(numSize) <= 32 { OrderIndependent(net, a, b, BlockExp(numSize)); }
  }

  // A cluster size that passes validation makes the search a first fit for blocks of
  // that size in a range that does not start at 0.0.0.0, and at least two such blocks
  // fit in the range.
  lemma ValidatedRequestIsFirstFit(info: GlobalnetInfo, config: Config, blocks: seq<Block>)
    requires info.enabled && config.clusterSize != 0 && config.clusterSize != info.clusterSize
    requires Validate(info, config).0.Some?
    requires ParseNet(info.range).Some? && ParseNet(info.range).value.first != 0
    ensures var net, exp := ParseNet(info.range).value, BlockExp(Validate(info, config).1);
            && exp < net.exp && Validate(info, config).1 == Pow2(exp)
            && IsBlockSize(config.clusterSize % 0x1_0000_0000, exp)
            && FirstFit(net, blocks, exp, Run(net, blocks, exp))
  {
    ValidSizeIsBlockSize(info.range, config.clusterSize);
    ValidateExact(info, config);
    RoundedBlockSize(config.clusterSize % 0x1_0000_0000, Validate(info, config).1, BlockExp(Validate(info, config).1));
    BlockExpExact(Validate(info, config).1, BlockExp(Validate(info, config).1));
    TameRun(ParseNet(info.range).value, blocks, BlockExp(Validate(info, config).1));
  }

  lemma RecordsOneMore(networks: map<string, GlobalNetwork>, key: string, entry: GlobalNetwork)
    requires key !in networks
    ensures forall b: Block :: Records(networks[key := entry], b) <==>
              Records(networks, b) || exists t <- entry.cidrs :: ParseNet(t) == Some(b)
    ensures AllWellFormed(networks[key := entry]) <==>
              AllWellFormed(networks) && forall t <- entry.cidrs :: WellFormed(t)
  {
    var more := networks[key := entry];
    assert more[key] == entry;
    assert forall k <- networks :: k in more && more[k] == networks[k];
  }
}
