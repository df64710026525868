# Globalnet allocation, cluster joins and two generators: a verified model

This project models the parts of the cluster fabric operator in which a mistake
hands the same addresses to two clusters, loses an allocation, changes the text of
an embedded manifest, or replaces a resource that is still there.

- **Wrappers, Bits, Cidr** — optional values, 32-bit and 64-bit arithmetic, IPv4 networks in prefix notation
  (section 3.1 of RFC 4632), the nesting of networks.
- **Search, FirstFitTheory, ProbeCount, Capacity, AllocationTheory, Allocator** — the
  Globalnet allocator: one request, the probe loop with its `last == 0` mark and its
  32-bit wrap-around, the listing of the registry. The loop does not stop on every input,
  so the search is a function of a budget of probes; after 2k + 1 probes for k
  blocks it has finished or it never will. The theorems say for which range, list
  and size it finds the lowest free block, fails, or never returns, for exactly which
  ranges it is a first fit whatever the list, does not depend on the listing order,
  grants addresses without host bits, and fills a range to its last block.
- **Globalnet, Registry, Join, JoinTheory, Choice, JoinScenarios, Enrolment,
  JoinHistory, JoinImpl** — validation, overlap checks, the registry kept in the
  broker's config map, and the join protocol: any number of joins read, choose and
  write back under optimistic concurrency, the broker may reset the registry at any
  time. `Join` is the step system over values; `Choice` says what an attempt should
  decide, in terms of the request, the range and the recorded blocks only, and proves
  that it does; `Enrolment` is exact capacity for all schedules; `JoinImpl` is the
  routine with its mutable configuration, proved to make the system's steps and no
  others while the store changes between its calls; `JoinHistory` is what follows for
  its result.
- **Yamls2Go** — the encoder of YAML texts as Go constants, against an evaluator
  of sums of Go string literals.
- **SubmarinerCr** — the loop that deletes and recreates the Submariner resource
  while others may change it between any two calls.

Three promises hold only under a condition, and the condition is proved exact:

- The allocator gives the lowest free block, or fails because there is none, for
  all lists of allocated blocks iff the range does not start at 0.0.0.0 (blocks no
  larger than the range) or is not the top end of the block asked for (larger
  blocks). What is granted is always the lowest free block. For a given list, a free
  block is missed iff the first probe at 0.0.0.0 is refused by 0.0.0.0/32, and the
  search never returns iff it wraps around: the range is all of 0.0.0.0/0 and full,
  or 0.0.0.0/0 is listed after blocks that leave something free.
- A join that has lost a race carries the CIDR of its first attempt into the next
  one and gets through iff no cluster size is configured and its cluster has been
  recorded meanwhile or nothing recorded overlaps that CIDR.
- A text is preserved by the encoder iff its backticks come in pairs, the text in a
  pair has no quote, backslash or newline, and there is no carriage return outside
  the pairs.

The join routine reads a cluster ID from `netconfig` to choose a CIDR and one from
`joinConfig` to record it. Its only caller sets the first from the second
(controllers/join_broker.go:132-142), and the model uses one.

## Model

| member | source | states |
|---|---|---|
| Bits.NextPowerOf2 | controllers/discovery/globalnet/globalnet.go:215-224 | bit smearing on 32-bit words gives `RoundUp`: a power of two for 1..2^31, and 0 for 0 and above 2^31 where the word wraps |
| Bits.RoundUpIsLeast | controllers/discovery/globalnet/globalnet.go:214-224 | that power of two is the least one that is not smaller than the argument |
| Bits.SmearStep | controllers/discovery/globalnet/globalnet.go:217-221 | one shift-and-or doubles the run of leading ones, up to all bits |
| Cidr.ValidIsDivisible | controllers/discovery/globalnet/globalnet.go:89-99 | masking leaves a network address alone iff it is a multiple of the network's size |
| Cidr.ContainsIsInterval | controllers/discovery/globalnet/globalnet.go:101-107 | the masked containment test is membership in the interval from the first address to LastIP |
| Cidr.BlockBounds | controllers/discovery/globalnet/globalnet.go:101-107 | LastIP is not below the first address and never exceeds 32 bits |
| Cidr.Nesting | controllers/discovery/globalnet/globalnet.go:125-132 | networks that share an address are nested, the smaller in the larger |
| Cidr.OverlapIsShare | controllers/discovery/globalnet/globalnet.go:82-84 | the two-sided containment test is true iff the networks share an address |
| AllocationTheory.SingleRequest | controllers/discovery/globalnet/globalnet.go:109-137 | a block no larger than the range is granted iff it lies in the range and shares no address with an allocated block; a refusal inside the range names a last address that is not before the request, one outside names 0 |
| Search.GrantIsDisjoint | controllers/discovery/globalnet/globalnet.go:111-136 | for any size, a request is granted iff its ends are in the range and it shares no address with an allocated block |
| Search.ConflictCause | controllers/discovery/globalnet/globalnet.go:123-133 | a refusal's address is the end of a block that contains the request or the end of the candidate that a block starts in; without a refusal neither happens |
| Search.RefusalProgress | controllers/discovery/globalnet/globalnet.go:123-133 | every refusal in the range moves the address forward and uses up one of the two reasons each block has to refuse |
| Search.SettlesOrDiverges | controllers/discovery/globalnet/globalnet.go:147-161 | for every range, list and size the answer is final after 2k + 1 probes, or the search runs forever, which takes a range at 0.0.0.0 |
| ProbeCount.ProbeBoundIsReached | controllers/discovery/globalnet/globalnet.go:151-161 | for every k below 2^30 there are k blocks for which 2k probes find nothing yet and probe 2k + 1 is granted |
| FirstFitTheory.RefusalKeepsAlignment | controllers/discovery/globalnet/globalnet.go:151-157 | the next address is aligned for the wanted size, or an allocated block lies in the candidate it belongs to |
| FirstFitTheory.GrantsAreAligned | controllers/discovery/globalnet/globalnet.go:151-162 | whatever the probes on the way, a granted address has no host bits |
| FirstFitTheory.GrantsCanonicalIff | controllers/discovery/globalnet/globalnet.go:139-162 | all grants are free of host bits iff the block fits in the range or the range is not the top end of the candidate |
| FirstFitTheory.SkipIsSafe | controllers/discovery/globalnet/globalnet.go:151-157 | jumping past the address a refusal names skips no free block |
| FirstFitTheory.FoundIffFree | controllers/discovery/globalnet/globalnet.go:139-163 | for every range, list and size that fits: a granted block is the lowest free one, and there is a grant iff something is free and the first probe is not refused by 0.0.0.0/32 in a range at 0.0.0.0 |
| FirstFitTheory.DivergesIff | controllers/discovery/globalnet/globalnet.go:147-161 | for a size that fits, the search never returns iff, in a range at 0.0.0.0 where it does not give up at once, the range is the whole space and full, or 0.0.0.0/0 is listed and the blocks before it leave something free |
| FirstFitTheory.RunIsFirstFitIff | controllers/discovery/globalnet/globalnet.go:139-163 | for a given list the search is a first fit, finding the lowest free block or failing because there is none, iff neither of these two cases arises |
| FirstFitTheory.FirstFitIffSuitable | controllers/discovery/globalnet/globalnet.go:139-163 | the search is a first fit, sound and complete, for every list of blocks iff the range and the size are suitable |
| FirstFitTheory.LowestAddressEndsSearch | controllers/discovery/globalnet/globalnet.go:147-150 | a range at 0.0.0.0 with 0.0.0.0/32 first in the list makes the search give up at once |
| FirstFitTheory.WholeSpaceDiverges | controllers/discovery/globalnet/globalnet.go:151-161 | a range at 0.0.0.0 with 0.0.0.0/0 first in the list is searched forever |
| FirstFitTheory.TooLargeRun | controllers/discovery/globalnet/globalnet.go:111-122 | a range at the top end of a larger candidate is granted as that candidate iff nothing is allocated in the candidate |
| FirstFitTheory.OrderIndependentIff | controllers/discovery/globalnet/globalnet.go:172-182 | listing the same blocks in another order never changes the answer iff the range does not start at 0.0.0.0 or the block is larger than the range |
| Capacity.SlotStartIsMultiple | controllers/discovery/globalnet/globalnet.go:139-163 | slot i starts i block sizes after the range |
| Capacity.ExpectedIsFirstFit | controllers/discovery/globalnet/globalnet.go:139-163 | with the first n slots taken the lowest free block is slot n, and there is none after the last slot |
| Capacity.ExactCapacityIff | controllers/discovery/globalnet/globalnet.go:139-183 | allocating and recording one size over and over yields the 2^(r-s) blocks of the range in order of address, and refusals from then on, iff the range does not start at 0.0.0.0, or is one address, or neither the blocks are single addresses nor the range is the whole space |
| Allocator.GlobalCidr.AllocateByCidr | controllers/discovery/globalnet/globalnet.go:109-137 | the in-place request answers as the probe function does, appends exactly the granted block, leaves the list alone on refusal, and keeps the count equal to the length |
| Allocator.GlobalCidr.AllocateByClusterSize | controllers/discovery/globalnet/globalnet.go:139-163 | the loop answers as the search function does within its budget of requests, appends the granted block only, and makes no more requests than decide the answer |
| Allocator.GlobalCidr.FindBlock | controllers/discovery/globalnet/globalnet.go:147-162 | the probe loop for a block size with a prefix length, with the number of requests it makes: the least that decides the search, or the whole budget |
| Allocator.GlobalCidr.AllocateGlobalCidr | controllers/discovery/globalnet/globalnet.go:165-183 | lists exactly the blocks of the registry in some order, answers as the finished search does, and so gives a regular request the lowest free block or an error because there is none; an unparsable range or entry is an error |
| AllocationTheory.RegistryOrderIsIrrelevant | controllers/discovery/globalnet/globalnet.go:172-182 | all listings of one registry give the same allocation in a range that does not start at 0.0.0.0 |
| AllocationTheory.ValidatedRequestIsFirstFit | controllers/discovery/globalnet/globalnet.go:256-262 | a configured cluster size that passes validation leads to a first-fit search for blocks of the least sufficient size, at most half the range |
| AllocationTheory.AllocationIsRight | controllers/discovery/globalnet/globalnet.go:165-183 | for whatever mix of sizes and chosen CIDRs is recorded, in whatever order: a regular request gets the lowest free block of its size, or an error because there is none; an entry that does not parse is an error |
| AllocationTheory.AllocationIsRightIff | controllers/discovery/globalnet/globalnet.go:165-183 | this holds in every listing order iff the range does not start at 0.0.0.0 or nothing harmful to a search from there is recorded, and for a block larger than the range iff the range is not its top end or the block is used |
| AllocationTheory.AllocationOfOrder | controllers/discovery/globalnet/globalnet.go:139-163 | for one order and any range: a grant iff something is free and the search does not give up at 0.0.0.0, endless iff the search never returns, an error for size 0 and sizes above 2^32 |
| Globalnet.GetValidClusterSize | controllers/discovery/globalnet/globalnet.go:199-212 | for a size that is 1..2^31 once cut to 32 bits: accepted iff twice the size is at most the range, and then rounded to the least power of two that is large enough; 0 for other sizes; an error for a range that does not parse |
| Globalnet.BlockExpExact | controllers/discovery/globalnet/globalnet.go:140-142 | the leading-zeros exponent is the exponent of the least power of two that is no smaller than the size; size 0 has none that parses |
| Globalnet.ValidSizeIsBlockSize | controllers/discovery/globalnet/globalnet.go:199-212 | a nonzero accepted size is the block size of itself, two such blocks fit in the range, and it is the block size of the size as given iff that is below 2^32 |
| Globalnet.RoundUpIsBlockSize | controllers/discovery/globalnet/globalnet.go:140-142 | rounding up and the leading-zeros exponent agree on every word that does not wrap to 0 |
| Globalnet.IsOverlappingCidr | controllers/discovery/globalnet/globalnet.go:72-87 | the loop computes `OverlapScan` |
| Globalnet.OverlapScanExact | controllers/discovery/globalnet/globalnet.go:77-86 | true iff a listed CIDR shares an address and all before it parse; false iff all parse and none shares an address |
| Globalnet.CheckOverlappingCidrs | controllers/discovery/globalnet/globalnet.go:226-241 | accepts iff every entry allows the CIDR, in whatever order the map is visited |
| Globalnet.NoOverlapIffCompatible | controllers/discovery/globalnet/globalnet.go:226-241 | on any registry: accepted iff the CIDR parses, shares no address with the other clusters' CIDRs, all of which parse, and can be compared with the cluster's own |
| Globalnet.NoOverlapExact | controllers/discovery/globalnet/globalnet.go:226-241 | on well-formed registries a CIDR is accepted iff it shares no address with another cluster's blocks |
| JoinImpl.ValidateGlobalnetConfiguration | controllers/discovery/globalnet/globalnet.go:252-285 | an error iff the size does not fit twice in the range or a CIDR does not parse or comes with a size; the CIDR as given, or none without Globalnet; a size of its own is rounded to the least sufficient power of two, and otherwise the stored size is kept, or dropped without Globalnet |
| Registry.GetGlobalNetworks | controllers/discovery/globalnet/globalnet.go:293-331 | the map, range and size read from the stored object |
| Registry.UpdateGlobalnetConfigMap | controllers/ensures/broker/globalcidr_cm.go:91-121 | the loop and the append give `Upsert`; the write happens iff the version has not changed |
| Registry.UpsertRefinesMapUpdate | controllers/ensures/broker/globalcidr_cm.go:99-119 | for every list, recording and then reading as a map is a map update; other entries, their order and uniqueness are kept |
| Registry.NetworksOfKeys | controllers/discovery/globalnet/globalnet.go:321-328 | the map has exactly the listed cluster IDs |
| Registry.LastEntryCounts | controllers/discovery/globalnet/globalnet.go:321-328 | for a cluster that is listed more than once the last entry counts |
| Registry.Broker.Reset | controllers/ensures/broker/globalcidr_cm.go:63-89 | the broker's reconcile leaves an empty list under its own settings, with a new version iff that changes the object |
| Registry.Broker.Update | controllers/ensures/broker/globalcidr_cm.go:119-120 | a write under a stale version changes nothing and is a conflict |
| Join.AssignGlobalnetIPs | controllers/discovery/globalnet/globalnet.go:334-371 | on any registry: the first recorded CIDR of the cluster; else the CIDR asked for iff it is compatible with all that is recorded; else, for regular requests, the lowest free block or an error because there is none |
| Join.AssignmentCanBeAppended | controllers/discovery/globalnet/globalnet.go:334-371 | on a sound snapshot the CIDR assigned to a new cluster is well formed and shares no address with any recorded block, for every range and size |
| Join.NextIsSound | controllers/join_broker.go:189-220 | every step of every join and every reset keeps IDs unique, entries single and well formed, blocks disjoint, and each join at no more than one write |
| Join.RunIsSound | controllers/join_broker.go:185-221 | so in all states of all runs, and no join ever indexes an empty list of CIDRs |
| JoinTheory.RegistryOnlyGrows | controllers/join_broker.go:209-216 | between resets the recorded list only grows at its end |
| JoinTheory.RecordedJoinWritesNothing | controllers/join_broker.go:202-218 | a join for a recorded cluster writes nothing, and if it succeeds it ends with the recorded CIDR, whatever it asked for |
| JoinTheory.JoinAgreement | controllers/join_broker.go:189-220 | a successful join has written at most once and its CIDR is the entry in the version it wrote, which the broker stored, or in its snapshot |
| JoinTheory.StoreIsLater | controllers/join_broker.go:185-221 | at any two states of a run, resets included, the later object is sound and is the earlier one or has a higher version |
| JoinTheory.OwnersAreDisjoint | controllers/join_broker.go:185-221 | clusters that have joined, and have been about to read since the latest reset, own disjoint blocks, and joins for one ID own the same CIDR |
| Choice.ChoiceIsRight | controllers/join_broker.go:190-218 | on a sound snapshot an attempt fails iff the request is not acceptable or there is no place for a new cluster, has nothing to do without Globalnet, keeps the recorded CIDR of a listed cluster, and otherwise writes the CIDR asked for or the lowest free block of the least sufficient size |
| Choice.ChoiceOnAnyRegistry | controllers/join_broker.go:202-216 | on any registry an accepted request has the first recorded CIDR of its cluster; otherwise it is written, or crashes if its entry has an empty list, iff there is a place for it |
| Choice.ChoiceHangs | controllers/discovery/globalnet/globalnet.go:151-161 | an attempt hangs only if some order of the recorded blocks is searched forever, and does if all are |
| JoinTheory.AttemptWithCidrSucceedsIff | controllers/discovery/globalnet/globalnet.go:264-266 | an attempt that carries a CIDR succeeds iff no size is configured and the cluster is recorded or no recorded block overlaps |
| JoinScenarios.RetrySucceedsIff | controllers/join_broker.go:189-220 | from a refused write to the next choice the configuration is kept, and exactly that condition decides the retry |
| JoinScenarios.LostRaceFailsWithSpaceLeft | controllers/join_broker.go:196-216 | there is a run of two joins without a reset in which the loser of the race for the first slot has failed, while a fresh join for its cluster would be given the second slot |
| JoinScenarios.EnrolmentIsExact | controllers/discovery/globalnet/globalnet.go:334-353 | with n clusters enrolled the next gets slot n while there is one and an error afterwards, in every listing order, in a range that fills up |
| JoinScenarios.EnrolNext | controllers/ensures/broker/globalcidr_cm.go:99-112 | recording slot n enrols the next cluster |
| JoinScenarios.ResetCanDuplicate | controllers/ensures/broker/globalcidr_cm.go:72-87 | for every enabled broker with an empty list and a range that a block fits in, there is a run with one reset after which two clusters own the same block |
| Enrolment.RegistryIsEnrolled | controllers/join_broker.go:185-221 | for fresh joins on every schedule, until the next reset: the registry is a list of different clusters, cluster i owning slot i, never more than there are slots |
| Enrolment.LoserNeverWrites | controllers/join_broker.go:189-220 | on every such schedule a join that has lost a race writes nothing any more, and succeeds only if its cluster has been recorded by another join |
| Enrolment.OneAfterTheOther | controllers/join_broker.go:185-221 | any number of different clusters up to the number of slots can join, each getting the next slot |
| JoinImpl.Attempt | controllers/join_broker.go:190-218 | one attempt on a snapshot makes the choice step, overwrites the CIDR in its configuration, and decides as `Choice.ChoiceIsRight` says |
| JoinImpl.AllocateAndUpdateGlobalCidrConfigMap | controllers/join_broker.go:185-221 | the retried routine makes the protocol's own steps and no others on the objects that it meets at its calls; among fair others it leaves the registry sound with at most its own entry added, never panics, and on success has the recorded CIDR; it fails only if its choice has failed or others have changed the object during every attempt; left alone it has the right outcome |
| JoinHistory.JoinAmongOthers | controllers/join_broker.go:185-221 | the same for every history of such steps, with at most one write |
| JoinHistory.RunsAreFair | controllers/join_broker.go:185-221 | whatever the broker and other joins do in a run of the system, they are fair in this sense |
| JoinHistory.JoinAloneIsRight | controllers/join_broker.go:185-221 | left alone on a sound registry, the join stores exactly its own entry with the right CIDR, or changes nothing and ends with the recorded CIDR, without Globalnet, or in an error, as the request and the registry ask for |
| JoinHistory.JoinAlone | controllers/join_broker.go:185-221 | on a registry of enrolled clusters it has the slot of its cluster, or the next one, recorded, or fails because there is none |
| JoinHistory.EveryChoiceIsRight | controllers/join_broker.go:190-218 | among others too, every attempt decides rightly on the object it has read |
| JoinHistory.FailureHasReason | controllers/join_broker.go:189-220 | a join fails only if its choice has failed, or after all its attempts, each of which has met a change between its read and its write |
| Yamls2Go.PreservedIffPreservable | controllers/ensures/operator/common/embeddedyamls/generators/yamls2go.go:93-123 | the constant evaluates to the text iff backticks are paired, the text in pairs needs no escape and there is no carriage return outside them |
| Yamls2Go.PreservableIsPreserved | controllers/ensures/operator/common/embeddedyamls/generators/yamls2go.go:106-118 | the encoded text, read from inside a raw literal, gives back a preservable text |
| Yamls2Go.NeverCatchesUp | controllers/ensures/operator/common/embeddedyamls/generators/yamls2go.go:106-118 | once the value has fallen behind the text, no continuation makes them equal |
| Yamls2Go.EncodeReplacesPair | controllers/ensures/operator/common/embeddedyamls/generators/yamls2go.go:106-118 | the encoder puts the first pair of backticks with the text between them in an interpreted literal and goes on behind it |
| Yamls2Go.EncodeKeepsTheRest | controllers/ensures/operator/common/embeddedyamls/generators/yamls2go.go:106-118 | a text with no backtick, or a single one, is kept as it is |
| Yamls2Go.WriteFile | controllers/ensures/operator/common/embeddedyamls/generators/yamls2go.go:89-125 | the generated file is the header, one constant for each text in order, and the closing line; read back as a Go file it declares each name with its text as value, for preservable texts |
| SubmarinerCr.PollOnce | controllers/ensures/operator/submarinercr/ensure.go:54-76 | the calls of one poll, its answer and the object it leaves behind |
| SubmarinerCr.Ensure | controllers/ensures/operator/submarinercr/ensure.go:44-77 | makes exactly the calls of the polls until one decides, and leaves the new spec stored when it succeeds |
| SubmarinerCr.CallsAreSound | controllers/ensures/operator/submarinercr/ensure.go:54-76 | it succeeds iff its last call is its creation on an absent object, ends in an error iff its last call is a read or deletion that failed or a creation that did not work, and a deletion that finds nothing is no error; every read of a live object is followed at once by its deletion, every read of nothing by a creation, and there is no other write; at most one creation succeeds; at most one read for each poll that the backoff grants |
| SubmarinerCr.UndisturbedSucceedsIff | controllers/ensures/operator/submarinercr/ensure.go:54-76 | when each poll meets what the one before has left, it succeeds iff the backoff grants the polls that the deletion takes, at most 20, and never reports an error |

## Left out

- IPv6: a four-byte address is all that the address arithmetic keeps.
- Parsing and printing of CIDR strings: a CIDR is a parsed address and prefix length, a rejected string, or missing; two spellings of one CIDR are not told apart.
- JSON coding of the config map and its error paths: the config map is typed data.
- Which error is reported, and its wording: `CheckOverlappingCidrs` and the allocator answer success or failure.
- Kubernetes clients and transport errors: in the step system a read or a write may fail for its own reasons, and a write that fails may have been stored; `JoinImpl` leaves that out. That an update is atomic and refused on a version mismatch, and that the broker's create-or-update is one atomic step, is taken from the API server's contract.
- The length of the retry and backoff helpers: the number of retries of a join is arbitrary; the polls of the resource loop are at most 20, and fewer when the backoff's cap ends it.
- A distinct `netconfig.ClusterID` and `joinConfig.ClusterID`: see above.
- That a join eventually succeeds, and that recorded CIDRs lie in the range: the code ensures neither.
- The regular expressions: pairs of backticks are found by a scan from the left, and the namespace stripping happens before the text reaches the model.
- Yamls2Go.GoValue accepts sums of string literals only: a source text with comments, parentheses or identifiers between literals has no value. Texts that are no valid UTF-8 or hold a NUL or a byte order mark, which a Go file may not contain, are not treated.
- `constName`, reading and writing of files: names and texts are given.
- Network discovery, roles, CRDs, service accounts, node labels, version checks and `stringset`: plumbing or single-branch code.
