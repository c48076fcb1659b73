# Verified models of the HSCC/zsim memory system and its wear levellers

This Dafny project models six stateful components of the simulators in this repository and proves what they rely
on, for every input and every run. Components that the original updates step by step are classes here, with the
original's fields; each method is proved against a specification on values (sequences, sets, small datatypes), and
the lemmas say what that specification means.

| file | component |
|---|---|
| `zcache.dfy` | the zcache array: breadth-first replacement walk and relocation (`cache_arrays.cpp`) |
| `coherence.dfy` | the MESI controllers of a tree of inclusive caches, for one line (`coherence_ctrls.h`, `coherence_ctrls.cpp`) |
| `barrier.dfy` | the join-leave barrier with bounded parallelism (`barrier.h`) |
| `pagemap.dfy`, `ideal.dfy` | the page mapping shared by the climbing wear levellers; the ideal, hotness-counting scheme (`hcmm_climber.cpp`) |
| `bloom.dfy`, `bwl.dfy` | the hot-list filter and the Bloom-filter scheme built on it (`bwlmm_climber.cpp`) |
| `twl.dfy` | toss-up wear levelling (`twl.cpp`) |
| `clock.dfy`, `actwindow.dfy`, `bankqueue.dfy`, `ddr.dfy` | the DDR controller: clock domains, activation window, per-bank queues, command timing (`ddr_mem.h`, `ddr_mem.cpp`) |
| `bits.dfy`, `counting.dfy`, `options.dfy` | shifts and exclusive-or, cardinalities and permutations, optional values |

`dafny verify dfyconfig.toml` checks everything.

The main results:

- **zcache.** A walk may meet the same line again and again; following parents from the minimum-index occurrence
  still never repeats a position. So a relocation is a rotation, the position table stays a permutation, every line
  stays at one of its hash positions, and the array behaves as a plain map.
- **Coherence.** Requests release the child's lock, so invalidations may arrive before the parent takes them.
  Issuing and accepting are separate steps here, in any order over a tree of any shape. Directory entries describe
  the children exactly, one writer excludes all other leaves, the latest store is never lost, and neither the race
  check nor any controller reaches a panic or a failing assertion. A core that asks to share is given the line
  exclusively exactly when it may be. No state is stuck, and every request taken brings the pending ones closer to
  their answers.
- **Barrier.** After every operation a waiting thread has a running one to wait for; lists, counters and positions
  agree; a phase ends only when every thread that was due has run or left, and a thread that comes back after its
  turn is next. The comment in `join` says that joining cannot end a phase, and an assertion there relies on list
  positions. Both are right for threads woken since they came online; a thread that leaves while waiting for its
  first wake-up can break either. The lemmas say exactly when a join ends a phase and when the assertion holds, and
  give a state and a run in which they go wrong.
- **Wear levelling.** The arrays agree after every climb and every whole-memory remap, with or without
  randomization. A climb puts the busier page on the fresher place, and none is missed that would; after a remap
  hotter pages have at least as much endurance, with randomization too where the colder page is in the stronger
  half. A remap visits every page exactly once, in the promised order, and costs one write for every page moved, but
  for the page just accessed. The hot list and its index stay inverse, and the sketch never undercounts. In the
  toss-up scheme translation is a bijection in every state and all endurance lost is accounted for; an inter-pair
  swap charges the page in use exactly when the table entry is in the lower half. Its status misses some worn-out
  pages: when the pair swaps, the code does not look at the weaker page and loses what the inter-pair swap found.
  The lemmas say exactly when.
- **DDR.** Every run issues a legal command trace by rules that speak of the commands only, and no command waits
  unless one of these rules or its request makes it; rows are closed exactly as the policy says; whenever a request
  waits, even outside full queues, an event is set that wakes the controller in the cycle it expects; a request is
  overtaken at most limit times for every run ahead of it. The activation window stays sorted exactly when the new
  activation is no earlier than the second-oldest: otherwise the loop reads the slot that it overwrote. Even then
  any five activations of a rank span tFAW: each waits for the cycle that it evicts, so they fall into four chains.

Where the code and its comments disagree, the code is modelled: besides the comment in `join`, the one at
`ddr_mem.h:69` takes the loop's early exit for the oldest entry, and the one at `ddr_mem.h:254` asks for slightly
more than the arithmetic needs.

Choices the original leaves to random generators, replacement policies, `std::sort` and the swap arbiter are
parameters or arbitrary choices here, within the range that the code states. Accesses to one controller or barrier
are atomic steps, as its locks make them.

## Model

| member | source | states |
|---|---|---|
| ZCache.ZArray.constructor | HSCC_climber/zsim-nvmain/src/cache_arrays.cpp:70-88 | A new array is empty and in order: the linear start mapping is a permutation, and no address is cached. |
| ZCache.ZArray.Lookup | HSCC_climber/zsim-nvmain/src/cache_arrays.cpp:98-116 | Probing the hash positions finds the line id exactly if the plain map has the address, and -1 otherwise. |
| ZCache.CachedIsAtHash | HSCC_climber/zsim-nvmain/src/cache_arrays.cpp:106-114 | A cached address sits at one of its own hash positions, so no probe outside them is needed. |
| ZCache.SeedStep | HSCC_climber/zsim-nvmain/src/cache_arrays.cpp:127-134 | The seeds are the hash positions of the incoming address, pairwise distinct. |
| ZCache.OwnWay | HSCC_climber/zsim-nvmain/src/cache_arrays.cpp:141-149 | A valid line occupies exactly one of its hash positions, which is why an expansion adds exactly ways - 1 candidates. |
| ZCache.ZArray.ExpandFringe | HSCC_climber/zsim-nvmain/src/cache_arrays.cpp:137-151 | One expansion adds exactly ways - 1 candidates and keeps the walk breadth-first. |
| ZCache.ZArray.Walk | HSCC_climber/zsim-nvmain/src/cache_arrays.cpp:118-156 | The walk ends, reads only filled candidates and fits in cands + ways entries; it stops early only at an invalid line. |
| ZCache.RepeatedParent | HSCC_climber/zsim-nvmain/src/cache_arrays.cpp:137-165 | If the parent line occurs earlier in the walk, so does the child line, whatever loops the walk has. |
| ZCache.ParentIsFirstOccurrence | HSCC_climber/zsim-nvmain/src/cache_arrays.cpp:165-183 | The parent of a minimum-index occurrence is itself a minimum-index occurrence. |
| ZCache.ChainIsPath | HSCC_climber/zsim-nvmain/src/cache_arrays.cpp:178-184 | Following parents from a minimum-index occurrence never repeats a position, and every line on the way may move one step. |
| ZCache.ChainStep | HSCC_climber/zsim-nvmain/src/cache_arrays.cpp:180-183 | The child index exceeds the parent index by at least the number of ways, so the chain is short. |
| ZCache.ZArray.FirstIndex | HSCC_climber/zsim-nvmain/src/cache_arrays.cpp:165-173 | Finds the minimum index that holds the chosen line. |
| ZCache.ZArray.FillSwapArray | HSCC_climber/zsim-nvmain/src/cache_arrays.cpp:178-185 | Stores the whole path, which always fits in cands / ways + 2 slots. |
| ZCache.ZArray.Preinsert | HSCC_climber/zsim-nvmain/src/cache_arrays.cpp:118-191 | For an absent nonzero address: prepares a relocation path that ends at the chosen victim and reports the victim address, without changing the contents. |
| ZCache.ZArray.Relocate | HSCC_climber/zsim-nvmain/src/cache_arrays.cpp:194-200 | The swaps rotate the position table along the stored path and touch nothing else. |
| ZCache.RotationIsPermutation | HSCC_climber/zsim-nvmain/src/cache_arrays.cpp:193-200 | Such a rotation keeps the position table a permutation of all line ids. |
| ZCache.MovedLineIsPlaced | HSCC_climber/zsim-nvmain/src/cache_arrays.cpp:196-204 | Every line moved, and the incoming one, ends at one of its own hash positions. |
| ZCache.RelocationKeepsPlacement | HSCC_climber/zsim-nvmain/src/cache_arrays.cpp:193-205 | After the relocation every valid line sits at one of its own hash positions. |
| ZCache.RelocationRefinesMap | HSCC_climber/zsim-nvmain/src/cache_arrays.cpp:193-205 | The whole relocation is one update of the plain map: the victim address goes, the new one takes its line id, all others keep theirs. |
| ZCache.ZArray.Postinsert | HSCC_climber/zsim-nvmain/src/cache_arrays.cpp:193-205 | The same for the arrays themselves. |
| ZCache.ZArray.Access | HSCC_climber/zsim-nvmain/src/cache_arrays.cpp:98-205 | Lookup, preinsert and postinsert together refine an access to a map of bounded size. |
| Coherence.Hierarchy.constructor | HSCC_climber/zsim-nvmain/src/coherence_ctrls.h:218-225 | All copies start invalid, memory holds the latest data, and the invariant holds. |
| Coherence.InvalidateIsWave | HSCC_climber/zsim-nvmain/src/coherence_ctrls.cpp:176-273 | Invalidating a cache and everything that its directory lists hits exactly its subtree; the write-back flag is raised exactly if that subtree held a modified copy. |
| Coherence.QuietSubtree | HSCC_climber/zsim-nvmain/src/coherence_ctrls.cpp:239-242 | Where an invalidation is not propagated it would have found nothing: no copy to take away and none that is dirty. |
| Coherence.Hierarchy.SendInvalidates | HSCC_climber/zsim-nvmain/src/coherence_ctrls.cpp:235-273 | Reaches exactly the announced caches, raises the flag exactly if one of them was modified, and leaves an exact entry; its assertions hold. |
| Coherence.Hierarchy.SendToChildren | HSCC_climber/zsim-nvmain/src/coherence_ctrls.cpp:247-262 | The loop invalidates every sharer once, and counts as many as the entry says. |
| Coherence.Hierarchy.ProcessInval | HSCC_climber/zsim-nvmain/src/coherence_ctrls.cpp:176-208 | INV ends in I, INVX in S, and the flag is raised if the copy was M. |
| Coherence.Hierarchy.Invalidate | HSCC_climber/zsim-nvmain/src/coherence_ctrls.h:414-420 | Children first, then the own copy: together the wave over the subtree, with the flag raised exactly for dirty data. |
| Coherence.CleanCopyIsLatest | HSCC_climber/zsim-nvmain/src/coherence_ctrls.cpp:167-174 | A valid copy with nothing modified below it holds the latest data, so only a raised flag calls for a write-back. |
| Coherence.RaceCheckIsSafe | HSCC_climber/zsim-nvmain/src/coherence_ctrls.h:257-284 | Whatever invalidations arrived in between, the race check does not panic, skips only PUTs of invalid lines, and lets requests through only with the state that their kind needs. |
| Coherence.HitKeepsWaiting | HSCC_climber/zsim-nvmain/src/coherence_ctrls.h:315-333 | An invalidation that overtakes a pending request changes its sender only in the ways that the race check expects. |
| Coherence.AnswerPutKeepsInv | HSCC_climber/zsim-nvmain/src/coherence_ctrls.cpp:292-306 | Answering a PUT, also one rewritten from PUTX to PUTS, keeps the invariant. |
| Coherence.AnswerGetsKeepsInv | HSCC_climber/zsim-nvmain/src/coherence_ctrls.cpp:307-330 | Answering a GETS, in E or S, with or without a downgrade, keeps the invariant. |
| Coherence.AnswerGetsGrants | HSCC_climber/zsim-nvmain/src/coherence_ctrls.cpp:307-330 | A GETS takes no copy away, and the child gets the line in E exactly if it may, the answering cache owns it, and no other child has a copy. |
| Coherence.AnswerKeepsInv | HSCC_climber/zsim-nvmain/src/coherence_ctrls.cpp:287-356 | Answering any request keeps the invariant over the whole tree. |
| Coherence.CollectKeepsInv | HSCC_climber/zsim-nvmain/src/coherence_ctrls.h:348-353 | Before an eviction everything below is invalidated and its dirty data taken over; only an owner can receive any. |
| Coherence.CollectEmpties | HSCC_climber/zsim-nvmain/src/coherence_ctrls.cpp:276-285 | After that nothing below holds the line. |
| Coherence.CollectFinds | HSCC_climber/zsim-nvmain/src/coherence_ctrls.cpp:276-285 | And the cache is then modified exactly if it or anything below it was; nothing outside changes. |
| Coherence.SkipKeepsInv | HSCC_climber/zsim-nvmain/src/coherence_ctrls.h:265-267 | Skipping a PUT whose line is already gone keeps the invariant. |
| Coherence.SilentUpgradeKeepsInv | HSCC_climber/zsim-nvmain/src/coherence_ctrls.cpp:146-155 | The silent E to M transition keeps the invariant. |
| Coherence.CompleteKeepsInv | HSCC_climber/zsim-nvmain/src/coherence_ctrls.h:390-397 | A request that has been answered left the state its sender asserts, and the sender becomes idle again. |
| Coherence.StoreKeepsInv | HSCC_climber/zsim-nvmain/src/coherence_ctrls.cpp:129-159 | A store by an owner makes its copy the latest and keeps the invariant. |
| Coherence.DirectoryIsExact | HSCC_climber/zsim-nvmain/src/coherence_ctrls.h:186-204 | In every reachable state the sharers are exactly the children with valid copies, the count is their number, and isExclusive holds exactly if a child owns the line. |
| Coherence.OwnerExcludesOthers | HSCC_climber/zsim-nvmain/src/coherence_ctrls.cpp:287-356 | If a cache holds the line in E or M, every other valid copy is above or below it. |
| Coherence.ValidAbove | HSCC_climber/zsim-nvmain/src/coherence_ctrls.h:335-346 | Inclusion: every cache above a valid copy is valid. |
| Coherence.SingleWriter | HSCC_climber/zsim-nvmain/src/coherence_ctrls.cpp:287-356 | A line held in E or M by one leaf is held by no other leaf. |
| Coherence.LeafIsLatest | HSCC_climber/zsim-nvmain/src/coherence_ctrls.cpp:112-128 | Whatever a leaf can hit on is the latest data. |
| Coherence.LatestSurvives | HSCC_climber/zsim-nvmain/src/coherence_ctrls.cpp:235-273 | The latest store is in memory or in a valid copy, and if memory lacks it some cache holds the line in M. |
| Coherence.Hierarchy.Issue | HSCC_climber/zsim-nvmain/src/coherence_ctrls.cpp:113-142 | Sending a request up, which releases the lock, keeps the invariant. |
| Coherence.Hierarchy.Load | HSCC_climber/zsim-nvmain/src/coherence_ctrls.cpp:112-128 | A load hits exactly if the copy was valid and then keeps its state and reads the latest data. The root, which has memory above it, fetches the line instead, in S for a NOEXCL load and in E otherwise; any other cache issues a GETS for its core. |
| Coherence.Hierarchy.Store | HSCC_climber/zsim-nvmain/src/coherence_ctrls.cpp:129-159 | A store writes at once exactly if the copy was in E or M (or it is the root, which fetches), and then every other copy and memory are out of date; otherwise it issues a GETX for the core and changes no copy. |
| Coherence.Hierarchy.Evict | HSCC_climber/zsim-nvmain/src/coherence_ctrls.cpp:56-92 | An eviction empties the subtree and touches nothing outside it. Below the root a PUT goes out exactly if the cache had a valid copy, and a PUTX exactly if anything in the subtree was dirty; the root writes the line to memory exactly then. |
| Coherence.Hierarchy.Obtain | HSCC_climber/zsim-nvmain/src/coherence_ctrls.cpp:94-165 | A GET goes to the next level exactly if the own permission does not suffice. |
| Coherence.Hierarchy.Accept | HSCC_climber/zsim-nvmain/src/coherence_ctrls.h:316-388 | Taking a request keeps the invariant, never panics and removes the line of a PUT, which makes the parent modified exactly if the line was. If the parent may answer a GET, the very core on whose behalf the request waited is served; a GETS takes no copy away, and that core ends in E exactly if its request was not NOEXCL, no other child of the parent had a copy and the parent did not merely share the line, in S otherwise. If it may not, the parent sends the request on and serves the child meanwhile. Either way the untaken requests have fewer levels to go. |
| Coherence.SomeRequestMayGoOn | HSCC_climber/zsim-nvmain/src/coherence_ctrls.h:316-388 | The protocol cannot get stuck: while any cache has a request, the parent of some requesting cache is idle and may take it. |
| Coherence.CompletedLowers | HSCC_climber/zsim-nvmain/src/coherence_ctrls.h:355-388 | Completing an untaken request, with all that waited for it, lowers the levels that the untaken requests may still have to go up. |
| Coherence.PassedLowers | HSCC_climber/zsim-nvmain/src/coherence_ctrls.cpp:112-159 | So does passing one on to the next level; so, until new requests are issued, all are answered after finitely many steps. |
| Coherence.Hierarchy.Complete | HSCC_climber/zsim-nvmain/src/coherence_ctrls.h:355-397 | Once an answer arrives, the requests waiting for it are answered in turn down to the leaf below whose core asked; that core finds the latest data with the permission it asked for, a GETS passes on the state that was granted, and the request is gone. |
| Barriers.Barrier.constructor | HSCC_climber/zsim-nvmain/src/barrier.h:105-119 | The new barrier is consistent, with arbitrary stale positions for threads that never ran. |
| Barriers.AdvanceKeeps | HSCC_climber/zsim-nvmain/src/barrier.h:257-272 | Waking the next thread keeps the barrier consistent; its compare-and-swap finds a 1, and it was not woken before in this phase. |
| Barriers.PlayedKeeps | HSCC_climber/zsim-nvmain/src/barrier.h:256-273 | Playing the list keeps everything consistent and stops only at the parallelism limit or at the end of the list. |
| Barriers.PhaseEndIsFair | HSCC_climber/zsim-nvmain/src/barrier.h:201-206 | A phase ends only when nobody runs, somebody waits, and every thread that was waiting at its start has been woken or has left. |
| Barriers.PhaseEndsIff | HSCC_climber/zsim-nvmain/src/barrier.h:201-278 | Playing on ends the phase if and only if nobody runs, nobody waits in the rest of the list, and not all have left. |
| Barriers.FreshPhaseDoesNotStall | HSCC_climber/zsim-nvmain/src/barrier.h:275-279 | Playing a fresh phase wakes somebody if anybody waits. |
| Barriers.UnfinishedPhaseDoesNotStall | HSCC_climber/zsim-nvmain/src/barrier.h:275-279 | If the phase is not over, a waiting thread has a running one to wait for. |
| Barriers.RemovedKeeps | HSCC_climber/zsim-nvmain/src/barrier.h:219-231 | Taking a thread that left off the list keeps the list, the counts and the positions in agreement. |
| Barriers.CleanEnds | HSCC_climber/zsim-nvmain/src/barrier.h:219-235 | The clean-up pass leaves no LEFT thread and removes as many entries as leftThreads says. |
| Barriers.SwappedKeeps | HSCC_climber/zsim-nvmain/src/barrier.h:241-251 | One exchange of the shuffle keeps the list and the positions in agreement. |
| Barriers.JoinedKeeps | HSCC_climber/zsim-nvmain/src/barrier.h:124-151 | A join, fresh, returning or rescheduled within the phase, keeps the barrier consistent. |
| Barriers.DepartedKeeps | HSCC_climber/zsim-nvmain/src/barrier.h:166-178 | A leave keeps the barrier consistent, and a leave while waiting cannot cause a stall. |
| Barriers.SyncedKeeps | HSCC_climber/zsim-nvmain/src/barrier.h:181-187 | A sync keeps the barrier consistent. |
| Barriers.JoinEndsPhaseIff | HSCC_climber/zsim-nvmain/src/barrier.h:149-151 | A join ends a phase if and only if nobody runs and the thread comes back at a position already passed that its lastIdx does not show; a thread woken since it came online never does, as the comment says. |
| Barriers.RescheduledIsNext | HSCC_climber/zsim-nvmain/src/barrier.h:130-146 | A thread that comes back after it was passed in this phase runs at once, or the limit is reached and it is the next to be woken. |
| Barriers.JoinerHasItsTurn | HSCC_climber/zsim-nvmain/src/barrier.h:124-152 | Every joiner runs in the current phase or has its turn ahead, unless its position was passed and its lastIdx does not show it. |
| Barriers.JoinMayEndPhase | HSCC_climber/zsim-nvmain/src/barrier.h:149-151 | A run in which a join does end the phase: a thread with an old lastIdx joins a shorter list, leaves before its first wake-up, and joins again after the others have left. |
| Barriers.PlacedMayJoin | HSCC_climber/zsim-nvmain/src/barrier.h:132-137 | The assertion on the list position holds for every thread woken since it came online. |
| Barriers.UnplacedMayNotJoin | HSCC_climber/zsim-nvmain/src/barrier.h:132-137 | It can fail for a thread that left while waiting for its first wake-up: a concrete run. |
| Barriers.AlwaysMayJoinIff | HSCC_climber/zsim-nvmain/src/barrier.h:132-137 | A thread that left passes the assertion, whatever value its lastIdx may have, if and only if it has been woken since it came online, the phase has not begun, or only the thread itself has been looked at. |
| Barriers.Barrier.CheckRunList | HSCC_climber/zsim-nvmain/src/barrier.h:256-273 | The loop computes what playing the list means. |
| Barriers.Barrier.CleanUp | HSCC_climber/zsim-nvmain/src/barrier.h:216-235 | The pass compacts the list in place; no thread is LEFT afterwards. |
| Barriers.Barrier.Shuffle | HSCC_climber/zsim-nvmain/src/barrier.h:239-252 | The Fisher-Yates loop permutes the list in place, whatever the random numbers, and changes no thread state. |
| Barriers.Barrier.CheckEndPhase | HSCC_climber/zsim-nvmain/src/barrier.h:201-254 | Ends the phase exactly if it is over, cleans up one time out of 32, and reorders the list only if it is longer than the parallelism limit or cleaned up. |
| Barriers.Barrier.TryWakeNext | HSCC_climber/zsim-nvmain/src/barrier.h:275-279 | Afterwards the barrier is valid: in particular nobody stalls. |
| Barriers.Barrier.Join | HSCC_climber/zsim-nvmain/src/barrier.h:124-152 | A join keeps the barrier valid and says exactly when the phase ended. A thread that left and was passed in this phase is next: it runs afterwards, or the limit is reached and it stands at curThreadIdx. Any other joiner runs or is still ahead in the list, but for the one case in which its lastIdx is out of date. |
| Barriers.Barrier.Leave | HSCC_climber/zsim-nvmain/src/barrier.h:166-178 | A leave keeps the barrier valid. It ends the phase exactly if the thread was the only one running, nobody waits ahead in the list, and not everybody has left; otherwise the waiting threads that curThreadIdx passes are woken, in list order up to the limit, and nobody else changes. |
| Barriers.Barrier.Sync | HSCC_climber/zsim-nvmain/src/barrier.h:181-188 | A sync keeps the barrier valid. It ends the phase exactly if the thread was the only one running and nobody waits ahead in the list; the next phase gives every waiting thread its turn. Otherwise the waiting threads that curThreadIdx passes are woken, and nobody else changes. |
| PageMaps.ExchangeKeeps | hcmm_climber.cpp:177-183 | A climb keeps maplist and reverselist inverse and sortednow in step with climbla2hot, and moves only the two pages. |
| PageMaps.ExchangeUndone | hcmm_climber.cpp:177-183 | Climbing back restores all four arrays. |
| PageMaps.ClimbRankInRange | hcmm_climber.cpp:134-162 | Whatever the random numbers, the target rank is within the memory, and a page below the climbing point moves to a strictly higher region, never beyond the climbing point. |
| PageMaps.ClimbRankReachable | hcmm_climber.cpp:134-162 | A climb goes to a rank above the page's region and no further than the climbing point, or, from the climbing point or beyond, to one in its region at another place. |
| PageMaps.ReachableIsDrawn | hcmm_climber.cpp:134-162 | And every such rank can be drawn: random numbers are given that lead to it. |
| PageMaps.ClimbWithinPointMoves | hcmm_climber.cpp:146-149 | Within the region of the climbing point a page always moves to another rank of that region, if the memory consists of whole regions. |
| PageMaps.Plan.ScrambleInvolutive | hcmm_climber.cpp:307-309 | Exclusive-or with the key permutes the ranks of the weaker half. |
| PageMaps.Plan.UpperHalfStays | hcmm_climber.cpp:307-309 | Randomization leaves the ranks of the stronger half alone and scrambles none of the others into it. |
| PageMaps.Plan.LowerHalfMoves | hcmm_climber.cpp:307-309 | Every rank in the whole blocks of the weaker half is scrambled, unless the key is 0. |
| PageMaps.SlotsKeepOrder | hcmm_climber.cpp:300-310 | So from the top an earlier visit gets no lower region, and a higher rank unless the later one's is in the weaker half and may be scrambled. |
| PageMaps.Plan.SlotIsBijection | hcmm_climber.cpp:292-309 | The ranks handed out are a permutation, descending or ascending, with or without randomization. |
| PageMaps.PlaceStep | hcmm_climber.cpp:323-325 | Placing a page not placed before disturbs none placed earlier. |
| PageMaps.PlaceDone | hcmm_climber.cpp:289-326 | Once every page has been placed, the four arrays agree. |
| PageMaps.ChargeStep | hcmm_climber.cpp:316-321 | Each step charges one write exactly if the page moves, apart from the rule for the page just accessed. |
| PageMaps.RemapCosts | hcmm_climber.cpp:316-321 | A complete remap has cost one write at every physical page whose logical page moved, and no other, apart from the page just accessed. |
| PageMaps.RemapStep | hcmm_climber.cpp:289-326 | One step of a remap: placement and charge together. |
| PageMaps.WriteAfterClimb | hcmm_climber.cpp:213-221 | With or without a climb, a write costs one unit at the page it ends up on and one at the page it left. |
| PageMaps.ClimbHelps | hcmm_climber.cpp:163-189 | A climb helps, and none is missed that would: an exchange leaves the busier page on the fresher place, and without one it was there already. |
| PageMaps.PageMap.constructor | hcmm_climber.cpp:91-104 | The initial arrays agree, for whatever order the sort leaves. |
| PageMaps.PageMap.StepPoint | hcmm_climber.cpp:254-258 | The climbing point stays between the middle and the top, wrapping around. |
| PageMaps.PageMap.DrawTarget | hcmm_climber.cpp:134-162 | The random draws are in the ranges that keep the target in the memory. |
| PageMaps.PageMap.Target | hcmm_climber.cpp:134-163 | Chooses the target page by the drawn rank. |
| PageMaps.PageMap.Climb | hcmm_climber.cpp:163-189 | Exchanges the pages exactly if it is worthwhile, at the cost of one write. By the shares of endurance left before: after an exchange the page with more writes is on the place with the larger share; without one it was already on a place with at least as large a share. |
| PageMaps.PageMap.PlaceNext | hcmm_climber.cpp:316-325 | Performs one step of a remap in the arrays, or finds a page worn out. |
| IdealWearLeveling.ZeroPointIsFinal | hcmm_climber.cpp:289-291 | Once found, the zero point does not change while the scan goes on. |
| IdealWearLeveling.VisitIndexMeaning | hcmm_climber.cpp:289-303 | Although it is computed during the scan, the visit order is that of the final zero point: reversed up to it, unchanged above. |
| IdealWearLeveling.VisitIndexInvolutive | hcmm_climber.cpp:298-303 | The zero-point reversal is an involution of the indices. |
| IdealWearLeveling.VisitOrderIsPermutation | hcmm_climber.cpp:289-326 | Every page is visited exactly once. |
| IdealWearLeveling.ReversalKeepsVisited | hcmm_climber.cpp:289-303 | With sorted counts the reversal moves only pages without visits: a page with more visits than another keeps its index, above the other one. |
| IdealWearLeveling.MoreVisitedGetsStronger | hcmm_climber.cpp:264-328 | With sorted visit counts a page with more visits gets to no lower region; unless the other page's rank is in the weaker half and randomized, it gets a higher rank, and a physical page with at least as much endurance left. |
| IdealWearLeveling.RemapByVisits | hcmm_climber.cpp:264-328 | For all pages at once: a remap from the top orders the pages by visits in this sense. |
| IdealWearLeveling.Climber.TryClimb | hcmm_climber.cpp:129-190 | Every so many writes, and only then, the page tries to climb to a page that the draws may yield; of the two, the one with more visits is then on the place that had the larger share of its endurance left. |
| IdealWearLeveling.Climber.HalfClear | hcmm_climber.cpp:191-195 | Ages every counter to three quarters. |
| IdealWearLeveling.Climber.PlaceAll | hcmm_climber.cpp:286-328 | The loop places every page once in the visiting order, ages its counter and charges exactly the moves; it fails only on a worn-out page. |
| IdealWearLeveling.Climber.DoSwap | hcmm_climber.cpp:252-331 | A remap that returns 1 leaves the four arrays in agreement, with the announced ranks and aged counters, one write charged for every page moved but the one accessed, randomized exactly as configured. Given the sorted orders, pages with more visits are in no lower region, and, unless the other page's rank is in the weaker half and randomized, on higher ranks and on pages with at least as much endurance. |
| IdealWearLeveling.Climber.Write | hcmm_climber.cpp:212-221 | A write costs one unit at the page it ends up on, and one more at the page it left if it climbed. If it was time to climb, the busier of the two pages is on the place that had the larger share left. |
| IdealWearLeveling.Climber.Access | hcmm_climber.cpp:196-251 | Every access keeps the arrays in agreement, performs one write, and remaps exactly at the threshold, starting from what that write left, with the same order of pages by visits. |
| BloomFilters.ListedOnce | bwlmm_climber.cpp:131-219 | No address is on the list twice. |
| BloomFilters.PromotedSlot | bwlmm_climber.cpp:138-188 | A promotion exchanges two slots of one group list and no others. |
| BloomFilters.PromotedIndex | bwlmm_climber.cpp:138-188 | And the index entries of the two addresses with them. |
| BloomFilters.PromotedKeeps | bwlmm_climber.cpp:138-188 | Promotion across all three tiers keeps list and index inverse. |
| BloomFilters.InsertedKeeps | bwlmm_climber.cpp:206-217 | Insertion with round-robin eviction keeps list and index inverse. |
| BloomFilters.AccessedKeeps | bwlmm_climber.cpp:131-219 | Every access keeps list and index inverse. |
| BloomFilters.AccessedMoves | bwlmm_climber.cpp:131-219 | An access moves the address up one slot (from tier 2 to the start of tier 1), lowers only the address it displaces, and evicts only from the insertion point. |
| BloomFilters.CellsDistinct | bwlmm_climber.cpp:191-193 | The counters of an address are pairwise distinct cells. |
| BloomFilters.BumpAt | bwlmm_climber.cpp:191-194 | Counting adds one to exactly those cells. |
| BloomFilters.CountKeeps | bwlmm_climber.cpp:191-205 | Every cell holds exactly the accesses hashed to it since the last clearing. |
| BloomFilters.EstimateBounds | bwlmm_climber.cpp:93-110 | getcount never reports too few accesses, and exactly the right number if some cell is not shared. |
| BloomFilters.CountInRow | bwlmm_climber.cpp:189-206 | The loop, which compares while it counts, reports the minimum after counting, and finds an address hot exactly if that minimum reaches the threshold. |
| BloomFilters.LeastInRow | bwlmm_climber.cpp:99-109 | The loop of getcount computes the minimum over the cells. |
| BloomFilters.BloomFilter.constructor | bwlmm_climber.cpp:17-71 | A new filter is empty and in order. |
| BloomFilters.BloomFilter.Clear | bwlmm_climber.cpp:75-92 | Clearing empties list, index and counters. |
| BloomFilters.BloomFilter.Promote | bwlmm_climber.cpp:138-188 | The four branches each exchange the address with the occupant of the slot above. |
| BloomFilters.BloomFilter.Insert | bwlmm_climber.cpp:206-217 | Puts the address on the slot whose turn it is. |
| BloomFilters.BloomFilter.GetCount | bwlmm_climber.cpp:93-110 | Never reports fewer accesses than there were. |
| BloomFilters.BloomFilter.Access | bwlmm_climber.cpp:131-219 | Afterwards the address is on the list exactly if it was before or its estimate reached the threshold; in particular if it was accessed that often. A listed address goes from tier 2 to the start of tier 1, or up one slot; its new slot's occupant gets the old slot; a new one starts at the insertion point, whose occupant is dropped; nobody else moves. |
| BloomWearLeveling.AmongStep | bwlmm_climber.cpp:520-522 | Stepping down a tier meets every occupant once. |
| BloomWearLeveling.HotterRanksHigher | bwlmm_climber.cpp:517-647 | After a remap from the top, pages of hotter classes (hot pages of hot groups by tier, other hot pages, the rest) are in no lower regions; unless the colder page's rank is in the weaker half and randomized, they have higher ranks. |
| BloomWearLeveling.HotterGetsStronger | bwlmm_climber.cpp:494-647 | And then the hotter page moves to a physical page with at least as much endurance left. |
| BloomWearLeveling.RemapByHotness | bwlmm_climber.cpp:494-647 | For all pages at once: a complete remap from the top puts hotter pages in no lower regions, and, outside the randomized weaker half, on higher ranks and stronger pages. |
| BloomWearLeveling.Climber.constructor | bwlmm_climber.cpp:222-350 | The initial state is valid. |
| BloomWearLeveling.Climber.PlaceTier | bwlmm_climber.cpp:524-560 | Places exactly the pages in one tier of one group list. |
| BloomWearLeveling.Climber.PlaceHotTier | bwlmm_climber.cpp:520-562 | Places exactly those of the groups in one tier of the group list. |
| BloomWearLeveling.Climber.PlaceHot | bwlmm_climber.cpp:517-565 | The first loop nest places exactly the hot pages of hot groups, tier by tier. |
| BloomWearLeveling.Climber.PlaceOther | bwlmm_climber.cpp:567-612 | The second places exactly the hot pages of the other groups. |
| BloomWearLeveling.Climber.PlaceCold | bwlmm_climber.cpp:615-647 | The third places exactly the rest, so that every page has been placed once. |
| BloomWearLeveling.Climber.PlaceAll | bwlmm_climber.cpp:517-647 | The three nests together place every page exactly once, and the arrays agree; they fail only on a worn-out page. |
| BloomWearLeveling.Climber.DoSwap | bwlmm_climber.cpp:478-656 | A swap that returns 1 leaves the arrays in agreement, one write charged for every page moved and for the one accessed, randomized exactly as configured, and both filters cleared. From the top, hotter pages are in no lower region, and, unless the colder page's rank is in the weaker half and randomized, on higher ranks and, if the pages were sorted, on pages with at least as much endurance. |
| BloomWearLeveling.Climber.TryClimb | bwlmm_climber.cpp:354-426 | Every so many counts, and only then, the page tries to climb; of it and the page drawn, the one with the higher estimate is then on the place that had the larger share of its endurance left. |
| BloomWearLeveling.Climber.CountAccess | bwlmm_climber.cpp:449-450 | Both filters count the access, and list the page and its group once they are hot: the new hot lists and the count are exact functions of the filters before. |
| BloomWearLeveling.Climber.Write | bwlmm_climber.cpp:451-458 | A write costs one unit at the page it ends up on, and one more at the page it left if it climbed. If it was time to climb, the busier of the two pages is on the place that had the larger share left. |
| BloomWearLeveling.Climber.Access | bwlmm_climber.cpp:427-477 | Every access keeps arrays and filters in order, performs one write, and remaps exactly at the threshold, starting from what that write left and by the hot lists as this access has counted itself into them. |
| TossUpWearLeveling.TranslateLocate | twl.cpp:197-220 | In every state the translation from logical to physical pages is a bijection, with an explicit inverse. |
| TossUpWearLeveling.InterswapExchanges | twl.cpp:158-164 | An inter-pair swap exchanges two logical pages and moves no other. |
| TossUpWearLeveling.FlipExchanges | twl.cpp:248-260 | A swap within a pair exchanges its two pages and moves no other. |
| TossUpWearLeveling.InterChargeIffLower | twl.cpp:129-156 | The page charged for an inter-pair swap is the one in use if and only if the table entry is in the lower half. |
| TossUpWearLeveling.InterChargeMisses | twl.cpp:129-156 | A concrete state in which another page is charged. |
| TossUpWearLeveling.WearTotal | twl.cpp:107-302 | A write lowers the total endurance by one, and by one more for each swap it causes. |
| TossUpWearLeveling.StatusIff | twl.cpp:139-302 | A write reports -1 exactly if a page that it looks at is worn out afterwards: the stronger page of a pair that swaps, otherwise the page written or the one charged for the inter-pair swap. |
| TossUpWearLeveling.MissedIff | twl.cpp:248-259 | Judged by the endurance before it: a write wears out a page without reporting it if and only if the pair will swap, its stronger page has enough left for what it is charged, and its weaker page, or another page charged for the inter-pair swap, has not. |
| TossUpWearLeveling.WearOutMissed | twl.cpp:248-259 | A concrete write that wears out a page and reports one swap instead. |
| TossUpWearLeveling.Twl.constructor | twl.cpp:18-102 | The initial translation is the identity and nothing has been lost. |
| TossUpWearLeveling.Twl.GetPairAddr | twl.cpp:107-168 | The rank moves to another entry exactly when its write count reaches 128, and then both exchanged ranks have count 0; the status is -1 exactly if that wears out the page charged; reads change nothing. |
| TossUpWearLeveling.Twl.CountVisit | twl.cpp:221-240 | Visit counters stay below the threshold between accesses, so reads never trigger a swap. |
| TossUpWearLeveling.Twl.Settle | twl.cpp:237-302 | Swaps the pair exactly if it is due and the toss differs from its state, wearing both pages; otherwise wears the page written. The status is exact: -1 only for the second page of a swapped pair or the page written, otherwise that of the first half, counted up by a swap. |
| TossUpWearLeveling.Twl.Exit | twl.cpp:211-302 | The second half of an access swaps the pair exactly if its visit count is due and the toss calls for it, and leaves the page on one of its pair, as reported. |
| TossUpWearLeveling.Twl.Access | twl.cpp:178-313 | Over every run: the translation changes only by swaps, reads change neither mapping nor wear, total endurance lost equals writes + interswaptimes + swaptimes, and the status is -1 exactly if a page that the write looks at is worn out. An inter-pair swap restarts the counts of both ranks, a full page count restarts both pages of the pair, and no other count changes but by the write. |
| MemClock.MatchingRoundTrip | HSCC_climber/zsim-nvmain/src/ddr_mem.h:253-258 | A memory cycle turned into a system cycle translates back to itself, for frequencies slightly beyond those stated. |
| MemClock.AcceptedRoundTrip | HSCC_climber/zsim-nvmain/src/ddr_mem.cpp:161-164 | In particular for every pair of frequencies that the constructor accepts. |
| MemClock.ResponseNotInPast | HSCC_climber/zsim-nvmain/src/ddr_mem.h:250-251 | What happens at or after the memory cycle of a system cycle is reported at or after that system cycle. |
| MemClock.TickLandsOnSchedule | HSCC_climber/zsim-nvmain/src/ddr_mem.cpp:456-459 | The event ticks in the memory cycle it was scheduled for if and only if that cycle is not over yet. |
| ActWindows.AddedContents | HSCC_climber/zsim-nvmain/src/ddr_mem.h:59-74 | The window always holds the old cycles without the oldest, and the new one. |
| ActWindows.AddedSortedIff | HSCC_climber/zsim-nvmain/src/ddr_mem.h:65-73 | A sorted window stays sorted if and only if the new cycle is no earlier than the second-oldest. |
| ActWindows.AddedUnsorted | HSCC_climber/zsim-nvmain/src/ddr_mem.h:66-70 | A concrete window that becomes unsorted. |
| ActWindows.ActivationsSpread | HSCC_climber/zsim-nvmain/src/ddr_mem.h:55-74 | Whatever the order in the window, sorted or not: over every run of activations that wait for tFAW after its head, any size + 1 of them span at least tFAW. |
| ActWindows.FewAtOnce | HSCC_climber/zsim-nvmain/src/ddr_mem.h:55-74 | So no tFAW cycles in a row hold more activations than the window has slots. |
| ActWindows.ActWindow.constructor | HSCC_climber/zsim-nvmain/src/ddr_mem.h:49-53 | The window starts with zeros. |
| ActWindows.ActWindow.AddActivation | HSCC_climber/zsim-nvmain/src/ddr_mem.h:59-74 | The circular buffer, with its loop and its early exit, does exactly that. |
| BankQueues.QueuedInOrder | HSCC_climber/zsim-nvmain/src/ddr_mem.cpp:384-419 | Requests to the same row stay in arrival order. |
| BankQueues.QueuedBehindRow | HSCC_climber/zsim-nvmain/src/ddr_mem.cpp:384-397 | A request to a row that is queued goes directly behind the last request to that row, as its next row hit, while the run may grow; otherwise it goes last and starts a run. |
| BankQueues.QueuedLast | HSCC_climber/zsim-nvmain/src/ddr_mem.cpp:400-418 | One to a row that is not queued goes last, as a row hit exactly if the queue is empty and the row is open and may have more hits. |
| BankQueues.QueuedChained | HSCC_climber/zsim-nvmain/src/ddr_mem.cpp:384-419 | rowHitSeq never exceeds the limit, and a row hit that is not first directly follows the request before it in its run. |
| BankQueues.QueuedStarts | HSCC_climber/zsim-nvmain/src/ddr_mem.cpp:384-419 | The first request of a run is older than everything behind it. |
| BankQueues.QueuedOk | HSCC_climber/zsim-nvmain/src/ddr_mem.cpp:384-419 | Every arrival keeps all of this. |
| BankQueues.ServedOk | HSCC_climber/zsim-nvmain/src/ddr_mem.cpp:628-629 | And so does every service. |
| BankQueues.OvertakingCosts | HSCC_climber/zsim-nvmain/src/ddr_mem.cpp:387-391 | Being overtaken uses up one unit of the slack that the runs ahead leave; no other arrival lowers it. |
| BankQueues.OvertakenAtMost | HSCC_climber/zsim-nvmain/src/ddr_mem.cpp:384-399 | Over any run of arrivals and services a request is overtaken at most limit times for every run ahead of it. |
| BankQueues.Enqueue | HSCC_climber/zsim-nvmain/src/ddr_mem.cpp:384-419 | The backward search queues a request as specified. |
| DdrMemory.BurstsDisjoint | HSCC_climber/zsim-nvmain/src/ddr_mem.cpp:581-583 | In a legal trace the bursts of any two commands on the data bus are disjoint. |
| DdrMemory.FewActsAtOnce | HSCC_climber/zsim-nvmain/src/ddr_mem.cpp:485-486 | In a legal trace no tFAW cycles in a row hold more than four activations of a rank. |
| DdrMemory.ActWaits | HSCC_climber/zsim-nvmain/src/ddr_mem.cpp:568-576 | An activation that waits for tFAW after the head of its rank window keeps the activations of every rank spread, and the window is what they have left there. |
| DdrMemory.ActApart | HSCC_climber/zsim-nvmain/src/ddr_mem.cpp:559-569 | The checks before an ACT amount to the rules: tRAS + tRP and tRRD after the last one of the bank, recovery of earlier accesses, and no ACT before a refresh is done. |
| DdrMemory.ColApart | HSCC_climber/zsim-nvmain/src/ddr_mem.cpp:549-583 | The checks before a column access amount to the rules: free bus, write-to-read turnaround, tRCD after the ACT. |
| DdrMemory.ReadyIssuesOnTime | HSCC_climber/zsim-nvmain/src/ddr_mem.cpp:491-582 | A request found ready is issued in that very cycle, unless the bus turns around after a write; its activation fits between its arrival and then, so the scheduler uses no knowledge of the future. |
| DdrMemory.IssuedLegal | HSCC_climber/zsim-nvmain/src/ddr_mem.cpp:547-599 | Issuing a request extends a legal trace legally: every pairwise distance, any five activations of a rank at least tFAW apart, and always the open row. |
| DdrMemory.IssuedReady | HSCC_climber/zsim-nvmain/src/ddr_mem.cpp:547-599 | Afterwards the counters and windows enforce what the new commands impose and nothing beyond it, and none of the counters has moved back. |
| DdrMemory.ActIsPrompt | HSCC_climber/zsim-nvmain/src/ddr_mem.cpp:480-487 | No activation waits in vain: any earlier, it would come before its request has arrived and an open row been closed for it, too soon after a command of the trace, or before its rank's window allows it. |
| DdrMemory.ColIsPrompt | HSCC_climber/zsim-nvmain/src/ddr_mem.cpp:547-582 | Nor does a column access: any earlier, it would come before the scheduling cycle or too soon after a command of the trace. |
| DdrMemory.MinCmdIsPrompt | HSCC_climber/zsim-nvmain/src/ddr_mem.cpp:470-489 | Nor does the controller wake up too late: before the cycle that findMinCmdCycle gives, some command forbids the access. |
| DdrMemory.RefreshedReady | HSCC_climber/zsim-nvmain/src/ddr_mem.cpp:634-655 | A refresh keeps the trace legal and the counters right; minPreCycle does not decrease. |
| DdrMemory.SomeFront | HSCC_climber/zsim-nvmain/src/ddr_mem.cpp:513-534 | If any request is queued, one is first in its bank queue. |
| DdrMemory.ArrivalMatches | HSCC_climber/zsim-nvmain/src/ddr_mem.cpp:367-419 | An arrival keeps the channel queue and the bank queues in agreement. |
| DdrMemory.ServiceMatches | HSCC_climber/zsim-nvmain/src/ddr_mem.cpp:627-629 | So does a service. |
| DdrMemory.DDRMemory.constructor | HSCC_climber/zsim-nvmain/src/ddr_mem.cpp:153-226 | The initial state is valid, and with a queue depth above zero the controller is awake whenever it must be. |
| DdrMemory.DDRMemory.Queue | HSCC_climber/zsim-nvmain/src/ddr_mem.cpp:345-423 | A request joins the right queue of its bank in FR-FCFS order. |
| DdrMemory.DDRMemory.Enqueue | HSCC_climber/zsim-nvmain/src/ddr_mem.cpp:296-343 | A request is queued, or kept aside if a queue is full; if it is the first of its bank, the next wake-up is lowered to when it and the bus are ready, if that is earlier. Afterwards an event is due that will wake the controller in the cycle it expects. |
| DdrMemory.DDRMemory.Tick | HSCC_climber/zsim-nvmain/src/ddr_mem.cpp:426-460 | The event fires in the memory cycle it was scheduled for and never asks for one in the past (both assertions); it serves exactly what trySchedule would and leaves the rows open or closed as that does, lets one kept-aside request in unless a queue is full, loses no request, and leaves a wake-up set whenever one waits. |
| DdrMemory.DDRMemory.LetIn | HSCC_climber/zsim-nvmain/src/ddr_mem.cpp:432-449 | A request that was kept aside is queued in arrival order, and the next wake-up lowered at most to the cycle at which the bus is free, whether or not the request is ready then. |
| DdrMemory.DDRMemory.FindReady | HSCC_climber/zsim-nvmain/src/ddr_mem.cpp:516-543 | Finds the first ready request in arrival order, or else exactly the cycle at which one will be. |
| DdrMemory.DDRMemory.Schedule | HSCC_climber/zsim-nvmain/src/ddr_mem.cpp:549-599 | Finds the command cycle; the assertion that it is later than the last one of the bank holds. |
| DdrMemory.DDRMemory.RecordAct | HSCC_climber/zsim-nvmain/src/ddr_mem.cpp:568-576 | Records the activation; the assertion of the window holds. |
| DdrMemory.DDRMemory.Issue | HSCC_climber/zsim-nvmain/src/ddr_mem.cpp:547-629 | Extends the trace by the commands for the request and takes it off its bank queue. The bank has the row of the request selected, as many hits as it had, and open exactly if the policy is not closed-page or the rest of the queue goes on with a row hit; no other bank's row changes. |
| DdrMemory.DDRMemory.TrySchedule | HSCC_climber/zsim-nvmain/src/ddr_mem.cpp:491-632 | Serves exactly the first ready request of the queue it picks, and none exactly if none is ready or the bus is taken too far ahead: a write if more than three quarters of the writes' room is taken, or more than a quarter after a write; otherwise a read if any is queued. Takes that request off, leaves its row open exactly as the policy says, and asks to be woken when the bus or the earliest request is ready, never in the past, and not at all exactly if nothing is queued. |
| DdrMemory.DDRMemory.Refresh | HSCC_climber/zsim-nvmain/src/ddr_mem.cpp:634-655 | Starts as soon as every bank may be precharged and closes all rows; wake-ups stay in order. |

## Left out

- BloomFilters.BloomFilter: its nested buffers are sequences held in fields and reassigned, so writing through one of several pointers to a buffer is not modelled; its counters do not wrap around.
- BloomWearLeveling.Climber.DoSwap: does not model climberstart, maxSL, rank2addr, areanums or the wear-rate scan, which are only logged.
- IdealWearLeveling.Climber.DoSwap: does not model climberstart, maxSL or map2weakaddr, which are only logged.
- TossUpWearLeveling.Twl.Access: the toss is an arbitrary bit, not one weighted by endurance; the packing of the returned addresses into 32-bit words is not modelled.
- BankQueues.OvertakenAtMost: counts arrivals queued ahead in the bank's own queue; which bank the scheduler serves is a separate matter.
- DdrMemory.DDRMemory.TrySchedule: each rank's window is the sequence that actwindow.dfy proves the circular buffer to hold; responses, latency counters and the unused minSchedCycle field are not modelled.
- Coherence.Hierarchy: one line at a time; evicting another line to make room is an eviction of that line, and the replacement policy that chose it is not modelled. No data moves in the simulator, so the field that marks the latest copy only observes the protocol.
- Coherence: the non-inclusive mode, PUTX_KEEPEXCL, FWD, prefetches, clflush, network latencies and profiling counters.
- Coherence: the locks themselves, and their order; each step runs under the locks that the code holds.
- ZCache: the other array organisations, the replacement policies (any candidate may be chosen) and lastCandIdx; an address is nonzero and absent when it is inserted, as the callers ensure.
- Barriers: futex waits, the callback at the end of a phase, and parallelThreads of zero.
- PageMaps: endurance is a real number, so rounding is not modelled; the page count is a power of two (for the Bloom filter a multiple of the group size) and at least two regions.
- PageMaps: what happens after a page wears out in the middle of a remap, when the arrays need not agree.
- DDR: address mapping, recycling of event objects, technology tables, a queue depth of zero (with which no request would ever be queued), and 64-bit wrap-around of cycle counts; tRRD spaces the activations of one bank only, as the code checks it.
- Reading traces and life files, logging, configuration and command lines: input and output only.
- bwl.cpp, climber.cpp, detailed_mem.cpp, decoder.cpp and contention_sim.cpp: variants of what is modelled, or tied to libraries and event classes.
