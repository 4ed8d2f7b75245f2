# MeMS allocator model

A Dafny model of the MeMS memory manager in `easy/mems.h`. MeMS hands out
synthetic ("virtual") addresses from a counter that starts at 1000. It backs the
addresses with page groups obtained from the operating system. The state is a
two-level chain:

- the main chain, a list of page groups (`MainChainNode`). Each group records its
  mapping length `psize` and a `size_t` counter `used`;
- for each group, a sub chain of segments (`SubChainNode`). Each segment records
  its size, its type (free or allocated) and the synthetic address it was issued.

The model has three modules:

- `Chain` (`chain.dfy`) holds the data model: `Group` and `Segment` values, with
  both lists as sequences, head first. It also holds the `size_t` arithmetic the
  allocator performs, the two placement tests of `mems_malloc`, and the nested
  address search shared by `mems_get` and `mems_free`.
- `Coalescing` (`coalesce.dfy`) holds `Coalesce`, the outcome of
  `combineFreeSubNodes` on one list, and its properties. It works on list order,
  i.e. insertion order, not on address order.
- `Mems` (`mems.dfy`) holds the class `Allocator`. Its fields `groups` and `next`
  are the two globals `main_chain_head` and `v_ptr`. Each source operation is a
  method on it that updates these fields in place, with loops where the source
  loops. It also holds `Release`, the effect of `mems_free` on the group it hits,
  and `MergeFreeRuns`, the merge loop of `combineFreeSubNodes`.

Decisions about behaviour the source exhibits as written:

- `used` is a 64-bit `size_t`. It starts at 0 and `mems_malloc` never increases
  it. `mems_free` subtracts the freed size, so `used` wraps modulo 2^64. The
  comparisons involving `used` at lines 100 and 105 are modelled in modulo 2^64
  arithmetic. `WrappedUsedRejectsRoomyHead` shows one effect: once `used` has
  wrapped, the head test at line 100 rejects every request smaller than the
  amount released, although the group has room for it, and `mems_malloc` then
  creates a new group. `ReleaseWrapsUsed` shows that the first release in a fresh
  page already reaches that state.
- The page source (`mmap`) is an assumption of the model, not a fact about the
  program. The model treats every request of `0 < n <= 2^47` bytes (the x86-64
  user address space) as granted, and every other request as the `exit(1)` path.
  That path ends the program, so the model turns it into a precondition: a new
  group needs `0 < size <= 2^47`. `MappableRequest` shows that this is the same as
  the rounded length lying in that range.
- The scan loop of `mems_malloc` never goes past the first group it probes. A
  group fresh from `addToMainChain` passes the capacity test at line 105
  (`FreshGroupHasRoom`). A head that passes the test at line 100 also passes the
  test at line 105 (`UnexceededHasRoom`). So lines 109-116 are unreachable, and
  `Malloc` is written as that single probe, without the loop.
- `mems_get` adds `v_ptr - sub_node->v_ptr` to the group base. That offset is
  always zero. The model returns `Physical(group index, offset)` and proves the
  offset is 0.
- `mems_init` resets the counter but keeps the group list, because line 80
  declares a local that shadows the global head. So after `mems_init`, addresses
  already held by segments can be issued again. `mems_finish` empties the list but
  keeps the counter.
- The allocator's intended invariant is that no address is held twice
  (`Unique`). The model shows how each operation keeps it. `Malloc` keeps it
  while the counter bounds every held address. `Free` and `CombineFreeSubNodes`
  keep it with no further condition. The source breaks it only through `mems_init`, which
  lowers the counter, and through requests of size 0, which leave the counter
  where it was.

## Model

| member | source | states |
|---|---|---|
| Chain.RoundUp | easy/mems.h:27-28 | the mapping length is a page multiple computed in size_t; for requests at most 2^64 - 4096 it is the least page multiple `>= size`, and otherwise the sum wraps and gives 0 |
| Chain.MappableRequest | easy/mems.h:28-36 | the rounded length lies in the range the model treats as granted, `(0, 2^47]`, exactly when the request itself does |
| Chain.SizeSub | easy/mems.h:199 | `used -= size` on size_t: the result is below 2^64, adding `size` back gives `used` modulo 2^64, and it is plain subtraction when nothing wraps |
| Chain.FreshGroupHasRoom | easy/mems.h:38-40 | a group fresh from `addToMainChain` is well formed and passes the capacity test `psize - used >= size` for its own request |
| Chain.Exceeds | easy/mems.h:100 | the head test `used + size > psize` in size_t: the plain comparison while the sum fits below 2^64, otherwise the sum less 2^64 is compared |
| Chain.HasRoom | easy/mems.h:105 | the capacity test `psize - used >= size` in size_t: the plain comparison while `used <= psize`, otherwise the difference plus 2^64 is compared |
| Chain.NeedsGroup | easy/mems.h:100 | a group is created first when there is no head; a head whose sum does not wrap is kept exactly when `used + size <= psize` |
| Chain.UnexceededHasRoom | easy/mems.h:100-106 | for a request of at most 2^47 bytes, a well-formed head whose size_t test `used + size > psize` is false also passes the capacity test, so the scan stops at it |
| Chain.WrappedUsedRejectsRoomyHead | easy/mems.h:100-105 | a head whose `used` has wrapped above `psize` fails the head test for every request smaller than the amount by which it wrapped, although it passes the capacity test for all of them |
| Chain.DistinctCons | easy/mems.h:67-72 | a segment whose address is not in a distinct list can be pushed on its front, and the list stays distinct |
| Chain.ReplaceUnique | easy/mems.h:173-209 | replacing one group by a distinct one holding no new address keeps every address unique across all groups |
| Chain.FindSegment | easy/mems.h:156-165 | the inner search finds nothing exactly when no segment holds the address; otherwise it finds the first segment holding it |
| Chain.Locate | easy/mems.h:152-171 | the nested search finds nothing exactly when no group holds the address; otherwise it finds the first group, head first, holding it, and the first segment in that group |
| Chain.FirstHit | easy/mems.h:193-205 | a hit with no earlier hit in the groups before it or in its own list is what the nested search finds |
| Chain.Translate | easy/mems.h:152-171 | `mems_get` returns nothing exactly when no segment holds the address; otherwise it returns the first group holding it, with offset 0 |
| Coalescing.Absorb | easy/mems.h:177-186 | putting a segment in front of a coalesced remainder keeps its address and type; the segment absorbs the remainder's first segment, taking the sum of the two sizes, when both are free, and otherwise is simply pushed |
| Coalescing.Coalesce | easy/mems.h:173-188 | the merged list is no longer than the original, and a non-empty list keeps the address and type of its first segment |
| Coalescing.MergeHead | easy/mems.h:177-183 | absorbing the next segment into a free current one when both are free does not change the final outcome |
| Coalescing.KeepHead | easy/mems.h:184-186 | unless the current and next segments are both free, the current segment is final and the walk moves on |
| Coalescing.CoalesceSingle | easy/mems.h:176 | a list with no next segment is left as it is |
| Coalescing.CoalesceFreeRun | easy/mems.h:173-188 | a maximal run of free segments collapses into its first segment, which keeps its address and takes the run's total size |
| Coalescing.CoalesceNoAdjacentFree | easy/mems.h:173-188 | after the pass no two list-adjacent segments are both free |
| Coalescing.CoalesceKeepsTotal | easy/mems.h:173-188 | the pass conserves the sum of segment sizes |
| Coalescing.CoalesceKeepsAllocated | easy/mems.h:173-188 | allocated segments keep their order, size and address through the pass |
| Coalescing.CoalesceFixpoint | easy/mems.h:173-188 | a list with no two adjacent free segments is left unchanged |
| Coalescing.CoalesceFixpointIff | easy/mems.h:173-188 | the pass leaves a list unchanged exactly when no two adjacent segments are both free |
| Coalescing.CoalesceIdempotent | easy/mems.h:173-188 | running the pass twice equals running it once |
| Coalescing.CoalesceDistinct | easy/mems.h:173-188 | the pass keeps the addresses of a list distinct |
| Coalescing.CoalesceAddrs | easy/mems.h:173-188 | the pass issues no address: every address left after it was held before |
| Coalescing.SurvivorKept | easy/mems.h:177-185 | a segment that heads the list or follows an allocated one keeps its address through the pass |
| Coalescing.AbsorbedDropped | easy/mems.h:177-179 | with distinct addresses, a free segment following a free one is absorbed, and its address is no longer held |
| Mems.MergeFreeRuns | easy/mems.h:173-188 | the merge loop, walking a current segment and absorbing free successors into a free current one, computes `Coalesce` of the list |
| Mems.Release | easy/mems.h:197-200 | a release keeps `psize`, subtracts the freed size from `used` modulo 2^64, and leaves no two adjacent free segments |
| Mems.ReleaseKeepsOthers | easy/mems.h:197-200 | a release conserves the group's total segment size, and keeps every other allocated segment in order with its size and address |
| Mems.ReleasedAddressFindable | easy/mems.h:197-200 | with distinct addresses, the released address can still be found exactly when its segment heads the list or follows an allocated one |
| Mems.MarkKeepsAddrs | easy/mems.h:198 | marking a segment free leaves the addresses of its list unchanged |
| Mems.ReleaseAddrs | easy/mems.h:197-200 | a release issues no new address in its group |
| Mems.ReleaseDistinct | easy/mems.h:197-200 | a release keeps the group's addresses distinct |
| Mems.ReleaseWrapsUsed | easy/mems.h:197-200 | releasing a 40-byte segment from a fresh page leaves `used` at 2^64 - 40, after which the head test refuses a 10-byte request that the page has room for |
| Mems.PushUnique | easy/mems.h:61-72 | pushing a segment whose address no group holds keeps every address unique |
| Mems.PrependUnique | easy/mems.h:38-48 | putting a distinct group holding no address held elsewhere in front keeps every address unique |
| Mems.PushIssuedBelow | easy/mems.h:61-74 | pushing a segment at or above every held address and below the bound keeps every address below the bound |
| Mems.PrependIssuedBelow | easy/mems.h:38-48 | putting a group with no segments in front keeps every address below the bound |
| Mems.Allocator.constructor | easy/mems.h:23-24 | the program starts with no groups and the counter at 1000 |
| Mems.Allocator.AddToMainChain | easy/mems.h:26-50 | the new group, with the least page multiple `>= size` as `psize`, zero `used` and no segments, becomes the head; the rest of the list and the counter are unchanged |
| Mems.Allocator.AddToSubChain | easy/mems.h:52-77 | the new segment carries the old counter value and is pushed on the front of its group's list; the counter grows by exactly `size`; no other group or field changes |
| Mems.Allocator.Init | easy/mems.h:79-82 | the counter returns to 1000 and the group list is kept |
| Mems.Allocator.Finish | easy/mems.h:84-95 | the group list becomes empty and the counter is kept |
| Mems.Allocator.Malloc | easy/mems.h:97-117 | the result is the old counter value, the counter grows by `size`, and an allocated segment of `size` is pushed on the head group, which is fresh exactly when there was none or the head failed the test at line 100; no `used` changes; translation finds the address in the head group; whenever the counter bounded all held addresses before, the address is new, no address is held twice if none was before, and for a positive size the counter still bounds all addresses |
| Mems.Allocator.Get | easy/mems.h:152-171 | the nested scan returns `Translate` of the address and changes nothing |
| Mems.Allocator.CombineFreeSubNodes | easy/mems.h:173-188 | group `gi`'s list becomes `Coalesce` of it; no other group and not the counter changes; no address is held twice if none was before |
| Mems.Allocator.Free | easy/mems.h:190-209 | a miss changes nothing; a hit replaces only the group found by `Locate` with its `Release`; the counter is unchanged and still bounds all addresses if it did before; no address is held twice if none was before |

## Left out

- `mmap`, `munmap`, `perror` and `exit(1)` (lines 30-36, 53-59, 90): the page
  source is a bound on the mapping length. A refused mapping ends the program, so
  it becomes a precondition of `AddToMainChain` and `Malloc`. The mapping for each
  segment node (lines 53-59) is always granted.
- A refusal by the real `mmap` below 2^47 bytes is not modelled. Such a refusal
  comes from an address-space limit, overcommit, or memory already mapped, and
  ends the real program. Likewise a grant above 2^47 is not modelled; it can
  happen on machines with 5-level paging.
- Chain.Translate: `Physical.group` is a position counted from the head of the
  list. Every new group shifts it by one, whereas the source's result is the
  group's base pointer, which stays fixed for the group's lifetime.
- Mems.Allocator.Malloc: requires `size <= 2^47` even when no group is created.
  Larger requests can only be served by a head whose `used` has wrapped, after the
  test at line 100 also wrapped. The model does not follow the source's scan
  (lines 104-114) in that case.
- Line 110 (`main_node->next = addToMainChain(size)`) and the NULL return at line
  116 are proved unreachable for requests of at most 2^47 bytes, so no model of
  them is given.
- The `munmap` loop of `mems_finish` (lines 88-92) only returns the mappings to the
  operating system; the model only empties the list.
- The bytes of the backing memory. The group header sits at the mapped base, so a
  write through the translated pointer overwrites `psize`; memory contents are not
  modelled.
- The `prev` links (lines 12, 20, 45, 69, 182): list order replaces them.
- Memory leaks: absorbed segment nodes (line 179) and all segment nodes at
  `mems_finish` are never unmapped. With sequences there is nothing to release.
- `mems_print_stats` (lines 119-150): it only prints. Its totals are not modelled.
- Segment sizes and the address counter are unbounded naturals. The source's
  `size_t` would wrap only after 2^64 bytes of synthetic addresses.
- `hard/test14.c` is not part of this model: it is a test driver (resource limits,
  a loop of allocations, printing).
