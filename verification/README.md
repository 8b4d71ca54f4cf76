# A verified model of drm_mm and the CMA pool simulators

The repository replays a log of buffer commands against a memory pool. Its C program stacks four layers: red-black
trees with parent pointers, an interval tree on top of them, the `drm_mm` range allocator, and a paging pool that
evicts buffers through the allocator's scan. `cma-pool-log.py` holds a second pool with a simpler policy. This project
models all of them and proves what each layer promises to the one above.

How the C program is modelled:

- Memory is a map from addresses (`Ptr`, with `NULL` = 0) to records; a store is an update of one record. One class,
  `RbTree`, stands for the three trees a `drm_mm_node` is embedded in, and is keyed by node. Sort keys are kept in the
  tree (`START`, the negated `HOLE_SIZE`, `HOLE_ADDR`), because no key changes while its node is in a tree.
- The pointers of a red-black tree are related to a ghost inductive tree; a climbing or descending loop carries a zipper
  (`Ctx`, the path to the focus, and the focused subtree) as its invariant. `Order()` is the in-order sequence, which is
  all the upper layers see. The colour, which the original packs into the parent pointer, is a field.
- The two mirrored branches of the fix-up loops are one branch with a direction `d`. In the erasure of a node with two
  children the copy and propagate callbacks run after the pointer writes; the links they read are the same by then.
- `DrmMm.blocks` is a ghost sequence: the head node followed by all allocated nodes in address order. During a scan the
  node list lacks the scanned blocks, `blocks` does not. `Core()` is what holds at any time, `Valid()` adds the node
  list outside of a scan. Part of it is that the size tree keeps holes of one size in the order of their creation, which
  the hole stack records (`NewestLast`).
- `u64` sums wrap where the original's do (`Add64`, `Sub64`). Buffer names are `u32`; `overflow` is a `size_t`, which
  distinct names of 32 bits and sizes of at most 128 MiB keep from wrapping.
- `DRM_MM_BUG_ON` and `BUG_ON` are assertions, or preconditions where they constrain the caller. The comment on
  drm_mm_scan_init_with_range forbids every other operation while a scan is active; the operations therefore require
  `Valid()`.
- A `struct buffer` starts with its `drm_mm_node`, so that one address names both. `calloc` is the choice of some unused
  address. In the pools, the lists of buffers are sequences; the intrusive list of linux/list.h is the class
  `LinkedList`, which the allocator uses for its node list and its hole stack.
- In `cma-pool-log.py` a buffer object is known by its id, the key under which `Pool.buffers` holds it, and an exception
  is an `Outcome`.

Where the code and its own names disagree, the model follows the code: `buf_madv` returns in the first round of its
loop, so that `dontneed` is never stored (`SetMadv`), and in every run all buffers stay willing (`Run`); the effect of
`userspace_cache_purge` is nevertheless proved for arbitrary marks (`Purge`). The Python `_compact_buffer` also moves
unmoveable buffers: `SimPool.RemoveUsecnt` says exactly when, `UnmoveableMoves` gives a log. It raises for a buffer
without an offset.

Files, from the bottom up: `KernelMath`, `Sequences`; `RbShape`, `RbFixup`, `RbErase`, `RbLink`, `RbTree`,
`IntervalTree`; `LinkedList`, `Tiling`, `DrmMm`, `HoleSearch`, `Insertion`, `Gaps`, `NodeRange`, `Scan`, `Eviction`;
`CmaBuffers`, `CmaPaging`, `CmaPool`; `SimPool`.

## Model

| member | source | states |
|---|---|---|
| `KernelMath.IsPowerOf2Exact` | test-drm-mm/linux/kernel.h:18-22 | the bit test accepts exactly the powers of two |
| `KernelMath.MaskIsRemainder` | test-drm-mm/drm_mm.c:489-514 | for a power of two, masking with `alignment - 1` and dividing give the same remainder |
| `KernelMath.AdjustedStartExact` | test-drm-mm/drm_mm.c:502-538 | the wrapping computation yields a placement iff the hole admits an aligned one inside hole and range, and then the lowest one, or the highest when allocating from the top |
| `RbShape.LogarithmicHeight` | test-drm-mm/rbtree.c:15-28 | a valid tree of n nodes is at most 2 log2(n + 1) high |
| `RbShape.Focus` | test-drm-mm/linux/rbtree.h:14-30 | every node of a tree has a position from which the tree can be put together again |
| `RbShape.PlugRedBlack` | test-drm-mm/rbtree.c:15-28 | a subtree of the right black height in a context that lacks it makes a valid tree |
| `RbShape.MaxValueIsMaximum` | test-drm-mm/linux/rbtree_augmented.h:120-142 | the stored scalar bounds every value of the subtree and is one of them |
| `RbTrees.RbTree.AugmentRotate` | test-drm-mm/linux/rbtree_augmented.h:93-100 | the rotate callback hands the maximum to the risen node and recomputes the lowered one |
| `RbTrees.RbTree.Rotate` | test-drm-mm/rbtree.c:69-82 | one rotation: the represented tree is the rotated one, maxima included |
| `RbTrees.RbTree.InsertCase1` | test-drm-mm/rbtree.c:117-137 | the colour flip keeps the order and moves the only possible violation to the grandparent |
| `RbTrees.RbTree.InsertCase2` | test-drm-mm/rbtree.c:139-164 | an inner child is rotated outwards, ready for case 3 |
| `RbTrees.RbTree.InsertCase3` | test-drm-mm/rbtree.c:166-182 | the outer rotation ends with a valid tree in the same order |
| `RbTrees.RbTree.InsertColor` | test-drm-mm/rbtree.c:84-220 | from a red node with a possibly red parent, all red-black properties and maxima are restored and the order is unchanged; the loop climbs and ends |
| `RbTrees.RbTree.EraseCase1` | test-drm-mm/rbtree.c:241-261 | a red sibling, which exists, is rotated up; the hole then has a black sibling |
| `RbTrees.RbTree.EraseCase2` | test-drm-mm/rbtree.c:262-291 | the missing black node is absorbed by a red parent or passed on to it; order kept |
| `RbTrees.RbTree.EraseCase3` | test-drm-mm/rbtree.c:292-329 | a red near nephew becomes the far one |
| `RbTrees.RbTree.EraseCase4` | test-drm-mm/rbtree.c:330-351 | the last rotation restores the black height; order kept |
| `RbTrees.RbTree.EraseColor` | test-drm-mm/rbtree.c:226-407 | a tree with one black node too few below some place becomes valid in the same order; siblings and nephews are never NULL where they are dereferenced, and the loop climbs |
| `RbFixup.SiblingExists` | test-drm-mm/rbtree.c:232-250 | black heights force the sibling of a short subtree to exist |
| `RbTrees.RbTree.Propagate` | test-drm-mm/linux/rbtree_augmented.h:76-85 | the climb repairs all maxima up to its end, although it may stop early at an unchanged one |
| `RbTrees.RbTree.FindSuccessor` | test-drm-mm/linux/rbtree_augmented.h:230-268 | the walk finds the in-order successor and its parent |
| `RbTrees.RbTree.SpliceOut` | test-drm-mm/linux/rbtree_augmented.h:206-229 | a node with at most one child is replaced by it; colours and maxima are accounted for |
| `RbTrees.RbTree.SpliceSuccessor` | test-drm-mm/linux/rbtree_augmented.h:230-298 | the successor takes over place, colour and maximum of a node with two children; the order loses just that node |
| `RbTrees.RbTree.EraseAugmented` | test-drm-mm/linux/rbtree_augmented.h:197-299 | what is left represents a tree of the remaining nodes that is short by one black node exactly where `rebalance` says |
| `RbTrees.RbTree.First` | test-drm-mm/rbtree.c:466-476 | the first node in order, or NULL |
| `RbTrees.RbTree.Next` | test-drm-mm/rbtree.c:492-521 | the in-order successor, or NULL at the end |
| `RbTrees.RbTree.Prev` | test-drm-mm/rbtree.c:524-550 | the in-order predecessor, or NULL at the start |
| `RbTrees.RbTree.LinkNode` | test-drm-mm/linux/rbtree.h:69-76 | a red leaf is linked at the slot |
| `RbTrees.RbTree.Insert` | test-drm-mm/drm_mm.c:237-256 | the node enters the sorted order behind all nodes whose key is not larger; tree, leftmost cache and maxima stay valid |
| `RbTrees.RbTree.RaiseAbove` | test-drm-mm/drm_mm.c:178-186 | the climb from the hint leaves all ancestors at the raised maximum, although it stops early |
| `RbTrees.RbTree.InsertHinted` | test-drm-mm/drm_mm.c:167-213 | starting below the node in front of the hole gives a valid tree with the order, keys, values and leftmost node of the generic insert |
| `RbTrees.SameDescent` | test-drm-mm/drm_mm.c:167-213 | on two trees with the same contents, the hinted search and the one from the root end at the same link with the same leftmost flag, and leave the same maxima in all ancestors |
| `RbLinking.SameSlot` | test-drm-mm/drm_mm.c:187-209 | the two NULL links reached with the same key are one, which `SameDescent` rests on |
| `RbLinking.SameUpdates` | test-drm-mm/linux/interval_tree_generic.h:38-63 | the maxima after raising the path to a link are determined, which `SameDescent` rests on |
| `RbLinking.SlotUnique` | test-drm-mm/drm_mm.c:187-209 | the number of nodes before it determines a NULL link |
| `RbTrees.RbTree.ReplaceNode` | test-drm-mm/linux/rbtree.h:152-159 | the new node takes the old one's place in the order, with its key, maximum and leftmost role |
| `RbTrees.RbTree.Erase` | test-drm-mm/linux/rbtree.h:144-150 | exactly the erased node disappears from the order; tree, leftmost cache and maxima stay valid |
| `IntervalTrees.SubtreeSearch` | test-drm-mm/linux/interval_tree_generic.h:80-116 | the pruned search of a subtree finds what a linear scan finds first |
| `IntervalTrees.IterFirst` | test-drm-mm/linux/interval_tree_generic.h:118-149 | the first interval in start order that meets the query, or NULL if none does |
| `IntervalTrees.IterNext` | test-drm-mm/linux/interval_tree_generic.h:151-187 | the next intersecting interval behind a hit |
| `IntervalTrees.AllMatches` | test-drm-mm/linux/interval_tree_generic.h:71-187 | first and then repeated next list every intersecting interval exactly once, in start order |
| `LinkedLists.LinkedList.Add` | test-drm-mm/linux/list.h:56-80 | the entry stands behind the given one, the ring is intact |
| `LinkedLists.LinkedList.DelEntry` | test-drm-mm/linux/list.h:103-135 | the entry leaves the ring and keeps its own links |
| `LinkedLists.LinkedList.Del` | test-drm-mm/linux/list.h:137-142 | the entry leaves the ring and its own links are poisoned |
| `LinkedLists.LinkedList.Replace` | test-drm-mm/linux/list.h:151-158 | the new entry takes the place of the old one |
| `LinkedLists.RelinkExact` | test-drm-mm/drm_mm.c:825-838 | unlinking an entry and adding it behind the neighbour it still points to restores every pointer |
| `LinkedLists.RelinkLast` | test-drm-mm/drm_mm.c:835-838 | in reverse order the scan's order assertion holds at each step |
| `LinkedLists.RelinkAllRestores` | test-drm-mm/drm_mm.c:801-804 | any entries unlinked and put back in exactly the reverse order leave all next and prev pointers as they were |
| `MmTiling.HolesApart` | test-drm-mm/drm/drm_mm.h:294-319 | between two holes lies a block |
| `MmTiling.CoveredExactly` | test-drm-mm/drm_mm.c:963-979 | block and hole sizes of every prefix of the chain add up to its extent |
| `Gaps.UsedAndFree` | test-drm-mm/drm_mm.c:963-979 | in every state used and free bytes add up to the managed range |
| `RangeAllocator.DrmMm.constructor` | test-drm-mm/drm_mm.c:907-927 | a fresh allocator has one hole that spans the range, in all indexes |
| `RangeAllocator.DrmMm.AddHole` | test-drm-mm/drm_mm.c:237-270 | the hole behind a node gets its size and enters both trees and the top of the hole stack; in the size tree it stands behind all holes that are at least as large |
| `RangeAllocator.DrmMm.RmHole` | test-drm-mm/drm_mm.c:272-282 | the hole leaves both trees and the stack |
| `RangeAllocator.DrmMm.PlaceInterval` | test-drm-mm/drm_mm.c:167-213 | the interval tree lists the blocks, the new one included, in address order |
| `RangeAllocator.DrmMm.Place` | test-drm-mm/drm_mm.c:540-557 | carving a block out of a hole keeps the tiling and all indexes; the hole behind the new block, if any, tops the stack, the one in front of it comes next, and both stand behind all older holes that are at least as large |
| `RangeAllocator.DrmMm.RemoveNode` | test-drm-mm/drm_mm.c:572-592 | removing a block merges it with the holes around it into one, which tops the hole stack and stands behind all holes at least as large; tiling and indexes are kept |
| `RangeAllocator.DrmMm.ReplaceNode` | test-drm-mm/drm_mm.c:604-627 | the new node takes over the old one's place in the tiling, the hole stack and all trees |
| `HoleSearch.SizeOrder` | test-drm-mm/drm_mm.c:237-256 | the size tree lists exactly the holes in descending size, and its cached leftmost is the largest |
| `HoleSearch.RecentOrder` | test-drm-mm/drm_mm.c:237-269 | of two holes of one size, the one further back in the size tree is the more recent one on the hole stack |
| `HoleSearch.AddrOrder` | test-drm-mm/drm_mm.c:267 | the address tree lists exactly the holes in ascending order |
| `HoleSearch.AddrApart` | test-drm-mm/drm_mm.c:220-235 | consecutive holes of the address tree do not touch |
| `HoleSearch.StackOrder` | test-drm-mm/drm_mm.c:269 | the hole stack holds exactly the holes, each once |
| `HoleSearch.BestHole` | test-drm-mm/drm_mm.c:299-317 | the last hole in descending order that has the size, or NULL |
| `HoleSearch.FindHole` | test-drm-mm/drm_mm.c:319-339 | a hole such that lower ones end below the address and higher ones start above it, which need not contain the address |
| `HoleSearch.TryExact` | test-drm-mm/drm_mm.c:502-538 | the loop body accepts a hole iff some aligned placement fits, and picks the outermost one |
| `HoleSearch.FirstSkips` | test-drm-mm/drm_mm.c:341-362 | no hole that first_hole skips suits the request, in any mode |
| `HoleSearch.FirstHole` | test-drm-mm/drm_mm.c:341-362 | the first candidate of the mode, or NULL only if no hole suits |
| `HoleSearch.NextHole` | test-drm-mm/drm_mm.c:364-384 | the neighbour in the direction of the mode, or NULL at the end |
| `Insertion.LargestHole` | test-drm-mm/drm_mm.c:443-481 | the constant-time look at the cached leftmost node gives the largest hole size |
| `Insertion.OutOfRange` | test-drm-mm/drm_mm.c:499-503 | once a search by address leaves the range, no remaining hole suits |
| `Insertion.PreferredHole` | test-drm-mm/drm_mm.c:299-384 | BEST takes the last suitable hole of the size tree, which is the most recent of the smallest ones; LOW the lowest start of all, HIGH the highest, EVICT the most recent suitable hole |
| `Insertion.SelectHole` | test-drm-mm/drm_mm.c:475-538 | the search fails iff the size is 0 or no hole suits, and otherwise returns the preferred hole and start; with the ONCE flag only the first candidate is looked at |
| `Insertion.InsertNodeInRange` | test-drm-mm/drm_mm.c:464-561 | -ENOSPC leaves everything unchanged and occurs iff the request is empty or no aligned placement in range and allocator is clear of all blocks; otherwise the block stands at the preferred start and the allocator is valid |
| `Insertion.ReserveNode` | test-drm-mm/drm_mm.c:400-440 | succeeds iff the block is not empty, does not wrap, lies in the managed range and meets no other block; then it is placed there |
| `Insertion.NotCovered` | test-drm-mm/drm_mm.c:412-423 | the neighbour that find_hole may return decides for all holes |
| `Gaps.GapOf` | test-drm-mm/drm/drm_mm.h:316-319 | an interval clear of all blocks lies in one gap |
| `Gaps.OpensIffSuits` | test-drm-mm/drm_mm.c:499-538 | a free aligned placement exists in the range iff some hole suits |
| `Gaps.VacantInHole` | test-drm-mm/drm_mm.c:412-423 | a range inside the allocator that meets no block lies in one hole, and the other way round |
| `Gaps.OverlapsBytes` | test-drm-mm/drm_mm.c:840-841 | the comparison of ends says whether block and range have a byte in common |
| `Gaps.WithoutAllTiled` | test-drm-mm/drm_mm.c:739-749 | taking blocks off the node list leaves a tiling with wider gaps |
| `NodeRange.IntervalFirst` | test-drm-mm/drm_mm.c:158-164 | the lowest block that meets the query, or the head node if none does |
| `NodeRange.NodesInRange` | test-drm-mm/drm/drm_mm.h:482-502 | the range iterator visits exactly the blocks that meet the range, in order; of an empty range, those that straddle it |
| `NodeRange.RangeWalkStops` | test-drm-mm/drm/drm_mm.h:491-498 | some node of the ring stops the iterator iff the range ends inside the allocator |
| `EvictionScan.Scan.constructor` | test-drm-mm/drm_mm.c:680-710 | a scan starts without a hit and with the full node list |
| `EvictionScan.GapHit` | test-drm-mm/drm_mm.c:756-790 | a placement in the gap that opens is free once the scanned blocks are gone, and none nearer to the preferred end can be reached without crossing a block |
| `EvictionScan.GapMiss` | test-drm-mm/drm_mm.c:756-783 | if that gap admits nothing, scanning the block frees no placement anywhere |
| `EvictionScan.Scan.AddBlock` | test-drm-mm/drm_mm.c:724-793 | the block is unlinked; true comes with a hit inside the gap that this opens between its neighbours on the node list, false means that no new placement has become free; all assertions hold |
| `EvictionScan.Scan.RemoveBlock` | test-drm-mm/drm_mm.c:815-842 | in reverse order the links are restored and the order assertion holds; true iff there is a hit and the block overlaps it |
| `EvictionScan.Scan.Finished` | test-drm-mm/drm_mm.c:827-838 | when all blocks are back, the allocator and its links are as before the scan |
| `Eviction.EvictStep` | test-drm-mm/drm_mm.c:840-841 | removing a selected block keeps the hit a hit |
| `Eviction.TopCovers` | test-drm-mm/drm_mm.c:572-592 | when the last overlapping block is removed, the hole it leaves covers the hit |
| `Eviction.EvictLands` | test-drm-mm/drm_mm.c:805-809 | with the hit on top of the hole stack, an EVICT insertion of the same size and alignment takes the hit's hole at its lowest start: exactly the start of the hit unless the scan allocated from the top, and in general iff the hit is less than one alignment step above the start of hole and range |
| `Eviction.HighScanMisses` | test-drm-mm/drm_mm.c:515-516 | a scan from the top whose hit the EVICT insertion does not take |
| `Eviction.BestLands` | test-drm-mm/drm/drm_mm.h:69-77 | seen from the blocks alone, BEST mode takes the lowest start of a gap, and no placement lies in a shorter gap |
| `Eviction.BestNewest` | test-drm-mm/drm_mm.c:299-317 | BEST mode takes the most recent of the smallest holes that suit |
| `CmaBuffers.OutChange` | test-drm-mm/main.c:89-111 | paging one buffer in or out changes the paged-out total by its size |
| `CmaBuffers.OutWithout` | test-drm-mm/main.c:99-110 | any buffer contributes its size to the total iff it is paged out |
| `CmaBuffers.CanFitEvicted` | test-drm-mm/main.c:227-260 | paging out idle buffers does not change what can be made to fit |
| `Sequences.LastFirstPrefix` | test-drm-mm/main.c:147-160 | walking the MRU list from its tail collects prefixes of the idle buffers, least recently used first |
| `Sequences.LastFirstOrder` | test-drm-mm/main.c:147-160 | the buffers so collected are in the reverse order of the MRU list |
| `CmaPools.CmaPool.RemoveFromPool` | test-drm-mm/main.c:89-97 | the buffer leaves allocator and MRU list and counts as overflow; its hole is the most recent one |
| `CmaPools.CmaPool.FreeBuffer` | test-drm-mm/main.c:99-110 | the buffer disappears from both lists, the pool and the count; no other buffer moves |
| `CmaPools.CmaPool.FreeBuffers` | test-drm-mm/main.c:112-122 | afterwards one hole spans the pool and overflow is zero |
| `CmaPools.CmaPool.InsertInPool` | test-drm-mm/main.c:203-225 | succeeds iff some hole suits; the buffer then heads the MRU list at the preferred, page-aligned start |
| `CmaPools.CmaPool.Purge` | test-drm-mm/main.c:187-201 | pages out exactly the buffers marked as not needed that are neither in use nor unmoveable, for arbitrary marks; the others keep place and order |
| `CmaPools.CmaPool.ScanIdle` | test-drm-mm/main.c:147-160 | buffers that are neither in use nor unmoveable join the scan from the LRU end, none being skipped; if no gap existed before, no shorter prefix opens one; without a hit all of them have joined |
| `CmaPools.CmaPool.RestoreAll` | test-drm-mm/main.c:161-167 | without a hit every removal returns false and every link is restored |
| `CmaPools.CmaPool.KeepOverlapping` | test-drm-mm/main.c:169-178 | the eviction list keeps exactly the scanned buffers that overlap the hit |
| `CmaPools.CmaPool.EvictAll` | test-drm-mm/main.c:180-182 | evicting them leaves the hit free, in the hole on top of the stack |
| `CmaPools.CmaPool.PageOut` | test-drm-mm/main.c:124-185 | finds a hit at the shortest LRU prefix of idle buffers that opens a gap and evicts its members that overlap the hit; fails only if all of them together do not suffice, and then changes nothing; a buffer in use or unmoveable keeps its place |
| `CmaPools.CmaPool.PageOutAndInsert` | test-drm-mm/main.c:250-253 | once the scan finds a hit the EVICT insertion succeeds, exactly at the hit; the victims are those members of the shortest LRU prefix opening a gap that overlap it, and without a hit nothing leaves |
| `CmaPools.CmaPool.PageIn` | test-drm-mm/main.c:227-260 | succeeds iff some page-aligned stretch of the pool is clear of all paged-in buffers that are in use or unmoveable, and touches none of those. A gap that exists, before or after the purge, is taken as BEST mode does; otherwise the buffer lands at a hit opened by the shortest LRU prefix of the others, and exactly its members that overlap the hit leave. The buffers that stay keep place and order |
| `CmaPools.CmaPool.FindBuffer` | test-drm-mm/main.c:59-71 | the buffer of that name, or NULL if none has it |
| `CmaPools.CmaPool.Create` | test-drm-mm/main.c:337-388 | a known name changes nothing; a new buffer becomes known and is paged in as `PageIn` says |
| `CmaPools.CmaPool.Destroy` | test-drm-mm/main.c:276-289 | the name is unknown afterwards, no other buffer moves or changes, and the hole that is left is the most recent one |
| `CmaPools.CmaPool.Use` | test-drm-mm/main.c:390-409 | a paged-in buffer moves to the head of the MRU list and nothing else changes; another one is paged in as `PageIn` says |
| `CmaPools.CmaPool.AddUsecnt` | test-drm-mm/main.c:291-312 | exactly the in-use flag of that buffer is set |
| `CmaPools.CmaPool.RemoveUsecnt` | test-drm-mm/main.c:314-335 | exactly the in-use flag of that buffer is cleared |
| `CmaPools.CmaPool.SetMadv` | test-drm-mm/main.c:411-447 | only "willneed" is ever stored; any other argument changes nothing |
| `CmaPools.CmaPool.ProcessCommand` | test-drm-mm/main.c:449-508 | every command keeps the invariant and has its effect on buffers, MRU list, places and holes, paging in included; a buffer with the in-use or the unmoveable flag keeps its place unless it is destroyed |
| `CmaPools.CmaPool.Run` | test-drm-mm/main.c:593-605 | a run is a chain of states in which each command has its effect, with pinned buffers in place and page-ins that succeed iff they can; the invariant holds after every log, and no buffer is ever marked as not needed |
| `CmaPaging.SettledPurged` | test-drm-mm/main.c:241-253 | paging in after the purge is, seen from before it, paging in with the purged buffers counted as gone |
| `CmaPaging.FittingBeside` | test-drm-mm/main.c:147-160 | what opens without all idle buffers is a page-aligned stretch of the 128 MiB clear of the others |
| `CmaPaging.PagingKeeps` | test-drm-mm/main.c:147-160 | paging in a buffer leaves every buffer with the in-use or the unmoveable flag in its place |
| `CmaPaging.NothingPurged` | test-drm-mm/main.c:187-201 | while no buffer is marked as not needed, as in every run, the purge drops nothing |
| `CmaPools.CmaPool.Disjoint` | test-drm-mm/main.c:203-225 | paged-in buffers are disjoint, page-aligned and inside the pool |
| `CmaPools.CmaPool.OverflowExact` | test-drm-mm/main.c:89-110 | the MRU list holds exactly the paged-in buffers, and overflow is the total size of the others, each with its size; it never wraps |
| `CmaPools.RunLog` | test-drm-mm/main.c:622-646 | whatever the log, in the end one hole spans the pool and nothing is counted as overflow |
| `SimPools.SimPool.InsertBuffer` | cma-pool-log.py:88-108 | first fit takes the lowest address with enough room, and fails iff there is none |
| `SimPools.SimPool.RemoveFromPool` | cma-pool-log.py:59-63 | the buffer leaves both lists and counts as overflow |
| `SimPools.SimPool.PageOutLru` | cma-pool-log.py:65-76 | the buffer that leaves is neither in use nor unmoveable, and all buffers used less recently are one or the other; failure means that all buffers are |
| `SimPools.SimPool.Purge` | cma-pool-log.py:78-86 | drops exactly the placed buffers that are marked "dontneed" and neither in use nor unmoveable; without such marks it changes nothing |
| `SimPools.SimPool.PageIn` | cma-pool-log.py:110-126 | ends; after the purge evicts idle buffers strictly in LRU order and no more than needed, takes the lowest address that is then free, and raises iff no address is clear of all placed buffers that are in use or unmoveable, which it never touches |
| `SimPools.NothingPurged` | cma-pool-log.py:78-86 | while no buffer is marked "dontneed", paging in purges nothing |
| `SimPools.SimPool.CompactBuffer` | cma-pool-log.py:128-138 | moves only that buffer, down until another buffer ends right below it or the pool starts, be it unmoveable or not |
| `SimPools.SimPool.Disjoint` | cma-pool-log.py:88-108 | placed buffers are disjoint and inside the pool |
| `SimPools.SimPool.OverflowExact` | cma-pool-log.py:59-63 | overflow is the total size of the buffers without an offset, and the MRU list holds the others |
| `SimPools.SimPool.Destroy` | cma-pool-log.py:140-151 | the buffer is forgotten; an unknown id raises and changes nothing |
| `SimPools.SimPool.AddUsecnt` | cma-pool-log.py:153-158 | sets the flag, or raises for an unknown or used buffer |
| `SimPools.SimPool.RemoveUsecnt` | cma-pool-log.py:160-168 | clears the flag; with compaction no free byte is left right below the buffer and the order of the offsets is unchanged, so that an unmoveable one keeps its offset iff it was at the end of its lower neighbour already; a buffer without an offset raises after the flag is cleared |
| `SimPools.UnmoveableMoves` | cma-pool-log.py:128-138 | five commands after which an unmoveable buffer has moved |
| `SimPools.SimPool.Create` | cma-pool-log.py:170-177 | a new buffer is paged in as `PageIn` says: lowest address, shortest LRU prefix, raising iff it cannot fit |
| `SimPools.SimPool.Use` | cma-pool-log.py:179-191 | a placed buffer moves to the head of the MRU list; another one is paged in as `PageIn` says |
| `SimPools.SimPool.SetMadv` | cma-pool-log.py:193-194 | stores any mark |
| `Sequences.LastFirstWithout` | cma-pool-log.py:65-76 | paging out a buffer leaves the LRU order of the other idle ones |

## Left out

- The colour callback (`color_adjust`, drm_mm_scan_color_evict): it is NULL in this build, and colours have no effect then.
- RCU variants, `WRITE_ONCE` ordering and lockless lookups: the program has one thread.
- The postorder walk, `rb_last`, and the list helpers that neither the allocator nor the pool calls.
- The cached leftmost node of the address tree, which the original does not have: the model's tree class always keeps one.
- drm_mm_takedown and the debug output: for a clean allocator they do nothing.
- Parsing of logs and arguments, error messages and the JSON dump: commands are values; sizes other than
  1 to 128 MiB (C) or 0 (Python), on which the programs assert or misbehave, are excluded.
- The drawing, the video output and `ProcPool` of `cma-pool-log.py`.
- Intrusive lists of buffers in main.c: the pools keep them as sequences, which does not capture the pointer updates;
  those of linux/list.h are covered by `LinkedList`.
- The dispatch of the Python commands by name: each command is a method of its own.
- The order of the hole stack after a command of main.c that purges or evicts: `RemoveNode` and `Place` fix it for each
  step, the chain of states in `Run` only for the commands that do neither.
- Python object identity: two buffer objects with equal attributes are told apart by their ids.
