# Tiered oblivious map: a verified model

This project models a tiered oblivious map: a key-value store whose data, and whose two search
trees, live in ORAMs, so that every block moves on every access while each layer must go on
behaving like a plain map. It proves, layer by layer, that it does. A class stands for each
object of the program that changes in place, and every layer is proved against the contract of
the layer below, down to the buckets of the storage tree:

| layer | files | what the layer refines |
|---|---|---|
| bucket tree, stash, greedy eviction | `Geometry`, `StashTree` | a map from keys to blocks, each block once, on its own path |
| Path ORAM with a position map | `PathOram` | a map |
| de-amortised recursive ORAM | `Counters`, `DaLedger`, `DaOram` | an array; positions come from counters alone |
| AVL tree, functional reference | `AvlTree`, `AvlHeight`, `AvlSearch` (first half) | a map; order, balance, heights |
| AVL map over an ORAM | `AvlLocal`, `AvlRep`, `AvlZip`, `AvlClimb`, `AvlDescend`, `AvlUnlink`, `AvlShrink`, `AvlFlush`, `AvlAttach`, `AvlRemoval`, `AvlInit`, `AvlSteps`, `AvlOmap` | the functional AVL tree |
| many AVL trees in one ORAM | `Grove`, `Forest` | one map |
| AVL map split between two ORAMs, for lookups | `AvlSplit` | a map; each ORAM sees a fixed number of fetches |
| step machine of the split AVL map | `AvlStep` | its search, one path fetch a round |
| tiered map with fixed tiers | `StaticOmap` | a map, step after step or with all stores' rounds interleaved |
| epochs, phases, cache | `Maintenance` | the access history |
| tiered map with migrating keys | `TieredParts`, `TieredData`, `TieredOmap` | a map; each key's reference in one place |
| branch-free words, compaction | `Oblivious`, `Compaction` | ordinary selection and a stable partition |
| enclave ORAM | `EnclaveSlots`, `EnclaveOram` | a map from keys to blocks |
| B+ tree map | `BPlusNode`, `BPlusTree`, `BPlusRep`, `BPlusBuild`, `BPlusOmap` | a map; nodes and their bytes, order, leaf level, pointers |
| enclave AVL map, branch-free | `TeeList`, `TeeBalance`, `TeeFlush`, `TeeUnlink`, `TeeReach`, `TeeCalm`, `TeeAvl`, `TeeRun` | the same trees, paths and map operations as the AVL map |
| enclave directory and tiered map | `PackedDirectory`, `TeeOmap` | a map; directory and hot ORAM in step |

How the pieces fit together. `AvlRep.Rep` says that a functional tree is stored partly in the
client's flat `local` list and partly in ORAM blocks, with every child key, leaf and height
right except for the leaves of children that are in the list. `AvlZip.Zip` says the same of a
root path (a zipper) and the subtree at its end. Each list operation of the program is proved
to be one step of the functional tree under these relations, and whole operations to be
`Inserted`, `Removed`, `Lookup` and `Update` of the functional tree, which in turn are proved
to be the map operations. The tiered map is built from two such AVL maps, a Path ORAM and the
maintenance manager, not from abstract maps. The enclave's AVL map works on a list padded with
dummy entries; `TeeLists.Reals` and `TeeLists.Slots` say which nodes such a list really holds, and
the same relations `Rep` and `Zip` then tie it to the same functional trees.

Conventions. Random leaves are arbitrary values in range. The keyed function that places blocks
is an arbitrary function into the leaf range. Encryption is the identity. A stash overflow is a
failed result; an operation that fails so is proved to fail only when some stash really holds
more than its limit (`Overfull`), and nothing is claimed about the object afterwards, because
the program leaves it unusable. `fetches`, `opCount` and `nodeAccesses` count path fetches and
node accesses as an observer of the storage sees them.

What the code does that its documentation does not say:

- `maintenance.h` says that the three maintenance phases collapse for a swap interval below 3.
  They never coincide; instead the cold phase (and for interval 1 the hot phase too) never
  comes up. A promotion begun by an access (`TieredOmap.Access` says when one begins) then stays
  pending for ever, and no key changes its tier any more, whatever is accessed; from interval 3
  on (2 for a swap into the hot index) `swap_interval` accesses always end it
  (`TieredOmap.AccessAll`, `TieredOmap.StuckIntervals`).
- The enclave's AVL map takes `max_height_` steps down and no more. A search finds every key iff
  the tree is no higher than that (`TeeReach.ReachExact`). An insertion whose place is deeper than
  `max_height_` returns normally and changes nothing. At depth `max_height_` exactly the key enters
  the map, but whether it is ever found depends on where the rotations leave it: an inserted key is
  found afterwards iff its depth in the new tree is below `max_height_`
  (`TeeAvl.InsertThenSearch`). After a load of 2^max_height - 1 keys the next key enters the map and
  is not found (`TeeAvl.LoadToReach`; `TeeReach.SevenKeysTwoSteps` is the smallest such tree); after
  a load of one level more every insertion is dropped (`TeeAvl.LoadBeyondReach`). What a caller can
  check: all AVL trees of n entries are within reach of h steps iff n < fib(h + 3) - 1
  (`TeeReach.ReachSizeExact`, `TeeAvl.InReach`).
- The enclave's removal rebalances only with nodes that it has fetched. On a balanced tree it
  therefore never rotates at all: it is the plain deletion (`TeeAvl.Remove`, `TeeReach.IdleTwo`),
  which can leave the tree unbalanced (`TeeReach.DeletionUnbalances`).
- Because of that, a map can outgrow its height limit while it never holds more keys than its
  capacity. Insertions and removals can be mixed so that no insertion rotates, and 1 + h (h + 1) / 2
  keys at a time are enough to raise an empty tree to more than h levels (`TeeRuns.OutgrowReach`):
  a key of the map is then not found any more. Every capacity of at least 37 leaves room for that
  below the height that the program computes from it (`TeeRuns.CapacityIsEnough`). A run whose
  insertions are no more than the levels that are left is safe, whatever it removes
  (`TeeRuns.Run`).
- A split AVL map writes a node back to the ORAM of the depth at which it was fetched. A rotation
  therefore leaves a node where no search looks for it iff it, or a subtree that moves with it,
  crosses the split (`AvlSplits.RotatedLayers`). Lookups and updates, made at once or in rounds, are
  right for every split (`SplitAvl.Search`, `StaticOmap.InterleavedAccess`).
- The constant 1.44 in `max_height_` is enough for every capacity that fits an `int`
  (`AvlHeights.LimitSuffices`).
- A B+ tree that is loaded with more entries than order - 1 (or order * (order - 1) in index mode)
  times order^(max_height - 1) is too high: every search then fails and every insertion is dropped,
  without an error (`BPlusOmap.Init`, `Search`, `Insert`). The limit that the program computes from
  the capacity is always enough (`BPlusOmaps.HeightLimit`). In index mode `search` ignores an update.
- When the root of a B+ tree is a full leaf, `insert` splits it below a new root, and then moves
  both halves without telling the new root. The map is intact afterwards iff both halves happen to
  come to the leaves that the new root names (`BPlusOmap.Insert`, `ChildrenThere`).
- The DA-ORAM constructor does not end if `num_ic` is 1 and there are more keys than
  `on_chip_mem`, or if `on_chip_mem` is 0 and there is a key at all (`DaOrams.NeverFits`); in all
  other cases it does (`DaOrams.LevelSizes`).
- `packed_directory.h` says that the demotion scan looks at the entry at the scan position; it
  takes the first demotable entry from there on, around the whole array
  (`PackedDirectory.FindDemoteCandidate`).
- The de-amortised reset is safe exactly when the own counters last until all siblings have been
  caught up, or can never overflow the byte that holds them: `max(ic_max, 1) >= m - 1` or
  `ic_max > 256` for `m` managed slots (`Counters.ResetBoundExact`; a run that breaks it is
  `Counters.HammerRun`, and `Counters.LateTwiceIsLost` says what then happens).
- `o_less`, `o_max` and `o_min` are right exactly when the difference fits a 32-bit word
  (`Oblivious.OLessExact`).
- `DAOram::access` on a key without a block moves the counters before it notices, so the object
  is promised valid only after a success.
- `AVLOmap::init` with no data does not reset the ORAM: old blocks stay behind
  (`AvlOmap.Init` states what is left in `Foreign`).
- `TieredOMap::access` returns the new value, not the old one, when it writes under maintenance or
  with interleaved rounds, and the old one when it writes step after step without maintenance. The
  two ways of making the same access without maintenance leave the same map, but answer
  differently exactly when a key's value is really changed (`StaticOmaps.AnswersDiffer`).

## Model

| member | source | states |
|---|---|---|
| Geometry.PathNodesMember | src/oram/binary_tree_storage.cpp:36-62 | a node is on the merged paths of several leaves iff it is on the path of one of them |
| Geometry.UpReachesRoot | src/oram/binary_tree_storage.cpp:36-47 | from any leaf node, `level` - 1 parent steps visit `level` different nodes, all the ancestors, and end at the root |
| StashTrees.MergedPathIndices | src/oram/binary_tree_storage.cpp:49-62 | the index walk collects exactly the union of the root paths |
| StashTrees.FillBlockToPath | src/oram/binary_tree_storage.cpp:106-141 | a block goes to the deepest fetched bucket on its own path that has room; it is refused only if every such bucket is full |
| StashTrees.FillPaths | src/oram/path_oram.cpp:161-191 | greedy eviction keeps the multiset of blocks, bucket capacity and own paths, and no block left over could go anywhere |
| StashTrees.ReadSplits | src/oram/binary_tree_storage.cpp:91-98 | the blocks of the tree are those on the fetched paths plus those off them |
| StashTrees.WriteJoins | src/oram/binary_tree_storage.cpp:100-104 | writing paths back replaces exactly the blocks of those paths |
| StashTrees.StashTree.BlockIsOnItsPath | src/oram/path_oram.cpp:111-124 | each key's block is in the stash or in a bucket on the path of its leaf, and it is the only block of its key |
| StashTrees.StashTree.FillDataToLeaf | src/oram/binary_tree_storage.cpp:64-74 | a bulk-loaded block goes to the deepest bucket with room on its path, or nowhere if the path is full |
| StashTrees.StashTree.BulkLoad | src/oram/binary_tree_storage.cpp:23-34 | bulk loading reports exactly the keys it placed, each with its own block |
| StashTrees.StashTree.ReadPaths | src/oram/path_oram.cpp:111-124 | fetching paths brings every block of those leaves into the stash and changes no logical content |
| StashTrees.StashTree.ExtractFromStash | src/oram/path_oram.cpp:241-273 | takes the one block of a key out of the stash, or reports that it is not there |
| StashTrees.StashTree.EvictStash | src/oram/path_oram.cpp:205-232 | fails iff the stash is too full; otherwise loses and duplicates nothing, keeps every placement rule, touches no other bucket and is maximal |
| PathOrams.PathOram.Init | src/oram/path_oram.cpp:24-50 | the contents become the given data, whatever the ORAM held before |
| PathOrams.PathOram.Access | src/oram/path_oram.cpp:52-81 | map read and optional write; unknown keys fail; one path fetch; fails otherwise only on a full stash |
| PathOrams.PathOram.DummyAccess | src/oram/path_oram.cpp:83-95 | one path fetch that changes no content |
| Counters.StepKeepsOthers | src/oram/da_oram.cpp:99-149 | a safe update-and-reset step leaves the position of every slot but the accessed and the caught-up one |
| Counters.StepFindsLate | src/oram/da_oram.cpp:130-149 | the slot to be caught up is still where its old counters place it |
| Counters.LateTwiceIsLost | src/oram/da_oram.cpp:99-128 | an overflow while a sibling is late leaves that sibling's block where the counters no longer point |
| Counters.StepKeepsBound | src/oram/da_oram.cpp:99-149 | every step of a spacious group keeps the counting invariant on late siblings and own counters |
| Counters.BoundedRun | src/oram/da_oram.cpp:99-149 | in a spacious group no step of any run of accesses is unsafe |
| Counters.HammerRun | src/oram/da_oram.cpp:99-149 | in a group that is not spacious, using one slot over and over reaches an unsafe step |
| Counters.ResetBoundExact | src/oram/da_oram.cpp:99-149 | every run from fresh counters is safe iff the group is spacious, with the 8-bit and 64-bit wrap-arounds of the counters |
| DaLedgers.GroupInRange | src/oram/da_oram.cpp:208-294 | every key below the size of its layer has a group in range and a managed slot in it |
| DaLedgers.LedgerStep | src/oram/da_oram.cpp:235-274 | one counter step of a layer moves only the target's and the late block's position, and says where each is and goes |
| DaLedgers.RelocatedTracks | src/oram/da_oram.cpp:235-294 | after both blocks have been moved, every block is again where the counters place it |
| DaOrams.UpdateCounterIn | src/oram/da_oram.cpp:99-128 | returns the leaf where the block is and the leaf where the new counters place it |
| DaOrams.PerformResetIn | src/oram/da_oram.cpp:130-149 | catches up the first late managed slot and no other; without one, yields a random path |
| DaOrams.LevelSizes | src/oram/da_oram.cpp:54-76 | terminates unless the next row's condition holds; each layer has one block per group of the layer below, and the top fits the client memory |
| DaOrams.NeverFits | src/oram/da_oram.cpp:54-63 | groups of one, or no client memory, with more keys than fit: after any number of layers the exit test still fails |
| DaOrams.DaOram.constructor | src/oram/da_oram.cpp:36-79 | builds all layers; the client keeps at most the allowed number of counter blocks |
| DaOrams.DaOram.Init | src/oram/da_oram.cpp:153-204 | the contents become the given data and every layer's blocks are where fresh counters place them |
| DaOrams.DaOram.BlockIsWhereCountersSay | src/oram/da_oram.cpp:311-330 | no position is stored: the block of a key is in the stash or on the path computed from its counters |
| DaOrams.DaOram.StepLevel | src/oram/da_oram.cpp:235-294 | a layer finds the wanted counter block, steps it, moves it and the late block, and is consistent again |
| DaOrams.DaOram.Traverse | src/oram/da_oram.cpp:208-294 | walking all layers reaches the data layer with the right current and next leaf, one fetch per layer |
| DaOrams.DaOram.Access | src/oram/da_oram.cpp:311-351 | array read and optional write; the one other failure than a full stash is a key without a block |
| DaOrams.DaOram.DummyAccess | src/oram/da_oram.cpp:353-377 | the same number of fetches on every layer with no logical effect |
| AvlTrees.RotationKeeps | src/omap/avl_omap.cpp:703-764 | a rotation keeps entries and order |
| AvlTrees.RebalanceBalances | src/omap/avl_omap.cpp:766-790 | one single or double rotation repairs a tilt of two, and what it does to the height |
| AvlTrees.InsertContents | src/omap/avl_omap.cpp:376-449 | reference insertion is map insertion and keeps order |
| AvlTrees.InsertBalanced | src/omap/avl_omap.cpp:376-449 | reference insertion keeps balance and grows the height by at most one |
| AvlTrees.RemoveContents | src/omap/avl_omap.cpp:453-687 | reference removal, two children included, is map removal and keeps order |
| AvlTrees.RemoveBalanced | src/omap/avl_omap.cpp:453-687 | reference removal keeps balance and shrinks the height by at most one |
| AvlTrees.BalancedIsBushy | src/omap/avl_omap.cpp:36-42 | a balanced tree of height h has at least fib(h + 2) - 1 nodes |
| AvlTrees.BalancedHeight | src/omap/avl_omap.cpp:36-42 | fewer than fib(h + 3) - 1 entries fit in height h, so a traversal ends within `max_height_` |
| AvlHeights.LimitSuffices | src/omap/avl_omap.cpp:36-42 | the least height of at least 1.44 * log2(capacity) is enough for a balanced tree of that size, for every capacity below 2^31 |
| AvlLocal.UpdateHeights | src/omap/avl_omap.cpp:691-701 | the nested scans refresh every node from its loaded children, last first |
| AvlLocal.Rotate | src/omap/avl_omap.cpp:703-764 | the scan by key rewrites exactly node, pivot, parent and inner child, or nothing if the pivot is not loaded |
| AvlRep.RotatedLeft | src/omap/avl_omap.cpp:703-764 | a left rotation in the list is a left rotation of the represented tree, keys, heights and leaves included |
| AvlRep.RotatedRight | src/omap/avl_omap.cpp:703-764 | the same for a right rotation |
| AvlRep.BalanceNode | src/omap/avl_omap.cpp:766-790 | balancing a loaded node is one rebalancing step of the represented tree and nothing else changes |
| AvlZip.ZipRefresh | src/omap/avl_omap.cpp:691-701 | after updating heights the lowest path node represents the joined subtree with exact heights |
| AvlClimb.RebalanceAll | src/omap/avl_omap.cpp:792-798 | the rebalancing loop turns the path to a new node into the reference insertion; all pivots it needs are in the list |
| AvlDescend.ZipDescend | src/omap/avl_omap.cpp:198-213 | fetching a child along the stored leaf extends the represented path by that node |
| AvlUnlink.DeleteTarget | src/omap/avl_omap.cpp:521-589 | the pointer surgery, with or without taking over the successor's entry, rewrites the path as specified |
| AvlShrink.RemoveTwoChild | src/omap/avl_omap.cpp:476-589 | removing a node with two children is climbing from its unlinked successor, the successor's entry in its place |
| AvlShrink.ZipDropLast | src/omap/avl_omap.cpp:547-589 | unlinking the last path node in favour of its only child leaves a represented path with right leaf and height |
| AvlShrink.ZipRename | src/omap/avl_omap.cpp:521-546 | giving a path node its successor's entry keeps the path represented |
| AvlFlush.ReleaseStores | src/omap/avl_omap.cpp:244-280 | after fresh leaves have been drawn and copied to parents, writing the list back stores the whole tree with exact pointers |
| AvlSearch.LookupContents | src/omap/avl_omap.cpp:302-347 | the search path decides membership |
| AvlSearch.ZipClose | src/omap/avl_omap.cpp:302-347 | a loaded search path that was not changed in shape represents the tree as it was |
| AvlInit.BuildBalanced | src/omap/avl_omap.cpp:71-91 | the recursive construction yields the nodes of the halving tree over the sorted entries |
| AvlInit.BuiltBalanced | src/omap/avl_omap.cpp:71-91 | the halving tree is balanced, with the height of repeated halving |
| AvlInit.BuiltAssoc | src/omap/avl_omap.cpp:93-194 | the halving tree holds exactly the given entries |
| AvlInit.FixHeights | src/omap/avl_omap.cpp:93-194 | the recursive pass stores every true height |
| AvlOmaps.AvlOmap.Init | src/omap/avl_omap.cpp:93-194 | the map becomes the given entries; old blocks survive only if there are none |
| AvlOmaps.AvlOmap.ReassignLeaves | src/omap/avl_omap.cpp:252-280 | every listed node gets a fresh leaf, and parents and the root pointer learn it |
| AvlOmaps.AvlOmap.FlushLocalToStash | src/omap/avl_omap.cpp:244-250 | every listed node becomes a block again and the list is empty |
| AvlOmaps.AvlOmap.PadToBudget | src/omap/avl_omap.cpp:225-242 | dummy accesses bring the count to the budget and change no block |
| AvlOmaps.AvlOmap.Pull | src/omap/avl_omap.cpp:198-213 | one step of a descent: one fetch, the node in the list, and right pointers to both its children |
| AvlOmaps.AvlOmap.Search | src/omap/avl_omap.cpp:302-347 | map lookup with optional update of a present key; exactly 3 * `max_height_` path fetches; other trees in the ORAM unchanged |
| AvlOmaps.AvlOmap.DummyAccess | src/omap/avl_omap.cpp:349-354 | the same number of fetches, tree and contents unchanged |
| AvlOmaps.AvlOmap.Insert | src/omap/avl_omap.cpp:376-449 | map insertion of an absent key; order, balance, exact heights and leaf pointers survive; exactly 3 * `max_height_` fetches |
| AvlOmaps.AvlOmap.ClimbStep | src/omap/avl_omap.cpp:591-681 | one level of the way back costs exactly two fetches whether or not it rotates, and rebalances the focus |
| AvlOmaps.AvlOmap.FindAndUnlink | src/omap/avl_omap.cpp:455-589 | after the surgery, climbing back from the focus yields the reference removal |
| AvlOmaps.AvlOmap.Remove | src/omap/avl_omap.cpp:453-687 | map removal of any key, present or not; the invariants survive; exactly 3 * `max_height_` fetches |
| Groves.Grow | src/omap/da_ost_omap.cpp:119-182 | one halving tree per hash position over exactly the entries hashed there, in one node table |
| Groves.GroveStored | src/omap/da_ost_omap.cpp:119-182 | the blocks made from the finished table represent every tree |
| Forests.OneTreeChanged | src/omap/da_ost_omap.cpp:271-362 | blocks changed by an operation on one tree leave every other tree and root pointer right |
| Forests.Forest.Load | src/omap/da_ost_omap.cpp:119-182 | the forest refines the given data and the root cache holds every root's key and leaf |
| Forests.Forest.Search | src/omap/da_ost_omap.cpp:271-302 | map lookup and update; only the tree and root of the key's position change; fixed number of fetches |
| Forests.Forest.Insert | src/omap/da_ost_omap.cpp:304-332 | map insertion with the same frame and number of fetches |
| Forests.Forest.Remove | src/omap/da_ost_omap.cpp:334-362 | map removal with the same frame and number of fetches |
| AvlSplits.SplitAvl.Init | src/omap/avl_omap.cpp:93-194 | the map becomes the given entries, every node in the ORAM of its depth with right pointers across both |
| AvlSplits.SplitAvl.ReassignLeaves | src/omap/avl_omap.cpp:252-280 | every listed node gets a fresh leaf of the ORAM of its depth, and parents and the root pointer learn it |
| AvlSplits.SplitAvl.FlushLocalToStash | src/omap/avl_omap.cpp:244-250 | every listed node returns to the ORAM that it came from |
| AvlSplits.SplitAvl.PadToBudget | src/omap/avl_omap.cpp:225-242 | dummy accesses bring each ORAM to its share of the budget |
| AvlSplits.SplitAvl.Search | src/omap/avl_omap.cpp:302-347 | map lookup with optional update; the upper ORAM gets min(split depth, 3 * `max_height_`) fetches and the lower one all others, for every key |
| AvlSplits.SplitAvl.DummyAccess | src/omap/avl_omap.cpp:349-354 | the same fetches from either ORAM without effect |
| AvlSplits.SplitAvl.PartialDummyAccess | src/omap/avl_omap.cpp:356-371 | the upper ORAM's share and a single fetch from the lower one, without effect |
| AvlSplits.RotatedLayers | src/omap/avl_omap.cpp:703-764 | a left rotation leaves every node in the ORAM of its depth iff it and the subtrees that move with it stay on one side of the split |
| AvlSplits.RotatedRightLayers | src/omap/avl_omap.cpp:703-764 | the same for a right rotation |
| AvlSteppers.DoneWhenSpent | src/omap/avl_omap.cpp:1179-1183 | in every phase of an operation at most the budget has been used, and all of it exactly when the machine is done |
| AvlSteppers.UpperFirst | src/omap/avl_omap.cpp:867-889 | whether a round goes to the upper ORAM depends on its number alone: the first ones do, as many as the split is deep |
| AvlSteppers.Stepper.BeginSearch | src/omap/avl_omap.cpp:802-827 | a search, with or without an update, starts on the way down, or with padding alone if the map is empty |
| AvlSteppers.Stepper.BeginPartialDummy | src/omap/avl_omap.cpp:845-865 | a dummy operation of one round more than the split is deep, or of the full budget if the map is not split |
| AvlSteppers.Stepper.NextRound | src/omap/avl_omap.cpp:867-889 | the next path is that of the node pointed at, in the ORAM that holds it, or any path once padding |
| AvlSteppers.Stepper.Process | src/omap/avl_omap.cpp:964-1031 | a round adds the fetched node to the represented path, or ends the descent with the right answer, the update in the found node and all nodes back in the stash of their ORAM, or pads; it uses one unit of the budget |
| AvlSteppers.Stepper.PrepareWrites | src/omap/avl_omap.cpp:937-962 | the path of the round is written back without logical effect |
| AvlSteppers.Stepper.Finish | src/omap/avl_omap.cpp:1185-1188 | afterwards the map is valid again, updated iff a value was given and the key is there, the answer is that of the map before, and each ORAM has had its share of the rounds |
| StaticOmaps.StaticOmap.Load | src/tiered_omap.cpp:48-130 | the map becomes the data, each reference in its tier's index |
| StaticOmaps.StaticOmap.Access | src/tiered_omap.cpp:493-512 | made step after step: map lookup and update, answering the value before |
| StaticOmaps.AnswersDiffer | src/tiered_omap.cpp:892-909 | the interleaved answer differs from the step-by-step one iff the value of a key is really changed |
| StaticOmaps.StaticOmap.Round | src/tiered_omap.cpp:847-1033 | one round trip keeps both machines, the data store and the client's state on schedule |
| StaticOmaps.StaticOmap.RunRounds | src/tiered_omap.cpp:847-1033 | the loop ends after exactly max(Bs + 1 + [full], Bd) rounds, for a search of Bs and a dummy of Bd rounds |
| StaticOmaps.StaticOmap.InterleavedAccess | src/tiered_omap.cpp:742-1079 | the same map update as step after step, the value after it as the answer, in round Bs + 1 of max(Bs + 1 + [full], Bd), where Bd is the split depth + 1 for a partial dummy on a split index |
| Maintenance.AccessedMetaExact | include/tiered_omap/maintenance.h:29-40 | right after an access `cnt` is the number of accesses in this epoch and `fp` that of the previous one, for any history |
| Maintenance.OtherMetaExact | include/tiered_omap/maintenance.h:29-40 | accesses to other keys do not make the stored counts wrong |
| Maintenance.EarlierEpoch | include/tiered_omap/maintenance.h:64-71 | a positive previous count needs an earlier epoch, so nothing is promoted before epoch 1 |
| Maintenance.PhasesDiffer | include/tiered_omap/maintenance.h:134-143 | the three phases never coincide, for any interval |
| Maintenance.PhasesComeUp | include/tiered_omap/maintenance.h:134-143 | both insertion phases occur iff the interval is at least 3; below that the cold phase never occurs |
| Maintenance.PhaselessIsShort | include/tiered_omap/maintenance.h:130-143 | a stretch of accesses without a phase is shorter than the interval |
| Maintenance.MaintenanceManager.Tick | include/tiered_omap/maintenance.h:42-45 | the observed epoch is that of the access being made and never goes back |
| Maintenance.MaintenanceManager.AtMostOneDue | include/tiered_omap/maintenance.h:47-62 | at most one maintenance step is due |
| Maintenance.MaintenanceManager.ShouldPromote | include/tiered_omap/maintenance.h:64-71 | true iff some cached key is less popular |
| Maintenance.MaintenanceManager.ShouldDemoteCache | include/tiered_omap/maintenance.h:73-80 | true iff some cached key is more popular |
| Maintenance.MaintenanceManager.CacheAdmit | include/tiered_omap/maintenance.h:82-99 | evicts the first extreme entry, keeps size and order of the rest, and never the admitted one when admission was called for |
| TieredParts.ScanNext | src/tiered_omap.cpp:536-547 | the next scan key is the least hot key after the pointer, or the least of all |
| TieredParts.InsertKey | src/tiered_omap.cpp:637-652 | the hot key list stays sorted and equal to the hot key set |
| TieredParts.PromotedConsistent | src/tiered_omap.cpp:374-392 | a promotion keeps every reference in exactly one place and the client's books right |
| TieredParts.ScannedConsistent | src/tiered_omap.cpp:611-633 | so does a demotion found by the scan |
| TieredParts.HotRoom | src/tiered_omap.cpp:637-652 | the hot index has room for a pending entry |
| TieredParts.ColdRoom | src/tiered_omap.cpp:655-664 | the cold index has room for a pending entry |
| TieredData.AccessKeepsMetas | src/tiered_omap.cpp:355-367 | rewriting a data block with updated counts keeps all counts exact |
| TieredData.AccessView | src/tiered_omap.cpp:355-367 | it changes the user's map at this key only, and only if a value was given |
| TieredOmaps.TieredOmap.Load | src/tiered_omap.cpp:48-152 | the map becomes the data; each key's block id is fixed; the first hot keys move to the cache |
| TieredOmaps.TieredOmap.PromoteOrDummy | src/tiered_omap.cpp:374-392 | promotes iff idle and a cached key is less popular; the cold index sees the same number of fetches either way |
| TieredOmaps.TieredOmap.ServeIndexed | src/tiered_omap.cpp:353-393 | serves a key from the index that holds it; both indexes see a fixed number of fetches |
| TieredOmaps.TieredOmap.ServeHeld | src/tiered_omap.cpp:189-205 | serves a pending key from the client (a cached one at 337-353) behind dummy operations on both indexes |
| TieredOmaps.TieredOmap.DoScanStep | src/tiered_omap.cpp:552-634 | scans the hot keys in circular order; may start a hot swap when idle; changes no data |
| TieredOmaps.TieredOmap.DoHotInsertStep | src/tiered_omap.cpp:637-652 | completes a hot swap if one is pending, with the same fetches if not |
| TieredOmaps.TieredOmap.DoColdInsertStep | src/tiered_omap.cpp:655-664 | completes a cold swap if one is pending, with the same fetches if not |
| TieredOmaps.TieredOmap.Access | src/tiered_omap.cpp:156-205 | refines the map on every run: value, update, unchanged block ids, constant hot set and cache sizes, a promotion begins when idle with a less popular cached key, and a swap ends exactly at its phase; nothing moves meanwhile (sequential path 337-393, maintenance 427-436) |
| TieredOmaps.TieredOmap.SwapIsShort | src/tiered_omap.cpp:427-436 | with interval at least 3 a pending swap is younger than interval - 1 accesses |
| TieredOmaps.TieredOmap.AccessAll | src/tiered_omap.cpp:156-205 | any run of accesses refines the map; a pending swap whose insertion never becomes due freezes all tiers with the same key pending, and otherwise it ends within `swap_interval` accesses |
| TieredOmaps.TieredOmap.StuckIntervals | include/tiered_omap/maintenance.h:134-143 | an insertion never becomes due exactly for intervals below 3 (cold) and below 2 (hot) |
| TieredOmaps.TieredOmap.CountsAreExact | include/tiered_omap/maintenance.h:29-40 | in every reachable state each key's stored counts equal those of the access history |
| TieredOmaps.TieredOmap.KeyIsInOnePlace | src/tiered_omap.cpp:552-664 | in every reachable state each key is in exactly one of hot index, cold index, cache and pending slot |
| Oblivious.OMov | include/tiered_omap/tee/oblivious.h:30-42 | the masked move selects |
| Oblivious.OSwap | include/tiered_omap/tee/oblivious.h:53-59 | the masked exclusive-or swaps or does nothing |
| Oblivious.OEqual | include/tiered_omap/tee/oblivious.h:94-102 | the sign-bit trick is equality on all 32-bit words |
| Oblivious.OLessExact | include/tiered_omap/tee/oblivious.h:104-107 | the comparison is right iff the difference fits a word |
| Oblivious.KeysCompare | include/tiered_omap/tee/oblivious.h:104-107 | it is right on all keys the program uses and on the sentinel -1, except for comparing the largest word with it |
| Oblivious.OMax | include/tiered_omap/tee/oblivious.h:86-88 | one of the arguments, the larger one if their difference fits a word |
| Oblivious.TakeFirstMasked | src/tee/enclave_oram.cpp:172-187 | the masked scan of keys and leaves takes exactly the first candidate, as the branching one does |
| Oblivious.OMovBytes | include/tiered_omap/tee/oblivious.h:63-68 | the masked copy selects whole buffers |
| Oblivious.OSwapBytes | include/tiered_omap/tee/oblivious.h:139-146 | the masked exchange swaps whole buffers or does nothing |
| Compaction.Compact | include/tiered_omap/tee/oblivious.h:109-135 | n bubble passes are a stable partition, real entries first |
| Compaction.CountReal | include/tiered_omap/tee/oblivious.h:115-122 | the count is the number of real entries |
| Compaction.CutKeepsReal | src/tee/enclave_oram.cpp:195-217 | cutting a compacted stash at or behind its real entries drops dummies only |
| EnclaveOrams.PathContains | src/tee/enclave_oram.cpp:270-284 | the fixed-length walk decides whether a node is on a leaf's path |
| EnclaveOrams.TakeCandidate | src/tee/enclave_oram.cpp:165-193 | one bucket slot takes the first stashed block that may go there, which leaves the stash |
| EnclaveOrams.Rewrite | src/tee/enclave_oram.cpp:75-110 | the masked scan reads and rewrites exactly the wanted entry |
| EnclaveOrams.EnclaveOram.Init | src/tee/enclave_oram.cpp:25-66 | the contents become the data at preset or random leaves, and the stash is padded |
| EnclaveOrams.EnclaveOram.ReadPath | src/tee/enclave_oram.cpp:126-146 | empties the path into the stash without loss, touching each of its `level` nodes once |
| EnclaveOrams.EnclaveOram.EvictPath | src/tee/enclave_oram.cpp:165-217 | loses and duplicates no block, places blocks only on their path, leaves nothing that still fits, fails iff too many blocks remain, touches `level` nodes |
| EnclaveOrams.EnclaveOram.AccessOrDummy | src/tee/enclave_oram.cpp:75-110 | map read and write for a wanted key, no effect for a dummy, always 2 * `level` node accesses |
| EnclaveOrams.EnclaveOram.DummyAccess | src/tee/enclave_oram.cpp:112-116 | no effect on the contents, 2 * `level` node accesses |
| EnclaveOrams.EnclaveOram.ExtractFromStash | src/tee/enclave_oram.cpp:225-239 | takes the wanted block out, or yields a dummy and changes nothing |
| EnclaveOrams.EnclaveOram.EvictOnePath | src/tee/enclave_oram.cpp:245-257 | evicts along the path that was read last, with the same guarantees: nothing that still fits is left, and the stash has its usual size |
| EnclaveSlots.BlockOnPath | src/tee/enclave_oram.cpp:126-193 | each key's block is in the stash or in a bucket on the path of its leaf |
| TeeLists.UpdateHeights | src/tee/tee_avl_omap.cpp:656-672 | the masked nested scans refresh every real entry from its loaded children, last first, and no dummy matters |
| TeeLists.RotateCond | src/tee/tee_avl_omap.cpp:682-786 | gather and scatter by full scans rotate exactly the wanted entry if its pivot is loaded, and change nothing otherwise |
| TeeBalance.BalanceEntry | src/tee/tee_avl_omap.cpp:788-824 | balancing an entry is the loaded part of one rebalancing step of the represented tree |
| TeeBalance.RebalanceLoaded | src/tee/tee_avl_omap.cpp:826-833 | the backward loop settles the represented path level by level and knows the new root |
| TeeBalance.SettleKeeps | src/tee/tee_avl_omap.cpp:788-833 | settling keeps entries and order, whatever is loaded |
| TeeBalance.SettleInserts | src/tee/tee_avl_omap.cpp:353-443 | on a balanced tree, settling the path to a new node is the reference insertion |
| TeeFlush.FeedParents | src/tee/tee_avl_omap.cpp:217-251 | the quadratic scan gives every parent exactly its loaded children's new leaves |
| TeeUnlink.TakeSuccessor | src/tee/tee_avl_omap.cpp:538-569 | the target takes over the successor's entry, and only it and those that name it change |
| TeeUnlink.UnlinkLast | src/tee/tee_avl_omap.cpp:571-630 | the deleted entry becomes a dummy, and its parent or the root pointer gets its only child with leaf and height |
| TeeReach.ReachExact | src/tee/tee_avl_omap.cpp:281-349 | a search of h steps finds every key iff the tree is no higher than h |
| TeeReach.BalancedReach | src/tee/tee_avl_omap.cpp:281-443 | in a balanced tree below the size bound, h steps find every present key and reach every absent key's place |
| TeeReach.FullDepth | src/tee/tee_avl_omap.cpp:353-443 | in a full tree every absent key belongs below the last level |
| TeeReach.FullInserted | src/tee/tee_avl_omap.cpp:353-443 | in a full tree of h levels an inserted key ends up at depth h, out of reach, and the tree has one level more |
| TeeReach.SevenKeysTwoSteps | src/tee/tee_avl_omap.cpp:353-443 | the smallest case for a limit of two steps: seven keys, and the eighth enters the tree out of reach |
| TeeReach.ReachSizeExact | src/tee/tee_avl_omap.cpp:15-20 | all AVL trees of n entries are no higher than h iff n < fib(h + 3) - 1 |
| TeeCalm.SettleDepth | src/tee/tee_avl_omap.cpp:788-833 | settling a path to a new node brings no key deeper than the node was attached |
| TeeCalm.SettleCalm | src/tee/tee_avl_omap.cpp:788-833 | if no node of the path leans by more than the rotations tolerate, settling changes nothing |
| TeeReach.IdleTwo | src/tee/tee_avl_omap.cpp:535-642 | removing a node with two children from a balanced tree is the plain deletion, because no pivot is loaded |
| TeeReach.DeletionUnbalances | src/tee/tee_avl_omap.cpp:632-642 | a balanced tree that the plain deletion leaves unbalanced and the reference removal does not |
| TeeAvls.TeeAvl.Init | src/tee/tee_avl_omap.cpp:37-124 | the map becomes the data, as a balanced tree of the halving height |
| TeeAvls.TeeAvl.OramStep | src/tee/tee_avl_omap.cpp:145-169 | fetches the wanted block into the list or appends a dummy; always 2 * `level` node accesses |
| TeeAvls.TeeAvl.ReassignLeaves | src/tee/tee_avl_omap.cpp:217-251 | every real entry gets a fresh leaf, and parents and the root pointer learn it |
| TeeAvls.TeeAvl.PadOps | src/tee/tee_avl_omap.cpp:253-268 | pads to 3 * `max_height_` steps without effect |
| TeeAvls.TeeAvl.SearchOrDummy | src/tee/tee_avl_omap.cpp:281-349 | map lookup, update and transformation of a key that is in reach; no effect for a dummy; always 3 * `max_height_` steps |
| TeeAvls.TeeAvl.Insert | src/tee/tee_avl_omap.cpp:353-443 | map insertion of an absent key iff its place is at most `max_height_` deep, no effect otherwise; bounds on the new height and the new depth of the key; the reference insertion on a balanced tree, the plain one where nothing tilts; always 3 * `max_height_` steps |
| TeeAvls.TeeAvl.InsertThenSearch | src/tee/tee_avl_omap.cpp:281-443 | the inserted key is found iff its depth in the new tree is below `max_height_`; always on a balanced tree below the size bound |
| TeeAvls.TeeAvl.LoadToReach | src/tee/tee_avl_omap.cpp:37-124 | after loading as many full levels as there are steps, the next key enters the map and is not found |
| TeeAvls.TeeAvl.InReach | src/tee/tee_avl_omap.cpp:281-443 | on a balanced tree below the size bound every key and every place is in reach |
| TeeAvls.TeeAvl.LoadBeyondReach | src/tee/tee_avl_omap.cpp:37-124 | after loading one level too many, every insertion reports success and is lost |
| TeeAvls.TeeAvl.FindTarget | src/tee/tee_avl_omap.cpp:461-491 | phase 1 of a removal: the path to the key, in exactly `max_height_` steps |
| TeeAvls.TeeAvl.FindSuccessor | src/tee/tee_avl_omap.cpp:493-533 | phase 2: the path to the successor if there are two children, in exactly `max_height_` steps |
| TeeAvls.TeeAvl.Remove | src/tee/tee_avl_omap.cpp:451-642 | map removal of any key, present or not; order, leaf pointers and height bound survive; plain deletion on a balanced tree; always 3 * `max_height_` steps |
| TeeRuns.Run | src/tee/tee_avl_omap.cpp:353-642 | any run of insertions and removals with no more insertions than levels left is a run of the map, and every key stays in reach |
| TeeRuns.GrowRun | src/tee/tee_avl_omap.cpp:353-642 | insertions and removals, none of which rotates, that raise a spine of any height by one level |
| TeeRuns.OutgrowReach | src/tee/tee_avl_omap.cpp:353-642 | from the empty map, a run that never holds more than 1 + h (h + 1) / 2 keys, after which a key of the map is not found within h steps |
| TeeRuns.CapacityIsEnough | src/tee/tee_avl_omap.cpp:15-20 | for every capacity from 37 on that many keys fit, h being the limit computed from it |
| BPlusNodes.Survives | src/omap/bplus_omap.cpp:12-84 | a node whose parts fit together comes back from its bytes, whatever padding follows |
| BPlusNodes.RoundTrip | src/omap/bplus_omap.cpp:12-84 | decoding the bytes of a node gives the node iff its parts fit together |
| BPlusNodes.DecodedIsEncoded | src/omap/bplus_omap.cpp:42-84 | bytes that decode to a node begin with the bytes of that node |
| BPlusNodes.Encode | src/omap/bplus_omap.cpp:12-40 | appends kind, length, keys and body in this order |
| BPlusNodes.Decode | src/omap/bplus_omap.cpp:42-84 | reads them back, an empty string as an empty leaf, and fails where the bytes end too early |
| BPlusTrees.LookupContents | src/omap/bplus_omap.cpp:281-292 | a lookup from separator to separator finds exactly the entries of the tree |
| BPlusTrees.PutContents | src/omap/bplus_omap.cpp:719-819 | setting a key in its leaf is setting it in the map and keeps the separator order |
| BPlusTrees.SplitLookup | src/omap/bplus_omap.cpp:667-690 | splitting the leaf below its parent changes no lookup |
| BPlusTrees.InsertedContents | src/omap/bplus_omap.cpp:789-850 | insertion, with or without a split, is map insertion and keeps the separator order |
| BPlusTrees.InsertedRoomy | src/omap/bplus_omap.cpp:808-836 | no leaf ever has more than its most keys |
| BPlusReps.OneParent | src/omap/bplus_omap.cpp:455-465 | in the blocks of a tree no node is a child twice, so the scans by id find the one parent |
| BPlusReps.MovedRight | src/omap/bplus_omap.cpp:435-486 | after all fetched nodes have moved and their parents know, every pointer is right again |
| BPlusReps.SplitHolds | src/omap/bplus_omap.cpp:667-836 | the blocks of both halves and of the rewritten parent hold the tree with the leaf split |
| BPlusBuilds.BuildLeaves | src/omap/bplus_omap.cpp:129-158 | a row of leaves over the sorted entries, full except possibly the last, in both modes |
| BPlusBuilds.BuildRow | src/omap/bplus_omap.cpp:161-179 | the row above covers the same keys and holds the same entries |
| BPlusBuilds.BuildTree | src/omap/bplus_omap.cpp:121-182 | terminates with a search tree of exactly the given entries, all leaves on one level, of the least height with room for them |
| BPlusOmaps.HeightLimit | src/omap/bplus_omap.cpp:88-97 | the least height by the logarithm of half the order, which has room for the capacity in both modes |
| BPlusOmaps.HeightExact | src/omap/bplus_omap.cpp:121-182 | the built tree is within a height limit iff the limit has room for its entries |
| BPlusOmaps.BPlusOmap.Init | src/omap/bplus_omap.cpp:184-277 | the map becomes the data, in index mode their words; in reach iff the height limit has room for them |
| BPlusOmaps.BPlusOmap.TraverseWithSiblings | src/omap/bplus_omap.cpp:381-431 | fetches the path to the key's leaf and a sibling or a dummy per level, two fetches a level |
| BPlusOmaps.BPlusOmap.LinkAll | src/omap/bplus_omap.cpp:452-478 | the scans tell every parent in the list the new leaves of exactly its fetched children |
| BPlusOmaps.BPlusOmap.WriteBack | src/omap/bplus_omap.cpp:435-503 | afterwards the blocks hold the tree with every pointer and the root pointer right, and no other block has changed |
| BPlusOmaps.BPlusOmap.Search | src/omap/bplus_omap.cpp:719-751 | lookup of a key, update of a present one outside index mode, exactly 3 * `max_height_` fetches; nothing is found if the tree is too high |
| BPlusOmaps.BPlusOmap.Insert | src/omap/bplus_omap.cpp:753-850 | map insertion of an absent key; every pointer stays right unless the root is a full leaf, and then iff both halves come to the leaves that the new root names |
| BPlusOmaps.BPlusOmap.DummyAccess | src/omap/bplus_omap.cpp:883-888 | the same number of fetches without effect |
| PackedDirectories.PackedDirectory.Lookup | src/tee/packed_directory.cpp:9-16 | the full scan returns the position of the key, or the invalid leaf |
| PackedDirectories.PackedDirectory.UpdatePos | src/tee/packed_directory.cpp:18-26 | changes the position of that key alone |
| PackedDirectories.PackedDirectory.Insert | src/tee/packed_directory.cpp:28-42 | enters a new key unless the directory is full; no other key moves |
| PackedDirectories.PackedDirectory.Remove | src/tee/packed_directory.cpp:44-62 | removes exactly that key |
| PackedDirectories.PackedDirectory.FindDemoteCandidate | src/tee/packed_directory.cpp:89-108 | the first demotable entry in circular order, or none iff there is none |
| TeeOmaps.TeeOmap.Init | src/tee/tee_omap.cpp:61-86 | the map becomes the data, hot keys in the hot tier with the directory at their leaves, padding included |
| TeeOmaps.TeeOmap.HotKeyIsOnItsPath | src/tee/tee_omap.cpp:61-138 | in every reachable state a hot key is in no other tier, and its block is stashed or on the path that the directory names |
| TeeOmaps.TeeOmap.ServeHot | src/tee/tee_omap.cpp:112-138 | reads, rewrites and moves a hot block with the directory in step, or moves padding; same node accesses |
| TeeOmaps.TeeOmap.Access | src/tee/tee_omap.cpp:90-202 | the old value, in the first response already for a hot key, and map update; constant node accesses in full mode, one tier's in the other |
| TeeOmaps.TeeOmap.AccessAll | src/tee/tee_omap.cpp:90-202 | over any run the answers are those of the map, in both modes alike |

## Left out

- Insertion and removal on a split tree: the program writes a node back to the ORAM of the depth at which it was fetched, although a rotation may have moved it to another depth; `AvlSplits.RotatedLayers` says exactly which rotations make later searches look for a node in the wrong ORAM. Split trees inside the enclave.
- Piggybacked operations in the step machines, and interleaved rounds under maintenance.
- Explicit `promote` and `demote`, and switching maintenance on after loading.
- Maintenance of the enclave's tiered map: promotion writes back the value from before the last write, so the map property does not hold there; its frequency counters go with it.
- Partial dummy accesses under maintenance, where the indexes are modelled unsplit: on unsplit trees they are the same as dummy accesses.
- B+ trees: removal (moving children between inner nodes, or merging below the root, leaves stale pointers), split trees, the step machine. Their blocks hold nodes; `BPlusNodes.Survives` says that the bytes lose nothing.
- The B+ and DA backends inside the tiered map.
- The floating-point logarithm in `max_height_`: the limit is stated with integer powers.
- Stash-size and bucket-load probabilities, leaf uniformity, and the cryptography behind encryption and the keyed function.
- Byte encodings of nodes, counters and epochs, padding of values, networks, timing, bandwidth and page statistics, state export.
- `std::sort` is modelled by an insertion sort over distinct keys.
- Masked moves: `Oblivious` proves what they compute, and `TakeFirstMasked` uses them in one scan; the other enclave scans are written with conditional expressions.
- AvlOmaps.AvlOmap.Insert: requires an absent key and room below the capacity, because the program sends equal keys to the right and sizes its height for the capacity.
- Forests.Forest.Insert: requires an absent key and room in the key's tree, for the same reasons.
- TeeAvls.TeeAvl.Insert: requires an absent key, because the program sends equal keys to the right.
- TeeAvls.TeeAvl.Init: requires an empty map and distinct keys, because the program leaves old blocks in the ORAM and keeps equal keys apart only by position.
- TeeAvls.TeeAvl.Remove: requires a tree no higher than `max_height_`; of a higher one it may fetch only part of the path to the successor. `TeeRuns.Run` says how long that holds for certain, `TeeRuns.OutgrowReach` that it need not hold for ever.
- StaticOmaps.StaticOmap.Load: requires distinct keys and hot keys with data, because a repeated key would have two data blocks and a hot key without data no reference.
- BPlusOmaps.BPlusOmap.Insert: requires an absent key, because the program adds a second entry for a present one.
- BPlusOmaps.BPlusOmap.Init: requires distinct keys for the same reason; and an order of at least 2, without which the level loops do not end.
- EnclaveOrams.EnclaveOram.Init: requires an empty tree and distinct keys, because a repeated key would give two blocks of the same key.
- TieredOmaps.TieredOmap.Load: requires distinct keys and hot keys with data, because a repeated key has two data blocks and a hot key without data is cached with a missing reference.
- DaOrams.DaOram.constructor: requires the termination condition of `LevelSizes`, and own counters that are safe by `Counters.ResetBoundExact`, because otherwise a run of accesses can lose a block.
- DaOrams.LevelSizes: requires the condition under which the program's loop ends.
- DaOrams.DaOram.Access: promises a valid object only after a success, because counters have moved before a missing block is noticed.
- TeeOmaps.TeeOmap.Init: requires as many entries as the directory has room for among the hot keys, and few enough others for the height limit; more hot keys would be dropped from the directory.
- PackedDirectories.PackedDirectory.Insert: requires a key without an entry, as its caller does.
