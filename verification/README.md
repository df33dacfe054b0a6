# Labs core, modelled in Dafny

This project models the algorithmic core of a set of C++ course labs. It
proves the properties each lab's code promises.

- **Lab_3: a B-tree of order `T = 10`.** It maps `int` keys to string
  payloads (`btree.cpp`, `btree.h`). The model covers node creation, the
  in-order traversal, the probing search, insertion with pre-emptive
  splits, edit, and deletion with predecessor/successor replacement,
  borrowing from either sibling, merging and root collapse. It also covers
  the line-oriented `save`/`load` pair.
  - Nodes are modelled at the level of their fixed-capacity arrays:
    `keys[19]`, `data[19]`, `children[20]` and `numKeys`. Slots past
    `numKeys` keep whatever they held, so stale slots are part of the
    model. A child pointer is null, a freed node or a node.
  - Every operation is a pure function on this value.
- **Lab_6 Domineering: `CPlayground` and `AppSettings`.** The model covers
  the two lists of open dominoes, making and validating moves, player
  turns, and the settings that decide which player is human.
- **Lab_2 eight queens.** The model covers the static helpers of
  `ChessBoard`, which are the 64-cell board encoding and the attack table.
  It also covers the `Board` class: 4-bit packing of a board into a 32-bit
  word, `normalize`, `calculateConflicts` and `generateSuccessors`.
- **Lab_4: `CAdjancencyMatrix`.** The model covers the distance matrix
  with its missing-edge marker, the neighbour list and the two clique
  tests.
- **Lab_5: the brute-force clique search of `GreedyAlgorithm.cpp`, and the
  helpers of `main_lab5_17.cpp`.** The helpers are the clique fitness, the
  removal of visited vertices, the candidate generators and the solution
  order.

## Modules

- `Maybe` (`maybe.dfy`): `Option` and `Result`.
- `Arith` (`arith.dfy`): two facts about multiplication and division.
- `Arrays` (`btree_arrays.dfy`): the block-move loops of the node code.
- `InOrder` (`btree_inorder.dfy`): record sequences. It defines the in-order
  weave of child traversals and separators, strictly increasing keys,
  sorted insertion and key removal.
- `BTreeNodes` (`btree_node.dfy`): the node and the `traverse` order.
- `BTreeSearch` (`btree_search.dfy`): the node search.
- `BTreeInsert` (`btree_insert.dfy`): `splitChild` and `insertNonFull`.
- `BTreeRebalance` (`btree_rebalance.dfy`): the borrows, the merge and
  `fill`.
- `BTreeDelete` (`btree_delete.dfy`): `BTreeNode::remove`.
- `BTreeRoot` (`btree.dfy`): the `BTree` wrapper.
- `BTreeText` (`btree_text.dfy`): the text form used by `save` and `load`.
- `Playground` (`playground.dfy`) and `Settings` (`settings.dfy`):
  Domineering.
- `ChessBoard` (`chessboard.dfy`) and `QueensBoard` (`queensboard.dfy`):
  the queens.
- `Graph` (`graph.dfy`), `Greedy` (`clique.dfy`) and `Bees` (`bees.dfy`):
  the graph labs.

## Where the code departs from a textbook B-tree

In each case below the model follows the code.

- **Node order.** The code fixes the minimum degree at `T1000 = 10`, so a
  node holds at most 19 keys (`btree.h:10-11`).
- **Removing an absent key.** A textbook removal of a missing key leaves
  the tree as it was. The code still runs `fill` on the way down, so the
  shape of the tree can change, though the records stay the same
  (`BTreeRoot.RemoveCorrect`).
- **Search.** A textbook search inside a node is exact. The code's probe
  can read the slot past the live keys of a leaf, whether that slot is
  stale after a removal or was never written. This is a finding: see
  `## Findings`.
- **Borrow and descend.** A textbook borrow from the left sibling moves
  the separator's payload along with its key, and after merging the last
  child the removal descends into the merged node. The code drops the
  payload and descends into the freed sibling. Both are findings. The
  as-written removal (`BTreeDelete.NodeRemoveAsWritten`) carries both
  defects.
- **Load.** In the code, `std::stoi` throws out of `load` once the records
  before the malformed one have been inserted. `BTreeText.Load` returns
  that partial tree together with the error. `load` inserts through
  `insert`, so it inherits the search defect: `BTreeText.LoadAsWritten` is
  the load as written and `BTreeText.Load` the corrected one.

## Model

| member | source | states |
|---|---|---|
| Arrays.ShiftDown | Lab_3/Lab_3/btree.cpp:291-294 | after moving `a[lo..hi)` down one slot, each slot `lo-1..hi-2` holds its right neighbour's old value and every other slot is unchanged |
| Arrays.ShiftUp | Lab_3/Lab_3/btree.cpp:261-264 | after moving `a[bottom..top]` up one slot, slots `bottom+1..top+1` hold their left neighbour's old value and the rest are unchanged |
| Arrays.Copy | Lab_3/Lab_3/btree.cpp:94-96 | the copied window of `dst` holds the matching slots of `src`, and every slot outside it is untouched |
| Arrays.OpenSlot | Lab_3/Lab_3/btree.cpp:110-115 | opening slot `i` among the first `n` entries: below `i` unchanged, `i` holds the new value, `i+1..n` hold the old `i..n-1`, beyond unchanged |
| BTreeNodes.FreshNode | Lab_3/Lab_3/btree.cpp:7-10 | a new node has full-size arrays, no keys, the requested leaf flag and only null children, and a new leaf is well formed |
| BTreeNodes.TraverseAround | Lab_3/Lab_3/btree.cpp:12-20 | an internal node emits what precedes child `j`, then child `j`'s records, then what follows; the records on either side of that child are separators `j-1` and `j` |
| BTreeNodes.OrderedParts | Lab_3/Lab_3/btree.cpp:12-20 | when a node's traversal strictly increases, so does each child's traversal and the node's own live keys |
| BTreeNodes.ChildKeysBracketed | Lab_3/Lab_3/btree.cpp:12-20 | in an ordered node the live keys of child `j` lie strictly between separators `j-1` and `j` |
| BTreeNodes.FilledSearchable | Lab_3/Lab_3/btree.cpp:141-149 | every node of a filled, balanced, ordered subtree has increasing live keys, and every internal node holds a key, so `keys[0]` and `keys[numKeys-1]` are live when the search reads them |
| BTreeSearch.Scan | Lab_3/Lab_3/btree.cpp:141-167 | the in-node probe either exits to the first or last child of an internal node with the key outside its range, or hits a live slot holding the key, or misses with every live key left of its slot below the key and every one right of it above |
| BTreeSearch.Halve | Lab_3/Lab_3/btree.cpp:154-167 | the halving loop never stops at an edge; a hit names a live slot holding the key, and a miss ends at most one slot past the live ones |
| BTreeSearch.HalveWindow | Lab_3/Lab_3/btree.cpp:154-167 | when the halving loop ends without a hit, the live keys left of its final slot are below the key and those right of it above |
| BTreeSearch.HalveFullNode | Lab_3/Lab_3/btree.cpp:154-170 | on a full node the probe never ends past the last slot, so `keys[i-1]` in the final check stays inside the array |
| BTreeSearch.NodeSearch | Lab_3/Lab_3/btree.cpp:139-181 | the corrected search returns a path to a node holding the key in a live slot, with that slot's payload |
| BTreeSearch.NodeSearchAsWritten | Lab_3/Lab_3/btree.cpp:169-172 | the search as written returns a path to a node where the key sits in a live slot or in the stale slot just past the live ones |
| BTreeSearch.NodeSearchCorrect | Lab_3/Lab_3/btree.cpp:139-181 | on an ordered subtree the search finds a key exactly when the traversal holds it, and returns the payload stored with it |
| BTreeSearch.LeafSearchAbsent | Lab_3/Lab_3/btree.cpp:173-176 | a leaf search that reports nothing leaves no live key equal to the key |
| BTreeSearch.AsWrittenAgrees | Lab_3/Lab_3/btree.cpp:169-172 | wherever the corrected search succeeds, the search as written returns the same result |
| BTreeInsert.LastNotAbove | Lab_3/Lab_3/btree.cpp:78 | the scan stops at the last slot whose key does not exceed the key, and every slot it passed holds a larger key |
| BTreeInsert.UpperHalf | Lab_3/Lab_3/btree.cpp:92-104 | the new sibling `z` is well formed, holds `T - 1` keys and has the leaf flag of `y` |
| BTreeInsert.UpperHalfSlots | Lab_3/Lab_3/btree.cpp:92-104 | `z` holds the records of `y` past the median and, for an internal `y`, the children past the median, and is no higher than `y` |
| BTreeInsert.SplitLivePairs | Lab_3/Lab_3/btree.cpp:107-116 | after the split, the parent's live records are its old ones with the median of the full child inserted at slot `i` |
| BTreeInsert.SplitChild | Lab_3/Lab_3/btree.cpp:91-117 | after `splitChild(i, y)` the parent has one more key, child `i` is `y` cut to `T - 1` keys, child `i+1` is the upper half, and the other children keep their order |
| BTreeInsert.SplitChildTraverse | Lab_3/Lab_3/btree.cpp:91-117 | splitting a full child leaves the parent's in-order records unchanged |
| BTreeInsert.SplitChildValid | Lab_3/Lab_3/btree.cpp:91-117 | splitting a full child keeps every node below the parent at least half full and every leaf at the same depth |
| BTreeInsert.HalvesTraverse | Lab_3/Lab_3/btree.cpp:91-105 | the records of a full node are those of its lower half, then the median, then those of its upper half |
| BTreeInsert.HalvesValid | Lab_3/Lab_3/btree.cpp:91-105 | both halves of a full, valid node are filled and balanced at its height |
| BTreeInsert.InsertNonFull | Lab_3/Lab_3/btree.cpp:66-89 | inserting into a non-full node keeps it well formed with the same leaf flag, adds at most one key to it, and exactly one if it is a leaf |
| BTreeInsert.InsertNonFullCorrect | Lab_3/Lab_3/btree.cpp:66-89 | for an absent key, the traversal afterwards is the old one with the record inserted at its sorted place, and the subtree stays filled and balanced |
| BTreeInsert.InsertLeafCorrect | Lab_3/Lab_3/btree.cpp:68-76 | the leaf branch shifts the larger keys up and stores the record between the smaller and the larger ones |
| BTreeInsert.LeafInsert | Lab_3/Lab_3/btree.cpp:68-76 | the leaf branch keeps a well-formed leaf with exactly one key more |
| BTreeInsert.InsertBelow | Lab_3/Lab_3/btree.cpp:77-88 | the internal branch keeps a well-formed internal node with at most one key more |
| BTreeInsert.Descend | Lab_3/Lab_3/btree.cpp:86 | descending into a non-full child keeps the parent well formed, internal and with the same key count |
| BTreeInsert.InsertInternalCorrect | Lab_3/Lab_3/btree.cpp:77-88 | the internal branch picks the child that brackets the key and inserts the record there in order |
| BTreeInsert.InsertSplitCorrect | Lab_3/Lab_3/btree.cpp:80-86 | when the chosen child is full, splitting it and then descending on the median's side still inserts in order |
| BTreeInsert.SplitBracket | Lab_3/Lab_3/btree.cpp:82-84 | after the split, the child the comparison with the median picks is bracketed by the keys around it |
| BTreeRebalance.Merged | Lab_3/Lab_3/btree.cpp:311-321 | the merged child has `T - 1` keys plus the separator plus the sibling's keys, and the leaf flag of both |
| BTreeRebalance.MergedTraverse | Lab_3/Lab_3/btree.cpp:311-327 | the merged child emits the child's records, then the separator, then the sibling's records |
| BTreeRebalance.MergedValid | Lab_3/Lab_3/btree.cpp:311-327 | merging a minimal child, the separator and a sibling of at most `T - 1` keys gives a filled node balanced at the same height |
| BTreeRebalance.Merge | Lab_3/Lab_3/btree.cpp:305-338 | merging children `i` and `i+1` leaves one key fewer, puts the merged node at `i`, moves later children down one slot, and leaves the freed sibling in slot `i+1` when it was the last |
| BTreeRebalance.MergeTraverse | Lab_3/Lab_3/btree.cpp:305-338 | the merge keeps the node's records and what precedes and follows the merged child |
| BTreeRebalance.MergeValid | Lab_3/Lab_3/btree.cpp:305-338 | merging two minimal siblings keeps the node filled and balanced |
| BTreeRebalance.PrependTraverse | Lab_3/Lab_3/btree.cpp:261-273 | the child that receives a borrowed record at its front emits the records below the moved subtree, then the record, then its own records |
| BTreeRebalance.Prepend | Lab_3/Lab_3/btree.cpp:261-273 | a record and subtree added at the front of a child give a well-formed node with one key more and the same leaf flag |
| BTreeRebalance.PrependValid | Lab_3/Lab_3/btree.cpp:261-273 | adding at the front a subtree one level lower keeps the child filled and balanced |
| BTreeRebalance.DropLastTraverse | Lab_3/Lab_3/btree.cpp:274-277 | the left sibling that gives up its last record and child emits its remaining records, then the given record, then the given child's records |
| BTreeRebalance.DropLastValid | Lab_3/Lab_3/btree.cpp:274-277 | a left sibling with at least `T` keys stays filled and balanced after giving up its last record |
| BTreeRebalance.BorrowFromPrev | Lab_3/Lab_3/btree.cpp:257-278 | the corrected borrow from the left keeps the node well formed with the same number of keys |
| BTreeRebalance.BorrowFromPrevAsWritten | Lab_3/Lab_3/btree.cpp:257-278 | the borrow as written keeps the node well formed with the same number of keys |
| BTreeRebalance.BorrowFromPrevWith | Lab_3/Lab_3/btree.cpp:257-278 | the borrow with a given payload moves one key from child `i-1` to child `i`, and leaves every other key, payload and child alone |
| BTreeRebalance.BorrowFromPrevPreserves | Lab_3/Lab_3/btree.cpp:257-278 | the corrected borrow from the left keeps the node's in-order records exactly |
| BTreeRebalance.BorrowFromPrevAsWrittenLoses | Lab_3/Lab_3/btree.cpp:263-270 | as written, the separator key moves down paired with the child's old first payload, and the records change whenever that payload differs from the separator's |
| BTreeRebalance.BorrowPrevValid | Lab_3/Lab_3/btree.cpp:257-278 | borrowing from a left sibling with at least `T` keys keeps the node filled and balanced |
| BTreeRebalance.AppendTraverse | Lab_3/Lab_3/btree.cpp:284-288 | the child that receives a record at its end emits its own records, then the record, then those below the moved subtree |
| BTreeRebalance.Append | Lab_3/Lab_3/btree.cpp:284-288 | a record and subtree added at the end of a child give a well-formed node with one key more and the same leaf flag |
| BTreeRebalance.AppendValid | Lab_3/Lab_3/btree.cpp:284-288 | adding at the end a subtree one level lower keeps the child filled and balanced |
| BTreeRebalance.DropFirstTraverse | Lab_3/Lab_3/btree.cpp:289-299 | the right sibling that gives up its first record and child emits that child's records and the record before the rest |
| BTreeRebalance.DropFirst | Lab_3/Lab_3/btree.cpp:289-299 | a right sibling that gives up its first record and child stays well formed with one key fewer |
| BTreeRebalance.DropFirstValid | Lab_3/Lab_3/btree.cpp:289-299 | that sibling stays filled and balanced |
| BTreeRebalance.BorrowFromNext | Lab_3/Lab_3/btree.cpp:280-303 | the borrow from the right moves one key from child `i+1` to child `i` and leaves every other child slot alone |
| BTreeRebalance.BorrowFromNextPreserves | Lab_3/Lab_3/btree.cpp:280-303 | borrowing from the right keeps the node's in-order records exactly |
| BTreeRebalance.BorrowNextValid | Lab_3/Lab_3/btree.cpp:280-303 | borrowing from a right sibling with at least `T` keys keeps the node filled and balanced |
| BTreeRebalance.Fill | Lab_3/Lab_3/btree.cpp:242-255 | the corrected `fill` keeps the node well formed with at most one key fewer, and when it merged the last child, slot `idx` holds the freed sibling |
| BTreeRebalance.FillAsWritten | Lab_3/Lab_3/btree.cpp:242-255 | `fill` as written, with the payload-dropping borrow from the left, keeps the node well formed with at most one key fewer, and the slot past the remaining keys is freed |
| BTreeRebalance.FillAsWrittenLoses | Lab_3/Lab_3/btree.cpp:244-245 | outside the borrow from the left, `fill` as written is the corrected `fill`; in that borrow the corrected one keeps the records and the one as written changes them whenever the child's first payload differs from the separator's |
| BTreeRebalance.FillAsWrittenValid | Lab_3/Lab_3/btree.cpp:242-255 | after `fill` as written the node is filled and balanced, and the child the removal enters holds at least `T` keys |
| BTreeRebalance.Target | Lab_3/Lab_3/btree.cpp:249-253 | the child the corrected descent enters after `fill` is `idx`, or the last child when the last child was merged into its left sibling |
| BTreeRebalance.FillValid | Lab_3/Lab_3/btree.cpp:242-255 | after `fill` the node is filled and balanced, and the child the removal enters holds at least `T` keys |
| BTreeRebalance.FillTraverse | Lab_3/Lab_3/btree.cpp:242-255 | `fill` keeps the node's records, and the keys beside the child the removal enters still bracket the key |
| BTreeRebalance.PrevBracket | Lab_3/Lab_3/btree.cpp:244-245 | borrowing from the left keeps the records, and the keys around child `idx` still bracket the key |
| BTreeRebalance.NextBracket | Lab_3/Lab_3/btree.cpp:246-247 | borrowing from the right keeps the records, and the keys around child `idx` still bracket the key |
| BTreeRebalance.MergeBracket | Lab_3/Lab_3/btree.cpp:248-253 | merging keeps the records, and the keys around the merged child bracket the key |
| BTreeRebalance.FillMerge | Lab_3/Lab_3/btree.cpp:248-253 | when neither sibling can lend, the merge keeps the records, and the keys around the child the removal enters bracket the key |
| BTreeDelete.FirstNotBelow | Lab_3/Lab_3/btree.cpp:185-188 | the scan stops at the first live slot whose key is not below the key; every slot it passed holds a smaller key |
| BTreeDelete.Rightmost | Lab_3/Lab_3/btree.cpp:226-232 | `getPredecessor` returns the last record of the subtree's traversal |
| BTreeDelete.Leftmost | Lab_3/Lab_3/btree.cpp:234-240 | `getSuccessor` returns the first record of the subtree's traversal |
| BTreeDelete.LeafErase | Lab_3/Lab_3/btree.cpp:190-196 | erasing slot `idx` of a leaf leaves a well-formed leaf with one key fewer |
| BTreeDelete.LeafHit | Lab_3/Lab_3/btree.cpp:190-196 | erasing a live slot removes exactly that key from the leaf's records |
| BTreeDelete.LeafMiss | Lab_3/Lab_3/btree.cpp:185-196 | when the scan stops on no equal key, the key is not in the leaf |
| BTreeDelete.LeafRemove | Lab_3/Lab_3/btree.cpp:189-196 | removal from a leaf keeps a well-formed leaf and lowers its count by at most one |
| BTreeDelete.Rekey | Lab_3/Lab_3/btree.cpp:200-206 | overwriting a separator with the predecessor or successor changes that one record and nothing else |
| BTreeDelete.RemoveFrom | Lab_3/Lab_3/btree.cpp:183-224 | the corrected removal always completes; a completed removal, corrected or as written, leaves a well-formed node with its leaf flag and at most one key fewer |
| BTreeDelete.RemoveSeparator | Lab_3/Lab_3/btree.cpp:197-212 | removing a separator leaves a well-formed internal node with at most one key fewer |
| BTreeDelete.RemoveBelow | Lab_3/Lab_3/btree.cpp:213-223 | removing below a node, through either `fill`, leaves a well-formed internal node with at most one key fewer |
| BTreeDelete.DescendRemove | Lab_3/Lab_3/btree.cpp:222 | removing from child `c` rewrites that child alone |
| BTreeDelete.NodeRemove | Lab_3/Lab_3/btree.cpp:183-224 | the corrected removal keeps the node well formed with its leaf flag and changes its key count by at most one |
| BTreeDelete.NodeRemoveAsWritten | Lab_3/Lab_3/btree.cpp:183-224 | the removal as written (`fill` with the payload-dropping borrow, then the descent into `children[idx]`) keeps the node well formed with its leaf flag whenever it completes |
| BTreeDelete.RemoveFromCorrect | Lab_3/Lab_3/btree.cpp:183-224 | on an ordered sound subtree, the corrected removal reports whether the key was there, leaves exactly the old traversal without the key, and keeps the subtree filled and balanced at the same depth |
| BTreeDelete.LeafRemoveCorrect | Lab_3/Lab_3/btree.cpp:189-196 | removal from a leaf erases the key if present and otherwise changes nothing |
| BTreeDelete.PredCorrect | Lab_3/Lab_3/btree.cpp:198-202 | replacing a separator by its predecessor and removing that from the left child removes exactly the separator |
| BTreeDelete.SuccCorrect | Lab_3/Lab_3/btree.cpp:203-207 | replacing a separator by its successor and removing that from the right child removes exactly the separator |
| BTreeDelete.MergeCorrect | Lab_3/Lab_3/btree.cpp:208-211 | merging two minimal children around the separator and removing it from the merged child removes exactly the separator |
| BTreeDelete.SeparatorCorrect | Lab_3/Lab_3/btree.cpp:197-212 | whichever of the three cases applies, removing a separator removes exactly it and keeps the subtree sound at its depth |
| BTreeDelete.BelowCorrect | Lab_3/Lab_3/btree.cpp:213-223 | a key not in an internal node is removed by descending into the child its neighbouring keys bracket |
| BTreeDelete.FillDescendCorrect | Lab_3/Lab_3/btree.cpp:217-222 | when the bracketing child is minimal, `fill` followed by the corrected descent removes exactly the key |
| BTreeDelete.DescendRemoveCorrect | Lab_3/Lab_3/btree.cpp:222 | the descent rewrites the child's part of the traversal only |
| BTreeDelete.RemoveAsWrittenUseAfterFree | Lab_3/Lab_3/btree.cpp:217-222 | on a root holding 10 over the leaves 1..9 and 11..19, removing 15 as written descends into the freed sibling, while the corrected removal takes exactly 15 out |
| BTreeDelete.FillLast | Lab_3/Lab_3/btree.cpp:251-252 | when the last child and its left sibling are both minimal, `fill` leaves one key fewer, so the slot the removal as written enters is past the live ones |
| BTreeDelete.RemoveAsWrittenLosesPayload | Lab_3/Lab_3/btree.cpp:242-278 | on a root holding (10, "x") over the leaves 0..9 and 11..19, removing 15 as written completes but borrows 10 from the left without its payload, so (10, "") appears and the records differ from the old ones without 15; the corrected removal gives exactly those |
| BTreeRoot.Empty | Lab_3/Lab_3/btree.cpp:340-342 | a new tree is valid and holds no records: its contents are empty and it maps no key |
| BTreeRoot.SearchCorrect | Lab_3/Lab_3/btree.cpp:369-372 | the tree search returns a payload exactly for the stored keys, and it is the stored payload |
| BTreeRoot.SearchAsWrittenAgrees | Lab_3/Lab_3/btree.cpp:369-372 | wherever the corrected tree search finds a key, the search as written returns the same payload |
| BTreeRoot.SingleLeaf | Lab_3/Lab_3/btree.cpp:349-353 | the first root is a well-formed leaf holding one record |
| BTreeRoot.GrowRoot | Lab_3/Lab_3/btree.cpp:356-357 | the fresh root is internal, has no keys and has the old root as its only child |
| BTreeRoot.SplitRoot | Lab_3/Lab_3/btree.cpp:355-358 | splitting a full root gives an internal root with one key over two children of `T - 1` keys each |
| BTreeRoot.SplitRootValid | Lab_3/Lab_3/btree.cpp:355-358 | the split root keeps the old records and is sound one level deeper |
| BTreeRoot.InsertCorrect | Lab_3/Lab_3/btree.cpp:344-367 | insert returns true exactly when the key was absent; it then adds the record at its sorted place, and otherwise changes nothing; the tree stays valid |
| BTreeRoot.InsertSplitRootCorrect | Lab_3/Lab_3/btree.cpp:355-361 | the full-root branch inserts the record in order and leaves a valid tree |
| BTreeRoot.InsertAsWritten | Lab_3/Lab_3/btree.cpp:346-348 | insert as written keeps a well-formed root; it refuses every key the search as written answers for |
| BTreeRoot.InsertAsWrittenCorrect | Lab_3/Lab_3/btree.cpp:344-348 | insert as written adds the record in order exactly when the search as written misses, never adds a stored key, and otherwise leaves the tree unchanged |
| BTreeRoot.TwoInsertsBuild | Lab_3/Lab_3/btree.cpp:344-367 | inserting -5 then -3 into an empty tree gives the same leaf with either guard: keys -5, -3 live and slot 2 never written |
| BTreeRoot.NeverWrittenSlot | Lab_3/Lab_3/btree.cpp:170 | on that leaf, the search as written answers "" for 0 from the never-written slot, so insert as written refuses 0; the corrected search misses 0 and the corrected insert adds it |
| BTreeRoot.FirstEqual | Lab_3/Lab_3/btree.cpp:380-385 | the edit loop stops at the first live slot holding the key, or at `numKeys` when none does |
| BTreeRoot.EditCorrect | Lab_3/Lab_3/btree.cpp:374-389 | edit returns true exactly when the key is stored, then replaces its payload and nothing else; the tree stays valid |
| BTreeRoot.SetPayload | Lab_3/Lab_3/btree.cpp:380-385 | writing the payload along a search path keeps the node's keys, count and leaf flag |
| BTreeRoot.EditAsWritten | Lab_3/Lab_3/btree.cpp:377-387 | edit as written keeps a well-formed root |
| BTreeRoot.Collapse | Lab_3/Lab_3/btree.cpp:396-403 | the root that remains after a removal is well formed |
| BTreeRoot.CollapseValid | Lab_3/Lab_3/btree.cpp:396-403 | collapsing an empty root onto its child, or to nothing, keeps the records and gives a valid tree |
| BTreeRoot.RemoveCorrect | Lab_3/Lab_3/btree.cpp:391-405 | remove returns true exactly when the key was stored, leaves exactly the old records without it, and keeps the tree valid |
| BTreeRoot.RemoveLeavesStale | Lab_3/Lab_3/btree.cpp:190-196 | removing 3 from the leaf 1, 2, 3 drops the count to two and leaves the removed record in slot 2 |
| BTreeRoot.StaleSlotAfterRemove | Lab_3/Lab_3/btree.cpp:170 | after that removal, search as written still returns "c" for 3; edit as written reports success and writes nothing; insert as written refuses 3. The corrected search and edit report 3 absent, and the corrected insert adds it |
| BTreeRoot.StaleLeafSearch | Lab_3/Lab_3/btree.cpp:170 | on the leaf whose count is 2 and whose slot 2 still holds (3, "c"), the as-written operations answer for 3 and the corrected ones do not |
| BTreeText.Show | Lab_3/Lab_3/btree.cpp:15 | a key is written as a non-empty run of non-blank characters |
| BTreeText.Digits | Lab_3/Lab_3/btree.cpp:15 | a natural number is written as at least one decimal digit |
| BTreeText.Stoi | Lab_3/Lab_3/btree.cpp:422 | a successful `std::stoi` returns a value in the range of `int` |
| BTreeText.StoiShow | Lab_3/Lab_3/btree.cpp:422 | reading back what `<<` wrote returns the key, and fails with out-of-range exactly for numbers outside `int` |
| BTreeText.ReadUntil | Lab_3/Lab_3/btree.cpp:418 | `getline` up to a delimiter returns the text before the first delimiter and the rest after it, or the whole input when there is none |
| BTreeText.LineSplits | Lab_3/Lab_3/btree.cpp:418-424 | one saved line is read back as its key token and its payload, and the reading continues after it |
| BTreeText.Put | Lab_3/Lab_3/btree.cpp:425 | the insert `load` calls, with the guard as written or corrected, keeps the tree valid |
| BTreeText.LoadFrom | Lab_3/Lab_3/btree.cpp:417-426 | loading with either insert guard keeps the tree valid whatever the input |
| BTreeText.LoadStep | Lab_3/Lab_3/btree.cpp:417-426 | loading a saved line inserts its record, with the same guard, and continues with the rest of the input |
| BTreeText.Load | Lab_3/Lab_3/btree.cpp:413-427 | `load` with the corrected insert guard gives a valid tree for every input |
| BTreeText.LoadAsWritten | Lab_3/Lab_3/btree.cpp:413-427 | `load` as written gives a valid tree for every input |
| BTreeText.LoadRender | Lab_3/Lab_3/btree.cpp:417-426 | with the corrected guard, loading the lines of increasing records into a tree holding smaller keys appends them in order, without error |
| BTreeText.InsertAbove | Lab_3/Lab_3/btree.cpp:425 | inserting a key above every stored key appends its record to the contents |
| BTreeText.LoadSave | Lab_3/Lab_3/btree.cpp:407-427 | with the corrected insert guard, `load(save(t))` succeeds and holds exactly the records of `t` when every key fits in `int` and no payload holds a line break |
| BTreeText.LoadAsWrittenDrops | Lab_3/Lab_3/btree.cpp:425 | the text `-5 a\n-3 b\n0 c\n` that `save` writes for three records loads all three with the corrected guard, but the load as written keeps only -5 and -3 |
| Playground.RowMoves | Lab_6/Domineering/cplayground.cpp:14-17 | the inner loop lists one domino per column, in column order |
| Playground.RowsMovesLength | Lab_6/Domineering/cplayground.cpp:13-18 | the first `i` rows hold `i` times the row length |
| Playground.VerticalMoves | Lab_6/Domineering/cplayground.cpp:7-19 | the vertical list of a board of size `n` is the `n(n-1)` dominoes `(k, k+n)` for `k` from 0 up |
| Playground.HorizontalMoves | Lab_6/Domineering/cplayground.cpp:7-19 | the horizontal list holds `n(n-1)` dominoes. They are exactly the `(x, x+1)` with `x` on the board and not in the last column, in increasing order |
| Playground.NewBoard | Lab_6/Domineering/cplayground.cpp:30-41 | a new board has the requested size and two players, and holds one open list and one history per player |
| Playground.NewBoardFresh | Lab_6/Domineering/cplayground.cpp:30-41 | a new board has no moves made and the horizontal and vertical lists open, so no open move touches a covered cell |
| Playground.NextPlayer | Lab_6/Domineering/cplayground.cpp:53-56 | for a valid player the next player is the following one modulo the player count |
| Playground.NextPlayerAlternates | Lab_6/Domineering/cplayground.cpp:53-56 | on a new board the turn alternates between players 0 and 1 |
| Playground.RemoveMoves | Lab_6/Domineering/cplayground.cpp:21-27 | the kept moves are exactly those sharing no cell with the move played, and the list does not grow |
| Playground.RemoveMovesConcat | Lab_6/Domineering/cplayground.cpp:21-27 | the filter works piece by piece, so the kept moves stay in order |
| Playground.RemoveMovesIdempotent | Lab_6/Domineering/cplayground.cpp:21-27 | striking the same move twice strikes nothing more |
| Playground.MakeMove | Lab_6/Domineering/cplayground.cpp:76-83 | a move keeps the board size, the player count and the number of lists |
| Playground.MakeMoveEffect | Lab_6/Domineering/cplayground.cpp:76-83 | the move is appended to the mover's history alone, and each open list keeps exactly its moves not touching it |
| Playground.MakeMoveShrinks | Lab_6/Domineering/cplayground.cpp:76-83 | open lists only lose moves |
| Playground.MakeMoveFresh | Lab_6/Domineering/cplayground.cpp:76-83 | making any move keeps every open move clear of the covered cells |
| Playground.Find | Lab_6/Domineering/cplayground.cpp:88 | `std::find` returns the first index holding the move, or the length when there is none |
| Playground.IsMoveValid | Lab_6/Domineering/cplayground.cpp:85-90 | a move is valid exactly when it is in the player's open list |
| Playground.MakeMoveInvalidates | Lab_6/Domineering/cplayground.cpp:76-90 | after a move is made, no player may play it |
| Playground.FreshForbidsReplay | Lab_6/Domineering/cplayground.cpp:76-90 | on a board reached by moves, no move already made is valid for anyone |
| Settings.Defaults | Lab_6/Domineering/appsettings.cpp:8-19 | the defaults are easy, human against computer, human first, size 8 and two players; the player flags agree with that mode, player 0 is the red human and player 1 the blue computer, and any other index is white and not human |
| Settings.UpdatePlayers | Lab_6/Domineering/appsettings.cpp:78-94 | recomputing the flags keeps the player count and every colour, and touches no player beyond the first two |
| Settings.SetGameModeConsistent | Lab_6/Domineering/appsettings.cpp:51-55 | setting the mode makes the human flags agree with the new mode, whatever they were, and changes nothing else |
| Settings.SetHumanTurnsFirstConsistent | Lab_6/Domineering/appsettings.cpp:57-61 | setting the first-move flag makes the human flags agree with it and changes nothing else |
| Settings.OtherSettersKeepPlayers | Lab_6/Domineering/appsettings.cpp:41-44 | setting the difficulty or the board size changes only that field and keeps the flags consistent |
| Settings.SettersCommute | Lab_6/Domineering/appsettings.cpp:51-61 | setting the mode and the first-move flag in either order gives the same settings |
| Settings.PlayerColor | Lab_6/Domineering/appsettings.cpp:68-71 | an index outside the player list, negative ones included, gives the default colour |
| Settings.IsHumanPlayer | Lab_6/Domineering/appsettings.cpp:73-76 | only an index inside the player list can be human |
| Settings.WhoIsHuman | Lab_6/Domineering/appsettings.cpp:73-94 | in a mixed game exactly one player is human, chosen by the first-move flag; both are human in a human game and neither in a computer game |
| ChessBoard.InitCrossroads | Lab_2/Lab_2/Lab_2.cpp:128-142 | the table has one entry for each of the 64 × 64 cell pairs |
| ChessBoard.CrossroadsAt | Lab_2/Lab_2/Lab_2.cpp:132-139 | the entry for cells `q1, q2` is true exactly when they share a column, a row or a diagonal; the table is symmetric with a true diagonal |
| ChessBoard.AttacksCells | Lab_2/Lab_2/Lab_2.cpp:134-138 | for cells given as column and row, the table relation is the usual attack of chess queens |
| ChessBoard.InitChildCounts | Lab_2/Lab_2/Lab_2.cpp:144-154 | with `d < 8` queens placed, `64 - d` cells remain; the counts strictly decrease and end in 0 |
| ChessBoard.ValidInputRoundTrip | Lab_2/Lab_2/Lab_2.cpp:316-319 | on a list of on-board cells, `is_input_valid` accepts exactly the eight-queen lists that `queens1d_to_state` takes, and an accepted list of distinct cells survives the trip through the board and back |
| ChessBoard.QueensToState | Lab_2/Lab_2/Lab_2.cpp:99-104 | the board has 64 cells, each empty or holding a queen number up to 8 |
| ChessBoard.PlaceUpTo | Lab_2/Lab_2/Lab_2.cpp:101-103 | after placing the first `k` queens, a cell is empty exactly when none of them stands on it, and it otherwise names the latest queen standing there |
| ChessBoard.TakeUpTo | Lab_2/Lab_2/Lab_2.cpp:108-112 | scanning the first `m` cells records, for each queen number, the cell that holds it |
| ChessBoard.StateToQueens | Lab_2/Lab_2/Lab_2.cpp:106-114 | the queen list has eight cells on the board |
| ChessBoard.StateRoundTrip | Lab_2/Lab_2/Lab_2.cpp:99-114 | eight queens on distinct cells survive the trip through the board and back |
| ChessBoard.SharedCellLost | Lab_2/Lab_2/Lab_2.cpp:99-114 | two queens on one cell do not survive the trip: the earlier one comes back at cell 0 |
| ChessBoard.HitBelow | Lab_2/Lab_2/Lab_2.cpp:118-122 | the inner loop finds a hit exactly when the table pairs queen `i` with one of the queens below `j` |
| ChessBoard.CheckBelow | Lab_2/Lab_2/Lab_2.cpp:117-123 | scanning queens from `n - 1` down, the loop returns 0 or `i + 1` for a queen `i` that the table pairs with an earlier queen, and no queen from `i + 1` up to `n - 1` is paired with an earlier one |
| ChessBoard.CheckState | Lab_2/Lab_2/Lab_2.cpp:116-126 | `check_state` returns a value from 0 to 8, and 0 exactly when the table pairs no two queens |
| ChessBoard.CheckStateSolved | Lab_2/Lab_2/Lab_2.cpp:116-142 | with the attack table, 0 means exactly that no two queens attack each other, and then all queens stand on distinct cells |
| QueensBoard.StateToArray | Lab_2/Lab_2/Lab_2.cpp:563-577 | unpacking a word gives eight fields, each below 16 |
| QueensBoard.StateRoundTrip | Lab_2/Lab_2/Lab_2.cpp:556-577 | every 32-bit word survives unpacking and packing |
| QueensBoard.ArrayRoundTrip | Lab_2/Lab_2/Lab_2.cpp:556-577 | eight columns below 16 survive packing and unpacking |
| QueensBoard.Normalize | Lab_2/Lab_2/Lab_2.cpp:579-611 | `normalize` returns nothing exactly when the input does not hold eight points, and otherwise the eight second coordinates in order |
| QueensBoard.ConflictsRow | Lab_2/Lab_2/Lab_2.cpp:617-625 | the inner loop from column `j` lists at most `8 - j` pairs |
| QueensBoard.ConflictsFrom | Lab_2/Lab_2/Lab_2.cpp:616-626 | the loops from queen `i` on list at most `(8-i)(7-i)/2` pairs |
| QueensBoard.CalculateConflicts | Lab_2/Lab_2/Lab_2.cpp:613-629 | at most 28 conflicts are listed |
| QueensBoard.CalculateConflictsCorrect | Lab_2/Lab_2/Lab_2.cpp:613-629 | the list holds exactly the clashing pairs `i < j`, ordered by row and then by column, so each pair appears once |
| QueensBoard.ClashIsAttack | Lab_2/Lab_2/Lab_2.cpp:621-622 | two queens in rows `i` and `j` clash exactly when their cells attack each other in the `ChessBoard` table |
| QueensBoard.ConflictCount | Lab_2/Lab_2/Lab_2.cpp:638 | a board's conflict count is between 0 and 28 |
| QueensBoard.Move | Lab_2/Lab_2/Lab_2.cpp:636-637 | a moved board has eight rows and the requested column in the moved row |
| QueensBoard.BoardsRow | Lab_2/Lab_2/Lab_2.cpp:634-640 | the inner loop from column `col` yields one board per column except the queen's own, each with eight rows |
| QueensBoard.BoardsFrom | Lab_2/Lab_2/Lab_2.cpp:633-641 | the outer loop from row `row` yields between `7(8-row)` and `8(8-row)` boards, and exactly `7(8-row)` when every column is below 8 |
| QueensBoard.GenerateSuccessors | Lab_2/Lab_2/Lab_2.cpp:631-643 | there are between 56 and 64 successors, and exactly 56 when every column is below 8 |
| QueensBoard.GenerateSuccessorsSound | Lab_2/Lab_2/Lab_2.cpp:631-643 | every successor moves one queen to another column of its row, and carries its own number of conflicts |
| QueensBoard.GenerateSuccessorsComplete | Lab_2/Lab_2/Lab_2.cpp:631-643 | every board one move away is listed among the successors |
| QueensBoard.OneMoveOneRow | Lab_2/Lab_2/Lab_2.cpp:635-637 | a board one move away differs from the board in exactly one row, which holds a column below 8 |
| Graph.NewMatrix | Lab_4/Lab_4/CAdjancencyMatrix.hpp:39-46 | a new matrix is square with the requested size and missing-edge value |
| Graph.DefaultMatrixEmpty | Lab_4/Lab_4/CAdjancencyMatrix.hpp:39 | a matrix built with the default arguments marks every pair with `hasNoConnection`, the largest `int`, and has no edges |
| Graph.NewMatrixEmpty | Lab_4/Lab_4/CAdjancencyMatrix.hpp:233-241 | a new matrix has no edges, every neighbour list is empty and every vertex power is 0 |
| Graph.Size | Lab_4/Lab_4/CAdjancencyMatrix.hpp:57-60 | `size()` is the number of rows and of vertex powers |
| Graph.NeighboursBelow | Lab_4/Lab_4/CAdjancencyMatrix.hpp:79-83 | the loop up to `k` lists in ascending order exactly the vertices below `k` that `v` has an edge to |
| Graph.Neighbours | Lab_4/Lab_4/CAdjancencyMatrix.hpp:76-83 | `getNeighbours(v)` lists in ascending order exactly the vertices `v` has an edge to |
| Graph.AscendingUnique | Lab_4/Lab_4/CAdjancencyMatrix.hpp:76-85 | two ascending lists with the same members are equal, so the neighbour list is the only ascending list of the neighbours |
| Graph.IsCliqueWith | Lab_4/Lab_4/CAdjancencyMatrix.hpp:87-95 | `isClique(clique, vertex)` is true exactly when the vertex has an edge to every member |
| Graph.IsClique | Lab_4/Lab_4/CAdjancencyMatrix.hpp:97-107 | `isClique(clique)` is true exactly when every member has an edge to every later member |
| Graph.PairwiseSnoc | Lab_4/Lab_4/CAdjancencyMatrix.hpp:97-107 | a list grown by one vertex passes the clique test exactly when the list passes it and every member has an edge to the new vertex |
| Graph.ShortCliques | Lab_4/Lab_4/CAdjancencyMatrix.hpp:87-107 | lists of at most one vertex pass both clique tests |
| Greedy.Erase | Lab_5/Lab5_17/src/GreedyAlgorithm.cpp:13-14 | the erase-remove idiom drops every copy of the value and keeps all other values. The list shrinks when the value was there, and is unchanged otherwise |
| Greedy.EraseVertices | Lab_5/Lab5_17/src/GreedyAlgorithm.cpp:13-14 | erasing from a list of vertices leaves a list of vertices |
| Greedy.ChainSnoc | Lab_5/Lab5_17/src/GreedyAlgorithm.cpp:22-24 | appending a vertex that has an edge to every member keeps each member linked to every earlier one |
| Greedy.ChainPairwise | Lab_5/Lab5_17/src/GreedyAlgorithm.cpp:23 | in an undirected graph, the lists the search builds are exactly the lists `isClique(clique)` accepts |
| Greedy.RecursiveTraverse | Lab_5/Lab5_17/src/GreedyAlgorithm.cpp:9-40 | the best list is a clique longer than the current one. On an early stop it extends the clique with the vertex and takes in the whole white list. Otherwise it is the old best or a longer clique |
| Greedy.FindMaxCliqueBruteForce | Lab_5/Lab5_17/src/GreedyAlgorithm.cpp:42-60 | the result is a clique of the graph, empty exactly for the empty graph, and holding every vertex when the loop stopped early |
| Bees.RowCount | Lab_5/Lab5_17/src/main_lab5_17.cpp:66-72 | the inner loop of `calc` adds at most one per position |
| Bees.PairCount | Lab_5/Lab5_17/src/main_lab5_17.cpp:64-73 | the first `k` rows add at most `k` times the path length |
| Bees.Calc | Lab_5/Lab5_17/src/main_lab5_17.cpp:60-76 | `calc` counts the ordered position pairs, diagonal included, whose matrix entry is an edge; the count is at most the square of the path length |
| Bees.MaxValue | Lab_5/Lab5_17/src/main_lab5_17.cpp:51-54 | `getMaxValue` is the number of ordered pairs of distinct positions among `cliqueSize` |
| Bees.RowCountMax | Lab_5/Lab5_17/src/main_lab5_17.cpp:66-72 | without loops, row `a` reaches `k - 1` exactly when position `a` has an edge to every other position below `k` |
| Bees.PairCountMax | Lab_5/Lab5_17/src/main_lab5_17.cpp:64-73 | without loops, the first `k` rows add at most `k(n-1)` and reach it exactly when those rows are full |
| Bees.CalcMax | Lab_5/Lab5_17/src/main_lab5_17.cpp:51-76 | without loops, the fitness is at most `n(n-1)` and reaches it exactly when every position has an edge to every other; for `cliqueSize` vertices this is `getMaxValue` |
| Bees.FullDistinct | Lab_5/Lab5_17/src/main_lab5_17.cpp:60-76 | a path of full fitness has no repeated vertex |
| Bees.FullPairwise | Lab_5/Lab5_17/src/main_lab5_17.cpp:60-76 | in an undirected graph, a path of full fitness is exactly a path `isClique(clique)` accepts |
| Bees.InsertByFitnessCorrect | Lab_5/Lab5_17/src/main_lab5_17.cpp:46 | inserting a solution into a list sorted best first by `solutionSortPred` keeps it sorted and adds exactly that solution |
| Bees.SortSolutionsCorrect | Lab_5/Lab5_17/src/main_lab5_17.cpp:177 | sorting the solutions with `solutionSortPred` gives a permutation of them ordered best first |
| Bees.SortedFirstIsBest | Lab_5/Lab5_17/src/main_lab5_17.cpp:303 | after the sort, the first solution is one of the colony's and no solution has a higher fitness |
| Bees.RemoveVisited | Lab_5/Lab5_17/src/main_lab5_17.cpp:82-89 | the kept candidates are exactly those not visited, and the list does not grow |
| Bees.RemoveVisitedCount | Lab_5/Lab5_17/src/main_lab5_17.cpp:82-89 | each unvisited candidate keeps all its copies and each visited one loses all |
| Bees.RemoveVisitedConcat | Lab_5/Lab5_17/src/main_lab5_17.cpp:82-89 | the filter works piece by piece, so kept candidates stay in order |
| Bees.RemoveVisitedKeeps | Lab_5/Lab5_17/src/main_lab5_17.cpp:82-89 | a list with no visited candidate is returned unchanged |
| Bees.RemoveVisitedIdempotent | Lab_5/Lab5_17/src/main_lab5_17.cpp:82-89 | a second pass removes nothing more |
| Bees.AllBut | Lab_5/Lab5_17/src/main_lab5_17.cpp:121-125 | the loop below `k` lists in ascending order exactly the values below `k` other than `x` |
| Bees.CandidatesRandom | Lab_5/Lab5_17/src/main_lab5_17.cpp:118-127 | the candidates are every vertex except the one being replaced, ascending and each once |
| Bees.AscendingOnce | Lab_5/Lab5_17/src/main_lab5_17.cpp:118-127 | an ascending candidate list holds each member exactly once |
| Bees.NeighboursOf | Lab_5/Lab5_17/src/main_lab5_17.cpp:137-143 | each vertex occurs in the loop's list as often as the earlier positions, other than the replaced one, whose vertex has an edge to it |
| Bees.CandidatesNeighbours | Lab_5/Lab5_17/src/main_lab5_17.cpp:133-145 | each vertex occurs as often as the solution positions, other than the replaced one, whose vertex has an edge to it; duplicates are kept |
| Bees.SourcesPositive | Lab_5/Lab5_17/src/main_lab5_17.cpp:137-143 | that count is positive exactly when the vertex is a neighbour of some other solution vertex |
| Bees.CandidatesNeighboursMembers | Lab_5/Lab5_17/src/main_lab5_17.cpp:133-145 | a vertex is a candidate exactly when some other solution vertex has an edge to it |

## Left out

- Console output is not modelled. This covers the debug dumps in `remove`
  and `merge_child_keys`, `printNode`, the second `traverse` overload, and
  the `comparisons` counter of the search, which is only a statistic.
- The Qt overloads of `save` and `load` are not modelled. They only wrap
  the `std::ostream`/`std::istream` versions in a string buffer.
- Memory management is reduced to a `Freed` pointer state. The model does
  not free nodes, and it does not model node content that C++ leaves
  indeterminate: fresh slots hold 0, "" or null.
- BTreeRoot.RemoveCorrect: an absent key leaves the records unchanged and
  returns false, but the tree's shape can change, because `fill` runs on
  the way down. The model follows the code here.
- BTreeText.Load: an `std::invalid_argument` or `std::out_of_range` from
  `std::stoi` is returned as an error beside the partially loaded tree. It
  does not unwind.
- BTreeText.LoadAsWritten: only validity and the three-record text above
  are proved. Which records it drops depends on what the slot past the
  live keys holds, which the code leaves indeterminate for fresh nodes;
  the model fills it with 0 and "".
- BTreeText.LoadSave: proved only for payloads without a line break and
  keys within `int`. `save` writes such payloads verbatim and `load` would
  split them.
- `CPlayground::getSize`, `getPlayersCount`, `getAvailableMoves` and
  `getMoves` are field reads. They appear in the contracts above and carry
  no lemma of their own. The `assert` in `getAvailableMoves` and `getMoves`
  becomes a requirement on the index.
- `AppSettings` getters are field reads. `QColor` is reduced to the three
  colours the code uses.
- The queen search drivers are not modelled: IDS, RBFS, A*, the heuristics,
  `loadBoardFromFile`, `generateConflictedBoard`, the file I/O and `main`
  of `Lab_2.cpp`.
- ChessBoard.StateToQueens: requires every cell to hold at most 8. A larger
  number would make `state_to_queens1d` write outside its array.
- QueensBoard.ArrayRoundTrip: holds only for columns below 16.
  `array2state` shifts each `uint8_t` into a 4-bit field, so a larger value
  would spill into its neighbour. The model states this wrap-around
  explicitly rather than assuming it away.
- QueensBoard.Normalize: the result is characterised by the second
  coordinates only. The repair of duplicate first coordinates changes only
  values that the result never reads.
- `CAdjancencyMatrix` is modelled without pheromones, `generate`, `load`,
  `save`, `updateFeromones` or `getVertexPower`. These deal with random
  generation, file I/O and floating point.
- Graph.NewMatrix: requires a non-negative count. A negative one makes
  `resize` throw.
- Graph.IsCliqueWith: requires every member of the clique to be a vertex,
  which the search guarantees. The C++ code indexes without a check.
- Greedy.FindMaxCliqueBruteForce: the result is proved to be a clique, but
  not a maximum one.
- Bees.SortSolutions: `std::sort` is not stable, so any order among equal
  fitnesses is allowed. The model uses insertion sort, one such order;
  its lemmas state only what `std::sort` promises.
- Playground.RowMoves: cell indices `i * tableSize + j` are unbounded
  integers. In `cplayground.cpp:15` they are `int`s, which overflow for
  boards of 46341 cells a side or more; the model does not wrap them.
- Greedy.RecursiveTraverse: its console output is not modelled.
- Bees.Calc: the fitness is an exact integer count. The C++ code
  accumulates it in a `double`, which represents these small counts
  exactly.
- Bees.CalcMax: assumes a path without self-loops. `generate` never
  creates one (`CAdjancencyMatrix.hpp:132`).
- Bees.CandidatesRandom: requires the replaced index to lie inside the
  solution, because the C++ code indexes without a check.
- The bee colony loops are not modelled: `generateSolution`,
  `runEmployedBees`, the onlooker and scout phases, and `main`. They draw
  random numbers from `CRandValue`.

## Findings

| source | as written | input that shows it | evidently intended | confidence | as-written member | corrected member |
|---|---|---|---|---|---|---|
| Lab_3/Lab_3/btree.cpp:270 | `borrow_from_prev` moves the separator key into the child's slot 0 but not its payload, so the key comes down paired with the payload that slot 0 held before the shift | a root holding (10, "x") over leaves 0..9 and 11..19; `remove(15)` borrows 10 from the left and stores it with payload "" | also copy `node->data[idx - 1]` into `child->data[0]` | high, not executed | BTreeDelete.RemoveAsWrittenLosesPayload | BTreeRebalance.BorrowFromPrevPreserves |
| Lab_3/Lab_3/btree.cpp:222 | after `fill` merges the last child into its left sibling (lines 251-252), `remove` descends into `children[idx]`, which is the freed sibling | a root with key 10 over leaves 1..9 and 11..19; `remove(15)` | descend into `children[idx - 1]` when `idx` exceeds the remaining key count | high, not executed | BTreeDelete.RemoveAsWrittenUseAfterFree | BTreeDelete.RemoveFromCorrect |
| Lab_3/Lab_3/btree.cpp:170 | the final check of the probe reads `keys[i - 1]` with `i == numKeys + 1` in a leaf. That slot is stale after a removal or was never written, so `search`, `edit` and `insert` act on a removed key, or on a key the slot happens to hold | the leaf 1, 2, 3 after `remove(3)`; then `search(3)`, `edit(3, "z")`, `insert(3, "z")`. Also a fresh leaf holding -5 and -3, whose unwritten slot 2 answers for 0 | accept a hit only for `i <= numKeys` | high, not executed | BTreeRoot.StaleSlotAfterRemove | BTreeSearch.NodeSearchCorrect |
| Lab_3/Lab_3/btree.cpp:425 | `load` inserts every record through `insert`, whose guard is the search above, so a record whose key the slot past the live keys answers for is dropped | loading `-5 a\n-3 b\n0 c\n`, which `save` writes for those three records: 0 is dropped | load every record of a saved tree | medium, not executed | BTreeText.LoadAsWrittenDrops | BTreeText.LoadSave |
