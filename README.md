# Size-balanced tree container, modelled in Dafny

`sb_tree.h` implements an ordered container as a size-balanced tree (SBT).
Each node stores parent, left and right pointers, the size of its subtree and
its value. A header node is the end() sentinel:

- `header->parent` is the root;
- `header->left` and `header->right` are the smallest and largest nodes, or
  the header itself when the tree is empty;
- the header's own size is 0.

On top of this the container offers:

- insertion with multiset semantics (`insert_equal`) and set semantics
  (`insert_unique`);
- erasure of a node, and of every element equal to a key;
- the queries `find`, `lower_bound`, `upper_bound`, `at`, `select` (k-th node)
  and `rank` (position of a key);
- in-order iterators, plus a primitive iterator that walks every node in
  pre-order and reports how it arrived;
- whole-tree operations: the deep copy (`copy_node`), `erase_root` and
  `clear`.

Two rebalancers restore the size condition after each change. Both are
built from `left_rotate` and `right_rotate`.

The model has two layers.

- **The abstract tree** (module `Trees`). It is a datatype
  `Tree = Nil | Node(left, id, key, right)`, where `id` is the node's address.
  - Its in-order entry sequence `Entries(t)` is what iteration from begin() to
    end() visits.
  - Zipper contexts `Ctx` describe the path from the root to any subtree.
  - `RotL`, `RotR` and `Maintain` are the rotations and the rebalancer.
  - `Maintain(t, flag)` is `insert_rebalance(t, flag)`. `erase_rebalance(t, flag)`
    has the same code with the flag inverted, so it is `Maintain(t, !flag)`.
  - Pure specifications of each operation live in the modules `Search`,
    `Insertion`, `Erasure`, `Traversal`, `Copying` and `Teardown`.
- **The pointer structure** (class `SbTrees.SbTree`). The nodes live in an arena
  `nodes: seq<NodeRec>`.
  - Slot 0 is the header. A pointer is a slot index, and `-1` is `nullptr`.
  - A ghost field `tree` holds the abstract tree.
  - `Valid()` says the arena holds `tree` and the tree is ordered. "Holds"
    (`Arena.Holds`) means:
    - every parent and child pointer agrees with the tree;
    - every size field is its subtree's size;
    - the header's parent, left and right fields are the root, the leftmost
      node and the rightmost node;
    - node ids are distinct slots past the header.
  - Every method of the class carries out the pointer stores the source makes,
    loop for loop. Its contract ties the new arena and the new tree to the
    pure specification. Separate lemmas prove what that specification
    promises: the order kept, the entries inserted or dropped, the round trip
    of the copy, and the step order of the iterators.

Keys are `int`, and the comparator is `<`.

The `rank` query follows the code. It returns the position of the first
equal element when the key is present, and `size_type(-1)` when it is absent.
It is not a count of smaller elements for an absent key. `Search.LowerIndexCounts`
shows the position is that count when the key is present.

## Model

| member | source | states |
|---|---|---|
| Trees.Leftmost | sb_tree.h:996-1001 | the node reached by following left pointers is the first entry in order |
| Trees.Rightmost | sb_tree.h:1003-1008 | the node reached by following right pointers is the last entry in order |
| Trees.RotL | sb_tree.h:1485-1503 | a left rotation makes the right child the root, with the old root as its left child; the entries, ids and size are unchanged; distinctness is kept |
| Trees.RotR | sb_tree.h:1505-1523 | a right rotation makes the left child the root, with the old root as its right child; the entries, ids and size are unchanged; distinctness is kept |
| Trees.Maintain | sb_tree.h:1525-1574 | the rebalancer keeps the in-order entries, ids and size; a nonempty tree stays nonempty; the tree is unchanged when none of the four cases applies |
| Trees.MaintainDistinct | sb_tree.h:1525-1574 | rebalancing keeps node ids distinct, in both directions |
| Search.LowerIndex | sb_tree.h:1052-1067 | lower_bound's position: every entry before it is less than the key; the entry at it, if any, is not |
| Search.UpperIndex | sb_tree.h:1070-1085 | upper_bound's position: every entry before it is at most the key; the entry at it, if any, is greater |
| Search.LowerIndexPartition | sb_tree.h:1052-1067 | in a sorted sequence, every entry from the lower-bound position on is at least the key |
| Search.UpperIndexPartition | sb_tree.h:1070-1085 | in a sorted sequence, every entry from the upper-bound position on is greater than the key |
| Search.FoundAtLowerIndex | sb_tree.h:1032-1049 | a sorted sequence contains the key if and only if the entry at the lower-bound position has that key; this is find's final test |
| Search.LowerIndexCounts | sb_tree.h:1107-1128 | in a sorted sequence, the lower-bound position is the number of entries less than the key, which is what rank_node adds up |
| Search.KeyBlock | sb_tree.h:907-918 | the entries equal to a key form the block between the lower and upper bound, and its length is their count |
| Search.LowerStep | sb_tree.h:1056-1065 | one step of lower_bound's descent keeps the invariant that the entries left of the path are less than the key and those right of it are not |
| Search.UpperStep | sb_tree.h:1074-1083 | one step of upper_bound's descent keeps the invariant that the entries left of the path are at most the key and those right of it are greater |
| Search.LowerEnd | sb_tree.h:1066 | when the descent falls off the tree, the last remembered node is the entry at the lower-bound position, or the header |
| Search.UpperEnd | sb_tree.h:1084 | when the descent falls off the tree, the last remembered node is the entry at the upper-bound position, or the header |
| Search.SelectHere | sb_tree.h:1087-1104 | a node's position is the count of entries left of the path plus its left subtree's size |
| Search.FirstOf | sb_tree.h:178-183 | the leftmost node of a subtree is the first entry of that subtree in the whole sequence |
| Search.NextBelow | sb_tree.h:178-183 | the successor of a node with a right subtree is the leftmost node of that subtree |
| Search.NextAfter | sb_tree.h:184-194 | climbing out of a left subtree reaches the entry that follows it; climbing past the root reaches the end |
| Search.LastOf | sb_tree.h:202-208 | the rightmost node of a subtree is the last entry of that subtree |
| Search.PrevBefore | sb_tree.h:209-218 | climbing out of a right subtree reaches the entry just before it |
| Traversal.PrimNextOrder | sb_tree.h:350-374 | every step of the primitive iterator's ++ keeps to pre-order: a step down or across enters the next node of the pre-order sequence, a step up enters none, the header is reached only from the root once every node was entered, and get_depth of the new state is the change in depth |
| Traversal.PrimPrevOrder | sb_tree.h:376-400 | the same for -- over the mirrored pre-order (node, right subtree, left subtree) |
| Traversal.DownLeftNext | sb_tree.h:352-356 | ++ at a node with a left child enters that child, in state Left |
| Traversal.DownRightNext | sb_tree.h:357-361 | ++ at a node with only a right child enters it, in state Right |
| Traversal.AcrossNext | sb_tree.h:362-367 | ++ leaving a left child whose parent has a right child moves to that sibling, in state Sibling |
| Traversal.UpNextLeft | sb_tree.h:368-372 | ++ leaving a left child with no sibling climbs to the parent, in state Parent |
| Traversal.UpNextRight | sb_tree.h:368-372 | ++ leaving a right child climbs to the parent, in state Parent |
| Traversal.UpNextRoot | sb_tree.h:368-372 | ++ leaving the root climbs to the header, in state Parent |
| Traversal.DownRightPrev | sb_tree.h:378-382 | -- at a node with a right child enters that child, in state Right |
| Traversal.DownLeftPrev | sb_tree.h:383-387 | -- at a node with only a left child enters it, in state Left |
| Traversal.AcrossPrev | sb_tree.h:388-393 | -- leaving a right child whose parent has a left child moves to that sibling, in state Sibling |
| Traversal.UpPrevLeft | sb_tree.h:394-398 | -- leaving a left child climbs to the parent, in state Parent |
| Traversal.UpPrevRight | sb_tree.h:394-398 | -- leaving a right child with no sibling climbs to the parent, in state Parent |
| Traversal.UpPrevRoot | sb_tree.h:394-398 | -- leaving the root climbs to the header, in state Parent |
| Copying.RenumberCongruent | sb_tree.h:1130-1196 | the copy has the original's shape, keys and subtree sizes, node for node |
| Copying.CongruentEntries | sb_tree.h:1130-1196 | congruent trees have the same key sequence in order, so the copy iterates to the same values |
| Copying.CopyOrdered | sb_tree.h:1130-1196 | the copy of an ordered tree is ordered |
| Copying.RenumberIds | sb_tree.h:1130-1196 | the copy's nodes are distinct fresh slots b .. b + size - 1, so it shares no node with the original |
| Copying.RenumberPreOrder | sb_tree.h:1144-1193 | the j-th node of the copy in pre-order is slot b + j: one node is created per step of the walk, in the walk's order |
| Copying.CopyStart | sb_tree.h:1132-1143 | creating the copied root under the header starts the copy invariant at the root |
| Copying.CopyDownLeft | sb_tree.h:1146-1157 | creating the left child keeps the copy invariant one level down |
| Copying.CopyDownRight | sb_tree.h:1159-1170 | creating the right child of a node with no left child keeps the copy invariant one level down |
| Copying.CopyAcross | sb_tree.h:1172-1184 | creating the right sibling of a finished left subtree keeps the copy invariant |
| Copying.CopyUpLeft | sb_tree.h:1186-1191 | climbing out of a finished left child with no sibling keeps the invariant: the parent's subtree is complete |
| Copying.CopyUpRight | sb_tree.h:1186-1191 | climbing out of a finished right child keeps the invariant: the parent's subtree is complete |
| Copying.CopyNext | sb_tree.h:1144-1193 | one pass of copy_node's loop appends at most one node to the arena |
| Copying.CopyNextAt | sb_tree.h:1144-1193 | one pass of copy_node's loop keeps the copy invariant at the primitive iterator's next spot, and the loop measure decreases |
| Copying.CopyComplete | sb_tree.h:1193 | when the walk reaches the root in state Parent, the whole copy is linked under the header and correctly sized |
| Copying.CopyHolds | sb_tree.h:1194-1195 | setting the header's left and right to the copy's extremes makes the arena hold the copy |
| Insertion.AttachTree | sb_tree.h:1199-1264 | insertion adds exactly one node: the size grows by one and the new id joins the ids |
| Insertion.LandingAt | sb_tree.h:1208-1253 | the descent stops at a node whose side for the key (left when the key is less, otherwise right) is empty |
| Insertion.LandingAttach | sb_tree.h:1220-1249 | hanging the new leaf at the landing node gives the same tree as the recursive insertion |
| Insertion.UpStep | sb_tree.h:1226-1230 | one step of the rebalancing climb rebalances the parent, with the flag saying which side grew |
| Insertion.ClimbKeeps | sb_tree.h:1226-1230 | the rebalancing climb keeps the entries, the ids and distinctness |
| Insertion.AttachEntries | sb_tree.h:1199-1264 | the new entry goes in after every entry whose key is at most its key, so it follows its equals |
| Insertion.SortedInsert | sb_tree.h:1199-1264 | inserting at the upper-bound position keeps a sorted sequence sorted |
| Insertion.InsertEqualEntries | sb_tree.h:1199-1264 | insert_equal produces the entries with the new one at the upper-bound position; the tree stays ordered with distinct ids |
| Insertion.ApartStep | sb_tree.h:1276-1282 | insert_unique's descent keeps the invariant that no entry off the path equals the key |
| Insertion.ApartAbsent | sb_tree.h:1284-1332 | a descent that lands without meeting the key proves the key is absent |
| Insertion.HeaderQuiet | sb_tree.h:1226-1230 | when the landing node is the root of a balanced tree, the rebalancer call on the header would not rotate |
| Insertion.InsertQuiet | sb_tree.h:1199-1264 | inserting into a balanced tree never reaches the header rotation |
| Insertion.HeaderCalm | sb_tree.h:1454-1456 | in a balanced tree the closing rebalancer call on the header would not rotate |
| InsertLinks.AppendHolds | sb_tree.h:1202-1205 | a freshly allocated slot is not part of the tree, and the arena still holds the tree |
| InsertLinks.PendingStep | sb_tree.h:1213-1214 | incrementing the size of a node on the descent path restores its size field |
| InsertLinks.AttachMin | sb_tree.h:1224-1225 | header->left becomes the new node exactly when it is attached left of the leftmost node |
| InsertLinks.AttachMax | sb_tree.h:1243-1244 | header->right becomes the new node exactly when it is attached right of the rightmost node |
| Erasure.RemoveMinEntries | sb_tree.h:1391-1421 | removing the leftmost node of the right subtree drops exactly the first entry and the first id |
| Erasure.RemoveMaxEntries | sb_tree.h:1422-1452 | removing the rightmost node of the left subtree drops exactly the last entry and the last id |
| Erasure.ReplacementEntries | sb_tree.h:1389-1452 | replacing a node with two children by the successor or predecessor drops exactly that node's entry and id |
| Erasure.SuccessorUp | sb_tree.h:1413-1420 | the successor moved into the erased node's place keeps the in-order sequence of the two subtrees |
| Erasure.PredecessorUp | sb_tree.h:1444-1451 | the predecessor moved into the erased node's place keeps the in-order sequence of the two subtrees |
| Erasure.RemovalEntries | sb_tree.h:1359-1452 | the spliced tree differs from the original exactly by the erased node's entry at its position |
| Erasure.EraseUpKeeps | sb_tree.h:1454-1456 | the rebalancing climb after erasure keeps the entries, the ids and distinctness |
| Erasure.EraseFiresDue | sb_tree.h:1455 | a firing header call at the end of erase_node is one that is due, and none fires when the tree left behind is balanced |
| Erasure.RemovalTop | sb_tree.h:1359-1363 | the hole left by erase_node is at the top exactly when the erased node is the root with at most one child, the case whose flag is computed from the header |
| Erasure.EraseEntries | sb_tree.h:1353-1460 | erase_node removes exactly the erased node's entry and id; the tree stays ordered with distinct ids |
| Erasure.NodeAtDrop | sb_tree.h:886-895 | after dropping position p, the node at position p is the one that followed the erased node |
| Erasure.EraseKeyStart | sb_tree.h:910-911 | erase(key) starts with first and last at the lower and upper bound |
| Erasure.EraseKeyStep | sb_tree.h:912-916 | erasing first and moving to its successor keeps the loop invariant, with one more node erased |
| Erasure.EraseKeyNext | sb_tree.h:915 | the loop invariant carries over to the tree after the erasure |
| Erasure.EraseKeyEnd | sb_tree.h:912-917 | when first reaches last, the count is the number of elements equal to the key and exactly that block is gone |
| Erasure.KeyDropped | sb_tree.h:907-918 | after erase(key) no element with that key is left |
| EraseLinks.OnlyChild | sb_tree.h:1361 | the child that replaces a node with at most one child has one node fewer and no other ids |
| EraseLinks.Splice | sb_tree.h:1365-1372 | the stores that put the only child in the node's place link the remaining tree |
| EraseLinks.UnlinkStores | sb_tree.h:1365-1376 | after the splice and the header updates, the arena holds the tree without the node, up to the sizes on the path |
| EraseLinks.UnlinkMin | sb_tree.h:1373-1374 | the new header->left is rightly the leftmost node of the child or, with no child, the parent |
| EraseLinks.UnlinkMax | sb_tree.h:1375-1376 | the new header->right is rightly the rightmost node of the child or, with no child, the parent |
| EraseLinks.ShrinkAdvance | sb_tree.h:1378-1379 | one pass of the size-decrementing loop fixes one more size on the path |
| EraseLinks.Substitute | sb_tree.h:1413-1420 | moving the replacement into the erased node's slot links it to the erased node's parent and children, with its size |
| EraseLinks.SuccessorEnds | sb_tree.h:1391-1421 | replacing a node with two children by its successor leaves the leftmost and rightmost node unchanged, so the header's left and right may stay |
| EraseLinks.PredecessorEnds | sb_tree.h:1422-1452 | as above, with the predecessor |
| Teardown.PostOrderIds | sb_tree.h:1462-1483 | erase_root destroys exactly the tree's nodes |
| Teardown.PostOrderDistinct | sb_tree.h:1462-1483 | erase_root destroys each node once |
| Teardown.TearStart | sb_tree.h:1465 | the teardown starts at the root with nothing freed |
| Teardown.TearLeft | sb_tree.h:1468-1469 | going down to a left child keeps the teardown invariant |
| Teardown.TearRight | sb_tree.h:1470-1471 | going down to a right child keeps the teardown invariant |
| Teardown.TearDestroy | sb_tree.h:1472-1481 | destroying a leaf and clearing its parent's pointer keeps the teardown invariant |
| Teardown.TearEnd | sb_tree.h:1482 | at the header, the nodes were freed in post-order and every pointer into the tree is cleared |
| SbTrees.RotLLinked | sb_tree.h:1485-1503 | the stores of left_rotate link the rotated subtree under the same parent |
| SbTrees.RotRLinked | sb_tree.h:1505-1523 | the stores of right_rotate link the rotated subtree under the same parent |
| SbTrees.SuccessorRelink | sb_tree.h:1400-1420 | the stores that move the successor into place link the tree without the erased node |
| SbTrees.PredecessorRelink | sb_tree.h:1431-1451 | the stores that move the predecessor into place link the tree without the erased node |
| SbTrees.RightDescent | sb_tree.h:178-183 | operator++ at a node with a right child follows the right pointer into the subtree holding the successor |
| SbTrees.RootDecrementMisses | sb_tree.h:200-201 | at a root with a left subtree the predecessor exists, and root->right, where operator-- goes, is not it |
| SbTrees.SbTree.constructor | sb_tree.h:1010-1020 | create_header: the header's parent is null, its left and right are itself, and the tree is empty and valid |
| SbTrees.SbTree.Copy | sb_tree.h:571-579 | the copy constructor's copy is valid, congruent to the original (same shape, keys and sizes) and numbered 1, 2, ... in pre-order; its header names its root, leftmost and rightmost node |
| SbTrees.SbTree.LeftRotate | sb_tree.h:1485-1503 | the arena still holds the tree, now with the subtree rotated left; the new subtree root is returned |
| SbTrees.SbTree.RightRotate | sb_tree.h:1505-1523 | the arena still holds the tree, now with the subtree rotated right; the new subtree root is returned |
| SbTrees.SbTree.InsertRebalance | sb_tree.h:1525-1625 | insert_rebalance replaces the subtree by Maintain(subtree, flag) and returns its new root, and the arena still holds the tree; erase_rebalance(t, flag), lines 1576-1625, is the same code with every flag inverted, so the erase climb calls this method with !flag |
| SbTrees.SbTree.RebalanceRight | sb_tree.h:1527-1549 | with the flag set, the subtree becomes Maintain(subtree, true): case 1, case 2, or unchanged |
| SbTrees.SbTree.RebalanceLeft | sb_tree.h:1550-1572 | with the flag clear, the subtree becomes Maintain(subtree, false): case 3, case 4, or unchanged |
| SbTrees.SbTree.RightInnerCase | sb_tree.h:1533-1540 | case 1, right side: the double rotation and the two follow-up calls give Maintain |
| SbTrees.SbTree.RightOuterCase | sb_tree.h:1542-1547 | case 2, right side: the single rotation gives Maintain |
| SbTrees.SbTree.LeftInnerCase | sb_tree.h:1556-1563 | case 3, left side: the double rotation gives Maintain |
| SbTrees.SbTree.LeftOuterCase | sb_tree.h:1565-1570 | case 4, left side: the single rotation gives Maintain |
| SbTrees.SbTree.Empty | sb_tree.h:774-777 | empty() is true if and only if there are no elements |
| SbTrees.SbTree.Size | sb_tree.h:779-782 | size() is the number of elements |
| SbTrees.SbTree.LowerBound | sb_tree.h:1052-1067 | lower_bound returns the node at the lower-bound position, whose key is the entry's key, or the header past the end |
| SbTrees.SbTree.UpperBound | sb_tree.h:1070-1085 | upper_bound returns the node at the upper-bound position, or the header past the end |
| SbTrees.SbTree.Find | sb_tree.h:1032-1049 | find returns the first element with the key when there is one, and the header when there is none |
| SbTrees.SbTree.At | sb_tree.h:794-802 | at reports a domain error exactly when the tree is empty, and out of range exactly when it is nonempty and the key is absent; otherwise it returns the first element with the key |
| SbTrees.SbTree.Rank | sb_tree.h:1107-1128 | rank is the position of the first element with the key when the key is present, and size_type(-1) otherwise |
| SbTrees.SbTree.Select | sb_tree.h:1087-1104 | select(k) is the node at position k, or the header when k is at least the size |
| SbTrees.SbTree.LeftmostFrom | sb_tree.h:996-1001 | leftmost returns the first node of the subtree in order |
| SbTrees.SbTree.RightmostFrom | sb_tree.h:1003-1008 | rightmost returns the last node of the subtree in order |
| SbTrees.SbTree.DescendNext | sb_tree.h:178-183 | from a node with a right child, operator++ reaches the next entry |
| SbTrees.SbTree.ClimbNext | sb_tree.h:184-194 | from a node with no right child, operator++'s climb reaches the entry after the node's subtree, or the header |
| SbTrees.SbTree.Increment | sb_tree.h:176-196 | operator++ moves from any element to the next one in order, or to the header from the last |
| SbTrees.SbTree.PrimIncrement | sb_tree.h:350-374 | the primitive iterator's ++ performs the step PrimNext: the next node in pre-order and the state naming the move |
| SbTrees.SbTree.PrimDecrement | sb_tree.h:376-400 | the primitive iterator's -- performs the step PrimPrev: the next node in mirrored pre-order and the state naming the move |
| SbTrees.SbTree.ClimbPrev | sb_tree.h:209-218 | from a node with no left child, operator--'s climb reaches the entry before the node's subtree |
| SbTrees.SbTree.StepBack | sb_tree.h:202-218 | from a non-root element that is not the first, operator-- moves to the previous element |
| SbTrees.SbTree.DecrementAsWritten | sb_tree.h:198-220 | operator-- as written: from the header it moves to the last element; from the root it moves to root->right; from any other element it moves to the predecessor |
| SbTrees.SbTree.Decrement | sb_tree.h:198-220 | operator-- with the header recognised by its size 0: from the header it moves to the last element, and from every element that is not the first, the root included, to its predecessor |
| SbTrees.SbTree.HeaderRebalance | sb_tree.h:1525-1574 | a rebalancer call on the header returns the header, and reports whether the source's call would rotate |
| SbTrees.SbTree.ClimbStep | sb_tree.h:1229 | one rebalancer call of the insertion climb: it rebalances the parent of the subtree, or reports the header call |
| SbTrees.SbTree.InsertClimb | sb_tree.h:1226-1230 | the insertion climb turns the tree into Climb of the attached subtree; it rotates at the header only when the landing node is the root and HeaderFires holds |
| SbTrees.SbTree.GrowDown | sb_tree.h:1210-1250 | the descent of insert_equal finds the landing node and adds one to every size on the path |
| SbTrees.SbTree.AttachLeaf | sb_tree.h:1220-1225 | linking the new leaf under the landing node, with the header's left or right updated, gives the attached tree |
| SbTrees.SbTree.InsertEqual | sb_tree.h:1199-1264 | insert_equal returns the new node, a fresh slot; the tree is valid and its entries are the old ones with the new entry after its equals; rotates is true exactly when the source's header call would rotate, which never happens on a balanced tree |
| SbTrees.SbTree.SeekUnique | sb_tree.h:1276-1282 | insert_unique's descent either meets a node with the key or lands where the key would go, and then the key is absent |
| SbTrees.SbTree.SizeUp | sb_tree.h:1295-1296 | the loop incrementing the sizes from the landing node to the root restores every size |
| SbTrees.SbTree.UniqueLand | sb_tree.h:1284-1332 | insert_unique's attach and climb give the same tree as insert_equal |
| SbTrees.SbTree.InsertUnique | sb_tree.h:1267-1351 | insert_unique inserts if and only if the key is absent; otherwise nothing changes and the existing node is returned; when it inserts, the tree and entries are insert_equal's; rotates is true exactly when the source's header call would rotate |
| SbTrees.SbTree.ShrinkPath | sb_tree.h:1378-1379 | the loop decrementing sizes from a parent up to the header restores every size and changes no pointer |
| SbTrees.SbTree.UnlinkExtremes | sb_tree.h:1373-1376 | leftmost and rightmost of the only child, computed where the header needs them |
| SbTrees.SbTree.SpliceOut | sb_tree.h:1365-1372 | the splice stores: the child's parent and the parent's (or header's) child pointer |
| SbTrees.SbTree.TakePlace | sb_tree.h:1413-1420 | the replacement takes the erased node's parent link and size |
| SbTrees.SbTree.SuccessorBypass | sb_tree.h:1400-1412 | the successor takes over the right subtree and its old parent takes its right child |
| SbTrees.SbTree.ReplaceBySuccessor | sb_tree.h:1391-1421 | erasing a node with two children through its successor leaves the arena holding the replaced tree; the rebalance starts from the successor's old parent with the right flag |
| SbTrees.SbTree.PredecessorBypass | sb_tree.h:1431-1443 | the predecessor takes over the left subtree and its old parent takes its left child |
| SbTrees.SbTree.ReplaceByPredecessor | sb_tree.h:1422-1452 | erasing a node with two children through its predecessor leaves the arena holding the replaced tree; the rebalance starts from the predecessor's old parent with the right flag |
| SbTrees.SbTree.Unlink | sb_tree.h:1359-1380 | erasing a node with at most one child leaves the arena holding the tree with the child in its place; the flag says on which side of its parent the node hung, and for the root whether it was the rightmost node |
| SbTrees.SbTree.EraseStep | sb_tree.h:1455-1456 | one erase_rebalance call of the climb rebalances the parent with the inverted flag; on the header it changes nothing and rotates is exactly HeaderFires with the inverted flag |
| SbTrees.SbTree.EraseClimb | sb_tree.h:1454-1456 | the erase climb turns the tree into EraseUp; rotates is exactly HeaderFires of the final header call, whose flag is the first call's when the hole is at the top and otherwise whether the new root is the rightmost node |
| SbTrees.SbTree.EraseNode | sb_tree.h:1353-1460 | erase_node leaves a valid tree whose entries are the old ones without the erased node, and whose ids lose exactly that node; rotates is exactly EraseFires, and false on a balanced result |
| SbTrees.SbTree.EraseAt | sb_tree.h:886-895 | erase(pos) returns the element that followed pos, removes exactly pos's entry and leaves a valid tree; erase(end()) changes nothing; rotates is exactly EraseFires |
| SbTrees.SbTree.EraseNext | sb_tree.h:912-916 | one pass of erase(key)'s loop erases first and moves to the element after it; rotates is exactly EraseFires of that erasure |
| SbTrees.SbTree.EraseKey | sb_tree.h:907-918 | erase(key) returns the number of elements equal to the key, removes exactly that block and leaves a valid tree with no element of that key |
| SbTrees.SbTree.EraseRoot | sb_tree.h:1462-1483 | erase_root frees the nodes in post-order and clears the header's child pointer at the last node freed |
| SbTrees.SbTree.Clear | sb_tree.h:929-938 | clear frees every node and resets the header to an empty tree |
| SbTrees.SbTree.CopyRoot | sb_tree.h:1132-1143 | copy_node's first node is a copy of the root, hung under the header |
| SbTrees.SbTree.CopyBranch | sb_tree.h:1146-1191 | one pass of copy_node's loop body performs CopyNext |
| SbTrees.SbTree.CopyStep | sb_tree.h:1144-1193 | one pass of copy_node's loop keeps the invariant and moves the primitive iterator one step |
| SbTrees.SbTree.CopyEnds | sb_tree.h:1194-1195 | copy_node's last stores set the header's left and right to the copy's extremes |
| SbTrees.SbTree.CopyNode | sb_tree.h:1130-1196 | copy_node builds a valid copy congruent to the source tree in fresh slots, numbered in pre-order; the header names its root, leftmost and rightmost node; no other slot changes |

## Left out

- SbTrees.SbTree.HeaderRebalance: no rotation is modelled at the header. When the landing node is the root, the source calls the rebalancer on the header, and erasure makes one last call there. If a case of the rebalancer applied there, the source would rotate around the header as if the extreme nodes, its left and right, were its children, and corrupt the links. The method reports that case in `rotates` and changes nothing. `Insertion.HeaderQuiet`, `Insertion.InsertQuiet` and `Insertion.HeaderCalm` prove the case never arises on a balanced tree.
- SbTrees.SbTree.InsertEqual: the state it describes is the model's, where the header call changes nothing. When `rotates` is true the source's state would differ, as HeaderRebalance explains. `rotates` is characterised exactly and is false on every balanced tree.
- SbTrees.SbTree.InsertUnique: the same as InsertEqual.
- SbTrees.SbTree.EraseNode: the same as InsertEqual. `rotates` is exactly `Erasure.EraseFires`, which is false when the tree left behind is balanced.
- SbTrees.SbTree.EraseAt: the same as EraseNode.
- SbTrees.SbTree.EraseNext: the same as EraseNode.
- SbTrees.SbTree.EraseKey: the same as EraseNode. Its `rotates` is stated only as false when nothing is erased; the exact report of each erasure is EraseNext's.
- SbTrees.SbTree.At: the two exceptions are returned as the `DomainError` and `OutOfRange` values of `AtResult` instead of being thrown. The reference to the data becomes the node's slot. The error texts are not modelled.
- SbTrees.SbTree.Rank: `size_type` is an unbounded integer. The "not present" value `size_type(-1)` is written out as 2^64 - 1, the value for a 64-bit `size_type`.
- SbTrees.SbTree.Size: the size fields and the count are unbounded integers. Overflow is not modelled.
- SbTrees.SbTree.Select: `k` is a natural number. The wrap-around of an unsigned argument is not modelled.
- SbTrees.SbTree.EraseNode: `destroy_node` returns nothing to an allocator. The erased slot stays in the arena, unreachable.
- SbTrees.SbTree.LeftRotate: the stores are reordered. The record of the rotated node is written in one update after its parent's child pointer; the source writes `t->right` first. Each field is written once and no read sees the moved write, so the final arena is the same.
- SbTrees.SbTree.RightRotate: the stores are reordered in the same way as in LeftRotate, with the same final arena.
- SbTrees.SbTree.Unlink: `leftmost(x)` and `rightmost(x)` are computed before the splice stores. They depend only on the child's subtree, which the splice does not touch.
- SbTrees.SbTree.Decrement: requires a position other than the first. The source's `--begin()` is undefined.
- SbTrees.SbTree.DecrementAsWritten: requires a position other than the first, as Decrement does.
- SbTrees.SbTree.Increment: requires an element. `++end()` is not modelled.
- SbTrees.SbTree.Copy: the other tree's arena is read as a value. Aliasing between the two trees is excluded.
- Keys and values: keys are `int` compared with `<`. `value_type` and the key-of-value extraction are not modelled. The header's payload, `value_type()`, is 0.
- Allocation: `create_node` followed by its field writes is one record appended to the arena. Allocation failure is not modelled.
- The copy constructor with an allocator argument (580-588) is modelled by `Copy`. The copy assignment operator (620-630) is left out: it calls a `copy_root` that the header does not define.
- Move construction, move assignment and `swap` are left out. They exchange the header pointers and do no node surgery.
- Several wrappers are left out: range and initializer-list construction, `insert_equal`/`insert_unique` over ranges and with hints, `emplace`, and `erase(first, last)`. Each is a loop of the single-element operations that are modelled.
- Reverse iterators, `pbegin`/`pend`, the const iterators and the iterator type traits are left out. They are thin wrappers over the modelled steps.
- The full size-balance theorem is left out: the model does not prove that insertion and erasure keep `Balanced`. It is a hypothesis for the header-rotation lemmas above.
- Concurrency and exception safety are left out. The source has none.

## Findings

| source | as written | input that shows it | evidently intended | confidence | as-written member | corrected member |
|---|---|---|---|---|---|---|
| sb_tree.h:200-201 | `operator--` takes a node for the header when `node->parent->parent == node`. That also holds at the root, whose parent is the header and whose grandparent is the root itself, so decrementing the root moves to `root->right` | a tree with root 2 and left child 1: decrementing an iterator at 2 yields the root's right child (null here) instead of node 1 | only end() (the header) jumps to the last element; the root moves to its predecessor like any other node | not executed | SbTrees.SbTree.DecrementAsWritten, SbTrees.RootDecrementMisses | SbTrees.SbTree.Decrement |
