# Tree rotation playground, modelled in Dafny

The playground draws an unbalanced binary search tree and lets the user click
a node to rotate it one step towards the root. This project models the tree
logic behind it and proves properties of that model.

**Nodes** (`TreeNode`) are parent-linked:
- Each node holds an immutable value and three links: `_left`, `_right` and the back-reference `_parent`.
- The `_parent` back-reference holds the holding node and the side it is held on.
- The `left` / `right` setters write a slot and repoint the new child's `_parent` in one step.
- `rotate()` performs a single rotation in O(1). The pivot takes its parent's place, the old parent becomes the pivot's child on the opposite side, and the pivot's former opposite-side subtree moves into the slot the pivot vacated.
- `removeFromTree()` clears the slot of the parent that holds the node.

**The driver** (`Application`):
- builds a tree by unbalanced insertion of 20 values under a root holding 50, with ties going right and duplicates kept;
- on a click, rotates the node under the mouse unless it is the root, and adopts the pivot as the root when it ends up without a parent;
- validates the tree by comparing every node with its direct children.

## How the model is built

- `trees.dfy` (module `Trees`):
  - binary trees as values, and positions in them as paths of sides;
  - the two structural edits: replacing the subtree at a position, and the single rotation (`RotateRoot`, `RotateAt`);
  - the in-order lemmas about both edits.
- `search_trees.dfy` (module `SearchTrees`):
  - the trees seen through their values: insertion (`Insert`, `InsertAll`);
  - the ordering the program keeps (`Ordered`: the in-order values never decrease);
  - the comparisons validation makes (`Checks`), in the order it makes them.
- `tree_node.dfy` (module `TreeNode`):
  - the nodes live in an arena, `NodeArena`, a class whose field `nodes` is a sequence of records indexed by node id;
  - the setters, `rotate()` and `removeFromTree()` are methods of the arena that update it in place;
  - each method is specified by a function on the records: `Attach` for a setter, `Rotated` for `rotate()`;
  - `RotationEffect` lists field by field what `rotate()` changes.
- `node_links.dfy` (module `NodeLinks`):
  - the tree a set of records encodes. `Encodes(t, ns)` says that the shape `t` (a tree of node ids) matches the `_left` / `_right` slots, that every child's `_parent` names its holder and side, that no node occurs twice (so there is no cycle), and that the root is the node without a parent;
  - `Abs(t, ns)` is the tree of values;
  - the lemmas show that the setters, `rotate()` and `removeFromTree()` keep the encoding and act on `Abs` as the structural edits do.
- `application.dfy` (module `Application`):
  - `validateNode` as a function returning a `Result`;
  - the driver as a class holding the arena, the root id, the click flag and the ghost shape of the current tree;
  - `Valid()` says the records encode the shape, `treeRoot` is its root and its values are ordered;
  - every method keeps `Valid()`.

**Ordering.** The invariant the model keeps is the sorted in-order sequence. The comments of `rotate()` reason with strict comparisons. Lines 51-52 of `src/ts/treeNode.ts` assume that no two nodes hold the same value. Insertion admits duplicates: the early return at line 143 of `src/ts/application.ts` is commented out.
- With a duplicate, rotation breaks the strict form "left subtree smaller, right subtree not smaller". `RotateBreaksStrictOrder` shows this, although insertion alone keeps that form (`InsertStrictlyOrdered`).
- Rotation does keep the sorted in-order sequence (`RotateOrdered`). That is the ordering `validateNode` accepts (`OrderedPairsOrdered`), so `validateTree` succeeds on every tree built by insertion and rotation (`ValidateTree`).

## Model

| member | source | states |
|---|---|---|
| TreeNode.Attach | src/ts/treeNode.ts:14-26 | Setting slot `s` of `p` to `c` stores `c` there. If `c` is a node, its back-reference becomes `(p, s)`. Values, every other slot and every other back-reference stay as they were. That includes the previous occupant's, which is not cleared. References stay within the arena. |
| TreeNode.NodeArena.SetChild | src/ts/treeNode.ts:14-26 | The coupled setter writes the slot and the child's back-reference together. The new records are `Attach` of the old ones. |
| TreeNode.NodeArena.NewNode | src/ts/treeNode.ts:3-8 | `new TreeNode(value)` adds one record with that value and no links, under a fresh id. |
| TreeNode.NodeArena.Rotate | src/ts/treeNode.ts:39-56 | Requires the pivot to have a parent (the `console.assert`). The new records are `Rotated` of the old ones. |
| TreeNode.RotatedFields | src/ts/treeNode.ts:39-56 | The effect of `rotate()` when pivot, old parent, grandparent and displaced node are four different nodes. The grandparent's slot holds the pivot, and the pivot takes the old parent's back-reference (none, if the old parent was the root). The pivot's opposite slot holds the old parent, whose back-reference is (pivot, opposite side). The old parent's slot on the pivot's side holds the displaced node, which points back at it. The pivot's same-side child and every other node are untouched. |
| TreeNode.RotatedValues | src/ts/treeNode.ts:39-56 | `rotate()` changes no value and creates no node. |
| TreeNode.NodeArena.RemoveFromTree | src/ts/treeNode.ts:73-77 | Requires a parent. The new records are the old ones with the parent's slot that holds the node cleared. |
| TreeNode.ClearSlotOnly | src/ts/treeNode.ts:73-77 | Clearing a slot changes exactly that slot. Every back-reference, the removed node's included, and every other node's record stay as they were. |
| NodeLinks.RotateKeepsEncoding | src/ts/treeNode.ts:39-56 | Rotating the pivot at position `pre + [s]` of an encoded tree gives records that encode the rotated shape: the links stay consistent, there is still no cycle, and exactly the root is parentless. The root is the pivot when the old parent was the root, and is unchanged otherwise. |
| NodeLinks.RotateValues | src/ts/treeNode.ts:35-70 | The values of the rotated records, in their new shape, are the single rotation of the old value tree. |
| Trees.RotateInOrder | src/ts/treeNode.ts:35-38 | A rotation keeps the in-order sequence of the whole tree (rule 1 of `rotate()`). |
| Trees.RotateElems | src/ts/treeNode.ts:39-56 | A rotation keeps the set of nodes of the tree. |
| SearchTrees.RotateOrdered | src/ts/treeNode.ts:60-70 | A tree is ordered after a rotation if and only if it was ordered before. |
| SearchTrees.RotateBreaksStrictOrder | src/ts/treeNode.ts:51-52 | For the duplicate 5 inserted under 5, the strict ordering holds before the rotation but not after, while the sorted in-order sequence holds after. |
| NodeLinks.RemoveKeepsEncoding | src/ts/treeNode.ts:73-77 | Removing the node at a non-root position clears the slot its parent `(q, s)` holds it in. The records then encode the tree with that subtree cut out, and the root is unchanged. The values are those of the old tree with the subtree replaced by an empty one. |
| SearchTrees.RemoveOrdered | src/ts/treeNode.ts:73-77 | Cutting a subtree out drops exactly its values from the in-order sequence, and an ordered tree stays ordered. |
| NodeLinks.SetChildKeepsEncoding | src/ts/treeNode.ts:14-26 | The setter keeps the encoding when it clears a slot or hangs a fresh childless node that is not in the tree. The root is unchanged. |
| NodeLinks.SetChildValues | src/ts/treeNode.ts:14-26 | The values after the setter are the old value tree with the new subtree's values at that position. |
| NodeLinks.NewNodeKeepsEncoding | src/ts/treeNode.ts:3-8 | A new node is not in the tree. Adding it changes neither the encoding nor the values of the tree. |
| NodeLinks.SingleNodeEncodes | src/ts/application.ts:134 | A fresh node alone encodes a one-node tree holding its value. |
| NodeLinks.ParentlessIsRoot | src/ts/application.ts:119-121 | In an encoded tree, a node has no parent if and only if it is the root. So after a rotation the pivot is parentless exactly when it is the new root. |
| SearchTrees.Descent | src/ts/application.ts:142-158 | The descent of insertion ends at an empty slot. It is no longer than the tree has nodes, so the insertion loop terminates. |
| SearchTrees.DescentSteps | src/ts/application.ts:145-157 | At every step of the descent, the path goes left exactly when the value is smaller than the node's value. Ties go right. |
| SearchTrees.InsertAsLeaf | src/ts/application.ts:140-160 | Insertion hangs one new leaf with the value at the end of the descent and changes nothing else. |
| SearchTrees.InsertStep | src/ts/application.ts:145-157 | One loop iteration moving to the chosen child leaves the result of the insertion unchanged. |
| SearchTrees.InsertMultiset | src/ts/application.ts:143-157 | Insertion adds exactly the inserted value to the values and one node to the tree. Duplicates are kept. |
| SearchTrees.InsertOrdered | src/ts/application.ts:140-160 | Insertion keeps the tree ordered. |
| SearchTrees.InsertStrictlyOrdered | src/ts/application.ts:140-160 | Insertion keeps the strict ordering (left subtree smaller, right subtree not smaller) and adds the value to the set of values. |
| Application.Application.BadInsertIntoTree | src/ts/application.ts:140-160 | Keeps the driver's invariant and the root. The values become `Insert` of the old ones. The new node hangs under the last node visited: on the left if the value is smaller than that node's value, otherwise on the right, in a slot that was empty. The records change by exactly one added node and that one setter call. |
| SearchTrees.InsertAllMultiset | src/ts/application.ts:135-137 | Inserting a sequence of values adds exactly those values. |
| SearchTrees.InsertAllRoot | src/ts/application.ts:134-137 | Insertions never replace the root. |
| SearchTrees.InsertAllOrdered | src/ts/application.ts:135-137 | Insertions keep the tree ordered. |
| SearchTrees.BadTreeFacts | src/ts/application.ts:133-138 | The starting tree has 21 values, which are 50 plus the 20 drawn values, in order, with 50 at the root. |
| Application.Application.BuildBadTree | src/ts/application.ts:133-138 | A new root holding 50, then the 20 values inserted in turn. The driver's invariant holds, and the tree's values are those insertions. |
| Application.Application.constructor | src/ts/application.ts:38-39 | Startup: the click flag is clear and the first tree is built from the drawn values. |
| Application.Application.HandleClick | src/ts/application.ts:116-124 | A rotation happens if and only if a click arrived and the hovered node is not the root. When it does, the pivot is that node, the records are `Rotated` of the old ones, and the shape is the rotated shape. The root becomes the pivot exactly when the old parent was the root. Otherwise nothing changes. The flag is cleared either way, and the invariant and in-order sequence are kept. |
| Application.ValidateNode | src/ts/application.ts:163-172 | A reported value is the value of a node of the tree. |
| Application.ChecksAreViolations | src/ts/application.ts:165-170 | The two comparisons made at a node fail exactly when its left child is greater or its right child is smaller. |
| Application.ValidateNodeCorrect | src/ts/application.ts:163-172 | `validateNode` succeeds if and only if every node passes the comparison with both its direct children. |
| Application.ValidateNodeAllPass | src/ts/application.ts:163-172 | `validateNode` succeeds if and only if none of the comparisons it makes fails. |
| Application.ValidateNodeFirst | src/ts/application.ts:163-172 | A failure is the first failing comparison, in the order left child, left subtree, right child, right subtree. It is reported as the parent's value and the child's side. |
| Application.ValidateNodeReports | src/ts/application.ts:163-172 | A failure names a node of the tree whose child on the reported side breaks the comparison. |
| SearchTrees.AllPassPairsOrdered | src/ts/application.ts:163-172 | All comparisons pass if and only if every node passes the comparison with both its direct children. |
| SearchTrees.PairsOrderedIsLocal | src/ts/application.ts:163-172 | The check compares direct parent-child pairs only. A grandchild on the wrong side of its grandparent passes, although the values are not in order. |
| SearchTrees.OrderedPairsOrdered | src/ts/application.ts:162 | A tree whose in-order values are sorted passes every parent-child comparison. |
| Application.Application.ValidateTree | src/ts/application.ts:162-180 | On the driver's tree, validation always succeeds ("should always return true"). |

## Left out

- Drawing is not modelled: the canvas, `renderNode`'s layout by layers, the hit-testing of the mouse against nodes (`line`, `square`, `distSquared`) and the "Min" height readout. These are display, geometry and floating point. The hovered node is a parameter of `HandleClick`.
- Animation frames, DOM events, buttons and the mouse are not modelled. The `mousedown` handler only sets the click flag, which is a field here. The add-node button calls `badInsertIntoTree`, which is modelled.
- `Math.random` is not modelled. The values to insert are parameters.
- `alert` is not modelled. `validateTree` returns its verdict as a `Result`. The thrown message strings are modelled as `Violation(value, side)`.
- `console.assert` is modelled as a precondition, not as a logged message followed by a crash on the `!` dereference.
- Node values are unbounded integers rather than JavaScript doubles. The program only inserts integers from 0 to 99 and 50, and only compares values.
- Object identity is modelled as arena indices. A node no longer reachable, such as the old tree after `buildBadTree`, stays in the arena instead of being collected.
- NodeLinks.RemoveKeepsEncoding: the subtree cut out keeps its own links and its root keeps its stale back-reference, as in the program. The lemma only states that the remaining tree is well encoded.
- TreeNode.NodeArena.Rotate: the O(1) cost of `rotate()` (rule 2) is not stated. The method is a fixed sequence of at most three setter calls and one field write, with no loop.
