# Unbalanced binary search tree, modelled in Dafny

This project models `src/tree.rs` of bst-rust. That file is an unbalanced binary search tree over a totally ordered element type. It supports insertion, deletion, membership, size and a lazy in-order iterator built on an explicit stack.

- `link.dfy`, module `Links`: the slots and nodes.
  - A `Link` slot is `Empty` or `NonEmpty(node)`. A `Node` holds a value and a left and a right slot.
  - The ghost functions `Elems`, `InOrder` and `IsBST` say what a subtree contains and what ordering it keeps.
  - The queries `Size`, `EmptyTree`, `Contains`, `IsLeaf`, `HasLeftChild` and `HasRightChild` are functions.
  - `Insert`, `Delete` and `DeleteMin` change a slot in place in the original. Here each is a recursive method that takes the slot's old contents and returns what the slot holds afterwards. This is the plain-value reading of the original's take-out-then-write-back of the slot.
- `tree.dfy`, module `Trees`: the two classes.
  - `Tree` holds the `root` slot and forwards each operation to it. Its invariant `Valid()` is BST ordering.
  - `TreeIterator` holds the stack `unvisited`, a `seq<Node>` whose last element is the top. `PushLeftNodes` is the `while` loop that pushes a left spine. `Next` pops a node, pushes the left spine of its right subtree and yields the node's value.
  - `Remaining()` is what the iterator has still to yield. `Traverse` runs a fresh iterator until it returns None, as the `for` loop of the tests does.
- `scenarios.dfy`, module `Scenarios`: the unit tests of `src/lib.rs`, written as methods whose postconditions are the tests' assertions.

Design decisions:
- The element type `T: Ord` is `int`. The comparison `cmp` is the function `Cmp`, which returns `Less`, `Equal` or `Greater`. The tests store one-letter strings; here each letter is keyed by its character code, which orders the letters the same way.
- `Delete` and `DeleteMin` require `IsBST` of their slot. That is the invariant the public `Tree` keeps; the source never reaches these functions with anything else. `Insert` needs no precondition. It preserves ordering when the tree had it.
- `delete_min` keeps its optional result. An empty slot yields `None` and stays empty, exactly as at src/tree.rs:147. In the two-children case of `Delete` the right child is known to be non-empty, so the `.unwrap()` at src/tree.rs:119 becomes `min.value`: the verifier proves at that point that the result is `Some`.
- The tree-level `Insert` and `Delete` state the size change with `Links.Size(root)`, the structural count that `size` returns. `Tree.Size` is proved equal to that count and to the number of stored values.
- The node detached by `delete_min` is returned with empty child slots. That holds in both of its base cases: a leaf's children are empty, and in the right-child case the child slot is emptied before the node is returned.

## Model

| member | source | states |
|---|---|---|
| `Links.Size` | src/tree.rs:164-169 | the recursive count of occupied slots equals the length of the subtree's in-order sequence |
| `Links.SizeIsCardinality` | src/tree.rs:164-169 | on a search tree the size is the number of distinct stored values |
| `Links.EmptyTree` | src/tree.rs:171-176 | true exactly when the slot stores no value, that is when its size is 0 |
| `Links.Contains` | src/tree.rs:178-188 | a hit is always a stored value; on a search tree the search is true iff the value is stored (so false on an empty slot) |
| `Links.IsLeaf` | src/tree.rs:192-194 | true iff the node's subtree holds only the node's own value |
| `Links.HasLeftChild` | src/tree.rs:196-198 | true iff the left subtree stores some value |
| `Links.HasRightChild` | src/tree.rs:200-202 | true iff the right subtree stores some value |
| `Links.Insert` | src/tree.rs:85-96 | new element set is old set ∪ {v}; BST ordering is preserved; a value the search finds leaves the slot unchanged; otherwise the size grows by exactly 1 |
| `Links.DeleteMin` | src/tree.rs:145-162 | None iff the slot was empty (and it stays empty); otherwise the detached node has empty children and holds the minimum of the subtree, the remaining subtree is still a BST and holds exactly the other values, and the size drops by 1 |
| `Links.Delete` | src/tree.rs:98-140 | on a BST: returns Some(v) iff v was stored, else None; the new set is old set − {v}; ordering is kept; an absent value leaves the slot unchanged; the size drops by 1 exactly when v was present |
| `Links.ReplaceByMinimum` | src/tree.rs:116-123 | the minimum of the right subtree is above everything in the left subtree and below everything left in the right subtree, so the reused node is ordered and has lost exactly its old value, and the size drops by 1 |
| `Links.RebuildLeft` | src/tree.rs:125-130 | reattaching the node over a left subtree that lost v keeps ordering and removes exactly v |
| `Links.RebuildRight` | src/tree.rs:131-136 | the same for the right subtree |
| `Links.InOrderElems` | src/tree.rs:63-72 | the in-order sequence lists exactly the stored values |
| `Links.InOrderAscending` | src/tree.rs:63-72 | the in-order sequence of a search tree is strictly ascending |
| `Trees.Tree.constructor` | src/tree.rs:23-25 | a new tree has an empty root, is ordered and holds nothing |
| `Trees.Tree.Insert` | src/tree.rs:27-29 | the tree stays ordered and holds old contents ∪ {v}; a present value leaves the root unchanged, an absent one grows the size by 1 |
| `Trees.Tree.Delete` | src/tree.rs:31-33 | the tree stays ordered and holds old contents − {v}; present: returns Some(v) and the size drops by 1; absent (also on an empty tree): returns None and the root is unchanged |
| `Trees.Tree.Size` | src/tree.rs:35-37 | the number of distinct values in the tree |
| `Trees.Tree.Contains` | src/tree.rs:39-41 | true iff the value is in the tree |
| `Trees.Tree.Iter` | src/tree.rs:43-47 | a fresh iterator whose stack is the root's left spine and which has the tree's in-order sequence still to yield |
| `Trees.TreeIterator.constructor` | src/tree.rs:44 | an iterator with an empty stack has nothing to yield |
| `Trees.TreeIterator.PushLeftNodes` | src/tree.rs:55-60 | the stack grows by the slot's left spine, and the slot's in-order sequence is scheduled ahead of what was pending |
| `Trees.PendingSpine` | src/tree.rs:55-60 | pushing the left spine of a subtree onto any stack puts that subtree's in-order sequence in front of the stack's pending output |
| `Trees.TreeIterator.Next` | src/tree.rs:66-72 | None iff nothing is pending (stack empty, and it stays so); otherwise yields the top node's value, which is the first pending value, pops it, pushes the left spine of its right subtree, and leaves the rest of the pending sequence |
| `Trees.Traverse` | src/lib.rs:67-70 | running a fresh iterator to None yields exactly the in-order sequence, strictly ascending, of length size, containing exactly the tree's values |
| `Scenarios.ContainsAfterInserts` | src/lib.rs:9-19 | after inserting C, B, D: A and E are absent, B, C and D present |
| `Scenarios.RemoveNodeWithTwoChildren` | src/lib.rs:22-32 | after inserting B, A, C: deleting B returns Some(B) and the size goes from 3 to 2 |
| `Scenarios.RemoveUnknownNode` | src/lib.rs:35-45 | after inserting B, A, C: deleting D returns None and the size stays 3 |
| `Scenarios.RemoveFromEmptyTree` | src/lib.rs:48-55 | on an empty tree the size is 0, deleting D returns None and the size stays 0 |
| `Scenarios.SevenLetterTree` | src/lib.rs:59-66 | inserting D, A, B, C, F, E, G gives an ordered tree holding those seven letters |
| `Scenarios.AscendingLetters` | src/lib.rs:71 | the only strictly ascending sequence holding those seven letters is A to G |
| `Scenarios.Iterate` | src/lib.rs:58-72 | iterating that tree yields A, B, C, D, E, F, G |

## Left out

- The element type is `int` rather than any `T: Ord`. For a general `Ord`, two values that compare `Equal` need not be identical. The returned `Some(boxed_node.value)` is then the stored value, not the argument; with integers the two coincide.
- `size` returns a `usize`. The model counts with unbounded naturals because a tree cannot hold more nodes than memory allows, so the count cannot overflow.
- Ownership mechanics are not modelled: `Box`, the `mem::replace` placeholder left in a slot during a call, and the iterator's lifetime `'a`. Slots are replaced as whole values.
- The iterator's stack holds node values, not references. This is the same thing because the tree cannot be mutated while an iterator borrows it. Mutation interleaved with a live iterator is not modelled, since the borrow checker rules it out.
- `impl IntoIterator for &Tree` (src/tree.rs:75-82) only forwards to `iter()`. `Traverse` calls `Iter` directly.
- `#[derive(Debug)]` and the `println!` dumps in the tests print diagnostics only. Their format is no contract.
- The tests' string concatenation `s += c` is not modelled. `Traverse` returns the sequence of yielded values, and `Scenarios.Iterate` states that sequence.
