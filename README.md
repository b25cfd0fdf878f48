# B-tree sort validator, modelled in Dafny

The system checks whether a B-tree-shaped structure of integer keys is
correctly ordered. Each node holds a list of keys and a list of child slots,
and any slot may be null. `AmazonBTree.IsSorted` treats a tree with a null
root as sorted and otherwise asks the root. `Node.isSorted` scans the keys
from left to right:

- where key `i` has a left subtree, that subtree must be sorted, its last key
  must be below key `i`, and (for `i > 0`) its first key must be above key `i - 1`;
- where key `i` has no left subtree, key `i` must be above key `i - 1`;
- at the last key, a present right subtree must be sorted and its first key
  must be above that key.

The scan returns `false` at the first check that fails. `getFirstKey` and
`getLastKey` walk down the left-most and right-most spines.

Files:

- `Wrappers.dfy`: `Option`. `None` stands for a null reference.
- `StrictOrder.dfy`: strictly increasing sequences, and how they split at a
  concatenation.
- `AmazonBTree.dfy`: the model.
  - Data: `Node(keys, children)` and `Tree(root)`.
  - The lookups and the first/last key functions.
  - `Sorted`, `SortedFrom`, `KeyChecks`, `LeftChecks`, `RightChecks`: the
    validation as the loop of `Node.isSorted` computes it.
  - The method `IsSorted`: a `while` loop with the same early returns and
    recursive calls. `TreeIsSorted` is the tree-level entry.
  - The meaning of "sorted": `InOrder(n)` is child 0, key 0, child 1, …,
    key m-1, child m, for m keys. A missing or null child adds nothing.
    Slots beyond m are never visited.
- `Scenarios.dfy`: the trees the Java `main` builds, with the results it
  expects.

Where the validation would throw, the model has a precondition instead:

- `LeftSubtree` cannot fault.
- `RightSubtree` requires `RightDefined`. This is the Java method's own guard: it
  tests `index > children.size()` but then reads slot `index + 1`. So it
  throws when the list holds exactly `index` or `index + 1` entries. One
  consequence is that a single-key node with an empty children list cannot
  be validated.
- `FirstKey` requires `FirstKeyDefined`: the left-most spine ends in a node
  that has a key.
- `LastKey` requires `LastKeyDefined`. On a node without keys `getLastKey`
  calls `getRightSubtree(-1)`, which reads child 0. The model follows that
  lookup exactly.
- `IsSorted` requires `Checkable`: the lookups of every visited node are in
  range, and every visited child supports the first/last key lookups.

The doc comments of both lookups (src/AmazonBTree.java:67 and 80) say that a
missing child gives null. For `getRightSubtree` the code gives null for a
null slot and for an index beyond the list size, but throws in the two cases
above, where the slot it reads lies outside the list. The model follows the
code.

Soundness and completeness are stated for `WellFormed` trees. These are
`Checkable` trees in which every visited node, the root included, has at
least one key. On such a tree, `Sorted(n)` holds exactly when `InOrder(n)` is
strictly increasing.

## Model

| member | source | states |
|---|---|---|
| `AmazonBTree.LeftSubtree` | src/AmazonBTree.java:72-75 | present exactly when the index is inside the children list and that slot is non-null; then the result is that slot |
| `AmazonBTree.RightSubtree` | src/AmazonBTree.java:85-88 | defined only where the guard prevents a read past the end (the list does not hold exactly `index` or `index + 1` entries); there, the right subtree of key `index` equals the left subtree of key `index + 1` |
| `AmazonBTree.FirstKey` | src/AmazonBTree.java:90-108 | wherever the left-most spine ends at a keyed node, the result is the first element of the in-order key sequence, which is non-empty |
| `AmazonBTree.LastKey` | src/AmazonBTree.java:110-128 | wherever the right-most lookups stay in range and end at a keyed node, the result is the last element of the in-order key sequence, which is non-empty |
| `AmazonBTree.IsSorted` | src/AmazonBTree.java:26-62 | the loop with early returns computes `Sorted(n)`, and on a well-formed tree it returns true exactly when the in-order keys strictly increase |
| `AmazonBTree.TreeIsSorted` | src/AmazonBTree.java:135-146 | a null root gives true; otherwise the root's validation result, which on a well-formed tree is true exactly when the tree's in-order keys strictly increase |
| `AmazonBTree.SortedIffInOrderIncreasing` | src/AmazonBTree.java:26-62 | soundness and completeness: on a well-formed tree, validation succeeds exactly when the in-order key sequence is strictly increasing |
| `AmazonBTree.SortedFromIffSuffixIncreasing` | src/AmazonBTree.java:37-59 | the scan from key `i` on succeeds exactly when the in-order keys from slot `i` on strictly increase and start above key `i - 1` |
| `AmazonBTree.RestOfScanIffTailIncreasing` | src/AmazonBTree.java:51-59 | after the left-slot checks of key `i`, the rest of the scan (key `i + 1` on, or the right subtree at the last key) succeeds exactly when the in-order keys after key `i` increase and lie above it |
| `AmazonBTree.LeftChecksIffSlotIncreasing` | src/AmazonBTree.java:40-49 | the checks at key `i` hold exactly when the keys of its left slot increase, lie below key `i`, and the slot (or key `i` itself) starts above key `i - 1` |
| `AmazonBTree.RightChecksIffLastSlotIncreasing` | src/AmazonBTree.java:51-57 | the right-subtree checks at the last key hold exactly when the last slot's keys increase and lie above the last key |
| `AmazonBTree.FirstKeyAtMostLastKey` | src/AmazonBTree.java:100-128 | on a well-formed sorted tree both lookups are defined and the first key is at most the last key |
| `AmazonBTree.PresentLeftSubtreeOrdersKeys` | src/AmazonBTree.java:42-48 | when key `i` has a left subtree that passes the checks of lines 43-45, key `i - 1` is below key `i`, so the direct comparison of line 48 is not needed on that branch |
| `AmazonBTree.FirstAndLastKeyBound` | src/AmazonBTree.java:90-128 | on a well-formed sorted tree the first key is the smallest and the last key the largest of all keys in the subtree |
| `AmazonBTree.SortedIffEveryKeyPasses` | src/AmazonBTree.java:37-60 | validation succeeds exactly when every key index passes all of its checks |
| `AmazonBTree.FailsOnBadLeftSubtree` | src/AmazonBTree.java:42-45 | a present left subtree that is unsorted, whose last key is at or above key `i`, or (for `i > 0`) whose first key is at or below key `i - 1`, makes the node unsorted |
| `AmazonBTree.FailsOnOutOfOrderKey` | src/AmazonBTree.java:47-48 | with no left subtree, a key at or below its predecessor makes the node unsorted |
| `AmazonBTree.FailsOnBadRightSubtree` | src/AmazonBTree.java:51-57 | a present right subtree of the last key that is unsorted, or whose first key is at or below that key, makes the node unsorted |
| `AmazonBTree.KeylessNodeSorted` | src/AmazonBTree.java:36-60 | a node without keys can always be validated and is sorted, whatever its children: the loop never runs |
| `AmazonBTree.LeafSortedIffKeysIncreasing` | src/AmazonBTree.java:47-48 | a node with no present child whose right lookup stays in range can be validated, and is sorted exactly when its keys strictly increase |
| `Scenarios.TwoKeyLeafSorted` | src/AmazonBTree.java:160-173 | keys 1, 3 with three null children is sorted |
| `Scenarios.SampleTreeSorted` | src/AmazonBTree.java:179-203 | root 13 over leaves 4, 7 and 17, 24 is sorted |
| `Scenarios.TransposedTreeNotSorted` | src/AmazonBTree.java:208-232 | root 13 over leaves 4, 13 and 7, 24 is not sorted |
| `Scenarios.OneKeyEmptyChildrenFaults` | src/AmazonBTree.java:85-87 | for a single key with an empty children list the right lookup of key 0 faults (it reads slot 1 of an empty list), so the node cannot be validated |
| `Scenarios.TwoKeysTwoChildrenFaults` | src/AmazonBTree.java:85-87 | for two keys with two null children the right lookup of key 1 faults (it reads slot 2 of a two-element list), so the node cannot be validated |

## Left out

- The demonstration `main` (src/AmazonBTree.java:149-234) builds trees and prints the results. The printing is I/O and is not modelled. The trees and the results it expects are the `Scenarios` lemmas. The empty-tree case is the first `ensures` of `TreeIsSorted`.
- Java exceptions (`IndexOutOfBoundsException` from `keys.get` and `children.get`) are not modelled as outcomes. Each lookup that could throw has a precondition instead: `RightDefined`, `FirstKeyDefined`, `LastKeyDefined`, `Checkable`.
- IsSorted: its precondition `Checkable` asks for more than no-fault strictly needs. It also covers lookups that the early returns would skip, such as `getLastKey` on a left subtree that has already failed its own check.
- SortedIffInOrderIncreasing: holds only for well-formed trees. A node without keys is sorted however its child 0 is ordered, because the loop never runs. So the equivalence is not claimed for such nodes.
- Object identity is not modelled. Nodes are immutable values: equal subtrees may appear under several parents, but whether they are one Java object is not represented, and read-only validation never observes it. No cycle can exist among values. The Java lists are mutable and could be built into a cycle; there the recursion of `isSorted` (src/AmazonBTree.java:43 and 55) never ends and Java throws `StackOverflowError`. Validation itself never mutates anything.
- Java's 32-bit `int` is modelled as Dafny's unbounded `int`. Keys are only compared, never computed with. The index arithmetic (`i - 1`, `index + 1`, `size() - 1`) stays far below the bound for any list that fits in memory.
- Construction, insertion and balancing of the tree are not modelled. The Java code has none of them, and it does not check the minimum or maximum degree of a B-tree node.
