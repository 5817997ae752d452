# Doubly linked list and binary search tree

This project models two small containers from a data-structures exercise
repository in Dafny, and proves properties of the model.

- **Doubly linked list** (`doubly_linked_list.dfy`, module `LinkedList`). A
  `DoublyLinkedList` holds `head`, `tail` and `length`. Each `ListNode`
  holds `prev`, `value` and `next`. The model is a Dafny class over heap
  nodes that are updated in place. The ghost sequence `nodes` is the chain
  from `head` to `tail`, `Contents` is the values along it, and `Repr` is
  the set of nodes the list owns. `Valid()` says that the `next` and `prev`
  pointers follow `nodes` in both directions, that the ends are
  null-terminated, and that `length` is the number of nodes. Every list
  operation is a method proved to keep `Valid()` and to produce stated
  `Contents` and `Repr`. The linear scan of `get_max` is a loop with
  invariants. The one exception is `DeleteMiddleAsWritten`, the source's
  middle case of `delete` as written, which is proved to break `Valid()`.
- **Binary search tree** (`binary_search_tree.dfy`, module `SearchTree`).
  A `BSTNode` is a value with optional left and right children. The model
  uses the datatype `Tree = Empty | Node(left, value, right)`, where
  `Empty` is an absent child. Operations that the source calls on a node
  require `t.Node?`. Insertion, which the source does by attaching a new
  node in place, is a function that returns the tree after insertion.

The model follows the code, with two corrections and one precondition:

- `get_max` on the tree is modelled as written by `GetMax`, which uses 0
  as the candidate for an absent subtree. `TreeMax` is the corrected
  maximum, where an absent subtree gives no candidate.
- The middle case of `delete` is modelled as written by
  `DeleteMiddleAsWritten`, which does not relink the neighbours. `Delete`,
  and everything built on it (`RemoveFromHead`, `RemoveFromTail`,
  `MoveToFront`, `MoveToEnd`), uses the corrected middle case `Splice`,
  which does relink them.
- `remove_from_head`/`remove_from_tail` read the value of the end node
  without checking it exists, so on an empty list they fail. The model does
  not reproduce that failure: `RemoveFromHead`/`RemoveFromTail` require a
  non-empty list.
- `move_to_front`/`move_to_end` re-insert a new node carrying the value, as
  the source does.

Both corrections are logged under "## Findings".

## Model

| member | source | states |
|---|---|---|
| LinkedList.ListNode.constructor | doubly_linked_list/doubly_linked_list.py:9-12 | the new node holds the given value, previous and next links |
| LinkedList.DoublyLinkedList.constructor | doubly_linked_list/doubly_linked_list.py:22-25 | head and tail are the given node, and the length is 1 when there is a node and 0 otherwise; with no node the list is valid and empty; with an unlinked node it is valid and holds exactly that node's value |
| LinkedList.DoublyLinkedList.Len | doubly_linked_list/doubly_linked_list.py:27-28 | the reported length is the number of nodes in the chain, which is the number of stored values |
| LinkedList.DoublyLinkedList.AddToHead | doubly_linked_list/doubly_linked_list.py:36-48 | the list stays valid; the values become the new value followed by the old values; the head is a fresh node; the old head's previous link is that node; the length grows by one; on an empty list the new node is also the tail |
| LinkedList.DoublyLinkedList.AddToTail | doubly_linked_list/doubly_linked_list.py:67-80 | the list stays valid; the values become the old values followed by the new value; the tail is a fresh node; the old tail's next link is that node; the length grows by one; on an empty list the new node is also the head |
| LinkedList.DoublyLinkedList.RemoveFromHead | doubly_linked_list/doubly_linked_list.py:56-59 | returns the first value; the values become the old values without the first; the length drops by one; the old head leaves the owned nodes; the list stays valid and the new head has no previous link |
| LinkedList.DoublyLinkedList.RemoveFromTail | doubly_linked_list/doubly_linked_list.py:88-91 | returns the last value; the values become the old values without the last; the length drops by one; the old tail leaves the owned nodes; the list stays valid and the new tail has no next link |
| LinkedList.DoublyLinkedList.Delete | doubly_linked_list/doubly_linked_list.py:128-155 | on an empty list nothing changes; otherwise the node leaves the chain at its position, the order of every other node and value is kept, the length drops by one, the node leaves the set of owned nodes, the list stays valid, and a one-element list ends with no head and no tail (middle case corrected, see Findings) |
| LinkedList.DoublyLinkedList.Unlink | doubly_linked_list/doubly_linked_list.py:136-155 | the four cases of delete in the source's order (only node, head, tail, middle) each take exactly that node out of the chain and its value out of the values, keeping the rest in order |
| LinkedList.DoublyLinkedList.UnlinkOnly | doubly_linked_list/doubly_linked_list.py:138-140 | removing the only node leaves no head and no tail, and the chain and values lose that node |
| LinkedList.DoublyLinkedList.UnlinkHead | doubly_linked_list/doubly_linked_list.py:145-147 | removing the head makes its successor the head with no previous link; the chain and values lose their first entry |
| LinkedList.DoublyLinkedList.UnlinkTail | doubly_linked_list/doubly_linked_list.py:148-150 | removing the tail makes its predecessor the tail with no next link; the chain and values lose their last entry |
| LinkedList.DoublyLinkedList.Splice | doubly_linked_list/doubly_linked_list.py:151-155 | the corrected middle case: the chain and values lose exactly that entry and the list stays well linked |
| LinkedList.DoublyLinkedList.Bypass | doubly_linked_list/doubly_linked_list.py:151-155 | the corrected pointer updates: once the predecessor's next link and the successor's previous link skip the node, the pointers form a chain of the old nodes without it |
| LinkedList.DoublyLinkedList.MoveToFront | doubly_linked_list/doubly_linked_list.py:98-106 | if the node is already the head nothing changes; otherwise its value moves to the front, the other values keep their order, the length and the multiset of values are unchanged, the node chain becomes the other nodes in their old order with the fresh head at the front, so every other node a caller holds stays in the list; the moved node is replaced among the owned nodes by the fresh head, and the list stays valid |
| LinkedList.DoublyLinkedList.MoveToEnd | doubly_linked_list/doubly_linked_list.py:113-121 | if the node is already the tail nothing changes; otherwise its value moves to the end, the other values keep their order, the length and the multiset of values are unchanged, the node chain becomes the other nodes in their old order with the fresh tail at the end, so every other node a caller holds stays in the list; the moved node is replaced among the owned nodes by the fresh tail, and the list stays valid |
| LinkedList.MoveKeepsValues | doubly_linked_list/doubly_linked_list.py:98-121 | taking one entry out and putting it at the front or at the back keeps the same multiset of entries |
| LinkedList.DoublyLinkedList.GetMax | doubly_linked_list/doubly_linked_list.py:162-179 | the result is absent exactly when the list is empty; otherwise it is a stored value and no stored value exceeds it |
| LinkedList.DoublyLinkedList.DeleteMiddleAsWritten | doubly_linked_list/doubly_linked_list.py:151-155 | the middle case as written: the length drops by one, but head, tail and the chain are unchanged, the node's links both point to its old successor, and the list is no longer well formed |
| LinkedList.DeleteMiddleAsWrittenScenario | doubly_linked_list/doubly_linked_list.py:128-155 | after adding 1, 2, 3 at the tail and deleting the middle node as written, the length is 2 but the forward chain still reads 1, 2, 3, and the last two nodes point back at each other |
| LinkedList.DeleteMiddleScenario | doubly_linked_list/doubly_linked_list.py:128-155 | the same steps with the corrected delete give length 2 and a forward chain that reads 1, 3 and then ends |
| SearchTree.Leaf | binary_search_tree/binary_search_tree.py:15-18 | a new node without children is ordered and holds exactly its value |
| SearchTree.Insert | binary_search_tree/binary_search_tree.py:21-44 | the root stays the same node value and exactly one copy of the new value is added to the stored values |
| SearchTree.InsertPreservesOrder | binary_search_tree/binary_search_tree.py:29-44 | inserting into an ordered tree (smaller left, greater or equal right) gives an ordered tree |
| SearchTree.Contains | binary_search_tree/binary_search_tree.py:46-69 | a positive answer means the target is stored |
| SearchTree.ContainsCorrect | binary_search_tree/binary_search_tree.py:46-69 | on an ordered tree the answer is true exactly when the target is stored |
| SearchTree.InsertThenContains | binary_search_tree/binary_search_tree.py:21-69 | after inserting into an ordered tree the inserted value is found and the answer for every other value is unchanged |
| SearchTree.GetMax | binary_search_tree/binary_search_tree.py:71-95 | the maximum as written, with 0 standing in for an absent subtree, is never below the node's own value (its exact value is stated by GetMaxExact) |
| SearchTree.TreeMax | binary_search_tree/binary_search_tree.py:71-95 | the corrected maximum, where an absent subtree gives no candidate, is never below the node's own value (that it is the maximum is stated by TreeMaxIsMaximum) |
| SearchTree.GetMaxBound | binary_search_tree/binary_search_tree.py:71-95 | the source's maximum bounds every stored value and is either a stored value or 0 |
| SearchTree.GetMaxExact | binary_search_tree/binary_search_tree.py:77-95 | the source's maximum equals the true maximum, raised to 0 when some node has exactly one child |
| SearchTree.GetMaxLeaf | binary_search_tree/binary_search_tree.py:77-79 | on a node without children the maximum is its own value |
| SearchTree.GetMaxNonNegative | binary_search_tree/binary_search_tree.py:81-95 | when no stored value is negative, the source's maximum is the true maximum |
| SearchTree.GetMaxNegativeCounterexample | binary_search_tree/binary_search_tree.py:81-95 | for a tree holding -3 with -5 on its left, the source's maximum is 0, which is not stored, while the true maximum is -3 |
| SearchTree.TreeMaxIsMaximum | binary_search_tree/binary_search_tree.py:71-95 | the corrected maximum, where an absent subtree gives no candidate, is a stored value and bounds every stored value |
| SearchTree.ForEach | binary_search_tree/binary_search_tree.py:98-103 | the visitor is called at least once, first on the node's own value |
| SearchTree.ForEachVisitsAll | binary_search_tree/binary_search_tree.py:98-103 | the visitor is called once per stored value, duplicates included |
| SearchTree.ForEachScenario | binary_search_tree/binary_search_tree.py:98-103 | on a root with a two-child left subtree and a leaf on the right, the visits come in pre-order: root, left root, its left, its right, then the right leaf |
| SearchTree.InsertScenario | binary_search_tree/binary_search_tree.py:21-95 | inserting 3, 8, 1, 4 below a root of 5 puts 3 (holding 1 and 4) on the left and 8 on the right; the maximum is 8, 4 is found and 9 is not |

## Left out

- The printing traversals `in_order_print`, `bft_print`, `dft_print`, `pre_order_dft` and `post_order_dft` have empty bodies in the source (binary_search_tree.py:110-132), so there is nothing to model.
- The `if self is None` branches of `insert`, `contains` and `get_max` can never run, because a method is only ever called on a node. The model's `requires t.Node?` stands for that.
- SearchTree.Insert: the in-place attachment of the new node is modelled as a function returning the updated tree, so sharing of subtrees between callers is not captured.
- SearchTree.ForEach: the visitor function is replaced by the sequence of values it is called with. Side effects of the visitor are not modelled.
- Values are modelled as `int`. The source accepts any Python value that supports `<` and `>`.
- LinkedList.DoublyLinkedList.RemoveFromHead: requires a non-empty list, because the source reads `self.head.value` with no check and fails on an empty list.
- LinkedList.DoublyLinkedList.RemoveFromTail: requires a non-empty list, for the same reason.
- LinkedList.DoublyLinkedList.Delete: requires the node to belong to the list (or the list to be empty). The source does not check membership, and deleting a foreign node would corrupt unrelated nodes.
- LinkedList.DoublyLinkedList.MoveToFront: requires the node to be in the list. As in the source, the value is re-inserted in a fresh node. The caller's node object is not reused, so its identity is not preserved. It deletes through the corrected Delete. So moving a middle node differs from the source as written: on 1, 2, 3, moving the node holding 2 gives 2, 1, 3 here. The source keeps length 3, but its forward chain reads 2, 1, 2, 3, and walking back from the tail cycles between the nodes holding 3 and 2.
- LinkedList.DoublyLinkedList.MoveToEnd: requires the node to be in the list, and re-inserts the value in a fresh node, as MoveToFront does. It also deletes through the corrected Delete, so moving a middle node differs from the source as written in the same way.
- The second `if node is self.head` test in `move_to_front` (doubly_linked_list.py:101-102) and the second `if node is self.tail` test in `move_to_end` (doubly_linked_list.py:116-117) are unreachable after the early return, so they have no counterpart in the model.
- LinkedList.DoublyLinkedList.Delete: when the head or the tail is removed, the source leaves the removed node's own `next`/`prev` link set. The model does the same, and its contract says nothing about the removed node's links.
- LinkedList.DoublyLinkedList.constructor: a node passed in that already has neighbours gives a list whose `Valid()` is not established. The contract covers only the empty list and an unlinked node.

## Findings

| source | as written | input that shows it | evidently intended | confidence | as-written member | corrected member |
|---|---|---|---|---|---|---|
| doubly_linked_list/doubly_linked_list.py:151-155 | the middle case of `delete` sets the node's own `prev` to its `next` and then its `next` to that same node, so neither neighbour is relinked | `add_to_tail(1)`, `add_to_tail(2)`, `add_to_tail(3)`, then `delete` of the node holding 2: the length is 2 but the chain from the head still reads 1, 2, 3 | relink the neighbours around the node: the predecessor's `next` becomes the node's `next`, and the successor's `prev` becomes the node's `prev` | not executed | LinkedList.DoublyLinkedList.DeleteMiddleAsWritten | LinkedList.DoublyLinkedList.Delete |
| binary_search_tree/binary_search_tree.py:81-95 | `get_max` starts the maximum of an absent subtree at 0, so 0 competes with the stored values | a node holding -3 with -5 inserted on its left: `get_max` returns 0, which is not in the tree | an absent subtree contributes no candidate, and the result is the largest stored value | not executed | SearchTree.GetMaxNegativeCounterexample | SearchTree.TreeMaxIsMaximum |
