# Data structures: binary search tree, linked queue, shift register, keyed linked lists

This project models five small data-structure modules of a C++/Rust coursework repository and
proves what their code and comments promise:

- `BSTree<SomeType>` (`bstree.h`), a pointer-based binary search tree. It supports insertion,
  deletion by in-order predecessor, level and parent queries, minimum and maximum, and
  pre-, in- and post-order traversals into a queue.
- `Queue` (`queue.h`), an integer queue. It is a chain of nodes reached from `rearPtr` with a
  node `count`, and it offers positional `Peek`.
- `LFSR` (`lfsr.h`), a linear feedback shift register stored in a `Queue`. One step drops
  the front bit and appends the exclusive or of two tapped positions.
- The keyed singly linked list twice: the Rust `LinkedList` (`linked_list.rs`) and the C++
  `Linked_List` (`linked_list.h`). Each appends `(key, payload)` pairs with distinct keys,
  deletes by key keeping order, and searches by key.
- `Item` (`item.h`), the record the tree is instantiated with. Its comparison operators
  look only at the ID.

Files:

- `outcomes.dfy` holds the result datatypes:
  - `Result`, the value-or-exception of a call that returns a value or throws;
  - `Option`;
  - `Outcome`, for a call that returns nothing or throws;
  - `Run`, which records a null dereference in a member modelling code as written.
- `bstree.dfy` models the tree. A `Node*` link is a `Tree` value. Each private recursive
  helper that rewrites a link through `Node*&` is a function returning the new link. The
  class `BSTree` holds `root` and implements the public interface on top of those
  functions.
- `queue.dfy` models the queue. The chain of nodes, newest first, is a `seq<int>` field
  beside `count`. `Contents()` is the queue as its users see it, oldest first.
- `lfsr.dfy` models the register as a class that owns a `Queue`, together with the
  specification of a step (`NextBits`) and the proof that states repeat.
- `keyed_list.dfy` holds the element type and key facts that both lists share.
  `linked_list_rs.dfy` and `linked_list_cpp.dfy` model each list as a class with a `head`
  sequence.
- `item.dfy` models the `Item` class and its three comparison operators.

## Model

| member | source | states |
|---|---|---|
| BinarySearchTree.Leftmost | Project3_BinarySearchTree/bstree.h:405-416 | the value reached by left links is stored, and in an ordered tree it is the smallest value |
| BinarySearchTree.Rightmost | Project3_BinarySearchTree/bstree.h:226-235 | the value reached by right links is stored, and in an ordered tree it is the largest value |
| BinarySearchTree.Insert | Project3_BinarySearchTree/bstree.h:170-185 | fails with FoundInBSTree exactly when the item is already stored (ordered tree); otherwise the value set gains exactly the item and the tree stays ordered |
| BinarySearchTree.Delete | Project3_BinarySearchTree/bstree.h:130-142 | corrected delete: succeeds iff the item is stored, else NotFoundBSTree as the comment promises; removes exactly that value, keeps the order and drops one node |
| BinarySearchTree.DeleteNode | Project3_BinarySearchTree/bstree.h:146-165 | removing the root node by its number of children keeps the tree ordered, removes exactly the root value and one node |
| BinarySearchTree.DeleteAsWritten | Project3_BinarySearchTree/bstree.h:134-142 | the code as written dereferences null exactly when the item is absent, and otherwise agrees with Delete |
| BinarySearchTree.DeleteAbsentValueDereferencesNull | Project3_BinarySearchTree/bstree.h:130-142 | on the tree {50}, deleting 99 dereferences null instead of reporting NotFoundBSTree |
| BinarySearchTree.Destroy | Project3_BinarySearchTree/bstree.h:189-205 | destroying a tree leaves the null link |
| BinarySearchTree.CopyTree | Project3_BinarySearchTree/bstree.h:209-222 | the copy is structurally equal to the original |
| BinarySearchTree.GetPredecessor | Project3_BinarySearchTree/bstree.h:226-235 | the loop returns the rightmost value, which in an ordered tree is the largest stored value |
| BinarySearchTree.CountNodes | Project3_BinarySearchTree/bstree.h:239-250 | the count equals the number of nodes and is at least 1 |
| BinarySearchTree.LevelCount | Project3_BinarySearchTree/bstree.h:254-264 | the result is the height counted in levels, at least 1 |
| BinarySearchTree.FindLevel | Project3_BinarySearchTree/bstree.h:268-279 | a level found is the depth of a node holding the item and below the height; in an ordered tree a level is found iff the item is stored, else NotFoundBSTree |
| BinarySearchTree.SearchForParent | Project3_BinarySearchTree/bstree.h:281-305 | a value found is the parent of a node holding the item; when none is found no node is its parent |
| BinarySearchTree.PreOrder | Project3_BinarySearchTree/bstree.h:67-76 | the queue grows by one entry per node |
| BinarySearchTree.InOrder | Project3_BinarySearchTree/bstree.h:78-87 | the queue grows by one entry per node |
| BinarySearchTree.PostOrder | Project3_BinarySearchTree/bstree.h:89-98 | the queue grows by one entry per node |
| BinarySearchTree.BSTree.constructor | Project3_BinarySearchTree/bstree.h:316-319 | a new tree is empty |
| BinarySearchTree.BSTree.Copy | Project3_BinarySearchTree/bstree.h:323-326 | the copy constructor gives a tree equal to the other one |
| BinarySearchTree.BSTree.Assign | Project3_BinarySearchTree/bstree.h:330-333 | after assignment the tree equals the other one |
| BinarySearchTree.BSTree.InsertItem | Project3_BinarySearchTree/bstree.h:343-352 | fails with FoundInBSTree and no change iff the item is stored; otherwise the new root is the one Insert gives for the old root, which holds exactly one more item and one more node and keeps the order |
| BinarySearchTree.BSTree.DeleteItem | Project3_BinarySearchTree/bstree.h:355-368 | EmptyBSTree on an empty tree, NotFoundBSTree with no change for an absent item, otherwise returns the item, and the new root is the one Delete gives for the old root, which lacks exactly that item and one node and keeps the order |
| BinarySearchTree.BSTree.MakeEmpty | Project3_BinarySearchTree/bstree.h:371-376 | the tree is empty afterwards |
| BinarySearchTree.BSTree.Size | Project3_BinarySearchTree/bstree.h:379-386 | the number of nodes, 0 exactly for the empty tree |
| BinarySearchTree.BSTree.IsFull | Project3_BinarySearchTree/bstree.h:389-393 | the tree is never full |
| BinarySearchTree.BSTree.IsEmpty | Project3_BinarySearchTree/bstree.h:396-400 | empty iff no value is stored |
| BinarySearchTree.BSTree.Min | Project3_BinarySearchTree/bstree.h:403-416 | EmptyBSTree when empty, otherwise the smallest stored value |
| BinarySearchTree.BSTree.Max | Project3_BinarySearchTree/bstree.h:419-432 | EmptyBSTree when empty, otherwise the largest stored value |
| BinarySearchTree.BSTree.TotalLevels | Project3_BinarySearchTree/bstree.h:435-443 | EmptyBSTree when empty, otherwise the height in levels |
| BinarySearchTree.BSTree.Level | Project3_BinarySearchTree/bstree.h:446-455 | EmptyBSTree when empty; otherwise the depth of the item, found iff it is stored, else NotFoundBSTree |
| BinarySearchTree.BSTree.Parent | Project3_BinarySearchTree/bstree.h:458-475 | EmptyBSTree when empty; a value returned is the item's parent; NotFoundBSTree only when the item has no parent |
| BinarySearchTree.OrderedSizeIsCardinality | Project3_BinarySearchTree/bstree.h:379-386 | in an ordered tree the node count is the number of distinct values, so Size counts the stored set |
| BinarySearchTree.PreOrderAccumulates | Project3_BinarySearchTree/bstree.h:67-76 | pre-order appends after what the queue already held |
| BinarySearchTree.InOrderAccumulates | Project3_BinarySearchTree/bstree.h:78-87 | in-order appends after what the queue already held |
| BinarySearchTree.PostOrderAccumulates | Project3_BinarySearchTree/bstree.h:89-98 | post-order appends after what the queue already held |
| BinarySearchTree.TraversalsOfNode | Project3_BinarySearchTree/bstree.h:67-98 | the three visiting orders of node, left subtree and right subtree |
| BinarySearchTree.TraversalsListContents | Project3_BinarySearchTree/bstree.h:67-98 | each traversal lists exactly the stored values |
| BinarySearchTree.TraversalsArePermutations | Project3_BinarySearchTree/bstree.h:67-98 | the three traversals are permutations of one another |
| BinarySearchTree.InOrderIsStrictlyIncreasing | Project3_BinarySearchTree/bstree.h:78-87 | the in-order traversal of an ordered tree is strictly increasing |
| BinarySearchTree.IncreasingWithSameMembersAreEqual | Project3_BinarySearchTree/bstree.h:78-87 | two strictly increasing sequences with the same members are equal |
| BinarySearchTree.InOrderDeterminedByContents | Project3_BinarySearchTree/bstree.h:78-87 | ordered trees with equal value sets have the same in-order traversal |
| BinarySearchTree.InsertThenDeleteRestores | Project3_BinarySearchTree/bstree.h:130-185 | inserting an absent value and deleting it again gives back the original tree |
| BinarySearchTree.TwoChildDeletionTakesPredecessor | Project3_BinarySearchTree/bstree.h:159-164 | removing a node with two children puts the in-order predecessor in its place and deletes it from the left subtree |
| BinarySearchTree.AtDepthIsStored | Project3_BinarySearchTree/bstree.h:268-279 | a value at some depth is stored, and the depth is below the height |
| BinarySearchTree.DepthIsUnique | Project3_BinarySearchTree/bstree.h:268-279 | in an ordered tree a value has one depth |
| BinarySearchTree.ChildIsBelowRoot | Project3_BinarySearchTree/bstree.h:281-305 | a parent is stored and its child is in a subtree of the root |
| BinarySearchTree.RootAndAbsentValuesHaveNoParent | Project3_BinarySearchTree/bstree.h:458-475 | in an ordered tree the root value and absent values have no parent |
| BinarySearchTree.ParentIsUnique | Project3_BinarySearchTree/bstree.h:458-475 | in an ordered tree a value has at most one parent |
| BinarySearchTree.ScenarioInsertions | Project3_BinarySearchTree/bstree.h:170-185 | inserting 50, 30, 70, 20, 40, 60, 80 builds the expected tree |
| BinarySearchTree.ScenarioInOrder | Project3_BinarySearchTree/bstree.h:78-87 | the in-order traversal of that tree is 20, 30, 40, 50, 60, 70, 80 |
| BinarySearchTree.ScenarioQueries | Project3_BinarySearchTree/bstree.h:226-305 | on that tree: minimum 20 and maximum 80, 3 levels, 40 at level 2 with parent 30, and no level or parent for 99 |
| BinarySearchTree.DirectChildHasNoDeeperParent | Project3_BinarySearchTree/bstree.h:281-305 | in an ordered tree a child of the root has no parent inside either subtree |
| BinarySearchTree.ScenarioTwoChildDeletion | Project3_BinarySearchTree/bstree.h:146-165 | deleting 30 from that tree puts its predecessor 20 in its place |
| Queues.ReverseCons | Project2_Queue/Queue_Cpp/queue.h:97-107 | a node linked in at the rear appends its value to the queue's order |
| Queues.FrontRecursion | Project2_Queue/Queue_Cpp/queue.h:133-147 | following the links to the end reaches the oldest value |
| Queues.DequeueRecursion | Project2_Queue/Queue_Cpp/queue.h:111-129 | cutting the last link removes the oldest value and keeps the rest in order |
| Queues.EmptyRecursion | Project2_Queue/Queue_Cpp/queue.h:82-93 | releasing the chain leaves no node |
| Queues.Queue.constructor | Project2_Queue/Queue_Cpp/queue.h:71-74 | a new queue is empty with count 0 |
| Queues.Queue.MakeEmpty | Project2_Queue/Queue_Cpp/queue.h:82-93 | the queue is empty with count 0 afterwards |
| Queues.Queue.Enqueue | Project2_Queue/Queue_Cpp/queue.h:97-107 | appends n at the back of the queue, count grows by 1, and it never fails |
| Queues.Queue.Dequeue | Project2_Queue/Queue_Cpp/queue.h:111-129 | QueueEmpty with no change on an empty queue; otherwise removes the oldest value, keeps the order of the rest, count shrinks by 1 |
| Queues.Queue.Front | Project2_Queue/Queue_Cpp/queue.h:133-147 | QueueEmpty when empty, otherwise the oldest value |
| Queues.Queue.Rear | Project2_Queue/Queue_Cpp/queue.h:151-156 | QueueEmpty when empty, otherwise the newest value |
| Queues.Queue.Peek | Project2_Queue/Queue_Cpp/queue.h:158-174 | corrected Peek: QueueEmpty when empty, QueueInvalidPeek for a position outside 0..count-1, otherwise the value n places from the front, so Peek(0) is Front |
| Queues.PeekAsWritten | Project2_Queue/Queue_Cpp/queue.h:161-174 | as written: positions 0..count-1 behave, n > count is QueueInvalidPeek, n == count returns the rear, and a negative n dereferences null |
| Queues.Queue.IsFull | Project2_Queue/Queue_Cpp/queue.h:177-180 | always false |
| Queues.Queue.IsEmpty | Project2_Queue/Queue_Cpp/queue.h:183-185 | true iff the chain is empty iff count is 0 |
| Queues.Queue.Size | Project2_Queue/Queue_Cpp/queue.h:188-190 | the count equals the length of the queue |
| ShiftRegister.XOR | Project2_Queue/Queue_Cpp/lfsr.h:49-51 | true iff exactly one of the two values is non-zero |
| ShiftRegister.NextBits | Project2_Queue/Queue_Cpp/lfsr.h:65-69 | a step keeps the register length and keeps every value 0 or 1 |
| ShiftRegister.Iterate | Project2_Queue/Queue_Cpp/lfsr.h:65-69 | any number of steps keeps the length and the 0/1 values |
| ShiftRegister.LFSR.constructor | Project2_Queue/Queue_Cpp/lfsr.h:53-62 | the queue holds one value per seed byte in order, 1 for the byte '1' and 0 otherwise, and the taps are stored |
| ShiftRegister.LFSR.NextState | Project2_Queue/Queue_Cpp/lfsr.h:65-69 | with both taps in range the queue becomes the next register state; an empty queue or a tap outside it fails before any change |
| ShiftRegister.LFSR.Print | Project2_Queue/Queue_Cpp/lfsr.h:33-44 | the rotation loop leaves the queue as it was |
| ShiftRegister.ValueBounds | Project2_Queue/Queue_Cpp/lfsr.h:9-10 | a register of n bits spells a number below 2^n |
| ShiftRegister.ValueInjective | Project2_Queue/Queue_Cpp/lfsr.h:9-10 | registers of one length spelling the same number are equal |
| ShiftRegister.Pigeonhole | Project2_Queue/Queue_Cpp/lfsr.h:65-69 | more than `bound` naturals below `bound` repeat a value |
| ShiftRegister.StatesEventuallyRepeat | Project2_Queue/Queue_Cpp/lfsr.h:65-69 | within 2^n steps an n-bit register returns to an earlier state |
| ShiftRegister.RepeatedStateRepeatsForever | Project2_Queue/Queue_Cpp/lfsr.h:65-69 | once a state recurs, the states repeat with that period for ever |
| KeyedLists.KeyIndex | Project1_LinkedList/linked_list_rs/src/linked_list.rs:119-135 | the position of the first element holding a stored key |
| KeyedLists.KeysAt | Project1_LinkedList/linked_list_rs/src/linked_list.rs:119-135 | a key is stored iff some position holds it |
| KeyedLists.AppendKeepsUniqueKeys | Project1_LinkedList/linked_list_rs/src/linked_list.rs:52-78 | appending a new key keeps the keys distinct and adds exactly that key |
| KeyedLists.RemoveKeepsUniqueKeys | Project1_LinkedList/linked_list_rs/src/linked_list.rs:82-115 | removing one element keeps the keys distinct and removes exactly its key |
| KeyedLists.KeyIndexIsTheOnlyOne | Project1_LinkedList/linked_list_rs/src/linked_list.rs:119-135 | with distinct keys, the element holding a key is the first one |
| KeyedLists.AppendedKeyIsLast | Project1_LinkedList/linked_list_rs/src/linked_list.rs:52-78 | a newly appended key is found at the end |
| RustLinkedList.LengthRecursion | Project1_LinkedList/linked_list_rs/src/linked_list.rs:34-48 | the number of elements |
| RustLinkedList.InsertRecursion | Project1_LinkedList/linked_list_rs/src/linked_list.rs:53-75 | AlreadyExists iff the key is stored; otherwise the list with (k, f) appended |
| RustLinkedList.DeleteRecursion | Project1_LinkedList/linked_list_rs/src/linked_list.rs:88-112 | succeeds iff the key is stored, else NotFound; removes the first element with the key and keeps the order of the rest |
| RustLinkedList.SearchRecursion | Project1_LinkedList/linked_list_rs/src/linked_list.rs:120-132 | Some iff the key is stored, with the payload of its first element |
| RustLinkedList.LinkedList.constructor | Project1_LinkedList/linked_list_rs/src/linked_list.rs:30-32 | a new list is empty, with length 0 |
| RustLinkedList.LinkedList.ListLength | Project1_LinkedList/linked_list_rs/src/linked_list.rs:34-48 | the number of elements |
| RustLinkedList.LinkedList.Insert | Project1_LinkedList/linked_list_rs/src/linked_list.rs:52-78 | appends (k, f) when k is new; AlreadyExists with no change when k is stored; keys stay distinct |
| RustLinkedList.LinkedList.Delete | Project1_LinkedList/linked_list_rs/src/linked_list.rs:82-115 | NotFound with no change on an empty list or absent key; otherwise removes exactly the element with key k, keeping order and distinct keys |
| RustLinkedList.LinkedList.Search | Project1_LinkedList/linked_list_rs/src/linked_list.rs:119-135 | Some payload of the element with key k iff k is stored |
| RustLinkedList.LinkedList.IsEmpty | Project1_LinkedList/linked_list_rs/src/linked_list.rs:137-140 | true iff the length is 0 |
| RustLinkedList.LinkedList.ClearList | Project1_LinkedList/linked_list_rs/src/linked_list.rs:143-145 | the list is empty with length 0 afterwards |
| RustLinkedList.SearchFindsTheStoredPayload | Project1_LinkedList/linked_list_rs/src/linked_list.rs:119-135 | with distinct keys, search returns the payload of the one element with the key |
| RustLinkedList.InsertThenDeleteRestores | Project1_LinkedList/linked_list_rs/src/linked_list.rs:52-115 | deleting a key just inserted gives back the original list |
| RustLinkedList.InsertThenSearchFinds | Project1_LinkedList/linked_list_rs/src/linked_list.rs:52-135 | searching for a key just inserted returns the payload inserted with it |
| CppLinkedList.InsertRecursion | Project1_LinkedList/LinkedList_Cpp/linked_list.h:69-79 | corrected lambda: fails iff any element, the last included, has the key; otherwise appends |
| CppLinkedList.InsertRecursionAsWritten | Project1_LinkedList/LinkedList_Cpp/linked_list.h:69-79 | as written: fails iff an element other than the last has the key; otherwise appends |
| CppLinkedList.InsertAsWrittenDuplicatesTheTailKey | Project1_LinkedList/LinkedList_Cpp/linked_list.h:69-79 | as written, inserting the last element's key appends a duplicate key; the corrected lambda refuses it |
| CppLinkedList.DeleteRecursion | Project1_LinkedList/LinkedList_Cpp/linked_list.h:93-111 | unlinks the first element after the current one with the key iff there is one, keeping the order of the rest |
| CppLinkedList.SearchRecursion | Project1_LinkedList/LinkedList_Cpp/linked_list.h:117-126 | Some iff the key is stored, with the data of its first element |
| CppLinkedList.LinkedList.constructor | Project1_LinkedList/LinkedList_Cpp/linked_list.h:36-38 | a new list is empty |
| CppLinkedList.LinkedList.ClearList | Project1_LinkedList/LinkedList_Cpp/linked_list.h:44-59 | corrected ClearList: the list is empty afterwards, whatever its length |
| CppLinkedList.ClearListAsWritten | Project1_LinkedList/LinkedList_Cpp/linked_list.h:44-59 | as written: dereferences null iff the list has exactly one element; otherwise ends with a null head, having freed every node but the last |
| CppLinkedList.LinkedList.Insert | Project1_LinkedList/LinkedList_Cpp/linked_list.h:61-82 | corrected Insert: true iff the key is new, appending (key, f); false with no change otherwise; an empty list gets one element; keys stay distinct |
| CppLinkedList.LinkedList.Delete | Project1_LinkedList/LinkedList_Cpp/linked_list.h:84-114 | false with no change on an empty list or absent key; otherwise unlinks the first element with the key, head included, keeping order and distinct keys |
| CppLinkedList.LinkedList.Search | Project1_LinkedList/LinkedList_Cpp/linked_list.h:116-129 | true with the data of the element with the key; false with retVal untouched |
| CppLinkedList.LinkedList.ListLength | Project1_LinkedList/LinkedList_Cpp/linked_list.h:131-144 | the counting loop returns the number of elements, 0 when empty |
| CppLinkedList.LinkedList.IsEmpty | Project1_LinkedList/LinkedList_Cpp/linked_list.h:146-148 | true iff head is null |
| CppLinkedList.SearchFindsTheStoredPayload | Project1_LinkedList/LinkedList_Cpp/linked_list.h:116-129 | with distinct keys, search returns the data of the one element with the key |
| CppLinkedList.InsertThenDeleteRestores | Project1_LinkedList/LinkedList_Cpp/linked_list.h:61-114 | unlinking a key just appended gives back the original chain |
| Items.Item.Default | Project3_BinarySearchTree/item.h:57-61 | ID -1, empty name, price -1.00 |
| Items.Item.constructor | Project3_BinarySearchTree/item.h:64-68 | the three fields are stored as given |
| Items.Item.Copy | Project3_BinarySearchTree/item.h:71-75 | the three fields are copied from the other item |
| Items.Item.Assign | Project3_BinarySearchTree/item.h:97-101 | the three fields are overwritten with those of the other item |
| Items.ComparisonsUseIdOnly | Project3_BinarySearchTree/item.h:79-93 | ==, < and > compare the IDs only; items with the same ID but different names are equal |
| Items.ItemOrderIsTotal | Project3_BinarySearchTree/item.h:79-93 | exactly one of <, == and > holds, > is < swapped, and < and == are transitive |

## Left out

- Printing is left out: `BSTree::Print`, `Queue::PrintQ`, `Linked_List::PrintList`, the Rust
  `print`, `Item::Print` and `operator<<` are I/O with float formatting.
  `LFSR::Print` keeps only its rotation of the queue; the digits it writes are dropped.
- `Item`'s `operator>>` reads from a stream and is not modelled.
- Memory management is not modelled. The model never frees or leaks a node. This covers:
  - the `delete` versus `delete[]` mismatches;
  - the node leaked when the C++ list deletes its head (linked_list.h:88-90) or a later
    element (linked_list.h:105), which is unlinked but never freed;
  - the last node `ClearList` never frees; `CppLinkedList.ClearListAsWritten` only counts
    the nodes it frees;
  - the nodes `BSTree::operator=` leaks;
  - destructor sequencing.
- The Rust `PartialEq` on `Link` compares only discriminants and is not modelled. The
  model compares emptiness directly.
- `BSTree`'s element type `SomeType` is modelled as `int`. `Item` orders totally by ID
  (`Items.ItemOrderIsTotal`), so the tree of items behaves as a tree of IDs.
- Float payloads (`float` and `f64`) are a type parameter of the lists. `itemPrice` is a
  `real`. Neither is computed on.
- Integer widths (`int` counts, `i32` keys) are unbounded here; no overflow is modelled.
- Links rewritten in place through `Node*&` and `&mut Link` are modelled on values: each
  helper returns the new link, and the classes reassign a field to it. The model therefore
  says nothing about aliasing of nodes, which the source never shares between links.
- Exceptions are modelled as `Result`, `Outcome` and `Option` values. This includes
  `SearchForParent` throwing the parent node as its way of returning.
- `BinarySearchTree.BSTree.InsertItem` leaves out the `IsFull()` test at bstree.h:348-349.
  `BSTree::IsFull` always returns false, so the test is dead code. If it ever fired it would
  throw `FoundInBSTree`, although the comment at bstree.h:344 promises `FullBSTree`.
- `Linked_List::isFull` is not modelled. It is an allocation probe that inserts and deletes
  key -1 and returns true on every run, so it also removes a stored element with key -1.
- `ShiftRegister.LFSR.NextState` uses the corrected `Queues.Queue.Peek`. With the code as
  written, a tap equal to the register length reads the newest bit instead of failing.
- `BinarySearchTree.PreOrder`, `BinarySearchTree.InOrder`, `BinarySearchTree.PostOrder`
  state only the length of the queue in their own contracts. Their order and contents are
  proved in the lemmas beside them (`TraversalsOfNode`, `TraversalsListContents`,
  `TraversalsArePermutations`, `InOrderIsStrictlyIncreasing`).
- `Items.Same`, `Items.Less`, `Items.Greater` have no contracts of their own. They are
  stated through `ComparisonsUseIdOnly` and `ItemOrderIsTotal`.

## Findings

| source | as written | input that shows it | evidently intended | confidence | as-written member | corrected member |
|---|---|---|---|---|---|---|
| Project3_BinarySearchTree/bstree.h:134-142 | `Delete` descends by comparison with no null check, so an absent item reaches a null link and dereferences it | `DeleteItem(99)` on the tree holding only 50 | throw NotFoundBSTree, as the comments at lines 133 and 357 promise | not executed; high | BinarySearchTree.DeleteAsWritten | BinarySearchTree.Delete |
| Project2_Queue/Queue_Cpp/queue.h:164-171 | only `n > count` is rejected: `Peek(count)` walks no link and returns the rear, and a negative `n` walks past the front node | `Peek(2)` on a queue of 2 values returns the newest; `Peek(-1)` dereferences null | throw QueueInvalidPeek unless 0 <= n < count | not executed; high | Queues.PeekAsWritten | Queues.Queue.Peek |
| Project1_LinkedList/LinkedList_Cpp/linked_list.h:70-75 | the lambda tests `!item->next` before comparing keys, so the last element's key is never checked | `Insert(5, f)` on the list holding only key 5 appends a second key 5 and returns true | return false for any stored key, keeping keys distinct | not executed; high | CppLinkedList.InsertRecursionAsWritten | CppLinkedList.InsertRecursion |
| Project1_LinkedList/LinkedList_Cpp/linked_list.h:49-52 | after freeing the head, the loop tests `next->next` although `next` is null for a one-element list | `ClearList()` on a list of one element | stop when `next` is null and leave an empty list | not executed; high | CppLinkedList.ClearListAsWritten | CppLinkedList.LinkedList.ClearList |
