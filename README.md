# Verified model of five data-structure and calculator components

This project is a Dafny model of five components from a repository of C++
laboratory assignments, with proofs of what each one promises.

- **`Tree`** (averenkov.eugene/S4/BiTree.hpp) is an AVL-balanced ordered map.
  - A sentinel `fake_root` holds the tree in its left slot.
  - `push` and `erase` record the nodes they pass on an explicit stack and hand it to `rebalance_path`.
  - `get_height` recomputes heights with a stack and a memo map.
- **`AvlTree`** (smirnov.alexandr/S4/avlTree.hpp) is an AVL map whose nodes store their heights.
  - Insertion is the recursive `addOrGet`, which overwrites the value of a key that is already present.
- **`Fwd_list`** (karnauhova.alexandra/S1/fwd_list.hpp) is a singly linked list closed into a ring by a sentinel node.
- **The infix calculator** (averenkov.eugene/S2/main.cpp):
  - `readToken` is the tokenizer;
  - `infixToPostfix` is a shunting-yard converter;
  - `evaluatePostfix` evaluates the postfix queue on `long long` with overflow guards.
- **`count_lists`** (karnauhova.alexandra/S1/count_sum.cpp) adds up a list of lists column by column, checking for `unsigned long long` overflow.

Modules and files:

| file | module | what it holds |
|---|---|---|
| wrappers.dfy | Wrappers | `Option` and `Result`; a thrown exception is `Err(message)` |
| cpp_integers.dfy | CppInt | `long long` and `unsigned long long` limits; C++ truncating `/` and `%` |
| bitree_balance.dfy | BiTreeBalance | heights, rotations, `balance`, and the insertion and deletion that averenkov's tree is proved against |
| bitree_path.dfy | BiTreePath | the path stack and what `rebalance_path` builds from it |
| bitree.dfy | BiTree | the `Tree` class and its loops: descent, `get_height`, `rebalance_path`, bounds, `erase` |
| avl_tree.dfy | SmirnovAvl | smirnov's nodes with stored heights, `addOrGet`, and the `AvlTree` class |
| fwd_list.dfy | ForwardList | heap nodes relinked in place, with a ghost sequence view |
| expression.dfy | Expression | tokenizer, converter and evaluator |
| count_sum.dfy | ColumnSums | `element_lists` and `count_lists` over a `ForwardList` of sums |

Modelling conventions:

- Keys of both trees are `int`, and `Compare` is `<`.
- An absent child is `Nil` (in the list, `Null`). In smirnov's tree, the source writes it as `nullptr`. In averenkov's tree, it is that tree's `fake_root`, the value push's descent loop stops at (BiTree.hpp:346). `find_NodeType` (BiTree.hpp:527), the bounds (BiTree.hpp:652) and `get_height` (BiTree.hpp:242) also stop at `nullptr`, but no operation of the model writes one.
- A node of averenkov's tree is identified by the path of turns that reaches it. This is how the `unordered_map` of `get_height` is keyed.
- Every loop of the source is a `while` loop, proved against a specification function.
- The list's nodes are heap objects whose `next` fields the methods relink. The ghost fields `nodes` and `Contents` give the public view.
- The node constructors of both trees are in node headers that are not part of this model, so two assumptions are made:
  - In smirnov's tree, `new NodeType(key, value)` (avlTree.hpp:318) makes a leaf with stored height 1. `HeightsOk` for a new leaf, and with it every balance decision proved about `Balance` and `AddOrGet`, rests on this.
  - In averenkov's tree, a node made by `new NodeType(key, value, parent)` has both children absent: both hold the tree's `fake_root`. Push's loop at BiTree.hpp:346 stops only at `fake_root`, so this assumption is what makes a pushed leaf a leaf.
- Stream output and `max_lenght` are outside the model. `count_lists` returns the sequence of numbers it writes, and takes `max_length` as a parameter.

## Model

| member | source | states |
|---|---|---|
| BiTreeBalance.Height | averenkov.eugene/S4/BiTree.hpp:240-275 | the recomputed height is -1 exactly for an absent node and never below -1 |
| BiTreeBalance.RotateRight | averenkov.eugene/S4/BiTree.hpp:191-211 | the in-order sequence and key set are unchanged, and the old left child is the new top |
| BiTreeBalance.RotateLeft | averenkov.eugene/S4/BiTree.hpp:213-238 | the in-order sequence and key set are unchanged, and the old right child is the new top; the right child must exist |
| BiTreeBalance.Balanced | averenkov.eugene/S4/BiTree.hpp:293-328 | balance keeps the in-order sequence and the key set |
| BiTreeBalance.RotateRightOrdered | averenkov.eugene/S4/BiTree.hpp:191-211 | the right rotation of a search tree is a search tree |
| BiTreeBalance.RotateLeftOrdered | averenkov.eugene/S4/BiTree.hpp:213-238 | the left rotation of a search tree is a search tree |
| BiTreeBalance.BalancedOrdered | averenkov.eugene/S4/BiTree.hpp:293-328 | balance keeps search-tree ordering |
| BiTreeBalance.OrderedItemsIncrease | averenkov.eugene/S4/BiTree.hpp:456-469 | the in-order walk from begin() of an ordered tree has strictly increasing keys |
| BiTreeBalance.BalancedLeftHeavy | averenkov.eugene/S4/BiTree.hpp:302-313 | with AVL children and a left side two higher, the LL or LR rotation gives an AVL tree as high as the left child or one higher |
| BiTreeBalance.BalancedRightHeavy | averenkov.eugene/S4/BiTree.hpp:314-325 | the mirror case: RR or RL gives an AVL tree as high as the right child or one higher |
| BiTreeBalance.BalancedIsAvl | averenkov.eugene/S4/BiTree.hpp:293-328 | with AVL children whose heights differ by at most 2, the result is AVL, no lower than the taller child and at most one higher, and a balanced node is returned unchanged |
| BiTreeBalance.FilterSizes | averenkov.eugene/S4/BiTree.hpp:346-363 | the numbers of items below k and above k, plus one when k is present, add up to the number of items |
| BiTreeBalance.InsertedKeys | averenkov.eugene/S4/BiTree.hpp:331-378 | insertion adds exactly the key |
| BiTreeBalance.InsertedOrdered | averenkov.eugene/S4/BiTree.hpp:331-378 | insertion keeps search-tree ordering |
| BiTreeBalance.InsertedAvl | averenkov.eugene/S4/BiTree.hpp:331-413 | insertion keeps an AVL tree AVL and grows its height by at most one |
| BiTreeBalance.InsertedPresent | averenkov.eugene/S4/BiTree.hpp:359-362 | inserting a present key leaves the tree, and so the stored value, unchanged |
| BiTreeBalance.InsertedItems | averenkov.eugene/S4/BiTree.hpp:331-378 | a new key's item lands between the items below and above it |
| BiTreeBalance.InsertedCorrect | averenkov.eugene/S4/BiTree.hpp:331-413 | all of the insertion facts at once, for an AVL search tree |
| BiTreeBalance.DeleteMinItems | averenkov.eugene/S4/BiTree.hpp:808-829 | the successor is the first in-order item, and unlinking it leaves the rest |
| BiTreeBalance.DeleteMinOrdered | averenkov.eugene/S4/BiTree.hpp:808-829 | unlinking the minimum keeps ordering, and the minimum is below every key left |
| BiTreeBalance.DeleteMinAvl | averenkov.eugene/S4/BiTree.hpp:808-829 | unlinking the minimum keeps AVL and lowers the height by at most one |
| BiTreeBalance.DeletedKeys | averenkov.eugene/S4/BiTree.hpp:763-850 | deletion removes exactly the key |
| BiTreeBalance.DeletedOrdered | averenkov.eugene/S4/BiTree.hpp:763-850 | deletion keeps search-tree ordering |
| BiTreeBalance.DeletedAvl | averenkov.eugene/S4/BiTree.hpp:763-850 | deletion keeps AVL and lowers the height by at most one |
| BiTreeBalance.DeletedAbsent | averenkov.eugene/S4/BiTree.hpp:841-849 | deleting an absent key changes nothing |
| BiTreeBalance.DeletedRootItems | averenkov.eugene/S4/BiTree.hpp:806-829 | overwriting a two-child node with its successor and unlinking the successor leaves the left items followed by the right items |
| BiTreeBalance.DeletedItems | averenkov.eugene/S4/BiTree.hpp:763-850 | deletion leaves the items below k followed by those above k |
| BiTreeBalance.DeletedCorrect | averenkov.eugene/S4/BiTree.hpp:763-850 | all of the deletion facts at once, for an AVL search tree |
| BiTreePath.SearchPath | averenkov.eugene/S4/BiTree.hpp:342-363 | the descent is empty only for an empty tree, starts at the root, and visits only nodes |
| BiTreePath.MinSpine | averenkov.eugene/S4/BiTree.hpp:808-812 | the walk to the successor starts at the node and then only goes left; it is empty when there is no left child |
| BiTreePath.RebuildCompose | averenkov.eugene/S4/BiTree.hpp:382-413 | rebalancing a whole path is rebalancing its lower part and storing the result in the upper part |
| BiTreePath.RebuildPop | averenkov.eugene/S4/BiTree.hpp:387-401 | one iteration pops the deepest node, balances it and stores it in the slot it came from |
| BiTreePath.RebuildInserted | averenkov.eugene/S4/BiTree.hpp:342-376 | push's path, extended by the new leaf on the side the key picks, rebalances into the AVL insertion |
| BiTreePath.RebuildDeleted | averenkov.eugene/S4/BiTree.hpp:763-835 | the full path to the erased node, with that node replaced, rebalances into the AVL deletion |
| BiTreePath.RebuildMinSpine | averenkov.eugene/S4/BiTree.hpp:808-827 | unlinking the leftmost node and rebalancing the walk to it removes the minimum |
| BiTreePath.RebuildSuccessor | averenkov.eugene/S4/BiTree.hpp:806-829 | the two-child case (copy the successor's data, unlink it, rebalance) deletes the node's key |
| BiTree.GetHeight | averenkov.eugene/S4/BiTree.hpp:240-275 | the stack-and-memo loop returns the recomputed height |
| BiTree.PopKeeps | averenkov.eugene/S4/BiTree.hpp:256-260 | recording a node's height and popping it keeps the memo correct and the stack consistent, and shrinks the set of unknown heights |
| BiTree.PushKeeps | averenkov.eugene/S4/BiTree.hpp:263-270 | pushing the unknown children keeps the stack consistent and shrinks the set of nodes never pushed |
| BiTree.GetBalanceFactor | averenkov.eugene/S4/BiTree.hpp:278-289 | the result is the left height minus the right height, 0 for an absent node |
| BiTree.Balance | averenkov.eugene/S4/BiTree.hpp:293-328 | the rotation case chosen from computed balance factors is `Balanced` |
| BiTree.RebalancePath | averenkov.eugene/S4/BiTree.hpp:382-413 | the pop-balance-store loop returns `Rebuild` of the path, which is never empty |
| BiTree.FirstBeyondNode | averenkov.eugene/S4/BiTree.hpp:652-663 | one step of the bound search: a node beyond k is the answer unless something in its left subtree is; otherwise the answer lies on its right |
| BiTree.FirstBeyondLeast | averenkov.eugene/S4/BiTree.hpp:645-731 | in increasing order, the first item beyond k is the one with the least key beyond k, and there is none exactly when no key is beyond k |
| BiTree.CopyTreeOfAvl | averenkov.eugene/S4/BiTree.hpp:900-912 | the corrected copy_tree, which stops at every absent child and balances every copied node, gives back the same tree for an AVL tree |
| BiTree.EraseAsWrittenLosesKeys | averenkov.eugene/S4/BiTree.hpp:782-835 | pushing 2, 1, 3, 4 and then erasing 4 as written keeps only {3}; the intended result keeps {1, 2, 3} |
| BiTree.FourKeysPushed | averenkov.eugene/S4/BiTree.hpp:331-378 | pushing 2, 1, 3 and 4 into an empty tree builds the four-key tree of the finding, an AVL search tree |
| BiTree.EraseAsWrittenEmptiesTree | averenkov.eugene/S4/BiTree.hpp:784-835 | erasing, as written, the root of a two-node tree whose root has one child empties the tree; the intended result is the child |
| BiTree.PushPath | averenkov.eugene/S4/BiTree.hpp:342-377 | push's rebalanced path is the insertion; it is an AVL search tree with one more item |
| BiTree.ErasedBelowPath | averenkov.eugene/S4/BiTree.hpp:784-835 | the full walk above the erased node, with the node replaced by its deletion, rebuilds into the deletion |
| BiTree.PathTo | averenkov.eugene/S4/BiTree.hpp:769-770 | the path of a present key: the descent ends at the node that holds the key, and every node above it holds some other key of the tree |
| BiTree.SuccessorPath | averenkov.eugene/S4/BiTree.hpp:806-829 | the walk to the successor, with the data copied and the successor unlinked, rebuilds into the deletion of the node's key |
| BiTree.Descend | averenkov.eugene/S4/BiTree.hpp:342-363 | the descent loop finds the key exactly when it is present, and otherwise returns the search path |
| BiTree.Tree.constructor | averenkov.eugene/S4/BiTree.hpp:98-106 | a new tree is empty with size 0 |
| BiTree.Tree.Copy | averenkov.eugene/S4/BiTree.hpp:120-127 | corrected for every tree whose absent slots are fake_root, where copy_tree as written does not finish: the copy holds the same tree and size, and an empty tree gives an empty copy |
| BiTree.CopyAsWrittenCycleDiverges | averenkov.eugene/S4/BiTree.hpp:898-912 | as written, copy_tree started on a cycle of left pointers that meets neither nullptr nor the new fake_root fails to finish within every recursion depth; fake_root->left is the root and the root's left spine ends at fake_root, so every tree whose absent slots are fake_root has such a cycle |
| BiTree.CopyAsWrittenDiverges | averenkov.eugene/S4/BiTree.hpp:98-127 | as written, copy-constructing from an empty tree, whose fake_root points to itself (BiTree.hpp:103-105), fails to finish within every recursion depth |
| BiTree.CopyAsWrittenOneKeyDiverges | averenkov.eugene/S4/BiTree.hpp:120-127 | as written, copy-constructing from a tree with one key, whose children are fake_root (BiTree.hpp:335-338), fails to finish within every recursion depth |
| BiTree.Tree.Empty | averenkov.eugene/S4/BiTree.hpp:444-447 | true exactly when there are no items |
| BiTree.Tree.Size | averenkov.eugene/S4/BiTree.hpp:450-453 | the number of items |
| BiTree.Tree.Push | averenkov.eugene/S4/BiTree.hpp:331-378 | a present key changes neither the tree nor the size; an absent key gives the AVL insertion and size + 1 |
| BiTree.Tree.Insert | averenkov.eugene/S4/BiTree.hpp:736-740 | push, then the stored item under the key: the new item when the key was absent |
| BiTree.Tree.Index | averenkov.eugene/S4/BiTree.hpp:886-890 | the intended operator[]: insert the default value if the key is absent, then return what is stored under the key |
| BiTree.Tree.FindNode | averenkov.eugene/S4/BiTree.hpp:524-543 | null exactly when the key is absent; otherwise the node holding the key |
| BiTree.Tree.Find | averenkov.eugene/S4/BiTree.hpp:603-611 | end() exactly when the key is absent; otherwise the stored item under the key |
| BiTree.Tree.Count | averenkov.eugene/S4/BiTree.hpp:626-629 | 1 when the key is present, 0 otherwise |
| BiTree.Tree.At | averenkov.eugene/S4/BiTree.hpp:864-896 | out_of_range("not found") exactly when the key is absent; otherwise the stored value |
| BiTree.Tree.Begin | averenkov.eugene/S4/BiTree.hpp:456-463 | end() exactly for an empty tree; otherwise the first in-order item, whose key is the least |
| BiTree.Tree.LowerBound | averenkov.eugene/S4/BiTree.hpp:647-665 | the item with the least key not below k, or end() exactly when every key is below k |
| BiTree.Tree.UpperBound | averenkov.eugene/S4/BiTree.hpp:691-709 | the item with the least key above k, or end() exactly when no key is above k |
| BiTree.Tree.BoundSearch | averenkov.eugene/S4/BiTree.hpp:647-709 | the shared descent returns the first in-order item beyond k |
| BiTree.Tree.EqualRange | averenkov.eugene/S4/BiTree.hpp:633-636 | the pair (lower_bound, upper_bound), whose halves differ exactly when the key is present, the first then holding the key |
| BiTree.Tree.Clear | averenkov.eugene/S4/BiTree.hpp:500-508 | the tree is empty with size 0 |
| BiTree.Tree.Swap | averenkov.eugene/S4/BiTree.hpp:591-599 | the two trees and sizes are exchanged |
| BiTree.Tree.EraseAt | averenkov.eugene/S4/BiTree.hpp:763-839 | end() changes nothing; erasing a present key's element gives the AVL deletion and size - 1; an item returned has a key still in the tree |
| BiTree.Tree.Erase | averenkov.eugene/S4/BiTree.hpp:841-850 | corrected, because it erases through the corrected EraseAt: returns 1, deletes the key and decrements the size when the key is present; returns 0 and changes nothing otherwise |
| SmirnovAvl.StoredHeight | smirnov.alexandr/S4/avlTree.hpp:220-230 | correct stored heights are the recomputed heights plus one; 0 exactly for null |
| SmirnovAvl.UpdateHeight | smirnov.alexandr/S4/avlTree.hpp:233-245 | the height becomes 1 + the larger child height; nothing else changes, and correct child heights give a correct node |
| SmirnovAvl.BalanceFactorAgrees | smirnov.alexandr/S4/avlTree.hpp:248-251 | with correct stored heights, the stored balance factor is the recomputed one |
| SmirnovAvl.RotateLeft | smirnov.alexandr/S4/avlTree.hpp:254-268 | the shape is the left rotation, and the two moved nodes get correct heights |
| SmirnovAvl.RotateRight | smirnov.alexandr/S4/avlTree.hpp:271-285 | the shape is the right rotation, and the two moved nodes get correct heights |
| SmirnovAvl.Balance | smirnov.alexandr/S4/avlTree.hpp:288-309 | with correct heights below, the same choice as the recomputing balance, with correct heights in the result |
| SmirnovAvl.AddOrGet | smirnov.alexandr/S4/avlTree.hpp:311-336 | the heights stay correct; the shape is `Put`; the size counter is incremented exactly when the key was absent |
| SmirnovAvl.SetValueKeeps | smirnov.alexandr/S4/avlTree.hpp:332-335 | overwriting a value keeps keys, height, ordering and AVL |
| SmirnovAvl.SetValueItems | smirnov.alexandr/S4/avlTree.hpp:332-335 | overwriting replaces exactly the key's item |
| SmirnovAvl.PutPresent | smirnov.alexandr/S4/avlTree.hpp:311-336 | for a present key, addOrGet only overwrites the value; every rebalance on the way up is a no-op |
| SmirnovAvl.PutAbsent | smirnov.alexandr/S4/avlTree.hpp:311-336 | for an absent key, addOrGet is the AVL insertion |
| SmirnovAvl.PutCorrect | smirnov.alexandr/S4/avlTree.hpp:311-336 | an AVL search tree stays one; keys become old + {k}; the items are the old ones with k's replaced or added, strictly increasing; the height grows by at most one |
| SmirnovAvl.BalanceRestoresAvl | smirnov.alexandr/S4/avlTree.hpp:288-309 | with AVL children and a balance factor in [-2, 2], the result is AVL with correct heights and the same in-order sequence, and ordering is kept |
| SmirnovAvl.FindNode | smirnov.alexandr/S4/avlTree.hpp:340-355 | a node returned holds the key and its stored value; in an ordered tree, null exactly when the key is absent |
| SmirnovAvl.ItemOfKey | smirnov.alexandr/S4/avlTree.hpp:340-355 | an ordered tree stores at most one value per key |
| SmirnovAvl.MinNode | smirnov.alexandr/S4/avlTree.hpp:358-369 | null exactly for null; otherwise a node without a left child, holding the first in-order item |
| SmirnovAvl.AvlTree.constructor | smirnov.alexandr/S4/avlTree.hpp:49-53 | null root and size 0 |
| SmirnovAvl.AvlTree.Move | smirnov.alexandr/S4/avlTree.hpp:68-75 | takes the other tree's root and size and leaves it with a null root and size 0 |
| SmirnovAvl.AvlTree.Empty | smirnov.alexandr/S4/avlTree.hpp:116-119 | true exactly when there are no entries |
| SmirnovAvl.AvlTree.Size | smirnov.alexandr/S4/avlTree.hpp:122-125 | the number of entries |
| SmirnovAvl.AvlTree.Clear | smirnov.alexandr/S4/avlTree.hpp:128-133 | null root and size 0 |
| SmirnovAvl.AvlTree.Swap | smirnov.alexandr/S4/avlTree.hpp:136-141 | roots and sizes are exchanged |
| SmirnovAvl.AvlTree.Index | smirnov.alexandr/S4/avlTree.hpp:144-149 | operator[] returns `Value()` whether or not the key was present, stores it under the key, keeps every other entry, and counts a new key |
| SmirnovAvl.AvlTree.At | smirnov.alexandr/S4/avlTree.hpp:152-182 | out_of_range("Key not found") exactly when the key is absent; otherwise the stored value |
| SmirnovAvl.AvlTree.Find | smirnov.alexandr/S4/avlTree.hpp:197-205 | cend() exactly when the key is absent; otherwise the entry under the key |
| SmirnovAvl.AvlTree.CBegin | smirnov.alexandr/S4/avlTree.hpp:185-188 | cend() exactly for an empty tree; otherwise the first entry, whose key is the least |
| ForwardList.ReversedTwice | karnauhova.alexandra/S1/fwd_list.hpp:61-78 | reversing twice restores the sequence |
| ForwardList.WithoutMembers | karnauhova.alexandra/S1/fwd_list.hpp:307-327 | removing by a predicate keeps exactly the elements that fail it |
| ForwardList.WithoutLength | karnauhova.alexandra/S1/fwd_list.hpp:307-327 | the length drops by the number of elements that satisfy the predicate |
| ForwardList.WithoutTwice | karnauhova.alexandra/S1/fwd_list.hpp:307-327 | removing a second time changes nothing |
| ForwardList.ForwardList.constructor | karnauhova.alexandra/S1/fwd_list.hpp:81-86 | the sentinel points to itself; the list is empty with size 0 |
| ForwardList.ForwardList.Empty | karnauhova.alexandra/S1/fwd_list.hpp:246-249 | true exactly when the list is empty |
| ForwardList.ForwardList.Size | karnauhova.alexandra/S1/fwd_list.hpp:252-255 | the number of elements |
| ForwardList.ForwardList.Front | karnauhova.alexandra/S1/fwd_list.hpp:205-208 | the first element of a non-empty list |
| ForwardList.ForwardList.Back | karnauhova.alexandra/S1/fwd_list.hpp:211-219 | the walk to the node that links back to the sentinel returns the last element |
| ForwardList.ForwardList.PushFront | karnauhova.alexandra/S1/fwd_list.hpp:164-169 | the contents become [x] + old, and size + 1 |
| ForwardList.ForwardList.Reverse | karnauhova.alexandra/S1/fwd_list.hpp:61-78 | the contents become their reverse and the size is unchanged, an empty list included |
| ForwardList.ForwardList.UnlinkAfter | karnauhova.alexandra/S1/fwd_list.hpp:292-298 | linking the previous node past position p removes exactly element p and decrements the size |
| ForwardList.ForwardList.RemoveIf | karnauhova.alexandra/S1/fwd_list.hpp:307-327 | the contents become the elements failing the predicate, in order, and the size drops by the number removed |
| ForwardList.ForwardList.Remove | karnauhova.alexandra/S1/fwd_list.hpp:283-303 | the same with the test "equal to value" |
| ForwardList.ForwardList.Erase | karnauhova.alexandra/S1/fwd_list.hpp:343-358 | cend() changes nothing and returns end(); otherwise removes exactly that element, decrements the size and returns the node that now follows |
| ForwardList.ForwardList.ClearAsWritten | karnauhova.alexandra/S1/fwd_list.hpp:185-195 | as written: size 0, but the sentinel still points at the old first node, so a non-empty list is left broken |
| ForwardList.ForwardList.Clear | karnauhova.alexandra/S1/fwd_list.hpp:185-195 | corrected: an empty, valid list |
| ForwardList.ForwardList.Swap | karnauhova.alexandra/S1/fwd_list.hpp:114-118 | contents and sizes are exchanged |
| ColumnSums.ElementAt | karnauhova.alexandra/S1/count_sum.cpp:5-19 | for an index from 1 on, the element at that 1-based position, or 0 past the end; index 0 gives the first element |
| ColumnSums.ElementLists | karnauhova.alexandra/S1/count_sum.cpp:5-19 | the iterator-and-counter loop returns `Element` |
| ColumnSums.ColumnSumGrows | karnauhova.alexandra/S1/count_sum.cpp:33-41 | the running column sum never decreases, so past a failed check the full sum still does not fit |
| ColumnSums.Longest | karnauhova.alexandra/S1/count_sum.cpp:23 | no list is longer, and some list has this length |
| ColumnSums.BeyondLongest | karnauhova.alexandra/S1/count_sum.cpp:23-44 | a column past the longest list sums to 0 |
| ColumnSums.SumColumn | karnauhova.alexandra/S1/count_sum.cpp:33-41 | logic_error("Incorrect sum") exactly when the column sum exceeds ULLONG_MAX; otherwise the column sum |
| ColumnSums.Written | karnauhova.alexandra/S1/count_sum.cpp:46-54 | the numbers written, front first, are the list's contents |
| ColumnSums.PushColumnSums | karnauhova.alexandra/S1/count_sum.cpp:31-44 | the loop succeeds exactly when every column fits; it then holds max_length sums, the last column first |
| ColumnSums.CountLists | karnauhova.alexandra/S1/count_sum.cpp:21-56 | "0" alone when max_length is 0; otherwise the error exactly when some column does not fit, else exactly max_length sums in column order, column 1 first |
| ColumnSums.CountListsOfLongest | karnauhova.alexandra/S1/count_sum.cpp:23-56 | with max_length the longest list's length: "0" exactly when every list is empty; otherwise the error exactly when some column of any index does not fit, else one sum per column of the longest list |
| CppInt.TruncDivMod | averenkov.eugene/S2/main.cpp:203-216 | C++ `/` and `%`: a == b*q + r, with abs(r) < abs(b) and r taking the dividend's sign |
| Expression.PrecedenceByRank | averenkov.eugene/S2/main.cpp:45-52 | the stacked operator is output first exactly when it binds at least as tightly, so equal precedence pops |
| Expression.IsOverflowExact | averenkov.eugene/S2/main.cpp:10-38 | false when either operand is 0; true exactly when the product is not a `long long` |
| Expression.OverflowBothPositive | averenkov.eugene/S2/main.cpp:18-21 | for a, b > 0: a > LLONG_MAX / b exactly when the product is out of range |
| Expression.OverflowMixedSigns | averenkov.eugene/S2/main.cpp:22-32 | for opposite signs, the LLONG_MIN test is exact |
| Expression.OverflowBothNegative | averenkov.eugene/S2/main.cpp:33-36 | for a, b < 0: a < LLONG_MAX / b exactly when the product is out of range |
| Expression.SkipSpaces | averenkov.eugene/S2/main.cpp:56-59 | the first position from pos that is not whitespace |
| Expression.DigitEnd | averenkov.eugene/S2/main.cpp:76-79 | the end of the maximal digit run from pos |
| Expression.ReadTokenSpec | averenkov.eugene/S2/main.cpp:54-85 | the position only advances; "" only at the end of the input; a token advances the position; an error is "Error" |
| Expression.ReadToken | averenkov.eugene/S2/main.cpp:54-85 | the two loops compute `ReadTokenSpec` |
| Expression.ReadTokenCovers | averenkov.eugene/S2/main.cpp:54-85 | one call consumes whitespace and then exactly its token, which is an operator, a parenthesis or a digit run; an error is a character that starts no token |
| Expression.TokenizeCovers | averenkov.eugene/S2/main.cpp:91-98 | the tokens, concatenated, are the input without its whitespace; an error means some character starts no token |
| Expression.InfixToPostfix | averenkov.eugene/S2/main.cpp:87-144 | the loop computes `Postfix` |
| Expression.PopToParenKeeps | averenkov.eugene/S2/main.cpp:107-119 | ')' fails exactly when no '(' is stacked, and otherwise moves only operators to the output |
| Expression.PopWhileKeeps | averenkov.eugene/S2/main.cpp:120-128 | the popping loop moves only operators, keeps the stack clean and keeps the operands in order |
| Expression.FlushOpsKeeps | averenkov.eugene/S2/main.cpp:134-142 | the final loop fails exactly when a '(' is left |
| Expression.StepKeeps | averenkov.eugene/S2/main.cpp:94-132 | one token fails only as a ')' with no '(' stacked, and moves operands to the output in order |
| Expression.ShuntKeeps | averenkov.eugene/S2/main.cpp:92-142 | the conversion succeeds exactly when the parentheses match; operands keep their order; no parenthesis is output |
| Expression.PostfixCorrect | averenkov.eugene/S2/main.cpp:87-144 | infixToPostfix fails exactly on an untokenizable character or unmatched parentheses; otherwise operands keep their input order and the queue holds only operands and operators |
| Expression.AccumulateDigits | averenkov.eugene/S2/main.cpp:163-166 | a run of n digits accumulates to a value in [0, 10^n) |
| Expression.AsWrittenGuardsOneSide | averenkov.eugene/S2/main.cpp:182-202 | as written, '+' fails exactly above LLONG_MAX, '-' exactly below LLONG_MIN, and '*' exactly out of range |
| Expression.AddMissesNegativeOverflow | averenkov.eugene/S2/main.cpp:182-187 | as written, -LLONG_MAX + -LLONG_MAX passes the guard with an out-of-range sum |
| Expression.SubMissesNegativeSubtrahend | averenkov.eugene/S2/main.cpp:188-194 | as written, 1 - (-LLONG_MAX) passes the guard with LLONG_MAX + 1 |
| Expression.DivMissesMinByMinusOne | averenkov.eugene/S2/main.cpp:203-209 | as written, LLONG_MIN / -1 passes with LLONG_MAX + 1 |
| Expression.ModMinByMinusOneUndefined | averenkov.eugene/S2/main.cpp:210-216 | as written, LLONG_MIN % -1 takes a C++ remainder whose quotient is not a `long long`, which is undefined; over the integers it reads as 0 |
| Expression.ModMinByMinusOneChecked | averenkov.eugene/S2/main.cpp:210-216 | corrected: LLONG_MIN % -1 gives 0 without taking that remainder |
| Expression.ModSumOverflows | averenkov.eugene/S2/main.cpp:210-216 | as written, 1 % LLONG_MAX forms the intermediate sum LLONG_MAX + 1 |
| Expression.LiteralOverflows | averenkov.eugene/S2/main.cpp:163-166 | the digits "9223372036854775808" accumulate to LLONG_MAX + 1 |
| Expression.LiteralRejected | averenkov.eugene/S2/main.cpp:153-167 | corrected: that literal is refused with "Overflow error" |
| Expression.DivInRange | averenkov.eugene/S2/main.cpp:203-209 | apart from LLONG_MIN / -1, a truncated quotient of `long long` values is a `long long` |
| Expression.ModCheckedIsExact | averenkov.eugene/S2/main.cpp:210-216 | the sum-free remainder equals `(a % b + b) % b`, lies strictly within the divisor, and is in [0, b) for b > 0 |
| Expression.ApplyCheckedExact | averenkov.eugene/S2/main.cpp:180-222 | corrected: a zero divisor gives the source's errors; otherwise the result is the exact mathematical one, and it is an overflow error exactly when that is out of range |
| Expression.EvalNeedsDiscipline | averenkov.eugene/S2/main.cpp:171-174 | evaluation succeeds only if every operator finds two operands and exactly one value remains |
| Expression.EvaluatePostfix | averenkov.eugene/S2/main.cpp:146-234 | corrected: the loop computes `Eval`, which uses the corrected operator guards and refuses a literal beyond LLONG_MAX |
| Expression.LeftAssociative | averenkov.eugene/S2/main.cpp:120-128 | `1 - 2 - 3` converts to `1 2 - 3 -` |
| Expression.LeftAssociativeValue | averenkov.eugene/S2/main.cpp:146-234 | which evaluates to -4 |
| Expression.PrecedenceExample | averenkov.eugene/S2/main.cpp:120-142 | `2 + 3 * 4` converts to `2 3 4 * +` |
| Expression.ParenthesesExample | averenkov.eugene/S2/main.cpp:103-119 | `( 2 + 3 ) * 4` converts to `2 3 + 4 *` |
| Expression.PrecedenceValue | averenkov.eugene/S2/main.cpp:146-234 | the queue `2 3 4 * +` evaluates to 14 |
| Expression.ParenthesesValue | averenkov.eugene/S2/main.cpp:146-234 | the queue `2 3 + 4 *` evaluates to 20 |
| Expression.ModExample | averenkov.eugene/S2/main.cpp:210-216 | `(0 - 7) % 3` is 2, in [0, 3) |

## Left out

- I/O is not modelled: `main`, `processExpressions`, stream printing, and the readers of the other directories.
  - `count_lists` returns the numbers it would write.
  - `max_lenght` is not part of this model. `CountLists` takes its result as a parameter, and `CountListsOfLongest` reads it as the longest list's length.
- Memory management is not modelled: `new`/`delete`, destructors, `clearNode`, and copy and move assignment.
  - Unlinked list nodes stay in the list's `Repr`.
  - Parent pointers are not modelled, and neither is the write to the unused `root` field in `transplant`.
- Iterators are modelled as items or nodes: `Option` of the item, with `None` for `end()`, or the node itself for the list.
  - Iterator increment and the iterator classes themselves are outside the model.
- The broken `Fwd_list` members are not modelled:
  - `pop_front`, which deletes the wrong node;
  - range `erase`, which decrements the size twice;
  - the `assign` overloads, which do not compile;
  - the sized, initializer-list and range constructors, which never allocate the sentinel;
  - the copy constructor and the copy and move assignments.
- BiTree.Tree.Index: models the operator[] the code evidently intends. As written it dereferences `result.first` on an iterator, which does not compile.
- BiTree.Tree.EraseAt: rebalances the whole path from the root, as the corrected half of the erase finding. Its returned iterator is only promised to name an item still in the tree; the code returns the parent of the unlinked node, which is not always the in-order successor.
- Range `erase` and the iterator-range and initializer-list `insert` and constructors of `Tree` are loops of `push`/`erase` and are not modelled separately.
- The stored `height` field of averenkov's nodes is not modelled. No balancing decision reads it, and `rotate_right` does not refresh it.
- The copy constructor of `AvlTree`, which is a loop of `operator[]`, is not modelled. Neither is the copy assignment.
- The `Compare` objects are fixed to `<` on `int`, so `comp` and `comp_` are not state.
- ColumnSums.ElementLists: returns the `unsigned long long` element. The source narrows it to `int` on return, which this model does not capture. So the "exactly when the column sum exceeds ULLONG_MAX" of `SumColumn`, `PushColumnSums`, `CountLists` and `CountListsOfLongest` holds for the source only when every element is at most INT_MAX.
- `remove_if`'s predicate is a pure Dafny function; a predicate with side effects is out of scope.
- `element_lists` is given its list by value, so it is modelled on a `seq`. The input of `count_lists` is a `seq` of named lists, which `count_lists` only reads.
- `readToken`'s negative-literal branch is not modelled. It cannot be reached, because '-' is always returned as an operator first.
- Whitespace is the "C" locale's `std::isspace` set.

- BiTree.Tree.Erase: deletes through the corrected `EraseAt`, which rebalances the whole path. The source's `erase(key)` runs the `erase(pos)` of the first finding, which loses keys: pushing 2, 1, 3, 4 and erasing 4 leaves {3} with size 3 in the source, and {1, 2, 3} in the model.
- BiTree.Tree.Copy: copies through the corrected `CopyTree`, which stops at every absent child. As written, copy_tree stops only at `nullptr` or at the new tree's `fake_root`. So it does not finish on any tree whose absent slots are the other tree's `fake_root` (`CopyAsWrittenCycleDiverges`), the empty tree and a one-key tree among them.
- A tree built by copy_tree holds `nullptr` in its absent slots (BiTree.hpp:904). Push (BiTree.hpp:346-352), erase (BiTree.hpp:772, 784, 787, 809, 823) and rotate_right (BiTree.hpp:195, 205) do not stop at `nullptr`. The model has one absent child and a corrected copy, so it does not capture what they do on such a tree.
- Expression.EvaluatePostfix: computes the corrected evaluator `Eval`, not the source's `evaluatePostfix`. Three things differ:
  - the operator guards are the exact ones of `ApplyChecked` (`+`, `-`, `/` and `%`);
  - a literal beyond LLONG_MAX is refused with "Overflow error";
  - taking the queue's front is read as the `drop()` that queue.hpp declares, because the `pop()` the code calls at main.cpp:150 does not exist there.
  The evaluator as written is kept as `ApplyAsWritten` and `Accumulate`, with the findings below.

## Findings

| source | as written | input that shows it | evidently intended | confidence | as-written member | corrected member |
|---|---|---|---|---|---|---|
| averenkov.eugene/S4/BiTree.hpp:782-835 | `erase(pos)` puts only the parent of the unlinked node on the path. The subtree `rebalance_path` returns for it becomes `fake_root->left`, so every key outside that subtree is lost. When the parent is the sentinel, the tree becomes empty. | push 2, 1, 3, 4 and then erase 4, which leaves {3}; or a root 1 whose only child is 2, then erase 1, which leaves an empty tree | rebalance the whole path from the root, leaving {1, 2, 3} and {2} | not executed | BiTree.EraseAsWrittenLosesKeys, BiTree.EraseAsWrittenEmptiesTree | BiTree.Tree.EraseAt, BiTreeBalance.DeletedCorrect |
| karnauhova.alexandra/S1/fwd_list.hpp:185-195 | `clear` deletes every node but leaves `fake_->next` pointing at the old first node | any non-empty list, then clear() | also point the sentinel back at itself | not executed | ForwardList.ForwardList.ClearAsWritten | ForwardList.ForwardList.Clear |
| averenkov.eugene/S2/main.cpp:182-187 | the '+' guard checks only two positive operands | `(0 - 9223372036854775807) + (0 - 9223372036854775807)` | also refuse a sum below LLONG_MIN | not executed | Expression.AddMissesNegativeOverflow | Expression.ApplyCheckedExact |
| averenkov.eugene/S2/main.cpp:188-194 | the '-' guard checks only a positive subtrahend | `1 - (0 - 9223372036854775807)` | also refuse a difference above LLONG_MAX | not executed | Expression.SubMissesNegativeSubtrahend | Expression.ApplyCheckedExact |
| averenkov.eugene/S2/main.cpp:203-209 | '/' checks only for a zero divisor | `(0 - 9223372036854775807 - 1) / (0 - 1)` | refuse LLONG_MIN / -1 | not executed | Expression.DivMissesMinByMinusOne | Expression.ApplyCheckedExact |
| averenkov.eugene/S2/main.cpp:210-216 | '%' checks only for a zero divisor, so LLONG_MIN % -1 takes `a % b` where `a / b` is not a `long long`, which C++ leaves undefined | `(0 - 9223372036854775807 - 1) % (0 - 1)` | give 0 without taking that remainder | not executed | Expression.ModMinByMinusOneUndefined | Expression.ModMinByMinusOneChecked |
| averenkov.eugene/S2/main.cpp:210-216 | '%' forms `a % b + b`, which can leave the range | `1 % 9223372036854775807` | the value of `(a % b + b) % b`, here 1 | not executed | Expression.ModSumOverflows | Expression.ModCheckedIsExact |
| averenkov.eugene/S2/main.cpp:163-166 | digits accumulate into `long long` with no range check | `9223372036854775808` | refuse a literal beyond LLONG_MAX | not executed | Expression.LiteralOverflows | Expression.LiteralRejected |
| averenkov.eugene/S4/BiTree.hpp:120-127 | the copy constructor hands `other.getRoot()` to copy_tree, which stops only at nullptr or at the new tree's fake_root; but the absent slots of `other` hold `other.fake_root`, whose left is `other`'s root again (BiTree.hpp:103-105, 335-338), so the recursion does not end for any tree | copy-construct from an empty tree, or from a tree holding one key | stop at `other.fake_root` as well, so that an empty tree gives an empty copy, as the move constructor's test (BiTree.hpp:136-138) intends | not executed | BiTree.CopyAsWrittenCycleDiverges, BiTree.CopyAsWrittenDiverges, BiTree.CopyAsWrittenOneKeyDiverges | BiTree.Tree.Copy, BiTree.CopyTreeOfAvl |
