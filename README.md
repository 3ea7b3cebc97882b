# lexicon key-value containers in Dafny

The lexicon repository counts word frequencies. It stores them in one of four
key→value containers behind a common dictionary interface:
- an AVL tree (include/AVLTree);
- a red-black tree (include/RBTree);
- a hash table with separate chaining (include/HashTable_Chaining);
- a hash table with open addressing and double hashing (include/HashTable_OpenAd).

The older headers includes/AVLTree.h and includes/RBTree.h keep a first version
of the two trees. This project models the containers and their iterators. It
proves what each operation does to the stored pairs.

Keys are `int` ordered by `<`, which stands for the strict total order the
containers are given (`Less`, the Unicode collation in the program). Values
have a generic type `V`.

**AVL tree** (modules `AVLNode`, `AVLSubtree`, `AVLIterator`, `AVLTree`, `AVLExamples`):
- The nodes form a datatype with a stored `height`.
- The recursive `_insert`, `_remove`, `_remove_successor`, the fixups and the rotations are functions.
- Their lemmas prove that each result is again an AVL search tree (balance in -1..1, stored height = real depth). The lemmas also give exactly how the key→value map changes, how far the height moves and how many rotations were counted.
- `_findNode`, `_minimum` and `_maximum` are loops.
- The class `AVLTree` holds `root`, `m_size` and `_n_rotations`.
- The iterator is a class with a current node and a stack. Its pending sequence is proved to be the in-order pairs still to come.

**Red-black trees** (modules `RBShape`, `RBNodes`, `RBArena`, `RBColors`, `RBRotate`, `RBWalk`, `RBInsert`, `RBDelete`, `RBIterator`, `RBTree`, `RBExamples`, `LegacyRB`):
- The nodes live in an arena `seq<RBNode<V>>`. Index 0 is the shared sentinel `_NIL`, and the links are indices, as the parent/left/right pointers are.
- A ghost tree with node ids (`Wf`) says which tree the links spell out.
- Rotations, `_insert_fixup`, the `_rb_delete` splice and `_remove_fixup` are methods on the arena.
- Each is proved to keep the in-order pairs and, where the source promises it, the red-black properties (no red node with a red child, equal black height, black root).

**Chained hash table** (modules `ChainingBuckets`, `HashChaining`):
- The table is a sequence of buckets (lists of pairs).
- Lookups are proved to agree with the flattened contents.
- Rehashing is proved to keep every pair (as a multiset) and every lookup.

**Open-addressing hash table** (modules `OpenSlots`, `HashOpen`, `OpenExamples`):
- The table is a sequence of `Entry(key, value, state)` with the states EMPTY, OCCUPIED and DELETED.
- For a prime table size, the double-hashing probe sequence is proved to visit every slot exactly once.
- The searches of `contains`/`at`/`remove` and the probe of `add` are proved correct against it.
- Rehashing is proved to keep the multiset of stored pairs.

`HashSupport` holds the shared pieces:
- `get_next_prime`, proved to terminate and to return the least prime that is at or above its argument and at least 3 (a request of 0, 1 or 2 gives 3, because `x <= 2` returns 3 at once);
- load factors, written as ratios.

Where the code behaves in a way that looks unintended, it is modelled as written. The behaviour is shown on a concrete input, and a corrected member beside it proves the intended property (see "## Findings"):
- `find` of the AVL iterator pushes the found node, so the node comes out again after its subtree.
- In includes/AVLTree.h a new node has height 0, so ascending keys build an unbalanced chain.
- `clear()` of the red-black tree leaves `m_size` unchanged.
- `remove` of the chained table always throws `HTC_KeyNotFoundException`, even after erasing the pair.
- The `operator[]` of the chained table returns the back of a bucket chosen before `add` rebuilt the table.
- The open-addressing `rehash` places entries by linear probing, while every search probes by double hashing, so a key can become unreachable after a rehash.
- The open-addressing `operator[]` returns the value of the slot its search stopped at, not the slot `add` wrote.
- `add` of the open-addressing table takes a DELETED slot before checking whether the key is stored further on, so a key can end up stored twice.
- The postfix `++` and `--` of the legacy red-black `ReverseIterator` step the wrong way.

The everyday operations (`Add`, `Remove`, `Rehash`, `Find`, `Clear`, and the `Subscript` of the open-addressing table) keep the as-written behaviour; the corrected members are separate. The one exception is the chained table's `HashChaining.HashTableChaining.Subscript`, which is the corrected `operator[]`: it reads the pair just added. Its as-written reading is the function `HashChaining.SubscriptAddedAsWritten`, exhibited on an input by `HashChaining.SubscriptReadsOtherKey`.

The source code and its documentation comments disagree in these places:
- The `remove` of include/RBTree/RBTree.hpp calls a `_remove(z)` that is never defined. Removal is modelled with the splice of `_rb_delete` from includes/RBTree.h:169-185, followed by `_remove_fixup`.
- The documentation of `remove` in include/RBTree/RBTree.hpp says it throws for an absent key; the code does not, and the model follows the code.
- The documentation of `add` in include/HashTable_OpenAd/HashTable_OpenAdressing.hpp:207-213 says it throws when the key exists or the table is full; the code returns `false` in both cases, and the model follows the code.
- The documentation of `remove` in include/HashTable_Chaining/HashTable_Chaining.hpp:187 says it throws only for an absent key; the code throws in every case. `Remove` follows the code and `RemoveFound` the documentation.

Exceptions become `Result` errors. Each class's `Valid()` states the invariant its methods keep.

## Model

| member | source | states |
|---|---|---|
| AVLNode.NewNode | include/AVLTree/AVLNode.hpp:35-40 | a new node is a leaf of height 1 holding exactly the one pair (k, v) |
| AVLNode.ElementsAreContent | include/AVLTree/AVLTree.hpp:478-485 | a pair is visited in order exactly when the tree maps its key to its value |
| AVLNode.OrderedIsAscending | include/AVLTree/AVLTreeIterator.hpp:134-145 | the in-order pairs of a search tree have strictly ascending keys |
| AVLNode.CountIsKeys | include/AVLTree/AVLTree.hpp:440-442 | the number of nodes equals the number of distinct keys |
| AVLSubtree.Recomputed | include/AVLTree/AVLTree.hpp:206-208 | the node keeps its pair and children; its height becomes one more than the higher child |
| AVLSubtree.Height | include/AVLTree/AVLTree.hpp:51-53 | `_height`: the stored height, and 0 for an absent child. On an AVL tree it is the real depth, as `AVLHeightsExact` states |
| AVLSubtree.Balance | include/AVLTree/AVLTree.hpp:61-63 | `_balance`: right height minus left height. On an AVL tree it lies in -1..1, as `AVLHeightsExact` states |
| AVLSubtree.AVLHeightsExact | include/AVLTree/AVLTree.hpp:51-63 | in an AVL tree every stored height is the real depth and every balance lies in -1..1 |
| AVLSubtree.NewNodeIsAVL | include/AVLTree/AVLTree.hpp:176-180 | a new leaf is an AVL search tree with a correct height |
| AVLSubtree.RotateLeft | include/AVLTree/AVLTree.hpp:139-147 | the right child becomes the root with the old root as its left child, the middle subtree moves across, heights are recomputed bottom-up, and the in-order pairs and map are unchanged |
| AVLSubtree.RotateRight | include/AVLTree/AVLTree.hpp:155-163 | the mirror of RotateLeft, with the same pairs and map |
| AVLSubtree.RotateLeftKeepsOrder | include/AVLTree/AVLTree.hpp:139-147 | a left rotation of a search tree is a search tree |
| AVLSubtree.RotateRightKeepsOrder | include/AVLTree/AVLTree.hpp:155-163 | a right rotation of a search tree is a search tree |
| AVLSubtree.RotateRightRebalances | include/AVLTree/AVLTree.hpp:155-163 | a single right rotation of a node two higher on the left (left child not right-heavy) gives an AVL tree of the stated height |
| AVLSubtree.RotateLeftRebalances | include/AVLTree/AVLTree.hpp:139-147 | the mirror case: an AVL tree of the stated height |
| AVLSubtree.LeftRightRebalances | include/AVLTree/AVLTree.hpp:219-222 | the double rotation of a node two higher on the left whose left child is right-heavy gives an AVL tree as high as the old left child |
| AVLSubtree.RightLeftRebalances | include/AVLTree/AVLTree.hpp:230-233 | the mirror double rotation gives an AVL tree as high as the old right child |
| AVLSubtree.FixupNode | include/AVLTree/AVLTree.hpp:206-237 | the fixup keeps pairs, keys, map and order; it rotates at most twice; it rotates exactly when the balance is outside -1..1 and the key is not the heavy child's key; it rotates twice exactly in the zig-zag cases |
| AVLSubtree.LeftHeavyInsertFixup | include/AVLTree/AVLTree.hpp:214-222 | on the left-heavy side the fixup keeps pairs and order; it rotates twice exactly when the key went right of the left child |
| AVLSubtree.RightHeavyInsertFixup | include/AVLTree/AVLTree.hpp:225-233 | on the right-heavy side the fixup keeps pairs and order; it rotates twice exactly when the key went left of the right child |
| AVLSubtree.InsertInto | include/AVLTree/AVLTree.hpp:175-194 | `_insert` as written: descend by key order, create a node of height 1 at the empty place, leave a present key alone, and apply `_fixup_node` on the way back, counting its rotations. What it returns is stated by `InsertIntoCorrect` |
| AVLSubtree.InsertIntoCorrect | include/AVLTree/AVLTree.hpp:175-194 | `_insert` returns an AVL search tree whose keys are the old ones plus k. A pair is added exactly when k was absent, and then the map gains k ↦ v. A present key leaves the tree unchanged with no rotations. The height grows by at most one |
| AVLSubtree.FixupDeletion | include/AVLTree/AVLTree.hpp:321-358 | the fixup keeps pairs and order; it rotates exactly when the balance leaves -1..1, at most twice, and twice exactly when the heavy child leans the other way |
| AVLSubtree.LeftHeavyFixup | include/AVLTree/AVLTree.hpp:331-341 | on the left-heavy side: one rotation when the left child is not right-heavy, otherwise two; pairs and order kept |
| AVLSubtree.RightHeavyFixup | include/AVLTree/AVLTree.hpp:344-354 | on the right-heavy side: one rotation when the right child is not left-heavy, otherwise two; pairs and order kept |
| AVLSubtree.FixupDeletionRebalances | include/AVLTree/AVLTree.hpp:321-358 | after a deletion below, the fixup yields an AVL tree at most one lower than the recomputed node |
| AVLSubtree.RemoveSuccessor | include/AVLTree/AVLTree.hpp:298-310 | the least pair of the subtree is taken out and returned; the rest is an ordered AVL tree, at most one lower, whose keys are all greater |
| AVLSubtree.RemoveFrom | include/AVLTree/AVLTree.hpp:251-289 | `_remove` as written: descend by key order; a node without a right child gives way to its left child, otherwise it takes its in-order successor's pair; `_fixup_deletion` runs on the way back and its rotations are counted. What it returns is stated by `RemoveFromCorrect` |
| AVLSubtree.RemoveFromCorrect | include/AVLTree/AVLTree.hpp:251-289 | `_remove` returns an AVL search tree without k whose map is the old map minus k. It removed something exactly when k was present; an absent key leaves the tree unchanged with no rotations. The height drops by at most one |
| AVLIterator.PendingSpine | include/AVLTree/AVLTreeIterator.hpp:43-48 | stacking a node's left spine puts that subtree's in-order pairs in front of the pairs still pending |
| AVLIterator.SubtreeAtFinds | include/AVLTree/AVLTree.hpp:368-378 | the search stops at a node exactly when the key is in the tree, and that node holds the key's value |
| AVLIterator.DescendTo | include/AVLTree/AVLTreeIterator.hpp:71-86 | the loop collects every node on the search path and stops at the node with the key, or at null |
| AVLIterator.AVLTreeIterator.PushLeft | include/AVLTree/AVLTreeIterator.hpp:43-48 | the left spine is pushed, and the pending pairs grow by the node's subtree in order |
| AVLIterator.AVLTreeIterator.PopOrEnd | include/AVLTree/AVLTreeIterator.hpp:138-143 | the top of the stack becomes current, or the iterator reaches the end; the remaining pairs are the stack's pending pairs |
| AVLIterator.AVLTreeIterator.FromRoot | include/AVLTree/AVLTreeIterator.hpp:56-63 | the iterator of a root yields all pairs of the tree in order |
| AVLIterator.AVLTreeIterator.AtNode | include/AVLTree/AVLTreeIterator.hpp:94-109 | the iterator for a node stacks its whole search path and starts at the node |
| AVLIterator.AVLTreeIterator.AtKey | include/AVLTree/AVLTreeIterator.hpp:71-86 | the `NodeNotFound` error (the `runtime_error`) exactly when the key is not on the search path; otherwise the iterator stands on the key's node with the whole search path stacked, and it yields `FoundRemaining(root, key)` |
| AVLIterator.AVLTreeIterator.Get | include/AVLTree/AVLTreeIterator.hpp:116-118 | `*it` is the first remaining pair |
| AVLIterator.AVLTreeIterator.AtEnd | include/AVLTree/AVLTreeIterator.hpp:164-166 | the iterator equals `end()` exactly when nothing remains |
| AVLIterator.AVLTreeIterator.Equals | include/AVLTree/AVLTreeIterator.hpp:164-176 | iterators equal to each other are both or neither at the end, and two ended iterators are equal. Nodes are compared by key, which names one node in a search tree (`EqualsSameRemaining`) |
| AVLIterator.EqualsSameRemaining | include/AVLTree/AVLTreeIterator.hpp:164-176 | two iterators standing in the in-order walk of one search tree are equal exactly when they produce the same pairs |
| AVLIterator.AVLTreeIterator.Next | include/AVLTree/AVLTreeIterator.hpp:134-145 | `++` drops exactly the first remaining pair |
| AVLIterator.ToSequence | include/AVLTree/AVLTree.hpp:561-572 | a walk from `begin()` to `end()` yields exactly the in-order pairs |
| AVLIterator.FoundFirst | include/AVLTree/AVLTree.hpp:580-587 | the iterator `find` returns starts at the pair of the found key |
| AVLIterator.FindRevisits | include/AVLTree/AVLTreeIterator.hpp:94-109 | with root 2 and right child 3, the iterator of `find(3)` yields 3, 3, 2, 3: the found node comes out again after its subtree, and so do its ancestors |
| AVLIterator.FirstIsLeast | include/AVLTree/AVLTreeIterator.hpp:56-63 | the first pair from the root is the one with the least key |
| AVLIterator.AtOrAboveAppend | include/AVLTree/AVLTreeIterator.hpp:134-145 | the pairs at or above a key in a concatenation are those of each part, in order |
| AVLIterator.AtOrAboveAll | include/AVLTree/AVLTreeIterator.hpp:134-145 | a sequence wholly below the key keeps nothing; one wholly at or above it keeps everything |
| AVLIterator.SubtreeAtOrAbove | include/AVLTree/AVLTreeIterator.hpp:134-145 | the same for the in-order pairs of a subtree, stated through its keys |
| AVLIterator.AtOrAboveNode | include/AVLTree/AVLTreeIterator.hpp:134-145 | the in-order pairs of a node at or above a key are its left subtree's, then its own when not below, then its right subtree's |
| AVLIterator.PendingConcat | include/AVLTree/AVLTreeIterator.hpp:134-145 | a stack made of two parts yields the upper part's pending pairs first, then the lower part's |
| AVLIterator.PendingBottom | include/AVLTree/AVLTreeIterator.hpp:134-145 | a node at the bottom of the stack yields its own pair and right subtree after everything above it |
| AVLIterator.PendingTurnLeft | include/AVLTree/AVLTreeIterator.hpp:94-109 | where the corrected search goes left, the node stays on the stack beneath the rest of the walk and the search goes on in the left subtree |
| AVLIterator.LeftTurnsWalk | include/AVLTree/AVLTreeIterator.hpp:94-109 | for a search tree holding the key, the node reached and a stack holding only the nodes where the search went left yield exactly the in-order pairs whose key is at or above it, each once |
| AVLIterator.LeftTurnsWalkLeft | include/AVLTree/AVLTreeIterator.hpp:94-109 | the step of that induction where the search goes left |
| AVLIterator.DescendLeft | include/AVLTree/AVLTreeIterator.hpp:71-86 | the corrected search loop: it stacks only the nodes where it goes left and stops at the node with the key, or at null |
| AVLIterator.FindVisitsOnce | include/AVLTree/AVLTreeIterator.hpp:71-86 | on the tree of `FindRevisits`, the corrected iterator of `find(3)` yields (3, 30) once and then ends |
| AVLIterator.AVLTreeIterator.AtNodeOnce | include/AVLTree/AVLTreeIterator.hpp:94-109 | the corrected iterator for a node: it starts at the node with that key, and its stack holds the left turns of the search; in a search tree it yields exactly the pairs at or above the key |
| AVLIterator.AVLTreeIterator.FindFrom | include/AVLTree/AVLTreeIterator.hpp:71-86 | the corrected `find`: the not-found error exactly when the key is absent, otherwise an iterator yielding exactly the pairs from the key on, in order |
| AVLTree.FindNode | include/AVLTree/AVLTree.hpp:368-378 | the loop stops at the node with the key exactly when the key is present, and that node's value is the key's value |
| AVLTree.Minimum | include/AVLTree/AVLTree.hpp:71-77 | the leftmost node holds the first in-order pair and has no left child |
| AVLTree.Maximum | include/AVLTree/AVLTree.hpp:85-91 | the rightmost node holds the last in-order pair and has no right child |
| AVLTree.InsertedCount | include/AVLTree/AVLTree.hpp:403-405 | inserting an absent key keeps the class invariant with the count one higher; a present key changes nothing |
| AVLTree.ErasedCount | include/AVLTree/AVLTree.hpp:412-414 | erasing a present key keeps the invariant with the count one lower; the map loses exactly k |
| AVLTree.AVLTree.constructor | include/AVLTree/AVLTree.hpp:387 | an empty tree with no pairs and no rotations |
| AVLTree.AVLTree.Insert | include/AVLTree/AVLTree.hpp:403-405 | the root becomes `_insert`'s result and the rotations are counted. An absent key maps to v and `size` grows by one; a present key leaves root, size and counter as they were |
| AVLTree.AVLTree.Erase | include/AVLTree/AVLTree.hpp:412-414 | the map loses k; `size` drops by one exactly when k was present; an absent key changes nothing |
| AVLTree.AVLTree.Clear | include/AVLTree/AVLTree.hpp:420-424 | the tree and `m_size` become empty and the rotation counter is kept |
| AVLTree.AVLTree.Empty | include/AVLTree/AVLTree.hpp:431-433 | true exactly when the map is empty |
| AVLTree.AVLTree.Size | include/AVLTree/AVLTree.hpp:440-442 | the number of stored keys |
| AVLTree.AVLTree.Rotations | include/AVLTree/AVLTree.hpp:449-451 | `rotations()`: the counter of rotations made so far. `Insert` and `Erase` state that each call raises it by exactly the rotations of `_insert` or `_remove` |
| AVLTree.AVLTree.Contains | include/AVLTree/AVLTree.hpp:468-470 | true exactly when k is stored |
| AVLTree.AVLTree.At | include/AVLTree/AVLTree.hpp:478-485 | the value of k, or `AVL_ValueNotFoundException` exactly when k is absent |
| AVLTree.AVLTree.Find | include/AVLTree/AVLTree.hpp:580-587 | for a present key, an iterator whose first pair is k's pair and whose remaining sequence is `FoundRemaining`, which revisits the search path as written; the not-found error otherwise |
| AVLTree.AVLTree.FindInOrder | include/AVLTree/AVLTree.hpp:580-587 | the corrected `find`: for a present key an iterator at k's pair that yields exactly the pairs with keys from k on, in order, each once; the not-found error exactly when k is absent |
| AVLTree.AVLTree.Begin | include/AVLTree/AVLTree.hpp:561-563 | an iterator over all pairs in order |
| AVLTree.AVLTree.End | include/AVLTree/AVLTree.hpp:570-572 | an iterator with nothing remaining |
| AVLExamples.ThreeAscending | include/AVLTree/AVLTree.hpp:175-237 | three ascending insertions give a balanced tree of height 2 after one rotation |
| AVLExamples.FourthAscending | include/AVLTree/AVLTree.hpp:175-237 | a fourth, larger key hangs right of the right child with no rotation |
| AVLExamples.FifthAscending | include/AVLTree/AVLTree.hpp:175-237 | a fifth, larger key triggers one left rotation of the right subtree |
| AVLExamples.SixthBetween | include/AVLTree/AVLTree.hpp:175-237 | a key between the root and its right child triggers the double rotation at the root (two rotations) |
| AVLExamples.SixInsertions | include/AVLTree/AVLTree.hpp:175-237 | 10, 20, 30, 40, 50, 25 give 30 at the root over 20 (10, 25) and 40 (-, 50), after four rotations |
| AVLExamples.BuildAscending | test/mainteste2.cpp:6-9 | a tree object after three ascending insertions holds three pairs, balanced |
| AVLExamples.RangeForExample | test/mainteste2.cpp:6-13 | the range-for over that tree yields (1,1), (2,2), (3,3) |
| LegacyAVL.AddTo | includes/AVLTree.h:108-123 | `_add` as written: a new node of height 0, a present key left alone, smaller keys to the left and the rest to the right, `_fixup_node` on the way back. What it returns is stated by `AddCorrect`, `AddPresentUnchanged` and `AddKeepsShape` |
| LegacyAVL.AddCorrect | includes/AVLTree.h:108-123 | `_add` keeps the search order; the keys gain k; an absent key gets v and a present key keeps its value |
| LegacyAVL.AddPresentUnchanged | includes/AVLTree.h:108-123 | adding a present key returns the tree unchanged, for every tree the class builds: its `Valid()` includes the shape (`Shaped`) that `AddKeepsShape` proves every `_add` keeps |
| LegacyAVL.AddKeepsShape | includes/AVLTree.h:108-156 | `_add` keeps the stored heights on the height equation (a childless node may keep 0) and every stored balance in -1..1; the height grows by at most one |
| LegacyAVL.AddedLeftShape | includes/AVLTree.h:132-156 | putting back a grown left child and fixing up the node keeps that shape |
| LegacyAVL.AddedRightShape | includes/AVLTree.h:132-156 | the mirror case for a grown right child |
| LegacyAVL.RecomputedSame | includes/AVLTree.h:132-156 | on a node with exact heights, recomputing the height changes nothing and the balance is in -1..1 |
| LegacyAVL.AscendingChain | includes/AVLTree.h:132-156 | three ascending keys make a chain with stored heights 2, 1, 0 and no rotation, whose real depths differ by two below the root |
| LegacyAVL.AddToExact | includes/AVLTree.h:108-123 | the corrected `_add`: the same descent and fixup with new nodes at height 1. What it returns is stated by `AddToExactIsInsert` and `AddToExactBalanced` |
| LegacyAVL.AddToExactIsInsert | includes/AVLTree.h:108-123 | `_add` with new nodes at height 1 builds the very tree that `_insert` of include/AVLTree/AVLTree.hpp builds |
| LegacyAVL.AddToExactBalanced | includes/AVLTree.h:108-123 | the corrected `_add` keeps an ordered AVL tree with exact heights whose keys gain k; the real depths of the root's two sides differ by at most one |
| LegacyAVL.AscendingBalanced | includes/AVLTree.h:108-156 | with the corrected `_add`, the three ascending keys of `AscendingChain` end balanced, the middle key at the root over two leaves, after one rotation |
| LegacyAVL.SubtreeAtOrdered | includes/AVLTree.h:247-256 | the subtree `_find` stops at is a search tree |
| LegacyAVL.FindStartsAtSubtreeMinimum | includes/AVLTree.h:453-455 | the iterator of `find` starts at the least key of the found subtree, which is the key itself exactly when it has no left child |
| LegacyAVL.LegacyAVLTree.constructor | includes/AVLTree.h:259 | an empty tree |
| LegacyAVL.LegacyAVLTree.Clear | includes/AVLTree.h:265-268 | the tree becomes empty |
| LegacyAVL.LegacyAVLTree.Add | includes/AVLTree.h:270-272 | the root becomes `_add`'s result; an absent key is added with v, a present one keeps its value |
| LegacyAVL.LegacyAVLTree.TreeHeight | includes/AVLTree.h:278-280 | the stored height of the root, 0 when empty |
| LegacyAVL.LegacyAVLTree.Contains | includes/AVLTree.h:286-288 | true exactly when k is stored |
| LegacyAVL.LegacyAVLTree.Begin | includes/AVLTree.h:434-436 | an iterator over all pairs, in ascending key order |
| LegacyAVL.LegacyAVLTree.End | includes/AVLTree.h:443-445 | an iterator at the end |
| LegacyAVL.LegacyAVLTree.Find | includes/AVLTree.h:453-455 | an iterator over the found node's subtree only, at the end exactly when k is absent |
| HashSupport.PrimeAtLeast | include/HashTable_Chaining/HashTable_Chaining.hpp:48-63 | above every number there is a prime, so the search of `get_next_prime` ends |
| HashSupport.NextPrime | include/HashTable_Chaining/HashTable_Chaining.hpp:48-63 | the result is prime and at least 3; it is the least prime at or above the request when the request is above 2, and 3 otherwise |
| HashSupport.NineteenIsPrime | include/HashTable_Chaining/HashTable_Chaining.hpp:102-108 | the default table request, 19, is already prime |
| ChainingBuckets.Position | include/HashTable_Chaining/HashTable_Chaining.hpp:278-287 | the scan's index is the first pair of the bucket with the key, or the bucket's length |
| ChainingBuckets.FindStored | include/HashTable_Chaining/HashTable_Chaining.hpp:296-305 | in a well-formed table the lookup of k gives v exactly when (k, v) is stored |
| ChainingBuckets.ClearedBuckets | include/HashTable_Chaining/HashTable_Chaining.hpp:132-137 | emptied buckets form a well-formed table in which every lookup misses |
| ChainingBuckets.RehashPlaced | include/HashTable_Chaining/HashTable_Chaining.hpp:83-94 | after rehashing, every pair sits in the bucket its hash selects |
| ChainingBuckets.RehashPairs | include/HashTable_Chaining/HashTable_Chaining.hpp:83-94 | rehashing keeps the multiset of pairs and their number |
| ChainingBuckets.RehashUnique | include/HashTable_Chaining/HashTable_Chaining.hpp:83-94 | rehashing pairs with distinct keys leaves distinct keys in every bucket |
| ChainingBuckets.RehashKeepsFind | include/HashTable_Chaining/HashTable_Chaining.hpp:83-94 | every lookup gives the same answer after a rehash |
| ChainingBuckets.AddedFind | include/HashTable_Chaining/HashTable_Chaining.hpp:172-184 | after appending (k, v), k maps to v and every other lookup is unchanged |
| ChainingBuckets.AddedPlaced | include/HashTable_Chaining/HashTable_Chaining.hpp:172-184 | the appended pair sits in its home bucket |
| ChainingBuckets.AddedPairs | include/HashTable_Chaining/HashTable_Chaining.hpp:172-184 | appending adds exactly (k, v) to the multiset of pairs |
| ChainingBuckets.RemovedFind | include/HashTable_Chaining/HashTable_Chaining.hpp:192-202 | after erasing k, k misses and every other lookup is unchanged |
| ChainingBuckets.RemovedPlaced | include/HashTable_Chaining/HashTable_Chaining.hpp:192-202 | erasing keeps every pair in its home bucket |
| ChainingBuckets.RemovedCount | include/HashTable_Chaining/HashTable_Chaining.hpp:192-202 | erasing a present key removes exactly one pair |
| HashChaining.Scan | include/HashTable_Chaining/HashTable_Chaining.hpp:278-287 | the loop over a bucket stops at the first pair with the key |
| HashChaining.PushBucket | include/HashTable_Chaining/HashTable_Chaining.hpp:86-89 | moving one old bucket's pairs, in order, into the new table extends the rehash by those pairs |
| HashChaining.Rebuild | include/HashTable_Chaining/HashTable_Chaining.hpp:83-94 | the new table is the old pairs, bucket by bucket in order, each appended to the bucket its hash selects |
| HashChaining.OneBucketPerPairExceeds | include/HashTable_Chaining/HashTable_Chaining.hpp:225-231 | for a load factor below 1 and at least one pair, a table with one bucket per pair is over that factor: the table `load_factor(lf)` rebuilds through `reserve(m_number_of_elements)` is left over its new factor |
| HashChaining.FullBucketsGrown | include/HashTable_Chaining/HashTable_Chaining.hpp:83-94 | with identity hashing, the pairs of keys 0, 1, 2 land in buckets 0, 1, 2 of a table of 6 |
| HashChaining.SubscriptAddedAsWritten | include/HashTable_Chaining/HashTable_Chaining.hpp:241-251 | what `operator[]` as written returns for an absent key: the back of the bucket whose index was computed before `add`. When `add` does not grow the table, this is the default value just added; `SubscriptReadsOtherKey` shows a grown table where it is another key's value |
| HashChaining.SubscriptReadsOtherKey | include/HashTable_Chaining/HashTable_Chaining.hpp:241-251 | with keys 0, 1, 2 in 3 buckets at load 1, `operator[](4)` as written returns the value of key 1 |
| HashChaining.HashTableChaining.constructor | include/HashTable_Chaining/HashTable_Chaining.hpp:102-108 | the table size is `get_next_prime` of the request (the least prime at or above it, or 3 for a request of at most 2); there are no pairs and the load factor is 0.75 |
| HashChaining.HashTableChaining.Size | include/HashTable_Chaining/HashTable_Chaining.hpp:115-117 | the number of stored pairs |
| HashChaining.HashTableChaining.Empty | include/HashTable_Chaining/HashTable_Chaining.hpp:124-126 | true exactly when no pair is stored |
| HashChaining.HashTableChaining.LoadFactor | include/HashTable_Chaining/HashTable_Chaining.hpp:144-146 | `load_factor()`: on a valid table the factor lies in (0, `max_load_factor()`] |
| HashChaining.HashTableChaining.MaxLoad | include/HashTable_Chaining/HashTable_Chaining.hpp:153-155 | `max_load_factor()`: 1. It is an acceptable factor, and no factor that `load_factor(lf)` accepts is larger |
| HashChaining.HashTableChaining.Rehash | include/HashTable_Chaining/HashTable_Chaining.hpp:83-94 | the table is rebuilt with the new size; the count, the load factor and every lookup are kept |
| HashChaining.HashTableChaining.Add | include/HashTable_Chaining/HashTable_Chaining.hpp:172-184 | the table first grows when over its load factor. A present key gives `AlreadyExists` and no other change. An absent key is appended to its bucket, and the count grows by one. Afterwards k maps to v and the other lookups are unchanged |
| HashChaining.HashTableChaining.Remove | include/HashTable_Chaining/HashTable_Chaining.hpp:192-202 | the error is returned in every case; a present key is erased and the count drops by one; afterwards k misses and the other lookups are unchanged |
| HashChaining.HashTableChaining.Erase | include/HashTable_Chaining/HashTable_Chaining.hpp:192-202 | the loop of `remove`: true exactly when k was stored; then its pair is erased and the count drops by one, otherwise nothing changes; afterwards k misses and the other lookups are unchanged |
| HashChaining.HashTableChaining.RemoveFound | include/HashTable_Chaining/HashTable_Chaining.hpp:187-202 | the corrected `remove`: success exactly when k was stored, after erasing its pair; `HTC_KeyNotFoundException` exactly when it was absent, with nothing changed |
| HashChaining.HashTableChaining.Reserve | include/HashTable_Chaining/HashTable_Chaining.hpp:212-216 | the table is rehashed to n buckets exactly when it is over its load factor; the lookups are kept |
| HashChaining.HashTableChaining.SetLoadFactor | include/HashTable_Chaining/HashTable_Chaining.hpp:225-231 | a factor outside (0, 1] is refused and changes nothing; otherwise it is set and the table is rebuilt with one bucket per pair when it is over the new factor |
| HashChaining.HashTableChaining.Clear | include/HashTable_Chaining/HashTable_Chaining.hpp:132-137 | every bucket is emptied, the number of buckets is kept, the count becomes 0 and every lookup misses |
| HashChaining.HashTableChaining.Contains | include/HashTable_Chaining/HashTable_Chaining.hpp:278-287 | true exactly when k is stored |
| HashChaining.HashTableChaining.At | include/HashTable_Chaining/HashTable_Chaining.hpp:296-305 | the value of k, or `HTC_KeyNotFoundException` exactly when k is absent |
| HashChaining.HashTableChaining.Subscript | include/HashTable_Chaining/HashTable_Chaining.hpp:241-251 | the corrected `operator[]`: a present key's value with no change; an absent key is added with the default value, and that value is returned |
| HashChaining.HashTableChaining.Begin | include/HashTable_Chaining/HashTable_Chaining.hpp:456-462 | an iterator over every stored pair, bucket by bucket |
| HashChaining.HashTableChaining.End | include/HashTable_Chaining/HashTable_Chaining.hpp:469-471 | an iterator with nothing remaining |
| HashChaining.ChainingIterator.constructor | include/HashTable_Chaining/HashTable_Chaining.hpp:374-381 | the iterator stands at the given bucket and list position |
| HashChaining.ChainingIterator.Get | include/HashTable_Chaining/HashTable_Chaining.hpp:388-390 | `*it` is the first remaining pair |
| HashChaining.ChainingIterator.Equals | include/HashTable_Chaining/HashTable_Chaining.hpp:436-448 | compared with `end()`, equality holds exactly when nothing remains |
| HashChaining.ChainingIterator.Next | include/HashTable_Chaining/HashTable_Chaining.hpp:406-416 | `++` drops exactly the first remaining pair and skips empty buckets |
| OpenSlots.EmptySlots | include/HashTable_OpenAd/HashTable_OpenAdressing.hpp:144-150 | a fresh table of n slots, all EMPTY; their value is the `filler` passed in, which stands for content the program leaves unset |
| OpenSlots.Hash2 | include/HashTable_OpenAd/HashTable_OpenAdressing.hpp:109-111 | the second hash is a step between 1 and n - 1 |
| OpenSlots.Probe | include/HashTable_OpenAd/HashTable_OpenAdressing.hpp:99-101 | every probe is a slot of the table |
| OpenSlots.ProbeDistinct | include/HashTable_OpenAd/HashTable_OpenAdressing.hpp:99-111 | for a prime size n, the first n probes of a key are pairwise distinct |
| OpenSlots.ProbeCovers | include/HashTable_OpenAd/HashTable_OpenAdressing.hpp:99-111 | for a prime size n, every slot is one of the first n probes |
| OpenSlots.SearchFrom | include/HashTable_OpenAd/HashTable_OpenAdressing.hpp:351-367 | a hit is an OCCUPIED slot with the key; a stop is at an EMPTY slot |
| OpenSlots.Search | include/HashTable_OpenAd/HashTable_OpenAdressing.hpp:351-367 | the look-up from probe 0. What a hit and a stop mean is the contract of `SearchFrom`; `FindableSearch` states when it hits exactly the stored keys |
| OpenSlots.MissAllAbsent | include/HashTable_OpenAd/HashTable_OpenAdressing.hpp:351-367 | a search that runs through all n probes means no slot is EMPTY and none holds the key |
| OpenSlots.AddProbeFrom | include/HashTable_OpenAd/HashTable_OpenAdressing.hpp:220-236 | the slot `add` writes is EMPTY or DELETED |
| OpenSlots.AddProbe | include/HashTable_OpenAd/HashTable_OpenAdressing.hpp:220-236 | the probe loop of `add` from probe 0: a slot it chooses is EMPTY or DELETED |
| OpenSlots.PresentIsHit | include/HashTable_OpenAd/HashTable_OpenAdressing.hpp:230-232 | when `add` meets the key it refuses, the search for that key hits |
| OpenSlots.FullAllOccupied | include/HashTable_OpenAd/HashTable_OpenAdressing.hpp:220-236 | `add` fails for lack of room only when every slot is OCCUPIED |
| OpenSlots.AddedFound | include/HashTable_OpenAd/HashTable_OpenAdressing.hpp:225-229 | after the write, the search for k hits the slot written |
| OpenSlots.WriteKeepsHit | include/HashTable_OpenAd/HashTable_OpenAdressing.hpp:225-229 | writing a slot the search of another key does not pass leaves that search unchanged |
| OpenSlots.DeleteKeepsOthers | include/HashTable_OpenAd/HashTable_OpenAdressing.hpp:245-261 | making k's slot DELETED leaves the search of every other key unchanged |
| OpenSlots.PairsBound | include/HashTable_OpenAd/HashTable_OpenAdressing.hpp:157-159 | there are at most as many pairs as slots, as many exactly when every slot is OCCUPIED |
| OpenSlots.NoPairs | include/HashTable_OpenAd/HashTable_OpenAdressing.hpp:166-168 | no pairs exactly when no slot is OCCUPIED |
| OpenSlots.LinearFrom | include/HashTable_OpenAd/HashTable_OpenAdressing.hpp:124-128 | the linear probe of `rehash` stops at a slot that is not OCCUPIED |
| OpenSlots.LinearFinds | include/HashTable_OpenAd/HashTable_OpenAdressing.hpp:124-128 | the linear probe finds a free slot whenever there is one |
| OpenSlots.LinearRehash | include/HashTable_OpenAd/HashTable_OpenAdressing.hpp:118-136 | the table the as-written `rehash(new_size)` builds has `new_size` slots. `LinearRehashKeeps` states that it keeps the pairs |
| OpenSlots.LinearRehashKeeps | include/HashTable_OpenAd/HashTable_OpenAdressing.hpp:118-136 | the rebuilt table holds the same multiset of pairs and no DELETED slot |
| OpenSlots.StoredKeysSlots | include/HashTable_OpenAd/HashTable_OpenAdressing.hpp:351-367 | a key is stored exactly when some OCCUPIED slot holds it |
| OpenSlots.FindableSearch | include/HashTable_OpenAd/HashTable_OpenAdressing.hpp:351-367 | in a table where every stored key is reachable by its own search (`Findable`), the search hits exactly when the key is stored |
| OpenSlots.SameKeys | include/HashTable_OpenAd/HashTable_OpenAdressing.hpp:118-136 | tables with the same multiset of pairs store the same keys |
| OpenSlots.AddedKey | include/HashTable_OpenAd/HashTable_OpenAdressing.hpp:220-236 | adding one pair adds its key to the stored keys |
| OpenSlots.RemovedKey | include/HashTable_OpenAd/HashTable_OpenAdressing.hpp:245-261 | removing the only pair with a key removes that key from the stored keys |
| OpenSlots.FreeProbeFrom | include/HashTable_OpenAd/HashTable_OpenAdressing.hpp:99-111 | the first slot of the double-hashing probe that is not OCCUPIED, if there is one among the first n probes |
| OpenSlots.FreeProbeReaches | include/HashTable_OpenAd/HashTable_OpenAdressing.hpp:99-111 | the free-slot probe succeeds whenever one of the probes still to come is not OCCUPIED |
| OpenSlots.FreeProbeFinds | include/HashTable_OpenAd/HashTable_OpenAdressing.hpp:99-111 | for a prime size, the probe finds a free slot whenever the table has one |
| OpenSlots.FreeProbeFound | include/HashTable_OpenAd/HashTable_OpenAdressing.hpp:351-367 | after writing a key at the free slot of its probe, the search for the key hits |
| OpenSlots.WriteKeepsFindable | include/HashTable_OpenAd/HashTable_OpenAdressing.hpp:225-229 | writing an entry into a free slot, where its own search then hits, keeps every stored key reachable |
| OpenSlots.WriteKeepsDistinct | include/HashTable_OpenAd/HashTable_OpenAdressing.hpp:225-229 | writing a key that is not stored keeps the stored keys distinct |
| OpenSlots.DeleteKeepsFindable | include/HashTable_OpenAd/HashTable_OpenAdressing.hpp:245-261 | marking an OCCUPIED slot DELETED keeps every other stored key reachable and the keys distinct; the key is no longer stored |
| OpenSlots.DeleteSound | include/HashTable_OpenAd/HashTable_OpenAdressing.hpp:245-261 | for a reachable table with distinct keys, deleting k's slot keeps both properties, and the stored keys lose exactly k |
| OpenSlots.ProbeRehash | include/HashTable_OpenAd/HashTable_OpenAdressing.hpp:118-136 | the corrected rebuild: each OCCUPIED entry, in slot order, goes to the first free slot of its double-hashing probe in the new table |
| OpenSlots.ProbeRehashStep | include/HashTable_OpenAd/HashTable_OpenAdressing.hpp:118-136 | the corrected rebuild of one more entry places it at its free probe slot, or skips it when it is not OCCUPIED |
| OpenSlots.ProbePlaceKeeps | include/HashTable_OpenAd/HashTable_OpenAdressing.hpp:118-136 | placing an entry at its free probe slot of a prime table with room adds exactly its pair, keeps every stored key reachable and keeps the keys distinct when the key is new |
| OpenSlots.LastNotStored | include/HashTable_OpenAd/HashTable_OpenAdressing.hpp:118-136 | with distinct keys, the key of the last entry is not among those already moved |
| OpenSlots.ProbeRehashKeeps | include/HashTable_OpenAd/HashTable_OpenAdressing.hpp:118-136 | for a prime size with room, the corrected rebuild keeps the multiset and number of pairs, leaves no DELETED slot, makes every stored key reachable by its search, and keeps distinct keys distinct |
| HashOpen.SearchLoop | include/HashTable_OpenAd/HashTable_OpenAdressing.hpp:351-367 | the do-while probe loop computes the search outcome |
| HashOpen.AddLoop | include/HashTable_OpenAd/HashTable_OpenAdressing.hpp:220-236 | the do-while loop of `add` computes where it writes, or that the key is present, or that the table is full |
| HashOpen.Relocate | include/HashTable_OpenAd/HashTable_OpenAdressing.hpp:118-136 | the loops of `rehash` move every OCCUPIED entry to the first free slot of its linear probe |
| HashOpen.LinearSlot | include/HashTable_OpenAd/HashTable_OpenAdressing.hpp:124-128 | the inner do-while reaches the free slot of the linear probe |
| HashOpen.Place | include/HashTable_OpenAd/HashTable_OpenAdressing.hpp:220-236 | the entry is written at the slot the probe chose, or the table is left unchanged |
| HashOpen.GrownTo | include/HashTable_OpenAd/HashTable_OpenAdressing.hpp:217-219 | the slots the as-written `add` probes: rebuilt by `rehash` to the given size when the table is over its load factor, and the old table otherwise |
| HashOpen.StaleSlot | include/HashTable_OpenAd/HashTable_OpenAdressing.hpp:300-316 | the slot a missed search stopped at lies in the table |
| HashOpen.ProbeRelocate | include/HashTable_OpenAd/HashTable_OpenAdressing.hpp:118-136 | the loops of the corrected rehash compute the double-hashing rebuild |
| HashOpen.FreeSlot | include/HashTable_OpenAd/HashTable_OpenAdressing.hpp:99-101 | the do-while over the double-hashing probe reaches its first free slot |
| HashOpen.ProbeRoomLeft | include/HashTable_OpenAd/HashTable_OpenAdressing.hpp:118-136 | while the corrected rebuild runs, the next OCCUPIED entry still has one of its probes free |
| HashOpen.PlaceNew | include/HashTable_OpenAd/HashTable_OpenAdressing.hpp:220-236 | the corrected `add` on a table: it writes only when the search misses and the probe finds a free slot, and the pair is then found; otherwise the key is present or the table is full. A reachable table with distinct keys stays so; the write happens exactly when k is not stored and there is room, and the stored keys gain k |
| HashOpen.Delete | include/HashTable_OpenAd/HashTable_OpenAdressing.hpp:245-261 | the search decides: on a hit that slot becomes DELETED and one pair leaves, on a miss nothing changes; other keys' searches are unchanged; a reachable table with distinct keys stays so and loses exactly k |
| HashOpen.HashTableOpen.constructor | include/HashTable_OpenAd/HashTable_OpenAdressing.hpp:144-150 | `get_next_prime` of the request slots (the least prime at or above it, or 3 for a request of at most 2), all EMPTY, with no pairs and load factor 0.75 |
| HashOpen.HashTableOpen.Size | include/HashTable_OpenAd/HashTable_OpenAdressing.hpp:157-159 | the number of OCCUPIED slots, at most the table size |
| HashOpen.HashTableOpen.Empty | include/HashTable_OpenAd/HashTable_OpenAdressing.hpp:166-168 | true exactly when no slot is OCCUPIED |
| HashOpen.HashTableOpen.LoadFactor | include/HashTable_OpenAd/HashTable_OpenAdressing.hpp:186-188 | `load_factor()`: on a valid table the factor lies in (0, `max_load_factor()`] |
| HashOpen.HashTableOpen.MaxLoad | include/HashTable_OpenAd/HashTable_OpenAdressing.hpp:195-197 | `max_load_factor()`: 1. It is an acceptable factor, and no factor that `load_factor(lf)` accepts is larger |
| HashOpen.HashTableOpen.Rehash | include/HashTable_OpenAd/HashTable_OpenAdressing.hpp:118-136 | linear-probe relocation into the new size, as written; the multiset of pairs is kept and no DELETED slot remains (a moved key may be missed by the later double-hashing search, `OpenExamples.RehashLosesKey`) |
| HashOpen.HashTableOpen.RehashByProbe | include/HashTable_OpenAd/HashTable_OpenAdressing.hpp:118-136 | the corrected `rehash`: the double-hashing rebuild into the new size keeps the count, the multiset of pairs and distinct keys, leaves no DELETED slot, and every stored key is found by its search |
| HashOpen.HashTableOpen.GrowByProbe | include/HashTable_OpenAd/HashTable_OpenAdressing.hpp:217-219 | the growth step of the corrected `add`: over the load factor the table is rebuilt by the corrected rehash to `get_next_prime` of twice its size; the pairs are kept and the table stays sound |
| HashOpen.HashTableOpen.Grow | include/HashTable_OpenAd/HashTable_OpenAdressing.hpp:217-219 | over the load factor, the table is rehashed by linear probing to `get_next_prime` of twice its size; otherwise it is left alone; the pairs are kept |
| HashOpen.HashTableOpen.Add | include/HashTable_OpenAd/HashTable_OpenAdressing.hpp:216-237 | the table grows first, then the probe decides. At an EMPTY or DELETED slot the entry is written, the count grows and the answer is true. For a present key, or a full table, the answer is false and nothing else changes |
| HashOpen.HashTableOpen.AddNew | include/HashTable_OpenAd/HashTable_OpenAdressing.hpp:216-237 | the corrected `add`: after the growth step it writes only when the search misses and there is a free slot. On a sound table (every stored key reachable, keys distinct) it succeeds exactly when k is not stored and there is room, the table stays sound, and the stored keys gain exactly k |
| HashOpen.HashTableOpen.Remove | include/HashTable_OpenAd/HashTable_OpenAdressing.hpp:245-261 | true exactly when the search hits; that slot becomes DELETED and the count drops by one; otherwise nothing changes; a sound table stays sound and its stored keys lose exactly k |
| HashOpen.HashTableOpen.Reserve | include/HashTable_OpenAd/HashTable_OpenAdressing.hpp:269-273 | over the load factor, the table is rehashed by linear probing to `get_next_prime(n)` slots (3 for n of at most 2); otherwise it is left alone; the pairs are kept |
| HashOpen.HashTableOpen.SetLoadFactor | include/HashTable_OpenAd/HashTable_OpenAdressing.hpp:284-290 | a factor outside (0, 1] is refused and changes nothing; otherwise it is set, and over it the table is rehashed to `get_next_prime` of the count (3 for a count of at most 2) |
| HashOpen.HashTableOpen.Clear | include/HashTable_OpenAd/HashTable_OpenAdressing.hpp:174-179 | every slot becomes EMPTY, keeping key and value, and the count becomes 0; the empty table is sound |
| HashOpen.HashTableOpen.Contains | include/HashTable_OpenAd/HashTable_OpenAdressing.hpp:351-367 | true exactly when the search hits; a full miss means the key is nowhere in the table; on a sound table, true exactly when k is stored |
| HashOpen.HashTableOpen.At | include/HashTable_OpenAd/HashTable_OpenAdressing.hpp:377-393 | the value at the slot the search hits, a stored pair, or `HTO_KeyNotFoundException`; on a sound table the error comes exactly when k is not stored |
| HashOpen.HashTableOpen.ConstAt | include/HashTable_OpenAd/HashTable_OpenAdressing.hpp:403-419 | the same, but it throws the chaining table's `HTC_KeyNotFoundException` as the source does |
| HashOpen.HashTableOpen.Subscript | include/HashTable_OpenAd/HashTable_OpenAdressing.hpp:300-317 | a hit returns its value unchanged; otherwise `add(k, Value())` runs and the value at the slot the search stopped at is returned |
| HashOpen.HashTableOpen.SubscriptAdded | include/HashTable_OpenAd/HashTable_OpenAdressing.hpp:300-317 | the corrected `operator[]`: a hit returns its value; otherwise the corrected `add(k, Value())` runs and the value returned is that of the slot the new search hits, which on a sound table is the default value; the table stays sound |
| HashOpen.HashTableOpen.Begin | include/HashTable_OpenAd/HashTable_OpenAdressing.hpp:542-548 | an iterator over every OCCUPIED slot's pair in slot order |
| HashOpen.HashTableOpen.End | include/HashTable_OpenAd/HashTable_OpenAdressing.hpp:555-557 | an iterator with nothing remaining |
| HashOpen.OpenIterator.constructor | include/HashTable_OpenAd/HashTable_OpenAdressing.hpp:462-466 | the iterator yields the pairs of the slots from the given index on |
| HashOpen.OpenIterator.Get | include/HashTable_OpenAd/HashTable_OpenAdressing.hpp:473-476 | `*it` is the first remaining pair |
| HashOpen.OpenIterator.Equals | include/HashTable_OpenAd/HashTable_OpenAdressing.hpp:522-534 | compared with `end()`, equality holds exactly when nothing remains |
| HashOpen.OpenIterator.Next | include/HashTable_OpenAd/HashTable_OpenAdressing.hpp:493-502 | `++` moves past the current slot to the next OCCUPIED one, dropping the first remaining pair |
| OpenExamples.SixteenthAddGrows | include/HashTable_OpenAd/HashTable_OpenAdressing.hpp:217-219 | a default table of 19 slots holding 15 pairs is over 0.75, so the next `add` grows it to 41 slots |
| OpenExamples.TombstoneDuplicate | include/HashTable_OpenAd/HashTable_OpenAdressing.hpp:220-236 | with a DELETED slot ahead of key 0's slot, `add(0, .)` writes there, and key 0 is then stored twice |
| OpenExamples.FullThreeRehashed | include/HashTable_OpenAd/HashTable_OpenAdressing.hpp:118-136 | keys 0, 7, 2 in 3 slots rehash into 7 slots, with 7 moved by linear probing |
| OpenExamples.RehashLosesKey | include/HashTable_OpenAd/HashTable_OpenAdressing.hpp:118-136 | after that rehash, key 7 is still stored, but the double-hashing search for it misses |
| OpenExamples.SubscriptReadsStale | include/HashTable_OpenAd/HashTable_OpenAdressing.hpp:300-317 | on 3 slots where slot 0 is DELETED and slot 1 is EMPTY but still holds the value 9 that `clear` left there, `operator[](0)` writes key 0 at slot 0 but returns that 9 |
| OpenExamples.UnsetProbes | include/HashTable_OpenAd/HashTable_OpenAdressing.hpp:216-261 | on a fresh table of 3 identity-hashed slots, `add(3, 7)` writes slot 0 and `remove(3)` marks it DELETED; a look-up of key 0 then stops at the never-written slot 1, and `add(0, ...)` takes slot 0 |
| OpenExamples.SubscriptReadsUnset | include/HashTable_OpenAd/HashTable_OpenAdressing.hpp:300-317 | after that history on the class, `operator[](0)` returns the content of the never-written slot 1, whatever it is, and not the added `Value()` |
| OpenExamples.TombstoneRefused | include/HashTable_OpenAd/HashTable_OpenAdressing.hpp:220-236 | with the corrected `add`, after 3 and 0 are stored and 3 removed, adding 0 again is refused |
| OpenExamples.ProbeRehashFindsKey | include/HashTable_OpenAd/HashTable_OpenAdressing.hpp:118-136 | after the corrected rehash of the same three keys into 7 slots, the search for 7 hits |
| OpenExamples.SubscriptReadsAdded | include/HashTable_OpenAd/HashTable_OpenAdressing.hpp:300-317 | with the corrected `operator[]`, the table of `SubscriptReadsStale` returns the default value 0 |
| RBNodes.ModernBit | include/RBTree/RBNode.hpp:14-15 | in include/RBTree, `true` is BLACK |
| RBNodes.LegacyBit | includes/RBTree.h:5-6 | in includes/RBTree.h, `true` is RED |
| RBNodes.EncodingsOpposite | include/RBTree/RBNode.hpp:14-15 | the two encodings are opposite and each tells the colours apart |
| RBNodes.NewNode | include/RBTree/RBNode.hpp:42-52 | the node holds the given key, value, links and colour |
| RBNodes.NewNodeDefaults | include/RBTree/RBNode.hpp:42-52 | by default a node is RED with both child links at index 0. Index 0 stands in for the `nullptr` default: the trees never use that default and always pass `_NIL`, which index 0 also names (include/RBTree/RBTree.hpp:374) |
| RBNodes.Sentinel | include/RBTree/RBTree.hpp:324-327 | the sentinel is BLACK with every link to itself |
| RBShape.RotLKeeps | include/RBTree/RBTree.hpp:115-135 | a left rotation keeps the in-order pairs, the keys and the node ids |
| RBShape.RotRKeeps | include/RBTree/RBTree.hpp:137-157 | a right rotation keeps the in-order pairs, the keys and the node ids |
| RBShape.RotationsInverse | include/RBTree/RBTree.hpp:115-157 | a right rotation undoes a left rotation |
| RBRotate.LeftRotate | include/RBTree/RBTree.hpp:115-135 | the arena's links now spell the left-rotated subtree in the same place, with the root updated; nothing is allocated and the sentinel is untouched |
| RBRotate.RightRotate | include/RBTree/RBTree.hpp:137-157 | the same for the right rotation |
| RBWalk.Search | include/RBTree/RBTree.hpp:101-111 | the walk stops at the node with the key, or at the sentinel exactly when the key is absent |
| RBWalk.Minimum | include/RBTree/RBTree.hpp:73-79 | the leftmost node of a subtree holds its first pair |
| RBWalk.Maximum | include/RBTree/RBTree.hpp:87-93 | the rightmost node of a subtree holds its last pair |
| RBWalk.Successor | include/RBTree/RBTreeIterator.hpp:60-75 | the next node in key order, or the sentinel exactly after the last pair |
| RBWalk.Predecessor | include/RBTree/RBTreeIterator.hpp:93-108 | the previous node in key order, or the sentinel exactly before the first pair |
| RBColors.InsRecolor | include/RBTree/RBTree.hpp:176-181 | recolouring parent, uncle and grandparent leaves only the grandparent possibly red under a red parent |
| RBColors.InsZigZagLeft | include/RBTree/RBTree.hpp:184-189 | rotating a right child of a left child at its parent keeps the fixup's invariant, one level lower |
| RBColors.InsZigZagRight | include/RBTree/RBTree.hpp:208-213 | the mirror case |
| RBColors.InsZigZigLeft | include/RBTree/RBTree.hpp:192-195 | recolouring and rotating the grandparent makes the subtree red-black at a black root |
| RBColors.InsZigZigRight | include/RBTree/RBTree.hpp:216-219 | the mirror case |
| RBColors.InsDone | include/RBTree/RBTree.hpp:225 | when the loop stops, the tree is balanced and has no red-red edge, after the root is painted black |
| RBColors.DelStart | includes/RBTree.h:169-185 | unlinking a black node leaves one missing black at its child, which is what `_remove_fixup` repairs; unlinking a red node leaves a red-black tree |
| RBColors.DelRedSiblingLeft | include/RBTree/RBTree.hpp:246-252 | the red-sibling case turns into one with a black sibling, one level deeper |
| RBColors.DelRedSiblingRight | include/RBTree/RBTree.hpp:280-286 | the mirror case |
| RBColors.DelPushUp | include/RBTree/RBTree.hpp:255-257 | painting the sibling red moves the missing black up to the parent |
| RBColors.DelNearRedLeft | include/RBTree/RBTree.hpp:260-266 | the near-nephew case turns into the far-nephew case |
| RBColors.DelNearRedRight | include/RBTree/RBTree.hpp:294-300 | the mirror case |
| RBColors.DelFarRedLeft | include/RBTree/RBTree.hpp:269-274 | the final recolour and rotation make the whole tree red-black |
| RBColors.DelFarRedRight | include/RBTree/RBTree.hpp:303-308 | the mirror case |
| RBColors.DelDone | include/RBTree/RBTree.hpp:314 | when the loop stops, painting x black leaves a red-black tree |
| RBInsert.Descend | include/RBTree/RBTree.hpp:357-372 | the walk meets the key exactly when keys are refused and it is present; otherwise it ends at the empty slot where the key belongs in order |
| RBInsert.Link | include/RBTree/RBTree.hpp:374-383 | a new red node is appended to the arena and linked into that slot |
| RBInsert.Recolor | include/RBTree/RBTree.hpp:176-181 | parent and uncle turn black and the grandparent red, z moves to the grandparent, and the pairs are kept |
| RBInsert.FixupCase1 | include/RBTree/RBTree.hpp:176-181 | the recolouring case keeps the loop invariant, two levels up |
| RBInsert.FixupCase2Left | include/RBTree/RBTree.hpp:184-189 | the zig-zag case becomes the zig-zig case under the same grandparent |
| RBInsert.FixupCase2Right | include/RBTree/RBTree.hpp:208-213 | the mirror case |
| RBInsert.FixupCase3Left | include/RBTree/RBTree.hpp:192-195 | the zig-zig case ends under a black parent |
| RBInsert.FixupCase3Right | include/RBTree/RBTree.hpp:216-219 | the mirror case |
| RBInsert.InsertFixup | include/RBTree/RBTree.hpp:167-226 | the loop ends with a red-black tree holding the same pairs and ids, after at most two rotations |
| RBInsert.Insert | include/RBTree/RBTree.hpp:357-388 | a refused key changes nothing. Otherwise one node is added, and its pair is inserted at its place in key order. The result is a red-black search tree, and at most two rotations are made |
| RBDelete.Victim | includes/RBTree.h:170 | the node spliced out is z exactly when z lacks a child; otherwise it is the leftmost node of z's right subtree |
| RBDelete.Unlink | includes/RBTree.h:171-178 | the victim's only child (or the sentinel, whose parent is set) takes its place |
| RBDelete.Splice | includes/RBTree.h:169-185 | the victim is unlinked, and its pair moves into z when they differ; z's pair is gone from the in-order sequence |
| RBDelete.DelCase1Left | include/RBTree/RBTree.hpp:246-252 | the red-sibling step keeps the removal invariant with a black sibling, one level deeper |
| RBDelete.DelCase1Right | include/RBTree/RBTree.hpp:280-286 | the mirror case |
| RBDelete.DelCase2 | include/RBTree/RBTree.hpp:255-257 | the sibling turns red and x moves up one level |
| RBDelete.DelCase3Left | include/RBTree/RBTree.hpp:260-266 | after the rotation at the sibling, its far child is red |
| RBDelete.DelCase3Right | include/RBTree/RBTree.hpp:294-300 | the mirror case |
| RBDelete.FarPaintLeft | include/RBTree/RBTree.hpp:269-271 | the paints of case 4 with x a left child: w takes the parent's colour, and the parent and w's right child turn black. The arena stays well formed over the repainted subtree, which holds the same pairs |
| RBDelete.DelCase4Left | include/RBTree/RBTree.hpp:269-274 | the final recolour and rotation end at the root with the same pairs |
| RBDelete.FarPaintRight | include/RBTree/RBTree.hpp:303-305 | the mirror case: w takes the parent's colour, and the parent and w's left child turn black |
| RBDelete.DelCase4Right | include/RBTree/RBTree.hpp:303-308 | the mirror case |
| RBDelete.DelStepLeft | include/RBTree/RBTree.hpp:241-275 | one round of the loop with x a left child keeps the removal invariant and the pairs and makes at most three rotations. Either x moves up a level, or it turns red, or, after a rotation, it is the root |
| RBDelete.DelStepRight | include/RBTree/RBTree.hpp:276-309 | the mirror round with x a right child, with the same guarantees |
| RBDelete.DeleteFixup | include/RBTree/RBTree.hpp:237-315 | the loop ends with a red-black tree holding the same pairs, after at most three rotations |
| RBDelete.Remove | include/RBTree/RBTree.hpp:397-413 | an absent key changes nothing. A present key loses exactly its pair from the in-order sequence. The result is a red-black search tree, and at most three rotations are made |
| RBIterator.First | include/RBTree/RBTreeIterator.hpp:40-44 | the start node is the first in key order, or the sentinel for an empty tree |
| RBIterator.Last | includes/RBTree.h:728-735 | the node with the last pair, or the sentinel for an empty tree |
| RBIterator.RBTreeIterator.Equals | include/RBTree/RBTreeIterator.hpp:127-139 | `==` compares the current nodes and `!=` negates it. `EqualsSamePosition` states that this is equality exactly at the same position |
| RBIterator.EqualsSamePosition | include/RBTree/RBTreeIterator.hpp:127-139 | two iterators over a tree are equal exactly when they stand at the same position |
| RBIterator.RBTreeIterator.constructor | include/RBTree/RBTreeIterator.hpp:40-44 | from the root, the iterator starts at the first pair; from the sentinel it is `end()` |
| RBIterator.RBTreeIterator.Copy | include/RBTree/RBTreeIterator.hpp:82-86 | the copy stands where the original does |
| RBIterator.RBTreeIterator.Get | include/RBTree/RBTreeIterator.hpp:51-53 | `*it` is the pair at the iterator's position |
| RBIterator.RBTreeIterator.Next | include/RBTree/RBTreeIterator.hpp:60-75 | `++` moves one position on, or reports `std::out_of_range` at `end()` |
| RBIterator.RBTreeIterator.Prev | include/RBTree/RBTreeIterator.hpp:93-108 | `--` moves one position back, to the sentinel from the first pair, or reports `std::out_of_range` at `end()` |
| RBIterator.RBTreeIterator.PostNext | include/RBTree/RBTreeIterator.hpp:82-86 | returns a copy at the old position, then moves one on |
| RBIterator.RBTreeIterator.PostPrev | include/RBTree/RBTreeIterator.hpp:115-119 | returns a copy at the old position, then moves one back |
| RBTree.RBTree.constructor | include/RBTree/RBTree.hpp:324-327 | only the sentinel, as the root; no pairs, nothing counted |
| RBTree.RBTree.Insert | include/RBTree/RBTree.hpp:357-388 | a present key gives `RB_AlreadyExistsException` and no change. Otherwise the pair is inserted at its place in key order, `m_size` grows by one and at most two rotations are counted |
| RBTree.RBTree.Remove | include/RBTree/RBTree.hpp:397-413 | an absent key changes nothing and throws nothing. A present key loses its pair, `m_size` drops by one and at most three rotations are counted |
| RBTree.RBTree.Search | include/RBTree/RBTree.hpp:423-430 | the stored value of the key, or `RB_ValueNotFoundException` exactly when the key is absent |
| RBTree.RBTree.Contains | include/RBTree/RBTree.hpp:438-440 | true exactly when the key is stored |
| RBTree.RBTree.Size | include/RBTree/RBTree.hpp:447-449 | the pairs in the tree plus those `clear` dropped |
| RBTree.RBTree.Rotations | include/RBTree/RBTree.hpp:465-467 | `rotations()`: the counter of rotations made so far. `Insert` states that an insertion raises it by at most two, and `Remove` that a removal raises it by at most three |
| RBTree.RBTree.Clear | include/RBTree/RBTree.hpp:344-347 | the tree becomes empty, while `m_size` and the rotation counter stay as they were |
| RBTree.RBTree.ClearAll | include/RBTree/RBTree.hpp:344-347 | the corrected `clear`: the tree becomes empty and `m_size` 0, so `size()` again counts the pairs in the tree; the rotation counter stays |
| RBTree.RBTree.Begin | include/RBTree/RBTree.hpp:478-480 | an iterator at the first pair |
| RBTree.RBTree.End | include/RBTree/RBTree.hpp:487-489 | the iterator on the sentinel |
| RBExamples.Traversal | include/RBTree/RBTree.hpp:478-489 | from `begin()` until `end()`, the pairs come out once each, in key order |
| RBExamples.LegacyTraversal | includes/RBTree.h:673-692 | the legacy range-for yields the values in key order |
| RBExamples.LegacyReverseTraversal | includes/RBTree.h:728-746 | from `rbegin()` to `rend()`, the values come out from the largest key down |
| RBExamples.ClearKeepsSize | include/RBTree/RBTree.hpp:344-347 | after two insertions and `clear`, `size()` still says 2; a repeated key is refused |
| RBExamples.ClearAllResetsSize | include/RBTree/RBTree.hpp:344-347 | with the corrected `clear`, the same two insertions give `size()` 2 before and 0 after |
| RBExamples.ReversePostIncrement | includes/RBTree.h:585-589 | with keys 1 and 2, the postfix `++` from `rbegin()` as written lands on the sentinel; as documented it lands on 1 |
| RBExamples.ReversePostDecrement | includes/RBTree.h:612-616 | with keys 1 and 2, the postfix `--` from `rbegin()` as written lands on 1; as documented it lands on the sentinel |
| LegacyRB.Iterator.constructor | includes/RBTree.h:385 | the iterator stands at the given node |
| LegacyRB.Iterator.Copy | includes/RBTree.h:415-419 | the copy stands where the original does |
| LegacyRB.Iterator.Get | includes/RBTree.h:500-502 | `*it` is the value of the pair at the iterator's position |
| LegacyRB.Iterator.Next | includes/RBTree.h:392-408 | `++` moves one position on, to the sentinel after the last pair |
| LegacyRB.Iterator.Prev | includes/RBTree.h:431-446 | `--` moves one position back, to the sentinel before the first pair |
| LegacyRB.Iterator.PostNext | includes/RBTree.h:415-419 | returns a copy at the old position, then moves one on |
| LegacyRB.Iterator.PostPrev | includes/RBTree.h:458-462 | returns a copy at the old position, then moves one back |
| LegacyRB.Iterator.Equals | includes/RBTree.h:473-488 | `==` compares the current nodes and `!=` negates it. `EqualsSamePosition` states that this is equality exactly at the same position |
| LegacyRB.EqualsSamePosition | includes/RBTree.h:473-488 | two iterators over a tree are equal exactly when they stand at the same position |
| LegacyRB.ReverseIterator.constructor | includes/RBTree.h:562 | the inherited constructor: the base iterator at the given node |
| LegacyRB.ReverseIterator.Get | includes/RBTree.h:500-502 | the value at the base iterator's position |
| LegacyRB.ReverseIterator.Next | includes/RBTree.h:572-575 | prefix `++` moves one position back in key order |
| LegacyRB.ReverseIterator.Prev | includes/RBTree.h:599-602 | prefix `--` moves one position on in key order |
| LegacyRB.ReverseIterator.PostNextAsWritten | includes/RBTree.h:585-589 | the postfix `++` as written: it returns the old position and moves forward in key order |
| LegacyRB.ReverseIterator.PostNext | includes/RBTree.h:585-589 | the postfix `++` as documented: it returns the old position and moves back in key order |
| LegacyRB.ReverseIterator.PostPrevAsWritten | includes/RBTree.h:612-616 | the postfix `--` as written: it returns the old position and moves back in key order |
| LegacyRB.ReverseIterator.PostPrev | includes/RBTree.h:612-616 | the postfix `--` as documented: it returns the old position and moves forward in key order |
| LegacyRB.LegacyRBTree.constructor | includes/RBTree.h:784-789 | only the sentinel, as the root |
| LegacyRB.LegacyRBTree.Add | includes/RBTree.h:808-810 | the pair is always inserted, at a place that keeps the keys in non-decreasing order, and the node count grows by one |
| LegacyRB.LegacyRBTree.Remove | includes/RBTree.h:819-821 | an absent key changes nothing; otherwise one pair with the key leaves the in-order sequence and the tree stays red-black |
| LegacyRB.LegacyRBTree.Subscript | includes/RBTree.h:362-366 | a stored value of the key, or `std::out_of_range` exactly when it is absent |
| LegacyRB.LegacyRBTree.Find | includes/RBTree.h:662-664 | an iterator at a node with the key, or `end()` exactly when it is absent |
| LegacyRB.LegacyRBTree.Begin | includes/RBTree.h:673-680 | an iterator at the first pair |
| LegacyRB.LegacyRBTree.End | includes/RBTree.h:690-692 | the iterator on the sentinel |
| LegacyRB.LegacyRBTree.RBegin | includes/RBTree.h:728-735 | a reverse iterator at the last pair, or at the sentinel for an empty tree |
| LegacyRB.LegacyRBTree.REnd | includes/RBTree.h:744-746 | a reverse iterator on the sentinel |

## Left out

- Comparison counters (`_n_comparisons`, `comparisons()`, `getComparisons()`): statistics with no effect on the contents. Rotation counters are modelled.
- `show`, `_bshow`, `operator<<` and every other printing function: output only.
- Timing, files and the driver layers (`Dictionary`, `Lexicon`, ICU collation, src/main.cpp): outside the containers. The collation is an abstract strict order, written `<` on `int`.
- The hash functions themselves (`std::hash`): each table gets an arbitrary `hash: int -> nat`.
- Memory: destructors, `_delete_subtree`, `_clearHelper`, `delete`/`new` and the vector reallocation in the hash tables. `clear` and `rehash` are modelled only by their effect on the contents.
- `size_t` wrap-around of counts: the element counts, sizes and indices are unbounded naturals. No count can come near 2^64 for a table that fits in memory.
- HashSupport.NextPrime: the trial-division bound `i <= sqrt(x)` of `get_next_prime` (include/HashTable_Chaining/HashTable_Chaining.hpp:54, include/HashTable_OpenAd/HashTable_OpenAdressing.hpp:81) is computed in `double`; the model writes it as `i * i <= x` on integers. The two agree whenever `x` is below 2^52, where `x` converts to `double` exactly and the correctly rounded square root cannot reach the next integer; every table size that fits in memory is far below that.
- OpenSlots.Probe: computes `(h + i * step) % n` on unbounded integers. The source's `hash_code` (include/HashTable_OpenAd/HashTable_OpenAdressing.hpp:99-101) adds and multiplies in `size_t`, which wraps modulo 2^64 when `std::hash` returns a large value, so from the first wrapped probe on its sequence differs from the model's. For such hashes `ProbeDistinct`, `ProbeCovers`, `MissAllAbsent` and `FullAllOccupied` do not describe the program.
- OpenSlots.LinearFrom: computes `(h + j) % n` on unbounded integers. The source's linear probe (line 125 of the same file) wraps `h + j` modulo 2^64 for a hash near 2^64, which can change the order of slots it tries.
- HashChaining.OneBucketPerPairExceeds: states only that a table rebuilt with one bucket per pair is still over any factor below 1. Whether `load_factor(lf)` rebuilds at all (only when the table is over the new factor, line 213) is stated by `HashChaining.HashTableChaining.SetLoadFactor`.
- Float load factors: written as exact ratios (0.75 as 3/4). The float comparison `count / size > lf` becomes `count * den > size * num`, which differs only by rounding.
- Writes through references: the `Value&` returned by `at`, `operator[]`, `search` and `*it` is modelled as the value read. The caller's later assignment through it is not modelled.
- `operator->` of all iterators: the same pair as `*`.
- The const overloads (`at() const`, the const `operator[]` of the chained table, `ConstIterator`, `cbegin`/`cend`): the same as the non-const versions. The one difference that matters, the exception thrown by the open table's const `at`, is modelled as `HashOpen.HashTableOpen.ConstAt`.
- `ConstReverseIterator`, `crbegin` and `crend` of includes/RBTree.h (lines 623-649 and 756-775): the class does not compile as written, because it calls members of a base it does not have.
- `rotations()` of the trees: a plain read of the counter field. How far it moves is stated per operation: the red-black `Insert` and `Remove` bound it (at most two and three rotations) while the AVL `Insert` and `Erase` add exactly the rotations their recursive fixups count, with no numeric bound stated on that number.
- Erasing during iteration in `remove` of the chained table: after `erase(it)` the loop goes on with an invalidated iterator, which is undefined behaviour. The model erases the first pair with the key and then returns the error, as the code does.
- The chained iterator's `++` past the last bucket: it reads `bucket[size]`, which is out of range. The model stops at the end instead.
- Legacy AVL `remove`, `_remove`, `_remove_sucessor` and `_fixup_deletion` (includes/AVLTree.h:165-223): both splices do unlink the node: `_remove` returns its left child (includes/AVLTree.h:172-174) and `_remove_sucessor` returns its right child (includes/AVLTree.h:195-197), which the caller stores in its place (includes/AVLTree.h:168, 170, 176, 191). But each first runs `delete node` (includes/AVLTree.h:173, 196), and `~Node` deletes `left` and `right` recursively (includes/AVLTree.h:41-44). So the child being returned is already freed, the parent is relinked to freed memory, and `_fixup_deletion` then reads it through `_height` (includes/AVLTree.h:178, 199). There is no defined behaviour to model. The legacy AVL iterator's `--` and the postfix operators are left out with them; `begin`, `end`, `find` and `++` are modelled through the shared iterator. The legacy `*` (includes/AVLTree.h:323-325) returns only the node's value, while the shared iterator's `Get` returns the whole pair, whose second half is that value.
- LegacyRB.Iterator.Next, LegacyRB.Iterator.Prev, LegacyRB.Iterator.PostNext, LegacyRB.Iterator.PostPrev, LegacyRB.ReverseIterator.Next, LegacyRB.ReverseIterator.Prev, LegacyRB.ReverseIterator.PostNext, LegacyRB.ReverseIterator.PostNextAsWritten, LegacyRB.ReverseIterator.PostPrev, LegacyRB.ReverseIterator.PostPrevAsWritten: not modelled at `end()` (`requires current != 0`). There the source reads the sentinel's parent link, which `_rb_delete` overwrites, so the result depends on the history of removals.
- RBTree.RBTree.Remove: the code calls `_remove(z)`, which does not exist. The model uses the `_rb_delete` splice of includes/RBTree.h and the `_remove_fixup` of include/RBTree/RBTree.hpp.
- AVLTree.AVLTree.Find: the revisiting order of the iterator it returns is stated through `FoundRemaining`, the in-order pairs still pending on the search path, rather than as a closed list.
- HashOpen.HashTableOpen.Reserve: requires that, when the table is over its load factor, `get_next_prime(n)` leaves room for every pair. The source has no such check. With 19 slots holding 15 pairs, `reserve(1)` calls `rehash(3)`, and the inner do-while of include/HashTable_OpenAd/HashTable_OpenAdressing.hpp:124-128 never ends once the 3 slots are full. A loop that does not terminate is not modelled.
- HashOpen.HashTableOpen.Subscript and OpenSlots.EmptySlots: the value of a slot no entry was ever written to is indeterminate in the program. `Entry()` sets only the state (include/HashTable_OpenAd/HashTable_OpenAdressing.hpp:56), and the table that counts words stores `size_t` values, which have no constructor; the vectors of the constructor (line 146) and of `rehash` (line 119) are made of such entries. Reading one is undefined behaviour. The model gives every such slot one arbitrary value per table, the constructor's `filler`, which nothing relates to `Value()`. So `Subscript` returns that value where the program reads an indeterminate one (`OpenExamples.SubscriptReadsUnset`).
- HashChaining.HashTableChaining.Reserve: requires `n > 0` when the table is over its load factor. `reserve(0)` would rehash into 0 buckets, and the `% new_size` of include/HashTable_Chaining/HashTable_Chaining.hpp:87 then divides by zero, which is undefined behaviour.
- Iterators as snapshots: the iterators hold the contents they walk by value (`ChainingIterator.buckets`, `OpenIterator.slots`, the node arena of the red-black iterators, the datatype stack of the AVL iterator). An iterator of the source points into the live container, so a change made to the container while it is being walked is not seen by the model's iterator. Iterator invalidation is not modelled.
- The postfix `operator++(int)` of both hash-table iterators (include/HashTable_Chaining/HashTable_Chaining.hpp:424-428 and include/HashTable_OpenAd/HashTable_OpenAdressing.hpp:510-514) returns a reference to a local copy, which dangles once it returns. It is not modelled; the prefix `++` is.
- LegacyRB.LegacyRBTree.Add: its contract gives the new pair's place in the in-order sequence through a ghost index `at`, with the keys in non-decreasing order. It does not state that `_rb_insert` puts a key equal to stored ones after all of them (it goes right on equal keys).
- LegacyRB.LegacyRBTree.Remove: the ghost index `at` names which pair with the key leaves. The contract does not state which of several equal keys `_remove` reaches first.

## Findings

| source | as written | input that shows it | evidently intended | confidence | as-written member | corrected member |
|---|---|---|---|---|---|---|
| include/AVLTree/AVLTreeIterator.hpp:94-109 | `find` (include/AVLTree/AVLTree.hpp:586) builds its iterator with the node constructor, whose loop is that of the key constructor at include/AVLTree/AVLTreeIterator.hpp:71-86; it pushes every node of the search path, the found node included, onto the stack and then starts at that node, so the found node and every ancestor it lies left or right of come out again | root 2 with right child 3: the iterator of `find(3)` yields 3, 3, 2, 3 | an iterator that yields the pairs from the found key on, in order, each once | not executed | AVLIterator.FindRevisits | AVLTree.AVLTree.FindInOrder |
| includes/AVLTree.h:108-123 | a new node is created with height 0, the value `_height` gives an absent child, so a leaf looks like no subtree to `_balance` | keys 1, 2, 3 added in that order: a chain with stored heights 2, 1, 0 and no rotation, whose real depths below the root differ by two | a new node at height 1, as in include/AVLTree/AVLNode.hpp, which keeps the tree balanced | not executed | LegacyAVL.AscendingChain | LegacyAVL.AddToExactBalanced |
| include/RBTree/RBTree.hpp:344-347 | `clear()` resets the root to the sentinel but leaves `m_size` as it was | insert 1 and 2, then `clear()`: `size()` still returns 2 | `m_size` reset to 0 with the tree | not executed | RBExamples.ClearKeepsSize | RBTree.RBTree.ClearAll |
| include/HashTable_Chaining/HashTable_Chaining.hpp:192-202 | `remove` throws `HTC_KeyNotFoundException` after its loop in every case, also when it has just erased the pair | any stored key k: `remove(k)` erases the pair and then throws | throw only when the key is absent, as the comment at line 187 says | not executed | HashChaining.HashTableChaining.Remove | HashChaining.HashTableChaining.RemoveFound |
| include/HashTable_OpenAd/HashTable_OpenAdressing.hpp:118-136 | `rehash` places each entry at the first free slot of the linear probe `(h + j) % size`, while every later search follows the double-hashing probe | keys 0, 7, 2 in 3 identity-hashed slots, rehashed into 7 slots: 7 lands in slot 1 by linear probing, but the double-hashing search for 7 probes slots 0 and 2 and stops at the EMPTY slot 4 | placement by the same double-hashing probe the searches use, so every key stays reachable | not executed | OpenExamples.RehashLosesKey | HashOpen.HashTableOpen.RehashByProbe |
| include/HashTable_OpenAd/HashTable_OpenAdressing.hpp:300-317 | for a missed key, `operator[]` calls `add` and then returns the value of the slot where its own search stopped, which need not be the slot `add` wrote | 3 identity-hashed slots: add 3, then 0 with value 9 (it probes on to slot 1), `clear()`, add 3 and remove it. Slot 0 is now DELETED and slot 1 EMPTY with the old 9. `operator[](0)`'s search stops at slot 1, `add` writes key 0 into slot 0, and 9 is returned | return the value just added, the default value | not executed | OpenExamples.SubscriptReadsStale | HashOpen.HashTableOpen.SubscriptAdded |
| include/HashTable_OpenAd/HashTable_OpenAdressing.hpp:220-236 | `add` writes into the first EMPTY or DELETED slot of the probe, without first checking that the key is not stored further along the probe | 3 identity-hashed slots: add 3 and 0 (0 probes on to slot 1), remove 3, so slot 0 is DELETED. `add(0, 8)` writes into slot 0 and returns true, and key 0 is then stored twice | refuse a key that is already stored, as the search would find it | not executed | OpenExamples.TombstoneDuplicate | HashOpen.HashTableOpen.AddNew |
| include/HashTable_Chaining/HashTable_Chaining.hpp:241-251 | `operator[]` for an absent key computes the bucket index, calls `add`, and returns the back of the bucket at that old index, although `add` may have grown and rebuilt the table first | keys 0, 1, 2 in 3 buckets (load 1 > 0.75) with identity hashing: `operator[](4)` grows the table to 6 buckets, and the back of bucket 4 % 3 = 1 is the pair of key 1, value 8 | return the value of the pair just added, the default value | not executed | HashChaining.SubscriptReadsOtherKey | HashChaining.HashTableChaining.Subscript |
| includes/RBTree.h:585-589 | the postfix `++` of `ReverseIterator` copies itself and then calls `--(*this)`, the reverse iterator's own `--`, which is the base `++`: it moves forward in key order | keys 1 and 2: from `rbegin()` (on 2), `it++` lands on the sentinel instead of on 1 | the base post-decrement, as its documentation says: one step back in key order | not executed | RBExamples.ReversePostIncrement | LegacyRB.ReverseIterator.PostNext |
| includes/RBTree.h:612-616 | the postfix `--` calls `++(*this)`, the reverse iterator's own `++`, which is the base `--`: it moves back in key order | keys 1 and 2: from `rbegin()` (on 2), `it--` lands on 1 instead of on the sentinel | the base post-increment, as its documentation says: one step on in key order | not executed | RBExamples.ReversePostDecrement | LegacyRB.ReverseIterator.PostPrev |
