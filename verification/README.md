# Radix tree and block pool, verified in Dafny

A model of the two data structures of this collection whose correctness is not obvious from
their code, with proofs.

**The radix tree** (`RadixTree`, `RadixTreeNode`, `RadixTreeIterator`) is a map from strings to
values, kept as a linked, compressed trie. Nodes have a label, an absolute depth, a parent link
and a child map keyed by label; an entry is an explicit leaf with the empty label. What is
proved, for all keys and all runs of `insert`, `operator[]`, `erase` and `clear`:

- the tree is a finite map: every update and every query agrees with it (`RadixTree.dfy`);
- `prefix_match`, `greedy_match`, `longest_match`, `find` and iteration return exactly the entries
  a direct definition over the map asks for, in key order, also when a search ends inside an edge;
- the structure is a function of the map: two runs that end with the same map end with the same
  tree (no root counting as a root without children), node by node and field by field up to the
  identities of the nodes, and trees with different maps differ;
- over a whole run the last operation that names a key decides what is stored for it;
- erasing a freshly inserted key restores that structure, and it restores every node and field
  exactly when the tree had a root before; otherwise the root that `insert` made stays;
- inserting, overwriting or erasing a key does not move or change the leaf of any other key, so
  iterators to other entries stay valid;
- which internal nodes exist is dictated by the key set (the root, one per key, one per point
  where two keys part), hence at most 3n nodes for n keys, a bound that is attained for every n;
- the nodes form a tree at all times, `erase` frees exactly the nodes that leave it, and over the
  whole life of a tree every node ever constructed for it is freed, once, and children before
  their parents; assertions in the steps of `erase` and in the destructor say that a node is alive
  when its fields are accessed;
- the assertions of the program and the preconditions of `substr` and of indexing hold, with one
  exception: `begin()` on a tree from which everything has been erased meets a root without
  children and fails its assertion. `RadixRuns.EmptiedTree` is such a run, and
  `RadixTree.BeginAsserts` and, for the updates made since construction, `RadixRuns.FreshRun` say
  exactly when the assertion holds.

**The pool and its stack** (`MemoryPool`, `StackAlloc`): bump allocation out of a chain of blocks,
with a free list threaded through the returned slots, and a linked stack whose nodes live in those
slots. What is proved, for all sizes the static assertion allows and all runs in which only live
slots are returned: live, free and untouched slots partition the blocks; no live slot is handed
out again or disturbed; slots handed out so far equal the peak number of live objects, so the
number of blocks is that peak over the slots per block, rounded up; the destructor releases each
block once; the stack refines a sequence over every run of `push`, `pop` and `clear` although
freed nodes are overwritten with links, every pop returns what the push it is balanced with put
there, every element is destroyed once, and the blocks are what the greatest depth of the run
needs, rounded up. One property fails: slots are not aligned in general, because the header of a
block is not padded. `Layout.SlotsAligned` says exactly when they are, and `MisalignedSlot` is a
case where they are not.

## How the files fit together

| file | content |
|---|---|
| `Sequences.dfy`, `Strings.dfy` | options, lists without repetitions, `substr`, the string order, iteration over a map |
| `RadixGraph.dfy` | the pointer structure as a value, its shape invariant, and the lemma that a descent misses nothing |
| `RadixEdits.dfy` | six pointer edits in three inverse pairs |
| `RadixSearch.dfy` | where a search stops and what that says about the stored keys; order of walks |
| `RadixUpdates.dfy` | append, prepend and erase as sequences of edits |
| `RadixCanon.dfy` | the tree as a function of the stored map; node counts |
| `RadixTreeNode.dfy`, `RadixTreeIterator.dfy`, `RadixTree.dfy` | the classes, with the fields of the program |
| `RadixRuns.dfy` | whole runs of the tree |
| `PoolLayout.dfy`, `MemoryPool.dfy`, `StackAlloc.dfy` | block layout, the pool, the stack |
| `StackRuns.dfy` | whole runs of the stack |

The classes have the fields of the program and update them in place. A method proves that the
heap afterwards holds a given structure (`Mirrored`); what that structure means is proved about
the structure as a value. `append`, `prepend` and `erase` are cut into several methods, and groups
of statements that occur more than once are methods of the node class. The string a node stands
for is not a field of the program: it lives in the ghost structure only.

An iterator is a pointer to a leaf, and queries return the pointer; the class
`RadixTreeIterator` is there for `operator++`. The vector that the matches fill is a result.
Deleting a node ends its life: a ghost field of the node says so, the pair it owned is gone, and
nothing is known about its other fields from then on. The destructor returns the list of freed
nodes; the tree collects it in a ghost field, which never repeats a node and never holds one in
use. Every constructor enters its node in an `Arena`, a ghost object that belongs to the tree. Characters
are compared by `<` on `char`; the proofs use only that this is a total order.

Pool memory maps addresses to cells, and a cell holds an object, a link or nothing, as the union
does. The address `operator new` returns is an argument, which must not overlap the blocks
obtained so far. Reading an object where a link was written, or a header after its block was
released, is not possible in the model.

`dafny verify dfyconfig.toml` checks the project.

## Model

| member | source | states |
|---|---|---|
| Strings.Substr | 实现Radix Tree/radix_tree.hpp:16-18 | the result is a prefix of the rest of the key from `begin` (which must not lie past the end), as long as asked for or as long as there is |
| Strings.Lcp | 实现Radix Tree/radix_tree.hpp:347-350 | the longest common prefix: equal up to it, and either string ends there or they differ |
| Strings.AscendingUnique | 实现Radix Tree/radix_tree.hpp:220-222 | an ascending list of keys is determined by its set of keys |
| Strings.LessTransitive | 实现Radix Tree/radix_tree_node.hpp:28 | the order of the child maps is transitive |
| Strings.LessTotal | 实现Radix Tree/radix_tree_node.hpp:28 | the order of the child maps is total |
| Strings.First | 实现Radix Tree/radix_tree.hpp:172 | `begin()` of a non-empty child map is its least label |
| Strings.InOrder | 实现Radix Tree/radix_tree.hpp:220-222 | a loop over a child map visits every label, once, in ascending order |
| Strings.Next | 实现Radix Tree/radix_tree_iterator.hpp:55-57 | `++it` after `find` goes to the next greater label, or to `end()` when there is none |
| RadixGraph.Up | 实现Radix Tree/radix_tree.hpp:302-332 | an inserted node hangs below its parent under its own label; depth and label spell its path; ranks grow downwards |
| RadixGraph.Down | 实现Radix Tree/radix_tree.hpp:313-333 | an entry of a child map is a child with that label, a leaf exactly when the label is empty, and its path is the parent's path plus the label |
| RadixGraph.OneHolder | 实现Radix Tree/radix_tree.hpp:361-366 | no node is shared: it is an entry of one child map, once |
| RadixGraph.SameChild | 实现Radix Tree/radix_tree.hpp:462-471 | two internal children of one node never start with the same character |
| RadixGraph.Step | 实现Radix Tree/radix_tree.hpp:447-475 | whatever lies below an internal node lies below one of its children, so the descent cannot miss it |
| RadixGraph.Unique | 实现Radix Tree/radix_tree.hpp:447-475 | path and leaf flag identify a node |
| RadixGraph.Funnel | 实现Radix Tree/radix_tree.hpp:462-470 | everything that starts like the label of a node lies below that node |
| RadixGraph.LeafOf | 实现Radix Tree/radix_tree.hpp:305-315 | every stored key has a leaf with its entry, under the empty label of an internal node whose path is the key |
| RadixGraph.HasLeaf | 实现Radix Tree/radix_tree.hpp:165-173 | below every compact node there is a leaf, so a descent along any labels ends at an entry |
| RadixEdits.AddLeafLinked | 实现Radix Tree/radix_tree.hpp:305-315 | hanging a leaf below an internal node without one keeps the structure well linked |
| RadixEdits.AddLeafMeans | 实现Radix Tree/radix_tree.hpp:305-315 | it adds exactly the binding of the parent's path |
| RadixEdits.AddInnerLinked | 实现Radix Tree/radix_tree.hpp:319-325 | hanging an internal node under a label whose first character no sibling has keeps the structure well linked |
| RadixEdits.SplitLinked | 实现Radix Tree/radix_tree.hpp:354-366 | splitting an edge keeps labels, depths, parent links and child maps consistent |
| RadixEdits.SplitSnug | 实现Radix Tree/radix_tree.hpp:354-366 | only the new node in the middle of the edge is not compact |
| RadixEdits.DropLeafLinked | 实现Radix Tree/radix_tree.hpp:245-248 | removing a leaf keeps the structure well linked |
| RadixEdits.DropLeafMeans | 实现Radix Tree/radix_tree.hpp:245-248 | it removes exactly the binding of that leaf |
| RadixEdits.DropInnerLinked | 实现Radix Tree/radix_tree.hpp:258-261 | removing a childless internal node keeps the structure well linked |
| RadixEdits.MergeLinked | 实现Radix Tree/radix_tree.hpp:280-289 | merging a node with its only, internal child keeps labels, depths, parent links and child maps consistent |
| RadixEdits.MergeSnug | 实现Radix Tree/radix_tree.hpp:280-289 | afterwards the merged node no longer counts as loose, and every other node is as compact as before |
| RadixEdits.SameLeavesMean | 实现Radix Tree/radix_tree.hpp:354-366 | edits of internal nodes leave every binding alone |
| RadixEdits.DropLeafUndoes | 实现Radix Tree/radix_tree.hpp:245-248 | dropping a leaf undoes hanging it |
| RadixEdits.DropInnerUndoes | 实现Radix Tree/radix_tree.hpp:258-261 | dropping an internal node undoes hanging it |
| RadixEdits.MergeUndoesSplit | 实现Radix Tree/radix_tree.hpp:280-289 | the merge of erase undoes the split of prepend exactly |
| RadixSearch.NothingBeyond | 实现Radix Tree/radix_tree.hpp:454-474 | below a full stop nothing agrees with the key any further |
| RadixSearch.StopUnique | 实现Radix Tree/radix_tree.hpp:447-475 | a search for a key can stop at one node only, so the stop conditions determine what find_node returns |
| RadixSearch.StopCases | 实现Radix Tree/radix_tree.hpp:416-428 | the comparison in insert tells a full stop from one inside an edge |
| RadixSearch.StopDecides | 实现Radix Tree/radix_tree.hpp:439-443 | the stop is a leaf exactly when the key is stored, and it carries the key's entry |
| RadixSearch.PrefixesAbove | 实现Radix Tree/radix_tree.hpp:126-132 | stored prefixes of the key end at or above a full stop, strictly above a stop inside an edge |
| RadixSearch.PrefixesAboveParent | 实现Radix Tree/radix_tree.hpp:136-143 | climbing to the parent loses no stored prefix |
| RadixSearch.LongestStart | 实现Radix Tree/radix_tree.hpp:129-132 | the upward walk starts at a node that no stored prefix of the key is longer than |
| RadixSearch.LongestStep | 实现Radix Tree/radix_tree.hpp:136-143 | one round of the walk finds the longest stored prefix, or moves on without losing it, or shows there is none |
| RadixSearch.PrefixCut | 实现Radix Tree/radix_tree.hpp:103-110 | the comparison of substrings in prefix_match decides whether the key is a prefix of the node's path, also in the middle of an edge |
| RadixSearch.ExtensionsBelow | 实现Radix Tree/radix_tree.hpp:103-113 | the stored extensions of the key are exactly the leaves below the stop, or there are none |
| RadixSearch.PrefixKeys | 实现Radix Tree/radix_tree.hpp:101-113 | what prefix_match lists are exactly the stored keys with the given prefix |
| RadixSearch.AgreementBelow | 实现Radix Tree/radix_tree.hpp:203-208 | below the stop all keys agree with the key equally long, all others for strictly less |
| RadixSearch.GreedyKeys | 实现Radix Tree/radix_tree.hpp:203-208 | what greedy_match lists are exactly the stored keys with the longest agreement |
| RadixSearch.SiblingsOrdered | 实现Radix Tree/radix_tree.hpp:220-222 | keys below an earlier label come before keys below a later one |
| RadixSearch.BelowChildren | 实现Radix Tree/radix_tree.hpp:220-222 | the leaves below an internal node are those below its children |
| RadixSearch.LeastBelow | 实现Radix Tree/radix_tree.hpp:166-173 | descending along first labels reaches the least key |
| RadixSearch.AfterParent | 实现Radix Tree/radix_tree_iterator.hpp:59-60 | what comes after a node's parent comes after the node |
| RadixSearch.AfterSiblings | 实现Radix Tree/radix_tree_iterator.hpp:55-62 | what comes after a node is below its later siblings or after its parent, and nothing else |
| RadixSearch.Successor | 实现Radix Tree/radix_tree_iterator.hpp:61-62 | the first leaf below the next sibling is the successor |
| RadixSearch.LastSibling | 实现Radix Tree/radix_tree_iterator.hpp:59-60 | after a last sibling the search for the successor continues at the parent |
| RadixSearch.BeforeNext | 实现Radix Tree/radix_tree_iterator.hpp:97-102 | advancing splits the leaves into those already visited and those still to come, with none lost or repeated |
| RadixSearch.ListUnique | 实现Radix Tree/radix_tree.hpp:212-223 | a list of leaves in key order is determined by the set of its leaves |
| RadixSearch.ListMore | 实现Radix Tree/radix_tree.hpp:220-222 | appending the list of the next child keeps the list in key order and complete |
| RadixUpdates.AppendedOk | 实现Radix Tree/radix_tree.hpp:296-337 | append yields a well-formed tree with exactly the new binding added, also below a node that was just split off |
| RadixUpdates.SplitOk | 实现Radix Tree/radix_tree.hpp:354-366 | splitting the edge in which the search stopped keeps the bindings and everything of the shape but one node's compactness |
| RadixUpdates.SplitStops | 实现Radix Tree/radix_tree.hpp:368-399 | after the split the search for the key stops at the new node, so prepend ends like append |
| RadixUpdates.EdgeShare | 实现Radix Tree/radix_tree.hpp:344-352 | the shared part of the label is non-empty (the assertion) and shorter than the label |
| RadixUpdates.AppendedFully | 实现Radix Tree/radix_tree.hpp:296-337 | append: shape, bindings, entry of the new leaf, exactly the new nodes added, and undone by erase |
| RadixUpdates.PrependedFully | 实现Radix Tree/radix_tree.hpp:340-401 | prepend: shape, bindings, entry of the new leaf, exactly the new nodes added, and undone by erase |
| RadixUpdates.EraseUndoesAppend | 实现Radix Tree/radix_tree.hpp:231-337 | erase of the leaf append has made gives back the same structure |
| RadixUpdates.EraseUndoesPrepend | 实现Radix Tree/radix_tree.hpp:231-401 | erase of the leaf prepend has made gives back the same structure, through the merge |
| RadixUpdates.MergedOk | 实现Radix Tree/radix_tree.hpp:266-290 | the last part of erase restores compactness, whether it merges or not |
| RadixUpdates.PrunedOk | 实现Radix Tree/radix_tree.hpp:258-290 | so does erase from the point where the parent has at most one child left, including the removal of an emptied parent |
| RadixUpdates.ErasedOk | 实现Radix Tree/radix_tree.hpp:231-293 | erase yields a well-formed tree with exactly that binding removed, in every case |
| RadixUpdates.ErasedKeeps | 实现Radix Tree/radix_tree.hpp:231-293 | erase leaves the leaf of every other key alone, field by field, and makes no new leaf |
| RadixUpdates.AssignedOk | 实现Radix Tree/radix_tree.hpp:191-191 | overwriting the value of an entry changes that binding only |
| RadixCanon.NodeAtSpot | 实现Radix Tree/radix_tree.hpp:252-290 | every internal node is the root, at a stored key, or where two stored keys part |
| RadixCanon.SpotHasNode | 实现Radix Tree/radix_tree.hpp:340-401 | every stored key and every point where two stored keys part has its internal node |
| RadixCanon.DepthDictated | 实现Radix Tree/radix_tree.hpp:258-290 | the depth of a node is at least the length of any such point above it, so its edge skips none |
| RadixCanon.TwinEdge | 实现Radix Tree/radix_tree.hpp:231-430 | nodes at the same path in trees with the same bindings have the same label, depth and entry |
| RadixCanon.TwinChild | 实现Radix Tree/radix_tree.hpp:231-430 | and their children correspond label by label |
| RadixCanon.SameBindingsSameTree | 实现Radix Tree/radix_tree.hpp:231-430 | two well-formed trees that store the same bindings are structurally identical |
| RadixCanon.SameTreeSameBindings | 实现Radix Tree/radix_tree.hpp:231-430 | and trees of the same structure store the same bindings, so the structure keeps all that is stored |
| RadixCanon.SameBindingsIsomorphic | 实现Radix Tree/radix_tree.hpp:231-430 | trees that store the same bindings have the same nodes up to their identities: label, depth, leaf flag, entry, parent link and every entry of the child map correspond |
| RadixCanon.IsomorphicSameBindings | 实现Radix Tree/radix_tree.hpp:231-430 | trees whose nodes correspond one to one, field by field, store the same bindings |
| RadixCanon.NewSpots | 实现Radix Tree/radix_tree.hpp:296-401 | a key adds at most two internal nodes: one for itself and one where it leaves the closest stored key |
| RadixCanon.SpotCount | 实现Radix Tree/radix_tree.hpp:354-400 | n keys ask for at most 2n - 1 internal nodes besides the root |
| RadixCanon.LeafCount | 实现Radix Tree/radix_tree.hpp:305-315 | there are exactly as many leaves as stored keys |
| RadixCanon.InnerCount | 实现Radix Tree/radix_tree.hpp:252-290 | the internal nodes besides the root are exactly as many as the keys ask for |
| RadixCanon.SpaceBound | 实现Radix Tree/radix_tree.hpp:252-290 | with n >= 1 keys: n leaves, at most 2n - 1 internal nodes besides the root, at most 3n nodes |
| RadixCanon.LadderSpots | 实现Radix Tree/radix_tree.hpp:354-400 | for every n there are n keys that ask for 2n - 1 internal nodes besides the root |
| RadixCanon.SpaceAttained | 实现Radix Tree/radix_tree.hpp:354-400 | the bounds cannot be improved: for every n a tree that stores a certain set of n keys has 2n - 1 internal nodes besides the root and 3n nodes |
| RadixCanon.EmptyMeansBare | 实现Radix Tree/radix_tree.hpp:252-253 | the root has no children exactly when nothing is stored |
| RadixNodes.RadixTreeNode.constructor | 实现Radix Tree/radix_tree_node.hpp:15-21 | an empty internal node without parent, label and value |
| RadixNodes.RadixTreeNode.WithValue | 实现Radix Tree/radix_tree_node.hpp:36-46 | the same with its own copy of the value |
| RadixNodes.RadixTreeNode.HangLeaf | 实现Radix Tree/radix_tree.hpp:306-313 | the statements that add a leaf have the effect of AddLeaf on the heap |
| RadixNodes.RadixTreeNode.HangInner | 实现Radix Tree/radix_tree.hpp:317-325 | the statements that add an internal node have the effect of AddInner on the heap |
| RadixNodes.RadixTreeNode.HangEntry | 实现Radix Tree/radix_tree.hpp:317-335 | the statements that add an internal node with its leaf have the effect of both edits |
| RadixNodes.RadixTreeNode.SplitEdge | 实现Radix Tree/radix_tree.hpp:354-366 | the statements that split an edge have the effect of Split on the heap |
| RadixNodes.RadixTreeNode.TopHalf | 实现Radix Tree/radix_tree.hpp:354-361 | the new node takes the first part of the label and the place in the parent's map |
| RadixNodes.RadixTreeNode.BottomHalf | 实现Radix Tree/radix_tree.hpp:363-366 | the old node keeps the rest of the label and hangs below the new one |
| RadixNodes.RadixTreeNode.GiveWay | 实现Radix Tree/radix_tree.hpp:280-287 | the statements that merge have the effect of Merge on the heap and detach the child before its old parent is deleted |
| RadixNodes.RadixTreeNode.MergeWith | 实现Radix Tree/radix_tree.hpp:280-289 | the merge and the deletion of the old parent: the effect of Merge, and only that node is freed |
| RadixNodes.RadixTreeNode.Remove | 实现Radix Tree/radix_tree.hpp:260-261 | taking a childless node out of its parent's map and deleting it frees that node alone |
| RadixNodes.RadixTreeNode.Delete | 实现Radix Tree/radix_tree.hpp:289 | deleting a node without children frees nothing else |
| RadixNodes.RadixTreeNode.Destroy | 实现Radix Tree/radix_tree_node.hpp:49-56 | the recursive destructor frees exactly the nodes at and below this one, each once, children before their parents, and with the pair it owns |
| RadixNodes.RadixTreeNode.DestroyChild | 实现Radix Tree/radix_tree_node.hpp:52-54 | one round of its loop: the node and the child are alive before, and the child's subtree is freed after what was freed before |
| RadixNodes.RadixTreeNode.Free | 实现Radix Tree/radix_tree_node.hpp:55 | the pair of the node and the node itself go; nothing is known about its fields afterwards |
| RadixNodes.Apart | 实现Radix Tree/radix_tree_node.hpp:51-54 | the subtrees of two children have no node in common, so no node is deleted twice |
| RadixNodes.LinkedIsTidy | 实现Radix Tree/radix_tree_node.hpp:28-29 | parent links are the inverse of the child maps, and the whole tree hangs below the root |
| RadixIterators.RadixTreeIterator.Increment | 实现Radix Tree/radix_tree_iterator.hpp:49-63 | the first leaf after the node in key order, or null when there is none; the assertion on the parent's map holds |
| RadixIterators.RadixTreeIterator.Descend | 实现Radix Tree/radix_tree_iterator.hpp:66-75 | the first leaf below the node; the assertion holds |
| RadixIterators.RadixTreeIterator.Advance | 实现Radix Tree/radix_tree_iterator.hpp:98-102 | `operator++`: to the successor, to end(), and end() stays |
| RadixIterators.RadixTreeIterator.PostAdvance | 实现Radix Tree/radix_tree_iterator.hpp:105-109 | `operator++(int)`: the same, returning where it was |
| RadixTrees.RadixTree.constructor | 实现Radix Tree/radix_tree.hpp:45-47 | an empty tree without root |
| RadixTrees.RadixTree.Empty | 实现Radix Tree/radix_tree.hpp:55-57 | true exactly when nothing is stored |
| RadixTrees.RadixTree.FindNode | 实现Radix Tree/radix_tree.hpp:447-475 | terminates and stops at the key's leaf, at a fully matched node nothing continues, or inside an edge |
| RadixTrees.RadixTree.Locate | 实现Radix Tree/radix_tree.hpp:437-443 | find_node from the root finds a leaf exactly when the key is stored |
| RadixTrees.RadixTree.Find | 实现Radix Tree/radix_tree.hpp:433-444 | the entry of the key, or end() exactly when it is not stored |
| RadixTrees.RadixTree.LongestMatch | 实现Radix Tree/radix_tree.hpp:117-146 | the entry of the longest stored prefix of the key, or end() exactly when there is none |
| RadixTrees.RadixTree.Collect | 实现Radix Tree/radix_tree.hpp:212-223 | appends the leaves below the node, each once, in key order |
| RadixTrees.RadixTree.PrefixMatch | 实现Radix Tree/radix_tree.hpp:92-114 | the entries of exactly the stored keys with the prefix, each once, in ascending order |
| RadixTrees.RadixTree.GreedyMatch | 实现Radix Tree/radix_tree.hpp:195-209 | the entries of exactly the stored keys that agree with the key the longest, each once, in ascending order |
| RadixTrees.RadixTree.AppendNodes | 实现Radix Tree/radix_tree.hpp:296-337 | the pointer work of append, as an effect on the heap |
| RadixTrees.RadixTree.PrependNodes | 实现Radix Tree/radix_tree.hpp:340-401 | the pointer work of prepend, as an effect on the heap, with its assertion |
| RadixTrees.RadixTree.Cleave | 实现Radix Tree/radix_tree.hpp:344-366 | the start of prepend: the shared length, the assertion and the split, as an effect on the heap |
| RadixTrees.RadixTree.Branch | 实现Radix Tree/radix_tree.hpp:368-400 | the end of prepend: the entry hangs below the middle node when the key ends there, below one more node otherwise |
| RadixTrees.RadixTree.SharedLength | 实现Radix Tree/radix_tree.hpp:344-350 | the loop of prepend computes the length of the common prefix |
| RadixTrees.RadixTree.Append | 实现Radix Tree/radix_tree.hpp:296-337 | keeps the tree linked, adds exactly the new entry, and is what erase would undo; the size is not its business |
| RadixTrees.RadixTree.Prepend | 实现Radix Tree/radix_tree.hpp:340-401 | the same for a search that stopped inside an edge |
| RadixTrees.RadixTree.PlantRoot | 实现Radix Tree/radix_tree.hpp:405-410 | an empty tree gets a root and stays empty |
| RadixTrees.RadixTree.Place | 实现Radix Tree/radix_tree.hpp:416-429 | a key that is not stored is appended after a full match and prepended inside an edge; the size grows by one |
| RadixTrees.RadixTree.Insert | 实现Radix Tree/radix_tree.hpp:404-430 | map insertion without overwriting: an old key changes nothing and returns its entry, a new key adds exactly its entry and leaves every other leaf alone; erasing that would restore the structure |
| RadixTrees.RadixTree.InsertBelow | 实现Radix Tree/radix_tree.hpp:412-430 | insert below an existing root: an old key changes nothing, a new one is added |
| RadixTrees.RadixTree.MergeUp | 实现Radix Tree/radix_tree.hpp:266-290 | the merge of erase on the heap; what it frees are the nodes that leave the structure |
| RadixTrees.RadixTree.Prune | 实现Radix Tree/radix_tree.hpp:258-290 | erase from the parent on; what it frees are the nodes that leave the structure |
| RadixTrees.RadixTree.PruneIfLoose | 实现Radix Tree/radix_tree.hpp:252-290 | erase once the leaf is gone: nothing more happens at the root or at a parent with two children left |
| RadixTrees.RadixTree.EraseNodes | 实现Radix Tree/radix_tree.hpp:245-292 | erase from the leaf on; what it frees are the nodes that leave the structure, each once |
| RadixTrees.RadixTree.Detach | 实现Radix Tree/radix_tree.hpp:245-290 | the same from the tree object, which it leaves as it is |
| RadixTrees.RadixTree.EraseLeaf | 实现Radix Tree/radix_tree.hpp:245-292 | what the tree stores and what it has freed after the leaf is gone |
| RadixTrees.RadixTree.Erase | 实现Radix Tree/radix_tree.hpp:231-293 | map removal: true exactly when the key was stored, every other entry kept in its own leaf, size one less; the nodes deleted are exactly those that left the tree, children before their parents |
| RadixTrees.RadixTree.EraseAt | 实现Radix Tree/radix_tree.hpp:226-228 | erase through an iterator removes the entry it points to and deletes the nodes that leave the tree, children first |
| RadixTrees.RadixTree.DestroyRoot | 实现Radix Tree/radix_tree.hpp:49 | `delete m_root` frees every node of the tree once, children before their parents, the root last |
| RadixTrees.RadixTree.Clear | 实现Radix Tree/radix_tree.hpp:58-62 | frees every node of the tree once, children before their parents, and leaves it empty |
| RadixTrees.RadixTree.Uproot | 实现Radix Tree/radix_tree.hpp:59-60 | deletes the root with all that hangs below and leaves the tree without one |
| RadixTrees.RadixTree.At | 实现Radix Tree/radix_tree.hpp:176-192 | operator[]: the entry of the key, inserted with the default value if it was missing; the assertion holds |
| RadixTrees.RadixTree.Assign | 实现Radix Tree/radix_tree.hpp:191 | writing through the returned reference changes the value of that key only |
| RadixTrees.RadixTree.Put | 实现Radix Tree/radix_tree.hpp:176-192 | `tree[key] = x` is map update |
| RadixTrees.RadixTree.BeginAt | 实现Radix Tree/radix_tree.hpp:166-173 | the first leaf below the node; the assertion holds below every node but a bare root |
| RadixTrees.RadixTree.Begin | 实现Radix Tree/radix_tree.hpp:154-163 | the entry of the least key, or end() when nothing is stored, for a tree that has no root or is not empty |
| RadixTrees.RadixTree.BeginAsserts | 实现Radix Tree/radix_tree.hpp:170 | the assertion in begin() holds exactly when there is no root or something is stored |
| RadixTrees.RadixTree.Traverse | 实现Radix Tree/radix_tree_iterator.hpp:97-102 | begin() to end() visits every entry once, in ascending key order, in size() steps |
| RadixTrees.RadixTree.Walk | 实现Radix Tree/radix_tree_iterator.hpp:97-102 | repeated `++` from the first entry until `end()` meets every leaf once, in key order |
| RadixTrees.RadixTree.TraverseIsCollect | 实现Radix Tree/radix_tree.hpp:212-223 | and yields the same sequence as the recursive greedy_match from the root |
| RadixRuns.Step | 实现Radix Tree/radix_tree.hpp:58-430 | each update (insert, operator[] read or written, writing through an iterator, erase by key or iterator, clear) does to the stored map what it says |
| RadixRuns.Run | 实现Radix Tree/radix_tree.hpp:58-430 | so does every sequence of updates, and the tree stays valid; whether it has a root can be told from the updates |
| RadixRuns.Unnamed | 实现Radix Tree/radix_tree.hpp:58-430 | a key that no operation names keeps its binding, or stays without |
| RadixRuns.LastNaming | 实现Radix Tree/radix_tree.hpp:176-430 | over a whole run the last operation that names a key decides: erased keys are gone, overwritten ones have the value written, insertion and reading keep what is there and add what is missing, writing through an iterator adds nothing |
| RadixRuns.ClearForgets | 实现Radix Tree/radix_tree.hpp:58-62 | after the last clear a key that is not named any more is not stored |
| RadixRuns.FirstInsertStays | 实现Radix Tree/radix_tree.hpp:412-415 | insert never overwrites: later insertions and reads of the key leave the first value |
| RadixRuns.RootedWhen | 实现Radix Tree/radix_tree.hpp:58-62 | there is a root exactly when something that may insert ran after the last clear, or there was one and nothing was cleared |
| RadixRuns.Lifetime | 实现Radix Tree/radix_tree_node.hpp:49-56 | nothing leaks: after any run and the destruction every node ever constructed for the tree is dead, its pair gone, and none was freed twice |
| RadixRuns.FreshRun | 实现Radix Tree/radix_tree.hpp:45-47 | a run from an empty tree stores what the updates make of the empty map, and the run tells whether the assertion in begin() holds afterwards: exactly when something is stored or nothing was inserted since the last clear |
| RadixRuns.HistoryIndependence | 实现Radix Tree/radix_tree.hpp:231-430 | trees are structurally identical exactly when they store the same map, no root counting as a bare root |
| RadixRuns.SameNodes | 实现Radix Tree/radix_tree.hpp:231-430 | two trees with roots have corresponding nodes, field by field, exactly when they store the same map |
| RadixRuns.TwoRuns | 实现Radix Tree/radix_tree.hpp:231-430 | two runs that end with the same map end with the same structure and, if both trees have a root, with corresponding nodes |
| RadixRuns.InsertThenErase | 实现Radix Tree/radix_tree.hpp:231-430 | erasing a freshly inserted key restores the structure; all nodes and fields exactly when the tree had a root, which insert otherwise leaves behind; only nodes that insert made are freed |
| RadixRuns.EmptiedTree | 实现Radix Tree/radix_tree.hpp:170 | a run after which the assertion in begin() fails: insert one key and erase it |
| RadixRuns.Space | 实现Radix Tree/radix_tree.hpp:252-290 | at any time: as many leaves as keys, at most 3n nodes, or just a root when nothing is stored |
| RadixRuns.FullTree | 实现Radix Tree/radix_tree.hpp:404-430 | a run after which a tree with n keys has 3n nodes, for every n |
| PoolLayout.Layout.SlotsFit | 高性能内存池/MemoryPool.hpp:80-82 | the slot count is what fits behind the header, at least one for every size the static assertion allows |
| PoolLayout.Layout.SlotInside | 高性能内存池/MemoryPool.hpp:79-86 | a slot lies between the header and the end of its block |
| PoolLayout.Layout.SlotsApart | 高性能内存池/MemoryPool.hpp:79-89 | distinct slots never overlap |
| PoolLayout.Layout.ReachesEnd | 高性能内存池/MemoryPool.hpp:73-89 | the bump pointer meets lastSlot_ exactly after the last slot |
| PoolLayout.Layout.SlotsAligned | 高性能内存池/MemoryPool.hpp:79-80 | the slots of any block are aligned exactly when the end of its header is, because the header adds no padding; in an aligned block, when the alignment divides the size of a pointer |
| PoolLayout.MisalignedSlot | 高性能内存池/MemoryPool.hpp:79-80 | sizes the static assertion allows for which the first slot is misaligned |
| MemoryPools.PeakIsMaximum | 高性能内存池/MemoryPool.hpp:65-107 | the peak of a run is the largest number of live objects at any of its moments |
| MemoryPools.TouchOne | 高性能内存池/MemoryPool.hpp:88-89 | the next slot of the current block has never been handed out |
| MemoryPools.TouchedCount | 高性能内存池/MemoryPool.hpp:80-89 | how many slots have been handed out, from the number of blocks and the position in the newest |
| MemoryPools.ReuseFits | 高性能内存池/MemoryPool.hpp:66-71 | taking a slot from the free list moves it from the free to the live slots and keeps the list intact |
| MemoryPools.ReturnFits | 高性能内存池/MemoryPool.hpp:104-105 | returning a slot moves it back and keeps the list free of cycles and repetitions |
| MemoryPools.MemoryPool.constructor | 高性能内存池/MemoryPool.hpp:16 | an empty pool |
| MemoryPools.MemoryPool.NewBlock | 高性能内存池/MemoryPool.hpp:73-87 | links a new block in front of the chain and points at its first slot and its end |
| MemoryPools.MemoryPool.Allocate | 高性能内存池/MemoryPool.hpp:65-90 | a slot that is not live: the last returned one, or the next of the current block, or the first of a new block when there is no other; no live slot is disturbed |
| MemoryPools.MemoryPool.Reuse | 高性能内存池/MemoryPool.hpp:66-71 | the head of the free list is handed out and the list moves on |
| MemoryPools.MemoryPool.Bump | 高性能内存池/MemoryPool.hpp:73-89 | with an empty free list the next slot of the current block, or the first of a new one, is handed out |
| MemoryPools.MemoryPool.EnsureSlot | 高性能内存池/MemoryPool.hpp:73-87 | a block is obtained exactly when the current one is exhausted |
| MemoryPools.MemoryPool.HandOut | 高性能内存池/MemoryPool.hpp:88-89 | the bump pointer's slot becomes live, and the pointer moves on by one slot |
| MemoryPools.MemoryPool.Deallocate | 高性能内存池/MemoryPool.hpp:101-107 | the slot becomes the head of the free list, nullptr is ignored, no other live slot is disturbed |
| MemoryPools.MemoryPool.Return | 高性能内存池/MemoryPool.hpp:103-105 | the slot is overwritten with the link to the old head and becomes the head |
| MemoryPools.MemoryPool.Construct | 高性能内存池/MemoryPool.hpp:95-97 | only the given live slot is written |
| MemoryPools.MemoryPool.Destroy | 高性能内存池/MemoryPool.hpp:31-33 | only the given live slot is affected; the object in it is destroyed |
| MemoryPools.MemoryPool.ReleaseAll | 高性能内存池/MemoryPool.hpp:111-118 | the destructor releases every block of the chain once and reads no header after its release |
| MemoryPools.MemoryPool.LiveIsPrivate | 高性能内存池/MemoryPool.hpp:39-42 | a live slot holds no link of the pool and is no header |
| MemoryPools.MemoryPool.LiveSlotsApart | 高性能内存池/MemoryPool.hpp:65-107 | live slots lie inside the blocks and do not overlap, after any run |
| MemoryPools.MemoryPool.Conservation | 高性能内存池/MemoryPool.hpp:65-107 | live, free and untouched slots partition the slots of all blocks after any run; the untouched ones are the newest block's from the bump pointer on |
| MemoryPools.MemoryPool.BlocksForPeak | 高性能内存池/MemoryPool.hpp:66-89 | the number of blocks is the peak number of live objects over the slots per block, rounded up |
| StackAllocs.NodesPush | 高性能内存池/StackAlloc.hpp:64-68 | writing a node into a new slot extends the chain and disturbs no other node |
| StackAllocs.NodesPop | 高性能内存池/StackAlloc.hpp:76-80 | the head node holds the top element and links to the chain of the rest |
| StackAllocs.StackAlloc.constructor | 高性能内存池/StackAlloc.hpp:19 | an empty stack over an empty pool |
| StackAllocs.StackAlloc.Empty | 高性能内存池/StackAlloc.hpp:26-28 | true exactly when the stack is empty |
| StackAllocs.StackAlloc.Top | 高性能内存池/StackAlloc.hpp:40-42 | the top element |
| StackAllocs.StackAlloc.Push | 高性能内存池/StackAlloc.hpp:64-68 | the element goes on top, the rest is as before |
| StackAllocs.StackAlloc.Reserve | 高性能内存池/StackAlloc.hpp:65 | allocating a slot disturbs no node in use |
| StackAllocs.StackAlloc.Link | 高性能内存池/StackAlloc.hpp:65-67 | the node written into the new slot becomes the head |
| StackAllocs.StackAlloc.Pop | 高性能内存池/StackAlloc.hpp:72-82 | removes and returns the top element; an empty stack is reported and left alone |
| StackAllocs.StackAlloc.Drop | 高性能内存池/StackAlloc.hpp:76-80 | the head node leaves the stack, and its slot becomes the head of the free list |
| StackAllocs.StackAlloc.Unlink | 高性能内存池/StackAlloc.hpp:55-56 | the head moves to the node below |
| StackAllocs.StackAlloc.Free | 高性能内存池/StackAlloc.hpp:57-58 | the slot is returned, and no other node is disturbed |
| StackAllocs.StackAlloc.Clear | 高性能内存池/StackAlloc.hpp:53-60 | terminates with the stack empty, all its slots on the free list and every element destroyed, top first; raises no peak |
| StackAllocs.StackAlloc.Dispose | 高性能内存池/StackAlloc.hpp:21-23 | clears, destroying what is left, then the pool releases each of its blocks once |
| StackAllocs.StackAlloc.Drain | 高性能内存池/StackAlloc.hpp:72-82 | popping until empty yields the elements last in, first out |
| StackAllocs.StackAlloc.BlocksForDepth | 高性能内存池/StackAlloc.hpp:64-68 | the blocks obtained are what the greatest depth so far needs, rounded up |
| StackRuns.DeepestIsMaximum | 高性能内存池/StackAlloc.hpp:53-82 | the greatest depth of a run is the maximum over all its moments |
| StackRuns.Accounted | 高性能内存池/StackAlloc.hpp:53-82 | in any run every element that was there or is pushed ends up destroyed or on the stack, once |
| StackRuns.AnswerTo | 高性能内存池/StackAlloc.hpp:72-82 | the answer to a pop is none exactly when the stack is empty, and the top otherwise |
| StackRuns.AnswersCount | 高性能内存池/StackAlloc.hpp:72-82 | a run gives as many answers as it has pops, and takes none back |
| StackRuns.DepthIs | 高性能内存池/StackAlloc.hpp:53-82 | the depth of the stack, counted from the operations alone |
| StackRuns.PopMatchesPush | 高性能内存池/StackAlloc.hpp:64-82 | last in, first out over whole runs: a pop balanced with a push answers what was pushed and leaves the stack as before the push |
| StackRuns.Source | 高性能内存池/StackAlloc.hpp:64-82 | every element on a stack that started empty comes from the push since which the stack has risen by its depth |
| StackRuns.PopHasPush | 高性能内存池/StackAlloc.hpp:64-82 | every pop of a run from an empty stack either finds it empty or is balanced with a push |
| StackRuns.ClearEmpties | 高性能内存池/StackAlloc.hpp:53-60 | clear leaves nothing on the stack |
| StackRuns.Step | 高性能内存池/StackAlloc.hpp:53-82 | one push, pop or clear takes the stack where it takes the sequence |
| StackRuns.Run | 高性能内存池/StackAlloc.hpp:53-82 | so does every run: same results, same stack, same order of destruction, the peak of the pool is the greatest depth, and new blocks come from operator new |
| StackRuns.Lifetime | 高性能内存池/StackAlloc.hpp:21-82 | from construction to destruction: the results, the number of blocks (greatest depth over slots per block, rounded up), blocks that operator new returned, each released once, and every element pushed destroyed once |

## Left out

- Keys other than `std::string`: the templates are instantiated at strings, as the specializations of `radix_substr`, `radix_join` and `radix_length` are.
- Overflow of `int` depths and lengths and of `size_t` sizes: integers are unbounded.
- Iterators to erased entries, and the use of a tree, pool or stack after its destructor.
- RadixTrees.RadixTree.Begin: requires a tree without root or with an entry, because on an emptied tree the assertion of the program fails.
- RadixTrees.RadixTree.Traverse: requires the same, because it starts with `begin()`.
- StackAllocs.StackAlloc.Top: requires a non-empty stack, because the program dereferences a null head otherwise.
- StackAllocs.StackAlloc.Pop: the exception for an empty stack is the result `None`.
- MemoryPools.MemoryPool.Deallocate: requires a live slot or nullptr; the program does not detect other pointers.
- MemoryPools.MemoryPool.Destroy: requires a live slot that holds an object; that its destructor runs is recorded, what it does is not modelled.
- StackRuns.Run: the address `operator new` would return is an argument of every push, also of those that need no block; the addresses are asked not to overlap.
- RadixNodes.RadixTreeNode.Destroy: the pair a node points to (`m_value`) is a field of the node here, not an object of its own; its deletion is the end of that value.
- The cost of the operations; only the number of nodes and blocks is bounded.
- `rebind`, `construct` forwarding, exceptions thrown by `operator new`, copying of pools and stacks, and `StackAlloc` over other allocators.
- Concurrency: none of the classes is shared between threads.
- The Redis, libevent, socket, epoll, thread and UDP programs of the collection: their behaviour is that of libraries and of the kernel.
- The example and timing programs.
