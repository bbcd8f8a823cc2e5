# Skip list model

A Dafny model of `SkipList<T>` (include/skip_list.h) and `Node<T>`
(include/node.h): a sorted, duplicate-free container whose keys sit on a
level-0 chain, with a tower of express links above. A head sentinel with
`MAX_LEVEL` = 16 null slots starts every level. `current_level` counts the
levels in use and `num_elements` the stored keys.

The model keeps the source's imperative form:

- Nodes live in an arena (`nodes: seq<Node>`, the head at index 0). A link
  is `Null` (a null pointer) or `To(index)`.
- `SkipList` is a class with the fields `nodes`, `currentLevel` and
  `numElements`. Its methods rewrite links level by level in loops, as the
  standard skip-list insert and erase do.
- Two ghost fields give the abstract view. `Chain` holds the arena indices
  along level 0, head first. `Contents` holds the stored keys, ascending.
- `Valid()` is the representation invariant:
  - level 0 holds each key exactly once, in strictly ascending order;
  - on every level `l`, each node links to the next node along level 0 that
    has more than `l` slots, or to null (the tower property);
  - `currentLevel` is the height of the tallest node, 0 when empty;
  - `numElements == |Contents|`.

Every operation is proved against `Contents`:

- insert is `InsertSorted`, erase is `RemoveSorted`;
- `==` is sequence equality;
- `<` is `LexLess`, the lexicographic order of `std::lexicographical_compare`.

The properties of these functions are lemmas in module `OrderedSeqs`:

- insertion and erasure keep the keys sorted and add or remove exactly one
  key;
- erase and insert undo each other;
- the contents depend only on the set of keys inserted, not their order;
- `<` is a strict total order decided at the first difference.

Module `Towers` holds the link arithmetic. It computes where every link
points from the node heights alone, and how a splice or an unsplice at one
chain position moves those targets.

The header in this repository defines only the constructor, `size()` and
`get_current_level()` (besides `doNothing`). Insert, contains, erase, iteration, the comparisons
and copy/move are used by the tests under test/, so the model follows the
behaviour those tests fix, using the standard skip-list algorithms:

- a top-down search recording one predecessor per level;
- a splice after each predecessor;
- an unsplice, then dropping empty top levels.

A node built with `level` gets exactly `level` slots (include/node.h:22), so
it occupies levels 0 .. level - 1, and the model counts heights that way.

## Model

| member | source | states |
|---|---|---|
| Nodes.NewNode | include/node.h:22 | The value constructor stores `val` and gives exactly `level` link slots, all null |
| Nodes.NewDummy | include/node.h:25 | The dummy constructor gives a value-less node with `_level` null slots |
| Towers.NextAt | include/node.h:11 | A node's link on level `l` targets the first later chain position tall enough for level `l`, or null; nothing in between is that tall |
| Towers.NextAtIs | include/node.h:11 | Those three properties determine the link target uniquely |
| Towers.LastBelow | test/skip_list_int_test.cpp:41-87 | The predecessor on level `l` of an insertion point is the last earlier position that tall; the head always is |
| Towers.LastBelowIs | test/skip_list_int_test.cpp:41-87 | Those properties determine the predecessor uniquely |
| Towers.LastBelowLinksPast | test/skip_list_int_test.cpp:41-87 | The predecessor's link on that level reaches at or past the insertion point |
| Towers.NextAtInsertAfter | test/skip_list_int_test.cpp:41-87 | After inserting a node, the nodes behind it keep their link targets (shifted by one position) |
| Towers.NextAtInsertNew | test/skip_list_int_test.cpp:41-87 | The inserted node takes over its predecessor's old target on each level |
| Towers.NextAtInsertBefore | test/skip_list_int_test.cpp:41-87 | A node ahead of the insertion point links to the new node exactly when it is the new node's predecessor on a level the new node occupies; otherwise its target is unchanged |
| Towers.NextAtRemoveAfter | test/skip_list_int_test.cpp:129-141 | After removing a node, the nodes behind it keep their link targets |
| Towers.NextAtRemoveBefore | test/skip_list_int_test.cpp:129-141 | A node ahead of the removed one inherits its target exactly when it was the removed node's predecessor on a level that node occupied |
| Towers.LinkBeforeInsert | test/skip_list_int_test.cpp:41-87 | The insert facts above, stated as the links of a chain of arena indices: nodes ahead of the new one |
| Towers.LinkOfInserted | test/skip_list_int_test.cpp:41-87 | The same, for the new node |
| Towers.LinkAfterInsert | test/skip_list_int_test.cpp:41-87 | The same, for nodes behind the new one |
| Towers.LinkBeforeRemove | test/skip_list_int_test.cpp:129-141 | The erase facts, as links: nodes ahead of the removed one |
| Towers.LinkAfterRemove | test/skip_list_int_test.cpp:129-141 | The erase facts, as links: nodes behind the removed one |
| OrderedSeqs.LowerBound | test/skip_list_int_test.cpp:104-126 | The number of keys below `v`: everything before it is smaller, and in a sorted sequence everything from it on is not |
| OrderedSeqs.LowerBoundFinds | test/skip_list_int_test.cpp:104-126 | In a sorted sequence `v` is present exactly when it sits at its lower bound |
| OrderedSeqs.PutSpec | test/skip_list_int_test.cpp:41-87 | Placing a key between the smaller and the larger keys keeps the sequence ascending and adds exactly that key |
| OrderedSeqs.DropSpec | test/skip_list_int_test.cpp:129-141 | Dropping one key keeps the rest ascending and removes exactly that key |
| OrderedSeqs.InsertSortedSpec | test/skip_list_int_test.cpp:89-102 | Insertion keeps the keys ascending and adds exactly `v`; the size grows by one only when `v` was absent |
| OrderedSeqs.RemoveSortedSpec | test/skip_list_int_test.cpp:129-162 | Erasure keeps the keys ascending and removes exactly `v`; the size shrinks by one only when `v` was present |
| OrderedSeqs.SortedUnique | test/operator_test.cpp:59-72 | Two ascending sequences holding the same keys are equal |
| OrderedSeqs.RemoveInsert | test/skip_list_int_test.cpp:129-141 | Erasing a key just inserted restores the contents |
| OrderedSeqs.InsertRemove | test/skip_list_int_test.cpp:129-141 | Re-inserting a key just erased restores the contents |
| OrderedSeqs.InsertSortedAppend | test/constructor_test.cpp:14-29 | Inserting the next key of an ascending sequence appends it, so reinsertion in iteration order copies a list |
| OrderedSeqs.InsertAllSpec | test/skip_list_int_test.cpp:41-87 | After any sequence of inserts into an empty list, the contents are the distinct inserted keys, ascending, and the size is their number |
| OrderedSeqs.InsertAllOrderFree | test/operator_test.cpp:59-72 | Inserting the same keys in any order, with any repetitions, gives the same contents |
| OrderedSeqs.LexLessWitness | test/skip_list_string_test.cpp:138-166 | Where `a < b`, there is a first position at which `a` is exhausted or smaller and before which they agree |
| OrderedSeqs.LessAtLex | test/skip_list_string_test.cpp:138-166 | Such a position makes `a < b` |
| OrderedSeqs.LexLessIff | test/skip_list_string_test.cpp:130-166 | `a < b` exactly when `a` is smaller at the first difference or is a strict prefix of `b` |
| OrderedSeqs.LexTrichotomy | test/skip_list_string_test.cpp:206-255 | Exactly one of `a < b`, `a == b`, `b < a` holds |
| OrderedSeqs.LexTransitive | test/skip_list_string_test.cpp:130-166 | `<` is transitive |
| OrderedSeqs.LexLessFrom | test/skip_list_string_test.cpp:138-166 | Comparing from position `i` is decided by the keys at `i`, or continues at `i + 1` on a tie |
| SkipLists.ChainInjective | test/skip_list_int_test.cpp:13-19 | Level 0 visits each node once: distinct chain positions are distinct arena cells |
| SkipLists.Level0Step | test/skip_list_int_test.cpp:13-19 | Following `next[0]` from chain position `p` reaches position `p + 1`, or null after the last key |
| SkipLists.SearchFinds | test/skip_list_int_test.cpp:104-126 | After the search, the level-0 successor of the last predecessor is the first key not below `v`, and `v` is stored exactly when that key equals `v` |
| SkipLists.Splice | test/skip_list_int_test.cpp:32-39 | The splice loop appends a node holding `v` with `h` slots; on each of its levels it takes over the predecessor's link, and the predecessor links to it; nothing else changes |
| SkipLists.InsertKeepsShape | test/skip_list_int_test.cpp:41-87 | Splicing a new key in at its place yields a valid list holding `InsertSorted(contents, v)`, with the new node at chain position `b` |
| SkipLists.InsertKeepsCells | test/skip_list_int_test.cpp:41-87 | After the splice, level 0 names real nodes holding the keys in order with `v` at its place |
| SkipLists.InsertKeepsLinks | test/skip_list_int_test.cpp:41-87 | After the splice, every level is again the sub-chain of the nodes tall enough for it |
| SkipLists.InsertLinksBefore | test/skip_list_int_test.cpp:41-87 | Nodes ahead of the new one link to it on the levels where they are its predecessor, and keep their links elsewhere |
| SkipLists.InsertLinksNew | test/skip_list_int_test.cpp:41-87 | The new node links where its predecessor used to |
| SkipLists.InsertLinksAfter | test/skip_list_int_test.cpp:41-87 | Nodes behind the new one keep their links |
| SkipLists.InsertKeepsLevels | include/skip_list.h:17 | Splicing in a node with `h` slots makes max(current_level, h) the number of levels in use |
| SkipLists.Unsplice | test/skip_list_int_test.cpp:129-141 | The unsplice loop: on each level the removed node occupies, its predecessor takes over its link; nothing else changes |
| SkipLists.EraseKeepsShape | test/skip_list_int_test.cpp:129-141 | Unsplicing a stored key yields a valid list holding `RemoveSorted(contents, v)`, without chain position `b` |
| SkipLists.EraseKeepsCells | test/skip_list_int_test.cpp:129-141 | After the unsplice, level 0 names real nodes holding the remaining keys in their order |
| SkipLists.EraseKeepsLinks | test/skip_list_int_test.cpp:129-141 | After the unsplice, every level is again the sub-chain of the nodes tall enough for it |
| SkipLists.EraseLinksBefore | test/skip_list_int_test.cpp:129-141 | Nodes ahead of the removed one take over its links on the levels where they were its predecessor |
| SkipLists.EraseLinksAfter | test/skip_list_int_test.cpp:129-141 | Nodes behind the removed one keep their links |
| SkipLists.LevelsInUse | include/skip_list.h:17 | The shrink loop after an erase leaves `current_level` equal to the height of the tallest remaining node, 0 when none is left |
| SkipLists.NoLevelsIffEmpty | test/skip_list_int_test.cpp:25-29 | No levels are in use exactly when the list is empty |
| SkipLists.ScanStep | test/skip_list_int_test.cpp:104-126 | A step right on one level onto a key below `v` stays before the place of `v` |
| SkipLists.ScanStops | test/skip_list_int_test.cpp:104-126 | When the next node on a level is null or not below `v`, the search has reached the predecessor on that level of where `v` is or would be |
| SkipLists.PredecessorBrackets | test/skip_list_int_test.cpp:104-126 | That predecessor is the head or holds a key below `v`, and its successor on the level is null or holds a key not below `v` |
| SkipLists.ScanLevel | test/skip_list_int_test.cpp:104-126 | Moving right on one level while the next key is below `v` stops at the predecessor, on that level, of where `v` is or would be: the head or a key below `v`, followed by null or a key not below `v` |
| SkipLists.FindPredecessors | test/skip_list_int_test.cpp:104-126 | The top-down search returns the predecessor on every level of where `v` is or would be; levels above those in use get the head |
| SkipLists.InsertNode | test/skip_list_int_test.cpp:32-102 | Insert on the arena gives a valid list holding `InsertSorted(contents, v)`; it adds a node exactly when `v` was absent, leaves the arena and the level count as they were when `v` was present, and otherwise places a node of height `lvl` at `v`'s chain position, keeps every other node's height, and raises the number of levels to `lvl` when that is higher |
| SkipLists.AddNode | test/skip_list_int_test.cpp:32-87 | Once the search finds `v` absent, splicing a node with `lvl` slots after the predecessors gives a valid list holding `InsertSorted(contents, v)`, with max(current_level, lvl) levels in use; the node heights along level 0 are the old ones with `lvl` placed at the insertion point |
| SkipLists.RemoveNode | test/skip_list_int_test.cpp:129-141 | Once the search finds `v` stored, unsplicing its node and shrinking the levels gives a valid list holding `RemoveSorted(contents, v)`, with no more levels than before; the node heights along level 0 are the old ones without the removed node's |
| SkipLists.EraseNode | test/skip_list_int_test.cpp:129-162 | Erase on the arena gives a valid list holding `RemoveSorted(contents, v)`; it removes a node exactly when `v` was present, never raises the number of levels, keeps every remaining node's height when `v` was present, and leaves the arena and the level count as they were when `v` was absent |
| SkipLists.SkipList.constructor | include/skip_list.h:35-40 | A new list has a head with MAX_LEVEL null slots, `current_level` 0 and `num_elements` 0, and holds no keys |
| SkipLists.SkipList.Clear | include/skip_list.h:35-40 | Returns the list to the state of a new one |
| SkipLists.SkipList.Size | include/skip_list.h:54-58 | `size()` is the number of stored keys |
| SkipLists.SkipList.Empty | test/operator_test.cpp:75-88 | `empty()` holds exactly when no key is stored |
| SkipLists.SkipList.GetCurrentLevel | include/skip_list.h:48-52 | `get_current_level()` is at most MAX_LEVEL, bounds every node's height, and is 0 exactly on an empty list |
| SkipLists.SkipList.Contains | test/skip_list_int_test.cpp:104-126 | `contains(v)` holds exactly when `v` is stored |
| SkipLists.SkipList.Insert | test/skip_list_int_test.cpp:32-102 | `insert(v)` leaves `InsertSorted(old contents, v)`: when `v` is present the keys, nodes and level count are unchanged; otherwise the new node has `lvl` slots at `v`'s place, every other node keeps its height, and the level count rises to `lvl` if that is higher |
| SkipLists.SkipList.Erase | test/skip_list_int_test.cpp:129-162 | `erase(v)` returns whether `v` was stored and leaves `RemoveSorted(old contents, v)`; for a stored key every remaining node keeps its height (so the level count becomes the tallest remaining height, by `Valid()`); for an absent key or an empty list the keys, nodes and level count are unchanged |
| SkipLists.SkipList.CursorFacts | test/iterator_test.cpp:20-32 | The cursor at the `i`-th key names the node holding it, and its `next[0]` is the cursor at key `i + 1` |
| SkipLists.SkipList.Begin | test/iterator_test.cpp:9-14 | `begin()` is the cursor at the first key, and equals `end()` exactly on an empty list |
| SkipLists.SkipList.End | test/iterator_test.cpp:9-14 | `end()` is the cursor one past the last key |
| SkipLists.SkipList.Advance | test/iterator_test.cpp:20-32 | `++` moves the cursor to the next key, reaching `end()` after the last |
| SkipLists.SkipList.Deref | test/iterator_test.cpp:9-32 | `*` yields the key under the cursor, and the `std::out_of_range` error exactly at `end()` |
| SkipLists.SkipList.Elements | test/iterator_test.cpp:47-82 | Iterating from `begin()` to `end()` visits every stored key once, ascending |
| SkipLists.SkipList.Equal | test/operator_test.cpp:5-72 | `==` holds exactly when both lists hold the same keys, whatever their node heights |
| SkipLists.SkipList.NotEqual | test/operator_test.cpp:5-72 | `!=` is the negation of `==` |
| SkipLists.SkipList.Less | test/skip_list_string_test.cpp:130-166 | `<` is the lexicographic order of the two key sequences |
| SkipLists.SkipList.Greater | test/skip_list_string_test.cpp:168-204 | `a > b` exactly when `b < a` |
| SkipLists.SkipList.LessOrEqual | test/skip_list_string_test.cpp:206-230 | `<=` holds exactly when `<` or `==` does |
| SkipLists.SkipList.GreaterOrEqual | test/skip_list_string_test.cpp:232-255 | `>=` holds exactly when `>` or `==` does |
| SkipLists.SkipList.InsertEach | test/constructor_test.cpp:14-29 | Reinserting another list's keys in iteration order into an empty list gives the same keys |
| SkipLists.SkipList.Copy | test/constructor_test.cpp:4-54 | Copy construction gives a valid list with the same keys; it is a separate object, so later changes to either list leave the other alone |
| SkipLists.SkipList.CopyFrom | test/operator_test.cpp:75-170 | Copy assignment leaves the source's keys; assigning a list to itself leaves its keys, nodes and level count unchanged |
| SkipLists.SkipList.Move | test/constructor_test.cpp:56-88 | Move construction takes over the source's nodes, level-0 chain, keys and level count and leaves the source a valid empty list |
| SkipLists.SkipList.MoveFrom | test/operator_test.cpp:172-226 | Move assignment takes over the source's nodes, level-0 chain, keys and level count and leaves a distinct source empty; moving a list into itself keeps its nodes, keys and level count |

## Left out

- Random level generation (include/skip_list.h:20-21, 37-39) is a Mersenne Twister with a floating-point distribution. `Insert` takes the new node's height as an argument `lvl` with 1 <= lvl <= MAX_LEVEL, and copies take one height per key. The geometric distribution of heights, and the expected logarithmic cost that depends on it, are not modelled.
- Memory ownership is not modelled: the `unique_ptr` head, raw `Node*` links and node destruction. Nodes live in an arena addressed by index. An erased node stays in the arena, unreachable.
- `doNothing` (include/skip_list.h:42-46) has no behaviour.
- test/additional.cpp only defines `MAX_LEVEL` for the linker.
- Keys are `int` only. The `double` and `std::string` instantiations of the tests need only a total order, which `int` has.
- The C++ iterator machinery is reduced to one cursor type, a `Link`. This covers mutable versus const iterators and their cross-comparison, `operator->`, postfix `++`, and `std::find`. The cursor's position among the keys is passed alongside it as a ghost argument.
- The `std::out_of_range` thrown when dereferencing `end()` is modelled as `Deref` returning `None`.
- SkipLists.SkipList.Copy: claims equal contents only, not equal node heights. A copy reinserts keys with fresh heights, so it is not a structural clone.
- The test accessors `get_first_node_at_0()` and `Node::getValue()` (test/skip_list_int_test.cpp:13-18) are not in these headers. Level 0 is read through `Begin`, `Advance` and `Deref` instead.
- The gtest harness itself is not modelled.
