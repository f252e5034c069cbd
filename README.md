# X-fast trie, modelled in Dafny

This project models the engine of `kora::x_fast_trie` (`x_fast_trie_impl.h`), an ordered map
from `W`-bit unsigned keys to values, and proves it correct against a canonical invariant.

The state is the class `XFastTrie.Trie<V>`:

- `W`, the key width (`_width`);
- `table`, an array of `W` maps (`_table[Width]`). Level `i` maps the `i`-bit prefix of every
  present key, `key >> (W - i)`, to a node with two slots. A slot is `Child` (a node one level
  down, whose id is `2 * prefix + bit`) or `Jump(leaf)`, a thread to a leaf;
- the leaf list (`_leaf_list` and the leaves' `left`/`right` pointers): `head`, and the maps
  `next` and `prev`, with leaves named by their keys. It is circular, doubly linked and
  ascending;
- `values`, the leaf records (key to value);
- `count` (`_count`) and `version` (`_version`).

`Trie.Valid()` is the invariant every operation keeps:

- the list links every key to its successor and predecessor in key order, wrapping around;
- each level holds exactly the prefixes of the present keys (`Tables.TablesOk`);
- a node's left slot is `Child` when its left child exists. Otherwise it is a jump to the
  least key below the node. The right slot is symmetric, jumping to the greatest key;
- the bottom level therefore holds only jumps.

This invariant pins the tables down completely from the key set (`Tables.TablesUnique`). It
implies the structural check the unit tests run (`Tables.HarnessInvariant`).

The modules follow the program's structure:

- `Options`: the optional value standing for a nullable pointer.
- `Bits`: powers of two and right shifts.
- `Order`: least, greatest, successor, predecessor and rank in a finite set of keys.
- `LeafList`: the leaf list invariant, and the splice and unsplice steps.
- `Levels`: prefix ids, the node invariant, and the node updates of insert and erase.
- `Tables`: the per-level invariant, and the staged invariants the level walks of insert and
  erase keep.
- `XFastTrie`: the class with the operations and the iterator.

## Model

| member | source | states |
|---|---|---|
| XFastTrie.Trie.constructor | x_fast_trie_impl.h:27-33 | A new trie is valid and empty: no leaves, empty levels, both counters zero. Its level array is freshly allocated, so the caller may go on to modify it. |
| Levels.SourcePrefix | x_fast_trie_impl.h:167 | The source's `key >> (W-1-i) >> 1` is the `i`-bit prefix of the key; without the last shift it is the prefix one level down. |
| Levels.PrefixEnds | x_fast_trie_impl.h:160 | Every key below `2^W` has root id 0 (the only id level 0 ever holds) and is its own `W`-bit prefix. |
| Tables.PathPresence | x_fast_trie_impl.h:319-336 | Along any key's path the levels holding its prefix come first: present prefixes are closed under shortening, which is what makes the binary search over levels sound. |
| XFastTrie.Trie.Bottom | x_fast_trie_impl.h:318-336 | The binary search returns the deepest level holding the key's prefix, or none. It is the bottom level for a present key. For an in-range key it is none exactly when the trie is empty. |
| XFastTrie.Trie.LowerNodeFromBottom | x_fast_trie_impl.h:361-376 | The three probes from the deepest node (right jump, left jump, one step left of the left jump) return only a present key below the searched one. |
| XFastTrie.Trie.PredecessorFromBottom | x_fast_trie_impl.h:361-376 | On a valid trie the probes return the greatest present key below the searched key, or none exactly when no key is below it. |
| XFastTrie.Trie.LowerOnRight | x_fast_trie_impl.h:366-374 | The same, when the key would branch right below its deepest node: the right jump, or for a present key the left jump or the list predecessor, is the greatest key below. |
| XFastTrie.Trie.LowerOnLeft | x_fast_trie_impl.h:369-374 | The same, when the key would branch left: the left jump is the least key above, and its list predecessor is the greatest key below. |
| LeafList.FollowerOfLower | x_fast_trie_impl.h:144-150 | The list follower of the greatest key below `key` (the head when there is none) is the least key not below `key` whenever one exists, and the head when every key lies below `key`. It is therefore `key` exactly when `key` is present. |
| XFastTrie.Trie.InsertionPoint | x_fast_trie_impl.h:142-151 | Insert's search: the deepest node is missing exactly on an empty trie, the predecessor is the greatest key below, and the leaf after it is the least key not below `key` (when there is one), so it holds the key exactly when the key is present. |
| XFastTrie.Trie.FindAtBottom | x_fast_trie_impl.h:279-291 | A key is present exactly when the bottom node for `key >> 1` names it in the slot its last bit picks. |
| XFastTrie.Trie.Find | x_fast_trie_impl.h:277-295 | `find` returns an iterator on the key exactly when the key is present, and `end()` otherwise. |
| XFastTrie.Trie.At | x_fast_trie_impl.h:46-52 | `at` returns the stored value of a present key (as a value; writes through the returned reference are `Set`), and the out-of-range error exactly when the key is missing. |
| XFastTrie.Trie.Subscript | x_fast_trie_impl.h:62-71 | `operator[]` returns the stored value, or inserts the default value and returns it. A missing key raises both `count` and `version` by one, as insert does. A present key leaves the whole trie unchanged. |
| XFastTrie.Trie.Set | x_fast_trie_impl.h:46-71 | An assignment through the reference `at` or `operator[]` returns for a present key. Afterwards the key maps to the new value and every other key's lookup is unchanged. The trie stays valid: no link, node or counter moves. |
| XFastTrie.Trie.Insert | x_fast_trie_impl.h:140-196 | Insert keeps the trie valid and reports whether it added the key. The iterator stands on the key. A duplicate changes nothing: value, list, tables and counters stay. A fresh key gets its value stored and both counters go up by one. A new least key becomes the head; otherwise the head stays. |
| XFastTrie.Trie.InsertNew | x_fast_trie_impl.h:153-161 | For an absent key: both counters go up by one, the value is stored and the trie stays valid. The leaf becomes the head exactly when it has no predecessor. |
| XFastTrie.Trie.InsertLeafAfter | x_fast_trie_impl.h:338-359 | Splicing a leaf after its predecessor, or in front of the head when it has none, keeps the list circular and ascending over the key set grown by the leaf; the links change exactly around the marker. |
| XFastTrie.Trie.LastLinksToHead | x_fast_trie_impl.h:346-349 | The head's left neighbour is the greatest key, and the head follows it. |
| LeafList.LinkAfter | x_fast_trie_impl.h:353-357 | Rewiring the four links around the marker gives a valid list over the grown key set. |
| XFastTrie.Trie.InsertLevels | x_fast_trie_impl.h:163-193 | The level walk of insert turns tables valid for the old key set into tables valid for the key set plus the new key. It creates the root when the trie was empty, and the `logic_error` branch is unreachable. |
| Levels.Retarget | x_fast_trie_impl.h:172-182 | The node update of insert never touches a child link. A jump moves only to the new key, and only when the key lies beyond it: below a left jump, or above a right jump. |
| Levels.RetargetOk | x_fast_trie_impl.h:170-182 | An existing node whose subtree gains the key stays right: a left jump beyond the key, or a right jump below it, moves to the key. |
| Levels.RetargetPresent | x_fast_trie_impl.h:170-182 | A node that already has the key below it is left alone. |
| Levels.FreshNodeOk | x_fast_trie_impl.h:183-185 | A node created for a prefix no other key has serves the new key alone and is right as `{Jump(key), Jump(key)}`. |
| Levels.Link | x_fast_trie_impl.h:186-189 | The parent's slot on the side the new id's last bit picks becomes a child link; its other slot is kept. |
| Levels.LinkOk | x_fast_trie_impl.h:186-189 | Linking the fresh node into the side of its parent that `id & 1` picks keeps the parent right. |
| Tables.StagedFresh | x_fast_trie_impl.h:183-190 | One step of the insert walk at a level where the key's prefix is new: the staged invariant advances past the level. |
| Tables.StagedRetarget | x_fast_trie_impl.h:170-182 | One step of the insert walk at a level where the key's prefix exists: the staged invariant advances past the level. |
| Tables.InsertedEntries | x_fast_trie_impl.h:163-193 | After insert every level has an entry for the new key's prefix. No entry disappears, and an entry is new exactly when its subtree holds the new key alone. |
| XFastTrie.Trie.Erase | x_fast_trie_impl.h:213-261 | Erase keeps the trie valid and removes exactly the erased key's record. `count` drops by one and `version` rises by one. The list empties when the key was the only one; the head moves to its follower when it was the head and stays otherwise. |
| XFastTrie.Trie.Unsplice | x_fast_trie_impl.h:215-226 | Unlinking a leaf joins its neighbours and gives a valid list over the remaining keys. The returned neighbours are the key's predecessor and successor. The head moves on or empties as above. |
| LeafList.Unlink | x_fast_trie_impl.h:219-226 | Joining a leaf's neighbours around it gives a valid list over the key set without the leaf. |
| XFastTrie.Trie.EraseLevels | x_fast_trie_impl.h:228-254 | The level walk of erase turns tables valid for the old key set into tables valid for the key set without the erased key. The `single` flag tracks whether the key's prefix one level down has gone. |
| XFastTrie.Trie.EraseLevel | x_fast_trie_impl.h:229-253 | One level of the erase walk brings that level to the new key set. `single` stays true exactly while the key's prefix has no other key. |
| Tables.EraseKeepRight | x_fast_trie_impl.h:235-239 | At the first surviving level, with the key on the right, the right slot becomes a jump to the key's predecessor. |
| Tables.EraseKeepLeft | x_fast_trie_impl.h:240-243 | At the first surviving level, with the key on the left, the left slot becomes a jump to the key's successor. |
| Tables.EraseDrop | x_fast_trie_impl.h:244-246 | A node that held only the erased key is removed from its level. |
| Tables.EraseJoin | x_fast_trie_impl.h:248-253 | Above the first surviving level, the corrected redirect of a jump to the erased key keeps the level right. |
| Levels.Join | x_fast_trie_impl.h:248-253 | The corrected redirect never turns a child link into a jump or back. Only a left jump to the erased key changes, to its successor, and only a right jump to it changes, to its predecessor. |
| Levels.JoinOk | x_fast_trie_impl.h:248-253 | Above the first surviving level only a jump naming the erased key moves: to its successor on the left, or to its predecessor on the right. The node stays right. |
| Levels.JoinAsWritten | x_fast_trie_impl.h:249-252 | The redirect as written: whenever the left slot is not the erased leaf, the right slot becomes a jump to the predecessor, whatever it held before. |
| Levels.JoinAsWrittenBreaks | x_fast_trie_impl.h:249-252 | The source's redirect as written overwrites a right child link. With 2-bit keys {0,1,2,3}, erasing 0 gives a root whose right slot is `Jump(3)` though keys 2 and 3 lie below that child. |
| Tables.ErasedEntries | x_fast_trie_impl.h:228-254 | Erase adds no entry, and it deletes an entry exactly when the subtree held the erased key alone. |
| XFastTrie.Trie.Clear | x_fast_trie_impl.h:124-138 | Clear leaves a valid empty trie: no leaves, empty levels, `count` and `version` zero. |
| XFastTrie.Trie.ClearLevels | x_fast_trie_impl.h:135-137 | Every level's table is emptied. |
| XFastTrie.Trie.End | x_fast_trie_impl.h:102-105 | `end()` carries the current list head and compares unequal to every position on a stored key. |
| XFastTrie.Trie.FindMissIsEnd | x_fast_trie_impl.h:277-295 | `find(key) == end()` exactly when `key` is missing. |
| XFastTrie.Trie.Begin | x_fast_trie_impl.h:95-100 | `begin()` is `end()` exactly on an empty trie. Otherwise it stands on the least key, of rank 0. |
| XFastTrie.Trie.Empty | x_fast_trie_impl.h:107-110 | `empty()` holds exactly when no key is present. |
| XFastTrie.Trie.Size | x_fast_trie_impl.h:112-115 | `size()` is the number of present keys. |
| XFastTrie.Trie.BeginIsEnd | x_fast_trie_impl.h:95-105 | `begin() == end()` exactly when the trie is empty. |
| XFastTrie.Trie.Inc | x_fast_trie_impl.h:449-453 | `++` goes to the next greater key, one rank up. From the greatest key, where the list wraps to the head, it goes to `end()`. |
| XFastTrie.Trie.IncStep | x_fast_trie_impl.h:449-453 | The right link returns to the head exactly from the greatest key. Otherwise it leads to a greater key, one rank up. |
| XFastTrie.Trie.Dec | x_fast_trie_impl.h:458-462 | `--` goes to the next smaller key, one rank down. From the least key, where the left link reaches the head's left neighbour, it goes to `end()`. |
| XFastTrie.Trie.DecStep | x_fast_trie_impl.h:458-462 | The left link reaches the head's left neighbour exactly from the least key. Otherwise it leads to a smaller key, one rank down. |
| XFastTrie.Same | x_fast_trie_impl.h:467-472 | Two iterators compare equal exactly when both are at the end or both stand on the same key. The list heads they carry do not take part. |
| XFastTrie.Trie.SameFind | x_fast_trie_impl.h:467-469 | Two `find` results compare equal exactly when both keys are missing or both are the same stored key. |
| XFastTrie.Trie.Keys | fast-trie-unit-tests/fast-trie-unit-tests/x_fast_trie.cpp:30-31 | A full walk from `begin()` to `end()` visits every present key exactly once, in strictly ascending order, `size()` keys in all. |
| Tables.HarnessInvariant | fast-trie-unit-tests/fast-trie-unit-tests/x_fast_trie.cpp:27-55 | The tests' structural check holds on every valid trie: every key's prefix has its node at every level, every jump names a present key, both bottom-level slots are jumps, and each level has one entry per distinct prefix. |
| Tables.TablesReachKeys | fast-trie-unit-tests/fast-trie-unit-tests/x_fast_trie.cpp:34-41 | Every present key's prefix has a node at every level, and no level has more entries than there are keys. |
| Tables.SlotTargets | fast-trie-unit-tests/fast-trie-unit-tests/x_fast_trie.cpp:42-45 | Jumps name present keys, and child links name nodes present one level down. |
| Tables.BottomSlots | fast-trie-unit-tests/fast-trie-unit-tests/x_fast_trie.cpp:46-47 | Both slots of every bottom-level node are jumps to present keys. |
| Tables.TablesUnique | x_fast_trie.h:35 | The level tables are determined by the key set. |

## Left out

- Memory management is not modelled: the allocator, `destroy`/`deallocate` and the destructor (x_fast_trie_impl.h:36-44, 155-156, 258-259). Leaves are records indexed by key. `clear` is modelled by its state reset (lines 132-137). Its node-freeing loop calls `deallocate` with one argument and is not part of this model.
- `dynamic_cast` and the virtual `is_leaf` are replaced by the tagged `Slot` datatype (`Child` or `Jump(leaf)`).
- The `logic_error` at x_fast_trie_impl.h:191 is not a modelled error path. The invariant makes it unreachable, and the model states that with `assert false`.
- The const overloads of `at` and `find` and `cbegin`/`cend` (x_fast_trie_impl.h:55-60, 84-93, 298-316) are left out. They are never called, and the const `find` would not compile: line 305 names `key` without calling it. `const_iterator` (x_fast_trie_impl.h:20-25) is only the conversion `erase` takes its position through; its members are not modelled, and `erase` takes an `Iter`.
- `erase(key)`, `equal_range`, `lower_bound`, `upper_bound`, `rbegin`/`rend` and `remove_leaf` are declared in x_fast_trie.h but never defined, so they are not modelled.
- `higher_node` and `lower_node` (x_fast_trie_impl.h:379-399) are unused. `higher_node` also compares `leaf->key` without calling it.
- `max_size` and `count()` are not modelled; `count()` is `size()`.
- The range and initializer-list inserts (x_fast_trie_impl.h:198-211) are not modelled. They are loops of `insert`.
- `erase(first, last)` (x_fast_trie_impl.h:263-270) is not modelled.
- XFastTrie.Trie.Erase: the returned iterator is stated as it is built: on the erased leaf's old right neighbour. It is not promised to be the successor or `end()`. Erasing the greatest key wraps it to the head, and erasing the only key leaves it on the erased leaf.
- Postfix `++`/`--` (x_fast_trie_impl.h:454-466) return the already advanced iterator. Only the step itself is modelled.
- XFastTrie.Trie.Inc: the stepping properties are stated only for iterators made from the current list head. An iterator keeps a copy of the head pointer, which goes stale once the head changes.
- XFastTrie.Trie.Dec: the same restriction to iterators made from the current list head.
- Dereferencing an iterator (`operator*`, `operator->`) is not modelled. The leaf an iterator stands on is looked up in `values`.
- `count` and `version` are unbounded naturals. The wrap-around of `size_t _count` and the overflow of `int _version` are not modelled. Keys are naturals below `2^W`: a key type wider than `W` bits is not modelled.
- XFastTrie.Trie.Insert: requires `key < 2^W`. In the source, a key with bits above `W` has no root path at level 0. By then `insert` has already raised `_count` and `_version` and linked the new leaf into the leaf list (x_fast_trie_impl.h:152-156). It then throws `logic_error` at line 191 and leaves that partial state behind. The model does not take this path.
- Hash-map internals and iterator invalidation of `std::unordered_map` are not modelled. A level is a map from prefix id to node.
- The gtest harness and `main.cpp` are not modelled. The harness's `verify()` appears only as the invariant in `Tables.HarnessInvariant`.
- `clear` sets `_version` back to 0 (x_fast_trie_impl.h:133), so the counter is not monotonic across a clear. The model follows the code.

## Findings

| source | as written | input that shows it | evidently intended | confidence | as-written member | corrected member |
|---|---|---|---|---|---|---|
| x_fast_trie_impl.h:249-252 | Above the first surviving level, any node whose left slot is not the erased leaf gets `right = left` (the predecessor leaf), even when its right slot is a child link. | `W = 2`, keys {0, 1, 2, 3}, erase 0: the root's right child link (prefix 1, holding 2 and 3) becomes a jump to 3. | Redirect only a right slot that is a jump to the erased leaf, and leave every other slot alone. | high; not executed | Levels.JoinAsWrittenBreaks | Levels.JoinOk |
