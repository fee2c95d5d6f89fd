# Models of the hash table, the B-tree, the HAT-trie, the lock upgrade and the jump cache

This project models five parts of the repository in Dafny and proves that each agrees with a simple
mathematical object.

* **Open-addressing table** (`raw_hash_set`): `probe.dfy`, `group.dfy`, `control.dfy`,
  `table_state.dfy`, `swiss_table.dfy`. A class with a `ctrl` and a `slots` array, any hash function,
  groups of 8 or 16 bytes. The abstract value is a map. The probe sequence covers the table by a
  fact on triangular numbers; lookups end because the counters leave an empty byte, and the exact
  condition for a lookup to end is proved for tables whose counters are wrong too; erasing may write
  "empty" by a run-length argument; the in-place rehash moves elements in a loop that can step back.
* **B-tree** (`btree`): `btree_tree.dfy`, `btree_shape.dfy`, `btree_moves.dfy`, `btree_walk.dfy`,
  `btree_search.dfy`, `btree_rebalance.dfy`, `btree_dense.dfy`, `btree_leaves.dfy`, `array_moves.dfy`,
  `btree_node.dfy`, `btree.dfy`, `btree_set.dfy`. The abstract value is the sequence of values in
  order; an iterator stands for its rank. All moves between siblings are boundary shifts of one joined
  node, which is why they keep order and rank. When siblings share, split and merge is stated by the
  number of leaves, and what the bias is for by insertions in ascending and in descending order.
  `btree_node.dfy` has the node operations on the heap, in place on arrays of values and child
  pointers: each makes of the parent's subtree what the function that the tree uses makes of it, and
  keeps the pointers to the parent and the positions there. Capacity is any number from 3 on, the
  order any strict weak order.
* **HAT-trie** (`htrie_hash`): `trie_node.dfy`, `trie_order.dfy`, `trie_walk.dfy`, `trie_after.dfy`,
  `trie_range.dfy`, `hat_trie.dfy`, `trie_serial.dfy`, `trie_run.dfy`. The abstract value is a map from
  strings; iterators are places in a walk. Insertion bursts full buckets and no others, removal cleans
  up empty nodes, writing a trie and reading it back gives the same tree, and it is stated exactly
  which input is accepted.
* **Lock upgrade** of `erase_if` in the parallel set: `lock_upgrade.dfy`. Threads as interleaved
  steps over submaps and their mutexes; statements are about every state of every run, and about what
  each call has done when it ends.
* **Jump-distance cache** of the grid search: `jump_cache.dfy`. The line sweep against a scan from
  each cell.

`options.dfy` holds the one shared datatype. `dafny verify dfyconfig.toml` checks everything.

Where code and documentation differ, the model follows the code. `rehash(0)` on a non-empty table
takes its capacity from the size without slack. `SwissTable.RawHashSet.Rehash` states that capacity and
exactly when the counters still balance afterwards; `TableState.RehashedEndsIff` states exactly when no
lookup of an absent key ends any more, and `SwissTable.Overfill` is a run of the table that gets there.

## Model

| member | source | states |
|---|---|---|
| ProbeSequence.TriInjective | parallel_hashmap/phmap.h:64-72 | the triangular numbers below a power of two p are pairwise different modulo p |
| ProbeSequence.TriOnto | parallel_hashmap/phmap.h:64-72 | and they hit every residue, so that the first N probes meet each of the N groups |
| ProbeSequence.OffsetNext | parallel_hashmap/phmap.h:144-168 | the recurrence of `next` computes the closed form (h + w * n(n+1)/2) mod m |
| ProbeSequence.WindowIffBlock | parallel_hashmap/phmap.h:144-168 | window n of the probe sequence is block T(n) mod (m / w) of the cyclic table, counted from the first window |
| ProbeSequence.WindowsPartition | parallel_hashmap/phmap.h:144-168 | for every power-of-two table and hash, the first (capacity + 1) / w windows (or the first alone, for a small table) contain each position exactly once |
| ProbeSequence.WindowNoIs | parallel_hashmap/phmap.h:144-168 | a position lies in window n, among those that cover the table, if and only if n is its window number |
| ProbeSequence.ProbeSeq.constructor | parallel_hashmap/phmap.h:144-153 | the cursor starts at window 0 |
| ProbeSequence.ProbeSeq.Next | parallel_hashmap/phmap.h:156-160 | `next` moves the cursor from window n to window n + 1 |
| PortableGroup.SpecialMasksRefine | parallel_hashmap/phmap.h:505-513 | the word tricks of `MatchEmpty` and `MatchEmptyOrDeleted` set the top bit of exactly the bytes that are empty, or empty or deleted |
| PortableGroup.ConvertRefines | parallel_hashmap/phmap.h:520-527 | the word trick of `ConvertSpecialToEmptyAndFullToDeleted` turns each byte into empty or deleted as the name says |
| PortableGroup.LoadIsLoaded | parallel_hashmap/phmap.h:482-483 | the little-endian word of eight control bytes has each of them in its place |
| PortableGroup.PortableMatchIs | parallel_hashmap/phmap.h:485-503 | the mask that `Match` gives for eight bytes has every byte with the wanted hash bits, and full bytes only |
| PortableGroup.MatchRefines | parallel_hashmap/phmap.h:485-503 | `Match` flags every byte with the wanted hash bits, and a byte that it flags wrongly is never an empty, deleted or sentinel byte, so a candidate is always a full slot |
| ControlBytes.H2 | parallel_hashmap/phmap.h:370-370 | the stored part of a hash is seven bits, so it never looks like a special byte |
| ControlBytes.LoadIs | parallel_hashmap/phmap.h:2298-2324 | for every offset up to the capacity, byte j of a linear load is the byte of the position that `offset(j)` decodes, or, in a small table, padding that is empty; every load stays inside the capacity + w + 1 bytes |
| ControlBytes.LoadSees | parallel_hashmap/phmap.h:153-154 | a load that starts at most w - 1 positions before a position, cyclically, holds that position's byte at that distance |
| ControlBytes.MirrorIndexIs | parallel_hashmap/phmap.h:2307-2309 | the second index that `set_ctrl` writes is capacity + 1 + i for each of the first w slots i, slot w - 1 of a large table included, and otherwise the slot itself |
| ControlBytes.SetCtrlOk | parallel_hashmap/phmap.h:2298-2310 | `set_ctrl` keeps the sentinel, the padding and the mirror, and changes one slot |
| ControlBytes.EraseKeepsReachable | parallel_hashmap/phmap.h:1991-2008 | tombstone soundness: writing empty when `was_never_full`, and deleted otherwise, keeps every other position reachable by the probe sequence of every hash |
| ControlBytes.NeverFullIff | parallel_hashmap/phmap.h:1991-2008 | in a large table a slot becomes empty when it is erased, and not a tombstone, if and only if every window of w positions through it has an empty byte |
| ControlBytes.NeverFullWindow | parallel_hashmap/phmap.h:1994-2005 | when `was_never_full` holds, every window through the slot holds another empty byte |
| ControlBytes.SmallNeverTombstone | parallel_hashmap/phmap.h:1994-2007 | in a table with capacity below w - 1 the test always holds, so no tombstone is ever written |
| ControlBytes.SmallLoadHasEmpty | parallel_hashmap/phmap.h:2344-2357 | every load of a small table ends in a padding byte that decodes to the sentinel index |
| ControlBytes.PositionLoaded | parallel_hashmap/phmap.h:2222-2243 | each position of window n shows up in the bytes loaded for it |
| ControlBytes.LoadedPosition | parallel_hashmap/phmap.h:2222-2243 | each byte loaded for window n, other than padding, is the byte of a position of window n |
| ControlBytes.NormalizeCapacity | parallel_hashmap/phmap.h:573-576 | the result is a power of two less one and not below the argument |
| ControlBytes.NormalizeLeast | parallel_hashmap/phmap.h:573-576 | it is the least valid capacity that is not below the argument |
| ControlBytes.ReserveSuffices | parallel_hashmap/phmap.h:582-610 | the capacity that `reserve(n)` asks for takes n elements within the load limit |
| TableState.StopIsSound | parallel_hashmap/phmap.h:2222-2243 | an empty byte in a window, no earlier match having been the key, proves that the key is not stored |
| TableState.TargetHit | parallel_hashmap/phmap.h:2196-2207 | the first empty or deleted byte met by `find_first_non_full` is in the first window that has one |
| TableState.TargetMiss | parallel_hashmap/phmap.h:2196-2207 | a window without one is not the last |
| TableState.IndexBelowCapacity | parallel_hashmap/phmap.h:2204-2204 | where a window is left, the index of the probe sequence is below the capacity, as the "full table!" assertion demands |
| TableState.TargetIsPrepared | parallel_hashmap/phmap.h:2252-2269 | the slot that `prepare_insert` ends with is a real slot below the capacity, not full, also where a small table first yields the sentinel index |
| TableState.TargetInGroup | parallel_hashmap/phmap.h:2196-2207 | one round of `find_first_non_full`: the first byte of the group that is not full, or else the next window |
| TableState.EmplaceStep | parallel_hashmap/phmap.h:1915-1927 | filling the prepared slot stores exactly the old entries and the new one, each once, all reachable, with balanced accounts |
| TableState.EraseStep | parallel_hashmap/phmap.h:1991-2010 | erasing a slot stores exactly the other entries, all reachable, with balanced accounts |
| TableState.SmallNeverSquashes | parallel_hashmap/phmap.h:2144-2154 | a small table that has no room left is too full for `drop_deletes_without_resize` |
| TableState.GrowthDoubles | parallel_hashmap/phmap.h:2144-2154 | after squashing or doubling there is room for an insertion |
| TableState.GrowthIs | parallel_hashmap/phmap.h:578-593 | the load limit is seven eighths of the capacity up to rounding, and equal to the capacity exactly in small tables |
| TableState.SpaceIsLinear | parallel_hashmap/phmap.h:2144-2154 | a capacity that doubling has reached for at most n elements is below five times n |
| TableState.ReserveLeast | parallel_hashmap/phmap.h:598-610 | `reserve(n)` asks for the least capacity whose load limit takes n elements |
| TableState.RebuildStep | parallel_hashmap/phmap.h:2062-2073 | one step of the copying loop of `resize` |
| TableState.StayStep | parallel_hashmap/phmap.h:2111-2122 | a sweep step that leaves the element in its group keeps everything placed below i placed |
| TableState.MoveStep | parallel_hashmap/phmap.h:2123-2129 | the same for a step that moves the element to an empty slot |
| TableState.SwapStep | parallel_hashmap/phmap.h:2130-2139 | the same for a step that swaps with an element still to be placed and stays at i |
| TableState.PackedInSameGroup | parallel_hashmap/phmap.h:2111-2122 | an element whose target lies in the same probe window as its slot may stay |
| TableState.HoldsUnique | parallel_hashmap/phmap.h:2054-2079 | the slots determine the map they hold |
| TableState.SizeIsCardinality | parallel_hashmap/phmap.h:2326-2328 | the element count is the number of keys and within the load limit |
| TableState.RehashToZeroOverfills | parallel_hashmap/phmap.h:1698-1712 | concrete sizes for which `rehash(0)` asks for a capacity whose load limit is below the element count |
| TableState.HasEmptyIff | parallel_hashmap/phmap.h:2222-2243 | elements and tombstones together fill the table if and only if no slot is empty |
| TableState.EmptySeenIff | parallel_hashmap/phmap.h:2222-2243 | in a large table, for every hash: no window shows an empty byte, neither among the windows that cover the table nor ever, if and only if elements and tombstones fill the table |
| TableState.SearchEndsIff | parallel_hashmap/phmap.h:1859-1880 | the lookup of a key ends if and only if the table is small, or the key is stored, or some slot is empty; then it does so within the windows that cover the table |
| TableState.RebuiltEndsIff | parallel_hashmap/phmap.h:1698-1712 | in a large table without tombstones no lookup of an absent key ends if and only if the size is the capacity |
| TableState.RehashedEndsIff | parallel_hashmap/phmap.h:1698-1712 | after `rehash(0)` no lookup of an absent key ends if and only if the size plus one is a power of two that is at least the group width |
| TableState.EraseLeavesNoEmpty | parallel_hashmap/phmap.h:1991-2010 | an erase in a large table without an empty slot always leaves a tombstone, so that it does not help |
| SwissTable.RawHashSet.constructor | parallel_hashmap/phmap.h:330-340 | a default table holds the empty map |
| SwissTable.RawHashSet.Match | parallel_hashmap/phmap.h:485-503 | a mask with every byte that has the hash bits and with full bytes only; in groups of eight it is that of the word, false positives included |
| SwissTable.RawHashSet.ScanGroup | parallel_hashmap/phmap.h:2230-2237 | the inner loop over the slots of any such mask finds the key in the window or proves that it is not there |
| SwissTable.RawHashSet.FindKey | parallel_hashmap/phmap.h:2220-2243 | lookup ends and answers with the slot of the key and its value if and only if the key is stored, under the exact condition for it to end |
| SwissTable.RawHashSet.FindFirstNonFull | parallel_hashmap/phmap.h:2196-2207 | the first slot that is not full, of the first window that has one, always found |
| SwissTable.RawHashSet.SetCtrl | parallel_hashmap/phmap.h:2298-2310 | one slot byte and its mirror are written |
| SwissTable.RawHashSet.EraseMetaOnly | parallel_hashmap/phmap.h:1991-2010 | exactly the entry of that slot goes and the table stays valid; the byte written is that of the test |
| SwissTable.RawHashSet.Erase | parallel_hashmap/phmap.h:1593-1599 | exactly the entry of that key goes, with the right count |
| SwissTable.RawHashSet.Resize | parallel_hashmap/phmap.h:2054-2079 | same map in fresh arrays of the new capacity, without tombstones; the accounts balance if and only if the elements fit into its load limit |
| SwissTable.RawHashSet.TransferAll | parallel_hashmap/phmap.h:2062-2073 | every element of the old arrays is placed in the new ones |
| SwissTable.RawHashSet.InitializeSlots | parallel_hashmap/phmap.h:2012-2027 | fresh arrays hold the empty map |
| SwissTable.RawHashSet.PlaceEntry | parallel_hashmap/phmap.h:2064-2071 | an element goes to the first non-full slot of its probe sequence |
| SwissTable.RawHashSet.ConvertDeletedToEmptyAndFullToDeleted | parallel_hashmap/phmap.h:557-568 | afterwards full slots read deleted and all others empty, with the mirror in place |
| SwissTable.RawHashSet.DropDeletesWithoutResize | parallel_hashmap/phmap.h:2081-2142 | terminates despite `--i`, keeps exactly the same map in the same arrays, leaves no tombstone and everything reachable |
| SwissTable.RawHashSet.PlaceMarked | parallel_hashmap/phmap.h:2103-2140 | one round of the sweep: one marked slot less |
| SwissTable.RawHashSet.RehashAndGrowIfNecessary | parallel_hashmap/phmap.h:2144-2154 | same map, and room for an insertion afterwards; in the same arrays if and only if the elements are at most half of the load limit, and otherwise with the first slot or twice the capacity plus one |
| SwissTable.RawHashSet.PrepareInsert | parallel_hashmap/phmap.h:2252-2269 | the first slot of the probe sequence that is not full, and counters already adjusted; the capacity grows only when the budget is used up and more than half of the load limit is elements |
| SwissTable.RawHashSet.Emplace | parallel_hashmap/phmap.h:1915-1927 | the map gains the key if and only if it was absent; the capacity grows only for a new key, with the budget used up and more than half of the load limit elements |
| SwissTable.RawHashSet.Clear | parallel_hashmap/phmap.h:1273-1292 | the empty map in the same arrays, without tombstones unless it was empty before |
| SwissTable.RawHashSet.Rehash | parallel_hashmap/phmap.h:1698-1712 | the map is always kept; the capacity is the old one or that of the larger of n and the size, and for n = 0 that of the size; the table is valid again if and only if n > 0 or the size is within the load limit of its own normalized value |
| SwissTable.RawHashSet.Reserve | parallel_hashmap/phmap.h:1714-1714 | the load limit is then at least n; the capacity is the old one or the least with room; validity under the same condition |
| SwissTable.Overfill | parallel_hashmap/phmap.h:1698-1712 | seven insertions into an empty table with groups of eight and `rehash(0)`: the table is full, its accounts are wrong, and no lookup of an absent key ever ends |
| SwissTable.Run | parallel_hashmap/phmap.h:1859-1927 | for every sequence of emplace, find, erase, clear, reserve and rehash from an empty table, `reserve(0)` and `rehash(0)` where the elements fit, the answers are those of a map, the final size is that of the map, and the capacity is at most what was asked for, or has been doubled for no more elements than the most there have been |
| TrieNode.LookupUpdate | tsl/htrie_hash.h:436-443 | replacing the node at a path changes the lookup of exactly the keys with that prefix |
| TrieNode.KeysBelow | tsl/htrie_hash.h:1344-1360 | the keys with a prefix that is a path are the keys of the node there, in number too |
| TrieNode.UpdateDiffers | tsl/htrie_hash.h:1362-1442 | a change of one key below a node is a change of that one key in the tree |
| TrieNode.UpdateWithout | tsl/htrie_hash.h:1046-1101 | removing the keys with a prefix below a node removes exactly those with the whole prefix |
| TrieNode.BurstStepIs | tsl/htrie_hash.h:1771-1782 | one entry of a bursting bucket goes to the new node and nowhere else |
| TrieNode.OnlyChild | tsl/htrie_hash.h:1495-1517 | a node with an empty child and nothing else stores nothing, so the child may take its place |
| TrieNode.FilterStep | tsl/htrie_hash.h:1727-1735 | one round of the loop that filters a bucket by prefix |
| TrieNode.TrieAtUpdate | tsl/htrie_hash.h:436-443 | replacing the node at a path changes where trie nodes are only below it |
| TrieOrder.KeyListIs | tsl/htrie_hash.h:677-709 | the walk passes a key if and only if the key is stored |
| TrieOrder.KeyListDistinct | tsl/htrie_hash.h:677-709 | and passes it once |
| TrieOrder.PositionsMatch | tsl/htrie_hash.h:623-643 | the i-th place of the walk below a node denotes the i-th key of it |
| TrieOrder.AfterOutside | tsl/htrie_hash.h:1299-1328 | what follows a subtree lies outside it |
| TrieWalk.First | tsl/htrie_hash.h:1280-1296 | `cbegin` of a node: the first place below it |
| TrieWalk.Ascend | tsl/htrie_hash.h:798-816 | the place that follows a whole subtree |
| TrieWalk.Increment | tsl/htrie_hash.h:677-709 | `++` moves to the next place of the walk |
| TrieWalk.SizeDescendants | tsl/htrie_hash.h:1344-1360 | the number of keys below the node |
| TrieWalk.LongestPrefix | tsl/htrie_hash.h:1570-1625 | an iterator to the longest stored key that is a prefix of the argument, or the end if there is none |
| TrieWalk.StoredPrefixesAre | tsl/htrie_hash.h:1627-1679 | the specification of `for_each_prefix_of` lists exactly the stored prefixes |
| TrieWalk.StoredPrefixesIncrease | tsl/htrie_hash.h:1627-1679 | in increasing length |
| TrieWalk.ForEachPrefixOf | tsl/htrie_hash.h:1627-1679 | the calls made are that list |
| TrieAfter.AfterHead | tsl/htrie_hash.h:798-816 | the places behind a subtree are the rest of the walk from the first of them |
| TrieAfter.AfterUpdate | tsl/htrie_hash.h:1444-1477 | replacing a node leaves the places behind it as they are |
| TrieAfter.AfterDrop | tsl/htrie_hash.h:1484-1518 | so does removing a child, and those places keep their keys |
| TrieAfter.NextInBucket | tsl/htrie_hash.h:1462-1468 | removing an entry from the middle of a bucket leaves the next key at the same place |
| TrieRange.FilterPrefix | tsl/htrie_hash.h:765-791 | the next entry of the bucket with the rest of the prefix, or what follows the bucket |
| TrieRange.EqualPrefixRange | tsl/htrie_hash.h:1689-1721 | the range denotes nothing, a whole subtree or the matching entries of one bucket, as the prefix demands |
| TrieRange.IncrementPrefix | tsl/htrie_hash.h:677-709 | `++` of a prefix iterator stays within the filter |
| TrieRange.KeysWithPrefix | tsl/htrie_hash.h:1689-1721 | iterating the range yields exactly the keys with the prefix, each once |
| HatTrie.HTrie.constructor | tsl/htrie_hash.h:871-878 | an empty trie with a threshold within bounds |
| HatTrie.ClampThreshold | tsl/htrie_hash.h:1248-1255 | the threshold is clamped: what is changed is below the minimum and becomes it, or above the maximum and becomes that |
| HatTrie.ClampLoadFactor | tsl/htrie_hash.h:1238-1241 | the load factor becomes the minimum if it is below, and otherwise is kept |
| HatTrie.HTrie.Find | tsl/htrie_hash.h:1526-1561 | an iterator to the key and its value if and only if it is stored |
| HatTrie.HTrie.Insert | tsl/htrie_hash.h:1007-1021 | an error and no change if and only if the key is too long; otherwise the old map plus the key if it was absent, and an iterator to the key; with the threshold unchanged no bucket grows beyond it, and a trie node is made only where as many keys as the threshold were stored below |
| HatTrie.HTrie.InsertImpl | tsl/htrie_hash.h:1362-1410 | the same from an inner node, with repeated bursts terminating on the rest of the key |
| HatTrie.HTrie.InsertInHashNode | tsl/htrie_hash.h:1412-1442 | the same from a bucket, which bursts first if it is full, and not otherwise |
| HatTrie.HTrie.Burst | tsl/htrie_hash.h:1766-1786 | the new node maps every key as the bucket did, and has only buckets below, no larger ones |
| HatTrie.HTrie.ClearEmptyNodes | tsl/htrie_hash.h:1484-1518 | from a node made empty: the same map, and no empty bucket and no trie node without child or value is left |
| HatTrie.HTrie.EraseAt | tsl/htrie_hash.h:1444-1477 | exactly the key of the iterator goes, with the count, and the iterator given back has the same keys ahead as the one after it had |
| HatTrie.InsertFills | tsl/htrie_hash.h:1412-1442 | an insertion keeps that each trie node stands above as many of the keys ever inserted as the threshold |
| HatTrie.RemovalFills | tsl/htrie_hash.h:1444-1518 | so does a removal, which makes no trie node |
| HatTrie.HTrie.Erase | tsl/htrie_hash.h:1036-1044 | exactly that key goes, with the count |
| HatTrie.HTrie.ErasePrefix | tsl/htrie_hash.h:1046-1101 | exactly the keys with the prefix go, their number is returned, and no bucket grows |
| HatTrie.HTrie.EraseSubtree | tsl/htrie_hash.h:1068-1083 | its case of a trie node below the root |
| HatTrie.HTrie.EraseBucket | tsl/htrie_hash.h:1091-1100 | its case of a bucket at the end of the prefix |
| HatTrie.HTrie.ErasePrefixHashNode | tsl/htrie_hash.h:1723-1744 | the same inside one bucket |
| TrieRun.Run | tsl/htrie_hash.h:1007-1101 | for every sequence of insertions, erasures, prefix erasures and lookups from an empty trie the answers are those of a map that refuses keys above the length limit, in the end the trie stores that map and counts its keys, no bucket is above the threshold, and a trie node stands only where as many keys as the threshold have ever been inserted below; where nothing was removed, as are stored below |
| TrieSerial.Rebuild | tsl/htrie_hash.h:2005-2102 | putting back the blocks of a tree rebuilds exactly that tree |
| TrieSerial.PutAllBelow | tsl/htrie_hash.h:2086-2102 | blocks below one character rebuild just that child and leave the siblings alone |
| TrieSerial.TotalBlocks | tsl/htrie_hash.h:2031-2081 | the blocks account for each key once |
| TrieSerial.BlocksCount | tsl/htrie_hash.h:2031-2081 | no block is empty, because no bucket is |
| TrieSerial.DecodeEncodeAll | tsl/htrie_hash.h:2031-2081 | the element-count loop consumes exactly the blocks that were written |
| TrieSerial.RoundTrip | tsl/htrie_hash.h:1936-2084 | reading back what was written gives the same tree, count, load factor and threshold, whatever follows in the input |
| TrieSerial.EncodeIs | tsl/htrie_hash.h:1954-1991 | a block is its node type, the length of its path, the characters of it, and the value or the bucket, in this order |
| TrieSerial.DecodeBlockIs | tsl/htrie_hash.h:2031-2077 | only what a block is written as is read as that block |
| TrieSerial.DecodeAllIs | tsl/htrie_hash.h:2031-2081 | reading goes as far as there are blocks that are due, and ends when the elements are complete or with the error of what comes next |
| TrieSerial.ReadIff | tsl/htrie_hash.h:2005-2084 | what is accepted is exactly a header of version 1, blocks that are all due and reach the announced number and make a tree, and any rest; tree, count, settings and rest are those |
| TrieSerial.ErrorsAre | tsl/htrie_hash.h:2014-2018 | a wrong version is reported if and only if the first token is a number other than 1, and an unknown node type if and only if one is due |
| TrieSerial.BlocksFromPositions | tsl/htrie_hash.h:1954-1991 | the walk of the serializer meets the blocks of the tree in order |
| TrieSerial.Serialize | tsl/htrie_hash.h:1936-1992 | the output is the header, load factor included, and the blocks of the tree |
| TrieSerial.InsertPrefixTrieNodes | tsl/htrie_hash.h:2086-2102 | creates the nodes on the way to a block, or reports a bucket in the way, without changing what is put in the end |
| TrieSerial.PutBlock | tsl/htrie_hash.h:2038-2077 | one block is put at its path |
| TrieSerial.Deserialize | tsl/htrie_hash.h:2005-2084 | for every input: success if and only if it is a header of version 1, due blocks that make a tree, and a rest, and then with that tree, count, settings and rest; the version error and the node type error exactly for their inputs |
| TrieSerial.CopyThroughStream | tsl/htrie_hash.h:1936-2084 | a trie written and read into an empty one is the same trie, with nothing left over |
| BtreeTree.MergeKeepsInOrder | parallel_hashmap/btree.h:2337-2365 | joining two siblings with the value between them keeps the values in order |
| BtreeTree.MergeKeepsPre | parallel_hashmap/btree.h:2337-2365 | and keeps what stands before every gap of both |
| BtreeTree.UpdateAt | parallel_hashmap/btree.h:1216-1220 | replacing a node replaces its stretch of the sequence and nothing else |
| BtreeShape.RightToLeftShifts | parallel_hashmap/btree.h:2171-2213 | `rebalance_right_to_left` only moves the boundary between two siblings, by to_move |
| BtreeShape.LeftToRightShifts | parallel_hashmap/btree.h:2215-2294 | the same for `rebalance_left_to_right` |
| BtreeShape.SplitMerges | parallel_hashmap/btree.h:2296-2335 | merging the halves of a split gives back the node |
| BtreeShape.ShiftSamePlace | parallel_hashmap/btree.h:2902-2960 | gaps with the same place in the joined pair are the same place of the sequence, and lead to the same child |
| BtreeShape.LeastSize | parallel_hashmap/btree.h:1882-1896 | a tree of uniform depth without empty nodes has at least 2^height - 1 values |
| BtreeMoves.ShiftAt | parallel_hashmap/btree.h:2902-2960 | a rebalancing below a node keeps order, gap, depth, capacity and non-emptiness of the whole tree |
| BtreeMoves.MergeBelow | parallel_hashmap/btree.h:2996-3005 | a merge does, except that the parent may be empty |
| BtreeMoves.SplitBelow | parallel_hashmap/btree.h:2978-2993 | a split does, except that the half with the gap may be empty |
| BtreeMoves.DropRoot | parallel_hashmap/btree.h:3062-3078 | an empty inner root has one child, which holds everything |
| BtreeMoves.InsertInLeaf | parallel_hashmap/btree.h:2125-2148 | a value put into a leaf gap stands at that rank, and the tree is in order again |
| BtreeMoves.RemoveFromLeaf | parallel_hashmap/btree.h:2150-2169 | a value taken out of a leaf is missing at its rank and nowhere else |
| BtreeWalk.RankIs | parallel_hashmap/btree.h:1508-1522 | the value of an iterator is the one at its rank |
| BtreeWalk.Increment | parallel_hashmap/btree.h:2415-2436 | `++` moves the rank by exactly one, or to the end |
| BtreeWalk.Decrement | parallel_hashmap/btree.h:2438-2459 | `--` moves it back by exactly one, from an inner node to the last value of a leaf; in front of all values it leaves the node and position -1 |
| BtreeWalk.Begin | parallel_hashmap/btree.h:1711-1716 | rank zero |
| BtreeWalk.End | parallel_hashmap/btree.h:1717-1720 | the end of the last leaf, behind all values |
| BtreeSearch.LinearSearch | parallel_hashmap/btree.h:1259-1270 | the first value of a node for which the test fails |
| BtreeSearch.BinarySearch | parallel_hashmap/btree.h:1291-1306 | the same by bisection |
| BtreeSearch.BinarySearchCompare | parallel_hashmap/btree.h:1308-1346 | with three-way comparison: the first value not less, or any equal one where keys are unique, and whether there is an equal one |
| BtreeSearch.CutIsFirstNot | parallel_hashmap/btree.h:1259-1306 | there is one such place, and the linear scan finds it |
| BtreeSearch.NarrowToChild | parallel_hashmap/btree.h:3136-3153 | the child chosen in an inner node holds the place searched for |
| BtreeSearch.Locate | parallel_hashmap/btree.h:3136-3153 | the descent ends at the rank that a linear scan of the whole sequence gives |
| BtreeSearch.InternalLast | parallel_hashmap/btree.h:3080-3093 | the value at that rank, or nothing at the end |
| BtreeRebalance.GiveLeft | parallel_hashmap/btree.h:2904-2931 | a full node gives values to its left sibling under the conditions of the code: order, rank and shape are kept and the insertion point has room |
| BtreeRebalance.GiveRight | parallel_hashmap/btree.h:2934-2959 | the same to the right |
| BtreeRebalance.SplitFull | parallel_hashmap/btree.h:2978-2993 | the same for a biased split |
| BtreeRebalance.ParentGotRoom | parallel_hashmap/btree.h:2961-2968 | making room in the parent takes the node along: it is child and position of the iterator that the recursion leaves |
| BtreeRebalance.TakeFromRight | parallel_hashmap/btree.h:3031-3041 | a node with too few values gets some from its right sibling; no node is empty then |
| BtreeRebalance.TakeFromLeft | parallel_hashmap/btree.h:3043-3056 | the same from the left |
| BtreeRebalance.Follows | parallel_hashmap/btree.h:2728-2742 | when a subtree moves, the iterators into it keep their rank |
| BtreeNode.BtreeNode.Leaf | parallel_hashmap/btree.h:1379-1388 | an empty leaf of its own arrays |
| BtreeNode.BtreeNode.Internal | parallel_hashmap/btree.h:1390-1396 | an inner node whose children are still to be set |
| BtreeNode.BtreeNode.Relink | parallel_hashmap/btree.h:1224-1227 | children put at a stretch of positions point back to the node and to their positions |
| BtreeNode.BtreeNode.EmplaceValue | parallel_hashmap/btree.h:2125-2148 | in place, in a leaf: its subtree becomes that of InsertValue |
| BtreeNode.BtreeNode.EmplaceInner | parallel_hashmap/btree.h:2125-2148 | in place, in an inner node: the value inserted, the children behind it one to the right with their new positions, and the child between left to be set |
| BtreeNode.BtreeNode.InsertChild | parallel_hashmap/btree.h:2324-2326 | with `init_child` then: the new child stands there, linked both ways, and all others are the old ones in order |
| BtreeNode.BtreeNode.RemoveValue | parallel_hashmap/btree.h:2150-2169 | in place: the value and the child behind it go, and the later children have their new positions |
| BtreeNode.BtreeNode.RebalanceRightToLeft | parallel_hashmap/btree.h:2171-2213 | in place: both siblings and the parent stay linked both ways, and the subtree of the parent becomes that of RightToLeft at the position of the node |
| BtreeNode.BtreeNode.RebalanceLeftToRight | parallel_hashmap/btree.h:2215-2294 | in place: the same for LeftToRight |
| BtreeNode.BtreeNode.Split | parallel_hashmap/btree.h:2296-2335 | in place: the subtree of the parent becomes that of SplitChild with the biased count; the new node is the next child, and all three are linked both ways |
| BtreeNode.BtreeNode.Merge | parallel_hashmap/btree.h:2337-2365 | in place: the subtree of the parent becomes that of MergeAt; the node and its parent are linked both ways |
| BtreeNode.BtreeNode.NotBelow | parallel_hashmap/btree.h:1224-1227 | linked siblings, their parent and their children are all different nodes |
| BtreeDense.ShareDense | parallel_hashmap/btree.h:2908-2959 | a full node at the edge gives its sibling the one value it has room for, and all off the edge stays packed |
| BtreeDense.SplitDense | parallel_hashmap/btree.h:2303-2312 | a full node at the edge is split so that all but the edge is packed |
| BtreeDense.EdgeTrans | parallel_hashmap/btree.h:2961-2968 | so it is all the way up |
| BtreeDense.OuterIsEdge | parallel_hashmap/btree.h:2908-2959 | the gap with nothing before it, or nothing behind it, is at the edge of each level |
| BtreeDense.GrownAtEdge | parallel_hashmap/btree.h:3095-3126 | an insertion before all values, or behind all, keeps all nodes off the first, or the last, path down packed |
| BtreeLeaves.MergeLeaves | parallel_hashmap/btree.h:2337-2365 | a merge of leaves takes one leaf away, a merge of inner nodes none |
| BtreeLeaves.SplitLeaves | parallel_hashmap/btree.h:2296-2335 | a split of a leaf adds one, a split of an inner node none |
| BtreeLeaves.ShareIff | parallel_hashmap/btree.h:2908-2959 | the conditions for sharing with a sibling come to room for two values, or for one unless the insertion is at the far side |
| BtreeLeaves.SharedLeft | parallel_hashmap/btree.h:2908-2931 | sharing with the left sibling ends with even siblings, or a full one for an insertion at the end |
| BtreeLeaves.SharedRight | parallel_hashmap/btree.h:2934-2959 | the same to the right |
| BtreeLeaves.TakenFromRight | parallel_hashmap/btree.h:3031-3041 | taking from a sibling ends with even siblings |
| BtreeLeaves.TakenFromLeft | parallel_hashmap/btree.h:3043-3056 | the same from the left |
| BtreeRebalance.LeftCount | parallel_hashmap/btree.h:2303-2312 | a split away from the ends leaves halves that differ by at most one |
| Btree.Btree.constructor | parallel_hashmap/btree.h:2515-2517 | an empty tree |
| Btree.Btree.RebalanceOrSplit | parallel_hashmap/btree.h:2895-2994 | the insertion point keeps its rank and gets room; uniform depth, capacity and non-emptiness hold everywhere but at that node; a leaf is added if and only if the node is one that cannot share; packed nodes stay packed at the edges |
| Btree.Btree.ShareWithSibling | parallel_hashmap/btree.h:2902-2960 | its first part: shares if and only if a sibling has the room, evenly or filling it up, and otherwise changes nothing |
| Btree.Btree.MakeRoomAbove | parallel_hashmap/btree.h:2961-2975 | its second part: room in the parent by recursion, or a new root |
| Btree.Btree.InternalEmplace | parallel_hashmap/btree.h:3095-3126 | the sequence is the old one with the value at the rank of the iterator, the result denotes it, and all nodes are in order, also for an inner iterator; the number of leaves changes exactly when a full leaf cannot share, the capacity of a small root leaf exactly when it is full; insertions at the edges keep packed nodes packed |
| Btree.Btree.TryMergeOrRebalance | parallel_hashmap/btree.h:3007-3059 | keeps order and rank; merges if and only if the node fits into one with a sibling; otherwise, if a sibling can give, ends even; without a merge no node is empty, after a merge at most the parent is |
| Btree.Btree.TryShrink | parallel_hashmap/btree.h:3061-3078 | an empty root goes without loss |
| Btree.Btree.RebalanceAfterDelete | parallel_hashmap/btree.h:2712-2750 | same sequence, all nodes in order, an iterator to the value after the removed one, and a leaf less if and only if the leaf is less than half full and fits into one with a sibling |
| Btree.Btree.Erase | parallel_hashmap/btree.h:2676-2709 | exactly the value of that rank is gone, and the result denotes the next rank or the end, also for an inner value; a leaf goes exactly when it merges |
| Btree.Btree.LowerBound | parallel_hashmap/btree.h:3175-3187 | the first value not less than the key |
| Btree.Btree.UpperBound | parallel_hashmap/btree.h:3189-3201 | the first value greater than the key |
| Btree.Btree.Find | parallel_hashmap/btree.h:3203-3218 | the first equal value if and only if there is one |
| Btree.Btree.InsertUnique | parallel_hashmap/btree.h:2524-2546 | inserts at the lower bound if and only if there is no equal value; a strictly increasing sequence stays one |
| Btree.Btree.InsertMulti | parallel_hashmap/btree.h:2584-2596 | inserts at the upper bound; the sequence stays sorted |
| Btree.Btree.EraseUnique | parallel_hashmap/btree.h:2831-2840 | removes the first equal value if there is one |
| Btree.Btree.SizeBound | parallel_hashmap/btree.h:1882-1896 | size is at least 2^height - 1 |
| BtreeSet.Run | parallel_hashmap/btree.h:2524-2546 | for every sequence of insertions, erasures and lookups from an empty tree the answers are those of a set, and in the end the values in order are its elements in increasing order |
| BtreeSet.InOneDirection | parallel_hashmap/btree.h:2303-2312 | values that come in ascending, or in descending, order leave all nodes off the last, or the first, path down with room for at most one value |
| LockUpgrade.SubIdxBelow | parallel_hashmap/phmap.h:3866-3868 | the index of a submap is below their number |
| LockUpgrade.SubIdxBit | parallel_hashmap/phmap.h:3866-3868 | bit j of the index is set if and only if the mask has it and an odd number of the bits j + 8, j + 16 and j + 24 of the hash are set |
| LockUpgrade.SubIdxXor | parallel_hashmap/phmap.h:3866-3868 | so the index is linear in the bits of the hash |
| LockUpgrade.ActKeeps | parallel_hashmap/phmap.h:3346-3370 | one step of one thread keeps flags, mutex and table in agreement, and changes a table only under the exclusive lock |
| LockUpgrade.StepKeepsInv | parallel_hashmap/phmap_base.h:4804-4891 | every step of every thread keeps the invariant of the whole system |
| LockUpgrade.EraseIsProtected | parallel_hashmap/phmap.h:3346-3370 | in every run, whenever a thread runs the callback of `erase_if` or erases, it is the only holder of the lock and its iterator denotes a slot with the key |
| LockUpgrade.ErasesBounded | parallel_hashmap/phmap.h:3346-3370 | in every run a key has been erased at most as often as inserted, and exactly as often if and only if it is absent |
| LockUpgrade.CallsEndAsTold | parallel_hashmap/phmap.h:3346-3370 | in every run, when a call of `erase_if` leaves: it has not called back and the key is not there; or it has, was told to keep the key, and the key is there; or was told to erase it, has done so once, and the key is not there; the result is true in the last case only; likewise for insertions and lookups |
| LockUpgrade.ErasedAsTold | parallel_hashmap/phmap.h:3362-3367 | in every run a key is erased only in a call for it whose callback has answered true and which has not erased before; steps that are neither that nor an insertion change no submap |
| LockUpgrade.RunHasMoves | parallel_hashmap/phmap.h:3346-3370 | every run is covered: it has the moves that the two statements before are about |
| LockUpgrade.ActCounts | parallel_hashmap/phmap.h:3346-3370 | one step of a call keeps it as far as its answers and searches allow |
| LockUpgrade.WaitsIff | parallel_hashmap/phmap_base.h:4804-4891 | a call waits for a shared lock exactly while another thread has it exclusively, and for an exclusive one exactly while another thread has it in any way |
| LockUpgrade.HeldTableIsStable | parallel_hashmap/phmap_base.h:4804-4891 | while a thread holds the lock of a submap in whatever way, no step of another thread changes that submap |
| LockUpgrade.FirstSearchGoesStale | parallel_hashmap/phmap.h:3354-3362 | wherever a thread that shares a lock alone is about to upgrade it, a second thread can take the key away first, so that the slot found is stale: the run is given |
| LockUpgrade.RaceIsReachable | parallel_hashmap/phmap.h:3354-3362 | and such a run exists from the empty set on: a key is inserted, found under the shared lock by one thread, and erased by another before the first has the exclusive lock |
| LockUpgrade.NoDeadlock | parallel_hashmap/phmap_base.h:4880-4885 | while a call is under way, some call can go on, also with upgrades waiting |
| JumpCache.Grid.JumpIs | jps/new/jps.cc:25-55 | the naive scan of a free cell is the only distance with free cells on the way, no forced neighbour strictly between, and a forced neighbour at its end or an obstacle behind it |
| JumpCache.Grid.JumpTo | jps/new/jps.cc:34-55 | all cells of a free run up to its stopping point share that stopping point |
| JumpCache.Grid.SweepRun | jps/new/jps.cc:34-55 | filling a run and sweeping on from its end is the sweep of the whole line |
| JumpCache.Grid.ForcedIs | jps/new/jps.cc:88-114 | a cell has a forced neighbour if and only if some free cell diagonally ahead is reached from the cell behind in two steps through it alone |
| JumpCache.Grid.NeighbourIs | jps/new/jps.cc:88-114 | such a cell is one of the two that the code looks at, under the conditions of the code |
| JumpCache.Jps.constructor | jps/new/jps.cc:12-16 | a grid without obstacles |
| JumpCache.Jps.SetObstacle | jps/new/jps.h:64-67 | one cell changes, if it is inside |
| JumpCache.Jps.FneigForced | jps/new/jps.cc:88-114 | `fneig` calls back exactly when there is a forced neighbour, and only with free cells |
| JumpCache.Jps.FneigIs | jps/new/jps.cc:88-114 | the calls of `fneig` are exactly the forced neighbours, each once and with the step to it as the direction |
| JumpCache.Jps.SetCache | jps/new/jps.h:72-78 | one distance of one cell changes |
| JumpCache.Jps.LineCache | jps/new/jps.cc:25-55 | terminates; every cell of the ray gets its jump distance for that direction and no other distance changes |
| JumpCache.Jps.LineCacheFree | jps/new/jps.cc:34-55 | the same from a free cell on |
| JumpCache.Jps.FillLine | jps/new/jps.cc:40-47 | the inner loop: the cells of a run get their distance to its last one |
| JumpCache.Jps.JpCache | jps/new/jps.cc:56-75 | afterwards each cell and cardinal direction holds what the naive scan gives, 0 for obstacles |
| JumpCache.CheckEndOnJump | jps/new/jps.cc:171-182 | the end test on a cached jump succeeds if and only if the goal is one of the cells jumped over, and then no obstacle lies before it |

## Left out

- Hash table: the tables of capacity 0 of custom allocators with a null control pointer (the default
  allocator's shared empty group is modelled), the per-table salt of H1, hash mixing, iterators over
  the table, node handles, moves, swaps and copies, the dump format, sanitizer calls. Masks with the
  capacity are written as remainders by capacity + 1. The counter wraps to 64 bits only where
  `rehash(0)` makes it wrap.
- SwissTable.Run: `reserve(0)` and `rehash(0)` only where the elements fit into the load limit of their
  own normalized number; what they do otherwise is stated by Rehash, Reserve, SearchEndsIff and Overfill.
- B-tree: inside `Btree` nodes are values and an iterator holds the path to its node. Parent pointers
  and positions are in `BtreeNode`, whose statements are about a single node operation; that the
  whole-tree operations of `Btree` run on that heap, and the leftmost and rightmost pointers, are not
  a separate statement.
- BtreeNode.BtreeNode.RebalanceLeftToRight: the two cases of the code that differ only in which slots
  have been constructed before are one. In this and the other moves, slots and child pointers behind the
  count keep what they held.
- Btree.Btree.InsertUnique: starts an empty tree at position 0 of the new root leaf without running the
  search on it.
- B-tree: hints, range insertion and range erasure, the three-way form of the descent, keys apart from
  values, copying, moving and allocation.
- HAT-trie: nodes are values named by paths; parent pointers and child characters are the path. A
  bucket is a list of entries with distinct keys that appends a new entry; the array hash itself is
  not part of this model. The load factor is a setting that is kept, written and read; it has no effect
  on a list. Exceptions during a burst, and the variant of burst that moves values are left out.
- TrieSerial.Deserialize: input is a list of numbers, characters, values without references, and whole
  buckets; the bytes of the user's serializer, hash incompatibility and numeric overflow are not modelled.
- Lock upgrade: each search, callback and table change is one step; HeldTableIsStable is what justifies
  that. Values apart from keys, operations over several submaps, fairness and clearing are left out.
- Jump cache: coordinates are unbounded integers, which the 16-bit ones are within the grid; the search
  with its open and closed lists and the path are left out.
