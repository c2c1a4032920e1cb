# nghttp3 containers: a Dafny model

This project models three pieces of nghttp3 and proves properties about them. The model is written in Dafny.

- **`nghttp3_map`** (`lib/nghttp3_map.c`). An open-addressing hash table from 64-bit integer keys to non-null pointers. It uses Robin Hood probing with a per-entry probe sequence length (psl), a seeded Fibonacci hash, a 7/8 load factor that doubles the table, and backward-shift deletion. The model is the class `NghttpMap.Map`:
  - Its three slot arrays are Dafny `array`s, updated in place as the C code does.
  - Its meaning is the ghost map `Contents` plus the ghost slot index `Pos` of every key.
  - The table invariant `MapTable.TableOk` gathers four things: every stored psl is the distance from the key's home slot plus one; the Robin Hood ordering; the key/slot correspondence; and the entry count.
- **`nghttp3_ksl`** (`lib/nghttp3_ksl.c`). The "key skip list", a B+-tree whose leaves form a chain.
  - Blocks are modelled as values (`KslTree.Blk`). A block holds up to MAX_NBLK = 31 entries or child nodes; every block except the head holds at least MIN_NBLK = 15.
  - Every tree function's contract relates it to the list's in-order entry sequence, `Elems`. The insert, remove and update descents are recursive functions over blocks, and their contracts are proved against the abstract sorted-sequence operations `KslSpec.Ins`, `KslSpec.Del` and `KslUpdate.Rekeyed`.
  - The class `KslList.Ksl` holds the head block and the count `n`, as `nghttp3_ksl` does. An iterator is a leaf index and an offset into the leaf chain; `KslIt.ItAt` relates iterators to positions in the sequence.
  - The comparators are modelled in `KslCompar`.
- **`genpathchartbl.py`**. The generator of the table that says which bytes may appear in an HTTP `:path`. `PathChar.GenTable` is the script's loop. It is proved to write one entry per byte, with a newline after every fourth entry. The accepted set is proved equal to RFC 3986's characters for the path and query components: unreserved, sub-delims, `/`, `?`, `:`, `@` and `%`.

Error codes are in `NghttpErr` (`ERR_INVALID_ARGUMENT`, `ERR_NOMEM`).

Node keys are upper bounds, not exact last keys. The insertion code sets an internal node's key to the last key of its child (lib/nghttp3_ksl.c:201-203, 239-243 and 331). `nghttp3_ksl_remove` (lib/nghttp3_ksl.c:583-601) deletes leaf entries without rewriting the keys above them. The lower-bound search allows for this: when a node key is at or above the key but its child holds only smaller keys, it fast-forwards to the last leaf of that subtree and continues at the start of the next leaf, or at the end when there is none (lib/nghttp3_ksl.c:669-684). The model follows the code: a node's key is an upper bound of its child's keys and lies below every key of the next child (`KslTree.NodeOk`, `KslTree.Linked`).

## Model

| member | source | states |
|---|---|---|
| MapHash.MapIndex | lib/nghttp3_map.c:86-90 | the home slot of a key lies inside a table of `2^hashbits` slots |
| MapHash.MapIndexIsTopBits | lib/nghttp3_map.c:89 | bit `j` of the home slot is bit `64 - hashbits + j` of the wrapped product, for every `j < hashbits`, and the home slot has no bit at or above `hashbits`: the right shift keeps exactly the top `hashbits` bits |
| MapHash.Mix | lib/nghttp3_map.c:81-89 | the seeded key multiplied by HASHER and FIBO with `uint64_t` wrap-around after each step; the value is a 64-bit word |
| MapTable.ThresholdGrows | lib/nghttp3_map.c:231-239 | growing to the next hashbits (4 from an empty map) raises the load threshold, the new threshold fits the new table, and a non-empty table's threshold is below its capacity |
| MapTable.ThresholdBelowCapacity | lib/nghttp3_map.c:233-235 | the 7/8 threshold `tablelen - tablelen / 8` is below `tablelen`, so a table never fills up |
| MapTable.VisitContents | lib/nghttp3_map.c:64-75 | the scan over the occupied slots returns 0 exactly when the callback returns 0 for every stored value; otherwise it returns the nonzero result for some stored value |
| MapTable.Cleared | lib/nghttp3_map.c:322-329 | a table with every psl zeroed is a valid empty table, whatever its keys and data arrays hold |
| MapTable.ProbeHit | lib/nghttp3_map.c:267-268 | an occupied slot holding the key gives that key's stored value and position |
| MapTable.Absent | lib/nghttp3_map.c:263-264 | the early exit is sound: once the probe distance exceeds the slot's psl, the key is not in the table (the Robin Hood property) |
| NghttpMap.Map.constructor | lib/nghttp3_map.c:37-42 | a new map has the seed, hashbits 0, no entries and an empty table |
| NghttpMap.Map.NewTable | lib/nghttp3_map.c:177-189 | a zero-filled table of `2^hashbits` slots is a valid empty table |
| NghttpMap.Map.SetEntry | lib/nghttp3_map.c:117-122 | slot `idx` of the three arrays takes the key, data and psl, and nothing else changes |
| NghttpMap.Map.Size | lib/nghttp3_map.c:331 | the count equals the number of stored keys |
| NghttpMap.Map.InsertEntry | lib/nghttp3_map.c:132-163 | inserts `key -> data` exactly when the key is absent, incrementing the size; a duplicate key returns `ERR_INVALID_ARGUMENT` and leaves all three arrays untouched |
| NghttpMap.Map.Probe | lib/nghttp3_map.c:138-162 | the Robin Hood probe loop, with stealing swaps, keeps the table invariant and adds exactly the new key; a duplicate leaves the arrays unchanged |
| NghttpMap.Map.Find | lib/nghttp3_map.c:250-274 | returns the stored value for a present key and NULL for an absent one, including on an empty map |
| NghttpMap.Map.Lookup | lib/nghttp3_map.c:259-273 | the probe loop finds the key exactly when it is stored, at its recorded slot |
| NghttpMap.Map.Remove | lib/nghttp3_map.c:276-320 | removes the key exactly when it is present, decrementing the size; otherwise returns `ERR_INVALID_ARGUMENT` and changes nothing |
| NghttpMap.Map.RemoveEntry | lib/nghttp3_map.c:286-319 | the search-then-shift keeps the table invariant for the map without the key |
| NghttpMap.Map.ShiftBack | lib/nghttp3_map.c:294-314 | the backward shift after the removed slot yields a valid table for the contents without the key |
| NghttpMap.Map.MoveBack | lib/nghttp3_map.c:305-309 | one shift step moves the next entry into the hole with its psl decreased by one; the hole advances and the distance to the end of the run decreases |
| NghttpMap.Map.EmptyHole | lib/nghttp3_map.c:299-303 | when the next slot is empty or at its home, zeroing the hole's psl completes a valid table |
| NghttpMap.Map.Each | lib/nghttp3_map.c:52-76 | returns 0 exactly when the callback returns 0 for every stored value; otherwise it returns a nonzero callback result for some stored value |
| NghttpMap.Map.Clear | lib/nghttp3_map.c:322-329 | the map becomes empty with size 0; the keys and data arrays are not touched |
| NghttpMap.Map.ZeroPsl | lib/nghttp3_map.c:327 | every psl becomes zero |
| NghttpMap.Map.Resize | lib/nghttp3_map.c:165-214 | on allocation failure returns `ERR_NOMEM` with the map unchanged; otherwise switches to fresh arrays of `2^newHashbits` slots with the same contents and size |
| NghttpMap.Map.Rehash | lib/nghttp3_map.c:191-205 | reinserting every occupied slot into an empty larger table yields a valid table with the same contents |
| NghttpMap.Map.CopySlots | lib/nghttp3_map.c:194-204 | the copy loop over all old slots rebuilds the whole contents in the new table |
| NghttpMap.Map.CopySlot | lib/nghttp3_map.c:195-203 | copying one old slot extends the part of the contents rebuilt so far by that slot's entry |
| NghttpMap.Map.Insert | lib/nghttp3_map.c:221-248 | returns `ERR_NOMEM` exactly when the load threshold is reached and growth either exceeds MAX_HASHBITS or fails to allocate; otherwise `ERR_INVALID_ARGUMENT` exactly for a present key; success adds `key -> data` and increments the size; every error leaves contents and size unchanged; unless the result is `ERR_NOMEM`, hashbits afterwards is `NewHashbits(old hashbits)` when the threshold was reached (so a duplicate can follow a resize) and the old hashbits otherwise; `ERR_NOMEM` leaves hashbits and all three arrays unchanged |
| NghttpMap.Map.Grow | lib/nghttp3_map.c:235-245 | at the load threshold, returns `ERR_NOMEM` exactly when the next hashbits exceeds MAX_HASHBITS or the allocation fails, leaving hashbits and the arrays unchanged; otherwise moves the same contents to fresh arrays of `NewHashbits(hashbits)` bits with room for one more entry |
| KslSpec.Rank | lib/nghttp3_ksl.c:656 | the lower-bound index of a key: every entry before it is smaller, and the entry at it (if any) is not smaller |
| KslSpec.RankUnique | lib/nghttp3_ksl.c:656 | any index with the lower-bound property is the rank |
| KslSpec.HasKeyRank | lib/nghttp3_ksl.c:583-589 | in a sorted sequence, a key is present exactly when the entry at its rank carries it |
| KslSpec.InsSorted | lib/nghttp3_ksl.c:297-314 | inserting an absent key at its rank keeps the sequence sorted, adds one entry, places the entry at the rank, and adds exactly that key to the key set |
| KslSpec.DelSorted | lib/nghttp3_ksl.c:583-601 | deleting a present key keeps the sequence sorted, removes one entry, and removes exactly that key from the key set |
| KslSpec.DelOrder | lib/nghttp3_ksl.c:599 | deleting the entry at a key's rank keeps a sorted sequence sorted |
| KslTree.TreeSorted | lib/nghttp3_ksl.c:297-306 | the entries of a valid block are sorted and bounded by its last key; a non-head block is non-empty |
| KslTree.TreeSized | lib/nghttp3_ksl.c:604-611 | a valid block respects the MIN_NBLK and MAX_NBLK bounds at every level, the bound the removal descent asserts for the child it reaches |
| KslBlk.Search | lib/nghttp3_ksl.c:297 | the lower-bound search of a block: node keys before the result are smaller than the key, and the one at it is not |
| KslBlk.SearchLeaf | lib/nghttp3_ksl.c:297-300 | in a leaf, the search index is the rank of the key among the leaf's entries |
| KslBlk.SearchChild | lib/nghttp3_ksl.c:344-360 | the child chosen by the search holds every entry of the block that could equal the key; when no child is chosen, every entry is smaller |
| KslBlk.SplitBlk | lib/nghttp3_ksl.c:139-171 | splitting moves the trailing `n / 2` nodes to a new right block; the halves concatenate back to the block and each holds at least MIN_NBLK |
| KslBlk.SplitBlkOk | lib/nghttp3_ksl.c:139-171 | both halves are valid blocks whose entries concatenate to the original's; the right half lies above the left half's last key and keeps the original's last key |
| KslBlk.SplitNode | lib/nghttp3_ksl.c:184-206 | splitting child `i` adds one node |
| KslBlk.SplitNodeOk | lib/nghttp3_ksl.c:184-206 | the split keeps the block ordered with the same entries; the two new children concatenate to the old child; the left node is keyed by its last key; the other nodes are unchanged |
| KslBlk.SplitHead | lib/nghttp3_ksl.c:218-248 | splitting the head gives a new head with two nodes |
| KslBlk.SplitHeadOk | lib/nghttp3_ksl.c:218-248 | the new head is a valid head one level taller, with the same entries and last key |
| KslBlk.InsertNode | lib/nghttp3_ksl.c:256-271 | inserting at index `i` shifts the later entries up by one and places the entry at `i` |
| KslBlk.InsertNodeIns | lib/nghttp3_ksl.c:256-271 | inserting at the key's rank is the abstract sorted insert |
| KslBlk.RemoveNode | lib/nghttp3_ksl.c:370-379 | removing index `i` shifts the later keys down by one |
| KslBlk.RemoveNodeDel | lib/nghttp3_ksl.c:370-379 | removing at the key's rank is the abstract delete |
| KslBlk.MergeNode | lib/nghttp3_ksl.c:391-431 | merging two children removes one node, or, when the head has two children, the merged block replaces the head |
| KslBlk.MergeNodeOk | lib/nghttp3_ksl.c:391-431 | the merge keeps the entries; merging the head's two children lowers the height by one; otherwise the block stays valid, its other nodes are unchanged and its last key does not grow |
| KslBlk.ShiftLeft | lib/nghttp3_ksl.c:438-474 | moving nodes from child `i` to child `i - 1` keeps the node count |
| KslBlk.ShiftLeftOk | lib/nghttp3_ksl.c:438-474 | the shift keeps the order, the entries and the last key; it leaves `(total + 1) / 2` nodes on the left and the rest on the right, and changes no other node |
| KslBlk.ShiftRight | lib/nghttp3_ksl.c:481-517 | moving nodes from child `i` to child `i + 1` keeps the node count |
| KslBlk.ShiftRightOk | lib/nghttp3_ksl.c:481-517 | the shift keeps the order, the entries and the last key; it leaves `(total + 1) / 2` nodes on the right and the rest on the left, and changes no other node |
| KslInsert.InsertBlkOk | lib/nghttp3_ksl.c:294-363 | the insertion descent keeps the block valid; it reports success exactly when the key was absent; the entries become the abstract insert on success and are unchanged otherwise; the last key becomes the new key or does not grow |
| KslInsert.InsertLeafOk | lib/nghttp3_ksl.c:297-314 | insertion into a leaf: the same guarantees at height 0, with the duplicate check of lines 300-306 |
| KslInsert.InsertLastOk | lib/nghttp3_ksl.c:316-342 | a key above every node key descends to the last child; the largest key is extended along the way |
| KslInsert.ExtendLastOk | lib/nghttp3_ksl.c:316-342 | appending a key larger than every entry keeps the block valid and makes it the last key |
| KslInsert.InsertChildOk | lib/nghttp3_ksl.c:344-362 | descending into the chosen child, after splitting it if full, meets the insertion guarantees |
| KslInsert.Room | lib/nghttp3_ksl.c:347-359 | a full child is split, so that both halves have room; a child with room is left alone |
| KslInsert.RoomSplitOk | lib/nghttp3_ksl.c:347-359 | the split on the way down keeps the block valid with the same entries |
| KslInsert.Descend | lib/nghttp3_ksl.c:344-361 | the descent step picks a child with room |
| KslInsert.DescendOk | lib/nghttp3_ksl.c:344-361 | after the split, the chosen child still holds every entry of the block that could equal the key |
| KslRemove.RemoveBlkOk | lib/nghttp3_ksl.c:570-635 | the removal descent keeps the block valid; it reports success exactly when the key was present; the entries become the abstract delete on success and are unchanged otherwise; a non-head block's last key does not grow |
| KslRemove.PremergeOk | lib/nghttp3_ksl.c:564-569 | merging the head's two minimal children gives a valid head with the same entries |
| KslRemove.RemoveMissOk | lib/nghttp3_ksl.c:573-580 | a key above every node key is reported missing with nothing changed |
| KslRemove.RemoveLeafOk | lib/nghttp3_ksl.c:582-601 | removal in a leaf deletes the key exactly when the entry found carries it |
| KslRemove.RemoveBranchOk | lib/nghttp3_ksl.c:603-635 | removal below an internal block (descend, borrow or merge) meets the removal guarantees |
| KslRemove.BorrowRightOk | lib/nghttp3_ksl.c:612-617 | shifting from the right sibling of a minimal child, then descending, meets the removal guarantees |
| KslRemove.BorrowLeftOk | lib/nghttp3_ksl.c:619-624 | shifting from the left sibling of a minimal child, then descending, meets the removal guarantees |
| KslRemove.MergeDownOk | lib/nghttp3_ksl.c:626-635 | merging a minimal child with a minimal sibling, then descending, meets the removal guarantees |
| KslRemove.DownOk | lib/nghttp3_ksl.c:605-608 | descending into a child above MIN_NBLK meets the removal guarantees |
| KslRemove.RemoveAtOk | lib/nghttp3_ksl.c:539-541 | removing an entry from a leaf that holds more than MIN_NBLK keeps the tree valid and deletes exactly the entry at that position |
| KslRemove.Locate | lib/nghttp3_ksl.c:531 | finds the child subtree that holds a given leaf of the chain |
| KslUpdate.UpdateKeyOk | lib/nghttp3_ksl.c:691-721 | the update descent keeps the block valid; the old key's entry now carries the new key with its data; the last key grows at most to the new key |
| KslUpdate.UpdateLeafOk | lib/nghttp3_ksl.c:707-712 | in a leaf, the update rewrites the found entry's key |
| KslUpdate.UpdateBranchOk | lib/nghttp3_ksl.c:714-719 | raising a node key when it equals the old key or is below the new key keeps the block valid |
| KslUpdate.Rekeyed | lib/nghttp3_ksl.c:49-52 | replacing the key at position `p` keeps its data and every other entry |
| KslIt.ItAtEnd | lib/nghttp3_ksl.c:784-794 | the iterator at the position past the last entry is `end`: the back leaf at its length |
| KslIt.ItAtBegin | lib/nghttp3_ksl.c:814-816 | `it_begin` holds for the iterator at position `p` exactly when `p` is 0 |
| KslIt.PrevItAt | lib/nghttp3_ksl.c:803-812 | `it_prev` on the iterator at position `p > 0` gives the iterator at `p - 1`, stepping to the previous leaf's last entry from offset 0 |
| KslIt.ItAtGet | lib/nghttp3_ksl.c:796-801 | the iterator at position `p` designates the `p`-th entry of the chain |
| KslIt.ItAtPosition | lib/nghttp3_ksl.c:796-801 | every iterator at an entry is the iterator of its position |
| KslIt.TreeLeaves | lib/nghttp3_ksl.c:658-662 | a valid tree has a non-empty leaf chain, and its leaves are non-empty unless the head is a single leaf |
| KslList.Ksl.constructor | lib/nghttp3_ksl.c:54-74 | a new list has no head, count 0 and no entries |
| KslList.Ksl.LeafChain | lib/nghttp3_ksl.c:772-794 | the chain from `front` to `back` concatenates to the list's entries, and every leaf is non-empty unless it is the only one |
| KslList.Ksl.ValidSorted | lib/nghttp3_ksl.c:643-689 | the entries of a valid list are sorted by key |
| KslList.Ksl.Insert | lib/nghttp3_ksl.c:273-364 | succeeds exactly when the key is absent: the entries gain the entry at its rank, `n` grows by one, and the iterator designates the new entry; otherwise it returns `ERR_INVALID_ARGUMENT`, with the contents and `n` unchanged and the iterator at end |
| KslList.Ksl.Remove | lib/nghttp3_ksl.c:554-636 | succeeds exactly when the key is present: the entries lose it, `n` drops by one, and the iterator is at the removed entry's position; otherwise it returns `ERR_INVALID_ARGUMENT` with nothing changed and, if the list is non-empty, the iterator at end |
| KslList.Ksl.RemoveHint | lib/nghttp3_ksl.c:528-552 | from a leaf above MIN_NBLK, removes exactly the hinted entry; from a smaller leaf, behaves as `Remove(key)`, including its iterator (at the key's rank on success, end otherwise); when the hint designates `key`, the result is `Del(key)` with the iterator at the key's rank either way |
| KslList.Ksl.LowerBound | lib/nghttp3_ksl.c:638-689 | returns the iterator at the key's rank: it designates the first entry not below the key, or is `end` when there is none, including on an empty list |
| KslList.Ksl.Walk | lib/nghttp3_ksl.c:655-688 | the search loop reaches the leaf and offset whose chain position is the key's rank |
| KslList.Ksl.SearchDown | lib/nghttp3_ksl.c:655-687 | the descent loop keeps the reached block inside the chain and its chain offset plus the key's rank within the block equal to the key's rank in the list; it stops at a leaf or at an internal block whose node keys are all below the key |
| KslList.Ksl.LastLeaf | lib/nghttp3_ksl.c:672-673 | the fast-forward loop reaches the subtree's last leaf, whose end is the subtree's last chain position |
| KslList.Ksl.UpdateKey | lib/nghttp3_ksl.c:691-721 | the entry of `oldKey` now carries `newKey` with its data; `n` and the other entries are unchanged |
| KslList.Ksl.Len | lib/nghttp3_ksl.c:723 | `n` equals the number of entries |
| KslList.Ksl.Clear | lib/nghttp3_ksl.c:725-738 | the list becomes empty, with no head and count 0 |
| KslList.Ksl.Begin | lib/nghttp3_ksl.c:772-782 | the iterator at position 0: it satisfies `it_begin` and designates the first entry when there is one |
| KslList.Ksl.End | lib/nghttp3_ksl.c:784-794 | the iterator one past the last entry |
| KslList.HintOk | lib/nghttp3_ksl.c:528-552 | a hint that designates `key` is at the key's rank, and removing there is `Del(key)` |
| KslList.WithoutDel | lib/nghttp3_ksl.c:539-541 | removing the position of a key in a sorted sequence is deleting that key |
| KslList.LowerBoundIt | lib/nghttp3_ksl.c:658-684 | moving the leaf end to the start of the next leaf gives the iterator at the rank; it designates the entry there or is `end` |
| KslCompar.RangeExclusiveComparIff | lib/nghttp3_ksl.c:831-836 | `range_exclusive_compar(a, b)` holds exactly when `a.begin < b.begin` and the ranges do not overlap; for a non-empty `b`, exactly when `a` ends at or before `b.begin` |
| KslCompar.RangeExclusiveEqual | lib/nghttp3_ksl.c:523-526 | under `key_equal`, two ranges are equivalent exactly when they start together or overlap |
| KslCompar.RangeExclusiveNotTransitive | lib/nghttp3_ksl.c:831-836 | equivalence under `range_exclusive_compar` is not transitive: [0,2) and [1,3) are equivalent, [1,3) and [2,4) are equivalent, yet [0,2) is less than [2,4) |
| KslCompar.OverlapIff | lib/nghttp3_ksl.c:834-835 | the `max(begin) < min(end)` test is exactly the overlap of half-open ranges |
| KslCompar.RangeComparEqual | lib/nghttp3_ksl.c:818-822 | under `range_compar`, ranges are equivalent exactly when their begins are equal |
| KslCompar.RangeComparOrder | lib/nghttp3_ksl.c:818-822 | `range_compar` is irreflexive and transitive, and its equivalence is transitive |
| KslCompar.Uint64LessOrder | lib/nghttp3_ksl.c:846-849 | `uint64_less` is a strict order whose equivalence is equality |
| KslCompar.Int64GreaterOrder | lib/nghttp3_ksl.c:859-862 | `int64_greater` is a strict order whose equivalence is equality |
| KslCompar.Int64GreaterReverses | lib/nghttp3_ksl.c:859-862 | `int64_greater` is the signed order reversed |
| PathChar.Name | genpathchartbl.py:4-13 | a four-character label exists exactly for bytes up to 0x20 and for 0x7f; 0x20 is `SPC ` |
| PathChar.GenTable | genpathchartbl.py:15-32 | writes 256 entries and 64 newlines, with byte `j`'s entry at `j + j / 4` and a newline after every fourth entry |
| PathChar.TableStep | genpathchartbl.py:24-32 | one loop iteration extends the table output by the entry for byte `i` and, when `i + 1` is a multiple of 4, by a newline |
| PathChar.AcceptedIsRfc3986 | genpathchartbl.py:16-24 | a byte's entry is 1 exactly when it is an RFC 3986 path-or-query character (unreserved, sub-delims, `:`, `@`, `/`, `?`) or `%` |
| PathChar.AlnumAccepted | genpathchartbl.py:16-17 | letters and digits get 1, labelled by the character itself |
| PathChar.PunctuationSplit | genpathchartbl.py:18-30 | printable punctuation gets 1 exactly when listed, and 0 exactly when it is one of the twelve excluded characters; both are labelled by the character |
| PathChar.PunctMembers | genpathchartbl.py:18-23 | the accepted punctuation is exactly the twenty listed characters |
| PathChar.PunctRejectedDisjoint | genpathchartbl.py:18-30 | no excluded character is among the accepted ones |
| PathChar.HighBytesRejected | genpathchartbl.py:25-26 | bytes of 0x80 and above get 0, labelled in hexadecimal |
| PathChar.ControlBytesRejected | genpathchartbl.py:27-28 | control bytes, space and DEL get 0, labelled by their four-character name |
| PathChar.EntriesAreBits | genpathchartbl.py:24-30 | every entry is 0 or 1 |

## Left out

- Memory management is not modelled: `nghttp3_map_free`, `ksl_free_blk`, `nghttp3_ksl_free`, `objalloc`/`nghttp3_objalloc_clear` and the memory allocator. A map resize allocates three separate Dafny arrays; the C code carves the keys, data and psl arrays out of one calloc'd buffer, and that layout is not captured.
- NghttpMap.Map.Resize and NghttpMap.Map.Insert: allocation failure is the boolean parameter `allocFails` instead of a call into the allocator.
- KSL allocation failure is not modelled. The block allocations in `ksl_split_blk`, `ksl_split_head` and the head creation at lib/nghttp3_ksl.c:280-292 are treated as always succeeding, so the `ERR_NOMEM` returns of `nghttp3_ksl_insert` are absent.
- NghttpMap.Map.SetEntry: psl is an unbounded `nat`. The `(uint8_t)` truncation at lib/nghttp3_map.c:121 is not modelled, so the contracts describe the source only while every psl stays at most 255.
- `size_t` is taken to be 64 bits, so MAX_HASHBITS is 63.
- Debug printing (`nghttp3_map_print_distance`, `ksl_print`) is not modelled; it only writes to stderr.
- KSL blocks are immutable values rather than heap objects. The `prev`/`next` leaf links, `front`/`back` and block identity are represented by a leaf's index in `Leaves(head)`. Aliasing between an iterator and the list is therefore not modelled, and an iterator stays meaningful only as a leaf index and offset.
- KSL keys are mathematical integers stored with pointer data, under the fixed comparator `<`. The opaque, `keylen`-sized keys, `aligned_keylen`, `ksl_blklen` and the `memcpy` in `ksl_set_nth_key` are not modelled. The four comparators are modelled on their own in `KslCompar`, with the order facts a B+-tree needs.
- The `nghttp3_ksl_search_def` functions and the `*_search` wrappers (lib/nghttp3_ksl.c:824-870) are not modelled; they come from a header that is not part of this model. `KslBlk.Search` stands for lower-bound search under `<`, and `nghttp3_ksl_lower_bound_search` is modelled only with that search.
- The descent loops of insert, remove and update are modelled as recursive functions over blocks. The lower-bound descent and the fast-forward loop are `while` loops (`Walk`, `LastLeaf`).
- `nghttp3_ksl_it_prev`, `nghttp3_ksl_it_begin`, `nghttp3_ksl_begin` and `nghttp3_ksl_end` are pure functions over the leaf chain (`KslIt.Prev`, `KslIt.IsBegin`, `KslIt.Begin`, `KslIt.End`). `nghttp3_ksl_it_init` is the `It` constructor.
- KslList.Ksl.Remove: when the list has no head, the source leaves `*it` unset, so the model says nothing about the returned iterator.
- KslList.Ksl.UpdateKey, KslUpdate.UpdateKeyOk, KslUpdate.UpdateLeafOk and KslUpdate.UpdateBranchOk require `oldKey <= newKey` and that `newKey` stays below the successor of `oldKey`. A smaller new key that stays above the predecessor is not covered. In this model, as in the code, a node key is only an upper bound of its child, so the previous node's key can lie between the predecessor and `oldKey`. A smaller new key at or below that node key puts the entry below the separator that should bound it from below. Once that happens a later search for the key descends into the previous child, and `nghttp3_ksl_remove` of the key can report it missing when that child holds more than MIN_NBLK entries, so that no merge or shift moves the entry back first. For example, take leaves A = 1..17 and B = 20..34. Remove 17, so A keeps 16 entries under node key 17. Then update_key(20 -> 17). A later `nghttp3_ksl_remove(17)` descends into A and returns `ERR_INVALID_ARGUMENT` (lib/nghttp3_ksl.c:573-579), although 17 is stored. The tree invariant does not hold for that case, so it is left out.
- NghttpMap.Map.Each: the callback is a pure function `(data, ptr) -> int`. The C callback may have effects through `ptr`. The model therefore says nothing about how many times it is called or in which order, nor that it is not called after the first nonzero result (lib/nghttp3_map.c:64-73). Only the returned value is specified.
- KslList.Ksl.RemoveHint requires the hint to designate an entry of the list, which the source assumes but does not check.
- NghttpMap.Map.Insert and NghttpMap.Map.InsertEntry require a non-NULL value, matching the `assert(data)` at lib/nghttp3_map.c:226.
- PathChar.GenTable: the output is a sequence of tokens (an entry's bit and the kind of its comment), not the exact characters written to stdout. The comment padding is not modelled.
