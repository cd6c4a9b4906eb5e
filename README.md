# Redis dict, adlist and quicklist in Dafny

This project models three in-memory containers of Redis 6.2.6 and proves their
contracts.

- **The dictionary** (`dict.c`, `dict.h`) is a chained hash table. Its bucket
  counts are powers of two. It holds two tables, `ht[0]` and `ht[1]`, and moves
  entries from the first to the second a few buckets at a time (incremental
  rehashing), steered by `rehashidx`. A `pauserehash` counter stops rehashing
  while iterators or scans run. `dictScan` walks it with a reverse-binary cursor.
- **The doubly linked list** (`adlist.c`) keeps `head`, `tail` and `len` in step
  with a chain of nodes.
- **The quicklist** (`quicklist.c`) is a doubly linked list of nodes, each
  holding a ziplist chunk of entries. The fill rules govern its node splits. It
  also keeps named bookmarks on nodes.

Files:

- `bits.dfy` (module `Bits`): 64-bit words as naturals below 2^64, bit
  reversal, the masks, and the scan cursor arithmetic.
- `dict_table.dfy` (module `DictTable`): entries, the dictionary type with its
  callbacks, one hash table (`dictht`), `_dictNextPower`, and the multiset of
  the entries a table holds.
- `dict.dfy` (module `Dict`): the class `Dict` with both tables, expansion,
  rehashing, add, replace, find, delete and clearing.
- `dict_scan.dfy` (module `DictScan`): `dictScan`.
- `dict_iter.dfy` (module `DictIter`): the safe and unsafe iterators.
- `adlist.dfy` (module `Adlist`): the classes `ListNode`, `List` and `ListIter`.
- `quicklist.dfy` (module `Quicklist`): the fill rules, bookmarks as values, and
  the class `Quicklist`.

How each structure is represented:

- **Dictionary.** Each table is an `array<seq<Entry>>`: bucket `i` holds its
  chain from head to tail. `Contents()` is the multiset of all entries of both
  tables, and `Valid()` states the invariants:
  - the sizes are powers of two and `sizemask == size - 1`;
  - every entry sits in the bucket its hash selects;
  - `used` counts the entries;
  - outside a rehash `ht[1]` is reset;
  - during a rehash the buckets of `ht[0]` below `rehashidx` are empty.
- **Linked list.** A `List` is the C pointer structure, with a ghost sequence
  `nodes` and their values `Contents`. The callback that frees values is
  observable through a ghost log `Freed`.
- **Quicklist.** A `Quicklist` holds its nodes as a sequence of `Node` values,
  in list order. Each node carries:
  - its identity;
  - its ziplist, modelled as a sequence of `Elem`;
  - its `count` and its byte size `sz`.

  `Contents()` is the concatenation of the node ziplists. `Valid()` ties
  `count` and `len` to the nodes and keeps every bookmark on a live node.

## Model

| member | source | states |
|---|---|---|
| Bits.ReverseInvolution | redis/redis-6.2.6-annotation/src/dict.c:1080-1095 | reversing the low w bits twice gives back v mod 2^w |
| Bits.RevInvolution | redis/redis-6.2.6-annotation/src/dict.c:1080-1095 | `rev` is an involution on 64-bit words |
| Bits.CursorStepCounter | redis/redis-6.2.6-annotation/src/dict.c:1283-1291 | `v \|= ~m; v = rev(v); v++; v = rev(v)` for a mask of k bits is a reversed counter: reverse the low k bits, add one modulo 2^k, reverse back |
| Bits.CursorIsReversedCount | redis/redis-6.2.6-annotation/src/dict.c:1283-1291 | the i-th cursor a scan from 0 returns is i with its low k bits reversed |
| Bits.CursorDistinct | redis/redis-6.2.6-annotation/src/dict.c:1283-1291 | the first 2^k cursors of a scan over 2^k buckets are pairwise distinct bucket indices |
| Bits.CursorReaches | redis/redis-6.2.6-annotation/src/dict.c:1283-1291 | every bucket b is the cursor after reverse(b) steps |
| Bits.CursorWraps | redis/redis-6.2.6-annotation/src/dict.c:1283-1291 | after 2^k steps the cursor is back to 0, the value that ends a full scan |
| Bits.CursorPermutation | redis/redis-6.2.6-annotation/src/dict.c:1241-1352 | over a table of 2^k buckets the scan cursors from 0 visit every bucket exactly once, then return 0 |
| Bits.ExpansionZeroIff | redis/redis-6.2.6-annotation/src/dict.c:1345 | the index of v among its expansions into the larger table is 0 exactly when bits j..k-1 of v are clear |
| Bits.ScanStopIff | redis/redis-6.2.6-annotation/src/dict.c:1345 | the loop test `v & (m0 ^ m1)` is zero exactly when the reversed cursor has wrapped its low k-j bits |
| Bits.ExpansionEnd | redis/redis-6.2.6-annotation/src/dict.c:1323-1345 | after the last expansion the cursor equals one step of the small-table cursor |
| DictTable.NextPower | redis/redis-6.2.6-annotation/src/dict.c:1400-1410 | a power of two of at least 4; for size < LONG_MAX it is ≥ size and at most twice size (or 4); LONG_MAX+1 once size ≥ LONG_MAX |
| DictTable.NextPowerLeast | redis/redis-6.2.6-annotation/src/dict.c:1400-1410 | no power of two ≥ max(size, 4) is smaller than NextPower(size) |
| DictTable.NextPowerBound | redis/redis-6.2.6-annotation/src/dict.c:1400-1410 | the result never exceeds LONG_MAX+1 |
| DictTable.MatchesWithoutCompare | redis/redis-6.2.6-annotation/src/dict.h:195-198 | without `keyCompare` a key matches exactly the identical key pointer |
| DictTable.StoredKey | redis/redis-6.2.6-annotation/src/dict.h:187-192 | without `keyDup` the entry keeps the caller's key verbatim |
| DictTable.StoredVal | redis/redis-6.2.6-annotation/src/dict.h:162-167 | without `valDup` the entry keeps the caller's value verbatim |
| DictTable.BucketIsMask | redis/redis-6.2.6-annotation/src/dict.c:1438 | `hash & sizemask` is the bucket `hash mod size` for a power-of-two size |
| DictTable.AddToUnique | redis/redis-6.2.6-annotation/src/dict.c:420-453 | adding a key no entry matches keeps every key held at most once |
| DictTable.RemoveFromUnique | redis/redis-6.2.6-annotation/src/dict.c:517-565 | removing an entry keeps every key held at most once |
| DictTable.SetInUnique | redis/redis-6.2.6-annotation/src/dict.c:461-488 | changing a value keeps every key held at most once |
| DictTable.DeletedLeavesNoMatch | redis/redis-6.2.6-annotation/src/dict.c:517-565 | once the matching entry is unlinked from a dictionary holding each key once, no entry matches the key |
| DictTable.AddedIsFound | redis/redis-6.2.6-annotation/src/dict.c:420-453 | after adding a fresh key some entry matches it, and every matching entry holds the stored value |
| DictTable.BagUpdate | redis/redis-6.2.6-annotation/src/dict.c:290-309 | replacing one chain changes the table's multiset by exactly that chain's entries |
| Dict.FreeCalls | redis/redis-6.2.6-annotation/src/dict.h:157-184 | freeing an entry makes one destructor call per configured destructor (key, value) |
| Dict.FreeValCalls | redis/redis-6.2.6-annotation/src/dict.h:157-159 | `dictFreeVal` calls the value destructor exactly when one is configured |
| Dict.FreeLogAppend | redis/redis-6.2.6-annotation/src/dict.c:619-654 | the destructor log of two runs of entries is the concatenation of their logs |
| Dict.VisitedBound | redis/redis-6.2.6-annotation/src/dict.c:619-654 | `_dictClear` stops at bucket i exactly when all buckets from i on are empty |
| Dict.ExpandFits | redis/redis-6.2.6-annotation/src/dict.c:196-199 | sizes up to 2^60 never trip `_dictExpand`'s overflow test |
| Dict.ExpandOverflowsAbove | redis/redis-6.2.6-annotation/src/dict.c:196-199 | every size above 2^60 trips it |
| Dict.FreeChain | redis/redis-6.2.6-annotation/src/dict.c:619-654 | the inner loop of `_dictClear` frees key and value of each entry of a chain, in chain order |
| Dict.ClearTable | redis/redis-6.2.6-annotation/src/dict.c:619-654 | `_dictClear` frees every entry of the table in bucket order, `used` times the per-entry calls, and invokes the callback once per 65536 buckets visited |
| Dict.MoveChain | redis/redis-6.2.6-annotation/src/dict.c:290-307 | moving a chain into `ht[1]` adds exactly its entries and raises `used` by its length |
| Dict.Dict.SizeIsCount | redis/redis-6.2.6-annotation/src/dict.h:215 | `dictSize` is the number of entries of both tables |
| Dict.Dict.NotRehashingOneTable | redis/redis-6.2.6-annotation/src/dict.h:213-217 | outside a rehash all entries are in `ht[0]` and `dictSlots` is its size |
| Dict.Dict.constructor | redis/redis-6.2.6-annotation/src/dict.c:121-148 | `dictCreate`: both tables reset, no entries, `rehashidx == -1`, `pauserehash == 0` |
| Dict.Dict.PauseRehashing | redis/redis-6.2.6-annotation/src/dict.h:219 | `pauserehash` rises by exactly 1 |
| Dict.Dict.ResumeRehashing | redis/redis-6.2.6-annotation/src/dict.h:221 | `pauserehash` falls by exactly 1 |
| Dict.Dict.SetCanResize | redis/redis-6.2.6-annotation/src/dict.c:1471-1478 | `dictEnableResize`/`dictDisableResize` set the resize switch |
| Dict.Dict.FreeEntry | redis/redis-6.2.6-annotation/src/dict.c:547-551 | the destructor log grows by the calls for that entry and nothing else |
| Dict.Dict.ExpandTable | redis/redis-6.2.6-annotation/src/dict.c:182-240 | OK exactly when not rehashing, `used ≤ size`, no overflow, a changed size and no allocation failure; the new table of `_dictNextPower(size)` buckets becomes `ht[0]` on first use (rehashidx stays -1) and `ht[1]` otherwise (rehashidx 0); entries unchanged; `malloc_failed` exactly on a failing try-allocation |
| Dict.Dict.Expand | redis/redis-6.2.6-annotation/src/dict.c:244-246 | `dictExpand`: the outcome and new tables of `_dictExpand` without try-allocation |
| Dict.Dict.TryExpand | redis/redis-6.2.6-annotation/src/dict.c:250-254 | `dictTryExpand`: ERR exactly when the allocation of an accepted expansion fails, and then nothing changes; a declined expansion still answers OK and changes nothing; an accepted one gives an empty dictionary a fresh `ht[0]` of the next power of two, or leaves `ht[0]` alone and starts a rehash into a fresh `ht[1]` of that size |
| Dict.Dict.Resize | redis/redis-6.2.6-annotation/src/dict.c:153-169 | OK exactly when resizing is enabled, no rehash runs and `_dictExpand` accepts max(used, 4) (it declines, for one, when that size is already the table's); on OK an empty dictionary gets a fresh `ht[0]` of the next power of two, otherwise a rehash into a fresh `ht[1]` of that size starts; on ERR nothing changes |
| Dict.Dict.ExpandIfNeeded | redis/redis-6.2.6-annotation/src/dict.c:1373-1396 | nothing while rehashing; an empty dictionary gets 4 buckets; a full one (load ≥ 1 with resizing enabled or load > 5, type agreeing) starts rehashing into `_dictNextPower(used+1)`; ERR exactly when that expansion is declined |
| Dict.Dict.MigrateBucket | redis/redis-6.2.6-annotation/src/dict.c:287-311 | one non-empty bucket moves to `ht[1]`; entries and size unchanged, `rehashidx` advances by one |
| Dict.Dict.Rehash | redis/redis-6.2.6-annotation/src/dict.c:266-331 | entries and `dictSize` unchanged; answers whether rehashing continues; no change when not rehashing; `rehashidx` advances by at most 11n; on completion `ht[0]` becomes `ht[1]` and `ht[1]` is reset |
| Dict.Dict.RehashStep | redis/redis-6.2.6-annotation/src/dict.c:374-377 | one rehash step unless paused; a paused or stable dictionary is untouched |
| Dict.Dict.FindSlot | redis/redis-6.2.6-annotation/src/dict.c:671-702 | the first matching entry in `ht[0]`, then in `ht[1]` only while rehashing, at its hash's bucket; none exactly when the key is absent from the buckets it could be in |
| Dict.Dict.SearchChain | redis/redis-6.2.6-annotation/src/dict.c:691-696 | the first entry of a chain that matches the key, or none when none does |
| Dict.Dict.KeyIndex | redis/redis-6.2.6-annotation/src/dict.c:1425-1458 | the bucket of the table being filled when the key is absent, the matching entry when present, or failure exactly when the table cannot grow |
| Dict.Dict.AddRaw | redis/redis-6.2.6-annotation/src/dict.c:420-453 | a fresh key is added with the stored key as the head of its bucket's chain, in `ht[1]` while rehashing and in `ht[0]` otherwise; an existing key is answered with its entry and nothing changes; refused exactly when the table cannot grow |
| Dict.Dict.AddDecides | redis/redis-6.2.6-annotation/src/dict.c:420-453 | when not refused, `dictAddRaw` adds exactly when no entry matches and answers an existing entry exactly when one does |
| Dict.Dict.InsertNew0 | redis/redis-6.2.6-annotation/src/dict.c:440-447 | outside a rehash the new entry heads its bucket of `ht[0]` |
| Dict.Dict.InsertNew1 | redis/redis-6.2.6-annotation/src/dict.c:440-447 | during a rehash the new entry heads its bucket of `ht[1]` |
| Dict.Dict.SetVal | redis/redis-6.2.6-annotation/src/dict.h:162-167 | the entry's value becomes the stored value; nothing else changes |
| Dict.Dict.Add | redis/redis-6.2.6-annotation/src/dict.c:385-395 | OK: the entry (stored key, stored value) is added and no entry matched before; ERR: nothing changed, because the key exists or the table cannot grow |
| Dict.Dict.Overwrite | redis/redis-6.2.6-annotation/src/dict.c:482-486 | the new value is set first, then the old value goes to the value destructor |
| Dict.Dict.Replace | redis/redis-6.2.6-annotation/src/dict.c:461-488 | 1 after adding a fresh key; 0 after giving the existing matching entry the new value (old value freed after), the size unchanged |
| Dict.Dict.AddOrFind | redis/redis-6.2.6-annotation/src/dict.c:498-504 | none exactly when the table cannot grow (outside a rehash; a none always means it cannot), and then nothing changes; otherwise the matching entry with nothing changed, or a fresh entry for the key added; for a type whose matching keys hash alike, the fresh entry comes exactly when no entry matched the key |
| Dict.Dict.Lookup | redis/redis-6.2.6-annotation/src/dict.c:671-702 | a matching entry of the dictionary, or none when no entry matches |
| Dict.Dict.Find | redis/redis-6.2.6-annotation/src/dict.c:671-702 | NULL on an empty dictionary without a rehash step; otherwise a matching entry, or NULL when no entry matches; entries unchanged |
| Dict.Dict.FetchValue | redis/redis-6.2.6-annotation/src/dict.c:708-713 | the value of a matching entry, or none when no entry matches |
| Dict.Dict.Detach | redis/redis-6.2.6-annotation/src/dict.c:542-553 | the entry leaves its chain and its table's `used` falls by one |
| Dict.Dict.DeleteAt | redis/redis-6.2.6-annotation/src/dict.c:539-555 | the matching entry is unlinked, and freed unless `nofree` |
| Dict.Dict.GenericDelete | redis/redis-6.2.6-annotation/src/dict.c:517-565 | NULL on an empty dictionary; removes exactly one matching entry (freeing key and value unless `nofree`) and returns it; when none matches nothing changes |
| Dict.Dict.Delete | redis/redis-6.2.6-annotation/src/dict.c:573-575 | OK: one matching entry removed and freed; ERR: nothing changed and no entry matches |
| Dict.Dict.Unlink | redis/redis-6.2.6-annotation/src/dict.c:601-603 | removes and returns a matching entry without calling any destructor |
| Dict.Dict.FreeUnlinkedEntry | redis/redis-6.2.6-annotation/src/dict.c:608-615 | frees key and value of an unlinked entry; nothing for NULL |
| Dict.Dict.Empty | redis/redis-6.2.6-annotation/src/dict.c:1463-1468 | both tables cleared in order with every entry freed, both reset, `rehashidx == -1` and `pauserehash == 0` |
| DictScan.Counted | redis/redis-6.2.6-annotation/src/dict.c:1323-1345 | the n cursors from c0 of the reversed counter, each a bucket index |
| DictScan.ExpansionAt | redis/redis-6.2.6-annotation/src/dict.c:1323-1345 | the t-th bucket of the large table visited is an expansion of v's small-table bucket |
| DictScan.ExpansionsSound | redis/redis-6.2.6-annotation/src/dict.c:1323-1345 | the large-table buckets visited for v are distinct and share v's low bits |
| DictScan.ExpansionsComplete | redis/redis-6.2.6-annotation/src/dict.c:1323-1345 | from a small-table cursor, every large-table bucket sharing v's low bits is visited |
| DictScan.EmitChain | redis/redis-6.2.6-annotation/src/dict.c:1271-1275 | `fn` is called on every entry of the chain in order |
| DictScan.ExpansionIndex | redis/redis-6.2.6-annotation/src/dict.c:1325-1327 | `v & m1` is the next reversed-counter bucket |
| DictScan.StepCursor | redis/redis-6.2.6-annotation/src/dict.c:1335-1345 | one cursor step of the do-while keeps the loop invariant |
| DictScan.ScanTurn | redis/redis-6.2.6-annotation/src/dict.c:1323-1345 | one turn of the do-while emits the chain of the next expansion |
| DictScan.ScanExpansions | redis/redis-6.2.6-annotation/src/dict.c:1323-1345 | the do-while visits exactly the expansions of v in the larger table, in reversed-counter order, emits their chains, and ends at the small-table successor cursor |
| DictScan.CursorIndex | redis/redis-6.2.6-annotation/src/dict.c:1267-1269 | `v & m0` is the bucket of v |
| DictScan.AdvanceCursor | redis/redis-6.2.6-annotation/src/dict.c:1283-1291 | the next cursor is the reversed-counter successor |
| DictScan.ExpansionsOf | redis/redis-6.2.6-annotation/src/dict.c:1323-1345 | distinct large-table buckets sharing v's low bits |
| DictScan.ScanSingle | redis/redis-6.2.6-annotation/src/dict.c:1259-1291 | a stable dictionary: the entries of bucket `v & m0`, one `bucketfn` call, the successor cursor |
| DictScan.ScanPair | redis/redis-6.2.6-annotation/src/dict.c:1293-1345 | a rehashing dictionary: the small table's bucket, then every expansion in the large table, and the small-table successor cursor |
| DictScan.Scan | redis/redis-6.2.6-annotation/src/dict.c:1241-1352 | 0 and no callback on an empty dictionary; otherwise it emits the chains of the buckets described above and returns the successor cursor; `pauserehash` is left as it was |
| DictIter.WalkIsContents | redis/redis-6.2.6-annotation/src/dict.c:783-837 | the order an iterator hands out entries is a permutation of the dictionary's entries |
| DictIter.NextPlaceRest | redis/redis-6.2.6-annotation/src/dict.c:800-816 | advancing to the next bucket (and from `ht[0]` to `ht[1]` while rehashing) keeps what is left to hand out |
| DictIter.Iterator.GetIterator | redis/redis-6.2.6-annotation/src/dict.c:755-768 | an unsafe iterator, not started, positioned before the first entry |
| DictIter.Iterator.GetSafeIterator | redis/redis-6.2.6-annotation/src/dict.c:771-778 | the same, marked safe |
| DictIter.Iterator.MoveTo | redis/redis-6.2.6-annotation/src/dict.c:783-837 | the iterator's next position hands out the next entry of the walk |
| DictIter.Iterator.Next | redis/redis-6.2.6-annotation/src/dict.c:783-837 | the next entry of the walk, or NULL once all were handed out; a safe iterator raises `pauserehash` exactly once, on its first call |
| DictIter.Iterator.Release | redis/redis-6.2.6-annotation/src/dict.c:840-852 | a started safe iterator lowers `pauserehash` by one; an unsafe one passes its fingerprint check, which holds whenever the dictionary did not change |
| DictIter.Seek | redis/redis-6.2.6-annotation/src/dict.c:785-834 | the loop of `dictNext` finds the next non-empty place, or reports the end |
| Adlist.DistinctInsert | redis/redis-6.2.6-annotation/src/adlist.c:174-211 | inserting a fresh node keeps the nodes distinct |
| Adlist.IndexPosition | redis/redis-6.2.6-annotation/src/adlist.c:447-461 | an index is in range exactly when -len ≤ index < len, and maps to the same position modulo len |
| Adlist.IndexFromTail | redis/redis-6.2.6-annotation/src/adlist.c:447-461 | index -k names the same node as len-k |
| Adlist.RotatedTailToHeadAt | redis/redis-6.2.6-annotation/src/adlist.c:465-480 | the last value comes first and the others move one place on |
| Adlist.RotatedHeadToTailAt | redis/redis-6.2.6-annotation/src/adlist.c:484-499 | the first value goes last and the others move one place back |
| Adlist.RotationsInverse | redis/redis-6.2.6-annotation/src/adlist.c:465-499 | the two rotations undo each other |
| Adlist.Duplicated | redis/redis-6.2.6-annotation/src/adlist.c:355-395 | the copied values in order, or failure exactly when some `dup` fails |
| Adlist.DuplicatedSnoc | redis/redis-6.2.6-annotation/src/adlist.c:373-390 | copying one more value extends the copy by that value's duplicate |
| Adlist.ListNode.constructor | redis/redis-6.2.6-annotation/src/adlist.c:108-113 | a fresh node holds the value and links nowhere |
| Adlist.List.constructor | redis/redis-6.2.6-annotation/src/adlist.c:46-60 | `listCreate`: an empty list with its three methods |
| Adlist.List.Empty | redis/redis-6.2.6-annotation/src/adlist.c:64-82 | the list becomes empty and every value goes to the free method, in order, when one is set |
| Adlist.List.AddNodeHead | redis/redis-6.2.6-annotation/src/adlist.c:104-130 | the value becomes the first element in a fresh node, the rest keep their order, `len + 1` |
| Adlist.List.AddNodeTail | redis/redis-6.2.6-annotation/src/adlist.c:142-168 | the value becomes the last element in a fresh node, the rest keep their order, `len + 1` |
| Adlist.List.InsertNode | redis/redis-6.2.6-annotation/src/adlist.c:174-211 | the value goes right after `old_node` (after) or right before it, head/tail repaired, `len + 1` |
| Adlist.List.LinkIn | redis/redis-6.2.6-annotation/src/adlist.c:197-208 | linking a prepared node between its neighbours puts it at that position |
| Adlist.List.DelNode | redis/redis-6.2.6-annotation/src/adlist.c:220-244 | exactly that node leaves, the rest keep their order, `len - 1`, its value freed when a free method is set |
| Adlist.List.SearchKey | redis/redis-6.2.6-annotation/src/adlist.c:412-436 | the first node from the head whose value matches (`match` or pointer equality), NULL exactly when none does |
| Adlist.List.Index | redis/redis-6.2.6-annotation/src/adlist.c:447-461 | counting from the head for index ≥ 0 and from the tail for index < 0; NULL out of range |
| Adlist.List.RotateTailToHead | redis/redis-6.2.6-annotation/src/adlist.c:465-480 | the tail moves to the head when len > 1; nothing otherwise; `len` unchanged |
| Adlist.List.RotateHeadToTail | redis/redis-6.2.6-annotation/src/adlist.c:484-499 | the head moves to the tail when len > 1; nothing otherwise; `len` unchanged |
| Adlist.List.Join | redis/redis-6.2.6-annotation/src/adlist.c:506-527 | `l` becomes `l ++ o`, `o` is empty with NULL ends, and the lengths add |
| Adlist.List.Dup | redis/redis-6.2.6-annotation/src/adlist.c:355-395 | a fresh list with the same methods and the same (or duplicated) values in order; NULL exactly when a `dup` fails; the original untouched |
| Adlist.ListIter.constructor | redis/redis-6.2.6-annotation/src/adlist.c:257-274 | `listGetIterator`: positioned at the head or the tail as asked |
| Adlist.ListIter.Rewind | redis/redis-6.2.6-annotation/src/adlist.c:286-289 | back to the head, walking forward |
| Adlist.ListIter.RewindTail | redis/redis-6.2.6-annotation/src/adlist.c:294-297 | back to the tail, walking backward |
| Adlist.ListIter.Next | redis/redis-6.2.6-annotation/src/adlist.c:323-334 | the current node (NULL past the end), then one step in the iterator's direction |
| Quicklist.Level | redis/redis-6.2.6-annotation/src/quicklist.c:57 | the size limit of fill -1 … -5: 4096 · 2^(-fill-1) bytes, none for other fills |
| Quicklist.SizeRule | redis/redis-6.2.6-annotation/src/quicklist.c:508-529 | a size meets the optimization requirement exactly when fill is in -5..-1 and the size is within that level |
| Quicklist.SizeRuleMonotone | redis/redis-6.2.6-annotation/src/quicklist.c:508-529 | a smaller size under a less negative fill still meets the requirement |
| Quicklist.AllowInsertMeaning | redis/redis-6.2.6-annotation/src/quicklist.c:545-581 | for a negative fill, insertion is allowed exactly when the grown size fits the fill's level; for fill ≥ 0, exactly when the size is within SIZE_SAFETY_LIMIT and the count stays within fill |
| Quicklist.AllowMergeMeaning | redis/redis-6.2.6-annotation/src/quicklist.c:589-613 | merging is symmetric, and for fill ≥ 0 an allowed merge keeps the count within fill |
| Quicklist.ClampFill | redis/redis-6.2.6-annotation/src/quicklist.c:135-142 | fill clamped into [-5, FILL_MAX] |
| Quicklist.ClampDepth | redis/redis-6.2.6-annotation/src/quicklist.c:124-131 | depth clamped into [0, COMPRESS_MAX] |
| Quicklist.DeleteRange | redis/redis-6.2.6-annotation/src/quicklist.c:1370 | `ziplistDeleteRange`: from a start (negative counted from the end) remove up to num entries, or nothing when the start is out of range |
| Quicklist.DeleteRangeAt | redis/redis-6.2.6-annotation/src/quicklist.c:1370 | within range, the deletion removes exactly the num entries at the start |
| Quicklist.SplitNodeKeepsEntries | redis/redis-6.2.6-annotation/src/quicklist.c:1062-1099 | the two nodes of a split hold the original entries between them, in order: the kept node offset+1 of them (after) or all but the first offset (before); counts and sizes recomputed, the new node gets the new identity |
| Quicklist.FirstOnNode | redis/redis-6.2.6-annotation/src/quicklist.c:1953-1961 | the first bookmark on a node, none exactly when no bookmark is on it |
| Quicklist.FirstNamed | redis/redis-6.2.6-annotation/src/quicklist.c:1943-1951 | the first bookmark with a name, none exactly when no bookmark has it |
| Quicklist.RetargetFirstLeavesDangling | redis/redis-6.2.6-annotation/src/quicklist.c:754-764 | as written, deleting a node that two bookmarks name leaves the second bookmark on the deleted node |
| Quicklist.RetargetMeaning | redis/redis-6.2.6-annotation/src/quicklist.c:754-764 | after a node is deleted no bookmark names it; every bookmark names a node it named before or the next node; names stay distinct |
| Quicklist.RetargetNames | redis/redis-6.2.6-annotation/src/quicklist.c:754-764 | retargeting adds no names and keeps them distinct |
| Quicklist.NodeNamed | redis/redis-6.2.6-annotation/src/quicklist.c:1926-1930 | a node is found exactly when some bookmark has the name |
| Quicklist.MarkedFound | redis/redis-6.2.6-annotation/src/quicklist.c:1906-1921 | after creating (or re-creating) a bookmark, finding its name gives its node; other names find what they found before |
| Quicklist.MarkedNames | redis/redis-6.2.6-annotation/src/quicklist.c:1906-1921 | creation keeps names distinct and adds one bookmark exactly when the name was new |
| Quicklist.Unmarked | redis/redis-6.2.6-annotation/src/quicklist.c:1935-1941 | deletion removes one bookmark exactly when the name exists |
| Quicklist.UnmarkedFound | redis/redis-6.2.6-annotation/src/quicklist.c:1935-1941 | after deleting a name it is no longer found; other names find what they found before |
| Quicklist.CountIsSum | redis/redis-6.2.6-annotation/src/quicklist.h:137-139 | `count` is the sum of the node counts and `len` the number of nodes |
| Quicklist.TotalIsLength | redis/redis-6.2.6-annotation/src/quicklist.h:137 | the sum of node counts is the number of entries in the list |
| Quicklist.PushedHead | redis/redis-6.2.6-annotation/src/quicklist.c:632-661 | pushing at the head, into the head node or a new one, keeps the invariant and puts the entry first |
| Quicklist.PushedTail | redis/redis-6.2.6-annotation/src/quicklist.c:674-692 | pushing at the tail, into the tail node or a new one, keeps the invariant and puts the entry last |
| Quicklist.RangeDeleted | redis/redis-6.2.6-annotation/src/quicklist.c:1363-1380 | deleting entries of one node keeps the nodes before it, shortens the node or drops it when emptied |
| Quicklist.DeletedRange | redis/redis-6.2.6-annotation/src/quicklist.c:1363-1380 | that deletion keeps the invariant and removes exactly those entries from the list's contents |
| Quicklist.RoundCount | redis/redis-6.2.6-annotation/src/quicklist.c:1319-1356 | one round deletes min(extent, entries from the offset to the node's end), and the whole node exactly when the offset is 0 and extent covers it |
| Quicklist.RoundProgress | redis/redis-6.2.6-annotation/src/quicklist.c:1314-1390 | each round keeps the loop invariant: the entries deleted so far are a prefix of the range, and the next round starts at the next entry |
| Quicklist.Quicklist.constructor | redis/redis-6.2.6-annotation/src/quicklist.c:106-120 | `quicklistCreate`: empty, fill -2, compress 0, no bookmarks |
| Quicklist.Quicklist.SetCompressDepth | redis/redis-6.2.6-annotation/src/quicklist.c:124-131 | depth clamped into [0, COMPRESS_MAX] |
| Quicklist.Quicklist.SetFill | redis/redis-6.2.6-annotation/src/quicklist.c:135-142 | fill clamped into [-5, FILL_MAX] |
| Quicklist.Quicklist.SetOptions | redis/redis-6.2.6-annotation/src/quicklist.c:145-148 | both setters |
| Quicklist.Quicklist.InsertNode | redis/redis-6.2.6-annotation/src/quicklist.c:439-482 | the node goes right after or right before the old node, or becomes the only node; `len + 1` |
| Quicklist.Quicklist.DelNode | redis/redis-6.2.6-annotation/src/quicklist.c:754-796 | the node leaves, `len - 1`, `count` falls by its count, and every bookmark on it moves to the next node or is deleted |
| Quicklist.Quicklist.PushHead | redis/redis-6.2.6-annotation/src/quicklist.c:632-661 | the value becomes the first entry; true exactly when the head node did not allow the insert and a new head node was made |
| Quicklist.Quicklist.PushTail | redis/redis-6.2.6-annotation/src/quicklist.c:674-692 | the value becomes the last entry; true exactly when a new tail node was made |
| Quicklist.Quicklist.DelIndex | redis/redis-6.2.6-annotation/src/quicklist.c:816-835 | exactly that entry leaves the list; the node goes when it held only that entry |
| Quicklist.Quicklist.Walk | redis/redis-6.2.6-annotation/src/quicklist.c:1659-1688 | the node holding the index-th entry from the head (forward) or from the tail (reverse), with the entries before it |
| Quicklist.Quicklist.Index | redis/redis-6.2.6-annotation/src/quicklist.c:1646-1718 | found exactly when idx is in range (from the head for idx ≥ 0, the tail for idx < 0); the entry at that position, its node, and its offset (negative when reverse) |
| Quicklist.Quicklist.First | redis/redis-6.2.6-annotation/src/quicklist.c:1805-1818 | the first entry of the list |
| Quicklist.Quicklist.Last | redis/redis-6.2.6-annotation/src/quicklist.c:1808-1818 | the last entry of the list |
| Quicklist.Quicklist.DropHead | redis/redis-6.2.6-annotation/src/quicklist.c:1833 | the first entry leaves |
| Quicklist.Quicklist.DropTail | redis/redis-6.2.6-annotation/src/quicklist.c:1833 | the last entry leaves |
| Quicklist.Quicklist.Pop | redis/redis-6.2.6-annotation/src/quicklist.c:1781-1838 | nothing on an empty list; otherwise the head or tail entry is returned and removed |
| Quicklist.Quicklist.Rotate | redis/redis-6.2.6-annotation/src/quicklist.c:1721-1761 | nothing when count ≤ 1; otherwise the last entry moves to the front |
| Quicklist.Quicklist.TrimNode | redis/redis-6.2.6-annotation/src/quicklist.c:1366-1380 | deletes `del` entries of a node from an offset, and the node itself when that empties it |
| Quicklist.Quicklist.DeleteInNode | redis/redis-6.2.6-annotation/src/quicklist.c:1363-1380 | a whole node at once, or a trim |
| Quicklist.Quicklist.DeleteRound | redis/redis-6.2.6-annotation/src/quicklist.c:1316-1389 | one round of the loop: RoundCount entries deleted, the loop invariant kept |
| Quicklist.Quicklist.DeleteExtent | redis/redis-6.2.6-annotation/src/quicklist.c:1314-1390 | `while (extent)` deletes exactly the extent entries from the start |
| Quicklist.Quicklist.DelRange | redis/redis-6.2.6-annotation/src/quicklist.c:1284-1392 | 0 with nothing changed when count ≤ 0 or start is out of range; otherwise exactly min(count, entries from start to the end) consecutive entries are removed, the rest in order |
| Quicklist.Quicklist.FindByName | redis/redis-6.2.6-annotation/src/quicklist.c:1943-1951 | the first bookmark with that name |
| Quicklist.Quicklist.FindByNode | redis/redis-6.2.6-annotation/src/quicklist.c:1953-1961 | the first bookmark on that node |
| Quicklist.Quicklist.BookmarkCreate | redis/redis-6.2.6-annotation/src/quicklist.c:1906-1921 | fails once QL_MAX_BM bookmarks exist (even for an existing name); otherwise retargets the named bookmark or appends a new one |
| Quicklist.Quicklist.BookmarkFind | redis/redis-6.2.6-annotation/src/quicklist.c:1926-1930 | the node of the named bookmark, a live node, or none |
| Quicklist.Quicklist.BookmarkDeleteAt | redis/redis-6.2.6-annotation/src/quicklist.c:1963-1970 | that bookmark leaves and the rest keep their order |
| Quicklist.Quicklist.BookmarkDelete | redis/redis-6.2.6-annotation/src/quicklist.c:1935-1941 | 1 exactly when the name exists, and then that bookmark is deleted |
| Quicklist.Quicklist.BookmarksClear | redis/redis-6.2.6-annotation/src/quicklist.c:1972-1977 | no bookmarks remain |

## Left out

- Hashing, SipHash and the hash seed: the hash function is an uninterpreted function of the key.
- `dictRehashMilliseconds` and `timeInMilliseconds` are left out because they depend on the clock.
- `dictGetRandomKey`, `dictGetSomeKeys` and `dictGetFairRandomKey` are left out because they depend on random numbers.
- `dictGetStats` is left out because it formats text with floating point.
- `dictFindEntryRefByPtrAndHash` is left out because it depends on pointer-to-pointer identity.
- `dictRelease` and `listRelease` are not modelled beyond the clearing they share with `dictEmpty` and `listEmpty`. The rest of them only frees memory.
- `listReleaseIterator` is not modelled; it only frees memory.
- Allocation is modelled as always succeeding. The one exception is the `malloc_failed` path of `dictTryExpand`, where failure is a parameter. No adlist function can return NULL for lack of memory.
- The `privdata` argument of every callback is not modelled.
- The value union of `dictEntry` is not modelled: the `s64`, `u64` and `double` members and their macros are gone. Values are opaque pointers.
- The `expandAllowed` callback of `dictType` gets the load as the pair (used, size), not as a double.
- Dict.Dict.constructor: it requires that the type's `keyDup` keeps the hash of the key it copies. C does not state this assumption, but lookups of duplicated keys rely on it.
- Dict.Dict.PauseRehashing: `pauserehash` is an `int16_t`, but the model uses an unbounded integer, so it does not model wrap-around past 32767 pauses.
- Dict.Dict.Replace: when the table cannot grow, C dereferences the NULL `existing` entry and crashes. The model instead answers 0 and changes nothing, because a crash has no state to state.
- Bits.Rev: this is the definition of 64-bit bit reversal. The mask-and-shift loop of `rev` in dict.c:1080-1095 is not modelled, because bit-vector shifts by a symbolic amount do not verify within the resource limit.
- DictIter.Iterator.Release: the fingerprint is the tuple of the six integers it mixes. The model therefore has no hash collisions, and a changed dictionary is always detected.
- DictIter.Iterator.Next: a safe iterator is proved only for a dictionary that does not change during iteration. What a safe iterator tolerates when entries are added or deleted mid-walk is not modelled.
- Adlist.List.Index: the negation `(-index)-1` for index == LONG_MIN is signed overflow in C. The model uses unbounded integers.
- Quicklist.Quicklist.Index: the negation `(-idx) - 1` of quicklist.c:1660 for idx == LLONG_MIN is signed overflow in C. The model uses unbounded integers.
- Quicklist.Quicklist.DelNode: it follows the corrected retarget of the Findings row (every bookmark on the deleted node moves, Quicklist.Retarget), not the first-bookmark-only retarget of quicklist.c:754-764. Pop, DelIndex and DelRange, which delete nodes through it, inherit this.
- Dict.Dict.AddRaw: C allocates a fresh entry and sets only its key and `next`, so its value is indeterminate until the caller sets it. The model fixes it at 0; AddOrFind and the comments that mention value 0 follow this choice.
- Quicklist LZF compression, the compress depth's effect on nodes, and `__quicklistCompress` are left out. They change no logical content.
- Ziplist encoding is left out: ziplist.c is not part of this model. A ziplist is a sequence of entries. Its byte size is the abstract function `blobLen`, and `DeleteRange` stands for `ziplistDeleteRange`.
- Entries are pairs (value, length). The difference between string and integer entries, and the `ll2string` conversion in `quicklistRotate`, are not modelled.
- Quicklist.Quicklist.Pop: the `saver` callback and the out-parameters are folded into the returned entry.
- Quicklist nodes are a sequence of values, not linked nodes. The `prev`/`next` rewiring of `__quicklistInsertNode` and `__quicklistDelNode` is therefore not modelled as pointer updates.
- Quicklist.Quicklist.DelIndex: the `p` out-parameter, the ziplist cursor for the next entry, is not modelled.
- Quicklist.Quicklist.TrimNode: when the deletion empties the node, C writes the shrunken ziplist to the node just before freeing it. The model skips that write.
- The node `count` is a 16-bit field in C, and `sz` and entry lengths are 32-bit. The model checks no bounds beyond the entry length limit that `sizeMeetsSafetyLimit` and the split rely on.
- Quicklist.Quicklist.DelRange: it requires `count` below 2^64, which the C `unsigned long` guarantees.
- Quicklist.Quicklist.BookmarkCreate: the `zrealloc` of the quicklist, and the caller's reference it updates, are not modelled.
- The quicklist iterators (`quicklistGetIterator`, `quicklistNext`) are not modelled; `Quicklist.Quicklist.Walk` states the forward and reverse counting they share with `quicklistIndex`.
- `quicklistInsertAfter`/`Before`, `quicklistReplaceAtIndex`, merging (`_quicklistMergeNodes`) and `quicklistAppendValuesFromZiplist` are not modelled. They are outside the modelled operations; split and the merge rule are modelled on their own.

## Findings

| source | as written | input that shows it | evidently intended | confidence | as-written member | corrected member |
|---|---|---|---|---|---|---|
| redis/redis-6.2.6-annotation/src/quicklist.c:754-764 | `__quicklistDelNode` retargets only the first bookmark found on the deleted node (`_quicklistBookmarkFindByNode` returns the first match) | bookmarks "a" and "b" both on node 7; deleting node 7 (next node 8) moves "a" to 8 and leaves "b" on the freed node 7 | every bookmark on the deleted node moves to the next node, or is deleted when there is none (the comment at quicklist.c:1923-1925) | not executed | Quicklist.RetargetFirstLeavesDangling | Quicklist.RetargetMeaning |
