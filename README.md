# sparsepp core containers, modelled in Dafny

sparsepp is a header-only C++ library built around a sparse hash map. Under the map it ships four
small sequential data structures, and these are what this project models and proves things about:

- **`spp_bitset<N>`** (`sparsepp/spp_bitset.h`) is a fixed array of 64-bit words. It offers
  single-bit and range set, reset, all, any and none, plus count, shifts and whole-bitset logic. It
  also searches for zero runs: the longest run (Forisek's doubling and binary search, optionally
  capped with the run's start reported), the first run of n zeros from a position (wrapping to the
  front), and the run around a block. The naive reference versions shipped beside the word-level
  code are modelled as well, and both are proved against the same specification.
- **The B-tree** (`btree_node`, `btree`, `sparsepp/spp_btree.h`) is an ordered container whose
  nodes keep sorted values, and on internal nodes child pointers, in fixed-size arrays.
  - The node operations are modelled as a class over arrays: lower and upper bound (linear and
    binary), `insert_value`, `remove_value`, `split`, `merge`, both rebalances and `swap`.
  - The tree's node-level repairs are methods over nodes: `rebalance_or_split`,
    `try_merge_or_rebalance` and `try_shrink`.
  - The container operations are modelled on the tree's in-order sequence of values:
    `insert_unique`, `insert_multi`, `erase`, `erase_unique`, `find_unique`, `count_unique` and
    `size`.
- **The page allocator** (`Page`, `Segment`, `SegTree`, `spp_allocator`, `sparsepp/spp_alloc.h`)
  has three levels.
  - A `Page` hands out runs of slots from a bitset (0 free, 1 busy). It keeps a free count, a
    next-search index and the start of a recorded longest free run. Its caller's `longest_free`
    (`lf`) is kept honest: the page has a run of `lf` free slots (so `lf` is at most the free
    count), the recorded run, when set, is free, and below `max_lf` that run is bounded by busy
    slots or the ends of the page.
  - A `Segment` owns at most one page.
  - A `SegTree` is a heap-indexed segment tree over segments: every inner node holds the larger
    `longest_free` of its two children, so `allocate` can walk down to the leftmost page with
    room.
  - `spp_allocator` forwards to a shared tree and builds `shrink` and `reallocate` from its
    operations.
- **Intrusive reference counting** (`spp_rc`, `spp_sptr`, `sparsepp/spp_smartptr.h`) is a counter
  inside the object and a pointer that increments and decrements it.

Files:

| File | Module | Contents |
|---|---|---|
| `words.dfy` | `Words` | 64-bit words as sequences of 64 booleans, with their operations |
| `bitspec.dfy` | `BitSpec` | the functional specification of bitsets: ranges, shifts and zero runs |
| `bitset.dfy` | `SppBitset` | the `Bitset` class |
| `btree_node.dfy` | `SppBtreeNode` | the `Node` class |
| `btree.dfy` | `SppBtree` | the node-level repairs of the tree |
| `btree_set.dfy` | `SppBtreeSet` | the container operations on the value sequence |
| `alloc.dfy` | `SppAlloc` | `Page` and the `Segment` operations |
| `segtree.dfy` | `SppSegTree` | `SegTree` |
| `allocator.dfy` | `SppAllocator` | `spp_allocator` |
| `smartptr.dfy` | `SppSmartPtr` | `spp_rc` and `spp_sptr` |

How the source is represented:

- Pointers into the allocator are `Ptr(page, offset)`.
- A page's bitmap is its `Bits()`, and the tree's `Used()` maps every live page to its bitmap.
- Integers are unbounded. Size-type wrap-around is written out (`Words.SizeSub`, `NPOS`) only
  where the source relies on it.

## Model

| member | source | states |
|---|---|---|
| SppBitset.CountTrailingZeroesNaive | sparsepp/spp_bitset.h:15-27 | the result is the number of zero bits below the lowest set bit, 64 for the zero word |
| SppBitset.NumWords | sparsepp/spp_bitset.h:690 | the smallest number of 64-bit words that holds numBits bits |
| Words.Clz | sparsepp/spp_bitset.h:29-39 | the number of zero bits above the highest set bit: those bits are clear and the next one down is set |
| SppBitset.Bitset.constructor | sparsepp/spp_bitset.h:48-52 | a new bitset of N bits with no bit set |
| SppBitset.Bitset.Copy | sparsepp/spp_bitset.h:694 | the copy has the same bits in its own storage |
| SppBitset.Bitset.Size | sparsepp/spp_bitset.h:356-359 | N is positive and a multiple of 64 |
| SppBitset.Bitset.Test | sparsepp/spp_bitset.h:56-59 | the result is bit pos |
| SppBitset.Bitset.Set | sparsepp/spp_bitset.h:61 | bit pos becomes set and every other bit is kept |
| SppBitset.Bitset.Reset | sparsepp/spp_bitset.h:62 | bit pos becomes clear and every other bit is kept |
| SppBitset.Bitset.FlipAsWritten | sparsepp/spp_bitset.h:63 | the other 63 bits of pos's word are inverted and bit pos is left as it was |
| SppBitset.FlipAsWrittenMissesBit | sparsepp/spp_bitset.h:63 | flip as written keeps bit pos, inverts another bit q of its word, and so never yields the bitset with only pos inverted |
| SppBitset.Bitset.Flip | sparsepp/spp_bitset.h:63 | the corrected flip inverts bit pos and nothing else |
| SppBitset.Bitset.SetRange | sparsepp/spp_bitset.h:65-90 | exactly the bits of [from, to) become set (the word-level version equals the naive one) |
| SppBitset.Bitset.ResetRange | sparsepp/spp_bitset.h:92-117 | exactly the bits of [from, to) become clear |
| SppBitset.Bitset.AllRange | sparsepp/spp_bitset.h:119-154 | true exactly when every bit of [from, to) is set |
| SppBitset.Bitset.AnyRange | sparsepp/spp_bitset.h:156-184 | true exactly when some bit of [from, to) is set |
| SppBitset.Bitset.NoneRange | sparsepp/spp_bitset.h:186-189 | true exactly when no bit of [from, to) is set |
| SppBitset.Bitset.All | sparsepp/spp_bitset.h:191-197 | true exactly when every bit is set |
| SppBitset.Bitset.AllFirstZero | sparsepp/spp_bitset.h:199-213 | when every bit is set: true, with start_pos unchanged; otherwise false, with the index of the first clear bit |
| SppBitset.Bitset.Any | sparsepp/spp_bitset.h:215-221 | true exactly when some bit is set |
| SppBitset.Bitset.None | sparsepp/spp_bitset.h:223 | true exactly when no bit is set |
| SppBitset.Bitset.Count | sparsepp/spp_bitset.h:346-354 | the number of set bits, and N minus it is the number of clear bits |
| SppBitset.Bitset.Equals | sparsepp/spp_bitset.h:225-228 | true exactly when both bitsets have the same bits |
| SppBitset.Bitset.CombineWith | sparsepp/spp_bitset.h:235-254 | every bit becomes the and, or or xor of the two bitsets' bits |
| SppBitset.Bitset.MoveWordsUp | sparsepp/spp_bitset.h:256-289 | each word from div on receives the bits shifted up into it, and the words below div are kept |
| SppBitset.Bitset.MoveWordsDown | sparsepp/spp_bitset.h:291-323 | each word below N/64 - div receives the bits shifted down into it, and the top div words are kept |
| SppBitset.Bitset.ZeroWords | sparsepp/spp_bitset.h:285 | exactly the words of [from, to) become zero |
| SppBitset.Bitset.ShiftUpBy | sparsepp/spp_bitset.h:256-289 | bit p moves to p + k, the k lowest bits become clear, and bits shifted past N are lost |
| SppBitset.Bitset.ShiftDownBy | sparsepp/spp_bitset.h:291-323 | bit p moves to p - k, the k highest bits become clear, and the k lowest bits are lost |
| SppBitset.Bitset.SetAll | sparsepp/spp_bitset.h:325-330 | every bit becomes set |
| SppBitset.Bitset.ResetAll | sparsepp/spp_bitset.h:332-337 | every bit becomes clear |
| SppBitset.Bitset.FlipAll | sparsepp/spp_bitset.h:339-344 | every bit is inverted |
| SppBitset.Bitset.ShiftedUp | sparsepp/spp_bitset.h:361-366 | a new bitset holding the bits shifted up by k |
| SppBitset.Bitset.ShiftedDown | sparsepp/spp_bitset.h:368-373 | a new bitset holding the bits shifted down by k |
| SppBitset.Bitset.Combined | sparsepp/spp_bitset.h:375-387 | a new bitset holding the and or the or of the two |
| SppBitset.Bitset.Inverted | sparsepp/spp_bitset.h:389-394 | a new bitset holding every bit inverted |
| SppBitset.Bitset.FirstState | sparsepp/spp_bitset.h:407-408 | the first state is the window of width 1: bit i is clear exactly when bits i-1 and i are both clear |
| SppBitset.Bitset.Widen | sparsepp/spp_bitset.h:413-421 | the state of width u is built from the state of width s, and its all() answers whether no run of u + 1 zeros exists |
| SppBitset.Bitset.Narrow | sparsepp/spp_bitset.h:423-433 | the binary search between steps and 2 * steps ends at the length of the longest zero run |
| SppBitset.Bitset.LongestZeroSequence | sparsepp/spp_bitset.h:399-434 | the result is the length of the longest zero run (N when no bit is set, 0 when all are) |
| SppBitset.Bitset.WidenFrom | sparsepp/spp_bitset.h:458-460 | as Widen, and when a run exists the first clear bit of the new state is reported |
| SppBitset.Bitset.DoublingFrom | sparsepp/spp_bitset.h:455-470 | the doubling stops at the first width w with no run of 2w + 1 zeros, or early once w reaches the ceiling while such a run exists |
| SppBitset.Bitset.NarrowFrom | sparsepp/spp_bitset.h:472-481 | the binary search ends with a run of lo + 1 zeros, no run of lo + 2, and the first clear bit of the width-lo state |
| SppBitset.Bitset.LongestZeroSequenceCapped | sparsepp/spp_bitset.h:439-493 | N with start_pos untouched when no bit is set; otherwise, for the longest zero run L: L with start_pos untouched when L < 2; the ceiling and npos when L reaches the ceiling; 2 and start_pos - 1 (npos stays npos) when L is 2; else L and the start of the first run of length L |
| SppBitset.Bitset.ZeroSequenceSizeAround | sparsepp/spp_bitset.h:495-510 | [start, end) is extended over the clear bits on both sides up to a set bit or an end; a clear block gives a maximal zero run |
| SppBitset.Bitset.LongestZeroSequenceNaive | sparsepp/spp_bitset.h:516-531 | the result is the length of the longest zero run, the same specification as the word-level search |
| SppBitset.Bitset.LongestZeroSequenceNaiveCapped | sparsepp/spp_bitset.h:533-559 | with no zero bit: 0 and a start of 1; the ceiling and npos once a run that long exists; otherwise the longest run and the start of the first such run |
| SppBitset.Bitset.SetNaive | sparsepp/spp_bitset.h:561-565 | exactly the bits of [from, to) become set |
| SppBitset.Bitset.ResetNaive | sparsepp/spp_bitset.h:567-571 | exactly the bits of [from, to) become clear |
| SppBitset.Bitset.AllNaive | sparsepp/spp_bitset.h:573-579 | true exactly when every bit of [from, to) is set |
| SppBitset.Bitset.AllNaiveFirstZero | sparsepp/spp_bitset.h:581-590 | as all(start_pos): true with the index unchanged, or false with the first clear bit |
| SppBitset.Bitset.AnyNaive | sparsepp/spp_bitset.h:592-598 | true exactly when some bit of [from, to) is set |
| SppBitset.Bitset.FindFirstN | sparsepp/spp_bitset.h:603-608 | npos exactly when num is 0 or no run of num zeros exists; otherwise the start of the first such run |
| SppBitset.Bitset.FindNextN | sparsepp/spp_bitset.h:610-621 | npos exactly when num is 0, start > N or no run exists; otherwise the first run from start, or, when there is none from start, the first run of the whole bitset |
| SppBitset.Bitset.FindNextNIn | sparsepp/spp_bitset.h:642-688 | npos exactly when no run of num zeros lies in [start, min(end, N)); otherwise the first one that does |
| SppBitset.Bitset.ScanForZeroRun | sparsepp/spp_bitset.h:654-687 | the scan from start finds the first run of num zeros ending by e, or npos when there is none |
| SppBitset.Bitset.SkipSetBit | sparsepp/spp_bitset.h:665-683 | the skip lands on a set bit and passes over no run of num zeros |
| SppBitset.Bitset.HasZeroWord | sparsepp/spp_bitset.h:623-629 | true exactly when a word other than word 0 is zero, and then a run of 64 zeros exists |
| BitSpec.LongestZeroRunUnique | sparsepp/spp_bitset.h:516-531 | the longest zero run has one length, so the fast and naive searches agree |
| BitSpec.LongestZeroRunExists | sparsepp/spp_bitset.h:399-434 | every bitset has a longest zero run, of length at most N |
| BitSpec.LongestIsMaximal | sparsepp/spp_bitset.h:495-510 | a longest zero run is bounded by set bits or the ends |
| BitSpec.NoneSetLongest | sparsepp/spp_bitset.h:401-402 | with no bit set the longest zero run is N |
| BitSpec.AllSetLongest | sparsepp/spp_bitset.h:404-405 | with every bit set the longest zero run is 0 |
| BitSpec.CountZeroSet | sparsepp/spp_bitset.h:346-354 | setting a clear run of n bits lowers the number of clear bits by n |
| BitSpec.CountZeroReset | sparsepp/spp_bitset.h:346-354 | clearing a set run of n bits raises the number of clear bits by n |
| SppBtreeNode.FirstNotBefore | sparsepp/spp_btree.h:328-337 | the first index whose key is not before k: every earlier key is before k |
| SppBtreeNode.SortedSplit | sparsepp/spp_btree.h:342-353 | on sorted keys, no key after that index is before k, so the keys before k form a prefix |
| SppBtreeNode.EqualRange | sparsepp/spp_btree.h:121-129 | the lower bound is at most the upper bound, and the keys equal to k are exactly those between them |
| SppBtreeNode.Node.constructor | sparsepp/spp_btree.h:378-392 | an empty leaf or internal node with room for maxCount values; an internal node has one null child |
| SppBtreeNode.Node.LinearSearch | sparsepp/spp_btree.h:328-337 | the first index of [s, e) whose key is not before k |
| SppBtreeNode.Node.BinarySearch | sparsepp/spp_btree.h:342-353 | on sorted keys, the same index as the linear search |
| SppBtreeNode.Node.LowerBound | sparsepp/spp_btree.h:314-317 | the first key not less than k |
| SppBtreeNode.Node.UpperBound | sparsepp/spp_btree.h:320-323 | the first key greater than k, through the upper-bound adapter |
| SppBtreeNode.Node.InsertValue | sparsepp/spp_btree.h:984-1002 | the keys become old[..i] + [x] + old[i..]; an internal node gets a null child at i + 1 with later children shifted |
| SppBtreeNode.Node.RemoveValue | sparsepp/spp_btree.h:1005-1022 | the key at i is removed; an internal node loses child i + 1 with later children shifted |
| SppBtreeNode.Node.Split | sparsepp/spp_btree.h:1118-1159 | this node's keys, the new separator and dest's keys read as the old keys; dest gets count - 1 keys for an insertion at 0, none at max_count, half otherwise; the parent gains the separator and dest |
| SppBtreeNode.Node.Merge | sparsepp/spp_btree.h:1162-1195 | the keys become old + [separator] + src's keys; src is emptied; the parent loses the separator and src's child slot |
| SppBtreeNode.Node.RebalanceRightToLeft | sparsepp/spp_btree.h:1025-1067 | the separator and src's first toMove - 1 keys are appended, src's key toMove - 1 becomes the separator, and src keeps the rest |
| SppBtreeNode.Node.RebalanceLeftToRight | sparsepp/spp_btree.h:1070-1115 | this node's last toMove - 1 keys and the old separator go in front of dest, and this node's key at count - toMove becomes the separator |
| SppBtreeNode.Node.Swap | sparsepp/spp_btree.h:1198-1228 | two nodes of the same kind, each with room for the other's values (sizes may differ), trade their keys and children |
| SppBtree.RotateLeft | sparsepp/spp_btree.h:1025-1067 | moving keys right to left through the separator keeps the in-order sequence |
| SppBtree.RotateRight | sparsepp/spp_btree.h:1070-1115 | moving keys left to right through the separator keeps the in-order sequence |
| SppBtree.LeftMove | sparsepp/spp_btree.h:1586-1600 | how many keys rebalance_or_split moves to the left sibling: never more than its room, and when it moves some the insertion target has room |
| SppBtree.RightMove | sparsepp/spp_btree.h:1618-1632 | the same for the right sibling |
| SppBtree.IntoLeft | sparsepp/spp_btree.h:1587-1614 | the left rebalance keeps left + separator + node as before, and the insertion target has room at the insertion position |
| SppBtree.IntoRight | sparsepp/spp_btree.h:1618-1645 | the right rebalance keeps node + separator + right as before, and the target has room at the insertion position |
| SppBtree.SplitChild | sparsepp/spp_btree.h:1681-1700 | node + separator + new node read as the old node, the parent gains the separator and the new child, and the target has room at the insertion position |
| SppBtree.RebalanceOrSplit | sparsepp/spp_btree.h:1576-1701 | the left sibling is tried first, then the right, then a split; each case keeps the keys in order and leaves room for the insertion at the position it reports |
| SppBtree.GrowLeafRoot | sparsepp/spp_btree.h:1834-1846 | a full leaf root smaller than a full node moves by swap into a fresh leaf root of twice its size, capped at a full node, keeping its keys and gaining room |
| SppBtree.GrowRoot | sparsepp/spp_btree.h:1656-1700 | a full root becomes two children of an internal root (a new one for a leaf root, the same one otherwise) that hold its keys in order |
| SppBtree.Choose | sparsepp/spp_btree.h:1718-1775 | the repair try_merge_or_rebalance picks: a merge only when the result fits, a rebalance only from a sibling above half with the iterator condition, nothing otherwise |
| SppBtree.TryMergeOrRebalance | sparsepp/spp_btree.h:1718-1775 | reports a merge exactly on the merge paths; each path keeps the keys in order and the iterator at the same value |
| SppBtree.TryShrink | sparsepp/spp_btree.h:1778-1808 | a non-empty root stays; an empty leaf root leaves the tree empty; an empty internal root is replaced by its leaf child or takes its internal child's contents |
| SppBtreeSet.Locate | sparsepp/spp_btree.h:1868-1880 | on sorted values k is present exactly when the lower bound lands on it |
| SppBtreeSet.InsertSorted | sparsepp/spp_btree.h:1320-1345 | inserting at the lower or upper bound keeps the values sorted |
| SppBtreeSet.UniqueInsertion | sparsepp/spp_btree.h:1320-1345 | inserted exactly when k was absent; nothing changes otherwise; the iterator designates k and the values stay sorted |
| SppBtreeSet.UniqueStaysStrict | sparsepp/spp_btree.h:1320-1345 | insert_unique never lets a value in twice |
| SppBtreeSet.UniqueInsertTwice | sparsepp/spp_btree.h:1320-1345 | a second insert_unique of the same key changes nothing and reports the first one |
| SppBtreeSet.MultiInsertion | sparsepp/spp_btree.h:1389-1400 | k goes in after every value no greater than it and before every greater value |
| SppBtreeSet.Removal | sparsepp/spp_btree.h:1456-1522 | erase removes one occurrence of the value at i, keeps the rest sorted, and the returned position designates the value that followed |
| SppBtreeSet.UniqueRemoval | sparsepp/spp_btree.h:1533-1544 | returns 1 when k was present and then removes it, else 0 and no change |
| SppBtreeSet.UniqueRemovalGone | sparsepp/spp_btree.h:1533-1544 | without duplicates, k is gone after erase_unique |
| SppBtreeSet.EraseUndoesInsert | sparsepp/spp_btree.h:1533-1544 | erase_unique undoes an insert_unique that inserted |
| SppBtreeSet.Lookup | sparsepp/spp_btree.h:1916-1931 | the index of k when present, else the end |
| SppBtreeSet.FindAfterInsert | sparsepp/spp_btree.h:747-750 | find_unique finds what insert_unique inserted, at the position insert_unique reported |
| SppBtreeSet.Occurrences | sparsepp/spp_btree.h:765-774 | count_unique is 1 exactly when k is present, else 0 |
| SppBtreeSet.CountIsMultiplicity | sparsepp/spp_btree.h:765-774 | without duplicates, count_unique is the number of occurrences of k |
| SppBtreeSet.Btree.constructor | sparsepp/spp_btree.h:1306-1310 | a new tree holds no values |
| SppBtreeSet.Btree.Size | sparsepp/spp_btree.h:813-820 | the number of values held |
| SppBtreeSet.Btree.InsertUnique | sparsepp/spp_btree.h:1320-1345 | the new contents and the result are UniqueInsertion's |
| SppBtreeSet.Btree.InsertMulti | sparsepp/spp_btree.h:1389-1400 | the new contents and the result are MultiInsertion's |
| SppBtreeSet.Btree.Erase | sparsepp/spp_btree.h:1456-1522 | the new contents are Removal's and the returned position is i |
| SppBtreeSet.Btree.EraseUnique | sparsepp/spp_btree.h:1533-1544 | the new contents and the count are UniqueRemoval's |
| SppBtreeSet.Btree.FindUnique | sparsepp/spp_btree.h:745-754 | the result is Lookup's |
| SppBtreeSet.Btree.CountUnique | sparsepp/spp_btree.h:765-774 | the result is Occurrences' |
| SppAlloc.Page.constructor | sparsepp/spp_alloc.h:118 | every slot free, the whole page recorded as the free run, and the promise kept for lf = bm_sz |
| SppAlloc.Page.NumAllocated | sparsepp/spp_alloc.h:265-270 | the number of busy slots, and with _num_free it makes bm_sz |
| SppAlloc.Page.LongestFree | sparsepp/spp_alloc.h:253-263 | the free count when it is at most 1; otherwise a length with a free run, either the longest run or max_lf, and a recorded start is the first run of that length |
| SppAlloc.Page.UpdateLongestFree | sparsepp/spp_alloc.h:283-295 | diff is the change of lf; the new lf keeps the promise whenever the free count is current or above 1 |
| SppAlloc.Page.Mark | sparsepp/spp_alloc.h:126-132 | the block is the first fit from _start_idx, was free, becomes busy, and the next search starts after it |
| SppAlloc.Page.AllocateAsWritten | sparsepp/spp_alloc.h:124-150 | as allocate; lf stays honest except when the page's last free slot is taken off the recorded run, where lf = 1 is left with no free slot |
| SppAlloc.Page.SettleAsWritten | sparsepp/spp_alloc.h:134-143 | lf recomputed before _num_free is lowered, with the same exception |
| SppAlloc.Page.UpdateThenLower | sparsepp/spp_alloc.h:140-143 | the recomputation while _num_free still counts the taken slots: honest above one free slot, lf = 1 with no free slot otherwise |
| SppAlloc.Page.FastPath | sparsepp/spp_alloc.h:134-139 | when the block was the front of the recorded run holding every free slot, the run and lf shrink by n and the promise is kept |
| SppAlloc.Page.Allocate | sparsepp/spp_alloc.h:124-150 | the block is the first fit from _start_idx, becomes busy, _num_free drops by n, _start_idx = start + n, and lf keeps the promise on every path |
| SppAlloc.Page.Settle | sparsepp/spp_alloc.h:134-147 | after marking, the fast path or the recomputation leaves lf honest and no larger than the free count |
| SppAlloc.Page.LowerThenUpdate | sparsepp/spp_alloc.h:140-147 | with _num_free lowered first, the recomputed lf keeps the promise |
| SppAlloc.ExtendChoice | sparsepp/spp_alloc.h:159-202 | none exactly when lf is below add or there is no room on either side; after the block when asked and free; before it when free and after was not taken |
| SppAlloc.Page.Extend | sparsepp/spp_alloc.h:152-203 | grows the block where ExtendChoice says, only into free slots; _num_free drops by add on success, nothing changes on failure, and lf keeps the promise |
| SppAlloc.Page.GrowAfter | sparsepp/spp_alloc.h:167-176 | the slots after the block become busy and lf stays honest |
| SppAlloc.Page.GrowBefore | sparsepp/spp_alloc.h:179-189 | the slots before the block become busy and lf stays honest |
| SppAlloc.Page.ChooseExtend | sparsepp/spp_alloc.h:159-190 | the decision read from the bitset is ExtendChoice |
| SppAlloc.Page.Shrink | sparsepp/spp_alloc.h:205-218 | exactly [start + new_sz, start + old_sz) is freed, _num_free rises by old_sz - new_sz, the same start is returned, and lf stays honest |
| SppAlloc.Page.FreeAsWritten | sparsepp/spp_alloc.h:220-251 | the block is freed and _num_free rises by n; a page left entirely free takes lf = bm_sz and run start 0 but reports diff 0 |
| SppAlloc.Page.Free | sparsepp/spp_alloc.h:220-251 | as free, with diff the change of lf on every path |
| SppAlloc.Page.MergeAround | sparsepp/spp_alloc.h:230-241 | the free run around the freed block becomes the recorded run when longer than lf, and lf stays honest |
| SppAlloc.Page.RecordWholePage | sparsepp/spp_alloc.h:225-229 | a page with every slot free records lf = bm_sz from 0 |
| SppAlloc.SegmentAllocate | sparsepp/spp_alloc.h:367-381 | nothing happens and no page is created when n > longest_free; otherwise the page, made on first use, marks n free slots busy and lf follows |
| SppAlloc.SegmentExtend | sparsepp/spp_alloc.h:383-388 | the page extends the block where ExtendChoice says, and lf follows |
| SppAlloc.SegmentShrink | sparsepp/spp_alloc.h:390-394 | the page frees the block's tail, and lf follows |
| SppAlloc.SegmentFreeAsWritten | sparsepp/spp_alloc.h:396-406 | the page frees the block; a page left empty is released with lf = bm_sz and diff 0 |
| SppAlloc.SegmentFree | sparsepp/spp_alloc.h:396-406 | as free, with diff the change of lf; the page is released exactly when it is left empty |
| SppAlloc.SegmentNumAllocated | sparsepp/spp_alloc.h:408-411 | the busy slots of the page, 0 without one |
| SppSegTree.SegTree.constructor | sparsepp/spp_alloc.h:449-455 | no live page, no slot allocated, two leaves |
| SppSegTree.SegTree.Allocate | sparsepp/spp_alloc.h:457-527 | n free slots of some page become busy and the count rises by n; the hint's page is used when it is live, can take them and is not the highest-addressed live page (`hintLast`) |
| SppSegTree.SegTree.TryHint | sparsepp/spp_alloc.h:465-475 | with `hintLast` (no page above the hint) nothing is tried and nothing changes; otherwise the hint's page allocates when it is live and has room, only that page is used, and a failed try changes nothing |
| SppSegTree.SegTree.FirstFit | sparsepp/spp_alloc.h:480-526 | after growing when needed, the descent allocates n slots, which cannot fail |
| SppSegTree.SegTree.FindLeaf | sparsepp/spp_alloc.h:513-523 | the descent ends at the leftmost leaf whose longest_free is at least n |
| SppSegTree.SegTree.Prepare | sparsepp/spp_alloc.h:462-463 | a vector of 2 * _num_seg empty segments |
| SppSegTree.SegTree.Grow | sparsepp/spp_alloc.h:480-511 | the tree doubles in width, the root advertises a whole page, and every live page keeps its bitmap |
| SppSegTree.SegTree.Relocated | sparsepp/spp_alloc.h:484-492 | node k of the new vector is the old node it was moved from, or an empty segment |
| SppSegTree.MoveLevel | sparsepp/spp_alloc.h:487-491 | one level's nodes move to the second half of the next level up |
| SppSegTree.SegTree.Reindexed | sparsepp/spp_alloc.h:497-503 | the rebuilt index maps each leaf's page to its leaf |
| SppSegTree.GrownInv | sparsepp/spp_alloc.h:480-511 | the grown vector keeps the heap, the leaves and the index invariant |
| SppSegTree.SegTree.Alloc | sparsepp/spp_alloc.h:608-625 | succeeds exactly when n is at most the leaf's longest_free; then n slots become busy, the count rises by n, and a new page enters the index |
| SppSegTree.SegTree.Deallocate | sparsepp/spp_alloc.h:529-533 | the n busy slots at p become free and the count drops by n |
| SppSegTree.SegTree.FindPage | sparsepp/spp_alloc.h:600-606 | the leaf holding a live page |
| SppSegTree.SegTree.Extend | sparsepp/spp_alloc.h:539-552 | the same size gives p back, a smaller one null; otherwise the block grows where ExtendChoice says and the count follows, and a refused growth leaves the bitmaps, the count and the page's longest_free as they were |
| SppSegTree.SegTree.ExtendAt | sparsepp/spp_alloc.h:627-641 | every try is counted; on success the block grows, the count rises by add and the success is counted; on failure the segment vector and the page index are untouched |
| SppSegTree.SegTree.Shrink | sparsepp/spp_alloc.h:554-560 | the block's tail is freed and p is returned |
| SppSegTree.SegTree.ShrinkAt | sparsepp/spp_alloc.h:643-654 | the leaf frees the tail, and the count drops by old_sz - new_sz |
| SppSegTree.SegTree.Free | sparsepp/spp_alloc.h:656-676 | the block is freed, the count drops by n, an empty page leaves the index, and the vector is dropped once no page is live |
| SppSegTree.SegTree.Clear | sparsepp/spp_alloc.h:669-673 | with no live page the vector and index are dropped, and nothing is allocated |
| SppSegTree.SegTree.UpdateSegmentTree | sparsepp/spp_alloc.h:680-709 | after one leaf changes, every inner node is again the larger of its children, and no leaf changes; diff 0 changes nothing |
| SppSegTree.SegTree.RaiseParents | sparsepp/spp_alloc.h:685-693 | the raising walk restores the heap |
| SppSegTree.SegTree.LowerParents | sparsepp/spp_alloc.h:694-708 | the lowering walk restores the heap |
| SppSegTree.StaleParentAfterFullFree | sparsepp/spp_alloc.h:680-683 | a leaf raised above its parent with no walk breaks the heap |
| SppSegTree.StaleParentExample | sparsepp/spp_alloc.h:225-229 | a two-leaf tree whose leaf goes from 63 to 64 with diff 0 keeps root 63 below it |
| SppSegTree.SegTree.Validate | sparsepp/spp_alloc.h:562-569 | the busy slots of all segments add up to _num_allocated |
| SppSegTree.SumSegments | sparsepp/spp_alloc.h:564-566 | the loop's sum is the total of the leaves' counts |
| SppAllocator.Allocator.constructor | sparsepp/spp_alloc.h:722 | a new, empty tree |
| SppAllocator.Allocator.Copy | sparsepp/spp_alloc.h:724 | the copy shares the tree |
| SppAllocator.Allocator.Allocate | sparsepp/spp_alloc.h:743-746 | n free slots become busy, in the hint's page when it is live, can take them and is not the highest-addressed live page |
| SppAllocator.Allocator.Deallocate | sparsepp/spp_alloc.h:748-751 | the n slots at p become free |
| SppAllocator.Allocator.Extend | sparsepp/spp_alloc.h:757-760 | the block grows in place where ExtendChoice says, or null with nothing changed, the page's longest_free included |
| SppAllocator.Allocator.Shrink | sparsepp/spp_alloc.h:762-776 | to 0 frees the block and gives null; to the same size gives p with nothing changed; otherwise frees the tail and gives p |
| SppAllocator.Allocator.Reallocate | sparsepp/spp_alloc.h:778-799 | null allocates; a size no larger shrinks; otherwise grows in place if it can, else takes new_size slots, in p's page when the hint search finds it and it has room, and then frees the old block |
| SppAllocator.Allocator.Enlarge | sparsepp/spp_alloc.h:786-798 | in place when extend can, else moved, staying in q's page when the hint search finds it and it has room |
| SppAllocator.Allocator.Move | sparsepp/spp_alloc.h:794-798 | new_size slots are taken with p as the hint, so in p's page when the hint search finds it and it has room, then the old block is freed |
| SppAllocator.StaysLive | sparsepp/spp_alloc.h:794-797 | allocating keeps every busy block busy, so the old block can still be freed |
| SppSmartPtr.RcObj.constructor | sparsepp/spp_smartptr.h:16 | count 0 and no holder |
| SppSmartPtr.RcObj.Copy | sparsepp/spp_smartptr.h:17 | a copy starts at count 0 whatever the original's count |
| SppSmartPtr.RcObj.Increment | sparsepp/spp_smartptr.h:18 | the count rises by one, for one more holder |
| SppSmartPtr.RcObj.Decrement | sparsepp/spp_smartptr.h:19 | the count drops by one, and the object is deleted exactly when it reaches 0 |
| SppSmartPtr.RcObj.Count | sparsepp/spp_smartptr.h:20 | the positive number of holders |
| SppSmartPtr.SPtr.Null | sparsepp/spp_smartptr.h:34 | holds null |
| SppSmartPtr.SPtr.constructor | sparsepp/spp_smartptr.h:35 | holds q, whose count rises by one |
| SppSmartPtr.SPtr.Copy | sparsepp/spp_smartptr.h:36 | holds o's target, whose count rises by one |
| SppSmartPtr.SPtr.Destroy | sparsepp/spp_smartptr.h:37 | the target's count drops by one, and it is deleted at 0 |
| SppSmartPtr.SPtr.Get | sparsepp/spp_smartptr.h:39 | the held pointer |
| SppSmartPtr.SPtr.Swap | sparsepp/spp_smartptr.h:40 | the held pointers are exchanged and no count changes; between different targets each holder set trades the one pointer for the other, and a shared target keeps its holders |
| SppSmartPtr.SPtr.Reset | sparsepp/spp_smartptr.h:41-48 | the same target changes nothing; otherwise the old target's count drops (deleted at 0) and the new one's rises |
| SppSmartPtr.SPtr.Assign | sparsepp/spp_smartptr.h:38 | reset to o's target: the same target changes nothing; otherwise the old target loses this holder and is deleted exactly when its count reaches 0, and o's target gains it |

## Left out

- Memory itself: `malloc` and free of pages, placement new, item storage and the `memmove` and `memcpy` of `reallocate`. Pointers are `Ptr(page, offset)`. A page's address order, which `_find_page` and the hint search use, is not modelled: the index maps a page to its leaf.
- SppSegTree.SegTree.TryHint: page addresses are not modelled, so the outcome of `upper_bound` in the hint search is a parameter, `hintLast`. When the hint lies in the highest-addressed live page (always so when only one page is live), the source finds no page above it and never uses the hint; the model does the same but cannot decide on its own when that holds. A hint below every page, where the source steps back from `begin()`, is not modelled: the model tries the page that the hint `Ptr` carries.
- SppSegTree.SegTree.Alloc, SppSegTree.SegTree.Free, SppSegTree.SegTree.Deallocate and the SppAllocator members are built on Page.Allocate and Page.Free as corrected under "## Findings" (rows 2 and 3), so the tree's exact heap in Valid(), FindLeaf's leftmost leaf with room and these members' contracts describe the corrected allocator. In the source as written, freeing a page's last busy slot leaves the parents stale, and taking a page's last free slot on the slow path leaves its leaf advertising 1 for a full page. Only StaleParentAfterFullFree and StaleParentExample show the tree as written (and AllocateAsWritten the page).
- Requests of 0 slots, and sizes above `bm_sz`. Callers of the allocator are required to pass `1 <= n <= bm_sz`, as the source asserts.
- The swaps of segment-tree growth are modelled as assignments into a fresh vector. The moved-from segments are not emptied one by one.
- `PageContainer` and its `USE_BTREE` variants are modelled as a map from page to leaf index.
- `spp_allocator`'s `rebind`, `swap` and move constructor; the reference count the allocator keeps on its tree.
- The B-tree's parent and position links, the root's rightmost and size fields, and node allocation: nodes are objects holding their keys and children.
- SppBtree.RebalanceOrSplit: requires room in the parent. The recursive call that first makes room in a full parent is not modelled.
- The tree-level walk is modelled on the in-order sequence of values, not on nodes. This covers the descents of `insert_unique`, `insert_multi` and `find_unique`, the walk back up in `erase`, `internal_delete`, and iterator increment and decrement. The node operations and the repairs they use are modelled separately, over nodes.
- Keys are `int` with `<` as the comparator. Values other than keys, generic comparators and allocators are left out.
- `insert` with a hint, range inserts, `erase(begin, end)`, `erase_multi`, `count_multi`, reverse iterators and the container wrappers (`btree_set` and the unique container) are left out.
- 64-bit words are sequences of 64 booleans. `s_popcount` and `count_leading_zeros` come from a utility header that is not part of this model; they are given by their specifications (`Words.Popcount`, `Words.Clz`).
- The bitset's range operations require `from <= to <= N`, as all their callers provide.
- SppSegTree.SegTree.Validate: states that the total always equals `_num_allocated` (`ensures ok`), which is the source's assert. The walk over the vector's inner nodes, which hold no page, is folded into the sum of the leaves.
- Statistics of the allocator other than `_num_extend_tries` and `_num_extend_successes` are left out.

## Findings

| source | as written | input that shows it | evidently intended | confidence | as-written member | corrected member |
|---|---|---|---|---|---|---|
| sparsepp/spp_bitset.h:63 | `flip(pos)` XORs its word with `~_mask(pos)` | any pos, and any other bit q of the same word: q is inverted and pos is not | XOR with `_mask(pos)`, inverting bit pos only | high, not executed | SppBitset.FlipAsWrittenMissesBit | SppBitset.Bitset.Flip |
| sparsepp/spp_alloc.h:225-229 | `Page::free` on a page left entirely free sets `lf = bm_sz` but leaves `diff` at the caller's 0, so `_update_segment_tree` returns at once | two leaves with longest_free 63 and 1 and root 63; freeing the last busy slot of the first leaf makes it 64 while the root stays 63, and `allocate(64)` then grows the tree instead of using that empty leaf | `diff = bm_sz - lf`, so that the parents are raised | medium, not executed | SppSegTree.StaleParentExample | SppAlloc.Page.Free |
| sparsepp/spp_alloc.h:134-143 | `allocate` calls `_update_longest_free` before `_num_free -= n` | a page with one free slot, no recorded run and lf = 1: after taking that slot, `longest_free()` still sees `_num_free == 1` and reports lf = 1 for a page with no free slot | lower `_num_free` first, so that lf becomes 0 | medium, not executed | SppAlloc.Page.AllocateAsWritten | SppAlloc.Page.Allocate |
