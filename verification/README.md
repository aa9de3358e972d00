# seqc, verified

seqc is a C library of containers over untyped elements. These Dafny files model its stateful
components and prove what they promise, for every input, every run and every hash or comparison function
that keeps the documented laws:

- **the Robin Hood hash map and set** (`hashmap`, `set`): displacement cascades, early-stop lookup, backward-shift
  removal, the 8-bit probe-sequence length (PSL) and its resize trigger, block ownership, and the set algebra;
- **the AVL tree** (`avl`) **and the ordered map** (`omap`): heap nodes relinked in place by rotations, successor-copy
  deletion, the logarithmic height, and the explicit-stack iterators, forward, reverse and by range;
- **the binary heap** (`pqueue`): sifting, Floyd's linear-time heapify, heapsort;
- **the lazy iterators** (`iter`): each adaptor an object that owns its source and its buffers, their compositions,
  peeking, and the views that `iter_window` and `iter_chunks` hand out of a buffer they overwrite;
- **strings** (`string`): find, split, join, replace, and case-insensitive keys;
- **the ring buffer** (`ringbuf`): masked wrap-around and linearising growth.

Code that changes state is a class or a method over arrays, fields or nodes; what it computes is a function on values
(a finite map, a tree, a sequence), and the laws are lemmas about those functions.

## The main results

1. *The 8-bit PSL never overflows.* Over every run, `max_psl <= 128 + log2(cap / 16) <= 182`, whatever the hash
   function, so the assertion in `hashmap_insert_raw` cannot fire and the `uint8_t` counters never wrap
   (`MapRuns.Run`, `RobinHoodLoops.Displace`; for the set `SetRuns.Run`). It rests on a comparison with any other
   placement of the keys, in a table of the same size or of half of it: no probe here is longer than the longest one
   there, plus one step for each key that is missing there (`RobinHood.NoLongerThan`). Therefore doubling never
   lengthens the longest probe (`RobinHood.DoublingNeverLengthens`), and a Robin Hood table has the shortest longest
   probe of all linear-probing placements of its keys (`RobinHood.RobinHoodIsOptimal`).
2. *The table keeps no trace of its history.* Capacity and keys alone determine every stored PSL
   (`RobinHood.NoTraceOfHistory`).
3. *The hash map is a finite map modulo `eq`* through any resizes and allocation failures, and owns exactly two live
   blocks per entry (`MapRuns.Run`); the set is a set modulo `eq` and owns exactly one per element (`SetRuns.Run`).
   Every out-of-memory status in a run stands for exactly one request that the allocator refused. Union, intersection
   and difference are those of mathematical sets, also where the destination is an operand.
4. *The tree operations on the heap are sequence operations on the sorted contents*, keep exact heights and balance,
   and keep `len >= fib(height + 2) - 1`, hence `2^height <= (len + 1)^2` (`SearchTrees.HeightIsLogarithmic`,
   `OMap.OMap.Run`). The iterators over the nodes yield those contents, their reverse, or exactly the entries within
   both bounds, these included; when memory runs out, a part of that without gaps (`TreeIter.Ascending`,
   `TreeIter.InRange`).
5. *Heapify makes fewer than n swaps, a push or a pop log2 n at most*, draining the queue sorts, and in every run each
   pop takes a least element of what was pushed and not yet popped (`PQueue.Run`).
6. *Any composition of iterator adaptors that keeps the documented rule for views, drained, is the composition of the
   documented sequence functions* (`Iter.Evaluate`), flat_maps of sub-pipelines of any shape included. What each of
   these functions is, element by element, is stated for each adaptor (`PlanLaws`). Peeks thrown in anywhere change
   nothing (`Iter.EvaluatePeeking`).
7. *Where views of one buffer are kept against that rule, they read right exactly if they are nested*, each a prefix
   of every longer one; kept over the end of a window adaptor, which shifts its buffer, exactly if all their elements
   are one value. From this follows when `iter_window`, `iter_chunks`, `iter_dedup` and `iter_collect` over such views
   give the documented result (`LiveViews.GroupHolds`, `LiveViews.WindowViews`, `LiveViews.ChunkViews`,
   `LiveViews.DedupViews`, `LiveViews.CollectViews`). All these conditions are about what the source yields. For
   `iter_collect` they presuppose memory that is never reclaimed: the buffer is freed with the pipeline, and only a
   collection of nothing survives that.
8. *Join undoes split; split undoes join exactly when the tokens are separable; replace is split followed by join.*
   The split by a set of bytes is the only way to cut a string at single bytes of the set that leaves none in a token
   (`Strings.SetSplitCuts`, `Strings.SetSplitIsTheOnly`).
9. *The ring buffer is a double-ended sequence* over every run.

## How the C is read

- Elements, keys and values are abstract types. `eq_fn` is an equivalence that `hash_fn` respects, and nothing else is
  assumed of hashing: constant hashes are included. `compare_fn` is a total preorder.
- A `uint8_t` is a number below 256 whose increments wrap, as written. A `size_t` is unbounded, except that no
  allocator provides a table of more than 2^58 buckets (16 or 24 bytes each), and that `rb_grow` checks `SIZE_MAX / 2`
  as the source does.
- An allocator counts the requests made and those it refuses. A generous one refuses only a table of more than 2^58
  buckets; any other refuses whenever it likes. An out-of-memory status leaves contents unchanged, and comes with one
  refusal counted in that call, or from the size limit of `rb_grow`.
- The hash map's allocator keeps a ledger of live blocks, and so does the set's. A block must be live to be freed.
- An element that an iterator hands out is a value, a pair of such, or a view: a slice of a buffer that the next call
  overwrites. It is read when somebody reads it. `iter_map` and `iter_flat_map` functions that copy what they are
  handed are told apart from those that hand it on.
- A pipeline is *proper* when no adaptor keeps an element that may be a view past the next call, as
  `docs/iter.md:438-440`, `docs/iter.md:462-463` and `include/seqc/iter.h:124-130` ask of callers (`Plans.Proper`,
  `Plans.Live`). A source that says false may have written in the place where the next element was to go, unless it is
  one of those that never do (`Plans.Quiet`).
- `slot & (cap - 1)` is a bitwise AND, proved equal to the remainder for powers of two.
- `hashmap.c` and `set.c` write the probe and the displacement loop twice, `avl.c` and `omap.c` everything about
  nodes. The common code appears once, generic in the payload: an AVL set stores `()`, a hash set the block of its
  key.

Where the code and its documentation differ, the model follows the code:

- `docs/iter.md:319-320` says that `take_while` stops permanently. It does not remember its stop: on the
  documentation's own example {3, 7, -1, 5} a fourth call yields 5 (`Iter.TakeWhileResumes`). It stops for good
  exactly when nothing after the first failing element satisfies the predicate (`Iter.TakeWhileStopsForGood`).
- `docs/hashmap.md:273-275` says that a table is resized at once when an insert takes `max_psl` to the threshold. The
  code resizes at the start of the next set: a set doubles the table if and only if `(len + 1) * 4 > cap * 3` or
  `max_psl >= 128` held before it (`HashMap.HashMap.Set`). Setting 128 keys with one hash ends with `max_psl` 128 in a
  table that was not resized (`MapRuns.ResizeWaits`). Removals do not lower `max_psl`; a rehash recomputes it.
- `docs/string.md:690-691` says that `string_join(string_split_substr(s, d), d)` is `s`. The contents always come
  back, and `s` itself if and only if it is not an empty string with a pointer, which comes back as NULL
  (`Strings.SplitAndJoin`).
- `iter_dedup(iter_window(it, 2), cmp)` over 1, 2, 3 yields the first window only: the window it compares with is the
  same memory as the new one (`LiveViews.DedupOfWindows`). In general the result is the documented one if and only if
  all windows compare equal to the first.

## Model

| member | source | states |
|---|---|---|
| Bits.Mask | src/ringbuf/ringbuf.c:23-26 | Masking with cap - 1 is the remainder modulo a power-of-two cap, for every x |
| Bits.ModIsRemainder | src/hashmap/hashmap.c:91-95 | The home slot is the hash less a multiple of the capacity |
| RobinHood.LookupAfterInsert | src/hashmap/hashmap.c:168-200 | In the finite map modulo eq, an inserted value is found under every equal key and no other lookup changes |
| RobinHood.LookupAfterDelete | src/hashmap/hashmap.c:374-412 | A deleted key is found no more under any equal key; other lookups do not change |
| RobinHood.InsertThenDelete | src/hashmap/hashmap.c:374-412 | Inserting a fresh key and deleting it gives back the same map |
| RobinHood.Room | src/hashmap/hashmap.c:97-137 | A table with fewer entries than buckets has an empty bucket, so every probe loop ends |
| RobinHood.SearchStep | src/hashmap/hashmap.c:345-358 | Passing a bucket at least as poor with an unequal key: any equal key must have a longer PSL still |
| RobinHood.SearchStop | src/hashmap/hashmap.c:347-351 | The early stop: a bucket richer than the probe proves that no equal key is stored anywhere |
| RobinHood.Crowd | src/hashmap/hashmap.c:97-137 | Behind a bucket of PSL p, some L consecutive slots are the homes of L + p - 1 stored keys |
| RobinHood.Outnumbered | src/hashmap/hashmap.c:97-137 | Pigeonhole: L + p - 1 keys with homes in L slots force a PSL of at least p in any placement |
| RobinHood.NoLongerThan | src/hashmap/hashmap.c:97-137 | No PSL exceeds the longest of any placement of all but some of the keys, in the same table or one half as large, plus one for each key left out |
| RobinHood.RobinHoodIsOptimal | src/hashmap/hashmap.c:97-137 | Among all linear-probing placements of the same keys the Robin Hood table has the shortest longest probe |
| RobinHood.DoublingNeverLengthens | src/hashmap/hashmap.c:139-166 | The same contents in a table twice the size have no longer longest probe, whatever the hash |
| RobinHood.PslsGrowWithKeys | src/hashmap/hashmap.c:97-137 | More keys mean a PSL at least as long in every single slot |
| RobinHood.NoTraceOfHistory | src/hashmap/hashmap.c:374-412 | Two tables of one capacity with equal keys have the same PSL in every slot, however they were built |
| RobinHoodSteps.CascadeStart | src/hashmap/hashmap.c:99-100 | A cascade begins with nothing displaced, and somewhere there is an empty bucket |
| RobinHoodSteps.CascadeHit | src/hashmap/hashmap.c:114-122 | An equal key is met before anything was displaced, and the table is as it was |
| RobinHoodSteps.CascadeSwap | src/hashmap/hashmap.c:123-132 | Taking a richer bucket keeps table and bucket in hand a placement of all keys, in order, below the PSL bound |
| RobinHoodSteps.CascadeSkip | src/hashmap/hashmap.c:133-135 | Passing a bucket keeps the same, and the incremented 8-bit PSL does not wrap |
| RobinHoodSteps.CascadePlace | src/hashmap/hashmap.c:104-113 | Putting the bucket in hand into an empty slot completes a table with the key added |
| RobinHoodSteps.HoleStart | src/hashmap/hashmap.c:392-395 | Emptying a bucket leaves a table that is in order but for the edge at the hole |
| RobinHoodSteps.HoleShift | src/hashmap/hashmap.c:399-406 | Shifting the next bucket back moves the hole one on and keeps that |
| RobinHoodSteps.HoleDone | src/hashmap/hashmap.c:399-407 | When the next bucket is empty or at home, the table is in order without tombstones |
| RobinHoodLoops.Probe | src/hashmap/hashmap.c:344-358 | The lookup loop finds the bucket of the equal key if and only if the key is stored; its 8-bit counter never wraps |
| RobinHoodLoops.Displace | src/hashmap/hashmap.c:97-137 | The insert loop, with the source's overflow assertion: an equal key leaves the table untouched and is reported, a new one ends in a table with exactly that entry more; the longest PSL grows only within its bound |
| RobinHoodLoops.ShiftBack | src/hashmap/hashmap.c:397-406 | The shift loop turns a table with a hole into a table, and lengthens no PSL |
| RobinHoodLoops.DoublingsBound | src/hashmap/hashmap.c:174-181 | Tables the allocator can provide come from few enough doublings that 128 + doublings <= 182 |
| RobinHoodLoops.RehashStep | src/hashmap/hashmap.c:157-163 | Each reinserted bucket is new to the fresh table and keeps within the old longest PSL |
| RobinHoodLoops.RehashDone | src/hashmap/hashmap.c:157-165 | After the last bucket the fresh table has the old entries, all of them |
| HashMap.TwoBlocksEach | src/hashmap/hashmap.c:243-263 | When every live block is the key or the value of one entry, there are exactly 2 * len of them |
| HashMap.HashMap.constructor | src/hashmap/hashmap.c:202-241 | A new map is empty with 16 buckets and owns no blocks |
| HashMap.HashMap.UpdateInPlace | src/hashmap/hashmap.c:114-122 | An update in place changes that entry's value and frees the spare key copy and the old value, no other block |
| HashMap.HashMap.InsertRaw | src/hashmap/hashmap.c:97-137 | The entry is put, len counts it if new, the blocks freed are exactly those replaced, max_psl stays within its bound |
| HashMap.HashMap.Reinsert | src/hashmap/hashmap.c:157-163 | Rehashing transfers every entry and every block, and the recomputed max_psl is no longer than the old longest PSL |
| HashMap.HashMap.ResizeAndRehash | src/hashmap/hashmap.c:139-166 | Capacity doubles, entries and blocks are unchanged, max_psl does not grow; it asks once, and a refused table changes nothing |
| HashMap.HashMap.AllocCopies | src/hashmap/hashmap.c:184-194 | Two new blocks or none: a refused value copy returns the key copy; none if and only if a request was refused |
| HashMap.HashMap.InsertOwned | src/hashmap/hashmap.c:195-199 | The pair is put with the two blocks just allocated, and the ledger matches the entries again; max_psl grows by one at most |
| HashMap.HashMap.InsertCopy | src/hashmap/hashmap.c:183-199 | With room in the table: the pair is inserted, or memory ran out and nothing changed |
| HashMap.HashMap.Set | src/hashmap/hashmap.c:168-200 | Ok means the finite map with the pair inserted; the table doubles if and only if (len + 1) * 4 > cap * 3 or max_psl >= 128 before the call; out of memory leaves entries and live blocks unchanged and means that one request was refused in this call, Ok that none was, of two or with a resize three |
| HashMap.HashMap.GetPtr | src/hashmap/hashmap.c:336-359 | The value stored under an equal key, if there is one |
| HashMap.HashMap.WithinThreshold | src/hashmap/hashmap.c:174 | max_psl <= 128 + doublings <= 182, and every stored PSL is below 255 |
| HashMap.HashMap.RemoveAt | src/hashmap/hashmap.c:390-408 | The entry of the bucket is gone with both its blocks, and the table is whole again |
| HashMap.HashMap.Remove | src/hashmap/hashmap.c:374-412 | The finite map without the key; NotFound if and only if there was none, with the array untouched; max_psl is not lowered |
| HashMap.HashMap.Clear | src/hashmap/hashmap.c:265-282 | Empty, every block freed, capacity kept, max_psl reset |
| HashMap.HashMap.Summary | src/hashmap/hashmap.c:299-302 | Between operations: capacity is 16 times a power of two, max_psl bounds every stored PSL, so that a healthy report is sound, len is the number of entries, 2 * len blocks are live |
| MapRuns.Execute | src/hashmap/hashmap.c:168-200 | Each operation, lookups included, has its effect on the finite map and its reply; out of memory if and only if a request was refused, one |
| MapRuns.Run | src/hashmap/hashmap.c:168-200 | Over every run with resizes and refusals anywhere: contents and replies are those of the finite map, there are as many out-of-memory replies as refused requests, max_psl <= 128 + doublings <= 182, len is the cardinality, 2 * len blocks are live |
| MapRuns.ConstantHash | src/hashmap/hashmap.c:97-137 | When all keys have one home, the longest PSL is at least the number of keys |
| MapRuns.ResizeWaits | docs/hashmap.md:273-275 | 128 keys with one hash: the last set takes max_psl from below the threshold to it and leaves the capacity alone |
| SetRuns.TakesOutOne | src/set/set.c:193-231 | Elements being pairwise different, taking out those equal to a key takes out the one there is |
| SetRuns.Execute | src/set/set.c:151-231 | Each operation has its effect on the set and its reply; out of memory if and only if a request was refused, one |
| SetRuns.Run | src/set/set.c:151-280 | Over every run with resizes and refusals anywhere: elements and replies are those of the set modulo eq, there are as many out-of-memory replies as refused requests, max_psl <= 128 + doublings and <= 182, len is the cardinality, len blocks are live |
| HashMap.HashMap.SetThenRemove | src/hashmap/hashmap.c:374-412 | Setting a fresh key without a resize and removing it restores contents and the whole PSL array |
| HashSet.HashSet.constructor | src/set/set.c:108-125 | A new set is empty and has no table yet |
| HashSet.HashSet.Contains | src/set/set.c:127-149 | True if and only if an equal element is stored |
| HashSet.HashSet.InsertRaw | src/set/set.c:38-75 | The set's insert loop: adds the element, or reports an equal one, frees the spare key and changes nothing else |
| HashSet.HashSet.Reinsert | src/set/set.c:94-100 | Rehashing keeps the elements and does not lengthen the longest PSL |
| HashSet.HashSet.Resize | src/set/set.c:77-104 | Capacity doubles, elements are unchanged; it asks once, and a refused table changes nothing |
| HashSet.HashSet.InsertOwned | src/set/set.c:184-190 | The key just allocated is added, or is freed again as a duplicate; the ledger matches the elements |
| HashSet.HashSet.CapIsMultipleOf4 | src/set/set.c:171 | The set's load test, made before counting the new element, still keeps the load at 3/4 |
| HashSet.HashSet.InsertCopy | src/set/set.c:179-190 | With room in the table: added with one new block, duplicate, or out of memory with the live blocks as they were |
| HashSet.HashSet.Add | src/set/set.c:151-191 | Ok adds exactly the element, Duplicate if and only if an equal one was there; the capacity is 16 at first and doubles if and only if len * 4 >= cap * 3 or max_psl >= 128 before the call; out of memory changes nothing and means that one request was refused in this call; one live block for each element |
| HashSet.HashSet.ShiftOver | src/set/set.c:212-224 | The set's own shift loop, which overwrites before it empties, restores the table |
| HashSet.HashSet.RemoveAt | src/set/set.c:208-227 | The element of the bucket is gone with its block, and the table is whole again |
| HashSet.HashSet.Remove | src/set/set.c:193-231 | Removes exactly the stored element equal to the key and frees its block; NotFound if and only if there is none |
| HashSet.HashSet.Clear | src/set/set.c:264-280 | Empty, every key freed, capacity kept |
| HashSet.OneBlockEach | src/set/set.c:243-263 | When every live block is the key of one element, there are as many of them as elements |
| HashSet.HashSet.Ledger | src/set/set.c:264-280 | Between operations exactly len blocks are live, and len is the number of elements |
| SetAlgebra.GatherSkip | src/set/set.c:458-484 | A bucket that fails the filter leaves the scan's result right |
| SetAlgebra.GatherAdd | src/set/set.c:458-484 | A bucket that passes adds its class of equal keys, once |
| SetAlgebra.GatherDone | src/set/set.c:423-456 | A whole scan has gathered the source's elements that pass the filter, and nothing else |
| SetAlgebra.AddIfKept | src/set/set.c:466-483 | One bucket of a scan, membership test and addition, keeps the gathering right, also when the test is against dest as it grows |
| SetAlgebra.ScanSelf | src/set/set.c:423-456 | dest scanning itself adds nothing, though an addition may resize the table under the scan |
| SetAlgebra.ScanOther | src/set/set.c:458-484 | The scan of another set has gathered exactly its members that pass, or stops at the one request that was refused |
| SetAlgebra.AddScanned | src/set/set.c:430-455 | A scan adds to dest exactly the source's members that pass, however often dest resizes, and whether or not it is the scanned or the tested set |
| SetAlgebra.Union | src/set/set.c:423-456 | Members of dest before, of a, or of b; dest may be either |
| SetAlgebra.Intersection | src/set/set.c:458-484 | Members of dest before, or of both a and b, whichever operand is scanned; dest may be either |
| SetAlgebra.Difference | src/set/set.c:486-509 | Members of dest before, or of a but not of b; dest may be either |
| AvlTree.RotateRight | src/avl/avl.c:84-93 | A right rotation keeps the in-order sequence |
| AvlTree.RotateLeft | src/avl/avl.c:100-109 | A left rotation keeps the in-order sequence |
| AvlTree.Rebalance | src/avl/avl.c:111-143 | Rebalancing keeps the in-order sequence |
| AvlTree.RebalanceCases | src/avl/avl.c:111-143 | The shape after each of the four imbalances, and after none |
| AvlTree.RebalanceKeepsAvl | src/avl/avl.c:111-143 | An imbalance of two is repaired with exact heights, losing one level at most |
| AvlTree.Insert | src/avl/avl.c:165-204 | Insertion keeps balance and exact heights and grows the tree by one level at most |
| AvlTree.Remove | src/avl/avl.c:269-309 | Removal keeps balance and exact heights and shrinks the tree by one level at most |
| AvlContents.LookupAfterPut | src/omap/omap.c:167-215 | Putting a key changes the lookup of exactly the equal keys |
| AvlContents.LookupAfterOthers | src/omap/omap.c:294-339 | Removing a key changes the lookup of exactly the equal keys |
| AvlContents.PutChanges | src/omap/omap.c:167-215 | A present key has its value replaced where it is; a fresh one is one entry more |
| AvlContents.PutKeepsSorted | src/avl/avl.c:165-204 | Putting keeps the entries sorted |
| AvlContents.OthersChanges | src/avl/avl.c:269-309 | Removing takes out exactly the one entry of the key and keeps the rest sorted |
| AvlContents.InsertIsPut | src/avl/avl.c:165-204 | Tree insertion is putting into the sorted sequence |
| AvlContents.RemoveIsOthers | src/avl/avl.c:269-309 | Tree removal, with the successor's entry copied, is dropping the key from the sorted sequence |
| AvlContents.FindIsLookup | src/omap/omap.c:243-267 | The descent by comparisons finds what a scan of the contents finds |
| AvlContents.MinIsFirst | src/avl/avl.c:260-267 | The end of the left spine is the first entry |
| AvlContents.MaxIsLast | src/avl/avl.c:342-354 | The end of the right spine is the last entry |
| AvlContents.OverwriteKeepsShape | src/omap/omap.c:206-212 | Setting a present key leaves the shape of the tree alone |
| AvlContents.FibonacciBound | src/avl/avl.c:67-143 | A balanced tree of height h has at least fib(h + 2) - 1 nodes |
| AvlContents.LogarithmicHeight | src/avl/avl.c:67-143 | 2^height <= (len + 1)^2 |
| AvlNodes.HeapNode.UpdateHeight | src/avl/avl.c:67-70 | The stored height is made exact and nothing else moves |
| AvlNodes.RotateRight | src/avl/avl.c:84-93 | Relinking in place turns the subtree into the rotated tree, over the same nodes |
| AvlNodes.RotateLeft | src/avl/avl.c:100-109 | Likewise to the left |
| AvlNodes.Rebalance | src/avl/avl.c:111-143 | The in-place step, single or double rotation, builds the rebalanced tree over the same nodes |
| AvlNodes.TurnLeftChild | src/avl/avl.c:122-127 | The first rotation of the left-right case, in place |
| AvlNodes.TurnRightChild | src/avl/avl.c:135-140 | The first rotation of the right-left case, in place |
| AvlNodes.DoInsert | src/avl/avl.c:165-204 | The recursive insert builds the inserted tree, reports whether the key is new, and changes nothing when memory runs out; one request for a new key, none for one that is there, and out of memory exactly if that was refused |
| AvlNodes.MinNode | src/avl/avl.c:260-267 | The loop down the left spine ends at the least entry |
| AvlNodes.TakeSuccessor | src/avl/avl.c:301-308 | A node with two children takes over the least entry on its right, which is removed there |
| AvlNodes.MaxNode | src/avl/avl.c:342-354 | The loop down the right spine ends at the greatest entry |
| AvlNodes.FindNode | src/avl/avl.c:232-256 | The search loop finds the entry of an equal key if and only if there is one |
| AvlNodes.DoRemove | src/avl/avl.c:269-309 | The recursive removal, successor copy and rebalancing up the path included, builds the removed tree and allocates nothing |
| SearchTrees.HeightIsLogarithmic | src/avl/avl.c:358-365 | Every reachable tree has len >= fib(height + 2) - 1 and 2^height <= (len + 1)^2 |
| SearchTrees.InsertKeeps | src/avl/avl.c:206-228 | Insertion keeps the contents sorted and adds one entry exactly when the key is new |
| SearchTrees.RemoveKeeps | src/avl/avl.c:311-324 | Removal keeps the contents sorted and drops one entry exactly when the key is there |
| OMap.OMap.constructor | src/omap/omap.c:147-163 | A new ordered map is empty |
| OMap.OMap.Set | src/omap/omap.c:217-239 | The pair is put into the sorted entries; a present key keeps the tree's shape; out of memory keeps the tree; out of memory only for a new key, exactly if the one request was refused |
| OMap.OMap.GetPtr | src/omap/omap.c:243-267 | The value of an equal key, if there is one |
| OMap.OMap.Remove | src/omap/omap.c:341-354 | The sorted entries without the key; NotFound if and only if it is not there |
| OMap.OMap.MinEntry | src/omap/omap.c:404-424 | The first of the sorted entries |
| OMap.OMap.MaxEntry | src/omap/omap.c:426-446 | The last of the sorted entries |
| OMap.OMap.Clear | src/omap/omap.c:479-488 | Empty |
| OMap.OMap.Execute | src/omap/omap.c:217-239 | Each operation has its effect on the sorted entries and its status |
| OMap.OMap.Run | src/omap/omap.c:217-354 | Over every run the map refines the sorted finite map, answers included, with as many out-of-memory statuses as refused requests, and its height stays logarithmic |
| AvlSet.Avl.constructor | src/avl/avl.c:147-161 | A new tree is empty |
| AvlSet.Avl.Add | src/avl/avl.c:206-228 | Ok adds exactly the element; Duplicate and out of memory change nothing; out of memory exactly if the one request was refused |
| AvlSet.Avl.Contains | src/avl/avl.c:232-256 | True if and only if an equal element is stored |
| AvlSet.Avl.Remove | src/avl/avl.c:311-324 | Removes exactly the element; NotFound if and only if it is not there |
| TreeIter.Iter.constructor | src/avl/avl.c:479-504 | A fresh iterator has the whole in-order sequence before it |
| TreeIter.Iter.Descend | src/avl/avl.c:446-458 | Pushing the left spine, to the end or to a refusal, keeps what is owed |
| TreeIter.Iter.Next | src/avl/avl.c:443-467 | Yields the next entry in order and takes just that one off what remains; a refused push answers None and loses nothing |
| TreeIter.Iter.Drain | src/avl/avl.c:443-467 | Drained, it has yielded the contents in ascending order, or a prefix if a push was refused |
| TreeIter.IterRev.Next | src/avl/avl.c:506-530 | Likewise in descending order |
| TreeIter.IterRev.Drain | src/avl/avl.c:506-530 | Drained, it has yielded the exact reverse, or a prefix if a push was refused |
| TreeIter.RangeIter.constructor | src/avl/avl.c:645-691 | Primed for any of the four combinations of bounds, it has exactly the entries in range before it, on a stack no deeper than the tree; with a refused push, an end part of them |
| TreeIter.RangeIter.PushLo | src/avl/avl.c:620-643 | Priming stacks at most height nodes, and they stand for exactly the entries not below lo; a refusal leaves an end part of these |
| TreeIter.RangeIter.Next | src/avl/avl.c:573-604 | Yields the next entry in range; the early stop above hi loses nothing, nor does a refused push, of which there is one at most |
| TreeIter.RangeIter.Drain | src/omap/omap.c:666-785 | Drained, it has yielded all entries before it up to hi, or a prefix if a push was refused |
| TreeIter.Ascending | src/omap/omap.c:533-597 | An iteration over an ordered map yields its sorted entries, all of them if no request was refused, else a prefix |
| TreeIter.Descending | src/omap/omap.c:598-656 | Likewise the last first, entry i of n being the one at n - 1 - i |
| TreeIter.InRange | src/omap/omap.c:666-785 | A range iteration yields, in order, only entries with lo <= key and key <= hi, and all of these if no request was refused; else a part of them without gaps |
| TreeIter.ElementsInRange | src/avl/avl.c:645-691 | The same for the AVL set |
| TreeIter.RangeHolds | src/avl/avl.c:590-597 | An entry is in the range if and only if it is stored, not below lo and not above hi; the bounds themselves are |
| Seqs.ReverseAt | src/avl/avl.c:506-530 | Element i of the reverse is the one at n - 1 - i |
| TreeIter.BelowStops | src/avl/avl.c:590-597 | One entry above hi means that all later ones are |
| TreeIter.AboveIsSuffix | src/avl/avl.c:620-643 | The entries not below lo are a suffix of the sorted contents |
| PQueue.RootIsLeast | src/pqueue/pqueue.c:137-161 | Heap order makes the root a least element |
| PQueue.HeapifyIsLinear | src/pqueue/pqueue.c:109-117 | The heights of all inner nodes of a heap of n elements add up to less than n |
| PQueue.DepthIsLogarithmic | docs/pqueue.md:94-96 | A node at depth d has at least 2^d - 1 nodes before it |
| PQueue.HeightIsLogarithmic | src/pqueue/pqueue.c:60-92 | 2^h times the number of a node of height h, the root being number 1, is at most n |
| PQueue.PQueue.constructor | src/pqueue/pqueue.c:14-25 | A new queue is empty |
| Memory.Allocator.MakeRoom | src/vec/vec.c:82-109 | A vector asks only when it is full, for twice the size, or for 16 at first |
| PQueue.PQueue.SiftUp | src/pqueue/pqueue.c:40-58 | Restores heap order after an element was appended, permuting the elements, in at most as many swaps as the node is deep |
| PQueue.PQueue.SiftDown | src/pqueue/pqueue.c:60-92 | Restores heap order at a node whose subtrees have it, in at most as many swaps as the node is high |
| PQueue.PQueue.PushAll | src/pqueue/pqueue.c:104-107 | The copying loop keeps the elements whose push was granted, in order; every push that was not is a refused request |
| PQueue.GrantedAt | src/pqueue/pqueue.c:104-107 | The elements kept are those at the granted positions, in order, and no others |
| PQueue.PQueue.Heapify | src/pqueue/pqueue.c:109-117 | Heap order for any array no longer than n, in fewer than n swaps |
| PQueue.PQueue.Push | src/pqueue/pqueue.c:122-135 | Adds exactly the element and keeps heap order, in at most log2 n swaps; it asks only when the vector is full, and out of memory changes nothing and means that this was refused |
| PQueue.PQueue.Pop | src/pqueue/pqueue.c:137-161 | Yields a least element, removes exactly that one and keeps heap order, in at most log2 n swaps; None only when empty |
| PQueue.PQueue.Drain | src/pqueue/pqueue.c:223-242 | Heapsort: an ascending permutation of the contents, and the queue is empty; if the request for the result is refused the contents are discarded and nothing is returned |
| PQueue.PQueue.PopAll | src/pqueue/pqueue.c:237-240 | Popping until the queue is empty yields the contents in ascending order |
| PQueue.Execute | src/pqueue/pqueue.c:122-161 | Each operation has its effect on the multiset, and a pop yields a least element |
| PQueue.Run | src/pqueue/pqueue.c:122-161 | Over every run of pushes and pops each pop takes a least element of the multiset at that time, and nothing else; there are as many out-of-memory replies as refused requests |
| PQueue.CreateFromVec | src/pqueue/pqueue.c:96-120 | A heap-ordered permutation of the elements whose push was granted, all of them if memory lasts, in fewer than n swaps |
| RingBuf.RingBuf.constructor | src/ringbuf/ringbuf.c:80-96 | A new buffer is the empty sequence |
| RingBuf.RingBuf.Slot | src/ringbuf/ringbuf.c:23-26 | The masked slot is the remainder, and within the array |
| RingBuf.RingBuf.Grow | src/ringbuf/ringbuf.c:34-76 | Growth makes room, 8 at first and then twice the capacity, and keeps the logical sequence, copied in one piece or two; it fails if the request is refused or the capacity is above SIZE_MAX / 2, and then changes nothing |
| RingBuf.RingBuf.PushBack | src/ringbuf/ringbuf.c:98-116 | The element is appended, the capacity growing exactly when the buffer is full; or memory ran out, one request refused or the size limit reached, and nothing changed |
| RingBuf.RingBuf.PushFront | src/ringbuf/ringbuf.c:118-137 | The element is put first, the capacity growing exactly when the buffer is full; or memory ran out, one request refused or the size limit reached, and nothing changed |
| RingBuf.RingBuf.PopFront | src/ringbuf/ringbuf.c:139-152 | Takes off and yields the first element; None only when empty |
| RingBuf.RingBuf.PopBack | src/ringbuf/ringbuf.c:154-167 | Takes off and yields the last element; None only when empty |
| RingBuf.RingBuf.GetPtr | src/ringbuf/ringbuf.c:169-176 | The i-th element of the logical sequence, or none |
| RingBuf.RingBuf.Clear | src/ringbuf/ringbuf.c:202-210 | Empty, array kept |
| RingBuf.Iter.Next | src/ringbuf/ringbuf.c:234-244 | Reads the logical sequence from the front |
| RingBuf.IterRev.constructor | src/ringbuf/ringbuf.c:285-305 | A reverse iterator has the reversed sequence before it |
| RingBuf.IterRev.Next | src/ringbuf/ringbuf.c:246-256 | Reads the logical sequence from the back |
| RingBuf.Execute | src/ringbuf/ringbuf.c:98-167 | Each operation has its effect on the sequence and its reply |
| RingBuf.Run | src/ringbuf/ringbuf.c:98-167 | Over every run with growth, contents and replies are those of a double-ended sequence; below the size limit there are as many out-of-memory replies as refused requests |
| Sequences.ChunksPartition | src/iter/iter.c:1082-1105 | The chunks concatenate to the source; all are of size n but the last, which is not empty |
| Sequences.WhilesPartition | src/iter/iter.c:402-527 | take_while and skip_while split the source at the first failing element |
| Sequences.WindowsStep | src/iter/iter.c:991-1022 | Sliding the buffer by one yields the windows one by one, all of them |
| Sequences.DedupNeighbours | src/iter/iter.c:1255-1268 | No two neighbours of a deduplicated sequence compare equal |
| Sequences.DedupIdempotent | src/iter/iter.c:1255-1268 | Dedup is the identity exactly on sequences without equal neighbours, hence idempotent |
| Sequences.FlatMapSubsumes | src/iter/iter.c:1328-1352 | filter and map are special flat_maps |
| Sequences.FlatMapChain | src/iter/iter.c:1328-1352 | flat_map distributes over chain |
| Sequences.FlatMapNests | src/iter/iter.c:1328-1352 | Flattening twice is flattening once with the second function inside the first |
| Iter.Iter.Next | include/seqc/iter.h:46-49 | Whatever the adaptor: yields the first of the remaining elements and leaves the others, or None; what it yields reads so for ever, or until the next call if it is a view; window and chunks, and what passes their views on, yield slices of one buffer; once exhausted over sources that stay exhausted, exhausted for good |
| Iter.Iter.NextSlice | src/iter/iter.c:42-57 | The elements of a slice, in order |
| Iter.Iter.NextSliceRev | src/iter/iter.c:81-91 | The elements of a slice, last first |
| Iter.Iter.NextFiltered | src/iter/iter.c:220-235 | The loop skips to the next element that satisfies the predicate |
| Iter.Iter.NextMapped | src/iter/iter.c:280-293 | The next element, mapped |
| Iter.Iter.NextTaken | src/iter/iter.c:345-358 | The first n elements; afterwards the source is not touched |
| Iter.Iter.NextTakenWhile | src/iter/iter.c:402-414 | The elements before the first failing one, which is consumed; no stop is remembered |
| Iter.Iter.NextSkipped | src/iter/iter.c:457-470 | The elements after the first n |
| Iter.Iter.Discard | src/iter/iter.c:457-467 | Passes over what is still to be skipped, once |
| Iter.Iter.NextSkippedWhile | src/iter/iter.c:515-527 | The elements from the first failing one on |
| Iter.Iter.PullPast | src/iter/iter.c:515-527 | The loop to the first element that is not skipped |
| Iter.Iter.NextChained | src/iter/iter.c:704-716 | All of the first, then all of the second; the first is not asked again after its end |
| Iter.Iter.PullFirst | src/iter/iter.c:704-715 | The first source's next element, or the note that it has ended |
| Iter.Iter.NextZipped | src/iter/iter.c:765-778 | Pairs, as many as the shorter source has |
| Iter.Iter.Gather | src/iter/iter.c:1002-1010 | Pulls n elements, or all there are if they are fewer |
| Iter.Iter.Slide | src/iter/iter.c:999-1018 | Primes the buffer once, then shifts it: it holds the next window, if there is one; at the end it has been shifted all the same, the last cell left alone by a quiet source |
| Iter.Iter.Refill | src/iter/iter.c:1089-1103 | Fills the front of the buffer with the next chunk, and is done after a short one |
| Iter.Iter.NextWindow | src/iter/iter.c:991-1022 | The windows s[i..i+n] in turn, each written into the one buffer; none for n = 0 |
| Iter.Iter.NextChunk | src/iter/iter.c:1082-1105 | The chunks in turn, each written to the front of the one buffer; after a short one it is done |
| Iter.Iter.NextPeekable | src/iter/iter.c:1162-1176 | A peeked element first, then the source; after a false from peek, false for good |
| Iter.Iter.Peek | src/iter/iter.c:1178-1199 | Shows the element that next will yield and leaves the remaining sequence alone; a false is final |
| Iter.Iter.NextDeduped | src/iter/iter.c:1255-1268 | The next element that differs from the last one kept; what it keeps is no view |
| Iter.Iter.PullDistinct | src/iter/iter.c:1255-1268 | The loop to the first element that differs from the one kept, which it replaces |
| Iter.Iter.FromSub | src/iter/iter.c:1333-1342 | The next element of the active sub-iterator; an exhausted one is dropped |
| Iter.Iter.NextSub | src/iter/iter.c:1343-1350 | The sub-pipeline that the function makes of the next outer element, of any shape and built anew, or none is left |
| Iter.Iter.NextFromSubs | src/iter/iter.c:1328-1352 | The loop over sub-iterators: the head of the concatenation that remains |
| Iter.Iter.NextFlatMapped | src/iter/iter.c:1328-1352 | The concatenation of what the sub-pipelines yield, empty ones passed over; the loop consumes the outer source and ends |
| Iter.Iter.Drain | src/iter/iter.c:661-676 | A visitor that copies each element as it comes has copied exactly the remaining sequence |
| Iter.Iter.Collect | src/iter/iter.c:564-640 | Where nothing is a view: exactly the remaining sequence, of elements that point into no buffer, if no request was refused; else nothing, never a part |
| Iter.Iter.Play | src/iter/iter.c:1162-1199 | Any interleaving of peek and next gives the answers of the script |
| Iter.Iter.Poll | src/iter/iter.c:402-414 | Repeated calls of take_while, also after a false: answer i is element i if that passes, else false |
| Iter.PeeksAreInvisible | src/iter/iter.c:1162-1199 | Wherever peeks fall, next yields the source in order, and all of it by the first false |
| Iter.PeekForetells | src/iter/iter.c:1178-1199 | A peek equals the answer that follows it |
| Iter.ScriptAt | src/iter/iter.c:1162-1199 | The answer to a call is the element that as many nexts before it lead to, or false if there is none |
| Iter.ScriptEnds | src/iter/iter.c:1162-1199 | Every call is answered up to the first false |
| Iter.TakeWhileStopsForGood | src/iter/iter.c:402-414 | The stop is permanent if and only if nothing after the first failing element satisfies the predicate |
| Iter.TakeWhileResumes | docs/iter.md:319-332 | On the documented example the fourth call yields 5 after the third said false |
| Iter.Build | src/iter/iter.c:248-268 | Every proper pipeline starts with its documented meaning before it, and hands out views only if it is live; one without take_while and without a reviving source, but for the first part of a chain, stays exhausted |
| Iter.Evaluate | src/iter/iter.c:661-676 | Any proper composition of adaptors, drained with each element copied as it comes, is the composition of the sequence functions |
| Iter.EvaluateCollected | src/iter/iter.c:564-640 | Collected, if it does not end in views: the same elements, which depend on no buffer, or nothing if a request was refused |
| Iter.AskAgain | include/seqc/iter.h:46-49 | A pipeline that stays exhausted answers false to every further call, whichever adaptors it is made of |
| Plans.FlatMapsNest | docs/iter.md:471-475 | A flat_map over a flat_map yields the same as a flat_map whose sub-pipelines carry the second one |
| PlanLaws.OfItems | src/iter/iter.c:42-91 | A slice yields its elements in order, a reversed one element i from the end |
| PlanLaws.OfAnswers | src/iter/iter.c:117-121 | A generator yields its answers up to its first false |
| PlanLaws.OfFilter | docs/iter.md:256-272 | filter yields the elements at exactly the positions whose element passes, in order |
| PlanLaws.OfMap | docs/iter.md:274-291 | map yields f of each element, at its place |
| PlanLaws.OfTake | docs/iter.md:293-301 | take yields the first min(n, length) elements |
| PlanLaws.OfTakeWhile | src/iter/iter.c:402-414 | take_while yields a prefix whose elements all pass, and the next one, if any, fails |
| PlanLaws.OfSkip | src/iter/iter.c:457-470 | skip yields the elements from position n on |
| PlanLaws.OfSkipWhile | src/iter/iter.c:515-527 | skip_while yields the first element that fails and all after it; all before it pass |
| PlanLaws.OfAppend | src/iter/iter.c:704-716 | chain yields the elements of the first and then those of the second |
| PlanLaws.OfZip | src/iter/iter.c:765-778 | zip yields the pairs of elements at one position, as many as the shorter source has |
| PlanLaws.OfWindows | src/iter/iter.c:991-1022 | Window i holds the elements i to i + n - 1, for every i where there are so many |
| PlanLaws.OfChunks | src/iter/iter.c:1082-1105 | Chunk k holds the elements from k * n on, n of them or what is left; there is one exactly if k * n is below the length |
| PlanLaws.OfPeekable | src/iter/iter.c:1162-1176 | A peekable yields what its source does |
| PlanLaws.OfDedup | src/iter/iter.c:1255-1268 | dedup yields the first element, and then each one that differs from the one before it in the result; all between two of these equal the earlier |
| PlanLaws.OfFlatMap | src/iter/iter.c:1328-1352 | flat_map yields, one after the other, what the sub-pipeline of each element does |
| PlanLaws.PlainIsProper | include/seqc/iter.h:120-131 | A composition without windows and chunks keeps the rule for views, and so does a window or chunk adaptor over one |
| LiveViews.HoldsOver | src/iter/iter.c:1011-1020 | Writing a view over memory in which nested ones read right leaves all of them right |
| LiveViews.GroupHolds | src/iter/iter.c:1082-1105 | Any run of consecutive views, kept together, reads right after the last of them if they are nested, when they are of one length or nothing else was written |
| LiveViews.SeenRight | src/iter/iter.c:1002-1010 | Kept slices read as the views they were exactly if each view is what the memory begins with |
| LiveViews.ShiftedSame | src/iter/iter.c:1011-1016 | A window that still reads the same after the end has all its elements the same |
| LiveViews.AtEnd | src/iter/iter.c:1011-1020 | Views kept over the end of a window adaptor read right only if all their elements are one value, and then do if its source is quiet |
| LiveViews.NextView | src/iter/iter.c:1011-1020 | Every view, handed on by filter, take and skip or not, is a slice of the one buffer and written over the last one; at the end the buffer is as the adaptor leaves it |
| LiveViews.Gather | src/iter/iter.c:1002-1010 | Views gathered into an outer buffer are slices of one inner buffer |
| LiveViews.DedupIsFirstAndLast | src/iter/iter.c:1255-1268 | The first view, and the last if it can be told from what has become of the first, is the documented result exactly if all views but the last compare equal to the first, and the last is told apart from both or from neither |
| LiveViews.DedupViews | src/iter/iter.c:1255-1268 | dedup over views yields just that, short last chunk included; hence the documented result under exactly that condition |
| LiveViews.DedupOfWindows | src/iter/iter.c:1255-1268 | Windows of two over 1, 2, 3: documented [1, 2] and [2, 3], yielded [1, 2]; the rule for callers excludes it |
| LiveViews.CollectViews | src/iter/iter.c:564-640 | collect over views stores slices of one buffer; they read as what was yielded exactly if the views are nested, for windows exactly if all their elements are one value; and they point into memory that is freed before the return, unless there are none |
| LiveViews.BlurredWindows | src/iter/iter.c:991-1022 | Windows over views, read as they are yielded, are the windows exactly if the views within each are nested |
| LiveViews.EveryWindowSame | src/iter/iter.c:991-1022 | For more than one view of one length that means that all views are the same |
| LiveViews.WindowViews | src/iter/iter.c:991-1022 | window over views yields windows that read as the memory of the moment; the documented result under exactly that condition |
| LiveViews.SmearedFull | src/iter/iter.c:1082-1105 | A full chunk over views is right exactly if its views read right when it is yielded |
| LiveViews.SmearedLast | src/iter/iter.c:1082-1105 | A short last chunk over views is read after the end |
| LiveViews.ChunkViews | src/iter/iter.c:1082-1105 | chunks over views are the chunks exactly if the views within each are nested, and for windows, within a short last one, if all their elements are one value |
| LiveViews.StartsOneBuffer | src/iter/iter.c:1035-1062 | A window or chunk adaptor just made yields slices of its one buffer, of one length but for a last chunk |
| Iter.EvaluatePeeking | src/iter/iter.c:1213-1243 | The same for any script of peeks and nexts over any proper pipeline |
| Strings.FindFinds | src/string/string.c:198-216 | The search function gives the first occurrence, or none if and only if there is none |
| Strings.StringFind | src/string/string.c:198-216 | The loop finds the first occurrence; 0 for an empty needle |
| Strings.StringFindChar | src/string/string.c:174-184 | The loop finds the first occurrence of the byte |
| Strings.FirstIn | src/string/string.c:598-611 | The first byte that is in the set, if there is one |
| Strings.CharsetFind | src/string/string.c:598-611 | The nested loops find it |
| Strings.SplitThenJoin | docs/string.md:690-691 | Joining the split with the same delimiter gives back the string, an empty delimiter included |
| Strings.TokensAreFree | src/string/string.c:613-655 | No token holds a byte of the set; the substring delimiter occurs nowhere in one |
| Strings.SetSplitCuts | src/string/string.c:613-655 | The split by a set loses nothing but one byte of the set between each two tokens, and no token holds such a byte |
| Strings.SetSplitIsTheOnly | src/string/string.c:613-655 | Tokens free of the set that make the string with single bytes of the set between them are the split |
| Strings.ReplaceIsSplitJoin | src/string/string.c:264-298 | Replacing is splitting at the needle and joining with the replacement |
| Strings.ReplaceBySelf | src/string/string.c:264-298 | Replacing a needle by itself changes nothing |
| Strings.JoinThenSplit | src/string/string.c:493-655 | For any non-empty delimiter, splitting a join gives back the tokens if and only if no delimiter begins inside one |
| Strings.OneByteSeparable | src/string/string.c:493-655 | For one byte that means: at least one token, and none holds the byte |
| Strings.JoinThenSplitFails | src/string/string.c:493-655 | For a longer delimiter it does not suffice that no token holds it: "a" and "" joined by "aa" |
| Strings.OneByteSplits | src/string/string.c:613-655 | For one byte the substring split and the set split agree |
| Strings.SplitIter.constructor | src/string/string.c:662-678 | A new split iterator has all tokens before it |
| Strings.SplitIter.Next | src/string/string.c:613-655 | Yields the next token and leaves the others, an empty last one included |
| Strings.SplitIter.Collect | src/string/string.c:613-655 | Drained, it has yielded all tokens |
| Strings.SplitAll | src/string/string.c:680-688 | The split of a string, by substring or by set, as the iterator yields it; by a set, tokens free of it that make the string with single bytes of the set between them |
| Strings.SplitNext | src/string/string.c:690-708 | The first token of the split and the rest; NULL means that nothing is left |
| Strings.SplitNextAll | src/string/string.c:690-708 | The allocation-free loop yields the tokens of the substring split by the one byte, and none for NULL |
| Strings.StrBuf.Append | src/string/string.c:389-400 | Appends the bytes one by one, asking when the vector is full; a refusal leaves a proper prefix of them and is reported |
| Strings.StringJoin | src/string/string.c:493-521 | The loop with its first-token flag builds the join, NULL if it is empty; NULL too exactly if a request was refused, never a part |
| Strings.SplitAndJoin | docs/string.md:690-691 | If no request is refused, splitting and joining gives back s if and only if s is not the empty string with a pointer, which comes back as NULL; else NULL |
| Strings.StringCopy | src/string/string.c:56-69 | A copy of the contents; NULL for empty contents, or if the request was refused |
| Strings.ReplaceNext | src/string/string.c:276-295 | One turn of the replace loop writes the text before the match and the replacement, or the remainder, or reports a refusal |
| Strings.StringReplace | src/string/string.c:264-298 | The loop builds the split joined with the replacement, an empty needle copies; NULL if a request was refused, never a part |
| StringKeys.EqualsFolded | src/string/string.c:111-126 | True if and only if the lengths are equal and at each place the bytes are, or one is 65 to 90 and the other is it plus 32 |
| StringKeys.CompareStrings | src/string/string.c:139-152 | The loop compares lexicographically on lower-cased bytes, the shorter first |
| StringKeys.CompareAtDifference | docs/string.md:206-220 | The result is the difference of the first two bytes that differ, with 65 to 90 taken as 97 to 122; a proper prefix comes first |
| StringKeys.HashFolded | src/string/string.c:734-754 | The loop hashes the lower-cased string by FNV-1a in wrapping 64-bit arithmetic |
| StringKeys.KnownHashes | src/string/string.c:734-754 | The published FNV-1a values of "a" and "ab", in any case; 0 for the empty string |
| StringKeys.CompareIsZero | src/string/string.c:111-152 | Comparison gives 0 if and only if the strings are equal |
| StringKeys.FoldedOrderIsLawful | src/string/string.c:139-152 | Case-insensitive comparison is a total preorder, as the ordered containers require |
| StringKeys.FoldedKeysAreLawful | src/string/string.c:734-776 | Case-insensitive hash and equality meet what the hash containers require |

## Left out

- The byte layout of elements, nodes and buckets, `memcpy` sizes, alignment, and the guards against NULL arguments.
- `hash_fnv1a` and `hash_cstr` as functions: any hash that respects equality is covered.
- `hashmap_audit` and `set_audit`: floating-point statistics over the same array.
- `hashmap_iter`, `set_iter`, `hashmap_extend`, `set_extend` and the other `extend` loops: scans or repetitions of
  modelled calls.
- `vec`, `stack`, `slice`, `list`, `dlist`, `queue` and `bstree`: easier containers, or twins of modelled ones. The
  vector under `pqueue` and under the string builder is a sequence and its capacity, without its own check of
  `SIZE_MAX / 2`.
- The requests of the constructors of maps, sets and buffers: a container that could not be created is a NULL pointer.
- A `pqueue_t` whose vector could not be created: `pqueue_create` returns it with a NULL vector, and it refuses every
  push.
- `Iter.Build`: the adaptors' own state and buffers are always allocated; the source returns an invalid iterator when
  they are not, and each adaptor over one is invalid.
- `Iter.Evaluate`: covers sources that answer finitely often; of an endless `iter_generate` it covers every finite
  prefix of answers.
- `Iter.Iter.NextSub`: a flat_map function comes with a bound on how deep the adaptors of its sub-pipelines are
  nested; a family of sub-pipelines without any bound is not covered. The function itself allocates nothing else.
- `LiveViews.DedupViews`: with a short last chunk the comparison with what has become of the first view is exact for
  chunks over a quiet source; over any other, and through filter, take or skip, what the rest of the buffer holds is
  open.
- `LiveViews.CollectViews`: through filter, take or skip, or over a source that is not quiet, the condition is
  necessary, and whether it suffices depends on what the source writes as it ends. Likewise `LiveViews.ChunkViews` for
  a short last chunk.
- `LiveViews.NextView`: views that come through a peekable, a chain, a zip, a map or a flat_map have only the rule.
- `Iter.Iter.Drain`: `iter_foreach` visits nothing when its scratch buffer for elements of more than 512 bytes is
  refused; here that buffer is always granted. Likewise for `iter_collect`.
- `iter_range`, `iter_enumerate` (its entries point into a buffer, as windows do), and the terminals other than
  `iter_collect` and `iter_foreach`: loops without further state. `iter_sort` calls `qsort`.
- Trimming, number parsing and formatting: calls of the C library.
- Threads: seqc has no synchronisation and promises none.
