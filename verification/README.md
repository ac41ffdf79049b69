# Stream Mill core: verified models

Dafny models of six pieces of the Stream Mill / ESL system, each proved against what it is for.
`dafny verify dfyconfig.toml` checks the whole project.

| component | source | Dafny files |
|---|---|---|
| Exponential histogram over a sliding window | `Samples/aggr/EHSimpleCount.cc` | `Buckets`, `Histogram`, `HistogramBound`, `HistogramOrder`, `HistogramCascade`, `HistogramCaps`, `HistogramProgram` |
| In-memory relation engine: hash table, slab allocator, tuple ring with index, cursors | `adl/im_db` | `Distinct`, `HashSpec`, `HashTable`, `Slab`, `RingSpec`, `IndexSpec`, `Relation`, `RelationScans` |
| Candidate table of the windowed top-k aggregate | `Samples/aggr/top-k-win.cc` | `TopK` |
| Profile analyser | `adl/dbug/analyze.c` | `SearchTree`, `ProfileLedger`, `ProfileRecords`, `ProfileBooks`, `ProfileExtent`, `ProfileReport`, `Profile` |
| R-tree block maintenance | `adl/rtree/block.cc`, `get_newblock` of `adl/rtree/rtree.cc` | `RTreeSpec`, `RTreeParent`, `RTree` |
| Nested-loop join generator | `Samples/aggr/join.cc` | `Join` |

How the pieces are built:

* Code that updates tables, arrays or fields in place is a class whose methods keep the loops of the
  source; each method is proved against a function or relation on values, and the promises of the
  source are lemmas about those.
* The histogram is stated over whole streams (`Histogram.Run`): the table always represents the stream,
  sizes do not decrease with age, and the emitted estimate is within half of the oldest bucket and, for
  every stream, within the relative error that `k` stands for. The caps on the number of buckets per size
  have their exact condition.
* The relation engine is proved across its layers: the index maps a key to the newest tuple of a chain
  whose elements live in the ring, the ring lives in live slab slots, and the key pointer stored in the
  hash table is the key storage of the chain head.
* The profile analyser is stated on the records of the trace alone: which calls are open, how often each
  function is called, how long it runs itself, which record is refused. A ledger that charges every tick to
  the innermost open function is proved to say the same, and the stack of entry and child times, then its
  64-bit version in arrays, refine that ledger.
* The R-tree file is a map from block numbers to blocks; a ghost tree describes the subtree worked on.

Where code and documentation disagree the model follows the code:

* The comment in `Samples/aggr/EHSimpleCount.adl` (lines 70-75) speaks of a window of size W; the expiry test
  keeps the positions `maxID-W-1 .. maxID`, two more. `HistogramBound.DeclaredErrorBound` says exactly when the
  estimate keeps its bound over the last W positions, and `HistogramBound.DeclaredWindowMissed` gives a stream
  on which it does not.
* The merge rule joins only adjacent buckets, so the caps of k+1 buckets of size 1 and k/2+1 of each larger
  size can fail (`HistogramCaps.IsolatedOneBlocksMerging`). They survive a step if and only if, for every
  size up to which all sizes are full, the oldest bucket of that size is followed immediately by another
  bucket or expires (`HistogramCaps.StepCapped`, `HistogramCaps.RunCapped`); consecutive 1s are one case in
  which that always holds (`HistogramCaps.ConsecutiveCapped`).
* The analyser prints a stack extent "from high down to low"; `lowstack` is the smallest bottom exactly
  when the first bottom recurs (`ProfileExtent.LowIsMinimum`, `ProfileExtent.LowMissed`).
* `out_item` keeps a call count in an `unsigned int`: a printed count is the function's count, and the
  printed total the total, exactly when the counts fit (`Profile.Analyze`, `ProfileReport.CallColumn`).

## Model

| member | source | states |
|---|---|---|
| `Histogram.MergeableUnique` | Samples/aggr/EHSimpleCount.cc:2786-2857 | At most one pair of rows satisfies the merge query, so each query inserts at most one bucket |
| `Histogram.MergePairKeeps` | Samples/aggr/EHSimpleCount.cc:1016-1087 | Replacing two adjacent buckets by their union keeps buckets disjoint runs and conserves the total OnesCount |
| `Histogram.MergeKeeps` | Samples/aggr/EHSimpleCount.cc:1016-1220 | A merge with the delete after it keeps the shape, the covered positions and the total |
| `Histogram.Cascade` | Samples/aggr/EHSimpleCount.cc:1016-1605 | The recursion of mergeAggr terminates, conserves the total OnesCount and covers the same positions |
| `Histogram.MergeableBoundsTotal` | Samples/aggr/EHSimpleCount.cc:1521-1605 | A pair to merge at a size exists only while twice that size is at most the conserved total: the recursion measure |
| `Histogram.InsertKeeps` | Samples/aggr/EHSimpleCount.cc:2455-2488 | The bucket of a new 1 is disjoint from all others and adds one to the total |
| `Histogram.RecordPositions` | Samples/aggr/EHSimpleCount.cc:2455-3100 | Recording a 1 with all its merges adds exactly that position to the covered ones and one to the total |
| `Histogram.Step` | Samples/aggr/EHSimpleCount.cc:2204-3272 | One ITERATE keeps buckets disjoint runs that end by the current position and advances maxID by one |
| `Histogram.RunPow2` | Samples/aggr/EHSimpleCount.cc:2001-3272 | After every stream all bucket sizes are powers of two |
| `HistogramBound.StepRepresents` | Samples/aggr/EHSimpleCount.cc:2204-3272 | If the table represents the stream before a tuple it does after it, and no bucket lies wholly before the window |
| `HistogramBound.RunRepresents` | Samples/aggr/EHSimpleCount.cc:2001-3272 | After every stream buckets cover only 1s and every 1 of the window is covered |
| `HistogramBound.OneBucketPerOne` | Samples/aggr/EHSimpleCount.cc:2001-3272 | Every unexpired 1 lies in exactly one bucket |
| `HistogramBound.BucketIsRun` | Samples/aggr/EHSimpleCount.cc:2140-2173 | A bucket is a run of consecutive 1s whose length is its OnesCount |
| `HistogramBound.OnesAreOverlaps` | Samples/aggr/EHSimpleCount.cc:3262-3270 | The 1s from a window position on are the bucket lengths cut at that position |
| `HistogramBound.TotalIsWindowPlusOutside` | Samples/aggr/EHSimpleCount.cc:3262-3270 | The total exceeds the true count only by the part of the oldest bucket before the window |
| `HistogramBound.EstimateErrorBound` | Samples/aggr/EHSimpleCount.cc:3656-3672 | For every stream, k and W the estimate is within floor(oldest/2) of the 1s in the window of the expiry test |
| `HistogramBound.OldestUnique` | Samples/aggr/EHSimpleCount.cc:3656-3670 | Only one row has the minimal TSFirst, so the scalar subquery never sees two rows |
| `HistogramBound.DeclaredWindow` | Samples/aggr/EHSimpleCount.cc:3263-3263 | How the count over the expiry window differs from that over the last W positions, and exactly when they agree |
| `HistogramBound.DeclaredErrorBound` | Samples/aggr/EHSimpleCount.cc:3263-3672 | Over the last W positions the estimate is within half of the oldest bucket if and only if the two extra positions hold no more 1s than that bucket has positions in the window (none, for a bucket of size 1) |
| `HistogramBound.DeclaredWindowMissed` | Samples/aggr/EHSimpleCount.cc:3263-3263 | A stream on which the estimate is 2 while the last W positions hold no 1 |
| `HistogramOrder.MergeOrdered` | Samples/aggr/EHSimpleCount.cc:1016-1220 | One merge keeps sizes ordered by age and each smaller size at its floor, for every k |
| `HistogramOrder.StepOrdered` | Samples/aggr/EHSimpleCount.cc:2204-3272 | So does one ITERATE |
| `HistogramOrder.RunOrdered` | Samples/aggr/EHSimpleCount.cc:2001-3272 | After every stream sizes do not decrease with age, and below any bucket present size 1 has at least k and each larger power of two at least k/2 buckets |
| `HistogramOrder.NewerHoldMany` | Samples/aggr/EHSimpleCount.cc:1016-1087 | The buckets newer than the oldest hold at least k/2 times its OnesCount |
| `HistogramOrder.RelativeErrorBound` | Samples/aggr/EHSimpleCount.cc:3656-3672 | For every stream the estimate is within the relative error that k stands for |
| `HistogramCascade.FollowedIsCovered` | Samples/aggr/EHSimpleCount.cc:2790-2790 | Whether a bucket is followed depends on the covered positions alone, so merging elsewhere does not change it |
| `HistogramCascade.CrowdedMerges` | Samples/aggr/EHSimpleCount.cc:2786-2857 | A crowded size has a pair to merge if and only if its oldest bucket is followed, and that bucket is the one merged |
| `HistogramCascade.StageNext` | Samples/aggr/EHSimpleCount.cc:1016-1605 | A merge of one size hands exactly one new, newest bucket on to the doubled size |
| `HistogramCascade.RecordOutcome` | Samples/aggr/EHSimpleCount.cc:2455-3100 | A recorded 1 ends with the caps kept or with one surplus bucket of the first size that is full and blocked |
| `HistogramCascade.RecordCapped` | Samples/aggr/EHSimpleCount.cc:2455-3100 | The caps survive recording a 1 if and only if the oldest bucket of every size that is full, with all smaller ones, is followed |
| `HistogramCaps.StepCapped` | Samples/aggr/EHSimpleCount.cc:2204-3272 | With the expiry: if and only if each such bucket is followed or expires |
| `HistogramCaps.RunCapped` | Samples/aggr/EHSimpleCount.cc:2001-3272 | Over every run: the caps hold all along if and only if every 1 meets that condition |
| `HistogramCaps.ConsecutiveCapped` | Samples/aggr/EHSimpleCount.cc:2786-2857 | While the 1s are consecutive: at most k+1 buckets of size 1 and k/2+1 of each larger size |
| `HistogramCaps.IsolatedOneBlocksMerging` | Samples/aggr/EHSimpleCount.cc:2790-2857 | After 1, 0 and n further 1s nothing merges: n+1 buckets of size 1, for every k and n |
| `HistogramProgram.EHSimpleCount.CountSize` | Samples/aggr/EHSimpleCount.cc:2786-2786 | The count subquery counts the rows of one size |
| `HistogramProgram.EHSimpleCount.NoneOlder` | Samples/aggr/EHSimpleCount.cc:2819-2855 | The NOT EXISTS subquery finds an older bucket of the same size exactly when there is one |
| `HistogramProgram.EHSimpleCount.SelectMerges` | Samples/aggr/EHSimpleCount.cc:2786-2857 | The query yields the joined bucket of the mergeable pair, or nothing exactly when there is none |
| `HistogramProgram.EHSimpleCount.DeleteSubsumed` | Samples/aggr/EHSimpleCount.cc:2899-3004 | Deleting in place while scanning removes exactly the subsumed rows |
| `HistogramProgram.EHSimpleCount.MergeSize` | Samples/aggr/EHSimpleCount.cc:2786-3004 | Merge query and delete together have the effect of one merge |
| `HistogramProgram.EHSimpleCount.MergeAggr` | Samples/aggr/EHSimpleCount.cc:643-1620 | The recursion computes the cascade and terminates |
| `HistogramProgram.EHSimpleCount.DeleteExpired` | Samples/aggr/EHSimpleCount.cc:3262-3270 | Deleting in place removes exactly the rows with TSFirst + W < maxID |
| `HistogramProgram.EHSimpleCount.Emit` | Samples/aggr/EHSimpleCount.cc:3656-3672 | Emits total minus half the oldest bucket; no value exactly when the table is empty |
| `HistogramProgram.EHSimpleCount.Iterate` | Samples/aggr/EHSimpleCount.cc:2204-3674 | The whole iteration refines one step of the meaning and emits its estimate |
| `HistogramProgram.CountOnes` | Samples/aggr/EHSimpleCount.cc:2001-3674 | Over a whole stream the i-th value emitted is the sum of the bucket counts minus half of the oldest one after i+2 tuples; it is within half of the oldest bucket and, for k >= 0, within the relative error; the run stops early only at an empty table |
| `HashTables.HashTable.constructor` | adl/im_db/hash-arbitrary.c:302-333 | A new table is the empty map |
| `HashTables.HashTable.Probe` | adl/im_db/hash-arbitrary.c:754-789 | The probe loop ends with the slot of the key or a usable slot, also when no empty slot is left |
| `HashTables.HashTable.Ask` | adl/im_db/hash-arbitrary.c:740-866 | The slot carries the key's hash code and is reachable from its home slot; the map is unchanged |
| `HashTables.HashTable.Find` | adl/im_db/hash-arbitrary.c:715-728 | The value of a present key, NULL otherwise |
| `HashTables.HashTable.Delete` | adl/im_db/hash-arbitrary.c:398-426 | Removes exactly the key, returns its value or NULL, leaves a tombstone that keeps all others reachable |
| `HashTables.HashTable.Replace` | adl/im_db/hash-arbitrary.c:437-460 | Gives a present key the new value and key pointer; an absent key changes nothing |
| `HashTables.HashTable.Insert` | adl/im_db/hash-arbitrary.c:470-504 | Adds an absent key; a present one is reported and changes nothing |
| `HashTables.HashTable.Jam` | adl/im_db/hash-arbitrary.c:520-547 | The key has the value afterwards; a table that is not full does not grow |
| `HashTables.HashTable.Grow` | adl/im_db/hash-arbitrary.c:560-629 | Doubling under a changed hash function keeps the map; the inner jam calls never grow again |
| `HashTables.PutEffect` | adl/im_db/hash-arbitrary.c:497-500 | Writing a key into its reachable slot keeps the table well formed and updates map and live count |
| `HashTables.DropEffect` | adl/im_db/hash-arbitrary.c:411-413 | A tombstone keeps the table well formed and removes exactly the slot's key |
| `HashTables.PrefixStep` | adl/im_db/hash-arbitrary.c:611-617 | Re-hashing slot by slot meets every key and key pointer once |
| `Slab.ItemsApart` | adl/im_db/buffer.c:69-77 | Items never overlap, within a page or across pages, wherever malloc puts the pages |
| `Slab.Buffer.LiveApart` | adl/im_db/buffer.c:50-81 | No two live slots overlap |
| `Slab.Buffer.constructor` | adl/im_db/buffer.c:4-23 | A new buffer has no live and no free slots |
| `Slab.Buffer.Accounting` | adl/im_db/buffer.c:37-108 | Carved slots, as the page counters count them, equal live slots plus the pointers on the free pages |
| `Slab.Buffer.CheckFree` | adl/im_db/buffer.c:37-49 | Pops the slot freed last, across page boundaries; NULL exactly when none is free |
| `Slab.Buffer.Allocate` | adl/im_db/buffer.c:50-81 | Hands out a slot that is not live: the one freed last, or a fresh one |
| `Slab.Buffer.Free` | adl/im_db/buffer.c:83-108 | Pushes the slot on the free stack, across page boundaries |
| `RingSpec.AppendedRing` | adl/im_db/im_rel.c:461-485 | Appending before the head keeps the ring doubly linked |
| `RingSpec.UnlinkedRing` | adl/im_db/im_cursor.c:354-377 | Linking the neighbours removes exactly the tuple from the ring |
| `RingSpec.ChainNewestFirst` | adl/im_db/im_rel.c:487-526 | A tuple that comes earlier in a chain is a later one of the ring |
| `IndexSpec.IndexedAppend` | adl/im_db/im_rel.c:487-526 | A new tuple heads the chain of its key and owns the stored key pointer; all other chains stay |
| `IndexSpec.IndexedRemoveHead` | adl/im_db/im_cursor.c:393-406 | Deleting a chain head moves entry and key pointer to the next tuple or removes the key |
| `IndexSpec.IndexedRemoveLater` | adl/im_db/im_cursor.c:407-417 | Deleting a later tuple splices the chain and keeps the index entry |
| `IndexSpec.PointerOk` | adl/im_db/hash-arbitrary.c:774-776 | A stored key pointer equal to the caller's belongs to the same key |
| `Relations.Relation.Link` | adl/im_db/im_rel.c:461-485 | The new tuple is the last of the ring; others keep their contents |
| `Relations.Relation.Put` | adl/im_db/im_rel.c:439-526 | Append adds one tuple in a slot of its own and keeps ring, index and slab consistent |
| `Relations.Relation.Unlink` | adl/im_db/im_cursor.c:354-377 | Removes the tuple from the ring, frees its slot, and leaves its record readable for the cursor |
| `Relations.Relation.UnindexHead` | adl/im_db/im_cursor.c:393-406 | Deleting a chain head hands entry and key pointer to the next tuple, or removes the key |
| `Relations.Relation.UnindexLater` | adl/im_db/im_cursor.c:407-417 | Deleting a later tuple makes its predecessor skip it |
| `Relations.Relation.Unindex` | adl/im_db/im_cursor.c:379-418 | The index lists exactly the remaining tuples, newest first, never a freed slot |
| `Relations.Relation.Delete` | adl/im_db/im_cursor.c:327-420 | c_del removes exactly the current tuple and keeps all layers consistent |
| `Relations.Relation.First` | adl/im_db/im_cursor.c:49-67 | DB_FIRST goes to the first tuple without a tombstone |
| `Relations.Relation.Next` | adl/im_db/im_cursor.c:69-93 | DB_NEXT goes to the next readable tuple, also after the current one was deleted |
| `Relations.Relation.DeleteWhere` | Samples/aggr/EHSimpleCount.cc:2899-3004 | DB_FIRST/DB_NEXT with c_del on any set of tuples, whatever the WHERE clause decides at each: the i-th row visited has the key and data of the i-th tuple of the ring, and the ring afterwards is the old one without the deleted tuples, in order |
| `Relations.DeletedNextAt` | adl/im_db/im_cursor.c:69-77 | After a deletion, of the head and of the only tuple too, DB_NEXT continues with the tuple that followed |
| `Relations.Relation.Set` | adl/im_db/im_cursor.c:149-167 | DB_SET finds the newest readable tuple of the key through the index |
| `Relations.Relation.NextDup` | adl/im_db/im_cursor.c:240-256 | DB_NEXT_DUP goes to the next readable tuple of the chain |
| `Relations.Relation.DeleteMatches` | adl/im_db/im_cursor.c:149-167 | On a value-referenced relation the i-th row that DB_SET and DB_NEXT_DUP return has the key and data of the i-th tuple of the key's chain, newest first, also while any of them are deleted; ring and chain lose exactly those |
| `Relations.RowsAtIs` | adl/im_db/im_cursor.c:49-93 | The rows read are the key and data of the tuples, position by position |
| `RelationScans.ReadMatches` | adl/im_db/im_cursor.c:149-167 | On any indexed relation DB_SET and DB_NEXT_DUP until not found return exactly the readable tuples of the key, once each, newest first |
| `RelationScans.BuryMatches` | adl/im_db/im_cursor.c:240-256 | On an OID relation they still do so when any of them are deleted through the cursor; exactly those get tombstones |
| `RelationScans.BuriedAt` | adl/im_db/im_cursor.c:335-349 | What a tombstone changes: the status of exactly the deleted tuples |
| `RelationScans.ReadAll` | adl/im_db/im_cursor.c:49-93 | On any relation DB_FIRST and DB_NEXT until not found return exactly the readable tuples, oldest first |
| `RelationScans.ReadableIs` | adl/im_db/im_cursor.c:49-93 | The rows read are the key and data of the tuples without those hidden by a tombstone, position by position |
| `Relations.Relation.PutCurrent` | adl/im_db/im_cursor.c:305-325 | Overwrites the data of the current tuple only |
| `Relations.Relation.Bury` | adl/im_db/im_cursor.c:335-349 | c_del on an OID relation sets a tombstone and moves to the next readable tuple |
| `Relations.Relation.Del` | adl/im_db/im_rel.c:565-632 | im_rel_del on an OID relation sets a tombstone on every tuple with the key and on no other |
| `Relations.Relation.FindInChain` | adl/im_db/im_rel.c:263-283 | The first hit of the chain, or none in the whole ring |
| `Relations.Relation.FindInRing` | adl/im_db/im_rel.c:287-305 | The first hit of the ring, or none at all |
| `Relations.Relation.Get` | adl/im_db/im_rel.c:150-254 | get succeeds with the index exactly when the scan does; newest match with index, oldest without |
| `Relations.Relation.GetBoth` | adl/im_db/im_rel.c:258-306 | DB_GET_BOTH gives the same answer with and without index |
| `Relations.Relation.SetBoth` | adl/im_db/im_cursor.c:192-239 | The cursor's DB_GET_BOTH: same answer with and without index, on the first match of chain or ring |
| `RelationScans.PutThenGet` | adl/im_db/im_rel.c:439-526 | After a put an indexed get of the key returns the data put, whatever was there |
| `RelationScans.PutThenGetBoth` | adl/im_db/im_rel.c:439-526 | After a put DB_GET_BOTH finds the pair, with an index or without |
| `RelationScans.DelThenGet` | adl/im_db/im_rel.c:565-632 | After a delete on an OID relation a get of the key finds nothing, with an index or without |
| `TopK.StepCandidates` | Samples/aggr/top-k-win.cc:759-1920 | One iteration turns the defined table of a stream into that of the longer stream |
| `TopK.ExpireCandidates` | Samples/aggr/top-k-win.cc:759-766 | The expiry delete drops exactly the position that leaves the window |
| `TopK.PassRows` | Samples/aggr/top-k-win.cc:1806-1920 | Counting and pruning keep exactly the rows beaten fewer than 30 times |
| `TopK.KeptEnough` | Samples/aggr/top-k-win.cc:1913-1920 | A pruned tuple leaves at least 30 kept tuples as large, for every threshold |
| `TopK.ThresholdAgrees` | Samples/aggr/top-k-win.cc:1806-1920 | min(30, count of values >= v) is the same over the table and over the full window |
| `TopK.TopKAgrees` | Samples/aggr/top-k-win.cc:1806-1920 | For every rank r from 1 to 30 a value is the r-th largest of the table if and only if it is the r-th largest of the window |
| `TopK.QueriesAre` | Samples/aggr/top-k-win.cc:759-766 | The counts compared are those of the values >= v among the last 10000, and among the rows |
| `TopK.CandidatesAre` | Samples/aggr/top-k-win.cc:759-1920 | The table holds, by ascending id, exactly those of the last 10000 values with fewer than 30 later ones at least as large, each with that number |
| `TopK.NothingKeptInVain` | Samples/aggr/top-k-win.cc:1913-1920 | Every kept tuple can still decide an answer: some continuation makes the window without it answer differently |
| `TopK.TopkNoOrder.constructor` | Samples/aggr/top-k-win.cc:207-268 | INITIALIZE sets up the table of a one-element stream |
| `TopK.TopkNoOrder.Iterate` | Samples/aggr/top-k-win.cc:690-1926 | After every tuple myWin is exactly the defined candidate table of the stream seen so far |
| `TopK.TopkNoOrder.DeleteExpired` | Samples/aggr/top-k-win.cc:698-772 | The scan deletes exactly the rows with id + 10000 = max, in order |
| `TopK.TopkNoOrder.CountNext` | Samples/aggr/top-k-win.cc:1786-1871 | The update adds one to cnt of exactly the older rows not larger than the new value |
| `TopK.TopkNoOrder.Prune` | Samples/aggr/top-k-win.cc:1894-1926 | The scan deletes exactly the rows with cnt >= 30, in order |
| `SearchTree.CompareSwap` | adl/dbug/analyze.c:214-215 | strcmp order is antisymmetric |
| `SearchTree.LessTransitive` | adl/dbug/analyze.c:214-215 | strcmp order is transitive |
| `SearchTree.LessMeans` | adl/dbug/analyze.c:214-215 | One name is less than another if and only if it is a proper prefix or has the smaller character at the first difference |
| `SearchTree.NamesDiffer` | adl/dbug/analyze.c:197-260 | Two modules never have the same name |
| `SearchTree.SearchLeft` | adl/dbug/analyze.c:215-235 | Going left keeps the name between the names left and right of the subtree |
| `SearchTree.SearchRight` | adl/dbug/analyze.c:236-257 | Going right does the same |
| `SearchTree.SlotAbsent` | adl/dbug/analyze.c:216-225 | A search that ends at a free child proves that the name is new |
| `SearchTree.AttachedInOrder` | adl/dbug/analyze.c:224-245 | In order, the new leaf stands right before or right after its parent |
| `SearchTree.AttachedTree` | adl/dbug/analyze.c:204-257 | Hanging the leaf keeps names sorted, every module once, children above parents |
| `ProfileLedger.ReturnMeaning` | adl/dbug/analyze.c:291-328 | An exit closes down to the last open call of that name, or all of them when there is none |
| `ProfileLedger.ForwardRun` | adl/dbug/analyze.c:283-364 | While time moves forward no self time is negative or exceeds the elapsed time |
| `ProfileRecords.BelowIs` | adl/dbug/analyze.c:291-328 | What an exit leaves open: the calls below the last open one of that name, or none |
| `ProfileRecords.ReturnKnown` | adl/dbug/analyze.c:300-327 | An exit counts every call it closes for its own function, and an unmatched exit for the function named |
| `ProfileRecords.RunOpen` | adl/dbug/analyze.c:283-328 | Which calls are open after n records, from the records alone |
| `ProfileRecords.RunCalls` | adl/dbug/analyze.c:283-328 | After n records the counted and the open calls of f are the Enter records of f plus the unmatched exits of f |
| `ProfileRecords.RunTimes` | adl/dbug/analyze.c:283-328 | The self time of f is the sum of the time between records over those before which f is open innermost, plus the idle time taken by its unmatched exits |
| `ProfileRecords.RunNames` | adl/dbug/analyze.c:197-260 | The table lists every function mentioned, once |
| `ProfileRecords.RunAccepts` | adl/dbug/analyze.c:92-260 | A trace is accepted if and only if no record names a function beyond 1000 or opens a call beyond 100; otherwise the first such record decides the failure |
| `ProfileRecords.RunTells` | adl/dbug/analyze.c:266-382 | At the end of the file count, self time, clock, idle time and total calls are those of the records |
| `ProfileRecords.CallInsideCall` | adl/dbug/analyze.c:283-328 | For a call of b inside a call of a: one call each, the time inside is b's and the time around it a's |
| `ProfileRecords.ExitAlone` | adl/dbug/analyze.c:321-327 | An exit that no entry announced is one call with the time since the start |
| `ProfileLedger.PopBalanced` | adl/dbug/analyze.c:300-311 | Popping keeps tot_time = fn_stack[0].time + sum of children and the sums over modules |
| `ProfileLedger.ResetBalanced` | adl/dbug/analyze.c:321-327 | So does an unmatched exit |
| `ProfileLedger.LeaveBalanced` | adl/dbug/analyze.c:291-328 | So does every exit record |
| `ProfileLedger.DrainBalanced` | adl/dbug/analyze.c:371-380 | So does the end of the file, which empties the stack |
| `ProfileBooks.PushMatches` | adl/dbug/analyze.c:285-290 | Entering keeps the stack in step with the ledger |
| `ProfileBooks.PopMatches` | adl/dbug/analyze.c:300-315 | Charged plus pending self time stays what the ledger gave each function |
| `ProfileBooks.LeaveMatches` | adl/dbug/analyze.c:291-328 | An exit record has the ledger's effect, matched or not |
| `ProfileBooks.DrainMatches` | adl/dbug/analyze.c:371-380 | The end of the file closes every open call in both |
| `ProfileBooks.Settled` | adl/dbug/analyze.c:371-381 | At the end times and calls are the ledger's; tot_calls = entries + unmatched exits; tot_time = elapsed time minus the idle pool |
| `ProfileExtent.HighIsMaximum` | adl/dbug/analyze.c:353-354 | highstack is the largest stack bottom |
| `ProfileExtent.LowIsMinimum` | adl/dbug/analyze.c:353-357 | lowstack is the smallest bottom if and only if the first bottom recurs at or below itself (or is 0 or ~0) |
| `ProfileExtent.LowMissed` | adl/dbug/analyze.c:353-357 | On bottoms 1, 2 lowstack keeps its initial value |
| `ProfileExtent.LargestIs` | adl/dbug/analyze.c:333-352 | The stack use of a function is its largest frame, or 0 without one |
| `ProfileReport.AlongPermutation` | adl/dbug/analyze.c:490-497 | Adding in order of name gives the sum over all modules |
| `ProfileReport.NarrowExact` | adl/dbug/analyze.c:437-437 | A count survives the unsigned int if and only if it is below 2^32 |
| `ProfileReport.TimeReported` | adl/dbug/analyze.c:490-497 | The reported time total equals tot_time modulo 2^64 |
| `ProfileReport.CallColumn` | adl/dbug/analyze.c:437-494 | Below 2^64 calls the reported call total equals tot_calls if and only if every count fits an unsigned int |
| `Profile.Analyzer.Push` | adl/dbug/analyze.c:92-110 | Pushes a frame; refuses exactly at 100 nested calls |
| `Profile.Analyzer.PopAndCharge` | adl/dbug/analyze.c:300-311 | One pop in 64-bit arithmetic is the exact pop modulo 2^64 |
| `Profile.Analyzer.ExitUnmatched` | adl/dbug/analyze.c:321-327 | An exit with nothing open resets frame 0 and charges the function |
| `Profile.Analyzer.Exit` | adl/dbug/analyze.c:291-328 | The exit loop pops to the matching call or through the whole stack |
| `Profile.Analyzer.DrainStack` | adl/dbug/analyze.c:371-380 | Everything still open exits at the last time |
| `Profile.Analyzer.Search` | adl/dbug/analyze.c:214-258 | The descent ends at the name or at the free place where it belongs |
| `Profile.Analyzer.Add` | adl/dbug/analyze.c:197-260 | Equal names and only those get the same index; fails exactly when a new name finds 1000 modules |
| `Profile.Analyzer.TakeStackUse` | adl/dbug/analyze.c:329-358 | Keeps the largest frame per function and the tracked extent |
| `Profile.Analyzer.Process` | adl/dbug/analyze.c:266-382 | The program reaches the ledger of the whole input, or the same failure |
| `Profile.Analyzer.OutBody` | adl/dbug/analyze.c:478-501 | Prints the subtree in order, one line per module with its count as out_item narrows it, and adds up calls and times; terminates |
| `Profile.Analyzer.OutNode` | adl/dbug/analyze.c:490-497 | One turn of its loop: the left subtree, then the node's own line |
| `Profile.Analyzer.Output` | adl/dbug/analyze.c:507-520 | The report is faithful to the trace: every function once in dictionary order, its figures those of the records; refused exactly when no function was seen |
| `Profile.TimesExact` | adl/dbug/analyze.c:283-380 | With times moving forward in one word no reported time is truncated, and no self time exceeds the total |
| `Profile.Analyze` | adl/dbug/analyze.c:266-520 | From trace to report, in terms of the records alone: every function mentioned once in dictionary order, with its self time modulo 2^64, its calls modulo 2^32 and its largest frame; the total time; the total calls, right if and only if every count fits; the stack extent; or the failure of the first record refused |
| `RTreeSpec.RelinkedChain` | adl/rtree/block.cc:58-83 | Linking the neighbours of a leaf takes exactly it out of the chain, both ways |
| `RTreeSpec.ListedMore` | adl/rtree/block.cc:87-97 | A block in use becomes the head of the free list |
| `RTreeSpec.FreedOnce` | adl/rtree/block.cc:167-209 | The blocks of a subtree are freed once each, and no others |
| `RTreeSpec.RightToLeft` | adl/rtree/block.cc:199-208 | On the free list a node stands before its subtrees and a later child before an earlier one |
| `RTreeSpec.EntriesAre` | adl/rtree/block.cc:180-197 | The entries of a subtree are the items that the file holds in its leaf blocks, one after the other |
| `RTreeSpec.LeafOrderIs` | adl/rtree/block.cc:180-197 | The walk meets exactly the blocks of the subtree that are leaves in the file, once each |
| `RTreeSpec.LeftToRight` | adl/rtree/block.cc:199-207 | The walk meets the leaves below an earlier child before those below a later one |
| `RTreeSpec.PicturesAt` | adl/rtree/block.cc:199-207 | The i-th subtree of a node is that of its i-th child number in the file |
| `RTreeSpec.BlocksAre` | adl/rtree/block.cc:199-207 | The blocks below a node are those of the subtrees of its children |
| `RTrees.EffectCompose` | adl/rtree/block.cc:200-208 | Dissolving one part after the other adds up |
| `RTrees.RTree.FreeBlock` | adl/rtree/block.cc:38-99 | Frees the block, unchains a leaf when asked to, resets the tree for the root |
| `RTrees.RTree.Unchain` | adl/rtree/block.cc:53-84 | The chain loses exactly the leaf; lptr is its first leaf or the root |
| `RTrees.RTree.FillIn` | adl/rtree/block.cc:166-209 | On a leaf appends the items of its block; on any subtree the items of its leaf blocks in the order of the walk; frees each of its blocks once, leaves the chain without its leaves, touches nothing else but links |
| `RTrees.RTree.FillInAll` | adl/rtree/block.cc:199-207 | The same for the children of a node, one by one |
| `RTrees.RTree.GetNewBlock` | adl/rtree/rtree.cc:1297-1319 | Allocation undoes the last free, or extends the file by one block |
| `RTrees.RTree.GetParent` | adl/rtree/block.cc:116-163 | The first link of the depth-first walk that leads to the block or out of the file decides |
| `RTreeParent.OneParent` | adl/rtree/block.cc:139-160 | No block of a sound tree has two parents |
| `RTreeParent.ParentFound` | adl/rtree/block.cc:103-163 | In a tree without stray links the answer is the one parent, and 0 exactly for blocks not below the root |
| `RTreeParent.DecideIs` | adl/rtree/block.cc:139-160 | The first link out of the file gives 0xFFFFFFFF, the first link to the block its parent, and none 0 |
| `RTreeParent.EdgesAre` | adl/rtree/block.cc:139-160 | The links walked are exactly those from the inner blocks of the tree to their children in the file |
| `RTreeParent.ParentIs` | adl/rtree/block.cc:103-163 | A block other than the answer does not list b among its children, and the answer does; 0 only if none does |
| `Join.CrossAt` | Samples/aggr/join.cc:730-804 | Row number Rank(xs) of the product has in column j the value at position xs[j] of relation j; the number of rows is the product of the sizes |
| `Join.RankLess` | Samples/aggr/join.cc:731-796 | Rows come in lexicographic order of positions, so each position vector occurs once |
| `Join.RankOnto` | Samples/aggr/join.cc:731-796 | Every row stems from a position vector |
| `Join.CallsAre` | Samples/aggr/join.cc:731-796 | Each tuple of a cursor costs one c_get and a full round of the next cursor, its end one more |
| `Join.MoveFound` | Samples/aggr/join.cc:791-792 | A tuple found moves right and keeps inserted plus remaining rows equal to the product |
| `Join.MoveMissed` | Samples/aggr/join.cc:793-795 | Nothing found moves left and keeps the same, or ends with every flag set and all rows inserted |
| `Join.Search` | Samples/aggr/join.cc:731-796 | The inner loop ends with a complete row or with everything exhausted |
| `Join.Run` | Samples/aggr/join.cc:702-815 | The loop inserts exactly the cross product of its n relations, in order, after a known number of c_get calls, and ends in its initial state |

## Left out

- k and W of the histogram are fixed per run; the aggregate receives them with every tuple.
- `insertTemp`, `mvTemp`, `hash_get`, `hash_put` and the window buffer are not part of this model: a query collects its rows, which are then appended; the one group of mergeAggr runs its INITIALIZE.
- Overflow of positions and counts as C `int` in the histogram and top-k aggregates.
- The empty histogram makes the generated program exit; the model returns `NoTuple` there and the estimate is about non-empty tables.
- `merge_udf`, the window variants of the aggregates, and the other aggregates under `Samples/aggr`: easier members of the same kind.
- HistogramOrder.RelativeErrorBound: for k >= 0, as HistogramCaps.RunCapped; a negative k gives the merge query no meaningful threshold.
- The `resu` table and the running `sum` of the top-k aggregate, on which `myWin` does not depend; values are the INT arguments, exact as `double`.
- Hash table: keys of a relation have one fixed size; statistics other than STAT_USED, `hash_apply`, `hash_die` and the out-of-memory results are not modelled.
- Slab.Buffer.Allocate: where malloc puts a page is a parameter, required to overlap no page in use; its failure is not modelled.
- Relation: DBT byte layout and OIDs appended to returned data; the buffer is made at construction instead of at the first put.
- Relations.Relation.Unlink: the slot of the only tuple of a relation is never returned to the slab, as in the code.
- `im_rel_put` with flags 0 and value-referenced `im_rel_del`: they free slab memory with `free`, and the delete does not maintain the index.
- DB_LAST, DB_PREV, unindexed DB_SET and DB_NEXT_DUP, DB_SET_RECNO, and DB_NEXT after c_del on OID relations; the chains of relations without an index, which no lookup reads.
- Profile: parsing of lines, the printed percentages and weights, and the `printf` formats.
- R-tree: rectangles, splitting, insertion, search and `make_root`; byte pointers are block numbers, and read and write errors do not occur.
- RTrees.RTree.FillIn: for subtrees below the root, as its only caller guarantees.
- Join: the cursors are positions in sequences, and the selected columns are whole tuples; `slide_out` is 1.
