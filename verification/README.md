# Verified models of rucbase

This project models the parts of the rucbase teaching engine whose correctness does not show from reading one function,
and of the bipartite matching inside the vendored googlemock, and proves what they promise. `dafny verify
dfyconfig.toml` checks all of it. The parts are independent of each other but for `Defs` and `Cardinality`; the index
scan uses the index and the query language, the transactions use the record file.

**The B+ tree index** (`Ix*`). Pages are looked up by number in a map, so that two handles on one page see each other's
writes; a page keeps its live slots and, behind them, the spare slots that the code never clears. The tree is described
by the sequences of its pages per level (`lv`), and every property of neighbouring levels is a property of the slots of
one level strung together (`Flat`): a split or a merge leaves the flat sequence of its own level as it is and changes
one slot of the level above. `IxTree.Tree` says when pages are a tree: equal depth, parent fields that name the page
holding the child, strictly ascending keys, separators of inner pages equal to the first key of the child, separators
of leaves not above the first key and above every key to their left, legal sizes, and the doubly linked ring of leaves
through the header page. `IxIndexHandle.Sound` adds the file header: root, first and last leaf, number of pages. `Valid`
adds what is known of the spare slots: the strays in `stale` aside, those on leaves and those on inner pages, no spare
slot can mislead a search, and the strays hold keys that have been on a leaf or on an inner page before (`seen`). Every
operation keeps `Valid`, so every tree that a run reaches has it, and says how `Contents`, the map of the index, changes,
how the leaves and their separators change, which slots become strays and which keys come to stand on inner pages.
Leaves and separators determine in which leaf a key is looked up (`IxSeparators`). `IxRoute` says when a
search ends in the right leaf, `IxClean` which insertions lose nothing, `IxMend` what a deletion does to the leaves;
`IxRuns` runs the operations from a new index on, asking before each one whether its way is clear.
`IxNodeHandle` is one page in memory with its key and rid arrays; its in-place loops are tied to the functions on page
values that the tree uses. `IxScan` walks the ring, `IndexScanExecutor` filters a range of it.

**Bipartite matching** (`BipartiteMatching`). The single pass over the left nodes is justified by a certificate that
failed searches leave behind and that later searches never disturb.

**SELECT** (`SelectQuery`, `Executors`, `QueryPlanner`, `SelectRuns`). What a query means is a filter over the cross product of its
tables. The executors are objects with cursors; the plan is the right-deep tree that `select_from` builds. `SelectRuns`
says of single rows what a query returns.

**Buffer pool** (`LruReplacer`, `PoolState`, `BufferPoolManager`, `PoolRuns`). The store of pages behind the cache is
the frame if the page is resident and the disk otherwise; only a client's write changes it. A client must report changes
as dirty no later than with the last pin of the page, or flush it (`touched`); that is the precondition of `UnpinPage`.
`PoolRuns` runs such a client, with one event for each of its operations.

**Record file** (`RecordPage`, `RecordFile`, `RmPageHandle`, `RmFileHandle`, `RmScan`, `RecordRuns`). Pages are bytes
with a bitmap and slots. The records are a map from places to bytes.

**Transactions** (`TransactionLog`, `TransactionManager`, `TransactionRuns`) undo their write set on record files. A
deleted record may come back at another place.

**Reader-writer latch** (`ReaderWriterLatch`, `LatchProgress`). A monitor as a state machine: a step is what a thread does from getting
the mutex to releasing it or waiting. Notification, spurious wake-ups and the choice of the thread that notify_one wakes
are part of the steps. It excludes, loses no wake-up, and lets threads in.

**Catalog** (`Catalog`). Printing to and reading from a text stream.

## Findings

Where the code departs from what it promises, with the exact condition and an input that shows it.

- **Spare slots are compared** (`IxNode.StaleHit`, `IxNode.Misled`). LeafLookup and InternalLookup compare the key at
  the lower bound even when that is the spare slot behind the live ones. On one page `IxNode.LeafLookupExact` and
  `IxNode.InternalLookupExact` say exactly when this is harmless. In a tree a way down is clear exactly if no inner page
  that covers the key is misled (`IxRoute.ClearExact`); on a clear way the search ends in the leaf that covers the key,
  and in a tree of two levels only then (`IxRoute.WalkExact`, `IxRoute.LastStep`). In higher trees a misled search can
  come back to the right way (`IxRoute.ReleasedLeadsBack`), so that only one direction holds there.
- **Insertions alone** mislead the search for 0 and for no other key: the only strays on inner pages are slots of zeros,
  whatever the uncleared buffer of the first pages held (`IxRuns.RunPerforms`); at a leaf a key that lay in that buffer
  can be reported. For 0 `IxRoute.ZeroExact` gives the exact condition on each page that covers it. Inputs: at order 3,
  after -5, -4, -3 the search for 0 enters page 0, the file header (`IxRuns.LoseZeroBehindNegatives`); after -5, -3, 0 the
  stored key 0 is out of reach for lookup and deletion (`IxRuns.LoseStoredZero`); in general
  `IxRoute.NegativeFirstsMislead`.
- **Deletions**: when a page is merged away, its separator is misled in the parent if the page was its last child, and
  no other key is (`IxRoute.MergeMisleads`, and the contract of `IxIndexHandle.IxIndexHandle.MergePair`). The contract of
  `IxIndexHandle.IxIndexHandle.DeleteEntry` says so for a leaf that is merged away as the last child of a page that can
  do without it. Input: at order 3, after 1 to 4 are inserted and 4 and 3 are deleted, the search for 3 goes from the
  root to the released leaf, which is not in the tree any more, and finds 3 there (`IxRuns.FindInReleased`). A key that
  leaves the end of its leaf is still found there: after 1 and 2 are inserted and 2 is deleted, 2 is found
  (`IxRuns.FindDeletedTwo`; in every tree, `IxRuns.FindDropped`). Whatever has been deleted, only
  keys that stood on an inner page can be misled (`seen` and `IxIndexHandle.IxIndexHandle.KeyClear`), and the operations
  say which keys come to stand there.
- The tree operations require `ClearRoute(key)`: no inner page on the way down is `Misled`. A caller can check this
  before the call (`IxIndexHandle.IxIndexHandle.RouteIsClear`). At the leaf nothing is required: insertion and deletion are right there in any case, and `GetValue`
  says what it answers.
- **A scan can begin outside** (`IndexScanExecutor.IndexScanExecutor.StartsOutside`). lower_bound can answer with the
  place behind the slots of a leaf that is not the last. A scan that begins there fails:
  `IndexScanExecutor.IndexScanExecutor.Collect` says exactly when. Input: at order 4, after 11 to 14 are inserted and 12
  is deleted, the condition `>= 12` (`IndexScanExecutor.ScanBehindGap`); in every tree, a key deleted from the end of a
  leaf that is not the last (`IndexScanExecutor.ScanDropped`).
- upper_bound never looks at the first slot of its leaf and answers with the end of the ring when it runs out of keys.
  `IxIndexHandle.IxIndexHandle.UpperBoundPlace` says exactly when the answer is the upper bound; it is never too small.
- **The duplicate filter of insert_pairs steps by bytes where it means keys**: for pair i of a block it compares what lies
  at the byte offsets i and i - 1. The comparison is a parameter (`same`). The pairs of a block arrive exactly if it
  reports none of their keys to be that of its predecessor (`IxNode.FilterAll`, `IxNode.FilterKeeps`), and so with the
  upper half that a split moves (`IxIndexHandle.IxIndexHandle.Split`); in place of a lost pair a slot of zeros becomes
  live. For an int column pair i is lost exactly if the five bytes from offset i - 1 on are the same
  (`IxBytes.FiveBytes`). Input: at order 3, -2, -1 and 255: 255 is lost, and a pair with key 0 appears
  (`IxRuns.LoseInSplit`). Insertions require that all splits on their way up are clean (`LosesNothing`), which a caller
  can check before the call (`IxIndexHandle.IxIndexHandle.SplitsAreClean`).
- delete_entry corrects separators only if the first byte of the leaf's first key changed. The separator of a leaf is
  therefore a lower bound of its keys and not always its first key; this is all that the search needs. How a key's first
  byte comes about is a parameter (`firstByte`). The contract of `IxIndexHandle.IxIndexHandle.DeleteEntry` gives the
  separators in both cases; where the byte has changed, the deleted key is looked up in the leaf before from then on
  (`IxRuns.DropFirst`). Input: at order 4, after 11 to 14 are inserted and 13 is deleted (`IxRuns.DropSeparator`).
- Deleting the last key releases the root and leaves an index that no operation can use (`Emptied`).
- In insert_entry the second test for an overfull page concerns inner pages and never applies to a leaf; the size test
  at the beginning of CoalesceOrRedistribute always succeeds where it is called from.
- In a nested-loop join the right child is fed and begun once more when the left child has come to its end, with the
  left child's last record. `Executors.NestedLoopJoinExecutor.NextTuple` shows that this does no harm as long as the
  left child is a sequential scan of a non-empty table.
- check_column accepts a column of any table of the database. `QueryPlanner.SelectFrom` says that the assertion on
  left-over conditions fails exactly if a condition names a table that is not selected from.
- **RmScan on an empty file**: a scan of a record file without records stands neither on a record nor at the end
  (`RmScan.RmScan.constructor`).
- **Own deletions** (`TransactionLog.OwnDeleteFails`). Abort goes back through the very states of the transaction
  exactly if every deleted record comes back to its place (`TransactionLog.RetracesExactly`). The values of the tables
  are restored if at least the deleted records that the transaction had inserted or updated itself come back to their
  places (`TransactionLog.ValuesRestored`); a transaction that deletes no record of its own always meets this. There is
  no converse in terms of places: with equal bytes a run that swaps two records restores the values
  (`TransactionLog.EqualBytesHide`), with different bytes the same run does not (`TransactionLog.OwnDeleteFails`). The
  code makes this run: a file holds x, a transaction inserts a, deletes x and deletes a, and its abortion leaves a at the
  place of x (`TransactionRuns.AbortSwaps`).
- **Wake-ups of the latch** are not lost among up to MAX_READERS + 1 threads (`ReaderWriterLatch.NoLostSleeper`), and for
  every MAX_READERS and any larger number of threads there is a run that loses one
  (`ReaderWriterLatch.LostWithTooMany`, `ReaderWriterLatch.SleeperLostExactly`). Mutual exclusion holds for any number of threads.

## Model

| member | source | states |
|---|---|---|
| `IxNode.LowerBound` | db/rmdb/src/index/ix_node_handle.cpp:9-42 | every key before the index is smaller than the target, the key at it is not |
| `IxNode.UpperBound` | db/rmdb/src/index/ix_node_handle.cpp:50-80 | the first greater key among those from index 1 on; slot 0 is never looked at |
| `IxNode.PickRoutes` | db/rmdb/src/index/ix_node_handle.cpp:122-129 | in a sorted inner page the chosen slot is the last one whose key is not greater than the target, or the first slot |
| `IxNode.InternalLookupExact` | db/rmdb/src/index/ix_node_handle.cpp:113-130 | the unguarded comparison with the slot behind the live ones sends the search to the right child exactly when the page is not `Misled`, for every page and key |
| `IxNode.LeafLookupExact` | db/rmdb/src/index/ix_node_handle.cpp:90-106 | a key is reported exactly when a live slot holds it or the slot behind the live ones happens to; a live key is returned with its rid |
| `IxNode.RemoveExact` | db/rmdb/src/index/ix_node_handle.cpp:271-286 | removal takes out the slot with the key if there is one and otherwise changes nothing, whatever the spare slot holds |
| `IxNode.FilterAll` | db/rmdb/src/index/ix_node_handle.cpp:159-177 | all pairs go through the duplicate filter exactly if the comparison reports none of their keys to be that of its predecessor |
| `IxNode.FilterKeeps` | db/rmdb/src/index/ix_node_handle.cpp:159-177 | the first m pairs of a block go through the filter exactly if the comparison reports none of their keys to be that of its predecessor, unless one of them is repeated behind them |
| `IxBytes.FiveBytes` | db/rmdb/src/index/ix_node_handle.cpp:165-170 | the comparison, which reads four bytes at offsets one apart, takes pair i of an int column for a repetition exactly if the five bytes from offset i - 1 on are the same |
| `IxBytes.PlainClean` | db/rmdb/src/index/ix_node_handle.cpp:165-170 | keys of three bytes whose lowest byte is neither 00 nor FF all go through the filter |
| `IxBytes.MinusOneHides` | db/rmdb/src/index/ix_node_handle.cpp:165-170 | a block that begins with -1 and a key that ends with the byte FF loses a pair |
| `IxNode.InsertPairsOne` | db/rmdb/src/index/ix_node_handle.cpp:199-199 | insert_pair and the new size put one slot at its place and move the live slots behind it up by one |
| `IxNodeHandle.IxNodeHandle.constructor` | db/rmdb/src/index/ix_node_handle.h:49-53 | a handle shows the page that lies in the arrays: its slots in order, the first num_key of them live |
| `IxNodeHandle.IxNodeHandle.LowerBoundIdx` | db/rmdb/src/index/ix_node_handle.cpp:9-42 | the loop computes `LowerBound` of the live slots |
| `IxNodeHandle.IxNodeHandle.UpperBoundIdx` | db/rmdb/src/index/ix_node_handle.cpp:50-80 | the loop computes `UpperBound` of the live slots |
| `IxNodeHandle.IxNodeHandle.LookupLeaf` | db/rmdb/src/index/ix_node_handle.cpp:90-106 | on the arrays it answers as `LeafLookup` does on the page value |
| `IxNodeHandle.IxNodeHandle.LookupInternal` | db/rmdb/src/index/ix_node_handle.cpp:113-130 | on the arrays it answers as `InternalLookup` does on the page value |
| `IxNodeHandle.IxNodeHandle.Deduplicate` | db/rmdb/src/index/ix_node_handle.cpp:158-177 | the copying loop, with its comparison at byte offsets, keeps exactly the pairs that `Filter` keeps |
| `IxNodeHandle.IxNodeHandle.InsertPairsAt` | db/rmdb/src/index/ix_node_handle.cpp:146-194 | in place, the whole page including its spare slots becomes what `InsertPairs` says; pairs reaching beyond the page change nothing |
| `IxNodeHandle.IxNodeHandle.InsertOne` | db/rmdb/src/index/ix_node_handle.cpp:199-199 | in place, one slot is added at the position |
| `IxNodeHandle.IxNodeHandle.InsertKey` | db/rmdb/src/index/ix_node_handle.cpp:208-236 | in place, the key is added at its lower bound unless it is there; the result is the new size |
| `IxNodeHandle.IxNodeHandle.ErasePair` | db/rmdb/src/index/ix_node_handle.cpp:243-263 | in place, the slot is taken out and the last live slot stays behind as a spare one; positions without a live slot change nothing |
| `IxNodeHandle.IxNodeHandle.RemoveKey` | db/rmdb/src/index/ix_node_handle.cpp:271-286 | in place, the page becomes what `Remove` says; the result is the new size |
| `IxNodeHandle.IxNodeHandle.FindChild` | db/rmdb/src/index/ix_node_handle.cpp:294-303 | the first slot that names the child |
| `IxNodeHandle.RemovedKeyStillFound` | db/rmdb/src/index/ix_node_handle.cpp:100-104 | for every leaf: after its greatest key is removed the lookup still reports that key and its rid |
| `IxNodeHandle.ReleasedChildStillChosen` | db/rmdb/src/index/ix_node_handle.cpp:122-124 | for every inner page: after the slot of its last child is erased, the lookup of that separator still leads to the released page |
| `IxIndexHandle.IxIndexHandle.constructor` | db/rmdb/src/index/ix_manager.h:43-95 | a new index is a well-formed tree that holds the empty map; only zeros and what lay in the buffer can mislead a search |
| `IxIndexHandle.IxIndexHandle.CreateNode` | db/rmdb/src/index/ix_index_handle.cpp:569-577 | a page of zeros under the next page number, and one page more in the header |
| `IxIndexHandle.IxIndexHandle.FindChild` | db/rmdb/src/index/ix_node_handle.cpp:294-303 | a slot of the parent that names the child; the assertion behind the loop never fails where it is called |
| `IxIndexHandle.IxIndexHandle.MaintainChild` | db/rmdb/src/index/ix_index_handle.cpp:631-639 | the child in the slot names the page as its parent, and nothing else changes |
| `IxIndexHandle.IxIndexHandle.MaintainParent` | db/rmdb/src/index/ix_index_handle.cpp:584-602 | from a page whose own separators may be wrong up to the root: every separator on the way is corrected and no other key changes |
| `IxIndexHandle.IxIndexHandle.FindLeafPage` | db/rmdb/src/index/ix_index_handle.cpp:22-41 | the leaf reached is the one between whose separators the key lies |
| `IxIndexHandle.IxIndexHandle.RouteIsClear` | db/rmdb/src/index/ix_node_handle.cpp:113-130 | whether the way down is clear for a key can be told before the operation |
| `IxIndexHandle.IxIndexHandle.SplitsAreClean` | db/rmdb/src/index/ix_index_handle.cpp:84-100 | whether an insertion loses pairs in a split can be told before it, from the keys of the leaf and of the pages above it |
| `IxIndexHandle.IxIndexHandle.GetValue` | db/rmdb/src/index/ix_index_handle.cpp:51-65 | found exactly if the key is in the map or the spare slot of its leaf happens to hold it; the rid is that of the map, or that of the spare slot |
| `IxIndexHandle.IxIndexHandle.InsertEntry` | db/rmdb/src/index/ix_index_handle.cpp:74-104 | on every well-formed tree of order 3 or more: the tree stays well formed and its map gains the pair, unless the key is there already; this covers splits of any height up to a new root and a new smallest key. One leaf changes, and is split at (max - 1) / 2 when it has become too large. There are no new strays, and the only keys that come to stand on inner pages are the first keys of the two halves and a new smallest key; the separators afterwards are given exactly |
| `IxIndexHandle.IxIndexHandle.Split` | db/rmdb/src/index/ix_index_handle.cpp:113-159 | what comes to stand on the new page for every block: the pairs that go through the filter, then zeros. It is the upper half exactly if the comparison reports none of its keys to be that of its predecessor; then leaf ring and parent fields follow too |
| `IxIndexHandle.IxIndexHandle.InsertIntoParent` | db/rmdb/src/index/ix_index_handle.cpp:174-220 | from a tree in which one page still lacks its slot to a well-formed tree, with the same leaves, the same pairs and the same first and last leaf |
| `IxIndexHandle.IxIndexHandle.DeleteEntry` | db/rmdb/src/index/ix_index_handle.cpp:229-264 | true exactly if the key was in the map; the tree stays well formed and its map loses the key, through borrowing from either side, merging, recursive merging and a shrinking root; the last key takes the tree with it. The leaves afterwards are given exactly: the leaf stays, borrows from the left or the right, or goes together with its left or right neighbour, as the sizes and places demand. The only keys that come to stand on inner pages are the separator that the repair corrects and the first key of the leaf if its first byte is new. Where only the leaf changes, there are no new strays on inner pages; a leaf that is merged away as the last child of its page misleads the search for its separator there. The separators afterwards are given exactly: that of a leaf merged away goes, the repair corrects one, and a leaf that is not merged has its first key for its separator if the first byte of that key is new |
| `IxIndexHandle.IxIndexHandle.CoalesceOrRedistribute` | db/rmdb/src/index/ix_index_handle.cpp:277-369 | a tree in which one page has become too small by one slot is well formed afterwards and holds the same pairs; for a leaf, which neighbour lends or joins and what the leaves are then |
| `IxIndexHandle.IxIndexHandle.AdjustRoot` | db/rmdb/src/index/ix_index_handle.cpp:378-416 | an inner root with one child hands over to it; an empty leaf root ends the tree; any other root stays |
| `IxIndexHandle.IxIndexHandle.Redistribute` | db/rmdb/src/index/ix_index_handle.cpp:432-468 | a slot moves over from a neighbour: the tree is well formed again and the pairs are the same; the leaves are given slot by slot, and of the separators only that of the right one of the two changes |
| `IxIndexHandle.IxIndexHandle.Coalesce` | db/rmdb/src/index/ix_index_handle.cpp:483-542 | two neighbours become one and the parent loses a slot: in the end, however far up the tree is mended, it is well formed and the pairs are the same; of the leaves, two have become one, and of the separators one is gone and one corrected |
| `IxIndexHandle.IxIndexHandle.MergePair` | db/rmdb/src/index/ix_index_handle.cpp:500-541 | two pages become one, and in the parent exactly one search is misled if the page released was its last child: that for the released separator |
| `IxIndexHandle.IxIndexHandle.KeyClear` | db/rmdb/src/index/ix_index_handle.cpp:22-41 | in every state of an index: the way down is clear for every key that no stray on an inner page holds, so for every key that was never on an inner page; the leaf does not report a key that no stray on a leaf holds, so none that was never there |
| `IxIndexHandle.IxIndexHandle.EraseLeaf` | db/rmdb/src/index/ix_index_handle.cpp:609-619 | the neighbours of the leaf in the ring point to each other |
| `IxIndexHandle.IxIndexHandle.GetRid` | db/rmdb/src/index/ix_index_handle.cpp:650-657 | the rid of a live slot, the error behind them |
| `IxIndexHandle.IxIndexHandle.LowerBoundPlace` | db/rmdb/src/index/ix_index_handle.cpp:668-680 | the pairs before the place are exactly those with smaller keys; a scan can stand there unless it lies behind the slots of a leaf that is not the last |
| `IxIndexHandle.IxIndexHandle.UpperBoundPlace` | db/rmdb/src/index/ix_index_handle.cpp:688-706 | all pairs from the place on have greater keys; the pairs before it are exactly those with keys up to the given one if and only if the leaf begins with such a key and ends with a greater one or the ring |
| `IxIndexHandle.IxIndexHandle.LeafBegin` | db/rmdb/src/index/ix_index_handle.cpp:714-717 | the place of rank 0 |
| `IxIndexHandle.IxIndexHandle.LeafEnd` | db/rmdb/src/index/ix_index_handle.cpp:725-730 | the place behind all pairs |
| `IxRuns.SeparatorsThere` | db/rmdb/src/index/ix_index_handle.cpp:174-220 | there is one separator for each leaf, but none above a single leaf |
| `IxRuns.LookedUpIn` | db/rmdb/src/index/ix_index_handle.cpp:22-41 | where the way down is clear, a key is looked up in the last leaf whose separator is not greater, or in the first |
| `IxRuns.UpperSeparators` | db/rmdb/src/index/ix_index_handle.cpp:584-602 | on the levels above, every separator is the first key of its page |
| `IxRuns.DropFirst` | db/rmdb/src/index/ix_index_handle.cpp:229-264 | in every tree: when the first key of a leaf that can do without it is deleted, and the next key begins with another byte, that key is the separator of the leaf, no other separator changes, and the deleted key is looked up in the leaf before |
| `IxRuns.DropSeparator` | db/rmdb/src/index/ix_index_handle.cpp:256-259 | 11 to 14 are inserted at order 4 and 13 is deleted: the separators are 11 and 14, and lower_bound of 13 is the place behind 12 |
| `IxSeparators.LeafSizes` | db/rmdb/src/index/ix_node_handle.h:125-127 | a leaf is split when it has as many keys as the order, of which half stay, and mended when it has fewer than half of the order plus one, less one |
| `IxSeparators.CoversNumber` | db/rmdb/src/index/ix_index_handle.cpp:22-41 | the leaf between whose separators a key lies is the one that the separators give |
| `IxSeparators.SepsSplit` | db/rmdb/src/index/ix_index_handle.cpp:113-159 | a split on any level leaves the separators of the leaves alone |
| `IxSeparators.SepsGiven` | db/rmdb/src/index/ix_index_handle.cpp:209-213 | the slot of a new leaf in its parent is its separator; slots of other pages are none |
| `IxSeparators.SepsSettled` | db/rmdb/src/index/ix_index_handle.cpp:584-602 | maintain_parent from a leaf makes its first key its separator and changes no other; from a page above it changes none |
| `IxSeparators.SepsBorrowed` | db/rmdb/src/index/ix_index_handle.cpp:432-468 | a borrowing between leaves changes the separator of the right one, one between inner pages none |
| `IxSeparators.SepsMerged` | db/rmdb/src/index/ix_index_handle.cpp:500-532 | a merge of leaves takes out the separator of the right one, one of inner pages none |
| `IxTree.LevelAscending` | db/rmdb/src/index/ix_index_handle.cpp:584-602 | the separators of every inner level ascend strictly |
| `IxTree.RouteStep` | db/rmdb/src/index/ix_node_handle.cpp:113-130 | one step down leads to a page between whose separators the key lies again |
| `IxTree.OnlyInCovering` | db/rmdb/src/index/ix_index_handle.cpp:22-41 | a key is stored in the leaf that covers it or nowhere |
| `IxTree.EntriesSorted` | db/rmdb/src/index/ix_index_handle.cpp:714-730 | the leaves from left to right hold strictly ascending keys |
| `IxInsert.SplitPending` | db/rmdb/src/index/ix_index_handle.cpp:113-159 | splitting a page of any level keeps the tree but for the missing slot in the parent |
| `IxParent.InsertedTree` | db/rmdb/src/index/ix_index_handle.cpp:209-213 | the slot of the new page completes the tree; only the parent may be too large now |
| `IxParent.NewRoot` | db/rmdb/src/index/ix_index_handle.cpp:186-206 | a new root over the two halves of the old one completes the tree |
| `IxBorrow.BorrowedTree` | db/rmdb/src/index/ix_index_handle.cpp:432-468 | after a borrowing, the correction of the separator and the adoption of children the tree is well formed with the same pairs |
| `IxShrink.MergeDone` | db/rmdb/src/index/ix_index_handle.cpp:483-542 | after a merge and the correction of separators only the parent may be too small, and the pairs are the same |
| `IxShrink.CollapseReady` | db/rmdb/src/index/ix_index_handle.cpp:386-396 | a root with one child can be replaced by it |
| `IxOps.LeafRemove` | db/rmdb/src/index/ix_index_handle.cpp:240-249 | erasing a slot from its leaf takes its key out of the map and disturbs nothing but the size of the leaf |
| `IxOps.InsertedIntoLeaf` | db/rmdb/src/index/ix_index_handle.cpp:83-83 | inserting into the covering leaf adds the pair to the map, and the separators hold but for a new smallest key |
| `IxSpare.ArrivingExact` | db/rmdb/src/index/ix_index_handle.cpp:141-145 | what a split brings to the new page is the upper half exactly if none of its keys is reported to be that of its predecessor, but for slots that are zeros or repeated behind them |
| `IxSpare.QuietSplit` | db/rmdb/src/index/ix_index_handle.cpp:113-159 | a split makes no stray: the spare slots of the page split repeat slots of its new right neighbour, and those of the new page are old ones or zeros |
| `IxSpare.FirstsKept` | db/rmdb/src/index/ix_index_handle.cpp:584-602 | correcting the separators above the first leaf raises no first key of a page behind the first of its level |
| `IxSpare.QuietSettled` | db/rmdb/src/index/ix_index_handle.cpp:584-602 | so correcting them makes no stray |
| `IxSpare.QuietErase` | db/rmdb/src/index/ix_node_handle.cpp:243-263 | erasing a slot of a leaf behind the first makes one stray, the last live slot |
| `IxRoute.ClearExact` | db/rmdb/src/index/ix_index_handle.cpp:22-41 | the way down for a key is clear exactly if no inner page that covers the key is misled |
| `IxRoute.RouteClear` | db/rmdb/src/index/ix_index_handle.cpp:22-41 | where every spare slot is a stray or beyond its page, the way is clear for every key that no stray on an inner page holds |
| `IxRoute.WalkExact` | db/rmdb/src/index/ix_index_handle.cpp:22-41 | the walk of the code ends in the leaf that covers the key if the way is clear; in trees of up to two levels, only then |
| `IxRoute.LastStep` | db/rmdb/src/index/ix_node_handle.cpp:113-130 | from a page above the leaves the lookup leads to the leaf that covers the key exactly if the page is not misled |
| `IxRoute.ZeroExact` | db/rmdb/src/index/ix_node_handle.cpp:113-130 | a page that covers 0 misleads the search for it exactly if its keys are negative and the slot behind them holds 0 and names another page than the last child; that slot is a stray, whatever the strays are |
| `IxRoute.NegativeFirstsMislead` | db/rmdb/src/index/ix_node_handle.cpp:113-130 | where every leaf begins with a negative key and there is an inner page, the search for 0 leaves the root through the slot behind its keys if that slot holds 0, so for page 0 if it is a slot of zeros, whatever the strays are |
| `IxRoute.MergeMisleads` | db/rmdb/src/index/ix_index_handle.cpp:528-532 | erasing a slot of an inner page misleads the search for its key if it was the last slot, and no other search |
| `IxRoute.MisleadsExact` | db/rmdb/src/index/ix_node_handle.cpp:113-130 | an inner page whose first spare slot lies behind all its keys and names no live child sends exactly the search for that key there |
| `IxRoute.LastChildMerged` | db/rmdb/src/index/ix_index_handle.cpp:483-542 | a leaf that is the last child of its page is merged away: afterwards its separator misleads the search in that page |
| `IxRoute.ReleasedLeadsBack` | db/rmdb/src/index/ix_node_handle.cpp:113-130 | after a merge of inner pages a misled search enters the released page and leaves it for the child that holds the key |
| `IxClean.CleanGoesUp` | db/rmdb/src/index/ix_index_handle.cpp:209-216 | after a split the page above is split cleanly in turn, if the keys said so before the insertion |
| `IxMend.TheRepair` | db/rmdb/src/index/ix_index_handle.cpp:297-364 | which repair the sizes of the neighbours below the same parent demand |
| `IxMend.LeavesMerged` | db/rmdb/src/index/ix_index_handle.cpp:500-532 | a merge on any level leaves the leaves alone or makes one of two |
| `IxRuns.Run` | db/rmdb/src/index/ix_index_handle.cpp:51-264 | every run of insertions, deletions and lookups from a new index on, each performed exactly if its way is clear and it loses nothing, step by step: the map, the answer and the keys that come to stand on inner pages |
| `IxRuns.RunStates` | db/rmdb/src/index/ix_index_handle.cpp:51-264 | in every state of every run the index holds the map of the operations performed, and only keys that were put in, and 0, have been on inner pages |
| `IxRuns.RunAnswers` | db/rmdb/src/index/ix_index_handle.cpp:51-264 | every operation of every run is answered as the map demands, or refused; a key that is not stored is reported only if a spare slot of its leaf holds it, never one that was not put in |
| `IxRuns.RunPerforms` | db/rmdb/src/index/ix_index_handle.cpp:51-264 | no operation of a run is refused while the index has one leaf, for a key that was never on an inner page, as one never put in, or before any deletion for a key other than 0, unless an insertion would lose a pair |
| `IxRuns.LoseInSplit` | db/rmdb/src/index/ix_index_handle.cpp:113-159 | -2, -1 and 255 at order 3: the split loses 255 and puts a pair with key 0 in its place |
| `IxRuns.Fill` | db/rmdb/src/index/ix_index_handle.cpp:74-104 | as many ascending keys as one leaf can take, and the split of the leaf by one more |
| `IxRuns.LoseZero` | db/rmdb/src/index/ix_node_handle.cpp:113-130 | at every order: ascending keys the middle one of which is negative fill a new index, and the search for 0 goes to page 0 |
| `IxRuns.LoseZeroBehindNegatives` | db/rmdb/src/index/ix_node_handle.cpp:113-130 | -5, -4, -3 at order 3: the search for 0 goes to page 0 |
| `IxRuns.LoseStoredZero` | db/rmdb/src/index/ix_node_handle.cpp:113-130 | -5, -3, 0 at order 3: 0 is stored, and the search for it goes to page 0 |
| `IxRuns.FindDropped` | db/rmdb/src/index/ix_node_handle.cpp:90-106 | in every tree: the greatest key of a leaf that can do without it is found after it was deleted |
| `IxRuns.FindDeletedTwo` | db/rmdb/src/index/ix_node_handle.cpp:90-106 | 1 and 2 are inserted and 2 is deleted: 2 is found |
| `IxRuns.DropThird` | db/rmdb/src/index/ix_index_handle.cpp:483-542 | the only key of the last of three leaves is deleted: the search for it goes from the root to the released leaf, where it is found |
| `IxRuns.FindInReleased` | db/rmdb/src/index/ix_index_handle.cpp:483-542 | 1 to 4 are inserted at order 3, then 4 and 3 are deleted: the search for 3 goes to a leaf that is no longer in the tree, where 3 is found |
| `IxRuns.SeekDropped` | db/rmdb/src/index/ix_index_handle.cpp:668-680 | in every tree: lower_bound of such a key lies behind the slots of its leaf, where a scan can stand only on the last leaf |
| `IxPositions.RankUnique` | db/rmdb/src/index/ix_scan.h:21-21 | comparing two places of a scan is comparing how many pairs lie before them |
| `IxPositions.NextPlace` | db/rmdb/src/index/ix_scan.cpp:6-18 | one step of a scan leads to the place of the next rank |
| `IxPositions.LowerSplits` | db/rmdb/src/index/ix_index_handle.cpp:668-680 | the lower bound within the covering leaf is the lower bound among all pairs |
| `IxPositions.UpperInside` | db/rmdb/src/index/ix_index_handle.cpp:693-701 | inside its leaf the upper bound is right exactly when the first key of the leaf is not greater |
| `IxPositions.UpperOutside` | db/rmdb/src/index/ix_index_handle.cpp:696-698 | the end of the ring is the right answer exactly when no leaf follows and the first key is not greater |
| `IxScan.IxScan.Next` | db/rmdb/src/index/ix_scan.cpp:6-18 | the rank grows by one and the assertions hold |
| `IxScan.IxScan.GetRid` | db/rmdb/src/index/ix_scan.cpp:20-22 | the rid of the pair at the current rank |
| `IxScan.IxScan.EndExact` | db/rmdb/src/index/ix_scan.h:21-21 | the scan is at its end exactly when its rank is that of its end |
| `IxScan.ScanAll` | db/rmdb/src/index/ix_index_handle.cpp:714-730 | a scan from the first place to the last terminates and lists every stored pair once, by strictly ascending keys |
| `IndexScanExecutor.IndexScanExecutor.SelectRange` | db/rmdb/src/execution/executor_index_scan.h:64-108 | no record that meets the conditions lies outside the range taken from the index, for each of =, <, >, <= and >= |
| `IndexScanExecutor.IndexScanExecutor.Collect` | db/rmdb/src/execution/executor_index_scan.h:61-141 | the records found are exactly those that a filter over all records finds, each once, by ascending keys; the scan fails exactly when the lower bound lies behind the slots of a leaf that is not the last |
| `IndexScanExecutor.IndexScanExecutor.Gathered` | db/rmdb/src/execution/executor_index_scan.h:121-141 | what the loops collect between the two ends of the range is what the filter accepts |
| `IndexScanExecutor.IndexScanExecutor.constructor` | db/rmdb/src/execution/executor_index_scan.h:26-57 | the conditions are turned so that their left columns are on the table |
| `IndexScanExecutor.IndexScanExecutor.Feed` | db/rmdb/src/execution/executor_index_scan.h:154-168 | after feeding, the conditions mean on a record what the original ones mean on the outer rows and the record |
| `IndexScanExecutor.ScanDropped` | db/rmdb/src/execution/executor_index_scan.h:61-118 | in every tree: a scan for values from a key on that was deleted from the end of a leaf fails unless the leaf is the last |
| `IndexScanExecutor.ScanBehindGap` | db/rmdb/src/execution/executor_index_scan.h:61-118 | 11 to 14 are inserted at order 4 and 12 is deleted: a scan for values from 12 on fails |
| `BipartiteMatching.MatchMatrix.EdgeAlone` | db/rmdb/deps/googletest/googlemock/include/gmock/gmock-matchers.h:3522-3524 | setting an edge in the flat matrix changes this edge and no other |
| `BipartiteMatching.MaxBipartiteMatchState.TryAugment` | db/rmdb/deps/googletest/googlemock/src/gmock-matchers.cc:184-208 | success matches exactly one more left node and leaves the certificate untouched; failure changes nothing and marks a set of right nodes that proves it final; a left node of the certificate is never augmented |
| `BipartiteMatching.MaxBipartiteMatchState.SearchAll` | db/rmdb/deps/googletest/googlemock/src/gmock-matchers.cc:147-155 | after one pass every left node without partner belongs to the certificate |
| `BipartiteMatching.MaxBipartiteMatchState.Compute` | db/rmdb/deps/googletest/googlemock/src/gmock-matchers.cc:132-163 | the edges returned form a matching, and no matching of the graph has more |
| `BipartiteMatching.FindMaxBipartiteMatching` | db/rmdb/deps/googletest/googlemock/src/gmock-matchers.cc:228-230 | the same for every graph |
| `BipartiteMatching.CoverBound` | db/rmdb/deps/googletest/googlemock/src/gmock-matchers.cc:135-146 | a matching has at most as many edges as any set of nodes that meets all of them |
| `BipartiteMatching.Enlarge` | db/rmdb/deps/googletest/googlemock/src/gmock-matchers.cc:147-155 | the marks of a failed search extend the certificate to its left node |
| `BipartiteMatching.LinkFreed` | db/rmdb/deps/googletest/googlemock/src/gmock-matchers.cc:200-205 | linking a node with the freed partner of another keeps both vectors mutually inverse |
| `BipartiteMatching.Optimal` | db/rmdb/deps/googletest/googlemock/src/gmock-matchers.cc:135-146 | the certificate bounds every matching by the number of matched left nodes |
| `BipartiteMatching.Saturates` | db/rmdb/deps/googletest/googlemock/src/gmock-matchers.cc:424-437 | a matching reaches every element (every matcher) exactly if it has as many edges |
| `BipartiteMatching.FindPairing` | db/rmdb/deps/googletest/googlemock/src/gmock-matchers.cc:420-459 | true exactly if elements and matchers can be paired as the flags demand |
| `SelectQuery.OrderOfValues` | db/rmdb/src/execution/executor_seq_scan.h:147-178 | on every row: = holds of equal values only, < is the order of the values, and exactly one of <, = and > holds |
| `SelectQuery.OppositeExact` | db/rmdb/src/execution/executor_seq_scan.h:147-178 | on every row: <> holds exactly when = does not, <= when > does not, >= when < does not |
| `SelectQuery.EachOperator` | db/rmdb/src/execution/executor_seq_scan.h:147-178 | what each of the six operators lets through of a smaller, an equal and a greater value |
| `SelectQuery.OrientedSame` | db/rmdb/src/execution/executor_seq_scan.h:33-45 | swapping the operands of a condition does not change its meaning |
| `SelectQuery.FedSame` | db/rmdb/src/execution/executor_seq_scan.h:120-134 | a fed condition on a row means what the condition means on the outer rows and that row |
| `SelectQuery.PushDown` | db/rmdb/src/execution/execution_manager.cpp:229-258 | for any number of tables: what a right-deep plan with pushed-down conditions yields is the cross product in lexicographic order, filtered by all conditions |
| `SelectQuery.FedOnRow` | db/rmdb/src/execution/executor_seq_scan.h:120-134 | the same for a single row of a table |
| `Executors.OrientAll` | db/rmdb/src/execution/executor_seq_scan.h:33-45 | the loop turns exactly the conditions whose left column is on another table |
| `Executors.FeedAll` | db/rmdb/src/execution/executor_seq_scan.h:120-134 | the loop replaces exactly the columns of other tables by their outer values |
| `Executors.FedScan` | db/rmdb/src/execution/executor_seq_scan.h:120-134 | after feeding, the conditions are closed on every row of the table |
| `Executors.SeqScanExecutor.constructor` | db/rmdb/src/execution/executor_seq_scan.h:24-47 | the loop turns exactly the conditions whose left column is on another table |
| `Executors.SeqScanExecutor.BeginTuple` | db/rmdb/src/execution/executor_seq_scan.h:55-81 | to the first row that meets the fed conditions; the runtime checks hold |
| `Executors.SeqScanExecutor.NextTuple` | db/rmdb/src/execution/executor_seq_scan.h:83-105 | to the next row that meets them |
| `Executors.SeqScanExecutor.Feed` | db/rmdb/src/execution/executor_seq_scan.h:120-134 | every column of another table is replaced by its outer value; the runtime checks hold afterwards |
| `Executors.SeqScanExecutor.RuntimeOK` | db/rmdb/src/execution/executor_seq_scan.h:138-145 | check_runtime_conds never fails on a fed scan |
| `Executors.NestedLoopJoinExecutor.FeedRight` | db/rmdb/src/execution/executor_nestedloop_join.h:107-117 | the right child is fed with the outer rows and the row of the left child |
| `Executors.NestedLoopJoinExecutor.BeginTuple` | db/rmdb/src/execution/executor_nestedloop_join.h:40-60 | afterwards the results still to come are all results of the plan under the outer rows |
| `Executors.NestedLoopJoinExecutor.NextTuple` | db/rmdb/src/execution/executor_nestedloop_join.h:62-78 | the results still to come lose their first one, although an exhausted left child is fed once more |
| `Executors.Executor.Next` | db/rmdb/src/execution/executor_nestedloop_join.h:82-99 | the first of the results still to come |
| `Executors.Executor.EndExact` | db/rmdb/src/execution/executor_nestedloop_join.h:80-80 | is_end says that no results are left |
| `QueryPlanner.PopConds` | db/rmdb/src/execution/execution_manager.cpp:185-200 | the loop that erases while it walks takes out exactly the conditions whose tables are known, in order |
| `QueryPlanner.PoppedOnce` | db/rmdb/src/execution/execution_manager.cpp:229-247 | every condition goes to exactly one scan or is left over |
| `QueryPlanner.PoppedExact` | db/rmdb/src/execution/execution_manager.cpp:229-231 | the scan on a table gets exactly the conditions whose tables become complete with it |
| `QueryPlanner.LeftExact` | db/rmdb/src/execution/execution_manager.cpp:247-247 | the conditions left over are exactly those that name a table not selected from |
| `QueryPlanner.AllScansMeet` | db/rmdb/src/execution/execution_manager.cpp:229-247 | the conditions of all scans hold together exactly when the where clause holds |
| `QueryPlanner.MakeTree` | db/rmdb/src/execution/execution_manager.cpp:249-259 | the executor tree is the right-deep plan over the tables in order |
| `QueryPlanner.SelectFrom` | db/rmdb/src/execution/execution_manager.cpp:209-306 | the rows are the combinations of the cross product that meet the where clause, once each, in lexicographic scan order; the assertion on left-over conditions fails exactly if one names a foreign table |
| `SelectRuns.CrossAt` | db/rmdb/src/execution/execution_manager.cpp:249-259 | the cross product has every choice of one row of each table at its place in lexicographic order, with the values of the chosen rows, and no more combinations than there are choices |
| `SelectRuns.MatchingExact` | db/rmdb/src/execution/execution_manager.cpp:281-285 | the result has every row as often as there are combinations with its values, if it meets every condition, and otherwise not at all |
| `SelectRuns.MatchingOrder` | db/rmdb/src/execution/execution_manager.cpp:281-285 | results keep the order of their combinations |
| `SelectRuns.SelectBy` | db/rmdb/src/execution/execution_manager.cpp:209-306 | a table with the ids 1, 2 and 3: the rows that SELECT returns for each operator and the value 2 |
| `SelectRuns.SelectJoined` | db/rmdb/src/execution/execution_manager.cpp:209-306 | two tables joined on equal values: the rows that SELECT returns |
| `LruReplacer.OldestFirst` | db/rmdb/src/replacer/lru_replacer.cpp:13-67 | after every run of the operations the list holds exactly the evictable frames, once each, in the order in which they became evictable |
| `LruReplacer.IndexedErase` | db/rmdb/src/replacer/lru_replacer.cpp:46-47 | erasing through the iterator of the hash keeps list and hash describing the same frames |
| `LruReplacer.LRUReplacer.Victim` | db/rmdb/src/replacer/lru_replacer.cpp:13-29 | the first frame of the list, and list and hash stay in step |
| `LruReplacer.LRUReplacer.Pin` | db/rmdb/src/replacer/lru_replacer.cpp:35-48 | the frame leaves list and hash |
| `LruReplacer.LRUReplacer.Unpin` | db/rmdb/src/replacer/lru_replacer.cpp:54-67 | the frame is appended unless it is there |
| `PoolState.ZeroBytes` | db/rmdb/src/storage/page.h:88-88 | a page that was reset is 4096 bytes 0 |
| `PoolState.NoneToTake` | db/rmdb/src/storage/buffer_pool_manager.cpp:83-98 | no frame is to be had exactly when all frames are pinned |
| `PoolState.Written` | db/rmdb/src/storage/buffer_pool_manager.cpp:104-113 | writing a frame back changes nothing in the store |
| `PoolState.Filled` | db/rmdb/src/storage/buffer_pool_manager.cpp:114-126 | giving a clean frame another page changes nothing in the store and keeps the table exact |
| `PoolState.UnpinnedOnce` | db/rmdb/src/storage/buffer_pool_manager.cpp:215-229 | the last pin may go if changes are reported as dirty |
| `PoolState.ClientWrote` | db/rmdb/src/storage/buffer_pool_manager.cpp:216-231 | a client write changes one page of the store and no other |
| `BufferPoolManager.BufferPoolManager.constructor` | db/rmdb/src/storage/buffer_pool_manager.h:75-92 | all frames are free, no page is resident and the store is the disk |
| `BufferPoolManager.BufferPoolManager.FetchPage` | db/rmdb/src/storage/buffer_pool_manager.cpp:52-129 | the store does not change; the frame returned carries the page and its content; no frame exactly if the page is not resident and all frames are pinned; no other pinned frame is touched; the frame taken is the first free one, or else the one that became evictable first; a page that was never written is 4096 bytes 0 |
| `BufferPoolManager.BufferPoolManager.NewPage` | db/rmdb/src/storage/buffer_pool_manager.cpp:335-398 | the store does not change; a page of 4096 bytes 0 under the next number of its file, counted from 0, in the first free frame or else the one that became evictable first; no frame exactly if all are pinned |
| `BufferPoolManager.BufferPoolManager.UnpinPage` | db/rmdb/src/storage/buffer_pool_manager.cpp:198-231 | true exactly if the page is resident and pinned; then it has one pin less, is dirty if it was or is said to be, and with its last pin its frame joins the evictable ones as the last; the store does not change |
| `BufferPoolManager.BufferPoolManager.FlushPage` | db/rmdb/src/storage/buffer_pool_manager.cpp:279-304 | a resident page is on the disk afterwards; the store does not change |
| `BufferPoolManager.BufferPoolManager.FlushAllPages` | db/rmdb/src/storage/buffer_pool_manager.cpp:485-494 | all resident pages of the file are on the disk afterwards; the store, the page table and the pins do not change |
| `BufferPoolManager.BufferPoolManager.Write` | db/rmdb/src/storage/page.h:63-63 | a client that has a page pinned changes that page of the store alone |
| `BufferPoolManager.BufferPoolManager.ReplacerFits` | db/rmdb/src/replacer/lru_replacer.cpp:17-17 | the size assertions of the replacer never fail |
| `PoolRuns.RunClient` | db/rmdb/src/storage/buffer_pool_manager.cpp:52-494 | every run of a client from a new pool on, operation by operation: fetching fails exactly if the page is not resident and all frames are pinned, a new page has the next number of its file, a page is changed exactly if the client holds it, and pins go up and down by one for one page; whenever the client sees a page, the page holds what the client wrote to it last or else what was on the disk, and in the end the store does; a new page, and one that was never written, is seen as 4096 bytes 0 |
| `PoolRuns.ReadsLast` | db/rmdb/src/storage/buffer_pool_manager.cpp:52-494 | in every run the store holds what was written last, and what is seen of a page is that |
| `PoolRuns.OthersKept` | db/rmdb/src/storage/buffer_pool_manager.cpp:52-129 | an operation on one frame leaves the pins of all other pages alone |
| `RecordPage.BitAlone` | db/rmdb/src/record/bitmap.h:14-21 | setting or resetting a bit changes that bit alone |
| `RecordPage.BitPlace` | db/rmdb/src/record/bitmap.h:48-50 | bit number i stands in byte i / 8, the first of a byte in its highest place |
| `RecordPage.SlotBytes` | db/rmdb/src/record/rm_file_handle.h:27-30 | slot number k stands behind the bitmap and the slots before it |
| `RecordPage.CountFull` | db/rmdb/src/record/rm_file_handle.cpp:171-178 | the count of set bits reaches the number of slots exactly when all are set |
| `RecordPage.PageFits` | db/rmdb/src/record/rm_manager.h:32-35 | for every accepted record size, header, bitmap and slots fit into a page, and the bitmap has a bit for every slot and no byte too many; one record more would exceed the bytes that create_file reckons with |
| `RecordPage.WriteAlone` | db/rmdb/src/record/rm_file_handle.h:27-30 | writing a slot changes no other slot and no bit of the byte page |
| `RecordPage.MarkAlone` | db/rmdb/src/record/bitmap.h:14-18 | changing a bit changes no slot of the byte page |
| `RmPageHandle.RmPageHandle.Set` | db/rmdb/src/record/bitmap.h:15-15 | in place, the bit is set and nothing else changes |
| `RmPageHandle.RmPageHandle.Reset` | db/rmdb/src/record/bitmap.h:18-18 | in place, the bit is cleared and nothing else changes |
| `RmPageHandle.RmPageHandle.NextBit` | db/rmdb/src/record/bitmap.h:31-41 | the next place whose bit has the wanted value, or the number of places |
| `RmPageHandle.RmPageHandle.CopyIn` | db/rmdb/src/record/rm_file_handle.cpp:43-43 | in place, the slot has the new bytes and nothing else changes |
| `RecordFile.Inserted` | db/rmdb/src/record/rm_file_handle.cpp:41-47 | filling a free slot adds exactly that record to the table |
| `RecordFile.Removed` | db/rmdb/src/record/rm_file_handle.cpp:72-74 | clearing the bit of a record takes exactly that record away |
| `RecordFile.Overwritten` | db/rmdb/src/record/rm_file_handle.cpp:94-95 | writing a slot changes that record alone |
| `RecordFile.Room` | db/rmdb/src/record/rm_file_handle.cpp:48-51 | a page has room exactly if it has a clear bit |
| `RecordFile.ListMeansRoom` | db/rmdb/src/record/rm_file_handle.cpp:112-124 | the list of pages with room is empty exactly if every place holds a record |
| `RecordFile.PoppedFree` | db/rmdb/src/record/rm_file_handle.cpp:48-51 | when the first page of the list becomes full, the rest of the list leads through exactly the pages with room |
| `RecordFile.PushedFree` | db/rmdb/src/record/rm_file_handle.cpp:171-178 | a page that gets room comes to the front and the list stays exact |
| `RmFileHandle.RmFileHandle.constructor` | db/rmdb/src/record/rm_manager.h:20-41 | a new file holds no record; the number of records per page is the greatest that create_file can reckon with |
| `RmFileHandle.RmFileHandle.InsertRecord` | db/rmdb/src/record/rm_file_handle.cpp:27-59 | the record is added at the lowest free slot of the first page of the list; there is a new page exactly if no page has room; counts and free list stay exact |
| `RmFileHandle.RmFileHandle.DeleteRecord` | db/rmdb/src/record/rm_file_handle.cpp:66-82 | the table loses the record at the place, if any; counts and free list stay exact |
| `RmFileHandle.RmFileHandle.UpdateRecord` | db/rmdb/src/record/rm_file_handle.cpp:90-97 | the record at the place, if any, has the new bytes, and nothing else changes |
| `RmFileHandle.RmFileHandle.GetRecord` | db/rmdb/src/record/rm_file_handle.cpp:9-19 | the bytes of the record |
| `RmFileHandle.RmFileHandle.CreateNewPage` | db/rmdb/src/record/rm_file_handle.cpp:129-144 | a page without records comes to the front of the list |
| `RecordRuns.FillFile` | db/rmdb/src/record/rm_file_handle.cpp:27-59 | records inserted into a new file stand in the order of their insertion and without gaps, for every record size and any number of them; the pages are used up |
| `RecordRuns.FillSmall` | db/rmdb/src/record/rm_file_handle.cpp:27-59 | with records of 4 bytes the first 987 are on page 1, and the next one is the first on page 2 |
| `RmScan.RmScan.constructor` | db/rmdb/src/record/rm_scan.cpp:10-31 | the scan stands on the first record exactly if the file has one, and never at the end |
| `RmScan.RmScan.Next` | db/rmdb/src/record/rm_scan.cpp:36-67 | to the first record behind the current one, or to the end if there is none |
| `RmScan.ScanAll` | db/rmdb/src/record/rm_scan.cpp:10-75 | in a file with a record, every record is visited exactly once, in the order of pages and slots, and the scan ends |
| `TransactionLog.UndoExact` | db/rmdb/src/transaction/transaction_manager.cpp:142-187 | undoing a write leads back to exactly the state before it if and only if a deleted record comes back to its place |
| `TransactionLog.RetracesExactly` | db/rmdb/src/transaction/transaction_manager.cpp:135-189 | abortion passes through the very states of the transaction exactly if every deleted record comes back to its place |
| `TransactionLog.ValuesRestored` | db/rmdb/src/transaction/transaction_manager.cpp:135-189 | if the deleted records of its own come back to their places, every table holds the values from before the transaction, wherever the others are put |
| `TransactionLog.AbortMeans` | db/rmdb/src/transaction/transaction_manager.cpp:121-190 | without deletions abortion leads back to the state before the transaction, and if it deleted no record that it had inserted or updated, to the same values |
| `TransactionLog.ValuesWithout` | db/rmdb/src/transaction/transaction_manager.cpp:142-187 | a record contributes its value once to the values of its table |
| `TransactionLog.UndoTracks` | db/rmdb/src/transaction/transaction_manager.cpp:135-189 | undoing the last write keeps the values of the tables in step with the state before it, wherever deleted records of others are put |
| `TransactionLog.OwnDeleteFails` | db/rmdb/src/transaction/transaction_manager.cpp:156-167 | a run in which a deleted record of its own comes back elsewhere: abortion leaves it and loses an older one |
| `TransactionRuns.AbortSwaps` | db/rmdb/src/transaction/transaction_manager.cpp:121-190 | a file with the record x; a transaction inserts a, deletes x, deletes a and is aborted: at the places insert_record takes, the file holds a in the end, and not x |
| `TransactionLog.EqualBytesHide` | db/rmdb/src/transaction/transaction_manager.cpp:156-167 | with equal bytes the same run restores the tables: no condition on places alone is necessary |
| `TransactionManager.TransactionManager.Begin` | db/rmdb/src/transaction/transaction_manager.cpp:13-30 | a new transaction has written nothing and is entered under its number |
| `TransactionManager.TransactionManager.InsertTuple` | db/rmdb/src/execution/executor_insert.h:52-57 | the record is inserted and the write set tells so |
| `TransactionManager.TransactionManager.DeleteTuple` | db/rmdb/src/execution/executor_delete.h:44-62 | the record is deleted and the write set holds it |
| `TransactionManager.TransactionManager.UpdateTuple` | db/rmdb/src/execution/executor_update.h:44-76 | the record is updated and the write set holds its old bytes |
| `TransactionManager.TransactionManager.Undo` | db/rmdb/src/transaction/transaction_manager.cpp:142-187 | one write is undone; a deleted record goes to the lowest free slot of a page, a new one only if no page has room |
| `TransactionManager.TransactionManager.Abort` | db/rmdb/src/transaction/transaction_manager.cpp:121-190 | the tables go back through the states of the transaction exactly if every deleted record comes back to its place, so always if there were no deletions; if those of its own do, every table holds the same values as before, so always if it deleted no record of its own. A file gets no new page while its pages have room |
| `ReaderWriterLatch.StepKeeps` | db/rmdb/src/common/rwlatch.cpp:6-52 | every step of every thread keeps the counts right and the writer alone, for any number of threads |
| `ReaderWriterLatch.StepAttends` | db/rmdb/src/common/rwlatch.cpp:29-52 | among up to MAX_READERS + 1 threads no step leaves a sleeper whom neither the writer nor a full latch explains |
| `ReaderWriterLatch.RunKeeps` | db/rmdb/src/common/rwlatch.cpp:6-52 | both invariants hold in every state of every interleaving |
| `ReaderWriterLatch.MutualExclusion` | db/rmdb/src/common/rwlatch.cpp:6-52 | in every run of any number of threads a writer inside excludes all others, and the count is the number of readers inside |
| `ReaderWriterLatch.NoNewReaders` | db/rmdb/src/common/rwlatch.cpp:29-35 | while a writer has announced itself no thread becomes a reader |
| `ReaderWriterLatch.NoLostSleeper` | db/rmdb/src/common/rwlatch.cpp:20-52 | in every run of up to MAX_READERS + 1 threads: if a thread sleeps without notification, someone holds the latch or the announced writer is on its way in |
| `ReaderWriterLatch.LostWithTooMany` | db/rmdb/src/common/rwlatch.cpp:44-50 | for every MAX_READERS and any number of threads from MAX_READERS + 2 on, a run in which one sleeps on while the latch is free and, from 2 readers on, all others are gone |
| `ReaderWriterLatch.SleeperLostExactly` | db/rmdb/src/common/rwlatch.cpp:44-50 | some run of n threads leaves a sleeper behind exactly if n is MAX_READERS + 2 or more |
| `LatchProgress.WLockExact` | db/rmdb/src/common/rwlatch.cpp:6-15 | WLock lets a thread in at once exactly if nobody reads or writes or has announced itself to write; behind a writer it sleeps on one variable, behind readers on the other |
| `LatchProgress.DrainExact` | db/rmdb/src/common/rwlatch.cpp:12-14 | after a wake-up the announced writer is let in exactly if no reader is left |
| `LatchProgress.RLockExact` | db/rmdb/src/common/rwlatch.cpp:29-35 | RLock lets a thread in exactly if no writer has announced itself and there are fewer than MAX_READERS readers |
| `LatchProgress.WUnlockExact` | db/rmdb/src/common/rwlatch.cpp:20-24 | WUnlock leaves no writer and wakes everyone who waits for one to leave |
| `LatchProgress.LeaverStep` | db/rmdb/src/common/rwlatch.cpp:40-52 | a reader can always leave |
| `LatchProgress.WriterGetsIn` | db/rmdb/src/common/rwlatch.cpp:6-52 | from every state of every run, a thread that wants to write can still be let in |
| `LatchProgress.ReaderGetsIn` | db/rmdb/src/common/rwlatch.cpp:6-52 | from every state of every run, a thread that wants to read can still be let in |
| `LatchProgress.WaitingWriter` | db/rmdb/src/common/rwlatch.cpp:6-52 | in every run, while an announced writer waits the readers only become fewer, and when none is left it is awake and its next step lets it in |
| `LatchProgress.WriteOnce` | db/rmdb/src/common/rwlatch.cpp:6-24 | a run in which a thread locks the latch to write and unlocks it |
| `Catalog.NumberOfDecimal` | db/rmdb/src/system/sm_meta.h:26-28 | reading back a printed number gives the number |
| `Catalog.PrintedNumbers` | db/rmdb/src/system/sm_meta.h:20-24 | numbers are printed by their decimal digits |
| `Catalog.PrintedCatalog` | db/rmdb/src/system/sm_meta.h:111-117 | the text of a catalog of one table with a column of each type |
| `Catalog.IStream.ReadWord` | db/rmdb/src/system/sm_meta.h:26-28 | reading back a printed word gives the word and stops behind it |
| `Catalog.IStream.ReadInt` | db/rmdb/src/system/sm_meta.h:26-28 | reading back a printed integer gives the integer and stops behind it |
| `Catalog.IStream.ReadCol` | db/rmdb/src/system/sm_meta.h:20-28 | reading back a printed column gives the column |
| `Catalog.IStream.ReadTab` | db/rmdb/src/system/sm_meta.h:69-86 | reading back a printed table gives the table |
| `Catalog.IStream.ReadDb` | db/rmdb/src/system/sm_meta.h:111-128 | reading back a printed catalog gives the catalog, in whatever order its tables were printed |
| `Catalog.RoundTrip` | db/rmdb/src/system/sm_meta.h:111-128 | printing and reading back is the identity on every catalog with non-empty names free of white space |

## Left out

- IxIndexHandle.IxIndexHandle.FindLeafPage: requires a way down that no spare slot disturbs (`ClearRoute`), because a
  misled search enters a page that is no longer part of the tree, or page 0, the file header, whose bytes are not
  modelled. Which keys have a clear way is proved: see Findings.
- IxIndexHandle.IxIndexHandle.InsertEntry: requires `ClearRoute`, for the same reason, and `LosesNothing`: after a split
  that lost a pair, slots of zeros are live and the pages need not be a tree any more. What such a split does to the two
  pages is stated for all inputs by `IxIndexHandle.IxIndexHandle.Split`.
- IxIndexHandle.IxIndexHandle.Split: where a slot of zeros arrives on an inner page, the code goes on to write the parent
  field of page 0, the file header, which is not modelled; an inner page is required to get slots that name its pages.
- IxIndexHandle.IxIndexHandle.DeleteEntry: requires `ClearRoute`, for the same reason.
- IxIndexHandle.IxIndexHandle.GetValue: requires `ClearRoute`, for the same reason.
- IxIndexHandle.IxIndexHandle.LowerBoundPlace: requires `ClearRoute`, for the same reason.
- IxIndexHandle.IxIndexHandle.UpperBoundPlace: requires `ClearRoute`, for the same reason.
- IndexScanExecutor.IndexScanExecutor.SelectRange: requires `ClearRoute` for the key of the condition that gives the
  range, for the same reason.
- IndexScanExecutor.IndexScanExecutor.Collect: requires `ClearRoute` for that key, for the same reason.
- QueryPlanner.SelectFrom: excludes tables without records, on which the scan of the code stands neither on a record nor
  at the end (see Findings), and plans with index scans.
- BufferPoolManager.BufferPoolManager.UnpinPage: excludes that the last pin of a changed page goes without a report that
  it is dirty; the pool may then drop the change, as it has no way to know of it.
- Keys are integers: to the index only their order matters, and the outcomes of two comparisons of bytes, which are
  parameters (`firstByte`, `same`). Of the byte encodings only that of int columns is modelled (`IxBytes`); float
  comparison, string columns and the key lengths of ix_compare are left out, and so are column types and string lengths
  in conditions.
- Pin counts taken by the index and the record file, the free-page field of the index header, page numbers after a file
  is reopened, and descriptors that are used again: the index and the record file work on maps of pages.
- Latches and mutexes around the operations of the index and the buffer pool: each operation is one step.
- DeletePage of the buffer pool, which no caller uses, and the ClockReplacer.
- The page headers of record files are integers beside the bytes, and the file header is a set of fields; their bytes,
  and the writing of the file header to the disk, are left out.
- insert_record at a given place, which no caller uses.
- Index entries are not undone by Abort in the code either; Commit and the release of locks have nothing to prove.
- Projection, insert_into, update_set and delete_from beyond the writes that they record; the printing of results.
- Index scans as children of joins: Executors takes every scan as sequential. IndexScanExecutor treats an index scan
  alone, with its operand swap and its feeding.
- The operators of the catalog that write are functions that put the text of an item in front of what follows; the ones
  that read work on the stream. Malformed text and numbers beyond the width of int are left out.
- SQL parsing, the network, logging, recovery, the lock manager and checkpoints.
- The rest of googletest.
