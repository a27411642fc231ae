# Archivum: a verification model

Archivum is a small storage engine with a timekeeping module, punchline, on top of it. This project models the parts
whose correctness is not visible from any one function, and proves what they promise for every input, every run and
every reachable state. `dafny verify dfyconfig.toml` checks the whole project.

**Log, pager and crashes** (`PageFormat`, `Disk`, `LogFormat`, `Protocol`, `Wal`, `Db`). `Disk.FaultVfs` is the crash
model: every file has a durable part, a cache and a list of pending operations; a power loss keeps any subset of them,
in any order, writes torn. `WalFile.Wal` and `Database.Db` are the log and the database, as classes with the source's
fields. The protocol is a *mode* (creating, settled with an empty log, or live with a log and perhaps one transaction in
doubt) and a predicate `Safe` on each file that every step keeps and every crash keeps. A script of opens, commits,
reads, checkpoints and power losses, with a schedule of the steps in which the medium may fail, is answered command by
command, and `Explains` is a relation between script, schedule, answers and a trace of *accounts* (what has been
acknowledged, what one failed commit may have left, what each reader began at, what is no longer in order) that mentions
nothing of the implementation; a failure is explained only by a fault in that step or an earlier one.
`Database.DurabilityTheorem` takes any script, cuts the power, reopens and reads: opening succeeds, and what is read is
the state of the last account, or that state with the one transaction in doubt, whole. `Database.SnapshotReads` is
snapshot isolation over whole runs; `AcknowledgedReads` and `AllOrNothing` say of the pages themselves what readers are
answered after a commit that was acknowledged, and after one that failed.

**Archive and point-in-time recovery** (`Archive`). A history is the sequence of committed transactions. Whatever run of
commits, checkpoints, failed resets and reopens, from a new database on, produced the archive, recovery from any backup
gives page for page the state at the counter it reports, and that counter is the point asked for, with the live log or
up to where it begins without.

**B+tree** (`KeyOrder`, `Pager`, `TreeShape`, `TreeMoves`, `TreeShrink`, `TreeValues`, `TreeState`, `TreeSteps`,
`MapTree`, `Forest`, `Cursor`, `NodeSpace`, `NodeSplit`, `NodeFits`). Keys are embedded in the unit interval, in order;
each node owns an interval, and the leaves' intervals tile it. Every structural change is a *move* (a datatype with its
precondition, its pages and its shape after) with a lemma `Keeps`. `MapTree.BTree` is the tree over a transaction's
pages; it refines a finite map. `Forest.Run` takes any script over any number of trees and transactions, committed or
rolled back, and shows that every tree is the map the script says, that nodes, overflow pages and free list partition
the file, and that no page outgrows its bytes: no leaf ever, and no interior node as long as the keys are short enough,
with the exact bound in `NodeSplit`.

**Typed store** (`KeyCodec`, `Scan`, `RowScan`, `RowCodec`, `Catalog`, `Store`, `Schema`, `Writer`, `Claims`, `Dump`).
The key codec keeps order and is prefix-free; a scan returns, through pages, codecs and index entries, exactly the rows
within its bounds; over every run of row and schema commands the store is what the commands say, and its indexes, unique
values, foreign keys, nulls and key lengths hold; `Claims` says column by column which rows, tables and indexes are
taken and what is there then; restore takes exactly the dumps of good stores and gives them back.

**Punchline** (`Pairing`, `Timesheet`, `Provenance`, `Calendar`, `ZoneRules`, `ZoneWindow`). Repairing the pairing of
punches from an instant on equals folding all punches again; over every run of syncs, manual entries, transitions and
locks, books and shifts are what the script says, every entry is a punch that was sent, every rung was climbed by an
allowed command, what is locked stays, the approval ladder keeps its invariants, and shifts stay the pairing of the
punches exactly through the approvals that `Pairing.Survives` admits; the three-year window of the time-zone footer
finds the latest change of all years for exactly the rules that a comparison at the new years of one 400-year cycle
admits; civil dates and day numbers are inverse.

Where an obvious claim is false of the code, the model keeps the code, shows a failing input and proves when the claim
holds:

- a page freed in an earlier transaction and freed again: `Pager.FreeKeepsList` and `WriteTxn.FreePage`, with
  `Pager.FreedTwice`;
- an interior node divided by cell count: `NodeSplit.AlwaysFitExactly`, with `NodeSplit.SmallestPageOverflows`;
- an update that moves a row away from itself: `Store.UpdateKeepsParents`, with `StoreWriter.StrayingUpdate`;
- a definition that validation admits and the decoder does not: `CatalogCodec.DefBack` and `ValidLeavesOpen`, with
  `CatalogCodec.LongCheckIsLost`; one that is too wide for a row: `CatalogCodec.SavedTableLoads`, with
  `WideTableIsLost`;
- a rule whose changes reach over new year: `ZoneWindow.WindowIsEnoughIff` for every rule, in closed form
  `ZoneRules.WindowIsEnoughExactly`, with `ZoneRules.Missed` and `ZoneRules.WindowCanMiss`;
- an approval that leaves unsettled shifts other than the pairing of the unsettled punches:
  `Timesheet.ApprovalPaired`, with `Timesheet.NightShift` and `Timesheet.ApprovalCanUnpair`.

## Modelling decisions

- A file is a sequence of cells, each whole or lost: one cell is a page, the log header or one log frame. A checksum
  is ideal: it is the term of what it covers, so a frame validates only after the predecessor it was written after.
  Salts are fresh. A torn write loses some of its cells. `sync_directory` can fail but changes nothing.
- Critical sections are atomic steps: every method of a class is one. Any interleaving of readers, a writer and
  checkpoints is then a script of such steps.
- Return paths for corruption that cannot be reached are written down and proved dead with `assert false`.
- A tree's pages are datatypes (`Pager.Content`), not bytes. Whether a node takes a cell is decided by whether all
  fits tightly packed, which `NodeSpace.Node.FitsIsPacking` shows to be what the byte code decides. `WriteTxn.longest`
  is a ghost bound on the keys that are put, there to say when interior nodes fit; at `MaxKey` it excludes no key that
  the tree accepts. Trees do not need equal leaf depth, and erase does not keep it.
- The store holds the contents of its trees, as maps and sets; columns and indexes are named by position. A look-up in
  an index is `PrefixExists`, which `Scan.PrefixLookup` implements with a cursor, and `RowScan.ScanRows` reads rows
  from the pages of the trees of a table.
- In punchline, who may do what, whether a manual entry is otherwise in order, and whether an export hold stands, are
  boolean parameters. Punches of the same instant are in the order of their ids, as the stable sort leaves them.

## Model

| member | source | states |
|---|---|---|
| Disk.FaultVfs.Write | engine/testing/src/fault_vfs.cpp:76-99 | A write that succeeds is pending whole; one that fails has left nothing, part or all of it pending; the other file is untouched. |
| Disk.FaultVfs.Sync | engine/testing/src/fault_vfs.cpp:101-118 | An honest sync makes everything pending durable; a failed one changes nothing. |
| Disk.FaultVfs.Reboot | engine/testing/src/fault_vfs.cpp:360-420 | After power loss each file is its durable part with some subset of its pending operations, in some order, torn or not, and nothing is pending. |
| Disk.FaultVfs.PickSurvivor | engine/testing/src/fault_vfs.cpp:360-412 | Choosing, tearing and shuffling step by step gives one of the files that a crash may leave. |
| Disk.MayLeave | engine/testing/src/fault_vfs.cpp:360-412 | A power loss may leave nothing pending, all of it, any one operation alone, a write cut off after any number of cells, or a later operation before an earlier one. |
| LogFormat.RecoverIntact | engine/src/engine/wal.cpp:71-162 | Scanning an intact log gives back exactly its transactions. |
| LogFormat.RecoverRemnant | engine/src/engine/wal.cpp:71-162 | A log followed by any remnant of one more transaction's frames recovers with that transaction if all of them are there, and without it otherwise. |
| LogFormat.RecoverStale | engine/src/engine/wal.cpp:71-162 | Frames left from before a reset, under another salt, recover as an empty log. |
| LogFormat.ScanNext | engine/src/engine/wal.cpp:113-140 | One accepted frame extends the held images, or publishes the transaction that it completes; the running checksum stays that of the log. |
| Protocol.SafeCrash | engine/testing/src/fault_vfs.cpp:360-412 | Whatever a crash leaves of an admissible file fits the same mode and state. |
| Protocol.CommitSafe | engine/src/engine/wal.cpp:224-274 | Once the transaction's frames are durable, both files are admissible for the state after it. |
| Protocol.RecoverFits | engine/src/engine/wal.cpp:71-162 | Every log file that fits a mode recovers to a log that opening may continue with. |
| Protocol.RecoveryPlan | engine/src/engine/wal.cpp:71-162 | What recovery publishes and cuts off, for every admissible log file, is again admissible, before and after the cut. |
| WalFile.Wal.AppendTransaction | engine/src/engine/wal.cpp:224-274 | The transaction is in the log, durable and published; or the log in memory is as before, has failed, and the file holds at most the transaction in doubt. |
| WalFile.Wal.DiscardUncommitted | engine/src/engine/wal.cpp:276-280 | Truncating what a failed append left keeps the file admissible, whether or not the truncation succeeds. |
| WalFile.Wal.Publish | engine/src/engine/wal.cpp:164-172 | Index, commit list and sizes are those of the longer log. |
| WalFile.Wal.Find | engine/src/engine/wal.cpp:203-210 | The frame found is the newest of the page at or before the snapshot. |
| WalFile.NewestByPosition | engine/src/engine/wal.cpp:203-210 | The last position of a page not after a snapshot, in its sorted list, is the newest frame that a scan of the log finds. |
| WalFile.Wal.ReadFramePage | engine/src/engine/wal.cpp:212-222 | A committed frame reads as the image committed there; other frame numbers are refused. |
| WalFile.Wal.LatestFrames | engine/src/engine/wal.cpp:282-289 | Exactly the pages with a frame in the log, each with its newest. |
| WalFile.Wal.Reset | engine/src/engine/wal.cpp:291-317 | The log is empty under a fresh salt; after any failure the file still fits the checkpointed state, and the log takes no more appends. |
| WalFile.Wal.ScanFile | engine/src/engine/wal.cpp:106-141 | The recovery loop publishes exactly what the specification of the scan says. |
| WalFile.Wal.RecoverFrames | engine/src/engine/wal.cpp:106-162 | From every admissible file, the log in memory, the file after the cut, and the protocol agree. |
| WalFile.Wal.Open | engine/src/engine/wal.cpp:35-62 | Opening creates, restarts or recovers the log, never refuses it, and leaves an admissible file at every exit. |
| Database.Db.Open | engine/src/engine/db.cpp:93-225 | Opening never refuses: it fails only if the medium does, and then nothing is lost; on success the state is the acknowledged one, or that with the transaction in doubt. |
| Database.Db.HeaderFromLog | engine/src/engine/db.cpp:227-251 | A torn page 0 is found in the log exactly when the database is not new. |
| Database.Db.ReadCommitted | engine/src/engine/db.cpp:308-332 | Through cache, log and file, a read returns the page of the snapshot's state. |
| Database.HitIsRight | engine/src/engine/db.cpp:54-77 | A cache entry keyed by page and frame is the page of every snapshot, not older than the floor, whose newest frame is that one. |
| Database.Db.CachePut | engine/src/engine/db.cpp:60-72 | The cache gains the entry, drops only others, and stays in step with the eviction list. |
| Database.Db.BeginRead | engine/src/engine/db.cpp:340-362 | A reader's snapshot shows the state acknowledged now. |
| Database.Db.ReadPage | engine/src/engine/db.cpp:532-537 | A reader sees the state of its snapshot, whatever happened since; pages beyond it are refused. |
| Database.Db.Backup | engine/src/engine/db.cpp:274-293 | A backup is page for page the acknowledged state. |
| Database.Db.Commit | engine/src/engine/db.cpp:614-638 | Answered ok, the newest image of every page written is the page, every other page but page 0 is as it was, and the acknowledged state is the old one with the transaction applied; on failure it is unchanged and at most this transaction is in doubt. |
| Database.Db.CommitFrames | engine/src/engine/db.cpp:387-411 | Appending and caching frames acknowledges the transaction or leaves it in doubt. |
| Database.Db.CopyPage | engine/src/engine/db.cpp:427-430 | Copying one page into the file keeps every invariant, even if the write fails or is torn, and never undoes another copy. |
| Database.Db.Checkpoint | engine/src/engine/db.cpp:418-458 | At every step and error exit the acknowledged state and every reader's view are unchanged; it is refused exactly while readers are active; on success the log is empty. |
| Database.Db.EmptyLog | engine/src/engine/db.cpp:452-457 | Dropping the cache and resetting the log keeps every invariant, including when the reset fails half way. |
| Database.Db.PowerLoss | engine/testing/src/fault_vfs.cpp:360-420 | Every invariant of the database survives power loss at any moment. |
| Database.Db.Step | engine/src/engine/db.cpp:93-458 | Every command keeps the database's invariants and every reader's view, and command and answer move the account as `Moves` says: an acknowledged commit moves the model, a failed one may leave a candidate, opening finds the model or the candidate, a read answers the page the reader began at; and a failure has a fault in this step, or an earlier one, behind it. |
| Database.Db.Run | engine/src/engine/db.cpp:93-458 | For every script and every schedule of faults, a trace of accounts, from a new database on, explains every answer, and the database agrees with its last account. |
| Database.DurabilityTheorem | engine/src/engine/db.cpp:93-251 | After any script, on a medium that may fail at any step, and a power loss, reopening succeeds and finds what the account of the answers says: the acknowledged state, or that with the one transaction in doubt; and every page of it reads back. |
| Database.NoFailures | engine/src/engine/db.cpp:93-458 | As long as the medium works, no command of an explained run fails. |
| Database.SnapshotReads | engine/src/engine/db.cpp:340-362 | In any explained run, a page read by a reader is the page of the state acknowledged when it began, whatever was committed or checkpointed since. |
| Database.CommitWrites | engine/src/engine/db.cpp:614-638 | In the account of a run, a commit answered ok leaves every page with the newest image written to it, all others as they were, and page 0 with the new header; only with nothing written and no change to the header does nothing change. |
| Database.CommitAnswer | engine/src/engine/db.cpp:569-638 | When the log can be written, a commit is refused exactly if it would shrink the file, writes page 0 or a page past the end, or leaves out a page that it adds. |
| Database.AcknowledgedReads | engine/src/engine/db.cpp:387-411 | In any explained run, a page written by a commit answered ok is what every reader begun before the next commit is answered, through any number of crashes and reopenings. |
| Database.AllOrNothing | engine/src/engine/db.cpp:387-411 | In any explained run, of any two pages written by a commit that failed, a reader begun before the next commit, even after crashes and reopenings, is answered either both new images or both old ones. |
| Archive.RunKeeps | engine/src/engine/db.cpp:439-457 | Over every run of commits, checkpoints, failed resets, reopens and failures, the archive and the live log cover the history without a gap, also when a longer segment is archived again or a failed reset has changed the base in memory. |
| Archive.Replay | engine/src/engine/recovery.cpp:211-220 | Writing a commit's frames and cutting the file gives the state after that commit. |
| Archive.ApplySegment | engine/src/engine/recovery.cpp:196-230 | Replaying a segment stays on the history, stops exactly at the point asked for, and otherwise reaches the segment's end. |
| Archive.PointOfCounter | engine/src/engine/recovery.cpp:126-133 | A counter target at or after the backup is the point itself; without a target it is the end. |
| Archive.PointOfIsLast | engine/src/engine/recovery.cpp:126-133 | Every commit up to the point is within the target, and the next is not. |
| Archive.PointOfIs | engine/src/engine/recovery.cpp:126-133 | No commit up to the point is later than the time asked for, the point is not past the counter asked for, and it is there, or before a commit that is later, or at the end. |
| Archive.Pick | engine/src/engine/recovery.cpp:163-171 | Of the segments that begin by the counter, the one that begins last is taken, if there is one. |
| Archive.RecoverToPoint | engine/src/engine/recovery.cpp:94-241 | From genuine segments and any backup the file is the state at the reported counter; no commit replayed is later than the time asked for or past the counter asked for; and if the chain is unbroken the next commit is. |
| Archive.KeptIsUnbroken | engine/src/engine/recovery.cpp:135-187 | What a run archived is an unbroken chain: to the end with the live log, to its base without. |
| Archive.RecoverFromRun | engine/src/engine/recovery.cpp:94-241 | After any run of a new database the history is the commits of the run; recovery replays no commit later than the time asked for; with the live log it stops only at the counter asked for, before a commit that is later, or at the end; without the live log it does so for every point up to that log's base. |
| Archive.RecoveredPages | engine/src/engine/recovery.cpp:211-220 | In a recovered file every page written by then has the image written last, page 0 has the header of the last commit, and every other page is as at the start of the history. |
| KeyOrder.ComparePos | engine/src/engine/btree.cpp:27-33 | Byte order of keys is the order of their positions in the unit interval. |
| Pager.FreeKeepsList | engine/src/engine/db.cpp:599-612 | Putting a page on the free list leaves a list exactly if it was not on it already. |
| Pager.FreedTwice | engine/src/engine/db.cpp:599-612 | A page on the list, freed again, leaves no list. |
| Pager.FourKeysFit | engine/src/engine/btree.cpp:171-188 | A key is short enough exactly if four cells with it fit in a page. |
| Pager.WriteTxn.Write | engine/src/engine/db.cpp:569-577 | The page is written unless it is page 0, outside the file or freed in this transaction; the free list is kept exactly if the page was in use or keeps its link. |
| Pager.WriteTxn.Allocate | engine/src/engine/db.cpp:579-597 | The page given out was not in use; the free list stays a list, one shorter, of the length the header says. |
| Pager.WriteTxn.FreePage | engine/src/engine/db.cpp:599-612 | Pages outside the file, and pages freed in the same transaction, are refused; any other goes onto the list, and a list is left exactly if the page was in use. |
| TreeShape.HomeIsCovering | engine/src/engine/btree.cpp:286-312 | A key of the tree is in the one leaf whose interval holds it. |
| TreeMoves.LeafSplit.Keeps | engine/src/engine/btree.cpp:393-452 | Splitting a leaf and inserting its separator keeps the tree's shape, its links and its entries. |
| TreeMoves.InteriorSplit.Keeps | engine/src/engine/btree.cpp:483-530 | So does splitting an interior node. |
| TreeShrink.LeafRemoval.Keeps | engine/src/engine/btree.cpp:550-592 | Removing an empty leaf, unlinking it and dropping its separator keeps the shape; the leaf's interval goes to its neighbours. |
| TreeShrink.Collapse.Keeps | engine/src/engine/btree.cpp:593-614 | Replacing an interior node by its only child keeps the shape, at whatever depth the child was. |
| TreeShrink.PullUp.Keeps | engine/src/engine/btree.cpp:593-602 | Moving an only child into the root page keeps the shape, and the root's page number. |
| TreeShrink.PushDown.Keeps | engine/src/engine/btree.cpp:502-529 | Moving the root's contents into a new page, before the root splits, keeps the shape. |
| TreeValues.EntryInsert.Keeps | engine/src/engine/btree.cpp:364-392 | A new entry in the leaf that covers its key keeps the shape. |
| TreeValues.EntryRemove.Keeps | engine/src/engine/btree.cpp:535-549 | Taking an entry out keeps the shape. |
| TreeState.ChainBuilt | engine/src/engine/btree.cpp:221-241 | Pages written one by one, each with the next bytes, are a chain of the value. |
| TreeState.RemovedIsGood | engine/src/engine/btree.cpp:277-284 | Without an entry and its overflow chain, shape, values and page ownership still agree. |
| TreeState.ExtendedIsGood | engine/src/engine/btree.cpp:364-392 | So they do with a new entry and its chain. |
| TreeSteps.SplitInterior | engine/src/engine/btree.cpp:483-530 | On the path of a search, splitting a full node leaves a good tree and the rest of the path. |
| TreeSteps.TakeOut | engine/src/engine/btree.cpp:569-592 | On the path of a search, so does taking out an empty leaf. |
| NodeSpace.Node.InsertCell | engine/src/engine/btree.cpp:113-120 | The cells are the old ones with the new one in its slot; cell bytes and fragments still add up to the body. |
| NodeSpace.Node.RemoveCell | engine/src/engine/btree.cpp:122-128 | The cells are the old ones without one; its bytes become a fragment. |
| NodeSpace.Node.Defragment | engine/src/engine/btree.cpp:130-146 | The cells are the same, in the same order, and no fragment is left. |
| NodeSpace.Node.FitsIsPacking | engine/src/engine/btree.cpp:93-111 | A cell fits, at once or after defragmenting, exactly if all cells and slots fit the page packed. |
| NodeSplit.LeafSplitPoint | engine/src/engine/btree.cpp:393-409 | Both halves of a leaf split by size have entries, and both fit. |
| NodeSplit.AlwaysFitExactly | engine/src/engine/btree.cpp:497-518 | With keys of at most k bytes both halves of every interior split fit if and only if ((k+11)/13)*(k+12) <= page_size-28. |
| NodeSplit.SquareBound | engine/src/engine/btree.cpp:483-518 | (k+12)^2 <= 13*(page_size-28) is enough. |
| NodeSplit.SmallestPageOverflows | engine/src/engine/btree.cpp:497-518 | With 512-byte pages and the longest keys allowed, a split can leave a half that does not fit. |
| NodeFits.LeafDivides | engine/src/engine/btree.cpp:393-409 | A leaf that fitted before one more entry is divided where both halves fit, with all their cells within the limit. |
| NodeFits.SeparatorAdded | engine/src/engine/btree.cpp:483-497 | A node that fitted before one more separator either fits with it or is what the count-based split is about. |
| NodeFits.NodeDivides | engine/src/engine/btree.cpp:497-518 | Then both halves fit, if the keys are short enough for the page. |
| MapTree.LowerBound | engine/src/engine/btree.cpp:96-111 | The binary search finds the first entry not before the key, and whether it is the key. |
| MapTree.BTree.FindLeaf | engine/src/engine/btree.cpp:286-312 | The path leads to the leaf that covers the key, and its slot is where the key is or would be. |
| MapTree.BTree.WriteOverflow | engine/src/engine/btree.cpp:221-241 | New pages hold the value as a chain; no page in use changes. |
| MapTree.BTree.ReadOverflow | engine/src/engine/btree.cpp:243-261 | Following a chain gives back its value. |
| MapTree.BTree.FreeOverflow | engine/src/engine/btree.cpp:263-275 | Exactly the chain's pages are freed. |
| MapTree.BTree.Get | engine/src/engine/btree.cpp:314-331 | Get is look-up in the map. |
| MapTree.BTree.InsertIntoLeaf | engine/src/engine/btree.cpp:364-453 | Through leaf, interior and root splits the map gains the entry and the tree stays good; other trees' pages do not change. |
| MapTree.BTree.InsertSeparator | engine/src/engine/btree.cpp:455-531 | Splits cascading to the root restore a good tree with the same map. |
| MapTree.BTree.Put | engine/src/engine/btree.cpp:333-345 | Put is map update; empty and overlong keys are refused and change nothing. |
| MapTree.BTree.InsertIfAbsent | engine/src/engine/btree.cpp:347-362 | The map changes exactly if the key was absent. |
| MapTree.BTree.RemoveChild | engine/src/engine/btree.cpp:569-615 | Removing an empty leaf, with the collapses that follow, restores a good tree with the same map. |
| MapTree.BTree.Erase | engine/src/engine/btree.cpp:535-567 | Erase is map removal, and reports whether the key was there. |
| MapTree.BTree.Destroy | engine/src/engine/btree.cpp:209-219 | Exactly the tree's nodes and overflow pages are freed. |
| MapTree.AllFound | engine/src/engine/btree.cpp:749-859 | What the walk from the root collects, closed under children and chains, is all of the tree. |
| Forest.Forest.Step | engine/src/engine/btree.cpp:190-615 | Each command does to its tree what it does to the map, and to the other trees nothing; a commit saves all of it and a rollback brings back what was saved. |
| Forest.Run | engine/src/engine/btree.cpp:190-615 | After any script over any trees, in any number of transactions, each tree is the map the script means, every page in use belongs to one tree, and no page is overfull: interior nodes not as long as ((k+11)/13)*(k+12) <= page_size-28 for the longest key put. |
| Forest.Partition | engine/src/engine/btree.cpp:209-281 | Every page from 1 on is on the free list or belongs to a tree, never both; the list's length is the header's count. |
| TreeCursor.Cursor.LoadSlot | engine/src/engine/btree.cpp:626-643 | Skipping empty and exhausted leaves along the links finds the least key ahead, or that there is none. |
| TreeCursor.Cursor.Seek | engine/src/engine/btree.cpp:645-653 | The cursor is on the least key not before the one sought. |
| TreeCursor.Cursor.SeekLast | engine/src/engine/btree.cpp:672-694 | The cursor is on the greatest key. |
| TreeCursor.Cursor.Next | engine/src/engine/btree.cpp:696-700 | The cursor moves to the next key of the map, or becomes invalid at its end. |
| TreeCursor.Cursor.Prev | engine/src/engine/btree.cpp:702-720 | The cursor moves to the key before, or becomes invalid. |
| TreeCursor.Forward | engine/src/engine/btree.cpp:619-700 | A forward walk lists exactly the entries from the key on, in increasing order. |
| TreeCursor.Backward | engine/src/engine/btree.cpp:672-720 | A backward walk lists exactly the entries, in decreasing order. |
| TreeCursor.BackwardIsReversed | engine/src/engine/btree.cpp:619-720 | The backward listing is the forward one reversed. |
| KeyCodec.ValueOrder | engine/src/engine/record.cpp:53-82 | The bytes of two different values of one column type compare as the values do, whatever follows. |
| KeyCodec.KeyOrderIsRowOrder | engine/src/engine/record.cpp:84-88 | Encoded keys compare as their rows do, column by column, a prefix first. |
| KeyCodec.PrefixFree | engine/src/engine/record.cpp:12-82 | No encoding of a value begins another of its type. |
| KeyCodec.PrefixIff | engine/src/engine/record.cpp:84-88 | A key begins with an encoded prefix exactly if its leading values are those. |
| KeyCodec.DecodesKey | engine/src/engine/record.cpp:90-138 | Decoding gives back the row and leaves what follows it. |
| KeyCodec.ReadKey | engine/src/engine/record.cpp:90-138 | The decoding loop computes the decoder's specification, on every input. |
| Scan.KeyBoundsAreRowBounds | engine/src/engine/store.cpp:507-580 | The tests on bytes that end a scan are the bounds on the leading columns. |
| Scan.AboveIs | engine/src/engine/store.cpp:507-580 | A row is above a bound exactly if it is greater in the first column in which it differs from it, or does not differ and the bound is inclusive. |
| Scan.BelowIs | engine/src/engine/store.cpp:507-580 | The same from above. |
| Scan.GreaterIs | engine/src/engine/types.cpp:67-97 | Values of one column compare nulls first, then by number, false before true, or byte by byte; and only equal ones compare equal. |
| Scan.SeekPast | engine/src/engine/store.cpp:554-565 | The start of a reverse scan is found past the keys within the upper bound, prefix or not. |
| Scan.ScanForward | engine/src/engine/store.cpp:529-552 | Exactly the keys within the bounds, in order. |
| Scan.ScanBackward | engine/src/engine/store.cpp:554-578 | Exactly the keys within the bounds, in reverse order. |
| Scan.ReverseIsReversal | engine/src/engine/store.cpp:507-580 | The reverse scan is the forward one reversed. |
| Scan.ScanRaw | engine/src/engine/store.cpp:507-580 | For any bounds, inclusive or exclusive, exactly the rows whose leading columns satisfy them; bounds of other types are refused. |
| Scan.PrefixLookup | engine/src/engine/store.cpp:499-505 | One seek tells whether any key begins with the values. |
| RowScan.Fetch | engine/src/engine/store.cpp:594-612 | From an entry of an index, or a primary key, the row it is of; an entry without a row does not occur. |
| RowScan.ScanRows | engine/src/engine/store.cpp:582-615 | From the pages of a table's trees, by primary key or index: exactly the rows within the bounds, each once, in key order or in reverse; bounds of other types are refused. |
| Store.IndexLookup | engine/src/engine/store.cpp:495-505 | A prefix look-up in an index finds exactly the rows with the values in its leading columns. |
| Store.ParentFoundIs | engine/src/engine/store.cpp:640-665 | The look-up for a parent, by primary key or unique index, is right. |
| Store.ChildFoundIs | engine/src/engine/store.cpp:667-690 | The look-up for children, by primary key prefix or supporting index, is right. |
| Store.RemovedOk | engine/src/engine/store.cpp:923-937 | Without a row and its entries every index still holds exactly the entries of the rows. |
| Store.UpdateKeepsParents | engine/src/engine/store.cpp:888-921 | After an accepted update every foreign key has its parent if and only if the row does not name, in its own table, values it just gave up. |
| Store.NotNull | engine/src/engine/store.cpp:98-115 | In every table every row has a value for each column, of its type, and null only where the column takes it. |
| Schema.KeysNotNull | engine/src/engine/store.cpp:939-957 | No column of a primary key takes a null. |
| StoreClaims.Different | engine/src/engine/store.cpp:864-874 | Two rows of a table differ in a column of the primary key, and in one of every unique index unless there is a null. |
| StoreClaims.HasItsParent | engine/src/engine/store.cpp:640-665 | For every foreign key of every row, a column of it is null, or some row of the other table has the same values. |
| StoreClaims.InsertExactly | engine/src/engine/store.cpp:856-886 | Which rows are inserted, column by column: right types, null only where allowed, short keys, a new primary key, values in unique indexes that no row has unless there is a null, and parents that are there. |
| StoreClaims.UpdateExactly | engine/src/engine/store.cpp:888-921 | Which rows replace one: the same of every index and foreign key whose values change, and no row that refers to values given up. |
| StoreClaims.RemoveExactly | engine/src/engine/store.cpp:923-937 | Which rows are removed: those with the primary key given, without a null, that no row refers to. |
| StoreClaims.InsertedRows | engine/src/engine/store.cpp:856-879 | The table has the row besides those it had, and it did not have it; nothing else changes. |
| StoreClaims.ReplacedRows | engine/src/engine/store.cpp:888-921 | The table has the row, and of those it had all with another primary key; nothing else changes. |
| StoreClaims.RemovedRows | engine/src/engine/store.cpp:923-937 | Of the rows of the table exactly those with another primary key are left; nothing else changes. |
| StoreWriter.Writer.CheckIndexes | engine/src/engine/store.cpp:864-874 | A row passes exactly if each changed index key is short enough and its unique values are free. |
| StoreWriter.Writer.PutRow | engine/src/engine/store.cpp:856-879 | A row goes in, with its entries, exactly when types, key lengths, uniqueness and, if asked, parents allow; none with a null in a column that takes none; a refusal changes nothing. |
| StoreWriter.Writer.Insert | engine/src/engine/store.cpp:881-886 | Insert is done exactly if the row is valid, new, short enough, unique and its parents are there, and not with a null in a column that takes none; then exactly this row and its entries are added, and no row of any table has such a null. |
| StoreWriter.Writer.Remove | engine/src/engine/store.cpp:923-937 | Remove is done exactly if the row is there and no child names it; then exactly the row and its entries go. |
| StoreWriter.Writer.Update | engine/src/engine/store.cpp:888-921 | Update is done exactly if the new row is valid, the old one is there, and the row is the same or its changed keys fit, are unique and keep parents and children; then exactly the row and the changed entries are replaced, and unless the row moves away from itself every foreign key has its parent; no row of any table has a null in a column that takes none. |
| StoreWriter.StrayingUpdate | engine/src/engine/store.cpp:888-921 | From an empty store, a table and a row: an accepted update leaves a foreign key without its parent. |
| Store.OneEntryPerRow | engine/src/engine/store.cpp:839-854 | Every index has as many entries as the table has rows. |
| Schema.BuildIndex | engine/src/engine/store.cpp:981-1023 | Building an index succeeds exactly if every key fits and unique values are unique, and then holds exactly the rows' entries. |
| Schema.FewerIndexes | engine/src/engine/store.cpp:1032-1052 | The two tests of drop_index say exactly that every foreign key keeps its support and its target. |
| Schema.CreateKeepsRank | engine/src/engine/store.cpp:939-957 | A new table can only refer to tables that are there, so references stay without cycles. |
| StoreWriter.Writer.CreateTable | engine/src/engine/store.cpp:939-957 | The table is there, empty, exactly if its definition is valid; references stay acyclic and every other invariant holds. |
| StoreWriter.Writer.DropTable | engine/src/engine/store.cpp:959-979 | The table goes exactly if no other refers to it. |
| StoreWriter.Writer.CreateIndex | engine/src/engine/store.cpp:981-1023 | The index is there and complete exactly if every key fits and unique values are unique; otherwise nothing changed. |
| StoreWriter.Writer.DropIndex | engine/src/engine/store.cpp:1025-1057 | The index goes exactly if every foreign key keeps its support and its target. |
| StoreClaims.CreateExactly | engine/src/engine/store.cpp:221-253 | Which tables are created, column by column: a free name, 1 to 4096 columns, keys and indexes of columns each once, and foreign keys to a primary key or unique index of the same types; and what the table then is. |
| StoreClaims.DropExactly | engine/src/engine/store.cpp:959-979 | Which tables are dropped: those that no foreign key of another table names. |
| StoreClaims.IndexExactly | engine/src/engine/store.cpp:981-1023 | Which indexes are created: of columns each once, with short keys, and no two rows alike in a unique one without a null; no row changes. |
| StoreClaims.UnindexExactly | engine/src/engine/store.cpp:1025-1057 | Which indexes are dropped: those without which every foreign key still leads a key or index, and still names a primary key or unique index; no row changes. |
| StoreWriter.Writer.Run | engine/src/engine/store.cpp:839-1057 | Over any row and schema commands, accepted or refused, the store is what the commands say, with one index entry for each row, no null in a column that takes none, as no column of a primary key does, unique values, parents, acyclic references and keys that fit the page, up to an accepted update that strays. |
| Dumping.OrderTables | engine/src/engine/store.cpp:1190-1213 | The passes end with parents first whenever references have ranks, and with distinct names only then. |
| Dumping.VerifiedIs | engine/src/engine/store.cpp:1059-1070 | A table passes verification exactly if its foreign keys have their parents. |
| Dumping.LoadTable | engine/src/engine/store.cpp:1217-1222 | The rows load exactly if they are the rows of some good table, and then are its contents. |
| Dumping.SameDumpSameStore | engine/src/engine/store.cpp:1167-1183 | Two stores with the same dump are the same, index entries and all. |
| Dumping.Restore | engine/src/engine/store.cpp:1185-1228 | Restore succeeds if and only if the store was empty and the dump is of a good store; then the store has that dump, and otherwise it is unchanged. |
| Dumping.DumpStore | engine/src/engine/store.cpp:1167-1183 | A dump lists every definition in order of name, and every row of each in order of its primary key, each once. |
| Dumping.OneDump | engine/src/engine/store.cpp:1167-1183 | A store has one dump. |
| Dumping.CopyStore | engine/src/engine/store.cpp:1167-1228 | Restoring the dump of any valid store gives exactly that store, with the same dump again, and succeeds exactly if the keys fit the new pages, so always with the same page size. |
| RowCodec.RowBack | engine/src/engine/record.cpp:140-236 | A row of values that can be stored comes back if it has fewer than 65536 columns, and otherwise is refused. |
| RowCodec.RowBackExactly | engine/src/engine/record.cpp:140-236 | Of all rows exactly those come back that have fewer than 65536 values, and no text or blob of 2^32 bytes or more. |
| CatalogCodec.DefBack | engine/src/engine/store.cpp:320-438 | A table definition comes back if and only if its lists are within the decoder's bounds. |
| CatalogCodec.SavedTableLoads | engine/src/engine/store.cpp:440-464 | So does a saved one, if its row also has fewer than 65536 values. |
| CatalogCodec.ValidLeavesOpen | engine/src/engine/store.cpp:190-252 | A validated definition is within the decoder's bounds if and only if it has at most 4096 indexes, foreign keys, checks and constants for each check. |
| CatalogCodec.LongCheckIsLost | engine/src/engine/store.cpp:208-217 | A check with 4097 constants is validated and saved, and cannot be read. |
| CatalogCodec.WideTableIsLost | engine/src/engine/store.cpp:440-464 | So is a table of sixteen checks with 4096 constants each, though within every bound. |
| Pairing.FoldConcat | modules/punchline/src/sync.cpp:222-313 | Folding two runs of punches one after the other is folding both, with the open shift carried over. |
| Pairing.CleanCut | modules/punchline/src/sync.cpp:173-188 | Where no shift reaches over an instant, the fold is the fold before it and the fold after it. |
| Pairing.FoldIsBegun | modules/punchline/src/sync.cpp:222-313 | The fold is the list of the shifts begun by the in punches, each ended by the first punch after it that may end it. |
| Pairing.PairIsShift | modules/punchline/src/rules.cpp:98-104 | An in punch and a later out punch of the same employee on the same device, with nothing between but out punches on other devices, are one shift. |
| Pairing.UnpairedIsOpen | modules/punchline/src/sync.cpp:222-313 | An in punch with no such out punch is an open shift. |
| Pairing.ShiftIsPair | modules/punchline/src/sync.cpp:222-313 | Every shift is such a pair, or such an in punch. |
| Pairing.SurvivesExactly | modules/punchline/src/sync.cpp:222-313 | Without the punches of one period, the shifts of the others are the pairing of their punches if and only if each of their in punches is ended by the same punch as before, or by none. |
| Timesheet.RepairIsFold | modules/punchline/src/sync.cpp:160-313 | Keeping the shifts before the start and folding the punches after it is folding everything. |
| Timesheet.Ledger.FindStart | modules/punchline/src/sync.cpp:173-188 | The range-extension loop ends at the latest instant, not after the given one, that no rebuilt shift begins before. |
| Timesheet.Ledger.CurrentFrom | modules/punchline/src/sync.cpp:33-47 | Filtering and sorting gives the current punches from an instant on, in order. |
| Timesheet.Ledger.RepairPairing | modules/punchline/src/sync.cpp:160-313 | From that instant on the shifts are the pairing of the employee's unsettled punches, and all other shifts are as they were; if the pairing held before changes at or after the given instant, it holds again. |
| Provenance.InOrderSorted | modules/punchline/src/sync.cpp:33-47 | Punches are taken by device time, and by id where times are equal. |
| Provenance.ShiftIsPunches | modules/punchline/src/sync.cpp:222-313 | In a ledger that is paired, a shift not settled is a live in punch of its employee and, once closed, a later live out punch on the same device with no other punch at a time between but out punches on other devices. |
| Provenance.PunchesAreShift | modules/punchline/src/sync.cpp:222-313 | In a ledger that is paired, two such punches are one shift. |
| Provenance.InPunchBegins | modules/punchline/src/sync.cpp:222-313 | In a ledger that is paired, every live in punch not settled begins a shift. |
| Provenance.RepairedFrom | modules/punchline/src/sync.cpp:160-221 | Unless a shift of the employee is open or ends later, a repair leaves alone every shift that began before its instant, every settled one and every other employee's, and makes none that begins earlier. |
| Timesheet.Ledger.Sync | modules/punchline/src/sync.cpp:324-527 | Exactly the punches of the batch that are not recorded yet and have a positive time become entries; the shifts are those repaired from the earliest of them; the pairing of every employee, table invariants, entries and settled shifts are kept. |
| Timesheet.Ledger.Manual | modules/punchline/src/sync.cpp:626-731 | A manual entry or correction is taken exactly under the stated conditions; then exactly the new entry is added and the corrected one superseded, and the shifts are repaired from the earlier of the two; the pairing of every employee is kept. |
| Timesheet.Ledger.Transition | modules/punchline/src/lifecycle.cpp:54-127 | Exactly if the request is in order, the period's live entries of the employee and their shifts climb one rung and one approval row is added; otherwise nothing changes. |
| Timesheet.Ledger.Lock | modules/punchline/src/lifecycle.cpp:129-173 | A period locks exactly if it is open and all of it is released; then its entries and shifts are locked, with one approval row for each employee in it. |
| Timesheet.Ledger.LockedForGood | modules/punchline/src/lifecycle.cpp:129-173 | In a locked period every live entry and every shift is locked. |
| Timesheet.RaisedTables | modules/punchline/src/lifecycle.cpp:54-127 | Raising a scope one rung keeps shift and in-punch states equal, and an approval for every rung climbed. |
| Timesheet.RaisedPaired | modules/punchline/src/lifecycle.cpp:54-127 | A rung that does not settle keeps the pairing of everyone. |
| Timesheet.ApprovalPaired | modules/punchline/src/lifecycle.cpp:54-127 | Approving a period keeps the employee's pairing if and only if the punches of the other periods survive it. |
| Timesheet.NightShift | modules/punchline/src/lifecycle.cpp:54-127 | Every shift over the end of a period survives the approval of the period it begins in, and none that of the period it ends in. |
| Timesheet.ApprovalCanUnpair | modules/punchline/src/lifecycle.cpp:54-127 | From an empty ledger, a night shift is synced and the later of its periods submitted and approved: its shift stays ended by the settled punch, while the pairing of what is left has it open. |
| Timesheet.Ledger.Do | modules/punchline/src/lifecycle.cpp:54-173 | For every command and every employee whose shifts were the pairing of the punches, they still are if and only if the command is not an approval that the punches do not survive. |
| Timesheet.SyncedTwice | modules/punchline/src/sync.cpp:405-420 | Sending a batch again records nothing. |
| Provenance.EntryIsPunch | modules/punchline/src/sync.cpp:426-495 | Over every run no entry is made up or altered: each was there and has the same employee, device, kind, time, period and pay code, or has those of a punch that a command sent. |
| Provenance.PunchIsEntry | modules/punchline/src/sync.cpp:426-495 | Every punch of a batch with a new uuid and a positive time is recorded with its kind, time, device and pay code, in its period if that is open and in none otherwise. |
| Provenance.ManualExactly | modules/punchline/src/sync.cpp:626-731 | A manual entry is refused without permission, into a locked period, or as a correction of an entry that is settled, superseded or another employee's; otherwise the new entry has what was asked, and supersedes the one corrected. |
| Provenance.TransitionExactly | modules/punchline/src/lifecycle.cpp:54-127 | A step is refused unless the period is open, the step allowed, a release not held, no live entry of the employee still below, and one there to move; otherwise exactly those entries move one rung, with one approval row. |
| Provenance.NoOtherTransition | modules/punchline/src/lifecycle.cpp:54-58 | No request moves entries to the first or the last rung. |
| Provenance.LockExactly | modules/punchline/src/lifecycle.cpp:129-173 | A period is locked exactly if it is open, this is allowed and every live entry in it is released; then exactly those are locked, with an approval row for each of their employees. |
| Provenance.RaisedBy | modules/punchline/src/lifecycle.cpp:54-173 | Over every run, an entry that came to be submitted, approved, released or locked was raised by an allowed command for its employee and period, and released by one without a hold. |
| Provenance.LockedStays | modules/punchline/src/lifecycle.cpp:129-173 | Over every run, the entries of a locked period stay exactly as they are, and no entry comes to it. |
| Provenance.SettledStays | modules/punchline/src/sync.cpp:160-188 | What a run keeps of an approved, released or locked shift is its punches, times, device, pay code and period. |
| Timesheet.Run | modules/punchline/src/sync.cpp:160-731 | Over every run, books and shifts are what the script says; each shift's state is its in punch's, every rung has its approval, settled shifts never change their punches or times, and locked periods stay locked; and the shifts of everyone whose approvals their punches survived are still the pairing of the punches. |
| Calendar.NextIsNext | modules/punchline/src/localtime.cpp:10-17 | Consecutive dates are consecutive day numbers, in all years. |
| Calendar.Epoch | modules/punchline/src/localtime.cpp:10-17 | Day 0 is 1 January 1970. |
| Calendar.EarlierIsLess | modules/punchline/src/localtime.cpp:10-17 | Day numbers are strictly increasing in calendar order. |
| Calendar.CivilIsInverse | modules/punchline/src/localtime.cpp:25-38 | Every day number, negative ones too, is that of the date recovered from it. |
| Calendar.DateComesBack | modules/punchline/src/localtime.cpp:25-38 | Every date is recovered from its day number. |
| Calendar.WeekdayGoesRound | modules/punchline/src/localtime.cpp:19-23 | Weekdays go round, and day 0 is a Thursday. |
| Calendar.YearOfInstantIs | modules/punchline/src/tzif.cpp:66-75 | The year of an instant is the one it lies in. |
| ZoneRules.RuleDayIsNth | modules/punchline/src/tzif.cpp:268-293 | A month-week-day rule names the n-th such weekday of the month, or the last. |
| ZoneRules.RuleDayInYear | modules/punchline/src/tzif.cpp:268-293 | A rule's date lies in its year, or for day 365 of a common year on the next new year's day; and so many days before its end. |
| ZoneRules.SameDateEveryYear | modules/punchline/src/tzif.cpp:282-286 | Day n of a rule that does not count leap days is the same month and day in every year. |
| ZoneRules.CountsLeapDays | modules/punchline/src/tzif.cpp:288-290 | Day n of a rule that counts them is n days after new year. |
| ZoneRules.WindowIsEnough | modules/punchline/src/tzif.cpp:295-313 | For any rule the parser admits whose changes are over by new year, whatever its times and offsets, the changes of three years contain the latest change of all years at or before the instant. |
| ZoneRules.WindowIsEnoughExactly | modules/punchline/src/tzif.cpp:295-313 | With times of 0 to 24 hours and daylight time ahead, the window is right at every instant if and only if the rule is not one with a date on day 365 and the other in the night after it (`Misses`). |
| ZoneRules.Missed | modules/punchline/src/tzif.cpp:295-313 | Every such rule has an instant at which the window is wrong. |
| ZoneRules.WindowCanMiss | modules/punchline/src/tzif.cpp:295-313 | Three such rules: day 365 in both dates, only in the end, only in the start. |
| ZoneWindow.RightAt | modules/punchline/src/tzif.cpp:295-313 | For any rule the parser admits, at any instant, the window is wrong if and only if a change of the year before last is still the latest and the window has one of the other kind, or none where daylight time had begun: a comparison of six changes. |
| ZoneWindow.WindowIsEnoughIff | modules/punchline/src/tzif.cpp:295-313 | For any rule the parser admits, whatever its times and offsets, the window is right at every instant if and only if it is at the first instants of the years of one 400-year cycle. |
| ZoneRules.FindRuleLocal | modules/punchline/src/tzif.cpp:295-313 | Sorting the changes and keeping the last not after the instant finds the latest of the window. |
| ZoneRules.InDaylight | modules/punchline/src/tzif.cpp:295-313 | When a start has passed and no end in the window is after it, the offset is that of daylight time, and the flag is set. |
| ZoneRules.InStandard | modules/punchline/src/tzif.cpp:295-313 | When no start in the window has passed, or an end has that is after each that has, the offset is that of standard time, and the flag is not set. |
| ZoneRules.LocalIsOf | modules/punchline/src/tzif.cpp:315-335 | Between two transition times the reading is the type of the earlier one; from the last on the footer's, if there is one; before the first the first type that is not daylight time, or type 0. |
| ZoneRules.OffsetIsKnown | modules/punchline/src/tzif.cpp:315-335 | Every local reading uses an offset of the zone's types or of its footer. |
| ZoneRules.InstantsOf | modules/punchline/src/tzif.cpp:337-353 | Exactly the instants whose local reading is the given one, in order, each once. |

## Left out

- Checksum bits, page and header byte layouts (engine/src/engine/page_format.cpp): checksums are ideal and pages are datatypes.
- Disks that lie about sync: the engine promises only detection there.
- Read errors inside tree, cursor and store operations; the guards on depth 64, on overflow hops and on values of 2^32 bytes or more.
- Database.Db.Checkpoint: archiving is one step that may fail; what it writes, and what a failed reset archives again, is in Archive.
- Database.Db.CachePut: does not say which entry is evicted, since any choice is right.
- Forest.Run: for keys beyond the bound of `NodeSplit.AlwaysFitExactly` it says nothing about the bytes of interior nodes; the code does not re-check them, and what it then writes is outside the model.
- Archive.RunKeeps: is about the sequence of events that `Database.Db` goes through; that the archive it models is the one of a `Database.Db` is by reading, not by proof.
- Archive.RecoverToPoint: for time-only targets the code always reports the target as reached; the claim about reaching is for counter targets.
- StoreWriter.Writer.Run: stops at an accepted update that moves its row away from itself, because the invariant is lost there (Store.UpdateKeepsParents).
- StoreWriter.Writer.CreateTable: names of columns, indexes, foreign keys and checks, and scales, are not modelled there; columns and indexes are positions. The catalog codec has them.
- RowScan.ScanRows: the trees of a table are given with the table they store; that the writer's trees are kept so is Forest.Run and StoreWriter.Writer.Run, each on its side.
- CHECK constraints as evaluated on rows, UTF-8 validation of text, and the catalog cache.
- Dumping.DumpStore: schema_version is not modelled.
- Timesheet.Ledger.Sync: validation of incoming entries, journal sequence numbers, device attestation, exceptions, meals and schedule annotations are left out; the batch is in journal order, and every punch of it passed. A uuid sent by another device is not distinguished from a repeated one.
- Timesheet.Ledger.Manual: the reason, edit class and code, the employee and the device, the pay code and the payroll hold are one parameter. Ids derived from an entry never equal one that a device sent, which the code does not enforce against a device that makes one up.
- Timesheet.Ledger.RepairPairing: says nothing about exceptions; their re-resolution uses another key.
- Timesheet.Ledger.Transition: authorisation and export holds are parameters.
- ZoneRules.WindowIsEnoughExactly: the closed form is for times of 0 to 24 hours and daylight time not behind standard time; for all other rules the exact condition is ZoneWindow.WindowIsEnoughIff.
- ZoneRules.OffsetIsKnown: before the first transition the code uses the first standard type, and so does the model; section 3.2 of RFC 8536 says type 0.
- TZif parsing, leap seconds and Zone::transitions; the zone is already parsed.
- Real VFS back ends, server, HTTP, credentials, configuration, logging, export and images.
- Equal leaf depth: erase does not keep it, and nothing here needs it.
