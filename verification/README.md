# Verification of Garry

A Dafny model of Garry, an embedded transactional key-value store, with proofs about it. The model follows
the C code branch by branch: the same scan loops, split points, length forms, error returns and constants.
`dafny verify dfyconfig.toml` checks everything.

The layers, from the top:

- **Transactions** (`TxnList`, `LockTable`, `VersionChain`, `Mvcc`, `Isolation`, `Claims`, `Collection`,
  `CollectionRuns`, `Views`, `LastWrites`, `Reopening`). `Mvcc` is a state machine whose steps are begin, set, delete, commit, rollback
  and garbage collection, each atomic, within one session. A session starts from an opened database: nobody listed,
  nothing locked, any chains and ids left by earlier sessions; a new database is the special case without any. The
  invariant holds in every run. `Isolation` proves what transactions can read, `Claims` which calls are granted, told
  from the calls alone, `Collection` and `CollectionRuns` what a collection changes at any later time, `Views` when a running transaction's answer changes, `LastWrites` which
  write a read returns, `Reopening` what the next session finds.
- **Engine** (`Engine`, `WriteLog`, `Navigation`). `Engine.Session` takes the code's steps in the code's order over
  what lies below it: the B-tree of descriptors, version chains as pages of bytes, overflow pages, compression, the
  log. It is proved to perform exactly the steps of `Mvcc`, and opening a closed session to be the step to the next
  session, so that all of the above holds of it. `Navigation` finds neighbours of a key.
- **B-tree** (`Tree`, `Contents`, `TreeInsert`, `TreeDelete`, `TreeRuns`, `BTree`, `Cursor`).
  `BTree.Store` is a set of pages changed in place; `Tree` is the tree that the pages form. Every page operation
  is tied to a tree operation, every tree operation to the sorted list of entries and to a map. `Cursor` walks
  the leaf chain. `Sequences` closes gaps in slots, for the tree and for the list of transactions.
- **Page cache** (`BufferPool`, `CacheRuns`). A fixed number of slots over a file whose writes may fail and may
  then leave anything in the page they were writing.
- **Bytes** (`Layout`, `SlottedPage`, `RecordCodec`, `NodeCodec`, `PageFit`, `Overflow`, `ChainPage`, `TupleKeys`).
  Slotted pages, CBOR records (RFC 8949, section 3.1), serialised nodes and the page sizes that hold them, chains of
  overflow pages, version chains as pages, tuple keys. `ChainPage` is the byte form of `VersionChain`.
- **Compression** (`Lz4Format`, `Lz4Greedy`, `Lz4`). The block format ("Compressed block format" of the LZ4 Block
  Format Description), the parse of an input that the compressor encodes, defined without its loops, the compressor
  with its hash table, and the decompressor.

## What was found

Where code and comments disagree, the model follows the code.

- A collection reaches no chain that was made since the database was opened: it stops at the page count in the
  header (`src/gc.c:50`), which is written when a database is created or closed (`src/transaction.c:234`, `:420`,
  `src/storage_engine.c:65`) and not in between. It prunes a chain exactly when its page is cached and the key was
  stored at the opening (`Engine.Session.Gc`, `Engine.SweepsOnlyStored`), so in the first session on a new database
  collections do nothing at all (`Engine.NewSessionNeverPrunes`).
- Of a key that was stored before, a collection can lose a committed value. `src/gc.c:40-44` says that transactions
  which begin later do not matter to pruning. They do not matter exactly when the chain is spared: its newest version
  is by an unlisted transaction, or none of its versions is, or some listed transaction is at least as new as the last
  one that is (`VersionChain.Spared`, read off the chain and the list before the call).
  `CollectionRuns.CollectionExactly` proves that condition exact over all continuations that can happen and in which
  nothing rolled back is committed, `Isolation.CollectLosesCommitted` gives a run that loses a value and brings back
  the one before it, `Reopening.HoldingIsReached` the session before that. No transaction that is unfinished at the
  time of the collection is ever affected.
- What was rolled back comes back when the database is closed and opened again, and so does what was never committed:
  only the active list hides it, and opening starts with an empty one (`src/transaction.c:331`). The next session
  reads the newest version in the page, whoever made it (`Reopening.NextSessionReads`); a key reads as before exactly
  when its newest version is by an unlisted transaction (`Reopening.ReopeningExactly`). `Reopening.DiscardedReturns`
  is a run in which a discarded write returns.
- A key that was deleted and set again reads as deleted once the database is opened again, unless a checkpoint has
  emptied the log: opening appends a tombstone for every committed deletion in the log (`src/wal_recovery.c:143-166`)
  and passes over the updates of keys that it finds in the tree (`src/wal_recovery.c:189-220`). It does so as long as
  the key's page takes one more entry (`Reopening.NextSessionReads`); `Reopening.SetAgainIsLost` is such a run.
- Deletion can hide stored keys. When an emptied internal node cannot be merged because its sibling is full,
  one node stays without keys and lookups give up there. `TreeDelete.WillRefuse` reads off the tree before the call
  whether that will happen, `TreeDelete.DeleteExact` states that lookups stay right exactly when it does not,
  `TreeRuns.RunsRefineTheMap` lifts this to whole runs, `TreeRuns.ReachedExactly` says which stored keys are out of
  reach in runs that go on, and `TreeDelete.RefusalHappens` shows a
  well-formed tree and a key for which it goes wrong. The header of `src/btree_modify.c` (line 13) speaks of
  borrowing from siblings; the code never borrows.
- Reads are not from a snapshot, although `src/storage_ops.c:60` says so. The answer to a running transaction at a key
  it does not write changes exactly when a transaction with a lower id commits whose version ends the key's chain
  (`Views.ViewInRun`); `Views.AnswerChanges` is a run in which it does.
- Committing a transaction after rolling it back publishes its discarded writes: `Views.DiscardedIsShown` is such a
  run. Runs that never do so are called disciplined.
- Tuple keys do not sort as their parts do, contrary to `src/key_encoding.c:11-13`: they sort with each part compared
  by length first (`TupleKeys.KeyOrder`). `TupleKeys.OrderIsKeptWhen` says for which pairs of tuples the two orders
  agree.
- `garry_store_node` returns without reporting anything when a record does not fit (`src/btree_node.c:477-482`), and its
  caller goes on. With keys of at most 255 bytes that never happens on pages larger than 512 bytes; on pages of 512 bytes,
  which `src/db_header.c:58-59` admits, two keys of 255 bytes suffice (`PageFit.NodesFit`, `PageFit.TwoLongKeys`).
- Keys and values of 256 bytes in a tree node, which `garry_store_node` accepts, come back cut short or not at all,
  because the length byte wraps: `RecordCodec.DecodeString` says what is read, `NodeCodec.StoreThenLoad` that a node
  survives exactly when it has no such string.
- With compression on, `garry_storage_set` accepts values of up to 65536 bytes, and `garry_storage_get` finds nothing for
  those over 16384 (`Engine.SetIsRead`). Empty values are refused then, after their key has been entered.
- Pinning a page id before it has been handed out can break the cache: handing it out later may cache it twice.
  `BufferPool.Pool.Allocate` says exactly when. Handing out a page that was given back breaks it every time, unless
  the page's link is 0: the slot is marked clean while the file has other bytes (`CacheRuns.FreeThenAllocate`).
- A value longer than 256 bytes takes overflow pages twice, once for its log record; when those run out there is no
  record and no error (`Engine.Session.LogUpdate`).
- Search within a node is linear, not binary as `src/btree_search.c:9-13` says.

## Model

| member | source | states |
|---|---|---|
| ByteStrings.Compare | src/key_encoding.c:307-324 | the sign of the comparison is the unsigned lexicographic order, a proper prefix first |
| ByteStrings.LessTrichotomy | src/key_encoding.c:307-324 | exactly one of less, equal, greater holds of two byte strings |
| ByteStrings.PrefixMatch | src/btree_cursor.c:31-43 | true exactly when the key starts with the prefix |
| Contents.FindIsGet | src/btree_search.c:82-110 | on an ordered tree without empty internal nodes on the path, descent finds exactly what the map of all entries holds |
| TreeInsert.InsertSound | src/btree_modify.c:90-443 | insertion into an ordered tree, nodes without keys or not, yields one: equal leaf depth, distinct pages of which the new ones come from the allocator, intact forward leaf chain, no node without keys if there was none; contents are the old ones with the key bound to the value, in list and in map form |
| TreeInsert.InsertOrdered | src/btree_modify.c:144-233 | cascaded splits keep order and depth within any bounds, and the separator lies between the halves |
| TreeInsert.InsertSized | src/btree_modify.c:144-233 | every node of the result has 1 to 3 keys, a root leaf possibly none, if that held before |
| TreeInsert.InsertEntries | src/btree_modify.c:144-233 | the in-order entries of one or two resulting trees are the old entries with the key inserted or overwritten |
| TreeInsert.InsertChain | src/btree_modify.c:327-329 | the next-page links still list all leaves from left to right |
| TreeInsert.InsertPages | src/btree_modify.c:243-443 | no page is used twice, and every page is an old one or newly allocated |
| TreeDelete.DeleteSound | src/btree_modify.c:454-650 | deletion removes exactly the key, keeps order, depth, distinct pages and leaf chain, in trees with nodes without keys too; where there was none, none comes about exactly when no merge is refused, and else exactly one |
| TreeDelete.DeleteChain | src/btree_modify.c:502-559 | merges to the left and to the right keep the forward leaf chain |
| TreeDelete.RunsEmptyIs | src/btree_modify.c:582-621 | a node loses its last key exactly when the leaf on the key's path holds that key alone and every node above it up to there has one key and a sibling with room |
| TreeDelete.RefusalForeseen | src/btree_modify.c:474-477 | a merge is refused if and only if, in the tree before the call, some child on the path runs empty in that sense beside an internal sibling with three keys |
| TreeDelete.DeleteExact | src/btree_modify.c:474-477 | all lookups agree with the map without the key if and only if no child on the path will run empty beside a full internal sibling, as read off the tree before the call |
| TreeDelete.DeleteLookup | src/btree_search.c:105-106 | every lookup after a deletion, a refused merge included: the map's answer, or nothing below a node without keys |
| TreeDelete.RefusedLosesKey | src/btree_modify.c:474-477 | after a refused merge there is a stored entry that lookups no longer reach |
| TreeDelete.RefusalHappens | src/btree_modify.c:474-477 | a concrete well-formed tree and key for which a lookup goes wrong |
| TreeRuns.RunsRefineTheMap | src/btree_modify.c:90-650 | over every run from an empty tree, lookups answer as a map does after each operation if and only if no deletion meets a tree in which a merge will be refused |
| TreeRuns.RunKeepsTree | src/btree_modify.c:90-650 | until then every tree in the run is well-formed and holds exactly the map |
| TreeRuns.RunKeepsEntries | src/btree_modify.c:90-650 | in runs that go on past refused merges the tree stays ordered and still holds exactly the map |
| TreeRuns.RunLookup | src/btree_search.c:82-110 | after any such run a lookup answers as the map, or finds nothing when the key's path meets a node without keys |
| TreeRuns.ReachedExactly | src/btree_search.c:105-106 | a stored key is out of reach if and only if its path meets a node without keys |
| BTree.LeafFind | src/btree_search.c:31-42 | the position of the key in the leaf, or -1 |
| BTree.InternalFind | src/btree_search.c:55-66 | the child whose range contains the key |
| BTree.ScanPosition | src/btree_modify.c:176-185 | the scan from the right that stops at its first hit finds the insertion position, since the leaf then has at most one entry |
| BTree.LeafInsert | src/btree_node.c:243-266 | entry placed at the position with later ones moved up; refused when full |
| BTree.Store.Search | src/btree_search.c:82-110 | page descent answers as the tree does, and as the map does on a well-formed tree |
| BTree.Store.LeafSplit | src/btree_modify.c:243-341 | the pages hold the two halves, the right one new and linked behind the left |
| BTree.Store.InternalSplit | src/btree_modify.c:351-443 | the pages hold the two halves around the promoted middle key |
| BTree.Store.InsertRec | src/btree_modify.c:144-233 | one recursive page insertion is the tree insertion, with separator and new page reported upwards; other pages untouched |
| BTree.Store.Insert | src/btree_modify.c:90-139 | after the call the pages form an ordered tree whose entries are the old ones with the key bound to the value, also when some node had no keys before; its pages are old ones or newly allocated |
| BTree.Store.RebalanceChild | src/btree_modify.c:454-577 | an underflowed child merges with its left sibling, the first child with its right one, or the merge is refused exactly when the result would have too many keys; the pages then form the merged tree |
| BTree.Store.DeleteRec | src/btree_modify.c:582-621 | one recursive page deletion is the tree deletion; other pages untouched |
| BTree.Store.Delete | src/btree_modify.c:634-650 | after the call the pages form the tree without the key, the root shrunk when it lost its last key; a node without keys comes about exactly when a merge was going to be refused |
| Cursor.LeavesCarryEntries | src/btree_cursor.c:127-185 | the leaf chain carries exactly the tree's entries in order |
| Cursor.StartHere | src/btree_cursor.c:58-112 | the clamped descent may start early but skips no matching entry |
| Cursor.TreeCursor.Open | src/btree_cursor.c:58-112 | a fresh cursor has yet to yield exactly the entries with the prefix, in order |
| Cursor.TreeCursor.Next | src/btree_cursor.c:127-185 | each call yields the next of them, once, and reports the end exactly when none is left |
| Cursor.MatchingMembers | src/btree_cursor.c:31-43 | the entries yielded are those with the prefix and no others, strictly increasing |
| Navigation.Fetch | src/storage_cursor.c:101-146 | decoding a stored descriptor, scanning its chain page and, when the value is wanted, decompressing gives what the transaction reads there |
| Navigation.NextVisible | src/storage_cursor.c:73-170 | steps over exactly the entries at which the transaction gets nothing and hands out the next one's value |
| Navigation.First | src/storage_navigation.c:37-55 | the least key at which the transaction reads a value; fails exactly when there is none or it is not unfinished |
| Navigation.NextKey | src/storage_navigation.c:158-194 | the least key above the argument at which the transaction reads a value; fails exactly when there is none |
| Navigation.PrevKey | src/storage_navigation.c:210-257 | the greatest key below the argument at which the transaction reads a value; fails exactly when there is none |
| Lz4.MatchFind | src/lz4.c:69-136 | the match found is a real earlier occurrence, the longest among all starts from the hash table's candidate on, and the farthest back of the longest; none is found only if there is none; the table then holds the position for its hash, and else is as before |
| Lz4.EmitSequence | src/lz4.c:241-312 | token, length extensions, literals and offset written at a moving position are the format's encoding of one sequence |
| Lz4.Compress | src/lz4.c:150-357 | succeeds exactly on 1 to 65536 bytes; the result is the block of the input's greedy parse, stays below n + n/255 + 16 bytes, and decompresses to the input for every capacity of at least n |
| Lz4Greedy.GreedyIsUnique | src/lz4.c:230-317 | there is one greedy parse of an input: at every position outside a match that is more than 12 bytes from the end, the best match from the last searched position with the same hash on is taken, and literals are passed over only where there is none |
| Lz4.OneBlock | src/lz4.c:150-357 | so the compressed form of an input is determined by its bytes |
| Lz4.RepeatPays | src/lz4.c:230-357 | an input that starts with a word of at least 8 bytes twice, no four bytes repeating within the first one and no later position of it sharing the hash of its start, is stored without the second one, at most the stated overhead added; with fewer than 765 bytes behind the two words it gets strictly shorter |
| Lz4Greedy.DifferentBytesRepeat | src/lz4.c:69-136 | words of pairwise different bytes below 128 are such words |
| Lz4.Decompress | src/lz4.c:372-521 | on every input ends, reads and writes in bounds, returns what the format means, at most the capacity |
| Lz4Format.DecodeEncoded | src/lz4.c:372-521 | decoding the encoding of any sequences and closing literals replays exactly their copies |
| Lz4Format.DecodeMoreRoom | src/lz4.c:372-521 | a larger capacity changes no successful answer, and no answer exceeds the capacity |
| Lz4Format.SequenceCost | src/lz4.c:47-52 | a sequence costs at most the bytes it covers plus one per 255 of them |
| Lz4Format.CopyMatchRebuilds | src/lz4.c:492-515 | copying a match byte by byte rebuilds the source, overlapping or not |
| TxnList.BeginKeeps | src/transaction.c:486-544 | begin adds exactly the next id unless a limit is reached; list stays strictly increasing, aligned with its states and within both limits |
| TxnList.CommitKeeps | src/transaction.c:555-588 | commit takes exactly that transaction off the list; all list properties stay |
| TxnList.RollbackKeeps | src/transaction.c:598-615 | rollback finishes exactly that transaction and takes none off the list |
| TxnList.TxnTable.FindSlot | src/transaction.c:97-106 | the first slot of the id, or -1 |
| TxnList.TxnTable.Begin | src/transaction.c:486-544 | counts the unfinished, checks both limits, appends; the id or -1 |
| TxnList.TxnTable.RemoveActive | src/transaction.c:71-87 | both parallel lists lose exactly that slot |
| Sequences.ShiftOut | src/transaction.c:71-87 | moving every later slot one place down removes exactly that slot |
| TxnList.TxnTable.TxnIsActive | src/transaction.c:624-638 | listed and not rolled back |
| LockTable.ReleaseIsExact | src/lock_table.c:196-213 | release removes all locks of one transaction and no other |
| LockTable.ExclusiveMeansOneHolder | src/lock_table.c:146-186 | with exclusive requests no key gets two holders, and a request is refused exactly when another holds the key or the key is too long |
| LockTable.LockManager.IsHeld | src/lock_table.c:50-79 | byte-wise search finds a lock of that transaction on that key exactly when there is one |
| LockTable.LockManager.HasConflict | src/lock_table.c:94-131 | true exactly when another transaction's lock on the key clashes with the mode |
| LockTable.LockManager.Acquire | src/lock_table.c:146-186 | granted or refused as specified; a new lock heads the list |
| LockTable.LockManager.Release | src/lock_table.c:196-213 | unlinking node by node leaves exactly the other transactions' locks |
| VersionChain.LastVisibleIsNewest | src/version_chain.c:495-615 | what is shown is visible and everything behind it in the chain is not |
| VersionChain.SurvivorsShow | src/version_chain.c:740-800 | pruning keeps what a reader sees exactly when that is nothing, the newest version, or a needed one |
| VersionChain.PruneForListed | src/version_chain.c:712-829 | a listed reader whose own versions end the chain sees the same after pruning |
| VersionChain.PruneForLater | src/version_chain.c:740-800 | for a reader that begins at the pruning: the same version if and only if it is the newest or some listed transaction is at least as new |
| VersionChain.PruneForReaders | src/version_chain.c:740-828 | in a spared chain, no later reader notices the pruning, whatever its list, whoever has committed and whatever has been appended since |
| VersionChain.SparedExactly | src/version_chain.c:740-828 | no later reader with any list and any longer chain notices if and only if the chain is spared |
| VersionChain.PruneInOrder | src/version_chain.c:740-828 | a chain whose creators are in nondecreasing order is spared |
| VersionChain.PruneOutOfOrder | src/version_chain.c:740-800 | a chain out of order from which pruning drops a version that later transactions would read |
| Mvcc.StepKeeps | src/transaction.c:486-789 | every step keeps the list, one lock holder per key, holders unfinished, and every unfinished creator in possession of the lock with its versions at the chain's end |
| Mvcc.EveryRunIsOk | src/storage_ops.c:66-303 | so it is in every state that any sequence of calls reaches on an opened database, whatever chains it holds |
| Claims.BookAgrees | src/lock_table.c:146-186 | in every reachable state the list of transactions and the locks agree with a book kept from the calls alone: who has begun and not ended, and who wrote which key first |
| Claims.SetTakesEffect | src/storage_ops.c:152-247 | in any run a set with a chain or a page and with room appends its version, and changes no chain otherwise, exactly when its transaction has begun and not ended, the key has 1 to 256 bytes, and no other transaction was granted a write to it and has not ended since |
| Claims.DeleteTakesEffect | src/storage_ops.c:256-303 | a delete appends a tombstone under the same condition, if the key has a chain and there is room |
| Claims.BeginTakesEffect | src/transaction.c:486-544 | a begin hands out the next id exactly when fewer transactions than the limit have begun and not ended and fewer than 64 times the limit are listed |
| Claims.HolderIs | src/lock_table.c:146-186 | a key is held by exactly the transaction that was granted a write to it and has not ended since |
| Isolation.SeenExactly | src/version_chain.c:548-560 | in every reachable state a version counts for a reader if and only if it is its own, or has a lower id and was there at the opening or is of a transaction committed since |
| Isolation.ReadsAreJustified | src/storage_ops.c:66-142 | in every run a value read was there at the opening or written to that key by a successful call of the reader or of a committed transaction with a lower id; in disciplined runs never by a rolled-back one |
| Isolation.ReadYourWrites | src/storage_ops.c:152-303 | after a successful set or delete the writer reads that, whatever else happens, until it writes the key again or ends |
| Isolation.RollbackIsFinal | src/transaction.c:598-615 | in a disciplined run nothing rolled back is ever committed, in either order |
| Isolation.UnlistedIsCommitted | src/transaction.c:606-610 | an id handed out is off the active list exactly when it was committed |
| Isolation.CollectInAnyRun | src/gc.c:31-68 | in every reachable state a collection changes no answer to any unfinished transaction |
| CollectionRuns.CollectInRun | src/gc.c:31-68 | in disciplined runs a collection changes no read of a transaction, then or at any later time, if it was unfinished at the collection or the chain was spared |
| CollectionRuns.CollectionExactly | src/gc.c:40-50 | for a key stored at the opening: over all disciplined continuations that can happen no transaction notices the collection if and only if the chain is spared |
| CollectionRuns.NewIsNeverPruned | src/gc.c:50 | with nothing stored at the opening a run with collections ends in the state of the run without them |
| Collection.CollectionUnnoticed | src/gc.c:31-68 | the run with a collection and the run without it, side by side: the same list and the same answers throughout |
| Isolation.CollectForTheNext | src/gc.c:40-44 | the next transaction is shown the same version with and without a collection if and only if it is none, the newest, or some listed transaction is at least as new as its creator |
| Isolation.CollectLosesCommitted | src/gc.c:40-50 | a run on a database with one stored value in which, because of a collection, the next transaction reads that value and not the one committed since |
| Isolation.CommitPublishes | src/transaction.c:562-574 | what commit changes for every other transaction and key, exactly |
| Isolation.RollbackHides | src/transaction.c:598-615 | a rollback changes no answer to anyone else |
| Isolation.CommitAfterRollbackPublishes | src/transaction.c:562-574 | a commit after the rollback publishes the discarded write |
| Views.StepView | src/storage_ops.c:60 | a step changes the version shown to an unfinished transaction that it is not a write of exactly when it commits a lower id whose version ends the chain, and then that version is shown |
| Views.ViewInRun | src/storage_ops.c:60 | between any two points of a disciplined run between which a transaction is unfinished and does not write the key, what it is shown changes exactly when such a commit lies between them |
| Views.AnswerChanges | src/storage_ops.c:60 | a run in which a running transaction first reads nothing and then a value |
| Views.DiscardedIsShown | src/transaction.c:562-574 | a run in which a value is read after its write was rolled back |
| LastWrites.ReadIsLastWrite | src/storage_ops.c:66-142 | in disciplined runs whose collections spare the chain or find the reader unfinished, a read returns the last of what was there at the opening and all successful writes to the key, in run order, by the reader or a lower id committed since or settled before |
| LastWrites.ReadWithoutCollections | src/storage_ops.c:66-142 | the same in every run without collections, disciplined or not |
| Reopening.ReopenedIsOpen | src/transaction.c:327-336 | what closing and opening leaves is a state from which all results about runs start |
| Reopening.NextSessionReads | src/wal_recovery.c:143-166 | after any session with an empty log at its start, closed cleanly, the next one first reads nothing at a key with a committed deletion in the log whose page takes one more tombstone, and else the newest version, whoever made it |
| Reopening.ReopeningExactly | src/transaction.c:327-336 | with no tombstone appended, the next transaction is shown the same as without the reopening if and only if the newest version is by an unlisted transaction or there is none |
| Reopening.DiscardedReturns | src/transaction.c:598-615 | a run in which a rolled-back write is read after closing and opening |
| Reopening.SetAgainIsLost | src/wal_recovery.c:143-220 | a run in which a committed value set after a deletion is gone after closing and opening, on pages of every size |
| Reopening.ReplayedExactly | src/wal_recovery.c:143-166 | replaying appends to each chain the first tombstones for its key, as many as its page has room for when the database is closed, and nothing else |
| Reopening.HoldingIsReached | src/transaction.c:410-450 | the database on which a collection loses a value is what a session with one write leaves |
| Reopening.LogReplays | src/wal_recovery.c:85-166 | the log that a session's steps leave makes opening replay the deletions they logged whose commits they logged, in order, and no others |
| WriteLog.Deletions | src/wal_recovery.c:72-166 | two passes over the log give the deletions whose transactions have a commit record |
| Engine.DecodeCid | src/storage_ops.c:42-57 | a looked-up descriptor names its chain page, whatever 32-bit id that is |
| Engine.Directory.Lookup | src/storage_ops.c:181-183 | descending the tree and decoding gives the key's chain page, or none exactly when the key has none |
| Engine.Directory.Enter | src/storage_ops.c:194-195 | encoding and inserting makes the tree hold the old descriptors and the new one; no chain page becomes a tree page, and with keys of at most 255 bytes every node stays within what a page holds |
| Engine.DirectoryFits | src/btree_node.c:442-482 | so with such keys and pages larger than the smallest, every node of the engine's tree fits its page and loads as it was |
| Engine.Session.Begin | src/transaction.c:486-544 | performs exactly the begin step |
| Engine.Session.Commit | src/storage_txn.c:38-55 | one record, then exactly the commit step on list, locks and chains |
| Engine.Session.Rollback | src/storage_txn.c:63-80 | one record, then exactly the rollback step |
| Engine.Session.Get | src/storage_ops.c:66-142 | through tree, descriptor, chain page, overflow pages and decompression, exactly the specified read |
| Engine.Session.Set | src/storage_ops.c:152-247 | over tree pages, chain page, overflow pages, log and compression exactly the set step, what an early part did staying when a later part fails; succeeds exactly when the lock is granted, a chain is there or a page free, the value can be compressed and the entry fits after the log has taken its pages; stores the value's one compressed form, and logs the update exactly when the lock is granted, there is a chain or a page, and overflow pages suffice for the record |
| Engine.Session.LogUpdate | src/wal_record.c:34-68 | a record of the update, over overflow pages when longer than 256 bytes; none when those run out; nothing readable changes |
| Engine.Session.Delete | src/storage_ops.c:256-303 | exactly the delete step, logged before there is found to be room; succeeds exactly when the lock is granted, the key has a chain and its page takes a tombstone; the lock stays even when there is nothing to delete |
| Engine.Session.Gc | src/gc.c:31-68 | prunes the bytes of the cached chain pages below the page count of the opening against the list taken at the start: exactly the collection step for the cached keys that were stored then |
| Engine.Session.Checkpoint | src/wal_checkpoint.c:33-46 | a collection and an empty log |
| Engine.SweepsOnlyStored | src/gc.c:50 | in every session collections touch only keys that were stored when the database was opened |
| Engine.NewSessionNeverPrunes | src/gc.c:50 | in a session on a new database the pages end as if there had been no collection |
| Engine.Reopen | src/transaction.c:310-398 | opening what a session left gives the same pages, an empty list and lock table, and a tombstone for every committed deletion in the log, in order, whose key has a chain page that takes one more |
| Engine.ServeAndReopen | src/storage_engine.c:41-77 | whatever sequence of calls is made, closing and opening leads to exactly the state that the state machine says the next session finds on pages of that size |
| Engine.ServeAll | src/storage_ops.c:66-303 | whatever sequence of calls is made, pages and log end in the state that the corresponding run of the state machine reaches, and its invariant holds of them; the steps of that run are those that the state and the page size decide |
| Engine.RequestsDecide | src/storage_ops.c:66-303 | so as long as pages have not run out, the calls alone decide where a session ends |
| Engine.UnpackedIs | src/storage_ops.c:107-128 | what was stored for a value reads back as the value exactly when compression is off or the value has at most 16384 bytes, else as nothing |
| Engine.SetIsRead | src/storage_ops.c:152-247 | so does the writer's own read right after a successful set |
| BufferPool.Replace | src/buffer_pool.c:84-111 | putting a page into a slot that holds nothing unsaved and unpinned changes no page's content and no pinned page's slot |
| BufferPool.HandOut | src/buffer_pool.c:357-388 | a zeroed page under a fresh id keeps the cache coherent if and only if the id is cached in no other slot and reads as zeros already; then no content changes |
| BufferPool.DirtyHidesDisk | src/buffer_pool.c:93-101 | while a slot is dirty, whatever a failed write left in the file is invisible |
| BufferPool.Touch | src/buffer_pool.c:167-186 | changing a loaded slot affects its own page only |
| BufferPool.Pool.FindSlot | src/buffer_pool.c:32-41 | the slot that caches the page, or none |
| BufferPool.Pool.FindEvictionCandidate | src/buffer_pool.c:53-72 | an unloaded slot, else the least recently used unpinned one, else none |
| BufferPool.Pool.EnsureLoaded | src/buffer_pool.c:84-111 | page cached at one slot, on a miss an unloaded or the least recently used unpinned one; every page's content and every pin unchanged, also when the write-back fails; fails only if the page is not cached, all slots are loaded, and either none is unpinned or the least recently used unpinned one is dirty and writing it failed; for every id, handed out or not |
| BufferPool.Pool.PinPage | src/buffer_pool.c:167-186 | the slot returned holds the page's content and one more pin; fails, with nothing changed, exactly when the id is negative, or the page is not cached and no slot can be had for it as there; for every id, handed out or not |
| BufferPool.Pool.TryPin | src/buffer_pool.c:198-217 | pins exactly when cached |
| BufferPool.Pool.ReleasePage | src/buffer_pool.c:228-242 | one pin less, never below zero |
| BufferPool.Pool.MarkDirty | src/buffer_pool.c:281-293 | marks the page's slot, if any |
| BufferPool.Pool.Write | src/buffer_pool.c:281-293 | writing a pinned buffer and marking it changes that page's content and nothing else |
| BufferPool.Pool.Allocate | src/buffer_pool.c:305-388 | the first freed id, else a fresh one, reading as zeros; -1 only when no slot can be had, with nothing changed but the list of freed pages moved on; the pool stays coherent if and only if that id is cached in no other slot and its page reads as zeros already |
| BufferPool.Pool.FreePage | src/buffer_pool.c:401-434 | the page loses its pins, heads the list of freed pages and holds the link to the rest of it if it can be loaded; no other page is disturbed |
| CacheRuns.FreeThenAllocate | src/buffer_pool.c:305-434 | handing out a page that was just given back leaves the pool incoherent, whatever its link but 0 |
| BufferPool.Pool.FlushPage | src/buffer_pool.c:463-484 | succeeds exactly when the id is not negative and no write failed; success means that the file holds the page's content and its slot is clean |
| BufferPool.Pool.FlushAll | src/buffer_pool.c:491-511 | unless a write failed, the file holds every page's content and nothing is dirty; if one failed, some page was dirty before |
| CacheRuns.Replay | src/buffer_pool.c:84-511 | in every run, whatever is evicted or fails to write, each page's content is its last write, every pin finds it, pins are exactly those taken and not given back; every call takes effect unless the run explains why not, and the file holds the last write to every page flushed since |
| CacheRuns.PinTakesEffect | src/buffer_pool.c:167-186 | while fewer pages are held than there are slots and nothing written is unflushed, pinning any page that has been handed out succeeds and finds its last write |
| CacheRuns.FlushedIsStored | src/buffer_pool.c:463-511 | what has been flushed and not written since is in the file |
| Layout.RoundTrip32 | src/util_endian.h:31-73 | every 32-bit integer, negative ones included, reads back as written |
| SlottedPage.PageInit | src/slotted_page.c:93-109 | an empty page of the given type and level |
| SlottedPage.PageInsert | src/slotted_page.c:124-163 | refused exactly when there are 128 slots or the gap is below length + 4; else the page holds one more record and all the earlier ones |
| SlottedPage.PageGet | src/slotted_page.c:176-191 | slot i returns the i-th record, anything else -1 |
| SlottedPage.NothingOverlaps | src/slotted_page.c:30-69 | records and slot directory never overlap |
| SlottedPage.InsertAll | src/slotted_page.c:124-163 | after any sequence of inserts the page holds exactly the accepted records, each in the slot reported |
| RecordCodec.HeadDecodes | src/record_codec.c:310-554 | integers up to 32 bits round-trip through the four head forms, in both major types |
| RecordCodec.EncodeString | src/record_codec.c:65-81 | writes head and bytes at the position and nothing else |
| RecordCodec.DecodeString | src/record_codec.c:155-184 | what is read back of every written string, its end included: the string itself up to 255 bytes, and cut short beyond |
| RecordCodec.EncodeKv | src/record_codec.c:199-212 | the buffer starts with the record |
| RecordCodec.DecodeKv | src/record_codec.c:229-265 | a written pair is read back if and only if neither string has more than 255 bytes |
| RecordCodec.EncodeDescriptor | src/record_codec.c:392-431 | the buffer starts with the descriptor |
| RecordCodec.DescriptorDecodes | src/record_codec.c:563-628 | descriptors of every 32-bit chain id, negative ones included, round-trip whatever follows them |
| NodeCodec.EncodeMeta | src/btree_node.c:138-170 | the buffer starts with the links and children, each stored with the bias |
| NodeCodec.DecodeMeta | src/btree_node.c:179-227 | written links and children are read back |
| NodeCodec.StoreNode | src/btree_node.c:427-488 | succeeds exactly when the records fit the page, which then holds the node |
| NodeCodec.LoadNode | src/btree_node.c:322-415 | a page that holds a node loads as that node (kind, level, links, children, keys, leaf values) if and only if no string in it has 256 bytes |
| NodeCodec.StoreThenLoad | src/btree_node.c:322-488 | a stored node comes back if it fits, and as it was if and only if no string in it has 256 bytes |
| PageFit.TameFits | src/btree_node.c:442-482 | a node with keys of at most 255 bytes and descriptors always fits a page of at least 878 bytes |
| PageFit.InsertFine | src/btree_modify.c:144-233 | insertion brings no longer key and no longer value into any node than those it is given |
| PageFit.DeleteFine | src/btree_modify.c:582-621 | nor does deletion |
| PageFit.NodesFit | src/btree_node.c:442-482 | over all runs with keys of at most 255 bytes, and page ids within what a node can store, every node of every tree fits its page and loads as it was, if and only if the page size is not the smallest allowed |
| PageFit.TwoLongKeys | src/btree_node.c:477-482 | two keys of 255 bytes give a leaf that a page of 512 bytes does not hold |
| Overflow.PageStore.Write | src/version_chain.c:259-344 | a chain is written exactly when the value is not empty and enough pages are left; reading it gives the value, every earlier chain reads as before, and the pages taken are those it needs or all that were left |
| Overflow.PageStore.Read | src/version_chain.c:359-400 | following the links yields exactly the specified bytes, or failure |
| Overflow.ChainReads | src/version_chain.c:359-400 | reading a well-formed chain gives the value it holds |
| Overflow.ReadStays | src/version_chain.c:259-344 | adding pages changes no earlier read |
| ChainPage.MvccSet | src/transaction.c:699-748 | succeeds exactly when the chain's page takes the entry and, for a long value, pages are left; success appends exactly one version, failure none, long and short values alike |
| ChainPage.MvccDelete | src/transaction.c:758-789 | succeeds exactly when the chain's page takes a tombstone; success appends exactly it |
| ChainPage.FitsIsTakes | src/slotted_page.c:124-165 | what a chain's page still takes depends on its versions alone: their number and the lengths of their values |
| ChainPage.SpareIsExact | src/transaction.c:758-789 | behind a chain and some tombstones there is room for another exactly as long as they are fewer than the page takes |
| ChainPage.FindVisible | src/version_chain.c:495-615 | scanning the page's bytes returns what the version chain shows the reader |
| ChainPage.HasVisible | src/version_chain.c:617-676 | true exactly when the version chain shows the reader a value |
| ChainPage.KeptFits | src/version_chain.c:800-822 | copying surviving records into a fresh page never fails for lack of room |
| ChainPage.Prune | src/version_chain.c:712-829 | the page rewritten in place holds exactly the surviving versions |
| TupleKeys.KeyConcat | src/key_encoding.c:167-182 | the key of a longer tuple is the concatenation of the keys of its pieces |
| TupleKeys.KeysAreUnique | src/key_encoding.c:194-212 | different tuples have different keys |
| TupleKeys.EncodeKeyTuple | src/key_encoding.c:167-182 | the key in 1-byte and 3-byte length forms, then zeros |
| TupleKeys.DecodeKeyTuple | src/key_encoding.c:194-212 | decoding a key of at most 16 parts gives back the parts |
| TupleKeys.SubscriptCount | src/hierarchical.c:29-45 | the number of parts |
| TupleKeys.SubscriptOffset | src/hierarchical.c:58-76 | where part n starts, the end for the index behind the last, -1 beyond |
| TupleKeys.KeyPrefix | src/hierarchical.c:145-159 | the key of the first n parts, or -1 exactly when there are fewer or the buffer is too small |
| TupleKeys.ExtractSubscript | src/hierarchical.c:173-190 | the bytes of part n |
| TupleKeys.ConcatPrefix | src/hierarchical.c:206-226 | the key of the tuple with one more part, or -1 exactly when it does not fit |
| TupleKeys.KeyOrder | src/key_encoding.c:11-13 | keys sort as their tuples do when parts are compared by length first and then by bytes, a proper prefix first |
| TupleKeys.OrderIsKeptWhen | src/key_encoding.c:11-13 | keys and parts sort alike if and only if at the first difference one tuple has ended, the parts have equal length, or the shorter part is also the smaller |
| TupleKeys.OrderIsNotKept | src/key_encoding.c:11-13 | two tuples whose keys sort the other way round |

## Left out

- BTree.Store.Insert: page allocation succeeds and every new page has a fresh id; an orphaned child after a failed internal split is not modelled.
- BTree.Store.Insert: nothing is said about previous-page links, which a split leaves stale at the old successor.
- BTree.Store.Delete: the key's path meets no node without keys, where the code would take page 0, the header, for a sibling.
- BTree.Store.DeleteRec: the same.
- BTree.Store.RebalanceChild: the same.
- BTree.Store.Delete: freed pages go to a list that nothing takes from.
- Cursor.TreeCursor.Next: peek, saved position and skip-prefix of the storage cursor are not modelled.
- Navigation.PrevKey: the scan for the very last key, which follows previous-page links, is not modelled.
- LockTable.LockManager.Acquire: the linked list is a sequence, and memory never runs out; a shared holder that asks for exclusive is told yes without a check, as in the code.
- CollectionRuns.CollectionExactly: the active list has room for one more; when it is full nobody can begin and so nobody can notice.
- Isolation.CollectInAnyRun: the collection takes an active list of any length, where the C array has four cells.
- Engine.Session.Gc: the same.
- Engine.Session.Set: whether the cache has a page for a new chain is a parameter; the tree's own pages are always found, and the key count is not part of it.
- Engine.Session.Set: the tree's pages hold nodes, not bytes; that nodes survive being stored is stated by NodeCodec.StoreThenLoad and PageFit.NodesFit, and not for keys of 256 bytes.
- Engine.Session.Set: overflow pages are numbered apart from tree and chain pages, and pages are not in the cache of BufferPool.
- Engine.Session.Commit: the list of modified pages and their flush are not modelled.
- CacheRuns.Replay: the client pins only ids that have been handed out and gives no page back.
- CacheRuns.PinTakesEffect: runs of fewer than 2147483646 calls; after that the 32-bit counter of uses may stand at its end, where the search for a slot passes over slots used then.
- BufferPool.Pool.Allocate: page ids and pin counts do not overflow.
- BufferPool.Pool.FindSlot: the pool's parallel arrays are one array of slot records.
- Lz4.Compress: memory never runs out, and the end-of-block conditions of the format are not claimed, since matches may run to the last byte.
- RecordCodec.DescriptorDecodes: for malformed input a text length below zero ends the parse, where the code would read in front of the buffer.
- NodeCodec.LoadNode: internal nodes carry no values, and pages of other kinds load as internal nodes.
- ChainPage.Prune: the overflow pages of dropped versions are not freed, and record buffers are as long as the page.
- Overflow.PageStore.Write: pages are always found by the cache; a page whose pin fails is not modelled.
- TupleKeys.DecodeKeyTuple: a long length form cut off by the end of the buffer is taken as it stands.
- Engine.ServeAll: once tree or overflow pages have run out, whether a step finds pages is not said for the run, only call by call in Engine.Session.Set.
- Engine.Reopen: the database was closed cleanly; recovery after a crash, where keys of the log may be missing from the tree, is not modelled.
- WriteLog.Log.Append: records as bytes, sequence numbers and the position in the log file are not modelled.
- Threads, mutexes, read-write locks, file descriptors and platform code: every call is one atomic step.
- Prefix compression of tree keys, which the tree does not use, and the other key splitter.
- Database header, configuration, error strings, the public API shims and the language wrappers.
