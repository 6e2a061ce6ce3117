# tstdb, version 2: a model of the server's core

tstdb is a key-value server that speaks the memcached text protocol. Its index is a ternary
search tree in a growable node array; values live in an append-only data file; a binlog of
(key, offset) records makes the index durable; five worker threads serve connections whose
input and output sit in chains of fixed-size buffer units. The files here model that core in
Dafny and prove what it is there for.

**The index** (`TernaryTree`, `TreeShape`, `NodeArray`, `TstDb`, `TreeRuns`). `TernaryTree` is
the tree as a value in which every node carries the array index it lives at; `TreeShape` is the
same without the indices. `NodeArray` says when a node array represents such a tree: links,
characters and values, parent indices, and a free list that together with the tree accounts for
each of the indices 1..size exactly once. The class `TstDb` (module `TstIndex`) has the fields
of `tst_db` and its operations, which work in place on the array. They are proved to refine the
value-level operations, and these to refine a map.

**Range queries** (`Lexicographic`, `KeyListing`, `KeyScan`). The traversals share one key
buffer and append to one reply until a limit is reached. They are proved to list exactly the
keys `KeyListing` asks for, in order, cut to the limit.

**Durability** (`Octets`, `DataFile`, `Binlog`, `Recovery`). The two file formats octet by
octet, replay of a binlog that may be torn anywhere, and the three crash points of the dump.
Replay takes the flag of `TstDb.Delete` described below: it is proved for the repaired deletion
on every log, and for the deletion as it stands on logs none of whose deletions joins two
subtrees (`Binlog.Sparing`).

**Concurrency** (`Sequential`, `Workers`, `Guarantees`, `Commands`, `ExpiryRace`). `Sequential`
is the meaning of the commands one at a time. `Workers` is a state machine: every command is a
sequence of steps on the writer mutex, the readers-writer lock, the two files and the index;
steps of any number of workers interleave in any order, with crashes and dumps in between.
`Guarantees` holds the results about states and steps of whole runs; `Commands` follows one
command of one worker from its start to its reply, whatever the others do meanwhile;
`ExpiryRace` shows what becomes of a value that is set while a get is about to delete an expired
one. The index is a map there, which is what `TstDb` is proved to be.

**Connections** (`BufferPool`, `BufferChain`, `Framing`, `UnitFraming`, `Connection`,
`EventLoop`). The index-linked pool and chains of its units. `Framing` is framing as a function
of the byte stream; `UnitFraming` is framing as the server does it on the units of a chain,
where the search for a line end stops at a zero octet of the unit it is in, and says exactly
when the two agree. The state machine of `handle_input` is proved to compute the framing of the
units, whatever the octets are. The class `Worker` serves any number of connections on one
pool, in any order of events. Every connection carries, for the proof only, what it has
received, handed on, been given to send and sent; every operation keeps that these agree.

**The client** (`Wire`, `Client`, `Requests`). The lines both ends print and parse, the client's
buffered reading of replies, and what the server takes each framed command to ask for and prints
in reply, so that what a client sends is what is stored and what is stored is what it gets back.

## How the code is read

- Keys are C strings; characters are compared by their codes and `'\0'` is smaller than any
  character in a key. Where `char` is signed this is so for octets below 128 only, and keys and
  queries with larger octets are then outside the model. The client's `check_key`
  (`v2/src/client/pytst.py:1136-1139`) lets them through; they compare as negative, and
  `dfs_less` and `dfs_greater` take the wrong branch where the query runs out and a stored key
  goes on with such an octet.
- Files and buffers are strings whose characters are octets.
- Node 0 is an all-zero sentinel. `new_tst_db` clears only a pointer's worth of it
  (`v2/src/tst.c:16`); the lookup of a missing key reads its value (`v2/src/tst.c:492`).
- `has_header` and `append_recv_data` write a `'\0'` behind a full unit. On a little-endian
  machine this is the low octet of `size`, which is 0 when the unit is full, so it changes
  nothing; the model leaves it out.
- Overlapping `memcpy` calls that shift a unit's contents down are read as moves.
- `sscanf` for command lines is a parameter of `Framing` and `Connection`: any function that
  announces no body for an empty line. `Wire.Announce` is the one for well-formed lines.
- `incr` and `decr` are wrapped to 32 bits; without overflow this is plain addition.

## Where the code falls short of its promise

- `remove_node` hangs the right subtree under the greatest node of the left one without
  telling it its new parent (`v2/src/tst.c:198`). `TstDb.Delete` takes a flag for the missing
  assignment. Without it the stored map is still right after the call, but the array is sound
  if and only if no node with two subtrees was removed (`TernaryTree.Spoils`), and the next
  deletion can turn the free list into a cycle (`TreeRuns.LostParentCorruptsFreeList`). With
  it, the array is sound after every deletion. Insertions and lookups read no parent index and
  are right on a spoiled array too. An insertion sets those on its key's path right, and a
  deletion is right wherever the nodes on its key's path name their parents
  (`NodeArray.PathNamed`), so a key that has just been put can always be deleted.
- `tst_prefix` in descending order appends a key buffer that the traversal has overwritten
  (`v2/src/tst.c:478-481`). `KeyScan.TstPrefix` takes a flag that restores the terminator.
  Without it the reply is right if and only if the prefix is not itself stored, no node hangs
  below it, or the limit is used up by its extensions (`KeyScan.Smears`). In a tree without dead
  nodes, no node below the prefix means that no stored key properly extends it
  (`KeyScan.SmearsMeans`). What is listed instead of the prefix is `KeyScan.WrongKey`, computed
  from what the traversal leaves in the buffer; with a and ab stored, a descending request for a
  is answered with ab twice (`KeyScan.ListedTwice`).
- A command line that starts with a newline leaves `header_len` at 0, and one octet more than
  the line is consumed, if it has arrived. Among line ends that are visible in the sense of the
  next item, the next cut is harmless whatever is received after it if and only if framing what
  lies before it never comes down to a lone newline, the cuts so far having been of that kind
  (`UnitFraming.CutExactly`). Where it does come down to one,
  exactly one octet of the stream is at stake (`Framing.LoneNewlineSwallows`).
- The search for a line end uses `strstr` (`v2/src/tstserver.c:589`), which does not look past
  a zero octet of the same unit. A line end is found however the stream is received if and only
  if no zero octet lies less than 512 octets before it (`UnitFraming.VisibleExactly`,
  `UnitFraming.FrameExactly`); the stream a, zero, b, CR, LF is framed or not framed depending
  on where it is cut (`UnitFraming.ZeroOctetMatters`). A stream of complete commands, none of
  which starts with a newline, is framed alike however it is received if and only if all its
  line ends are visible (`UnitFraming.StreamExactly`). Bodies may hold anything.
- Of a body longer than 1000000 octets the server takes so many and frames what follows as if a
  command began there (`Wire.OversizedSpills`).
- `delete_expire_value` deletes whatever the key holds by then (`v2/src/cmd_process.c:189-192`).
  It removes the entry the get found if and only if no effect on the key has come since the
  lookup (`ExpiryRace.ExpireRemovesFound`); in `ExpiryRace.NewerValueGoes` a value that never
  expires was set in between and is deleted.

## Model

| member | source | states |
|---|---|---|
| TstIndex.TstDb.constructor | v2/src/tst.c:7-24 | a new database represents the empty tree in an array of the given capacity |
| TstIndex.TstDb.Reload | v2/src/tstserver.c:286-298 | reading a dumped struct and array back gives the heap, tree and free list that were dumped |
| TstIndex.TstDb.EnsureEnoughSpace | v2/src/tst.c:37-53 | the array doubles exactly when its last cell is next, and keeps every cell |
| TstIndex.TstDb.NewNode | v2/src/tst.c:63-79 | the head of the free list, else the next unused index, comes back zeroed; it was in no tree and on no list, every other cell is unchanged, also across doubling |
| TstIndex.TstDb.NewLeaf | v2/src/tst.c:86-89 | a new node holding one character represents a one-node tree |
| TstIndex.TstDb.Insert | v2/src/tst.c:81-107 | in place, the subtree becomes the value-level insertion, nodes come from the free list first, the nodes on the key's path name their parents, parents that agreed still do, and cells outside the subtree and the arena are untouched; recursion ends |
| TstIndex.TstDb.InsertChild | v2/src/tst.c:90-104 | the same for the recursive call on one side and the links stored after it |
| TstIndex.TstDb.SetValue | v2/src/tst.c:100-104 | the last node takes the value and its parent; nothing else changes |
| TstIndex.TstDb.Put | v2/src/tst.c:166-173 | from any array that can be read, whatever its parent indices: the contents are the old map with the key updated (or removed, for value 0), the nodes on the key's path name their parents, and an array that was valid stays so; an empty key changes nothing; with a positive value no node is dead |
| TstIndex.TstDb.PathsNamed | v2/src/tst.c:236-262 | in a valid array the nodes on every key's path name their parents, so every deletion finds its way back to the root |
| TstIndex.TstDb.Search | v2/src/tst.c:109-135 | the loop ends at the node of the key's path, or 0, and that cell holds the key's value |
| TstIndex.TstDb.Get | v2/src/tst.c:486-494 | the map's value, or 0 exactly for keys that are not stored |
| TstIndex.TstDb.RemoveNode | v2/src/tst.c:55-61 | the node heads the free list, its value is gone, the subtrees are joined as at 175-201, and the joined root is returned |
| TstIndex.TstDb.Detach | v2/src/tst.c:236-262 | removal, the parent's link or root, and the new child's parent, as one step on the whole heap |
| TstIndex.TstDb.RemoveDead | v2/src/tst.c:236-262 | a dead node in its context is replaced by its spliced subtrees and owned by the free list; no other cell changes |
| TstIndex.TstDb.ClimbTurn | v2/src/tst.c:233-263 | one turn prunes the subtree in its context; parent indices stay right unless two subtrees were joined without the repair |
| TstIndex.TstDb.ClimbStep | v2/src/tst.c:233-264 | after a turn the climb stands at the parent with the pruned subtree filled in |
| TstIndex.TstDb.Climb | v2/src/tst.c:233-264 | the loop ends at the root with every node on the way pruned; parent indices that were right are right if and only if repaired or nothing was joined |
| TstIndex.TstDb.Locate | v2/src/tst.c:203-228 | finds the key's node and the context, with the parents the climb will follow, from which it rebuilds the value-level deletion |
| TstIndex.TstDb.Clear | v2/src/tst.c:230-232 | the node found forgets its value and nothing else changes |
| TstIndex.TstDb.Delete | v2/src/tst.c:203-265 | if the nodes on the key's path name their parents, the contents are the old map without the key, reading stays sound and no dead node appears; an array that was valid is valid afterwards if and only if repaired or no removed node had two subtrees |
| TernaryTree.GetPut | v2/src/tst.c:81-107 | after an insertion a lookup finds the new value at the key and the old one everywhere else |
| TernaryTree.PutOrdered | v2/src/tst.c:90-99 | insertion keeps the strict search-tree order of every level |
| TernaryTree.PutCounts | v2/src/tst.c:63-79 | insertion moves nodes from the arena to the tree one for one: none lost, none used twice |
| TernaryTree.PutNoDead | v2/src/tst.c:81-107 | inserting a positive value leaves no node without value and extension |
| TernaryTree.GetHang | v2/src/tst.c:194-199 | hanging the right subtree under the left one's greatest node keeps the order and finds exactly the keys of both |
| TernaryTree.PruneKeeps | v2/src/tst.c:175-201 | removing a dead root loses, duplicates or reorders no key |
| TernaryTree.PruneCounts | v2/src/tst.c:175-201 | removing a dead root gives up that node and keeps every other |
| TernaryTree.GetDelete | v2/src/tst.c:203-265 | after a deletion a lookup finds 0 at the key and the old value everywhere else; the order is kept |
| TernaryTree.DeleteNoDead | v2/src/tst.c:233-264 | the climb leaves no dead node |
| TernaryTree.KeysExact | v2/src/tst.c:279-328 | the in-order key list holds exactly the keys a lookup finds |
| TernaryTree.KeysAscending | v2/src/tst.c:279-328 | it is strictly ascending in the lexicographic order |
| TernaryTree.PutRefinesMap | v2/src/tst.c:166-173 | insertion is map update |
| TernaryTree.DeleteRefinesMap | v2/src/tst.c:203-265 | deletion is map removal |
| TernaryTree.EmptyWhenNoKey | v2/src/test_tst.c:82-93 | a tree that stores nothing has no node |
| NodeArray.HangRepresents | v2/src/tst.c:194-199 | in the array, hanging represents the joined tree; its parent indices are right if and only if they were and the repair is made |
| NodeArray.RemoveRepresents | v2/src/tst.c:175-201 | the same for the whole of remove_node |
| NodeArray.UnlinkRepresents | v2/src/tst.c:236-262 | the same with the parent's link, in any context |
| NodeArray.UnlinkedFree | v2/src/tst.c:55-61 | the removed node joins the free list, which stays acyclic and disjoint from the tree |
| NodeArray.ShapeUnique | v2/src/tst.c:10-24 | an array and a root index represent at most one tree |
| NodeArray.WrongParentRepresentsNothing | v2/src/tst.c:198-199 | an array with a wrong parent index represents no tree at all |
| TreeShape.BareOfPut | v2/src/tst.c:81-107 | what an insertion does to the shape of the tree does not depend on the nodes it is given |
| TreeShape.BareOfDelete | v2/src/tst.c:203-265 | nor does what a deletion does, and whether it joins two subtrees is a matter of shape |
| TreeRuns.HistoryRefinesMap | v2/src/tst.c:166-173 | after every sequence of insertions and deletions the tree stores exactly the map built by the same updates and removals, ordered and without dead nodes |
| TreeRuns.RunHistory | v2/src/tst.c:166-265 | the operations of the array database, insertion and the repaired deletion, applied to a new one in any sequence, end with a valid array that stores that map |
| TreeRuns.EmptiedIsBare | v2/src/test_tst.c:87-93 | when everything has been deleted root is 0 and each of the nodes 1..size is on the free list exactly once |
| TreeRuns.NextNodeIsFresh | v2/src/tst.c:63-79 | each index is in the tree or on the free list, never both, and the next node handed out is not live |
| TreeRuns.ThreeIsReached | v2/src/tst.c:81-107 | putting b, a and c leads to the array the next lemma starts from |
| TreeRuns.LostParentCorruptsFreeList | v2/src/tst.c:193-200 | without the repair, deleting b and then c makes the free list cyclic while the tree still links to a recycled node |
| KeyListing.ListsMore | v2/src/tst.c:288-289 | listing two lists one after the other up to a limit is listing their concatenation up to it |
| KeyListing.UpToAtNode | v2/src/tst.c:343-374 | which parts of a node's keys are at most the query, by the next query character |
| KeyListing.FromAtNode | v2/src/tst.c:390-422 | which parts are at least the query, the exact match included |
| KeyListing.ExtendingAtFind | v2/src/tst.c:467-477 | the keys extending a prefix are those in and below the node its path ends at |
| KeyListing.QueriesExact | v2/src/tst.c:426-483 | each query's list holds exactly the stored keys in its range, in strict order; descending is the reverse of ascending |
| KeyListing.CutKeepsFirst | v2/src/tst.c:300-301 | a listing cut to a limit keeps the keys nearest its start: every key left out comes after all of them |
| KeyScan.AppendResult | v2/src/tst.c:268-276 | the C string in the buffer is appended as one line and counted |
| KeyScan.Dfs | v2/src/tst.c:279-328 | lists the subtree's keys in either order up to the limit; the buffer below depth d is preserved, and what a complete descending traversal leaves from there on is the residue |
| KeyScan.DfsSide | v2/src/tst.c:297-298 | one outer call, after which the node's character is back in the buffer |
| KeyScan.DfsMiddle | v2/src/tst.c:303-320 | the node's own key and its extensions, in the order's order |
| KeyScan.DfsLess | v2/src/tst.c:330-376 | lists the keys up to the query, greatest first, up to the limit |
| KeyScan.LessAtNode | v2/src/tst.c:345-355 | its branch for a query through the node |
| KeyScan.LessPastNode | v2/src/tst.c:356-374 | its branch for a query past the node |
| KeyScan.DfsGreater | v2/src/tst.c:378-424 | lists the keys from the query on, smallest first, up to the limit; relies on the buffer being zero past depth d |
| KeyScan.GreaterAtNode | v2/src/tst.c:392-402 | its branch for a query through the node, with the append that sets no terminator |
| KeyScan.GreaterBelowNode | v2/src/tst.c:403-422 | its branch for a query that falls before the node |
| KeyScan.TstLess | v2/src/tst.c:426-441 | the reply is the min(limit, count) greatest stored keys up to the query, in descending order |
| KeyScan.TstGreater | v2/src/tst.c:443-458 | the reply is the min(limit, count) smallest stored keys from the query on, in ascending order |
| KeyScan.SearchWithPath | v2/src/tst.c:137-164 | finds the prefix's node and leaves the prefix in the buffer, zero behind it |
| KeyScan.PrefixOwn | v2/src/tst.c:478-481 | appends whatever the buffer holds if the prefix is stored and there is room |
| KeyScan.PrefixBelow | v2/src/tst.c:476-477 | lists the proper extensions; says what is left in the buffer behind the prefix |
| KeyScan.TstPrefix | v2/src/tst.c:460-483 | the count is always right; the reply is right if and only if ascending, restored, or not in the one bad case; in that case it is the extensions and then the wrong key |
| KeyScan.SmearsMeans | v2/src/tst.c:476-481 | the bad case in terms of stored keys: the prefix is stored, some key properly extends it, and the limit leaves room for more |
| KeyScan.SmearIsReached | v2/src/tst.c:478-481 | two insertions lead to it, and the wrong key there is the extension |
| KeyScan.ListedTwice | v2/src/tst.c:460-483 | for the operations in place: from an array with a and ab put, the descending request for a lists ab twice |
| Octets.Int32RoundTrip | v2/src/cmd_process.c:297-297 | an int written is the int read |
| Octets.UInt64RoundTrip | v2/src/cmd_process.c:305-305 | a uint64 written is the uint64 read |
| Octets.IntWritten | v2/src/cmd_process.c:290-297 | the low octet is first, negative numbers are in two's complement |
| DataFile.AppendedValue | v2/src/cmd_process.c:290-299 | a value appended at ftell is read back from that offset |
| DataFile.StableValue | v2/src/cmd_process.c:183-204 | a complete record is read the same whatever is appended later |
| DataFile.RecordWritten | v2/src/cmd_process.c:290-299 | length, flag and expiry, in this order, then the body |
| DataFile.AtoiShow | v2/src/cmd_process.c:383-389 | a number printed by incr or decr is read back by atoi |
| DataFile.ShowPlain | v2/src/cmd_process.c:389-389 | a printed number has no plus sign and no leading zero |
| DataFile.AtoiText | v2/src/cmd_process.c:383-383 | atoi passes over white space and one sign and stops at the first character that is no digit |
| Binlog.TornTail | v2/src/tstserver.c:305-337 | for any records and any cut of their encoding, replay reads exactly the whole records before the cut and truncates to them |
| Binlog.WholeIsLongest | v2/src/tstserver.c:312-335 | that is the longest prefix that fits |
| Binlog.AppendAfterRecovery | v2/src/tstserver.c:335-335 | records appended to the truncated file are read back after the kept ones |
| Binlog.TornAppend | v2/src/cmd_process.c:253-258 | a record whose append was cut short is not there after recovery |
| Binlog.RecordWritten | v2/src/cmd_process.c:253-257 | key length, key and offset, in this order |
| Binlog.ReplayAt | v2/src/tstserver.c:327-330 | the last record on a key decides, whatever state the log is replayed on |
| Binlog.ReplayTwice | v2/src/tstserver.c:359-360 | replaying a log over a state that already contains it, with more records after it, is replaying it once |
| Binlog.ReadOne | v2/src/tstserver.c:314-326 | the three reads of one turn, each of which may come up short |
| Binlog.ReplayBinlog | v2/src/tstserver.c:305-337 | the index ends with the log's records applied in order, valid, and the truncation point is the end of the last whole record; with the deletion as it stands, for logs that do not need its repair |
| Recovery.Restart | v2/src/tstserver.c:340-361 | snapshot or fresh index, then replay: the contents are what the two files mean; with the deletion as it stands, for logs that do not need its repair |
| Recovery.DumpIsAtomic | v2/src/tstserver.c:363-392 | before the rename, between rename and removal, and after it, when the log is empty, a restart yields the map that was dumped |
| Recovery.StaleLogStaysRight | v2/src/tstserver.c:387-390 | a log left over from a crash before its removal stays right when more records follow |
| Sequential.NoAba | v2/src/cmd_process.c:238-243 | offsets rise strictly, so a sign seen earlier is current if and only if no effect has touched the key since, deletion and re-setting included |
| Sequential.CounterSum | v2/src/cmd_process.c:371-413 | a counter changed only by incr and decr is its start plus the signed sum of deltas, and keeps its flag and expiry |
| Sequential.EntryOrigin | v2/src/cmd_process.c:308-311 | the current entry of a key is that of the last effect on it |
| Sequential.ExecOffsets | v2/src/cmd_process.c:301-310 | applying the binlog record to the index is what executing the command does to offsets |
| Workers.InitInv | v2/src/tstserver.c:352-353 | the invariant holds initially, with offset 0 reserved |
| Workers.DecidesSequentially | v2/src/cmd_process.c:237-243 | under the mutex a command is decided on the sequential store |
| Workers.AppendDataKeepsInv | v2/src/cmd_process.c:290-299 | appending a value keeps every older record and gives the new one a greater offset |
| Workers.AppendLogKeepsInv | v2/src/cmd_process.c:301-306 | appending to the binlog after the data file keeps the binlog equal to the history |
| Workers.MutateKeepsInv | v2/src/cmd_process.c:308-311 | the index update catches up with the binlog |
| Workers.ReplyStepKeepsInv | v2/src/cmd_process.c:192-193 | the invariant is kept when a command replies and when a get comes back from the deletion of an expired value |
| Workers.SkipKeepsInv | v2/src/cmd_process.c:189-192 | the invariant is kept when a get that finds a value expired turns to deleting it |
| Workers.TornLogScan | v2/src/tstserver.c:305-335 | a crash may leave any piece of the record being appended, and recovery finds exactly the completed appends |
| Workers.CrashKeepsInv | v2/src/tstserver.c:340-361 | a crash at any step, with any torn tail, keeps the invariant and the binlog |
| Workers.DumpKeepsInv | v2/src/tstserver.c:387-390 | neither visible step of the dump changes what a restart finds |
| Workers.RunKeepsInv | v2/src/cmd_process.c:139-417 | every schedule of any number of workers, crashes and dumps keeps the invariant |
| Guarantees.EveryRunIsSequential | v2/src/cmd_process.c:139-417 | after every run the store is what executing the effects one at a time gives, and the index is the replay of the binlog except for the one effect in a writer's critical section |
| Guarantees.OffsetsNameRecords | v2/src/cmd_process.c:290-306 | every nonzero offset in index or binlog names a complete record |
| Guarantees.NeverRewritten | v2/src/cmd_process.c:183-204 | and that record reads the same in every later state |
| Guarantees.GetReturnsCurrent | v2/src/cmd_process.c:177-208 | get appends to what it has the entry current at its index lookup, although it reads the file later and without a lock, and goes on to the next key or to the reply |
| Guarantees.ListingIsCurrent | v2/src/cmd_process.c:67-69 | prefix, less and greater answer from exactly the keys stored when their traversal runs, as a set |
| Guarantees.GetComesBack | v2/src/cmd_process.c:192-193 | a get inside delete_expire_value holds no read lock and goes on to its next key, or to the reply, with what it had |
| Guarantees.CasHasNoAba | v2/src/cmd_process.c:237-266 | in every run, cas with a sign read earlier stores if and only if no effect on the key has come since |
| ExpiryRace.ExpireRemovesFound | v2/src/cmd_process.c:189-192 | the deletion of an expired value goes ahead unconditionally, and removes the entry the get found if and only if no effect on the key has come since |
| ExpiryRace.NewerValueGoes | v2/src/cmd_process.c:189-192 | a run in which it removes a value that never expires, set between the lookup and the deletion |
| Guarantees.CounterAfterRun | v2/src/cmd_process.c:371-415 | whatever the interleaving, no increment is lost, and flag and expiry stay |
| Guarantees.CrashLosesNothing | v2/src/tstserver.c:340-361 | a restarted store shows every effect ever logged and no other, whatever octets the crash adds to the data file |
| Guarantees.DumpEmptiesLog | v2/src/tstserver.c:363-392 | after the rename and the removal the log is empty, and a restart, torn as it may be, shows the same store |
| Guarantees.RefusalsAreTrue | v2/src/cmd_process.c:337-340 | EXISTS and NOT_FOUND are answered only when the store calls for it, and change nothing; what was decided is what is sent |
| Guarantees.RepliesAreTrue | v2/src/cmd_process.c:346-353 | STORED, DELETED and the new number are true of the store at that moment, no other key is touched, and the reply decided is the one sent |
| Guarantees.NoOverlap | v2/src/cmd_process.c:261-263 | no index read, by a lookup, a traversal or another writer, overlaps an index update |
| Guarantees.NoDeadlock | v2/src/cmd_process.c:145-155 | while a command is unfinished some unfinished command can step, gets waiting inside delete_expire_value included |
| Guarantees.RunsEnd | v2/src/cmd_process.c:139-417 | without new commands every schedule is finite, expiries included, so every command finishes |
| Commands.WriteReplies | v2/src/cmd_process.c:222-417 | a set, cas, delete, incr or decr, from its start to its reply under any interleaving: it takes effect exactly once in between and the reply is true of the store just before and after, other keys being untouched; or it takes none and the reply is the refusal called for by the store at some moment in between |
| Commands.GetReplies | v2/src/cmd_process.c:158-218 | a get of any keys, from its start to its reply under any interleaving: one lookup for each key in order, and the reply is exactly the entries found and not expired, in order; it deletes exactly the keys whose values had expired |
| Commands.LookupsBetween | v2/src/cmd_process.c:177-179 | the stores its lookups see are those of successive moments between start and reply |
| Commands.GetOneView | v2/src/cmd_process.c:158-218 | if no effect comes meanwhile the reply is the entries of the keys in the one store there is |
| Commands.ScanReplies | v2/src/cmd_process.c:46-137 | prefix, less and greater, from start to reply: exactly the keys in range of the store at one moment in between |
| Commands.QueryIsListing | v2/src/tst.c:426-483 | the range each of them asks for is the list the traversal cuts to the limit |
| Commands.CommandsAnswered | v2/src/tstserver.c:769-804 | on a server at rest every command can be started and gets its reply |
| BufferPool.Pool.constructor | v2/src/buffer_pool.c:6-25 | all units are free, in index order |
| BufferPool.Pool.AllocBuf | v2/src/buffer_pool.c:27-42 | the first free unit comes back empty and changes owner; no other unit changes |
| BufferPool.Pool.FreeBuf | v2/src/buffer_pool.c:51-63 | the unit becomes the first free one |
| BufferPool.ListFrame | v2/src/buffer_pool.c:27-63 | a list keeps its units, order and octets while others' units change hands |
| BufferChain.Chain.Grow | v2/src/tstserver.c:521-528 | a fresh empty unit is linked behind the tail |
| BufferChain.Chain.Receive | v2/src/tstserver.c:514-537 | the chunk received, which may be empty, becomes a unit of its own at the end |
| BufferChain.Chain.DropHead | v2/src/tstserver.c:677-693 | the first unit goes back to the pool and the text loses its octets |
| BufferChain.Chain.Take | v2/src/tstserver.c:666-708 | exactly k octets leave the front of the text, or all there are; used-up units go |
| BufferChain.Chain.FreeAll | v2/src/tstserver.c:120-136 | every unit of the chain is free again |
| BufferChain.Chain.Send | v2/src/tstserver.c:539-572 | the data joins the end of the text; no unit holds more than 512 octets; head is null exactly when tail is |
| BufferChain.Chain.Flush | v2/src/tstserver.c:867-881 | what send accepts is exactly the front of the text |
| BufferChain.OtherChainKept | v2/src/tstserver.c:514-572 | an operation on one chain leaves every other chain as it was |
| Framing.FrameStable | v2/src/tstserver.c:591-593 | of the stream function: a complete command stays the first command whatever arrives later, if and only if the text is not a lone newline |
| Framing.CommandsSplit | v2/src/tstserver.c:834-848 | of the stream function: where framing a text never comes down to a lone newline, framing it and then the rest with what follows is framing everything at once |
| Framing.CutSafeExactly | v2/src/tstserver.c:591-593 | of the stream function: that is so whatever follows if and only if the text never comes down to a lone newline; `UnitFraming.CutExactly` is the statement about the units |
| Framing.LoneNewlineSwallows | v2/src/tstserver.c:591-593 | of the stream function: where it does, exactly one octet is swallowed or not, for the commands and for the rest |
| UnitFraming.FindExactly | v2/src/tstserver.c:588-589 | the search in a unit finds the first newline exactly if no zero octet comes before it |
| UnitFraming.VisibleExactly | v2/src/tstserver.c:574-604 | the first line end of a stream is found however it is received if and only if no zero octet is so close before it that both fit one unit |
| UnitFraming.FrameExactly | v2/src/tstserver.c:574-664 | the same for the first command, when it is complete |
| UnitFraming.UnitsAgree | v2/src/tstserver.c:834-848 | units whose line ends are visible are framed as the stream they hold, and leave its unfinished suffix |
| UnitFraming.SafeChunksDoNotMatter | v2/src/tstserver.c:820-856 | the commands handed on do not depend on the receives if line ends are visible and no cut leaves a lone newline; the converses are CutExactly and StreamExactly |
| UnitFraming.ChunkingDoesNotMatter | v2/src/tstserver.c:820-856 | for streams with visible line ends and without stray newlines they never do, and what is held is the unfinished suffix; the converse is StreamExactly |
| UnitFraming.CutExactly | v2/src/tstserver.c:574-604 | among visible line ends and after safe cuts, receiving the stream up to the next cut and then anything is framed as the whole, whatever comes, if and only if framing it up to the cut never comes down to a lone newline |
| UnitFraming.StreamExactly | v2/src/tstserver.c:820-856 | a stream of complete commands without stray newlines is framed alike however it is received if and only if every line end is visible |
| UnitFraming.StrayNewlineMatters | v2/src/tstserver.c:591-593 | a stream with a stray newline and two ways of receiving it that yield different commands |
| UnitFraming.ZeroOctetMatters | v2/src/tstserver.c:588-589 | a stream without stray newlines but with a zero octet in a line, and two ways of receiving it, one of which yields no command |
| Connection.IoData.constructor | v2/src/tstserver.c:100-117 | a new connection holds nothing |
| Connection.IoData.SearchUnits | v2/src/tstserver.c:585-602 | the loop finds what the search from unit to unit finds, for any octets |
| Connection.IoData.HasHeader | v2/src/tstserver.c:574-604 | tells whether a line end is found and records the line's length; a line once found stays found |
| Connection.IoData.GetBodyLen | v2/src/tstserver.c:606-655 | records what the line announces, clamped to 0..1000000 |
| Connection.IoData.HasBody | v2/src/tstserver.c:657-664 | for a line that announces a body, true exactly if the first command of the units is complete |
| Connection.IoData.ReadLine | v2/src/tstserver.c:666-710 | a stretch and its line end leave the chain |
| Connection.IoData.ReadParts | v2/src/tstserver.c:666-757 | line and body are exactly those stretches of the text, and the units lose exactly those octets |
| Connection.IoData.FixBufLen | v2/src/tstserver.c:806-818 | the recorded length becomes that of the units less exactly the octets of the command taken out, and the line state is reset |
| Connection.IoData.ReadCommand | v2/src/tstserver.c:837-842 | the command read is the first frame of the units, and the length again equals what they hold |
| Connection.IoData.NextCommand | v2/src/tstserver.c:834-848 | one turn of the loop: the first frame, or nothing while it is incomplete |
| Connection.IoData.HandleInput | v2/src/tstserver.c:820-848 | the commands handed on are those of the units held and the chunk, what stays is what is left of them, no unit is lost, and all that was ever handed on is what all chunks received amount to |
| Connection.IoData.Serve | v2/src/tstserver.c:891-928 | served chunk by chunk until the pool runs out, a connection hands on what the chunks amount to, which is the commands of the stream unless a line end is hidden or a cut leaves a lone newline |
| Connection.IoData.AppendSendData | v2/src/tstserver.c:539-572 | the output stream grows by the reply and the input side is untouched |
| Connection.IoData.HandleOutput | v2/src/tstserver.c:858-888 | sent octets followed by queued ones are what was queued before |
| Connection.IoData.Destroy | v2/src/tstserver.c:156-170 | both chains return to the pool, and only they |
| EventLoop.HeldOnce | v2/src/buffer_pool.c:6-63 | over connections that share no chain, a unit is listed once if one of their chains owns it and else not at all |
| EventLoop.Undisturbed | v2/src/tstserver.c:514-572 | an operation on one connection's chain changes neither stream of another connection |
| EventLoop.Worker.EveryUnitOnce | v2/src/buffer_pool.c:6-63 | between operations each unit of the pool is on the free list once or in one chain of one connection once: none is leaked, shared or freed twice |
| EventLoop.Worker.constructor | v2/src/buffer_pool.c:6-25 | a worker starts with no connection and every unit free |
| EventLoop.Worker.ServedFaithfully | v2/src/tstserver.c:891-928 | after any sequence of operations each connection has handed on what the chunks it received amount to, and what it sent and has queued is all its replies |
| EventLoop.Worker.Accept | v2/src/tstserver.c:100-117 | a new connection starts with an empty history and disturbs none |
| EventLoop.Worker.Input | v2/src/tstserver.c:916-917 | a readable connection hands on the commands of the units it holds and the chunk and keeps the rest; all other streams and the accounting of units are kept |
| EventLoop.Worker.Reply | v2/src/tstserver.c:539-572 | a reply joins that connection's output stream and no other |
| EventLoop.Worker.Output | v2/src/tstserver.c:919-920 | a writable connection sends the front of its output stream; the rest stays queued and nobody else's stream changes |
| EventLoop.Worker.Release | v2/src/tstserver.c:156-170 | all units of a destroyed connection are free again and it owns none |
| EventLoop.Worker.Close | v2/src/tstserver.c:499-510 | the connection goes, exactly its units become free, and the remaining connections keep their streams |
| Wire.LineWords | v2/src/client/pytst.py:1070-1070 | splitting a printed line gives its words |
| Wire.FirstItemFramed | v2/src/tstserver.c:834-842 | the first frame of a request is its first item, whatever the body holds |
| Wire.CasFramed | v2/src/tstserver.c:643-648 | so is a cas, for any key, numbers, body within the limit and sign |
| Wire.LineFramed | v2/src/tstserver.c:650-652 | a line that is neither a set nor a cas, or has too few words for one, is a command by itself |
| Wire.NegativeFramed | v2/src/tstserver.c:637-638 | a negative length is taken as 0 |
| Wire.OversizedSpills | v2/src/tstserver.c:639-640 | of a body past 1000000 octets so many are taken, and what follows is framed as a command |
| Wire.LinesPrinted | v2/src/client/pytst.py:783-788 | a set and a cas line, literally |
| Wire.SetMultiFramed | v2/src/client/pytst.py:683-696 | the commands framed from set_multi's request are the items it was made of |
| Wire.SetMultiVisible | v2/src/client/pytst.py:683-696 | no line end of the request is hidden, whatever the bodies hold |
| Wire.SetMultiArrives | v2/src/client/pytst.py:683-696 | however the network cuts the request, the server hands on its items and holds nothing back |
| Client.Host.ReadLine | v2/src/client/pytst.py:1230-1246 | the line up to the first line end of the remaining stream, whatever the receives |
| Client.Host.Recv | v2/src/client/pytst.py:1254-1265 | exactly n octets of the remaining stream, or none if it ends before |
| Client.ReadValue | v2/src/client/pytst.py:1065-1085 | a value line and its length-counted block give back the entry printed |
| Client.GetMulti | v2/src/client/pytst.py:1028-1037 | the entries recovered are those cmd_do_get printed, even when bodies contain line ends or END |
| Client.Gets | v2/src/client/pytst.py:890-923 | gets recovers the entry with the very sign the server printed, or nothing |
| Client.ReadNumber | v2/src/client/pytst.py:484-488 | incr and decr recover the new number, or nothing |
| Client.ReadStored | v2/src/client/pytst.py:790-792 | set and cas tell STORED from EXISTS |
| Client.LinesPrinted | v2/src/cmd_process.c:198-202 | a VALUE line without and with its sign, literally |
| Client.KeysLinePrinted | v2/src/cmd_process.c:72-72 | a KEYS line, literally: how many keys, and how many octets they take |
| Client.SplitLines | v2/src/client/pytst.py:872-874 | splitting a key listing gives its keys and one empty string |
| Client.ReadKeys | v2/src/client/pytst.py:855-874 | the keys recovered are those the server listed |
| Requests.SetRead | v2/src/cmd_process.c:284-288 | the set line the client prints is read as that key, flags, time and body |
| Requests.CasRead | v2/src/cmd_process.c:233-236 | so is the cas line, with its sign |
| Requests.DeleteRead | v2/src/cmd_process.c:329-330 | a delete is read as its key, with or without a time |
| Requests.IncrRead | v2/src/cmd_process.c:367-368 | incr is read as its key and delta |
| Requests.DecrRead | v2/src/cmd_process.c:384-387 | decr as its key and the negated delta |
| Requests.GetRead | v2/src/cmd_process.c:168-213 | get is read as its keys in order, as they stand between single blanks; where two blanks meet the key is empty |
| Requests.GetsRead | v2/src/tstserver.c:779-782 | so is gets, which is tested for before get, and asks for signs |
| Requests.LessRead | v2/src/cmd_process.c:92-98 | less is read as its key and its limit, at most 10000 |
| Requests.GreaterRead | v2/src/cmd_process.c:121-127 | so is greater |
| Requests.PrefixRead | v2/src/cmd_process.c:59-69 | so is prefix, descending unless the order is asc |
| Requests.OthersRead | v2/src/tstserver.c:798-803 | quit closes, and a line that begins like no command is an ERROR |
| Requests.SetMultiRead | v2/src/cmd_process.c:284-299 | however the network cuts set_multi's request, the server reads the very items sent, key, flags, time and body, and stores that flag, expiry and body |
| Requests.ItemAccepted | v2/src/client/pytst.py:1113-1139 | what the client lets through and fits an int is what the workers accept |
| Requests.KeyAccepted | v2/src/tst.h:4-4 | keys are accepted if and only if they are shorter than 256 octets |
| Requests.ValuesPrinted | v2/src/cmd_process.c:196-217 | the reply of a get is printed as the text the client takes apart |
| Requests.SignedPrinted | v2/src/cmd_process.c:200-203 | the reply of gets carries the entry's offset as its sign |
| Requests.KeysPrinted | v2/src/cmd_process.c:71-75 | a listing of these keys is printed as the text the client takes apart |
| Requests.CountPrinted | v2/src/cmd_process.c:411-416 | incr and decr are answered with the number now stored, or with NOT_FOUND for a missing key |
| Requests.DeletePrinted | v2/src/cmd_process.c:337-353 | delete is answered DELETED if the key was there and NOT_FOUND otherwise |
| Requests.StoredPrinted | v2/src/cmd_process.c:270-272 | set and cas lines as the client prints them are answered, and with noreply added they are not |
| Requests.SetThenGot | v2/src/client/pytst.py:1028-1037 | a get of keys that have been set and not touched since is answered with the text from which the client recovers each key, flags and body |

## Left out

- Sockets, epoll, the accept loop, signals, logging and options; a receive is a chunk of at most 512 octets, a send an accepted count.
- Send errors (`ct < 0` in `handle_output`), the reuse of a descriptor while its old connection is being closed, and the `quit` command, which closes the connection.
- stdio buffering, fsync and short writes other than a torn tail at a crash: a flush makes a whole record durable.
- Guarantees.NoOverlap: the lock protocol is modelled with locks that are simply free or held; scheduling and writer preference of the readers-writer lock are not.
- Workers: the index is a map in the state machine; the step that changes it stands for the whole of tst_put or tst_delete, which `TstDb` models in place, and a listing is the set of keys in range, whose order and limit `KeyScan` covers. Commands are steps over values rather than methods, because what is proved about them is their interleaving.
- TstIndex.TstDb.Reload: the octets of the index file are not modelled; the struct and the array arrive as the values that were dumped.
- Recovery.Restart: the snapshot is a value for the same reason, and the deletion as it stands is covered for the same logs as in Binlog.ReplayBinlog.
- TstIndex.TstDb.Delete: what the deletion as it stands does from an array in which a node on the key's path does not name its parent is shown by example only (`TreeRuns.LostParentCorruptsFreeList`).
- TreeRuns.RunHistory: applies the repaired deletion only; `TstDb.Put` and `TstDb.Delete` say what one deletion as it stands keeps.
- Binlog.ReplayBinlog: the deletion as it stands is covered for logs none of whose deletions joins two subtrees; that a later insertion sets parent indices right again is not used to allow more.
- Guarantees.ListingIsCurrent: the listing is an unordered set taken in one step; order and limit are KeyScan's.
- Keys and queries with octets from 128 on, where `char` is signed.
- TreeRuns.HistoryRefinesMap: is about the tree as a value, for any arena at each insertion; TreeRuns.RunHistory is the same on the array.
- Expiry: the clock is a parameter of set, and a get may find any value that can expire expired.
- EventLoop.Worker.ServedFaithfully: a worker's run is any sequence of the class's operations, each of which keeps Valid; epoll's choice of events is not modelled.
- `sscanf` on malformed lines, bodies longer than the 512-octet number buffer in incr and decr, and result buffers that overflow. Keys fit MAX_KEY_SIZE where the code copies them into such a buffer.
- uint32 node indices, `int` file positions in replay_binlog and allocation failure: indices and positions are unbounded.
- Connection.IoData.HandleInput: replies are not appended while the loop runs; AppendSendData leaves the input side untouched, so the order does not matter.
- Requests.SetRead: the clock is a parameter; that lines are read as blank-separated words is exact for well-formed lines, and a get without a blank behind its name reads past the line's end.
- Client: value decoding (pickle, compression, integers), server hashing, key prefixes and dead-host handling; values are the octets received.
- Version 1, an insert-only form of the same tree.
