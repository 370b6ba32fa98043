# unfsclient: a verified model of its core

unfsclient is a user-space NFS version 3 client. This project models the parts of it that carry
the hard invariants and proves what they promise, for all inputs, all runs and all reachable
states.

| files | what they model |
|---|---|
| `HashFunctions.dfy` | the CRC and one-at-a-time hashes of `src/hash_functions.c`, bit by bit |
| `TableSpec.dfy`, `TableRuns.dfy`, `TableMap.dfy`, `TableBounded.dfy` | the hash table of `src/hash_table.c` as a value, and what holds over every run of its operations |
| `HashTable.dfy` | the same table with its linked entries, arrays and counters updated in place; every method is proved to do what the operation of `TableSpec` does |
| `RecordMarking.dfy`, `RecordWriter.dfy`, `RecordCuts.dfy`, `RecordReader.dfy` | reassembly of RPC records from a TCP stream (section 10 of RFC 1831), as a state machine, against the stream a sender writes, over all cuts of a stream into reads, and as the class that updates its buffers |
| `RpcCalls.dfy`, `RpcPending.dfy`, `RpcClient.dfy`, `RpcRuns.dfy` | transaction ids, the table from ids to callbacks, the pending count; the class works on the hash table, record reader and send queue classes |
| `SendQueue.dfy` | the send queue with partial writes |
| `FList.dfy`, `RequestQueue.dfy` | the circular list of `include/flist.h`, and the semaphore-and-mutex request queues built on it, as interleaved atomic steps of any number of threads |
| `Xdr.dfy`, `Nfs3.dfy`, `Nfs3Layouts.dfy` | the XDR codec: a schema language with one encoder and one decoder, the NFS and MOUNT messages as schemas, and the bytes of each message |
| `Base.dfy` | sequences, powers of two and masks |

## Where the code and its intent differ

`RecordMarking.dfy` holds two variants of the record machine. `Intended` does what the comments
in `src/clnt_tcp_nb.c:127-131` and `159-170` promise, `AsWritten` does what the code does. The
code copies a marker that arrives in pieces to offset 0 each time (line 556), and forgets the
size collected so far after every fragment, not only the last
(line 716 with `include/clnt_tcp_nb.h:94-98`). `IntendedYieldsRecords` is the full theorem for
the intended machine. For the code as written, two conditions on the bytes and the cuts decide:

- `MarkersRight`: every marker that arrives in pieces is still spelled right. `MarkersRightIff`
  says that this is exactly when the code hands up the right number of records after every part
  of the stream that does not end inside a marker, whatever the next read brings. Every cut
  outside the markers is of this kind.
- `Undivided`: no record that is handed up has bytes before its last fragment.
  `AsWrittenYieldsRecordsIff` says that, with the markers right, the records handed up are those
  of the parser exactly when this holds.

Once a marker is misread the code parses from a wrong place in the stream, and whether it happens
to hand up the right records on one given stream depends on every byte from there on;
`MisreadMarkerShows` gives a next read on which it does not. Two more lemmas give concrete
failing streams. In both variants an empty last fragment at the very end of what was read is
handed up only with the next byte; `Withheld` is that record.

Other promises that turned out to need a condition:

- a rehash stops at the first entry that stores a NULL pointer, so it keeps everything exactly
  when there is none (`RehashKeepsAllIffNoNull`);
- a full bucket gives up its oldest entry, over all runs, exactly when no search heuristic is
  set (`EvictsOldestIffNoHeuristic`);
- the pending count is the size of the id table throughout a run exactly when each call encodes
  if and only if no open call has its id, and each record read answers an open call
  (`PendingIsTableIff`); it stays at zero or above exactly when no receive hands up more records
  than are pending (`PendingNeverNegativeIff`), and `PendingCanGoNegative` is a run that does not;
- a message comes back from its encoding exactly when it is well formed
  (`RoundTripIffWellFormed`). In particular a boolean `set_it` other than 0 and 1 is written as 1
  without its value, and the reader takes the next field for it (`UnclearSetItShiftsFields`);
- the PATHCONF shortcut through the buffer reads and writes what the field-by-field path does
  exactly when the flags are 0 or 1 (`DecodePathconf3resok`, `PathconfEncodersAgree`).

## What the model takes as given

Pointers stored in the table are numbers with 0 for NULL. `read` and `write` results are scripts
that the theorems range over. Parsing the RPC reply header is an arbitrary function from a record
to an id or a failure. `sem_wait` returns only after it took a unit. Callbacks do not call back
into the handle or the table.

## Model

| member | source | states |
|---|---|---|
| HashFunctions.OneAtATimeHash | src/hash_functions.c:72-90 | the byte loop and the finishing steps compute the composition of rounds that the lemmas below speak about |
| HashFunctions.OneAtATimeInArithmetic | src/hash_functions.c:72-90 | the state starts at 0; a byte is added, the sum times 1025 is xored with itself shifted by 6; at the end the state times 9 is xored with itself shifted by 11 and multiplied by 32769 |
| HashFunctions.OneAtATimeOfFew | src/hash_functions.c:72-90 | the hash of no bytes is 0 and that of the letter a is 0xCA2E9442 |
| HashFunctions.RoundInverse | src/hash_functions.c:79-84 | a round with a known byte can be undone, so each is a bijection on 32-bit words |
| HashFunctions.FinishInverse | src/hash_functions.c:85-87 | so can the three finishing steps |
| HashFunctions.RoundsInjective | src/hash_functions.c:72-90 | the whole byte loop keeps different states apart, for keys of any length |
| HashFunctions.OneByteChangeChangesHash | src/hash_functions.c:72-90 | keys that agree except in one byte have the same hash exactly when that byte agrees too |
| HashFunctions.CrcHash | src/hash_functions.c:96-109 | the table-driven loop returns the complement of the remainder of long division of the key's bits and 32 zeros by the generator, from a start remainder that stands for the all-ones preload |
| HashFunctions.TableIsDivision | src/hash_functions.c:30-64 | each of the 256 table entries is eight division steps of its index |
| HashFunctions.TableStepIsEightBits | src/hash_functions.c:103-108 | a table step is the shift register fed the eight bits of the byte, highest first |
| HashFunctions.TableStepsAreRegister | src/hash_functions.c:96-109 | the loop over a key is the register fed all its bits |
| HashFunctions.RegisterIsRemainder | src/hash_functions.c:96-109 | the register always holds the long-division remainder carried 32 places on |
| HashFunctions.CrcIsLongDivision | src/hash_functions.c:96-109 | the table loop from all ones is long division of the key followed by 32 zeros |
| TableSpec.CreateSize | src/hash_table.c:300-357 | the table size is the least power of two at or above the request |
| TableSpec.BucketIsRemainder | src/hash_table.c:432-438 | the bucket, hash and mask, is the remainder of the hash by the table size |
| TableSpec.LinkedWF | src/hash_table.c:454-491 | linking a new record keeps both lists over the same unique keys, each chain in its own bucket |
| TableSpec.UnlinkedWF | src/hash_table.c:126-157 | unlinking keeps the same, and takes exactly that record out of the age order |
| TableSpec.LinkOrEvictWF | src/hash_table.c:440-491 | so does inserting into a bucket that is full |
| TableSpec.InsertAllAppends | src/hash_table.c:783-795 | refilling an unbounded table never meets a duplicate and keeps the order |
| TableSpec.RehashKeeps | src/hash_table.c:764-827 | a rehash keeps the order and data of all entries before the first NULL one, the settings and consistency, at the size requested |
| TableSpec.RehashKeepsAllIffNoNull | src/hash_table.c:764-827 | it keeps every entry exactly when none stores NULL |
| TableSpec.InsertWF | src/hash_table.c:409-494 | insert keeps the table consistent, and reports a duplicate exactly for a key that is stored |
| TableSpec.ReorderPermutes | src/hash_table.c:57-124 | transpose and move-to-front permute the chain |
| TableSpec.ReorderPlaces | src/hash_table.c:57-124 | transpose exchanges the entry hit with the one before it; move-to-front puts it first and shifts those before it; all others stay in place |
| TableSpec.TouchWF | src/hash_table.c:160-188 | a lookup with a heuristic keeps consistency and leaves the age order alone |
| TableSpec.ReplaceWF | src/hash_table.c:521-550 | replace changes one data pointer and no order |
| TableSpec.RemoveFirstIsRemoveOfOldest | src/hash_table.c:629-655 | removing the first entry is removing the oldest key |
| TableRuns.StepWF | src/hash_table.c:300-827 | every operation keeps keys unique, both lists over the same entries and each key in its own bucket |
| TableRuns.RunRefinesOrderedMap | src/hash_table.c:300-827 | over every run without NULL data and bucket limits, under any heuristics and resizing, contents and all results are those of an insertion-ordered map |
| TableMap.RunIsMap | src/hash_table.c:300-827 | over the same runs, the table stands for a finite map with the order of insertion, each operation being the map operation: insert adds the pair, replace updates it, get and remove look it up |
| TableMap.OperationIsMap | src/hash_table.c:497-762 | on any table, whatever its data, limit and heuristic, get, replace, remove, remove-first and remove-all do to that map what they say, results included |
| TableMap.GetAfterReplace | src/hash_table.c:521-550 | what a replace stores is what a get of that key returns; other keys keep their data |
| TableBounded.RunRefinesBoundedMap | src/hash_table.c:300-827 | over every run without search heuristics, with any bucket limit, resizing and data, contents, order, evictions and results are those of an ordered map that drops the oldest record of a full bucket |
| TableBounded.NewTableRefinesBoundedMap | src/hash_table.c:300-357 | in particular over every such run on a new table of any size |
| TableRuns.HeuristicsAreInvisible | src/hash_table.c:57-124 | two runs that differ only in the heuristics set give the same results, age order, and bucket lengths |
| TableRuns.RehashNewestFirst | src/hash_table.c:764-827 | after a rehash each chain is the age list filtered to its bucket and reversed |
| TableRuns.RunNewestFirst | src/hash_table.c:126-157 | without heuristics this holds in every reachable state |
| TableRuns.EvictionEffect | src/hash_table.c:440-491 | eviction takes one entry of the same bucket, never the new one, reports it, and leaves the bucket as long as it was |
| TableRuns.EvictionTakesOldest | src/hash_table.c:440-491 | with chains newest first, the entry evicted is the oldest of its bucket |
| TableRuns.EvictionAfterLookup | src/hash_table.c:57-124 | one lookup of the older of two entries makes the newer one the victim under either heuristic |
| TableRuns.EvictsOldestIffNoHeuristic | src/hash_table.c:440-491 | over all runs that leave the heuristic alone, evictions always take the oldest of the bucket if and only if no heuristic is set |
| TableRuns.SettingIsStarting | src/hash_table.c:373-376 | a run that first sets a heuristic is the run that starts with it |
| TableRuns.RehashKeepsBucketLimit | src/hash_table.c:764-827 | when the table does not shrink, a new bucket draws from one old bucket and is no longer than it |
| TableRuns.GrowthLedger | src/hash_table.c:432-438 | over every run the entries moved by automatic rehashes are fixed by how often the table doubled, and doubling needs that many insertions |
| TableRuns.AutomaticRehashCost | src/hash_table.c:432-438 | from an empty table, at most 2 * size + 1 entries are stored in every reachable state, and n successful insertions move at most 3n entries |
| HashTable.UnlinkChain | src/hash_table.c:126-140 | taking an entry out of its doubly linked chain leaves the chain without it |
| HashTable.TransposeUp | src/hash_table.c:57-94 | swapping an entry with its predecessor relinks the chain to the swapped sequence |
| HashTable.MoveFirst | src/hash_table.c:97-123 | moving an entry to the front relinks the chain to that sequence |
| HashTable.LinkNewest | src/hash_table.c:479-491 | an entry appended to the age list is its last |
| HashTable.UnlinkAge | src/hash_table.c:142-157 | an entry taken out of the age list leaves it without it, ends included |
| HashTable.Ght.constructor | src/hash_table.c:300-357 | a new table is valid and empty, of the size rounded up |
| HashTable.Ght.RemoveFromChain | src/hash_table.c:126-157 | both lists lose exactly the entry |
| HashTable.Ght.Find | src/hash_table.c:160-188 | the walk along a chain finds the entry with the key, or there is none |
| HashTable.Ght.Insert | src/hash_table.c:409-494 | on linked entries, arrays and counters, insert does what the specification does, growth and eviction included |
| HashTable.Ght.Get | src/hash_table.c:497-518 | get returns the stored pointer and reorders its chain as the specification says |
| HashTable.Ght.Replace | src/hash_table.c:521-550 | replace returns the old pointer and stores the new one |
| HashTable.Ght.Remove | src/hash_table.c:554-594 | remove returns the pointer and takes the entry out of both lists and counters |
| HashTable.Ght.RemoveFirst | src/hash_table.c:629-655 | the oldest entry is taken out |
| HashTable.Ght.First | src/hash_table.c:596-619 | iteration starts at the oldest entry and remembers the next |
| HashTable.Ght.Next | src/hash_table.c:664-690 | a step goes to the remembered entry |
| HashTable.Ght.CopyTo | src/hash_table.c:783-795 | the copy loop of a rehash inserts the entries into the temporary table up to the first NULL one |
| HashTable.Ght.Rehash | src/hash_table.c:764-827 | rehash takes over the lists of the temporary table, as specified |
| HashTable.Ght.RemoveAll | src/hash_table.c:706-762 | all buckets, counters and lists are emptied |
| HashTable.Ght.VisitRemoving | src/hash_table.c:596-690 | for every schedule of removals among the entries already met, the loop visits each entry up to the first NULL one exactly once, oldest first, and stops; left are the entries not removed, in order |
| RecordMarking.PassProgress | src/clnt_tcp_nb.c:721-762 | every pass of the loop consumes at least one byte, and no more than there are |
| RecordMarking.IntendedYieldsRecords | src/clnt_tcp_nb.c:537-762 | for every stream and every way of cutting it into reads, the intended machine hands up the records of a one-shot parser, in order |
| RecordWriter.RecordsOfWire | src/clnt_tcp_nb.c:127-170 | the one-shot parser gives back the records a sender marks, however divided into fragments |
| RecordWriter.WrittenRecordsArrive | src/clnt_tcp_nb.c:537-762 | so does the intended receiver, however that stream is cut into reads |
| RecordMarking.PassAgreesIffClean | src/clnt_tcp_nb.c:537-762 | a pass of the code as written does what is intended exactly when the four bytes of a continued marker come out the same and no unfinished record with bytes is filed |
| RecordCuts.AsWrittenYieldsRecordsIff | src/clnt_tcp_nb.c:537-762 | on every stream and cut whose markers are spelled right, the code hands up the parser's records if and only if no record handed up has bytes before its last fragment, and then it does not overrun |
| RecordCuts.UnsplitYieldsRecordsIff | src/clnt_tcp_nb.c:537-762 | the same equivalence, for the records and for all deliveries, on every cut where no read but the last ends inside a marker |
| RecordCuts.UnsplitMarkersRight | src/clnt_tcp_nb.c:537-580 | such cuts spell every marker right |
| RecordCuts.MisreadMarkerShows | src/clnt_tcp_nb.c:537-580 | wherever a marker is misread, some next read makes the code hand up another number of records than intended |
| RecordCuts.MarkersRightIff | src/clnt_tcp_nb.c:537-580 | the markers are spelled right if and only if, after every part that does not end inside a marker and for every next read, the number of records handed up is right |
| RecordMarking.SplitMarkerLosesRecord | src/clnt_tcp_nb.c:537-580 | a marker that arrives in two reads: nothing is handed up |
| RecordMarking.SecondFragmentOverruns | src/clnt_tcp_nb.c:684-718 | a record of two fragments: a cut record is handed up and the copy runs over its buffer |
| RecordMarking.DividedRecordIsCut | src/clnt_tcp_nb.c:583-611 | for a record with bytes before its last fragment the code hands up as many bytes from its front as the last fragment has, and overruns |
| RecordReader.Reader.Copy | src/clnt_tcp_nb.c:721-745 | the copy into the fragment buffer, as in the state machine |
| RecordReader.Reader.Collate | src/clnt_tcp_nb.c:583-611 | the fragments are joined in order into one buffer of the recorded size |
| RecordReader.Reader.ReadMarker | src/clnt_tcp_nb.c:537-580 | the marker bytes are placed and, once there, read as size and last bit |
| RecordReader.Reader.Finish | src/clnt_tcp_nb.c:684-718 | a finished fragment is kept or its record handed up, and the reader is reset |
| RecordReader.Reader.Feed | src/clnt_tcp_nb.c:721-762 | the consuming loop over one read leaves the state and hands up the records of the state machine |
| RpcCalls.IdsRepeatOnlyAfterWrap | src/clnt_tcp_nb.c:466-477 | two calls get the same table key exactly when they are a multiple of 2^32 calls apart |
| RpcCalls.WordCountsDown | src/clnt_tcp_nb.c:464-467 | the id word counts down: after n calls, adding n gives the first word back, modulo 2^32 |
| RpcCalls.ShortcutIsRemoval | src/clnt_tcp_nb.c:647-660 | trying the oldest entry first gives the callback and table of a plain removal by id |
| RpcCalls.CallbacksRunOnce | src/clnt_tcp_nb.c:446-682 | in every run each callback runs at most once, only with its own id, and not while still in the table |
| RpcCalls.PendingCount | src/clnt_tcp_nb.c:446-494 | in every run the pending count differs from the table size by exactly refused less failed calls less unmatched records |
| RpcPending.PendingIsTableIff | src/clnt_tcp_nb.c:446-494 | count and table size agree after every event of a run if and only if each call encodes exactly when no open call has its id and each record read answers an open call |
| RpcPending.PendingNeverNegativeIff | src/clnt_tcp_nb.c:906-937 | the count is at least zero after every event if and only if no receive hands up more records than are pending |
| RpcPending.NothingRefusedBeforeWrap | src/clnt_tcp_nb.c:466-477 | in a run of at most 2^32 calls the table refuses none |
| RpcCalls.PendingCanGoNegative | src/clnt_tcp_nb.c:906-937 | one call and two unmatched records leave the count at -1 |
| RpcCalls.RefusedOnlyAfterWrap | src/clnt_tcp_nb.c:469-477 | the table refuses a call exactly when a call a multiple of 2^32 calls older is outstanding |
| RpcClient.ReadLoopFeedsPrefix | src/clnt_tcp_nb.c:765-819 | the read loop feeds a prefix of what can be read, at least one read if there is any and exactly one when told to read once; it stops with the first read that completes a record |
| RpcClient.CallTable.Call | src/clnt_tcp_nb.c:446-494 | a call decrements the id word, registers its callback and counts, on the hash table class |
| RpcClient.CallTable.Dispatch | src/clnt_tcp_nb.c:613-682 | a parsed record takes its callback out of the hash table through the oldest-first shortcut, and the callback recorded as run is the pointer taken out, or none |
| RpcClient.CallTable.DispatchAll | src/clnt_tcp_nb.c:613-682 | the callbacks run for several records are the pointers taken out, in order |
| RpcClient.CallTable.Answer | src/clnt_tcp_nb.c:906-937 | the records of one read loop are dispatched in order and taken off the pending count |
| RpcClient.Handle.ReadRecords | src/clnt_tcp_nb.c:765-819 | the read loop leaves the reader and hands up what the specification says |
| RpcClient.Handle.Receive | src/clnt_tcp_nb.c:906-937 | the send queue is flushed as the flag says; nothing is read while no call is pending or reading is switched off; otherwise what was read is parsed, dispatched and counted, and the callbacks run are returned |
| RpcRuns.RunDispatchesRecords | src/clnt_tcp_nb.c:446-937 | over every run of calls and receives with the intended reader, the records dispatched are those of the one-shot parser on all bytes read, and callbacks, id table and pending count are what dispatching them gives |
| RpcRuns.ReceiveReads | src/clnt_tcp_nb.c:906-937 | a receive with calls pending takes a prefix of the reads offered, and at least one |
| SendQueue.SendConserves | src/clnt_tcp_nb.c:828-904 | bytes accepted followed by bytes still queued are the bytes that were queued, and a blocking flush that returns 0 leaves nothing |
| SendQueue.NonblockingReturns | src/clnt_tcp_nb.c:828-904 | a non-blocking flush returns after at most one write for each buffer |
| SendQueue.NonblockingSend | src/clnt_tcp_nb.c:828-904 | a non-blocking flush takes whole buffers up to the first write that is not whole, which ends it: 0 after a short write or EAGAIN with the rest kept, -1 after an error |
| SendQueue.BlockingSend | src/clnt_tcp_nb.c:828-904 | a blocking flush returns 0 exactly with the list empty, -1 exactly at the first error, waits otherwise, and every write of bytes makes progress |
| SendQueue.RunConserves | src/clnt_tcp_nb.c:500-962 | over every run of queueing and flushing the bytes are conserved in order and the transmit counter is the number accepted |
| SendQueue.NothingLostOrAdded | src/clnt_tcp_nb.c:500-962 | from an empty queue, accepted then queued bytes are the bytes passed to the writes of the run |
| SendQueue.Sender.AddBuffer | src/clnt_tcp_nb.c:500-535 | a copy of the buffer joins the end of the queue |
| SendQueue.Sender.SendBuffers | src/clnt_tcp_nb.c:828-904 | the draining loop leaves the queue and counter of the specification for every script of write results |
| SendQueue.Sender.WriteTcp | src/clnt_tcp_nb.c:940-962 | a write queues its bytes and flushes without blocking; it returns the length exactly when the flush ends with 0, and -1 exactly when it ends with an error |
| FList.AddBetween | include/flist.h:44-52 | inserting between neighbours keeps the ring, with the entry at that place |
| FList.AddTail | include/flist.h:68-72 | the entry becomes the last |
| FList.AddFirst | include/flist.h:62-66 | the entry becomes the first |
| FList.DelBetween | include/flist.h:81-86 | joining the neighbours of an entry keeps the ring without it |
| FList.Del | include/flist.h:94-99 | the entry is out of the ring and its pointers are cleared |
| FList.Empty | include/flist.h:115-118 | the test is true exactly of the empty ring |
| FList.Drain | include/flist.h:143-145 | the safe loop with every entry deleted on the way meets each entry once, in order |
| RequestQueue.StepInv | src/nfscd_ops.c:295-358 | every atomic step of every thread keeps mutual exclusion, the count, the order and distinctness |
| RequestQueue.DequeueFindsEntry | src/nfscd_ops.c:295-308 | a dequeue that has the lock finds an entry |
| RequestQueue.Safety | src/nfscd_ops.c:295-358 | in every reachable state one thread at most is in the critical section, no dequeue met an empty list, and what was linked in is what was handed out, then what the holder has, then the list |
| RequestQueue.NoRequestLost | src/nfscd_ops.c:295-358 | in every reachable state the requests passed to enqueue calls are, with multiplicity, those handed out, taken, listed or on their way; every dequeue call has returned a request or is under way |
| RequestQueue.AllAccountedAtRest | src/nfscd_ops.c:295-358 | with all calls ended, what was passed in is what was handed out and what is listed, and each dequeue returned one |
| RequestQueue.EnqueueCall | src/nfscd_ops.c:330-342 | a call with nothing in its way appends its request and posts one unit |
| RequestQueue.DequeueCall | src/nfscd_ops.c:295-310 | a call with nothing in its way takes one unit and returns the first request |
| RequestQueue.SemaphoreCountsList | src/nfscd_ops.c:70-83 | while the lock is free and no dequeue is under way the semaphore is the length of the list |
| RequestQueue.QuietMeansDone | src/nfscd_ops.c:295-358 | when no thread can go on, all calls have ended except dequeues waiting for an empty list |
| RequestQueue.CallsEnd | src/nfscd_ops.c:295-358 | however they are scheduled, the calls under way take exactly the steps they have left, so they end, and then everything linked in was handed out or nobody waits |
| RequestQueue.RequestList.Link | src/nfscd_ops.c:330-342 | on the linked list, the enqueue step appends the request |
| RequestQueue.RequestList.First | src/nfscd_ops.c:304-305 | the dequeue step takes the request at the front |
| RequestQueue.RequestList.Del | src/nfscd_ops.c:306-306 | and unlinks that request |
| Xdr.RoundTrip | src/nfsv3/nfs3_xdr.c:31-1798 | every well-formed value of every schema is encoded, and decoding it before any bytes gives the value and those bytes |
| Xdr.DecodedIsWellFormed | src/nfsv3/nfs3_xdr.c:31-1798 | what is decoded from any bytes is well formed and took a whole number of words |
| Xdr.RoundTripIffWellFormed | src/nfsv3/nfs3_xdr.c:31-1798 | exactly the well-formed values come back from their encoding |
| Xdr.DecodeEncodeDecode | src/nfsv3/nfs3_xdr.c:31-1798 | what is decoded can be encoded again and then decodes to the same |
| Xdr.EncodingIsPrefixFree | src/nfsv3/nfs3_xdr.c:31-1798 | encodings of two values of a schema can be told apart, whatever follows |
| Xdr.EncodedInWords | src/nfsv3/nfs3_xdr.c:31-1798 | every encoding is a multiple of four bytes, of malformed values too |
| Xdr.OpaqueBytes | src/nfsv3/nfs3_xdr.c:95-117 | opaque data is written as its bytes and zeros up to the next multiple of four |
| Xdr.CountedRead | src/nfsv3/nfs3_xdr.c:63-77 | on reading, padding is skipped whatever it holds, and a string ends at its first NUL |
| Xdr.ListTakesMinSize | src/nfsv3/nfs3_xdr.c:1266-1288 | a chain of n entries takes at least the links, the least size of each entry, and the end mark |
| Xdr.DecodeIsExact | src/nfsv3/nfs3_xdr.c:31-1798 | a decoder reads a prefix of its bytes and gives the same value whatever comes after that prefix |
| Nfs3.Fattr3Layout | src/nfsv3/nfs3_xdr.c:211-240 | attributes are read from exactly 84 bytes, each field at its RFC 1813 offset, and fail on fewer |
| Nfs3.CreateHowModes | src/nfsv3/nfs3_xdr.c:817-836 | the three create modes and no others are encoded and decoded, each with its own body |
| Nfs3.MknodOtherTypes | src/nfsv3/nfs3_xdr.c:1002-1022 | types mknod does not know go without a body in both directions |
| Nfs3.UnclearSetItShiftsFields | src/nfsv3/nfs3_xdr.c:327-373 | a flag other than 0 and 1 is sent as 1 without a value, and the reader takes the next four bytes for it |
| Nfs3.OptionalRefusesUnclearFlag | src/nfsv3/nfs3_xdr.c:243-317 | the optional attributes and handles refuse such a flag |
| Nfs3.ReadShortcutAgrees | src/nfsv3/nfs3_xdr.c:695-738 | a READ reply decodes in full exactly when it decodes without its data and the data follow; the other fields are the same |
| Nfs3.WriteShortcutAgrees | src/nfsv3/nfs3_xdr.c:748-767 | the same for WRITE arguments |
| Nfs3.DecodePathconf3resok | src/nfsv3/nfs3_xdr.c:1568-1592 | reading the flags through the buffer accepts the same bytes as the field path, and gives the same exactly when the four words after the head are 0 or 1 |
| Nfs3.PathconfEncodersAgree | src/nfsv3/nfs3_xdr.c:1542-1566 | writing them through the buffer gives the same bytes exactly on flags 0 and 1 |
| Nfs3.DirlistTakes | src/nfsv3/nfs3_xdr.c:1266-1288 | a directory list of n entries took at least 24n + 8 bytes |
| Nfs3.DirlistplusTakes | src/nfsv3/nfs3_xdr.c:1344-1370 | with attributes and handles, at least 32n + 8 bytes |
| Nfs3.ReaddirplusRoundTrip | src/nfsv3/nfs3_xdr.c:1344-1382 | a READDIRPLUS reply of any length comes back from its encoding exactly when its numbers, names, handles and verifier fit |
| Nfs3.ExportsRoundTrip | src/nfsv3/nfs3_xdr.c:1762-1798 | so do the nested lists of exports and groups |
| Nfs3.WriteLayout | src/nfsv3/nfs3_xdr.c:748-767 | the bytes of WRITE arguments, in the order of section 3.3.7 of RFC 1813 |
| Nfs3.Fattr3Written | src/nfsv3/nfs3_xdr.c:211-240 | attributes are written as 84 bytes, field by field in the order of section 2.3.5 of RFC 1813 |
| Nfs3.EntryLayout | src/nfsv3/nfs3_xdr.c:1344-1360 | the bytes of a READDIRPLUS entry, attributes included, in the order of section 3.3.17 of RFC 1813 |
| Nfs3Layouts.WccLayout | src/nfsv3/nfs3_xdr.c:261-299 | the bytes of attributes before and after a change |
| Nfs3Layouts.SattrLayout | src/nfsv3/nfs3_xdr.c:327-439 | the bytes of settable attributes, each after its flag, times after 0, 1 or 2 |
| Nfs3Layouts.ReadArgsLayout | src/nfsv3/nfs3_xdr.c:683-692 | READ and COMMIT arguments: handle, offset, count |
| Nfs3Layouts.SetattrArgsLayout | src/nfsv3/nfs3_xdr.c:483-511 | SETATTR arguments: handle, attributes, guard |
| Nfs3Layouts.CreateArgsLayout | src/nfsv3/nfs3_xdr.c:817-846 | CREATE arguments: directory, name, then 0 or 1 and attributes or 2 and the verifier |
| Nfs3Layouts.MkdirSymlinkArgsLayout | src/nfsv3/nfs3_xdr.c:886-952 | MKDIR and SYMLINK arguments in field order |
| Nfs3Layouts.MknodArgsLayout | src/nfsv3/nfs3_xdr.c:992-1032 | MKNOD arguments: types 3 and 4 with attributes and device, 6 and 7 with attributes, others bare |
| Nfs3Layouts.RenameLinkArgsLayout | src/nfsv3/nfs3_xdr.c:1156-1212 | RENAME and LINK arguments in field order |
| Nfs3Layouts.ReaddirArgsLayout | src/nfsv3/nfs3_xdr.c:1252-1341 | READDIR and READDIRPLUS arguments in field order |
| Nfs3Layouts.GetattrReplyLayout | src/nfsv3/nfs3_xdr.c:459-480 | GETATTR reply: status, attributes; the status alone on an error |
| Nfs3Layouts.LookupReplyLayout | src/nfsv3/nfs3_xdr.c:555-590 | LOOKUP reply: handle, object and directory attributes; on an error the directory's |
| Nfs3Layouts.AccessReadlinkReplyLayout | src/nfsv3/nfs3_xdr.c:603-680 | ACCESS and READLINK replies in field order |
| Nfs3Layouts.ReadReplyLayout | src/nfsv3/nfs3_xdr.c:695-737 | READ reply: attributes, count, end of file as 0 or 1, counted data; without the data when it is skipped |
| Nfs3Layouts.WriteCommitReplyLayout | src/nfsv3/nfs3_xdr.c:769-806 | WRITE and COMMIT replies in field order |
| Nfs3Layouts.NewObjectReplyLayout | src/nfsv3/nfs3_xdr.c:848-883 | CREATE, MKDIR, SYMLINK and MKNOD replies in field order |
| Nfs3Layouts.ChangeReplyLayout | src/nfsv3/nfs3_xdr.c:513-1249 | SETATTR, REMOVE, RMDIR, RENAME and LINK replies in field order |
| Nfs3Layouts.ReaddirReplyLayout | src/nfsv3/nfs3_xdr.c:1266-1325 | READDIR reply: attributes, verifier, entries each after a word 1, a word 0, end of file |
| Nfs3Layouts.ReaddirplusReplyLayout | src/nfsv3/nfs3_xdr.c:1344-1407 | READDIRPLUS reply, with attributes and handle in each entry |
| Nfs3Layouts.FsstatReplyLayout | src/nfsv3/nfs3_xdr.c:1418-1463 | FSSTAT reply in field order |
| Nfs3Layouts.FsinfoReplyLayout | src/nfsv3/nfs3_xdr.c:1474-1525 | FSINFO reply in field order |
| Nfs3Layouts.PathconfLayout | src/nfsv3/nfs3_xdr.c:1536-1607 | PATHCONF result: attributes, limits, four flags as words 0 or 1 |
| Nfs3Layouts.ExportsLayout | src/nfsv3/nfs3_xdr.c:1762-1798 | EXPORT list: path and nested groups, each entry after a word 1, a word 0 at every end |
| Nfs3Layouts.MountsLayout | src/nfsv3/nfs3_xdr.c:1742-1759 | mount list: host name and directory of each |
| Nfs3Layouts.MountReplyLayout | src/nfsv3/nfs3_xdr.c:1715-1740 | MNT reply: status, handle, number of flavours and each; the status alone on an error |

## Left out

- Integer widths of sizes and counters: table sizes, entry counts, the pending count and byte counters are unbounded, so `1<<i`, `2*i_size` and the counters never overflow.
- Memory: allocation always succeeds and freeing is not modelled; the allocator hooks of the table are not part of this model.
- The eviction callback of the table is the evicted record in the result of insert; a NULL callback and one that calls the table are not modelled.
- HashTable.Ght.SetHash: a table keeps its hash function from the first insertion on, which the source expects of its callers.
- `ght_rotating_hash`, which mixes a key by shifts and exclusive-or, and the variants of iteration that also report the key size, are not modelled.
- Connection setup and teardown, the portmapper, `select`, socket flags and time-outs: only the results of read and write are modelled.
- The RPC call and reply headers, authentication and `xdrrec` belong to the C library; a parsed header is a parameter.
- The id word is kept as the number whose bytes are sent; the byte order of the host is fixed to little-endian.
- Encoding into a buffer that is too small, and the `xdr_to_*` and `serialize_*` wrappers of `src/nfsv3/nfs3.c` and `src/nfsv3/mount3.c`.
- The free mode of the XDR routines.
- C strings are the bytes up to the first NUL; a string longer than 2^32 bytes is cut as its 32-bit length is.
- The actor monitor and the thread pool of `src/nfscd_ops.c`, and interrupted semaphore waits.
- `nfsstat3` error tables, statistics and tick rates, the FUSE glue in `src/nfs3actor.c` and `src/nfsclientd.c`, and the programs in `tests/`.
