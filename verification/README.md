# Verified models of the Linux-SNA A suite

This project models, in Dafny, the parts of the repository whose correctness rests on state and
arithmetic, and proves what they are for:

- **TDB** (`libasuite/tdb.c`), the hash-indexed store inside one flat byte image that the name server
  keeps in memory. Every operation is written against the bytes of the image. A ghost heap of blocks,
  with the lists they are on, is tied to the bytes by one predicate; its well-formedness (tiling, one
  list a block, acyclic lists, one block a key) is the invariant; and the finite map it stands for, from
  keys to data and the room there is for it, is
  what every operation is specified by, together with the order of the chains, the lengths of the free
  blocks and the size of the image, which decide the rooms. A second, concurrent model has several processes running the
  lock calls that the operations have been shown to make, and a third what the chain locks make of
  operations on shared chains.
- **Telnet framing for TN3270** (`libtnX`): the growable buffer, the escaping, the circular list of
  records, the resumable receiver, and the round trip through the wire.
- **AFTP** (`libasuite`, `asuite/aftpd.c`): the records with their keyed parameters and the loop that
  reads them, the file loops of both sides, and the transfer as two parties with a channel between them.
- **Three small pieces**: the file name matcher, the promotion of a profile's settings, and the launch
  limiter of the attach daemon.

Each class and method follows the code it models, with its loops and its order of writes. What a method
is proved to do is stated by a function or a map, and the laws of that function are lemmas beside it.

| file | models |
|---|---|
| `Bytes.dfy`, `Options.dfy` | words and stretches of bytes |
| `TdbImage.dfy` | the layout of the image, and what a write to it does to the heap of blocks |
| `TdbHeap.dfy` | the invariant, the map, and what each step of list surgery does to both |
| `TdbOrder.dfy` | the order in which a walk finds the entries |
| `TdbTrace.dfy` | the lock calls of the operations |
| `TdbLists.dfy` | the lengths on the free list and the keys on the chains, and what each step does to them |
| `TdbPool.dfy`, `TdbModel.dfy` | first fit on lengths; the database as its callers can tell it from another |
| `Tdb.dfy` | the operations on the image |
| `TdbRun.dfy` | whole runs against that model, and that against a finite map |
| `TdbLocks.dfy` | several processes and the system's lock table |
| `TdbShared.dfy` | several processes on the same chains |
| `TnBuffer.dfy`, `TnFraming.dfy`, `TnStream.dfy` | buffer and escaping; the framing as a function; the stream |
| `AsuiteRecord.dfy`, `AftpTransfer.dfy`, `AftpFile.dfy` | records; the transfer as a machine; the file loops |
| `Glob.dfy`, `TnConfig.dfy`, `Limiter.dfy` | the three small pieces |

Nine promises turn out to hold only under a condition, and the project states it exactly:

- A record comes through the framing exactly when it is not empty: an end of record without a record is
  taken for a data byte (`TnFraming.FramingRoundTrip`).
- A subnegotiation body comes through exactly when it has no IAC in it, although RFC 854 lets it be
  doubled: the receiver does not go back to collecting (`TnFraming.SubnegotiationExact`).
- A walk with firstkey and nextkey yields the keys of the last bucket only when all keys are there,
  because the bound at `libasuite/tdb.c:876` stops one bucket short (`Tdb.Database.WalkMeaning`).
- The file name matcher decides the language of the pattern for all strings exactly when every `?`, and a
  backslash at the end, stands directly behind a `*` and the pattern does not end in two of those
  (`Glob.RightExactly`). Its comment at `libasuite/wildcard.c:24` says that `?` always matches; it
  matches the end of the string too, and reads on behind it.
- Promoting a profile gives every setting the value it has in the profile, whatever the strings, exactly
  when no variable two levels down stands before the one it is promoted to, or without it
  (`TnConfig.PromotesExactly`).
- With lists among the values a list stays, a string is overwritten by the bytes of a list, and a new name
  takes anything; that is so whatever the values exactly when besides no name is there three levels deep:
  what is below a list of the profile cannot be put into it and comes up behind it
  (`TnConfig.ListsExactly`).
- No time at which the launch limiter starts to count has as many launches as the limit, exactly when no
  second has more attempts than the limit: an attempt that is refused ends the window, and the next one
  in the same second starts another (`Limiter.StartsAreLimited`).
- The locks cannot deadlock while every process keeps to the locking order. A process that keeps a list by
  tdb_lockchain or tdb_writelock does so exactly when its operations lock no other chain
  (`TdbLocks.KeepsOrderly`); otherwise two processes can come to wait for each other
  (`TdbLocks.LockchainDeadlock`, `TdbLocks.WritelockDeadlock`).
- Several processes see one map, with no key twice on a chain, exactly as long as no INSERT comes to link
  its record after another process has bound the key (`TdbShared.RunLinear`, `TdbShared.OnceExactly`): the
  check and the insertion are under separate locks, so two INSERTs of a key can both return 0
  (`TdbShared.BothInsert`).

Two more are worth knowing. A put and a get leave the end of a longer destination in place, because it is
opened without truncation (`AftpTransfer.PutDelivers`, `AftpTransfer.GetDelivers`), and a get takes no
notice of a short write. And the launch limiter's message speaks of
termination for ten minutes, but the refusal resets the count: in a burst only every attempt whose number
is a multiple of the limit is refused (`Limiter.RefusedInBurst`).

## Model

| member | source | states |
|---|---|---|
| TdbImage.RecRoundTrip | libasuite/tdb.c:59-76 | the six words of a block header are read back as they were written |
| TdbImage.RecLayout | libasuite/tdb.c:59-76 | the six words of a header lie at offsets 0 to 20, the lowest byte of each first |
| TdbImage.WriteHead | libasuite/tdb.c:287-291 | writing a list head at its offset changes that head of the represented heap and nothing else |
| TdbImage.WriteRec | libasuite/tdb.c:281-285 | writing a header over a block changes that header and no payload or other block |
| TdbImage.WriteBody | libasuite/tdb.c:221-238 | writing bytes inside a payload changes that payload alone |
| TdbImage.WriteCarve | libasuite/tdb.c:426-444 | with the remainder's header already in the payload, writing the smaller header makes two blocks of one |
| TdbImage.WriteGrow | libasuite/tdb.c:343-367 | an image extended by arbitrary bytes with a header over their start represents the heap with one block more |
| TdbImage.ReadRec | libasuite/tdb.c:299-315 | what is read at a block's offset is its header |
| TdbHeap.ByteInOneBlock | libasuite/tdb.c:59-76 | every byte behind the list heads lies in exactly one block |
| TdbHeap.BlockOnOneList | libasuite/tdb.c:57-76 | a block that is not being moved is on exactly one list, at exactly one place of it |
| TdbHeap.ChainNode | libasuite/tdb.c:544-581 | what a search finds at each place of a chain: a live record, where it leads, and that its key matches exactly when it is the one block of the key |
| TdbHeap.StepLinkFree | libasuite/tdb.c:959-971 | putting a loose block on the front of the free list keeps the invariant and the map |
| TdbHeap.StepLinkLive | libasuite/tdb.c:1054-1084 | putting a loose block with a new key on its chain keeps the invariant and adds that entry, with the room of the block, to the map |
| TdbHeap.StepDropLive | libasuite/tdb.c:945-957 | bypassing a block of a chain keeps the invariant and removes its key, and only that, from the map |
| TdbHeap.StepDropFree | libasuite/tdb.c:446-459 | bypassing a block of the free list keeps the invariant and the map |
| TdbHeap.StepCut | libasuite/tdb.c:426-444 | splitting a free block keeps the invariant and the map |
| TdbHeap.StepGrow | libasuite/tdb.c:343-367 | a block added at the end of the image keeps the invariant and the map |
| TdbHeap.StepData | libasuite/tdb.c:638-651 | data that fits, written over the old data, keeps the invariant and rebinds the key, with the room it had |
| TdbHeap.EmptyWellFormed | libasuite/tdb.c:484-540 | the empty image meets the invariant and stands for the empty map |
| TdbPool.WholeBlock | libasuite/tdb.c:420-459 | the first block that is long enough is handed out whole when it is at most 52 bytes too long |
| TdbPool.CutBlock | libasuite/tdb.c:426-444 | from a longer one the least multiple of 4 above the length is cut, and the rest less 24 bytes stays in its place |
| TdbPool.NewBlock | libasuite/tdb.c:319-387 | when there is none the image grows by ten times the length and 24, up to a multiple of 8192, and the same is cut from that |
| TdbPool.Conserves | libasuite/tdb.c:395-481 | the block handed out and what is free, headers included, are what was free and what the image grew by |
| TdbModel.WithoutAt | libasuite/tdb.c:945-957 | a deleted key leaves the others of its chain in order |
| TdbOrder.AllPairs | libasuite/tdb.c:724-791 | the chains one after the other list every entry of the map exactly once |
| TdbOrder.PairAt | libasuite/tdb.c:846-899 | a place in a chain is a place in that listing, and the next link leads to the next place |
| TdbOrder.PlaceBucket | libasuite/tdb.c:873-886 | a place of the listing is before the last bucket exactly when its key hashes to another bucket |
| TdbTrace.CallsOf | libasuite/tdb.c:395-999 | the lock calls of a deletion and an allocation, one by one |
| TdbTrace.CallsOfStore | libasuite/tdb.c:1007-1096 | the lock calls of a store, one by one, in each of its cases |
| TdbTrace.CallsOfWalk | libasuite/tdb.c:724-791 | a walk locks and unlocks the chains one after the other |
| Tdb.Database.constructor | libasuite/tdb.c:1108-1205 | an in-memory database opens empty, well-formed, in 40 bytes and 4 for each list, with no block loose and no lock |
| Tdb.Database.NewDatabaseSize | libasuite/tdb.c:484-540 | the size that is added up for a new image is 40 bytes and 4 for the free list and each chain |
| Tdb.Database.TdbLock | libasuite/tdb.c:115-133 | one count more for the list, or -1 and no change for a bad list |
| Tdb.Database.TdbUnlock | libasuite/tdb.c:135-160 | one count less, or -1 and no change for a bad list or one that is not locked |
| Tdb.Database.TdbWrite | libasuite/tdb.c:221-238 | an access within the image, which every caller proves although the code checks nothing in memory |
| Tdb.Database.TdbRead | libasuite/tdb.c:241-258 | the same for reads |
| Tdb.Database.RecRead | libasuite/tdb.c:299-315 | the header of a block, refused exactly when its magic is not that of a record |
| Tdb.Database.TdbFind | libasuite/tdb.c:544-581 | offset and header of the block of the key, or 0 exactly when the map does not have it |
| Tdb.Database.TdbExists | libasuite/tdb.c:696-717 | whether the key is bound; locks balanced |
| Tdb.Database.TdbFetch | libasuite/tdb.c:659-688 | the data of the key, or none exactly when it is not bound; locks balanced |
| Tdb.Database.TdbUpdate | libasuite/tdb.c:615-656 | 0 and the key rebound exactly when it is bound and key and data fit in the room of its block; else -1 and the map as it was; chains and free list as they were |
| Tdb.Database.TdbDelete | libasuite/tdb.c:902-999 | 0 exactly when the key was bound; the map and the chain without it, its block the first on the free list; no block lost; locks balanced on both paths |
| Tdb.Database.DeleteSearch | libasuite/tdb.c:918-988 | the block of the key and the one before it on the chain, or 0 when the key is not bound |
| Tdb.Database.Reclaim | libasuite/tdb.c:959-971 | the block that was taken off its chain is the first on the free list, and nothing else is loose |
| Tdb.Database.SearchFree | libasuite/tdb.c:402-469 | first fit: the first block of the free list that is long enough, or 0 when all are too short |
| Tdb.Database.SplitFree | libasuite/tdb.c:426-444 | a block more than 52 bytes too long is cut to the least multiple of 4 above the length, the rest less 24 bytes a free block behind it; map and invariant kept |
| Tdb.Database.UnlinkFree | libasuite/tdb.c:446-459 | the chosen block is off the free list, the others in order, and it is the only loose one |
| Tdb.Database.TdbExpand | libasuite/tdb.c:319-387 | the image grows by ten times what is asked for and up to a multiple of 8192, all of that one block at the head of the free list; map, chains and locks as before |
| Tdb.Database.AddPages | libasuite/tdb.c:334-367 | the new size is a multiple of 8192, at most one page more than asked for; the new block is the first on the free list |
| Tdb.Database.TdbAllocate | libasuite/tdb.c:395-481 | a detached free block: the first one that is long enough, whole if it is at most 52 bytes too long, else the least multiple of 4 above the length from its front, and that from a new block when none is long enough; the free list and the size after it; one search, or two with one expansion between |
| Tdb.Database.TdbStore | libasuite/tdb.c:1007-1096 | INSERT of a bound key fails with TDB_ERR_EXISTS and changes nothing; otherwise 0 and the key bound to the data, in place exactly when a REPLACE finds room, else with the room that allocation gives, at the front of its chain; free list and size as the model has them; no block lost; locks balanced |
| Tdb.Database.StoreNew | libasuite/tdb.c:1035-1087 | the new record binds the key, in the block that is allocated before the old one is freed, with the nested delete of an old one under the chain lock |
| Tdb.Database.TdbTraverse | libasuite/tdb.c:724-791 | the count and the entries visited: all of them, each once, unless the callback stops it, and then up to there |
| Tdb.Database.ListedOrder | libasuite/tdb.c:724-791 | a walk lists the keys in the order of the chains, each from the newest on |
| Tdb.Database.TdbFirstkey | libasuite/tdb.c:795-844 | the first entry in bucket order, none exactly when the map is empty |
| Tdb.Database.TdbNextkey | libasuite/tdb.c:847-899 | the key behind the given one in the listing, except that no bucket is entered from the second last on |
| Tdb.Database.WalkKeys | libasuite/tdb.c:795-899 | the loop from firstkey with nextkey ends, after a start of the listing |
| Tdb.Database.WalkMeaning | libasuite/tdb.c:872-886 | which keys such a walk yields, each once: those not in the last bucket, and those of the last bucket exactly when there are no others |
| TdbRun.Perform | libasuite/tdb.c:615-1096 | one call does what the model does, in its reply, map, chains, free list and size; it keeps the invariant, loses no block, keeps no lock, and makes the lock calls of one request of the lock protocol |
| TdbRun.Run | libasuite/tdb.c:615-1096 | every run from an empty database gives the replies and the size of the model, and so replies as a finite map does, until all operations are done or a store may have to grow the image, as large as it is by then, beyond 32 bits; after it each block is on a list, each lock is free, and the lock calls are a script of the lock protocol |
| TdbRun.DoAgrees | libasuite/tdb.c:615-1096 | whatever the free list, the model replies as a map does, with room for at most 52 bytes more than is stored |
| TdbRun.StoredOverDeleted | libasuite/tdb.c:395-481 | a record stored after a deletion takes the block that was freed, with its room, when that is at most 52 bytes too long, and an update of it succeeds exactly when it fits that room |
| TdbRun.StoredInCut | libasuite/tdb.c:426-473 | a new record has room for the least multiple of 4 above its length, at the front of its chain, when the first free block that is long enough is more than 52 bytes too long or there is none |
| TdbRun.ListsAfter | libasuite/tdb.c:902-1087 | what deleting, replacing and updating in place do to the chain, the free list and the map; the new block is allocated before the old one is freed |
| TdbRun.AlwaysFits | libasuite/tdb.c:615-1096 | in every such run key and data fit their room at every moment |
| TdbRun.ShorterUpdateSucceeds | libasuite/tdb.c:638-651 | so an update with no more data than the key has always succeeds |
| TdbLocks.RequestExactly | libasuite/tdb.c:395-1096 | holding any locks, an operation keeps to the locking order exactly when it has none or has every chain it asks for, and it gives back what it takes |
| TdbLocks.ScriptOrderly | libasuite/tdb.c:395-1096 | every data operation, a store that gets no block included, and any sequence of them keeps to the locking order |
| TdbLocks.KeepsOrderly | libasuite/tdb.c:1232-1285 | operations while a chain or the allocation list is kept do so exactly when they lock no other chain |
| TdbLocks.RunKeeps | libasuite/tdb.c:116-160 | in every reachable state a process has the byte-range lock of a list exactly when its count for it is positive |
| TdbLocks.MutualExclusion | libasuite/tdb.c:82-133 | no two processes have the same list locked |
| TdbLocks.WaitingHolds | libasuite/tdb.c:116-133 | a process that waits for a chain holds no lock at all, and none waits that holds the allocation list |
| TdbLocks.NoDeadlock | libasuite/tdb.c:116-160 | in every reachable state of processes that keep to the locking order, with work left, some process can go on |
| TdbLocks.RunsEnd | libasuite/tdb.c:116-160 | every step is one call less to make |
| TdbLocks.CompletedRun | libasuite/tdb.c:116-160 | a run that cannot go on has completed every operation and left the lock table empty |
| TdbLocks.LockchainDeadlock | libasuite/tdb.c:1258-1285 | for every chain kept and every operation that locks another there is a process with which it comes to a state where both wait |
| TdbLocks.WritelockDeadlock | libasuite/tdb.c:1232-1256 | with the allocation list kept, every operation that locks a chain comes to such a state with an ordinary store that replaces a record of it |
| TdbShared.FirstAgrees | libasuite/tdb.c:615-717 | what an operation does to a chain under its first lock is what it means on the map, or nothing if it is a store that has to go on |
| TdbShared.FirstStep | libasuite/tdb.c:615-717 | that step keeps the chains and one map in agreement, for all keys and processes |
| TdbShared.LinkStep | libasuite/tdb.c:1040-1087 | so does the insertion under the second lock, unless the store inserts and the key has been bound since |
| TdbShared.AloneAsDone | libasuite/tdb.c:615-1096 | with no other process between, the sections of an operation give the reply, the map and the order of the chain that the operation gives |
| TdbShared.RunLinear | libasuite/tdb.c:615-1096 | every run without such a race has an order of the operations in which all replies are those of one map, and the chains hold that map, no key twice |
| TdbShared.RepliesInTime | libasuite/tdb.c:615-1096 | each reply belongs to exactly one place in that order, after the call of its operation and before its return |
| TdbShared.OnceExactly | libasuite/tdb.c:1025-1087 | in any run no key is on a chain twice, at any moment, exactly as long as no store races |
| TdbShared.OnceMeans | libasuite/tdb.c:544-581 | that is, no two records of the chain have the same key |
| TdbShared.ReplacingNeverRaces | libasuite/tdb.c:1040-1045 | without INSERT no store races |
| TdbShared.BothInsert | libasuite/tdb.c:1025-1087 | two processes that insert one key, any key and data, can both be told that they have, and leave it on its chain twice |
| TdbShared.NoOrder | libasuite/tdb.c:1025-1028 | two such replies belong to no order of the operations on a map |
| TnBuffer.EscapedLength | libtnX/tnX_stream.c:596-612 | escaping adds one byte for every 255 |
| TnBuffer.Buffer.AppendByte | libtnX/tnX_buffer.c:80-95 | one byte more; memory is always 128 * (length / 128 + 1), so that the write is within it |
| TnBuffer.Buffer.AppendData | libtnX/tnX_buffer.c:109-114 | the bytes are appended in order |
| TnBuffer.Buffer.Escape | libtnX/tnX_stream.c:596-612 | the contents with every IAC doubled |
| TnBuffer.SendPacket | libtnX/tnX_stream.c:614-633 | the escaped payload and IAC EOR |
| TnFraming.ChunkIndependence | libtnX/tnX_stream.c:471-594 | for the framing function, input cut in two has the effect of the whole; that handle_receive is this function is TnStream.Stream.HandleReceive |
| TnFraming.AnyChunks | libtnX/tnX_stream.c:568-594 | the same for any number of portions; the handler over all its calls is TnStream.ReceiveAll |
| TnFraming.FeedPrefixed | libtnX/tnX_stream.c:471-594 | records that have been delivered, or taken away since, do not matter for what is still to come |
| TnFraming.DataRead | libtnX/tnX_stream.c:483-491 | a byte, or 255 doubled, goes to the current record, which it starts if there is none |
| TnFraming.CommandRead | libtnX/tnX_stream.c:506-508 | 255 and a byte that is none of 239 and 250 to 255 has no effect |
| TnFraming.VerbRead | libtnX/tnX_stream.c:492-525 | 255, a byte from 251 to 254 and an option have no effect on the records |
| TnFraming.EndRead | libtnX/tnX_stream.c:503-594 | 255 239 delivers the current record, and without one puts 231 into a new one |
| TnFraming.SubRead | libtnX/tnX_stream.c:499-556 | the handler gets the bytes between 255 250 and 255 240, of each run of 255 all but the first, and not the byte behind a run |
| TnFraming.AnyInputRead | libtnX/tnX_stream.c:471-566 | every input whatever is a sequence of such units and an unfinished one, and has the effect of the units one after the other |
| TnFraming.WireDecoded | libtnX/tnX_stream.c:471-566 | the receiver undoes the wire form of data, two-byte commands, negotiation, subnegotiation and end of record in any order |
| TnFraming.SentWire | libtnX/tnX_stream.c:614-633 | the wire form of one payload after the other is what sending them writes |
| TnFraming.FramingRoundTrip | libtnX/tnX_stream.c:471-633 | with commands and negotiation anywhere between escaped bytes, the payloads are delivered in order exactly when none is empty |
| TnFraming.SentDelivers | libtnX/tnX_stream.c:471-633 | the same for what the sender writes alone |
| TnFraming.SubnegotiationExact | libtnX/tnX_stream.c:526-556 | the handler gets the body that was sent, escaped, exactly when there is no IAC in it |
| TnStream.ListAdd | libtnX/tnX_record.c:68-79 | the ring, next and prev, with the record at its end |
| TnStream.ListRemove | libtnX/tnX_record.c:81-97 | the ring without the record, the list pointing at the next one if it was the first |
| TnStream.ListDestroy | libtnX/tnX_record.c:99-111 | every record is freed once, in ring order |
| TnStream.Record.GetByte | libtnX/tnX_record.c:54-59 | the byte at the position, which moves on by one |
| TnStream.Stream.GetByte | libtnX/tnX_stream.c:471-566 | the next data byte or end of record, with the state that the framing has after the bytes read |
| TnStream.Stream.Parse | libtnX/tnX_stream.c:482-563 | one byte does to the state what one step of the framing does |
| TnStream.Stream.Collect | libtnX/tnX_stream.c:576-590 | a byte goes to the current record, an end of record puts it at the tail of the queue |
| TnStream.Stream.HandleReceive | libtnX/tnX_stream.c:568-594 | all the input is taken, as the framing takes it; the result tells whether the socket is closed |
| TnStream.Stream.GetRecord | libtnX/tnX_stream.c:786-808 | the record at the head of the queue, which leaves it |
| TnStream.ReceiveAll | libtnX/tnX_stream.c:568-808 | over a whole session the records come out as the framing delivers them, however the input is cut and whenever records are taken |
| TnStream.SendAndReceive | libtnX/tnX_stream.c:568-808 | payloads sent, cut anywhere on the wire and taken at any time all arrive in order exactly when none is empty |
| AsuiteRecord.StrNCpyExact | libasuite/asuitecommon.c:205 | data survives strncpy exactly when nothing but NULs follows its first NUL |
| AsuiteRecord.StrNCpyByte | libasuite/asuitecommon.c:205 | a byte of the copy is that of the source up to its first NUL, and NUL from there on |
| AsuiteRecord.EncodeAt | libasuite/asuitecommon.c:95-144 | where each parameter of a record starts, and that it is there in full |
| AsuiteRecord.Record.SetType | libasuite/asuitecommon.c:176-185 | the type in two bytes, the higher first, and no other byte |
| AsuiteRecord.Record.Append | libasuite/asuitecommon.c:191-211 | one parameter more, those before unchanged: length in two bytes, the higher first, key, and of the data each byte up to the first NUL and NULs from there on |
| AsuiteRecord.Record.AppendChar | libasuite/asuitecommon.c:217-237 | one parameter of one byte more: 0, 4, key and the byte |
| AsuiteRecord.Record.AppendTwoByte | libasuite/asuitecommon.c:279-324 | one parameter of numbers more, the higher byte of each first, with the length filled in last |
| AsuiteRecord.Record.GetParamLen | libasuite/asuitecommon.c:95-106 | the big-endian length at a position |
| AsuiteRecord.Record.Walk | asuite/aftpd.c:510-562 | the walk from offset 2 finds exactly the parameters appended, in order, and ends at the end of the record |
| AsuiteRecord.Record.Receive | libasuite/asuitecommon.c:396-416 | the record holds the bytes and the parameters that were sent |
| AsuiteRecord.SendAndWalk | libasuite/asuitecommon.c:163-416 | any fields that fit, appended to one record, sent, and received into another, are walked there in order, with the type they were sent under |
| AsuiteRecord.FieldRead | libasuite/asuitecommon.c:191-324 | what is read for each field that was appended, byte by byte |
| AsuiteRecord.FieldsExactly | libasuite/asuitecommon.c:205 | the fields themselves come out exactly when no text has more than NULs behind its first NUL |
| AftpTransfer.StepKeeps | libasuite/libaftp.c:1618-1660 | every step of either side keeps the order of the records, their size, and the account of every byte read |
| AftpTransfer.AlwaysAPrefix | asuite/aftpd.c:586-613 | at every moment what has been written is a start of the source, over what the destination held |
| AftpTransfer.PutLosesNothing | asuite/aftpd.c:592-613 | the server loses no byte however short its writes are, unless one fails |
| AftpTransfer.NothingOnTheWay | asuite/aftpd.c:615-635 | when FILE_COMPLETE is handled every byte read is in the file or lost, and without a read error that is the whole source |
| AftpTransfer.LostByShortWrites | libasuite/libaftp.c:1375-1381 | on a get nothing is lost exactly as long as no step is a short or failed write |
| AftpTransfer.PutDelivers | asuite/aftpd.c:566-635 | a put delivers the source, followed by what a longer destination held there; equal exactly when it was not longer |
| AftpTransfer.GetDelivers | libasuite/libaftp.c:1371-1388 | without a read error and with whole writes a get delivers the source, followed by what a longer destination held there; into a shorter or empty file it delivers the source exactly when every write was whole |
| AftpTransfer.NeverStuck | libasuite/libaftp.c:1618-1660 | until FILE_COMPLETE is handled one side can do something that changes the state, without an error |
| AftpTransfer.RunsEnd | libasuite/libaftp.c:1618-1660 | a run that never stands still has at most 6 steps a byte of the source and 5 more |
| AftpFile.SendData | libasuite/libaftp.c:1618-1647 | the data records carry the bytes read from the file in order, whatever the reads return, up to the end of the file or the read that fails |
| AftpFile.SendFile | libasuite/libaftp.c:1587-1660 | the request, the data records and FILE_COMPLETE, in that order |
| AftpFile.FileData | asuite/aftpd.c:586-613 | the data of a record is in the file, all of it or up to the write that fails |
| AftpFile.Serve | asuite/aftpd.c:936-1004 | the server goes on to FILE_COMPLETE, past a failed write too: the file holds what was written of each record, over what it held, and that is everything but in as many records as writes failed |
| AftpFile.ReceiveFile | libasuite/libaftp.c:1326-1390 | the client goes on to FILE_COMPLETE and hands all that the records carry to writes, once; the file holds it if no write was short |
| AftpFile.PutFile | libasuite/libaftp.c:1587-1668 | sending a whole file and serving it leaves source and rest of the destination, unless a read or a write failed |
| AftpFile.GetFile | asuite/aftpd.c:444-491 | sending a whole file and receiving it leaves source and rest of the destination if no write was short; into a shorter or empty file exactly then the source |
| Glob.SkipLosesNothing | libasuite/wildcard.c:33-40 | the skip to the next place where a literal can match goes past no match |
| Glob.TokensRead | libasuite/wildcard.c:20-60 | how a pattern is read: `?`, `*`, a backslash with what is behind it, and other characters |
| Glob.RunFrom | libasuite/wildcard.c:20-66 | as far as pattern and string agree one by one the search goes on, and how the first place decides where they do not |
| Glob.ScanFirst | libasuite/wildcard.c:30-48 | behind a `*` the first place decides at which the rest does not fail, and the end of the string is none |
| Glob.PastExactly | libasuite/wildcard.c:23-31 | behind the end of the string a match is any number of `?` and a last `*`, and nothing else |
| Glob.WcMatch | libasuite/wildcard.c:7-66 | the loops over the two strings end, with the outcome of the search over the tokens of the pattern, reads behind a NUL included |
| Glob.RunSound | libasuite/wildcard.c:23-65 | where every `?` is guarded no read goes behind a string and a match is in the language |
| Glob.RunComplete | libasuite/wildcard.c:26-46 | where the pattern does not end in two stars no string of the language is turned down |
| Glob.UnguardedWrong | libasuite/wildcard.c:23-25 | an unguarded `?` or backslash: a string too short for the pattern that is not turned down |
| Glob.TwoStarsWrong | libasuite/wildcard.c:32-46 | two stars at the end: a string of the language that is turned down |
| Glob.RightExactly | libasuite/wildcard.c:7-66 | the matcher decides the language of a pattern for all strings exactly when both conditions hold |
| TnConfig.Config.GetStr | libtnX/tnX_conf.c:432-453 | the first variable of the name |
| TnConfig.Config.Set | libtnX/tnX_conf.c:372-389 | the first variable of the name is overwritten if it is a string, with the bytes of a list if that is put; otherwise a variable is appended |
| TnConfig.PutWork | libtnX/tnX_conf.c:415-424 | promoting one variable adds less work than it takes away |
| TnConfig.Config.Promote | libtnX/tnX_conf.c:405-428 | the walk over the list that it appends to ends, for every list and prefix, with what the variables of the profile put one after the other |
| TnConfig.PromotedAnew | libtnX/tnX_conf.c:405-428 | with unique names in order and any values, a name that was not there has the value of the profile |
| TnConfig.PromotedOver | libtnX/tnX_conf.c:405-428 | a list that was there stays; a string that was there holds the value of the profile, or for a list there the deepest value below it |
| TnConfig.PromotedValue | libtnX/tnX_conf.c:405-428 | what is there of each name afterwards, by cases, where no list of the profile over a string has something below it |
| TnConfig.InOrderPromotes | libtnX/tnX_conf.c:402-428 | with unique string variables in order, every setting has the value of the profile where it has one, and the others are as before |
| TnConfig.OutOfOrder | libtnX/tnX_conf.c:405-428 | names out of order: values for which it is not so |
| TnConfig.PromotesExactly | libtnX/tnX_conf.c:402-428 | for unique names it is so whatever the values exactly when the names are in order |
| TnConfig.NestedWrong | libtnX/tnX_conf.c:405-428 | a name three levels deep: values for which a string does not hold the list of the profile but what is below that |
| TnConfig.ListsExactly | libtnX/tnX_conf.c:402-428 | for unique names and any values, lists too, promote does by cases what it should exactly when the names are in order and none is three levels deep |
| Limiter.LocalTp.ForkTp | snatchd/snatchd.c:138-167 | one attempt is let through exactly when nothing is counted, or it is below the limit, or the start is more than 60 seconds ago; the new count and start in each case |
| Limiter.LocalTp.ForkAll | snatchd/snatchd.c:138-167 | the launches of a run of attempts |
| Limiter.RefusedExactly | snatchd/snatchd.c:142-160 | in any run an attempt is refused exactly when the count is one below the limit and the attempt that many before it is at most 60 seconds ago |
| Limiter.LaterStartsAnew | snatchd/snatchd.c:149-151 | an attempt at a full count more than 60 seconds behind the start is launched, with count 1 and its own time as the start |
| Limiter.WindowsAreLimited | snatchd/snatchd.c:142-160 | no window has as many launches as the limit, whatever the clock shows |
| Limiter.StartIsLimited | snatchd/snatchd.c:142-160 | a second with no more attempts than the limit has fewer launches under its start than the limit, if the clock does not go back |
| Limiter.StandingClock | snatchd/snatchd.c:156-158 | of n attempts in one second n - n / limit are launches under that second as their start |
| Limiter.StartsAreLimited | snatchd/snatchd.c:142-160 | with at most m attempts a second every start has fewer launches than the limit, whatever the run, exactly when m is at most the limit |
| Limiter.BurstCounter | snatchd/snatchd.c:142-160 | of n attempts in a burst n / limit are refused |
| Limiter.RefusedInBurst | snatchd/snatchd.c:152-159 | in a burst an attempt is refused exactly when its number is a multiple of the limit |
| Limiter.WithinIntervalIsBurst | snatchd/snatchd.c:145-149 | attempts within 60 seconds of the first are a burst |

## Left out

- TDB on a file: open, mmap, lseek, fstat, tdb_close, tdb_error. The data model is the in-memory mode, where lock calls cannot fail and the image starts at the header; the bytes of the header are not part of it. File mode is in the model of the locks only.
- TDB error returns for a corrupt image or a failed access: the invariant shows that the branches are not reached, and each is an `assert false` in the model.
- TDB memory: malloc and realloc succeed, the host is little-endian with 32-bit words, and the sizes asked for do not leave 32 bits (`RoomFor`, `Growth`). The hash is any function of the key bytes.
- TdbShared.RunLinear: what a process does to a chain between two lock calls is one step, because no other process gets at the chain in between; allocation succeeds, and walks over the chains are not among the operations.
- Tdb.Database.TdbTraverse: the callback reads and decides when to stop; one that changes the database is not modelled.
- tdb_get_int and tdb_store_int: calls of fetch and store.
- TnStream.Stream.GetByte: replies to option negotiation and the subnegotiation handlers are not modelled, only the bodies handed to them. A send succeeds.
- TnStream.Stream.HandleReceive: records and the subnegotiation buffer hold their bytes as values; how the buffer under them grows is proved in TnBuffer. A 5250 stream sends by another routine, which is not modelled.
- AsuiteRecord.Record.Append: the caller sees to it that the record has room, as the code does not look.
- asuiterecord_append_fourbyte, whose length field says 4 for 7 bytes, and asuiterecord_append_twobyte without values.
- AftpFile.Serve: the parameters of the request, which name the file, are not read; opening and closing succeed; error replies, directory listings and the other requests are not modelled.
- AftpTransfer.GetDelivers: a destination that is not shorter than the source may hold its bytes already, so that it can equal the source after a short write; for it the condition is stated one way.
- AftpFile.OpenFile.Write: a write that fails reports no bytes; a write of some bytes reports at least one.
- AftpFile.SendData: also stands for the same loop of the server's a_request_file, which differs in not adding the -1 of a failed read to the position.
- Glob.WcMatch: a read behind a string ends the match with an outcome of its own, since what such a read finds is undefined.
- TnConfig.Config.Set: a list put into a string variable is kept as a value of a third kind; what its bytes read as is undefined. Freeing memory is not modelled.
- TnConfig.Config.Promote: that the prefix test compares past the end of a name shorter than the prefix is not modelled; the comparison differs before that.
- Limiter.LocalTp.ForkTp: the fork itself, and microseconds, which the code does not compare.
- The logic unit sessions of the 3270 daemon, CPI-C and the other SNA interfaces, XML and configuration files, code pages, and the user interfaces: calls into code that is not here, or copying.
