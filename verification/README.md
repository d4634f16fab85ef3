# A verified model of a small parallel file system and of its cache coherence protocol

The repository holds a parallel file system in C++ (client library, metadata manager, file servers) and a
vendored snooping write-back cache. This project models its four core mechanisms and proves what they keep.

**Byte-range tokens.** Each client has, per open file, a table of disjoint block intervals marked `'r'` or
`'w'`; the metadata manager has a writer table and a list of readers, and serves a token request by sending
revokes to whoever stands in the way.
`Intervals.dfy` models the interval-keyed map (two keys are equal when they overlap) and interval subtraction;
`Permissions.dfy` gives a table its meaning, block -> none, r or w, and carries the proof of the adding loop;
`OpenFile.dfy` has the client's table as an object with `checkPermission`, `addPermission`, `removePermission`
and `revokePermission`, branch by branch; `Acquire.dfy` has the scan for missing runs and the acquire loop;
`Wire.dfy` builds and parses the text messages for requests, revokes and grants;
`TokenProtocol.dfy` is the protocol as a state machine over any number of clients, with the exclusion theorems
for the intended code, for the loops as written, and for the code as written with its messages;
`MetadataManager.dfy` has the server's tables as an object that serves a request against the clients' tables,
each revoke going from the server's text through the holder's parser to the holder's table.

**The snooping cache, atomic path.** `Coherence.dfy` is the protocol on values: any number of caches on one bus
in front of one memory refine a flat memory. `SnoopingCache.dfy` has the caches, the bus and the memory as
objects, and each method is proved to be the corresponding protocol step. What an access does is also said without
the steps: byte by byte, and bit by bit in every cache (`Coherence.IsServed`, `Coherence.IsAccess`). The assertions about coherence (no second
owner responds to a snoop, an upgrade is sent only by a valid copy that is not writable, a response to a request, no
dirty block invalidated) are `assert` statements there; those that say what a caller has to pass are preconditions.

**Striping, reading and the block cache.** `Striping.dfy` is the block layout over the file servers,
`ClientCache.dfy` the client's block cache with its LRU harvester, and `Pfs.dfy` puts `pfs_read` together from
the acquire loop, the block cache and the striped servers.

## Where the code does not do what it is for

The code is modelled as it is written. Where that fails its purpose, the failure has a lemma with an input and an
exact condition for the code to be right:

- `addPermission` loops for ever on a request strictly inside (or ending with) a longer entry that already covers
  it, because two branches `continue` on an unchanged map where their siblings `break`; and the final merge
  probes the neighbours of the original request rather than of what is left of it, so an `'r'` request cut by a
  `'w'` entry can lose its neighbour's permission. `OpenFile.Entry.AddPermission` is exact: it hangs if and only
  if `Permissions.Hangs`, and on return it is the pointwise join if and only if not `Permissions.Clobbers`.
- The metadata manager's pass over the readers erases, then increments, and appends to the vector it walks. It is
  right if and only if no two neighbouring entries overlap the request, the last entry is not swallowed with
  nothing appended, and no split finds the vector full (`TokenProtocol.ScanIsRightIff`); in the last two cases the
  iterator is past the end or void, an undefined outcome. The commonest write is of this kind: one client reads a
  range, another writes the same range (`TokenProtocol.WriteWhereOneReads`). `TokenProtocol.SkippedReader` is a run
  of three requests that breaks exclusion although every revoke is understood.
- The revokes sent for a writer leave the file name out, so holders misread them (`Wire.WriterRevokeIsMisread`) and
  answer as if they had obeyed. A write keeps exclusion if and only if everyone else with permission on the range
  is sent a revoke and, as it understands it, gives the block up (`TokenProtocol.WriteIsExclusiveIff`); for a file
  whose name is not the number of the first block that means nobody had to be revoked
  (`TokenProtocol.UnreadWriteAgreesIff`). `TokenProtocol.UnreadRevoke` is a run of two requests that breaks it, and
  `TokenProtocol.RunsAreExclusiveIff` says exactly which runs do not.
- A message that fills the receiver's array is stored past its end (`Wire.FullRequest`, `Wire.FullRevoke`), and a
  file name with a space in it shifts every field behind it (`Wire.SpacedNameIsCut`). A request arrives if and only
  if it is shorter than the array and its file's name has no space (`Wire.RequestRoundTripIff`); a reader's revoke,
  whose file name has none, if and only if it is shorter than the array (`Wire.ReaderRevokeRoundTripIff`).
- A refusal ("nack") reads as a grant of block 0, and the client adds it. The acquire loop still fills exactly its
  range if and only if block 0 would have been as strong without it (`Acquire.RefusalIsHarmlessIff`;
  `Acquire.RefusedThenGranted` is a read where it is not).
- `pfs_write` asks only for blocks without any permission, so a block held for reading is written without a
  `'w'` token (`Acquire.FilledForWriting`, `Acquire.WriteWithReadToken`).
- A fetched block is cached under its offset on the server, not its block number. Reads of files of a given size keep
  the cache true to the file, and deliver its blocks, if and only if the files are on one server or fit into the
  first strip (`Pfs.ReadsKeepFileIff`, `Pfs.ReadsDeliverIff`; `Pfs.WrongReadsGoWrong` has the wrong read).
- A write takes its bytes from the wrong place in the caller's buffer but in two cases (`Pfs.WriteIndexIsRightIff`,
  `Pfs.WrongWriteIndex`).
- An insert drops a block whose key is taken, and a revoke leaves the cache alone. A block read again after a revoke
  is right from then on if and only if no outdated copy was cached under its number (`Pfs.RereadIsRightIff`;
  `Pfs.OutdatedCopy` is how one gets there).

A caution in the cache's own code is exact too: invalidating a cache loses data exactly when a dirty block differs
from memory (`Coherence.EmptyKeepsCoherenceIff`), and writing back first rules that out
(`Coherence.DrainLeavesFlatMemory`).

## Model

| member | source | states |
|---|---|---|
| Intervals.SubtractIsDifference | mt_data_types.hh:78-118 | the five branches are a set difference: the pieces are proper, inside the interval, disjoint from the cut and from each other, and cover exactly the blocks outside the cut |
| Intervals.Find | data_types.hh:63-67 | a look-up in a map whose equality is overlap finds an entry if and only if one overlaps, and then the leftmost |
| Intervals.AtInsert | data_types.hh:63-67 | inserting an interval that overlaps no key is not dropped, keeps the keys disjoint and changes exactly its blocks |
| Intervals.AtErase | data_types.hh:63-67 | erasing an entry clears exactly its blocks |
| Intervals.CarvedIsUnique | FileDesc.cc:347-428 | subtracting a range from every entry has one result, so the order in which entries are found does not matter |
| Intervals.CarvedAt | FileDesc.cc:347-428 | carving clears exactly the range and keeps every other block's value |
| Intervals.CarveOne | FileDesc.cc:347-428 | replacing one overlapping entry by its pieces keeps the half-way state and leaves fewer overlapping entries |
| Intervals.CarveDone | FileDesc.cc:347-428 | when nothing overlaps any more the map is the old one with the range subtracted from every entry |
| Intervals.CutBackwardsAt | FileDesc.cc:412-425 | a range given backwards cuts the one entry that holds both its ends from the start on, unless the ends are neighbours, and doing it again changes nothing |
| Intervals.PiecesKeepNoTwins | FileDesc.cc:347-428 | replacing an entry by what is left of it makes no two touching entries of equal mode, if there were none |
| Permissions.AddsCommute | FileDesc.cc:80-283 | additions that are pointwise joins are idempotent and independent of order |
| Permissions.FreeIsExact | FileDesc.cc:80-283 | a request on blocks without permission overlaps no entry and is always served exactly |
| Permissions.ExactWithoutWriters | FileDesc.cc:206-277 | a request that does not hang goes wrong only if it is an 'r' request that meets a 'w' entry |
| Permissions.Absorb | FileDesc.cc:92-205 | a branch that erases the entry and grows the working interval keeps the loop invariant and the measure falls |
| Permissions.StepOver | FileDesc.cc:95-200 | the 'r' branch that inserts the part before a 'w' entry and goes on behind it keeps the invariant; the insert is not dropped and no bound under- or overflows |
| Permissions.StopBefore | FileDesc.cc:108-128 | the 'r' branch that ends the working interval before a 'w' entry keeps the invariant and the interval is not empty |
| Permissions.SplitReader | FileDesc.cc:120-238 | the 'w' branches that put the parts of an 'r' entry back keep the invariant |
| Permissions.NothingToAdd | FileDesc.cc:160-182 | leaving the loop without adding is right: everything is already covered |
| Permissions.SafeIffNotClobbering | FileDesc.cc:251-277 | the final merge stays on its own side of every 'w' entry exactly when the request is not one that clobbers |
| Permissions.SafeMergeJoins | FileDesc.cc:251-277 | a safe merge inserts one entry and completes the pointwise join |
| Permissions.UnsafeMergeLoses | FileDesc.cc:251-277 | an unsafe merge drops its insert after erasing the neighbour, and the result is not the join |
| Permissions.AddedFreeJoins | FileDesc.cc:253-277 | an addition on a free range, entry by entry: one entry covers the request, with the mode asked for; it reaches over the entries of that mode that touched the request, which are gone, and no further; every other entry is still there and there are no others |
| Permissions.JoinedTouchesIff | FileDesc.cc:253-277 | an entry of the same mode still touches the new one if and only if one touched a neighbour that was merged |
| Permissions.JoiningKeepsNoTwins | FileDesc.cc:253-277 | if no two touching entries had equal modes before the addition, none have afterwards |
| Permissions.TwinStays | FileDesc.cc:253-277 | a concrete table on which the merge leaves two touching entries of equal mode, as they were before |
| OpenFile.HangingRequest | FileDesc.cc:224-245 | a concrete request on which the loop never ends |
| OpenFile.ClobberingRequest | FileDesc.cc:251-277 | a concrete request after which a block has lost its permission |
| OpenFile.Entry.CheckPermission | FileDesc.cc:305-328 | true if and only if the table gives the block at least the mode asked for |
| OpenFile.Entry.RemovePermission | FileDesc.cc:340-430 | terminates; for start <= end it clears exactly the range, the table is the old one with the server's subtraction applied to every entry, and no touching entries of equal mode come about; for a range given backwards, as a misread revoke gives it, exactly the tail of an entry holding both ends goes |
| OpenFile.Entry.RevokePermission | FileDesc.cc:285-303 | only the named open file's table is touched, and exactly the range is cleared in it; the two numbers in the answer are the range, or 0 and 4294967295 for any other file, and the answer is never a refusal |
| OpenFile.Entry.AddPermission | FileDesc.cc:80-283 | hangs if and only if one longer entry covers the request; otherwise returns within as many iterations as there were entries; every block of the range gets the stronger mode and no other block changes if and only if the request does not clobber; on a free range the request is merged with the entries of its mode that touch it and every other entry stays; a free range or a single block leaves no touching entries of equal mode if there were none |
| OpenFile.Entry.InsertMerged | FileDesc.cc:251-278 | the merge and insert at the end complete the join if and only if the request does not clobber; an uncut request is merged with the entries of its mode that touch it, and every other entry stays |
| Acquire.RequiredToken | pfs.cc:65-95 | the list is the ordered, separated, non-empty runs of blocks without permission, with exactly those blocks |
| Acquire.RunsAreMaximal | pfs.cc:65-95 | no run in such a list can be extended |
| Acquire.RunsAreUnique | pfs.cc:65-95 | the table and the range determine the list |
| Acquire.MissingRunIsFree | pfs.cc:175-199 | a request for a missing run overlaps no entry, so the addition of its grant is always exact |
| Acquire.GrantTakesFirstRun | pfs.cc:190-199 | a grant of the first run takes exactly that run off the list |
| Acquire.FilledForWriting | pfs.cc:290-305 | after the loop of a write every block is writable if and only if none of them was held for reading before |
| Acquire.WriteWithReadToken | pfs.cc:290-305 | a concrete writer holding only an 'r' token on its block: no run is missing, so the loop asks for nothing and is done |
| Acquire.MarkMissing | pfs.cc:177-181 | exactly the flags of the blocks in the runs are cleared |
| Acquire.AskUntilHeld | pfs.cc:171-206 | after each pass the missing runs are the original list reduced by the replies so far: a grant takes the first run off, a refusal takes block 0 out, a busy file nothing; no touching entries of equal mode come about |
| Acquire.AcquireTokens | pfs.cc:166-206 | done if and only if the replies leave no run missing, at the first reply after which none is; then exactly the missing blocks have gained the mode, and block 0 if a refusal was among the replies; the flag of a block is true if and only if it had a token on entry; if no two touching entries had equal modes before, none do after |
| Acquire.GrantsCount | pfs.cc:171-206 | without a refusal the loop takes one grant for each missing run |
| Acquire.RefusalIsHarmlessIff | pfs.cc:190-199 | exactly the range is filled if and only if there was no refusal or block 0 would have been as strong without it |
| Acquire.RefusedThenGranted | pfs.cc:190-199 | a read of block 5, refused and then granted, ends with a permission on block 0 as well |
| TokenProtocol.RevokeAllClears | MetadataManager.cc:547-591 | revoking every overlapping reader clears exactly the requested blocks for every reader |
| TokenProtocol.ScanIsRightIff | MetadataManager.cc:547-591 | the pass as written keeps a good iterator inside the vector and leaves no overlapping reader exactly when no two neighbours overlap the request, the last entry is not swallowed, and no split finds the vector full; then it equals the intended pass |
| TokenProtocol.RoomIsEnough | MetadataManager.cc:578-580 | with room for as many entries as there are, no push reallocates the vector |
| TokenProtocol.SkimWithoutNeighbours | MetadataManager.cc:547-591 | without overlapping neighbours the pass as written keeps, cuts and revokes what the intended pass does |
| TokenProtocol.SkimMissesNeighbour | MetadataManager.cc:575-590 | with overlapping neighbours it leaves an overlapping entry behind |
| TokenProtocol.AgreeIsExclusive | MetadataManager.cc:427-601 | when client tables and server tables agree, a block one client may write is open to no other client |
| TokenProtocol.StepKeepsAgreement | MetadataManager.cc:427-601 | agreement is inductive: server tables disjoint and consistent, no client holding more than the server has recorded |
| TokenProtocol.ServerIsFramed | MetadataManager.cc:427-601 | for every code: outside the requested interval no block's writer and no block's readers change in the server's tables |
| TokenProtocol.StepIsFramed | MetadataManager.cc:427-601 | for every code: outside the interval a client's permission changes if and only if the client takes a revoke for a range that reaches there, which none does unless a writer's revoke meets a file called by the first block's number |
| TokenProtocol.StepGrants | MetadataManager.cc:481-485 | on the interval the client has what it asked for, and no other client is in its way |
| TokenProtocol.RunsAgree | MetadataManager.cc:383-609 | agreement in every state of every run |
| TokenProtocol.RunsAreExclusive | MetadataManager.cc:383-609 | single writer or many readers, in every state of every run, for any number of clients and any requests |
| TokenProtocol.OrderOf | ClientCache.cc:180-199 | what a holder makes of a revoke: a reader's is understood or overruns; a writer's is taken for another file's unless the file is called by the number of the first block |
| TokenProtocol.WriteIsExclusiveIff | MetadataManager.cc:491-601 | for the intended code, the loops as written and the code as written: a write is exclusive if and only if everyone else with permission on the range is sent a revoke and gives the block up as it understands it |
| TokenProtocol.WriteAgreesIff | MetadataManager.cc:491-601 | client and server tables still agree if and only if, besides, no two neighbouring readers overlap the request |
| TokenProtocol.UnreadWriteAgreesIff | MetadataManager.cc:500-506 | one write by the code as written: exclusive if and only if nobody had to be revoked, and in agreement if and only if, besides, no two neighbouring readers overlap it |
| TokenProtocol.RunsAreExclusiveIff | MetadataManager.cc:383-609 | for every code, messages included: a run is exclusive in every state if and only if everyone else gives way to each of its writes |
| TokenProtocol.UnreadRunsAreExclusiveIff | MetadataManager.cc:383-609 | the code as written, on a file whose name is no number: a run is exclusive in every state if and only if no write meets another client's permission |
| TokenProtocol.RunsAgreeIff | MetadataManager.cc:383-609 | for every code: client and server tables agree in every state of a run if and only if everyone else gives way to each write and the pass as written meets no two neighbouring overlapping readers |
| TokenProtocol.UnderstoodWriteAgreesIff | MetadataManager.cc:547-591 | one write by the loops as written, were its revokes understood: agreement is kept if and only if no two neighbouring readers stand in its way, exclusion if and only if every other client with permission there is reached |
| TokenProtocol.SkippedReader | MetadataManager.cc:547-591 | a run of the loops as written, two reads and a write with every revoke understood, that ends with a reader beside a writer |
| TokenProtocol.UnreadRevoke | MetadataManager.cc:553-560 | a run of the code as written, a read of blocks 0 and 1 and a write of block 0, that ends with a reader beside a writer |
| TokenProtocol.WriteWhereOneReads | MetadataManager.cc:575-591 | where one client reads a range and another writes the same range, the iterator leaves the vector: no step of the code as written serves the request |
| TokenProtocol.SplitWithoutRoom | MetadataManager.cc:575-580 | an entry split in two in a full vector makes it reallocate |
| MetadataManager.InsertAllReplaces | MetadataManager.cc:449-456 | erasing an entry and inserting its sub-intervals replaces it by them; none of the inserts is dropped |
| MetadataManager.FileEntry.Revoke | MetadataManager.cc:435-446 | from the text of the message to the holder's table: the holder does what it understands, no other table changes, and an overrun buffer is the undefined case |
| MetadataManager.FileEntry.RevokeWriter | MetadataManager.cc:432-456 | the entry is replaced by its pieces whatever its holder understood |
| MetadataManager.FileEntry.CutWriter | MetadataManager.cc:447-456 | the pieces stay with the old holder |
| MetadataManager.FileEntry.RevokeWriters | MetadataManager.cc:428-463 | terminates; every writer entry is carved, and exactly the holders of overlapping entries have done as they understood |
| MetadataManager.FileEntry.RevokeReader | MetadataManager.cc:550-580 | erases the entry under the iterator and pushes its pieces at the back; void if the vector is full |
| MetadataManager.FileEntry.RevokeReaders | MetadataManager.cc:547-591 | the loop as written is the skimming pass of the protocol; it goes wrong exactly when it runs past the end or reallocates |
| MetadataManager.FileEntry.RequestToken | MetadataManager.cc:423-609 | both modes: what the writer table, the reader list and the clients' tables are afterwards, and exactly when the behaviour is undefined; inside the interval the writer of a block is the writing client or nobody, outside it is as it was; a reader goes to the end of the list; a client that is recorded nowhere on the interval keeps its table; the answer is the interval asked for |
| MetadataManager.FileEntry.ServeAndDeliver | MetadataManager.cc:383-609 | whatever the client holds: served if and only if nothing is undefined; the adding loop ends if and only if it does not hang on the client's table after the revokes; the whole is one step of the protocol as written if and only if it does not clobber that table; a client without permission on the range meets neither |
| Coherence.ServedByteForByte | cache_impl.hh:96-157 | a store leaves its bytes at its offset and every other byte as it was; a load returns the bytes there; a swap returns the old bytes and writes exactly when it is unconditional or they are the expected ones |
| Coherence.SatisfyingKeepsCoherence | cache_impl.hh:134-220 | satisfying a request in a block that allows it is the request on the flat block |
| Coherence.FetchKeepsCoherence | cache_impl.hh:1198-1264 | a fetch or upgrade with its snoops and eviction keeps: copies equal the flat block, a writable copy is alone, one owner, memory current where nothing is dirty |
| Coherence.AccessRefinesFlat | cache_impl.hh:646-767 | one access returns what flat memory returns and leaves the machine coherent with the updated flat memory |
| Coherence.FetchBrings | cache_impl.hh:680-722 | a miss: after a load every other cache has the same blocks with the same data and dirtiness, without exclusivity on the one fetched; after a store or swap no other cache has it; the fetched block holds the flat data, is writable unless a load found a copy elsewhere, and dirty if it was or a dirty copy elsewhere had to go; the victim is gone and in memory if it was dirty |
| Coherence.AccessLeaves | cache_impl.hh:646-767 | the same for the whole access, hit or miss: what it leaves in every cache and in memory, byte by byte and bit by bit |
| Coherence.FlushKeepsCoherence | cache_impl.hh:1105-1120 | writing a cache back leaves it clean and the machine coherent |
| Coherence.EmptyKeepsCoherenceIff | cache_impl.hh:1126-1139 | invalidating a cache keeps coherence if and only if no dirty block of it differs from memory |
| Coherence.RunsRefineFlat | cache_impl.hh:646-767 | every run of accesses, write-backs and invalidations refines flat memory |
| Coherence.LoadsReturnLastWrites | cache_impl.hh:646-767 | in every run each byte that a load or swap returns is the one last written there by an earlier store or successful swap, by whatever cache, or the initial one if there was none |
| Coherence.DrainLeavesFlatMemory | cache_impl.hh:1077-1092 | writing every cache back and then invalidating every cache is a run (no dirty block is invalidated) and leaves memory equal to flat memory |
| SnoopingCache.Cache.SatisfyCpuSideRequest | cache_impl.hh:134-220 | a store's bytes are in the block and its other bytes are as they were; a load or swap returns the block's bytes; a swap writes exactly when unconditional or as expected; a block written is dirty, exclusivity and all other blocks stay |
| SnoopingCache.Cache.Access | cache_impl.hh:279-350 | a hit if and only if the block is present and readable for a load, writable for a store or swap; the request is then satisfied byte for byte; a miss changes nothing |
| SnoopingCache.Cache.GetBusPacket | cache_impl.hh:600-643 | an upgrade if and only if the block is present, which is then readable and not writable; an exclusive read if and only if it is absent and the request is a store or swap; a shared read if and only if it is absent and the request is a load |
| SnoopingCache.Cache.WritebackBlk | cache_impl.hh:1055-1075 | the packet carries the block, exclusively if it was writable, and the block is clean afterwards |
| SnoopingCache.Cache.AllocateBlock | cache_impl.hh:1160-1190 | a dirty victim leaves one writeback with its data and exclusivity, a clean one none; other blocks stay |
| SnoopingCache.Cache.HandleFill | cache_impl.hh:1198-1264 | status and data of the filled block from the response's shared and inhibit flags; the victim is gone and every other block stays |
| SnoopingCache.Cache.RecvAtomicSnoop | cache_impl.hh:1307-1418 | a snooped read takes exclusivity away and raises the shared line, other requests take the copy; a dirty block answers with its data and the matching response, and never as the second to do so; a clean or absent one answers nothing |
| SnoopingCache.MemorySystem.Snoop | cache_impl.hh:1512-1528 | a cache's answer is put aside and the remaining caches see the original command |
| SnoopingCache.MemorySystem.SnoopOthers | cache_impl.hh:1389-1395 | the bus collects exactly whether another cache has a copy and whether one owns the block; no second owner responds |
| SnoopingCache.MemorySystem.SendAtomic | cache_impl.hh:690-700 | the data is the owner's if there is one and the memory's otherwise |
| SnoopingCache.MemorySystem.RecvAtomic | cache_impl.hh:646-767 | one access by one cache is exactly the protocol's access, on all caches and the memory; what it leaves in every cache and in memory is also said without the protocol's steps |
| SnoopingCache.MemorySystem.Serve | cache_impl.hh:646-767 | the processor sees flat memory: a store's bytes are in it afterwards, a load returns its bytes, a swap writes exactly when unconditional or as expected, and no other byte changes |
| SnoopingCache.MemorySystem.Fetch | cache_impl.hh:680-722 | the miss part: a load leaves every other cache's copy, without exclusivity; a store or swap leaves none; the block fetched holds the flat data with the status that follows; the pending writebacks are the dirty victim's |
| SnoopingCache.MemorySystem.SendWritebacks | cache_impl.hh:750-756 | after the loop the evicted dirty block is in memory |
| SnoopingCache.MemorySystem.MemWriteback | cache_impl.hh:1077-1122 | visiting the blocks in any order leaves the same blocks with the same data and exclusivity, all clean, and memory takes the data of the dirty ones and no other |
| SnoopingCache.MemorySystem.MemInvalidate | cache_impl.hh:1085-1139 | on a clean cache the visitor's assertion holds, the cache ends empty and coherence is kept |
| Striping.StripingIsBijective | net_addresses.hh:69-72 | blocks and pairs of a server and an offset correspond one to one, for every width |
| Striping.OffsetsGrow | net_addresses.hh:69-72 | offsets on a server grow with the block |
| Striping.OffsetIsCount | net_addresses.hh:69-72 | a block's offset is the number of earlier blocks on its server |
| Striping.PrefixHasNoGaps | net_addresses.hh:69-72 | the first n blocks occupy exactly the offsets below each server's count |
| Striping.LoadIsBalanced | net_addresses.hh:71-72 | no server has more than one strip more than another |
| Striping.NothingIsLost | net_addresses.hh:71-72 | the servers' counts sum to n |
| Striping.EveryBlockHasAPlaceIff | net_addresses.hh:76-98 | every block gets an address exactly when at most five servers are used, and then no two blocks share a place |
| Striping.OffsetIsBlockIff | net_addresses.hh:71-72 | a block's offset is its own number only in the first strip or with one server |
| Striping.Placements | net_addresses.hh:69-98 | blocks 3, 4 and 8 over two servers, and one block for each further address, placed by number |
| ClientCache.HarvestTakesTheOldest | ClientCache.cc:60-94 | dirty blocks stay, evicted clean blocks are no newer than those left, the total is kept; with 2035 or more free blocks nothing happens, with fewer the free list grows to 2042 or takes every clean block |
| ClientCache.HarvestIsDetermined | ClientCache.cc:65-82 | the harvest does not depend on the order of iteration |
| ClientCache.RunsKeepAccounts | ClientCache.cc:84-93 | in every run: blocks under their own addresses, distinct past access times, and free + used + inserts of present addresses = 2048 |
| ClientCache.StampedIsNewest | ClientCache.cc:266-271 | a block that is looked up is afterwards newer than every other block |
| ClientCache.StepChangesBlock | ClientCache.cc:60-94 | for every operation: a block's address and data stay while it is there, its status changes only by a mark and its access time only by a look-up; it comes as it was inserted and goes only clean and by harvesting |
| ClientCache.DirtyStays | ClientCache.cc:65-82 | in every run a dirty block stays, with its data, until it is marked clean |
| ClientCache.StatusIsLastSet | ClientCache.cc:258-275 | in every run a block that is there has the status that the last mark or storing insert gave it |
| ClientCache.Cache.InsertSingleBlock | ClientCache.cc:211-225 | fails if and only if nothing is free; a new address gets the block with its own data and status, stamped; an address that is taken keeps its block and still costs a free one; no other block changes |
| ClientCache.Cache.InsertMultipleBlocks | ClientCache.cc:227-237 | all of the blocks or none; each new address gets the first block that has it, with its own data and status and its place in the order of access; no other block changes |
| ClientCache.Cache.GetBlock | ClientCache.cc:258-275 | found if and only if present; its access time becomes the next one, and nothing else of it nor any other block changes |
| ClientCache.Cache.HarvestOnce | ClientCache.cc:60-94 | one round evicts the least recently used clean blocks |
| ClientCache.Cache.CollectOldest | ClientCache.cc:65-82 | the bounded heap ends with the k oldest clean blocks, or all if there are fewer |
| ClientCache.Cache.EvictAll | ClientCache.cc:84-93 | exactly the queued blocks move to the free list |
| Pfs.FindBufOffset | pfs.cc:256-268 | the parts of the blocks tile the byte range without gap or overlap |
| Pfs.WriteIndexIsRightIff | pfs.cc:343-345 | the buffer index of a write is the byte meant only in the first block of an aligned range or the second of one that starts at a block's last byte |
| Pfs.WrongWriteIndex | pfs.cc:343-345 | a write of two blocks from offset 0 takes byte 1 of the buffer for the first byte of block 1 |
| Pfs.RangeOfBlocks | pfs.cc:162-164 | the blocks computed for a byte range contain it, and cutting the first offset off them gives it |
| Pfs.BlocksOfRange | pfs.cc:162-164 | the blocks asked for are exactly those that hold a byte of the range; for an empty range, exactly the block it lies inside |
| Pfs.StripedReadIsFlatRead | pfs.cc:228-233 | asking a block's server for the block's offset gives the block |
| Pfs.SeenIsFlatIff | pfs.cc:211-245 | the gathered blocks are the file's if and only if every cached copy used is current |
| Pfs.HitsAreOldHits | pfs.cc:211-245 | within one read no block inserted becomes a hit for a later one |
| Pfs.SharedKeys | ClientCache.cc:245-250 | two blocks of a file share a cache key exactly when their numbers differ by a multiple of 4194304 |
| Pfs.CopyFromCache | pfs.cc:213-226 | a hit if and only if cached; the block delivered is stamped as the newest of all, and nothing else in the cache changes |
| Pfs.FetchBlock | pfs.cc:227-243 | the file's block, and how the cache and its free list change |
| Pfs.ReadBlock | pfs.cc:213-243 | the cached copy if the block had a token on entry and is cached, the file's block otherwise; a hit is stamped and changes nothing else, a fetched block is inserted clean unless its key is taken, a failure changes nothing |
| Pfs.GatherBlocks | pfs.cc:210-245 | fails if and only if more blocks must be fetched than are free; otherwise the bytes, the cache and the free list after all blocks; the access counter grows by one for each block delivered, hits are stamped in the order of reading, and every other block that was there keeps its time and status |
| Pfs.PfsRead | pfs.cc:153-254 | waits exactly while the replies leave a run missing; then delivers the byte range of the gathered blocks, which is the file's when the copies used were current; the cache stays in order, hits carry the access times of their turns, and blocks not read keep their time and status, also when the read fails |
| Pfs.ReadBlocksGoLast | pfs.cc:219-222 | a harvest after a read evicts a block that was delivered from the cache only if it evicts every clean block the read left alone |
| Pfs.HoldingFileIsCurrent | pfs.cc:215-226 | when every cached copy is the file's block of its number, every hit of a read is current |
| Pfs.OneServerKeepsFile | ClientCache.cc:289-340 | with one server reads keep the cache true to the file |
| Pfs.OneStripKeepsFile | ClientCache.cc:289-340 | so do reads of a file that fits into the first strip |
| Pfs.ReadsKeepFileIff | ClientCache.cc:289-340 | reads of the files of a size keep every true cache true if and only if there is one server or the size is at most one strip |
| Pfs.ReadsDeliverIff | pfs.cc:211-245 | all sequences of reads a client can make of all files of a size, from an empty cache, deliver the file's blocks if and only if there is one server or the size is at most one strip |
| Pfs.WrongReadsGoWrong | pfs.cc:211-245 | the failing sequence: block 4, block 0, and block 0 again under its token |
| Pfs.MiskeyedBlock | ClientCache.cc:289-340 | with more servers, a block past the first strip is later delivered in place of another |
| Pfs.RereadIsRightIff | ClientCache.cc:211-225 | a block fetched and read again under its token is right if and only if no outdated copy was cached under its number |
| Pfs.OutdatedCopy | ClientCache.cc:196-225 | from an empty cache: read, revoked, changed by another client, read, and read again, which delivers the old block |
| Wire.NextToken | StringFunctions.hh:9-21 | the text before the first space and the text after it, or the whole text and nothing |
| Wire.ToLower | StringFunctions.hh:22-28 | no letter of the result is upper case, and each character is the original or its lower-case partner |
| Wire.TrimmedText | StringFunctions.hh:30-45 | trimming takes the white space off both ends and nothing else |
| Wire.FieldsOfJoin | StringFunctions.hh:9-21 | repeated `nextToken` on texts joined by spaces gives them back |
| Wire.NoFieldPastSpaces | StringFunctions.hh:9-21 | past the last space every token is empty |
| Wire.AtoiOfPrinted | pfs.cc:48-54 | printing and parsing are inverse on all integers |
| Wire.AtoiReads | pfs.cc:192-193 | white space, a sign or none, a printed number and text that does not go on with a digit are read as that number |
| Wire.MessageTexts | pfs.cc:43-54 | a request, both revokes and a grant, letter by letter |
| Wire.ReceiveRequest | MetadataManager.cc:94-124 | what the server takes a message for; undefined if the message fills the array |
| Wire.RequestRoundTripIff | MetadataManager.cc:386-392 | file, range, mode, port and address of a request are recovered exactly when the message is shorter than the server's array and the file's name has no space |
| Wire.SpacedNameIsCut | StringFunctions.hh:9-21 | of a name with a space the server reads the part before it |
| Wire.FullRequest | MetadataManager.cc:94-100 | a request that fills the server's array |
| Wire.FullRevoke | ClientCache.cc:176-181 | a reader's revoke that fills the client's array |
| Wire.CutRequestIsMisread | MetadataManager.cc:99-101 | a request that is cut off is misread even if the stray terminator does no harm |
| Wire.ReceiveRevoke | ClientCache.cc:176-204 | what a client takes a message for; undefined if the message fills the array |
| Wire.ReaderRevokeRoundTripIff | MetadataManager.cc:435-442 | a reader's revoke is recovered exactly when it is shorter than the client's array |
| Wire.CutRevokeIsMisread | ClientCache.cc:180-182 | a reader's revoke that is cut off is misread even if the stray terminator does no harm |
| Wire.WriterRevokeIsMisread | MetadataManager.cc:500-506 | a writer's revoke is read one field off, and does what was meant only for block 0 of a file called "0" |
| Wire.WriterRevokeFits | MetadataManager.cc:500-506 | a writer's revoke is always shorter than the client's array |
| Wire.ReceiveReply | pfs.cc:190-194 | every reply but two words is taken for a grant |
| Wire.GrantRoundTrip | MetadataManager.cc:482-485 | a grant of any blocks is read as sent, and "nack" is read as a grant of block 0 |

## Left out

- Threads and locks: a token request, its revokes and the delivery of the grant are one step, so a grant overtaken by a later revoke is not modelled; nor is `flush` dropping its lock half-way.
- Holders that refuse a revoke: no client ever answers "nack", and a connection that fails is not modelled.
- OpenFile.Entry.AddPermission: which entries a range of several blocks leaves, where it meets entries, is stated block by block only (the code can leave touching entries of equal mode there); the number of iterations watched is a parameter, because the code does not terminate on every input; a range is given with start <= end, as in every grant.
- Acquire.AcquireTokens: the replies are a finite list, and nothing is revoked while the loop runs.
- Unsigned 32-bit block numbers wrap nowhere in the model: the interval code is proved never to leave 0..UINT_MAX.
- OpenFile.Entry.RevokePermission: several files and several descriptors per client, close and reopen, and the stale names they leave in the open-file table are left out: each client has one file open, the one that is asked for, so the look-up is one comparison of names.
- SnoopingCache.MemorySystem.SendAtomic: the packet attributes, the bus and the memory controller are declared in headers that are not in the repository; the bus shows a request to every other cache with its original command, collects the shared and inhibit flags, and lets memory answer only when not inhibited.
- SnoopingCache.Cache.AllocateBlock: the replacement policy is any choice of victim; the temporary block for failed allocation is never needed in atomic mode.
- In the cache: timing mode, MSHRs, prefetching, load-linked and store-conditional, uncacheable and bypassed requests, block-sized requests, several levels, latencies and statistics.
- Pfs.PfsRead: a block fetch returns a whole block; short files, the truncation of blocks and results at a zero byte, and the harvester running during a read are left out; block numbers stay below the 22 bits that a cache key keeps.
- Pfs.FindBufOffset: the rest of `pfs_write` beyond its token loop and its buffer index is left out, because it writes other bytes than it means to.
- ClientCache.DirtyStays: a mark stands for a write's change of the status only; the bytes that `pfs_write` puts into a cached block are left out with the rest of its body.
- ClientCache.RunsKeepAccounts: `putBlockIntoCache` is never called and left out; a free block carries nothing, so the free list is its length.
- Wire.RequestRoundTripIff: one receive delivers the whole of a message that fits; integers are unbounded, where `atoi` is undefined outside 32 bits.
- File creation, deletion, `fstat`, opening, the file servers' own storage, sockets and the test programs.
