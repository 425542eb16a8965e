# Badge firmware: records, transport and buffers

A model of what the badge's firmware does with records in storage and bytes in queues, and of the hub's protocol, with
proofs of the properties its documentation and structure promise.

- `Crc16`, `Words`, `Bytes`: the checksum register as bit vectors and as polynomial division.
- `FsTypes`, `FsSpec`: records of the filesystem, and every one of its operations as a function from storage and RAM
  records to result code, writes and new records. `Filesystem` is the same code as a class that changes storage and records
  in place, statement by statement, proved to do what the functions say.
- `FsBytes`: the bytes of metadata and headers by arithmetic, and what the code makes of bytes of any kind.
- `FsLog` to `FsHistory`: what a partition holds, as a log of elements over the bytes in storage; what every store, clear
  and walk does to it; static partitions as rings of slots.
- `FsSystem`, `FsPerform`, `FsRuns`, `FsStanding`, `FsIteratorRuns`: all partitions together, over runs of any operations
  and restarts.
- `FsPowerCut`, `FsCutRuns`, `FsCutScan`: power cuts between and inside storage operations.
- `FsSucceeds`, `FsFills`, `FsFromErased`, `FsUnderIterator`: when stores succeed, runs from erased storage on, and stores
  under an iterator. `FsComesRound`, `FsFrozen`, `FsStaleCopy`: where the code falls short of its promises.
- `Storer`: the search for the chunks since a point in time, and reading them one by one, on the class of the filesystem.
- `Flash`, `Storage1`: NOR flash that can only clear bits, and the driver that skips erasures; `Storage1Exempt`: exactly which ones,
  over runs of stores. `Eeprom`, `Storage`, `Units`:
  the byte device, several devices behind one address space, and their units.
- `Sender`, `Framing`: the transmit queue and the request handler as state machines over all interleavings, with the code
  as classes that run them. `Codec`, `Messages`, `Wire`, `Responses`: the protocol, requests from hub to handler, and
  responses from the badge through the transmit queue to the hub. `MessageBytes`, `RequestBytes`, `ResponseBytes`: the bytes
  of every message, field by field.
- `CircularFifo`, `ChunkFifo`, `Rings`, `ScanAggregation`: the buffers and the aggregation of scan reports.

Storage and RAM start with arbitrary contents unless a theorem says otherwise. Interrupts, packets, answers of devices and
what RAM holds after a restart are parameters. Addresses are unbounded numbers; a partition lies below 2^32, and lengths,
identifiers and checksums have the width of the code.

## Findings

Cases in which the code does less than it promises; each is stated as a theorem.

- Two slots: the comparison in `filesystem_lib.c:1033` also holds if the new element ends exactly where the latest one
  begins. A static partition with two slots forgets the second one with every store into the first
  (`FsFills.TwoSlotsForget`); the exact condition is in `FsHistory.WalkYieldsNewestIff`.
- A multiple of 65534 slots: record identifiers come round together with the slots. A store takes the oldest element for a
  stale successor and erases it, under a valid iterator too (`FsComesRound.StoreErasesUnderIterator`, and
  `FsComesRound.StoreSparesIff` for the exact condition), and in every full lap after the first a walk back never ends
  (`FsRingExact.PeriodCycles`). While a lap has a multiple of 65534 elements, a step forward from the latest one leads to the
  first one instead of ending (`Storer.NothingBehindIff`).
- The read behind the last element: a store looks for a header behind the new element before it knows that storage goes on
  there (`filesystem_lib.c:499-506`). A static partition that registration has cut off at the end of storage can never write
  its last slot, and from then on refuses every store (`FsFrozen.NeverFull`, `FsSucceeds.RefusedAtEnd`).
- Encoder: an array that is too long is cut without notice, and so is something behind a flag of 0
  (`Codec.RoundTripIff`).
- `storage1_lib.c:164` enters the new end in the table before the erasure has been tried. If `flash_erase` refuses, the
  entry may be wrong (`Storage1.EnteredTooEarly` says exactly when), and a store behind it is then not preceded by an erasure
  and reads back as other bytes (`Storage1.FirstIsEntered`, `Storage1.SpoiltStore`; `Storage1.UnerasedReadsBackIff` says
  exactly when).
- Registration does not load the RAM copy of the first header (`filesystem_lib.c:771-844`). On storage with units of one byte
  nothing depends on it: `FsRecovery.ScanRecovers` restores all but this copy. On larger units an append in the first unit
  copies it to the swap page (`filesystem_lib.c:1071-1083`), where it may not pass for a header when it is needed:
  `FsStaleCopy.CopyRestoresIff` says exactly when, `FsStaleCopy.StaleCopyInput` gives a case.

## Model

| member | source | states |
|---|---|---|
| FsRuns.RunsYieldNewest | firmware/nRF_badge/data_collector/incl/filesystem_lib.c:906-1150 | After any run of operations on all partitions, restarts included, the walk back from the latest element of a static partition yields the payloads stored last there, newest first, as many as it has slots; and then ends with the code for nothing found; the condition on slots and stores is the exact one of `FsHistory.WalkYieldsNewestIff`. |
| FsRuns.RunsYieldLap | firmware/nRF_badge/data_collector/incl/filesystem_lib.c:906-1150 | After any run, in a partition of either kind, the walk yields at least the payloads of the current lap, newest first, where the laps are computed from the payload lengths alone. |
| FsRuns.RunsKeep | firmware/nRF_badge/data_collector/incl/filesystem_lib.c:906-1401 | Whatever is done to the partitions in whatever order, restarts in between, the invariant of all partitions holds and each holds what it was given. |
| FsRuns.OnKeeps | firmware/nRF_badge/data_collector/incl/filesystem_lib.c:906-1401 | One operation on one partition changes the log and history of that partition only, and keeps the invariant of all. |
| FsFromErased.FromErased | firmware/nRF_badge/data_collector/incl/filesystem_lib.c:736-1150 | From erased storage: after a reset, any registrations that succeed and any run of operations and restarts, the walk of a static partition yields the payloads stored last in it, newest first, and then ends. |
| FsFromErased.FillsFromErased | firmware/nRF_badge/data_collector/incl/filesystem_lib.c:736-1150 | Such runs exist: a static partition registered on erased storage takes any payloads of its length, one after the other, and the walk is then exact if and only if the condition on slots and stores holds. |
| FsFromErased.GrantedIff | firmware/nRF_badge/data_collector/incl/filesystem_lib.c:771-844 | On erased storage a registration succeeds if and only if a handle is left, its lengths are legal, a size is asked for, the free address is a unit boundary inside storage, and the first unit boundary at or behind the size asked for, or the end of storage, leaves room for the metadata and one element. |
| FsRuns.RestartKeeps | firmware/nRF_badge/data_collector/incl/filesystem_lib.c:736-844 | Resetting and repeating the registrations, whatever RAM holds, writes nothing and brings every partition back with all it held. |
| FsRuns.RegisterAddsEmpty | firmware/nRF_badge/data_collector/incl/filesystem_lib.c:771-844 | Registering a further partition where storage holds no header of its own succeeds, and adds an empty partition to the invariant. |
| FsRuns.HoldsInRun | firmware/nRF_badge/data_collector/incl/filesystem_lib.c:771-1150 | In every state of a run each partition, under the handle its registration gave out, holds its history. |
| FsRuns.AllocationFromReset | firmware/nRF_badge/data_collector/incl/filesystem_lib.c:736-844 | After a reset, any registrations whatever hand out whole units, one partition behind the other, all behind the swap page, inside storage. |
| FsHistory.WalkYieldsNewestIff | firmware/nRF_badge/data_collector/incl/filesystem_lib.c:906-1401 | In a static partition that has been given a history of payloads, walks of every length yield the newest ones, newest first, as many as there are slots, if and only if it is not two slots after an odd number of stores above two, nor a multiple of 65534 slots after more stores than slots. |
| FsHistory.StoreAppends | firmware/nRF_badge/data_collector/incl/filesystem_lib.c:906-1150 | A successful store appends exactly its payload, as many bytes as announced or the length of a static partition if 0 is announced, to what the partition holds; one that fails writes nothing and leaves the record as it was. |
| FsHistory.ClearForgets | firmware/nRF_badge/data_collector/incl/filesystem_lib.c:847-900 | A clear succeeds and leaves a partition that holds nothing. |
| FsHistory.RestartRecovers | firmware/nRF_badge/data_collector/incl/filesystem_lib.c:662-844 | Registering one partition again rebuilds its record from storage alone, with all it holds, and writes nothing. |
| FsHistory.WalkInLapYieldsNewest | firmware/nRF_badge/data_collector/incl/filesystem_lib.c:1263-1401 | In any partition a walk no longer than what is reachable yields the newest payloads. |
| FsKeep.StoreKeeps | firmware/nRF_badge/data_collector/incl/filesystem_lib.c:906-1150 | A successful store keeps the log invariant: old elements out of its reach stay byte for byte, the new one follows with the next record identifier and the right exclusive or of lengths. |
| FsWalk.InitAtLatest | firmware/nRF_badge/data_collector/incl/filesystem_lib.c:1263-1292 | Initialising the iterator puts it on the latest element and writes nothing. |
| FsWalk.PreviousIsPrevious | firmware/nRF_badge/data_collector/incl/filesystem_lib.c:568-646 | A step back from a reachable element yields the reachable element stored before it, across the wrap too. |
| FsWalk.NextUndoesPrevious | firmware/nRF_badge/data_collector/incl/filesystem_lib.c:481-646 | On every reachable element of any partition, a step back and a step forward return the same iterator and write nothing. |
| FsWalk.WalkFindsReachable | firmware/nRF_badge/data_collector/incl/filesystem_lib.c:1335-1401 | A walk of a number of steps finds identifiers and payloads of exactly the newest reachable elements, in order. |
| FsWalk.NothingBehindLatest | firmware/nRF_badge/data_collector/incl/filesystem_lib.c:1300-1333 | From the latest element a step forward succeeds if the identifiers have come round to the first element, and finds nothing otherwise. |
| FsClear.ClearEmpties | firmware/nRF_badge/data_collector/incl/filesystem_lib.c:847-900 | After a clear the partition is empty, whatever it held, and reading the first header finds nothing; the next element goes to the start, with the identifier after that of the first element cleared. |
| FsClear.ErasedIsBad | firmware/nRF_badge/data_collector/incl/filesystem_lib.c:365-461 | The checksum of erased metadata and header never matches, for all header lengths: erased storage is no header. |
| FsRecovery.ScanRecovers | firmware/nRF_badge/data_collector/incl/filesystem_lib.c:662-844 | Scanning storage with a fresh record yields the record the partition had, latest address, identifier and length included, and writes nothing. |
| FsRecovery.ScanFindsNothing | firmware/nRF_badge/data_collector/incl/filesystem_lib.c:662-844 | Scanning an empty partition finds no element. |
| FsTypes.MetadataRoundTrip | firmware/nRF_badge/data_collector/incl/filesystem_lib.c:248-281 | Metadata survive the trip through their fourteen bytes. |
| FsTypes.HeaderRoundTrip | firmware/nRF_badge/data_collector/incl/filesystem_lib.c:291-342 | An element header survives the trip through its two to six bytes, but for the fields its partition does not keep. |
| FsBytes.MetadataStands | firmware/nRF_badge/data_collector/incl/filesystem_lib.c:248-281 | The fourteen bytes of metadata, by arithmetic: checksum, identifier, size, length of the first element and last address at offsets 0, 2, 4, 8 and 10, high byte first. |
| FsBytes.HeaderStands | firmware/nRF_badge/data_collector/incl/filesystem_lib.c:291-342 | The bytes of a header, by arithmetic: the record identifier, then the exclusive or of lengths in dynamic partitions, then the checksum where there is one, high byte first. |
| FsBytes.ElementBytes | firmware/nRF_badge/data_collector/incl/filesystem_lib.c:1119-1138 | What it means that an element lies in storage: its header in these bytes, with the checksum of its payload, and its payload behind them. |
| FsBytes.FirstElementBytes | firmware/nRF_badge/data_collector/incl/filesystem_lib.c:1008-1138 | What it means for the first element: metadata, header, payload, and a checksum over all that follows it up to the payload. |
| FsBytes.SwapSlots | firmware/nRF_badge/data_collector/incl/filesystem_lib.c:134-142 | The copy of partition number k in the swap page stands at 20 k. |
| FsBytes.JudgedByBytes | firmware/nRF_badge/data_collector/incl/filesystem_lib.c:365-461 | A first header counts if and only if its first two bytes are the checksum of the rest, and identifier, size and, unless the partition is dynamic, length of the first element are those registered; the copy in the swap page is tried exactly for a wrong checksum. |
| FsBytes.ReadsWhatStands | firmware/nRF_badge/data_collector/incl/filesystem_lib.c:365-461 | Reading a header behind the first one succeeds if and only if storage has as many bytes, and yields what stands there, with 0 for the fields the partition does not keep. |
| FsBytes.ValidIffStands | firmware/nRF_badge/data_collector/incl/filesystem_lib.c:1171-1207 | An iterator behind the first element is found valid if and only if the bytes of the header it has read still stand there; otherwise it is invalidated. |
| FsBytes.ConflictAnswers | firmware/nRF_badge/data_collector/incl/filesystem_lib.c:1223-1260 | An iterator whose header no longer stands is invalidated and in nobody's way; if its header cannot be read the check fails with an internal error. |
| FsBytes.NextStaysInside | firmware/nRF_badge/data_collector/incl/filesystem_lib.c:1300-1333 | Whatever storage holds, a step forward leads to the partition start or to an element that ends in the partition. |
| FsBytes.PreviousStaysInside | firmware/nRF_badge/data_collector/incl/filesystem_lib.c:1335-1369 | Whatever storage holds, a step back leads to an element that begins and ends in the partition. |
| FsBytes.InitAnswers | firmware/nRF_badge/data_collector/incl/filesystem_lib.c:1263-1292 | Whatever storage holds: initialising the iterator leaves it valid if and only if it succeeds, on the latest element, with the header that stands there; without elements it reports an invalid state. |
| FsBytes.ReadAnswers | firmware/nRF_badge/data_collector/incl/filesystem_lib.c:1371-1401 | Whatever storage holds: reading an element whose header stands yields the bytes behind it, and reports invalid data if and only if the partition has checksums and theirs is another one. |
| FsBytes.NothingFoundStays | firmware/nRF_badge/data_collector/incl/filesystem_lib.c:1300-1369 | A step that finds nothing leaves the iterator as it was. |
| FsRing.RingGrows | firmware/nRF_badge/data_collector/incl/filesystem_lib.c:906-1150 | After n stores the chain, what is left of the lap before, and the address of the last element are those of a ring of slots; one more store leads to the ring after n + 1. |
| FsRingExact.RingIsExactIff | firmware/nRF_badge/data_collector/incl/filesystem_lib.c:568-646 | Walks of every length find as many elements as there are slots, and then end, if and only if the partition is in none of the exceptional cases. |
| FsRingExact.PeriodCycles | firmware/nRF_badge/data_collector/incl/filesystem_lib.c:568-646 | With a multiple of 65534 slots and a full lap after the first, a step back from the first element leads to the latest one. |
| FsRingExact.WalkInRing | firmware/nRF_badge/data_collector/incl/filesystem_lib.c:1335-1401 | What a walk of any length yields in every case: all reachable elements, and then the code for nothing found; or, where the identifiers come round, elements for ever. |
| FsFills.StoresSucceed | firmware/nRF_badge/data_collector/incl/filesystem_lib.c:906-1150 | A static partition with a header's worth of storage behind its last slot takes any number of payloads: every single store succeeds, and they are remembered in order. |
| FsFills.FilledRing | firmware/nRF_badge/data_collector/incl/filesystem_lib.c:906-1150 | From an empty partition any payloads can all be stored, and the walk back is then exact if and only if the condition on slots and stores holds; the exceptional cases are reached. |
| FsFills.TwoSlotsForget | firmware/nRF_badge/data_collector/incl/filesystem_lib.c:1028-1040 | Two slots, three stores: all succeed, and the walk yields the last payload and nothing more, where two were due. |
| FsFills.LastSlotRefused | firmware/nRF_badge/data_collector/incl/filesystem_lib.c:481-506 | Where storage ends less than a header behind the last slot, the store that would fill the last slot is refused and changes nothing. |
| FsFrozen.NeverFull | firmware/nRF_badge/data_collector/incl/filesystem_lib.c:481-506 | In no run whatsoever does such a partition ever hold as many payloads as it has slots: its ring never closes. |
| FsFrozen.LastPartitionHasNoRoom | firmware/nRF_badge/data_collector/incl/filesystem_lib.c:101-125 | A static partition that ends with storage, and wastes less than a header behind its last slot, is such a partition. |
| FsSucceeds.StoreSucceedsIff | firmware/nRF_badge/data_collector/incl/filesystem_lib.c:906-1000 | A store succeeds if and only if its length is legal, its element fits into the partition, as many bytes as a header has follow it in storage, and no valid iterator stands on an element it would touch. |
| FsSucceeds.StoreAnswers | firmware/nRF_badge/data_collector/incl/filesystem_lib.c:906-1000 | The result code of every store: invalid parameter for an illegal length, else no memory for an element that does not fit, else success or internal error according to the same conditions. |
| FsSucceeds.RefusedAtEnd | firmware/nRF_badge/data_collector/incl/filesystem_lib.c:499-506 | A store whose element would end less than a header before the end of storage is refused, whatever room its partition has, and changes nothing. |
| FsComesRound.StoreErasesUnderIterator | firmware/nRF_badge/data_collector/incl/filesystem_lib.c:974-999 | With a multiple of 65534 slots a store succeeds although a valid iterator stands on the element behind it, and the iterator is then found invalid: the store has erased that element's header. |
| FsComesRound.SecondSlotIsNext | firmware/nRF_badge/data_collector/incl/filesystem_lib.c:974-999 | After a full first lap the element in slot 1 is in this place. |
| FsIterator.ConflictIsIntersection | firmware/nRF_badge/data_collector/incl/filesystem_lib.c:1245-1256 | The three-case overlap test holds if and only if the two ranges have an address in common. |
| FsIterator.ForbiddenIffTouching | firmware/nRF_badge/data_collector/incl/filesystem_lib.c:1223-1260 | The conflict check forbids a store if and only if the new element and the element of the iterator, from the start of its unit on, have an address in common. |
| FsComesRound.StoreSparesIff | firmware/nRF_badge/data_collector/incl/filesystem_lib.c:966-999 | Static partitions: a successful store leaves the element under a valid iterator in the log, byte for byte, and the iterator reads on as before, if and only if it is not that the slots are a multiple of 65534 and the element lies directly behind the new one. |
| FsIterator.StoreSparesIterator | firmware/nRF_badge/data_collector/incl/filesystem_lib.c:966-999 | The half of this that promises: the element stays in the log with every one of its bytes. |
| FsIterator.IteratorStays | firmware/nRF_badge/data_collector/incl/filesystem_lib.c:1371-1401 | Then the iterator reads the same payload and identifier as before. |
| FsUnderIterator.StoreUnderIterator | firmware/nRF_badge/data_collector/incl/filesystem_lib.c:966-999 | Partitions of either kind: a successful store leaves the element under a valid iterator byte for byte, and the iterator reads on, unless the element begins among the bytes of a header that is erased as a stale successor; an element whose own header is taken for the successor does change. |
| FsIterator.CorruptionIsNoticed | firmware/nRF_badge/data_collector/incl/filesystem_lib.c:1390-1396 | In a partition with checksums, reading an element of which up to two adjacent payload bytes were corrupted reports invalid data. |
| FsIteratorRuns.RunsKeepStanding | firmware/nRF_badge/data_collector/incl/filesystem_lib.c:1171-1401 | In every run whose restarts leave iterators invalid or untouched, every valid iterator of such a partition that holds something stands on one of its elements. |
| FsIteratorRuns.ReadsTheSame | firmware/nRF_badge/data_collector/incl/filesystem_lib.c:906-1401 | Across any number of stores into its partition and anything on other partitions, a valid iterator stays where it is and reads the same payload and identifier as before. |
| Storer.Reader.Find | firmware/nRF_badge/data_collector/incl/storer_lib.c:226-291 | Going back with the iterator ends behind the latest chunk that is older than asked for, or at the oldest element; nothing but the iterator changes. Without data it reports so. |
| Storer.Reader.GetNext | firmware/nRF_badge/data_collector/incl/storer_lib.c:312-345 | The next chunk in the order of storing that can be decoded is returned, and what cannot be decoded is skipped; if there is none, that is reported and the iterator is invalidated. |
| Storer.Reader.CollectSince | firmware/nRF_badge/data_collector/incl/storer_lib.c:226-345 | A search and then chunk after chunk until there is none: exactly the chunks behind the latest older one, oldest first, none twice, none left out. |
| Storer.SinceIsNotOlder | firmware/nRF_badge/data_collector/incl/storer_lib.c:146-150 | If chunks were stored in the order of their timestamps, these are all the chunks that are not older, and no others. |
| Storer.RunsServe | firmware/nRF_badge/data_collector/incl/storer_lib.c:226-345 | After any run of operations on all partitions, restarts included, such a request can be served from a static partition, and is served from the payloads stored last, as many as there are slots. |
| Storer.NothingBehindIff | firmware/nRF_badge/data_collector/incl/filesystem_lib.c:1300-1333 | From the latest element a step forward finds nothing if and only if the number of elements in the lap is no multiple of 65534; otherwise it succeeds. |
| FsStaleCopy.CopyRestoresIff | firmware/nRF_badge/data_collector/incl/filesystem_lib.c:1071-1083 | After a registration an append in the first unit copies the first header from RAM to the swap page. If the header at the start is then lost, reading falls back on the copy: it passes if and only if the checksum cannot tell the header in RAM from the first one, and restores the first one if and only if they agree in what the partition keeps. |
| FsStaleCopy.AppendCopiesRecord | firmware/nRF_badge/data_collector/incl/filesystem_lib.c:1064-1083 | On units of any size, such an append leaves the RAM record, as it stands, in the slot of the swap page. |
| FsStaleCopy.CopyOfResetIsLost | firmware/nRF_badge/data_collector/incl/filesystem_lib.c:771-844 | With RAM zero at the registration, in a static partition without element checksums, the copy never passes: the partition is found empty. |
| FsStaleCopy.StaleCopyInput | firmware/nRF_badge/data_collector/incl/filesystem_lib.c:1064-1083 | A partition of one element in flash with units of 1024 bytes, where the next store goes to the first unit and its copy does not pass. |
| FsStaleCopy.ChecksumCollides | firmware/nRF_badge/data_collector/incl/filesystem_lib.c:400-445 | Two different headers that no checksum tells apart, so that the condition on checksums is not the one on headers. |
| FsStaleCopy.OneFieldTells | firmware/nRF_badge/data_collector/incl/filesystem_lib.c:400-445 | Headers that differ in one field only are told apart. |
| FsPowerCut.CutStore | firmware/nRF_badge/data_collector/incl/filesystem_lib.c:1019-1110 | A store cut between or inside any of its storage operations leaves the first header that was there or the new one, and the next registration finds one if there was one (a torn copy fails its checksum). |
| FsPowerCut.StoreKeepsOrder | firmware/nRF_badge/data_collector/incl/filesystem_lib.c:906-1150 | A store that is not cut keeps the order of the two copies of the first header on which this rests. |
| FsCutRuns.CutClear | firmware/nRF_badge/data_collector/incl/filesystem_lib.c:847-900 | A clear cut anywhere leaves the first header that was there, or none. |
| FsCutRuns.CutRestore | firmware/nRF_badge/data_collector/incl/filesystem_lib.c:400-445 | A cut while the copy is being restored changes nothing about what is found. |
| FsCutRuns.RunsKeepFirst | firmware/nRF_badge/data_collector/incl/filesystem_lib.c:365-1110 | Over any run of stores, clears, registrations and power cuts in the middle of any of them, a first header once there is found by every later registration until a clear is begun. |
| FsCutRuns.CutKeepsElements | firmware/nRF_badge/data_collector/incl/filesystem_lib.c:1078-1138 | A store behind the latest element, wherever it is cut, leaves all elements of the lap as they were. |
| FsCutScan.CutAppendRecovers | firmware/nRF_badge/data_collector/incl/filesystem_lib.c:662-900 | A store behind the latest element is cut anywhere, and storage goes on behind the partition: the next registration succeeds, ends at the old latest element or at or behind the place of the new one, and walking back from there yields the whole lap that was there. |
| FsCutScan.LapRecovers | firmware/nRF_badge/data_collector/incl/filesystem_lib.c:662-900 | The same for a lap with any bytes whatever behind it. |
| FsCutScan.Retraces | firmware/nRF_badge/data_collector/incl/filesystem_lib.c:568-716 | Wherever the forward search goes, whatever bytes it comes by, it ends, writes nothing, and the iterator steps back from its end to where it began, with the length it had there. |
| FsSystem.RegisterKeepsLayout | firmware/nRF_badge/data_collector/incl/filesystem_lib.c:771-844 | Registration keeps the layout: whole units, one partition behind the other, behind the swap page. |
| FsSystem.UnitsInOrder | firmware/nRF_badge/data_collector/incl/storage_lib.c:159-197 | Addresses in an earlier partition lie in units below those of a later one. |
| FsSystem.PartitionsShareNoUnit | firmware/nRF_badge/data_collector/incl/filesystem_lib.c:771-844 | Addresses in different partitions lie in different units. |
| FsSystem.SwapSlotsApart | firmware/nRF_badge/data_collector/incl/filesystem_lib.c:134-142 | The copies of different partitions in the swap page lie in it and do not overlap. |
| FsSystem.AvailableIsLeast | firmware/nRF_badge/data_collector/incl/filesystem_lib.c:101-125 | Space is handed out if and only if it begins at a unit boundary inside storage and some is asked for; it ends at the first unit boundary at or behind the end of what is asked for, or of what is left. |
| FsSystem.ResetTakesLeast | firmware/nRF_badge/data_collector/incl/filesystem_lib.c:736-748 | A reset sets the free address to the first unit boundary at or behind the 400 bytes of the swap page, and fails if and only if storage is smaller. |
| FsSystem.RegisterTakesLeast | firmware/nRF_badge/data_collector/incl/filesystem_lib.c:771-844 | A registration that succeeds puts its partition at the free address; the partition ends, and the next one begins, at the first unit boundary at or behind the end of what was asked for, or of what was left. |
| FsSystem.RegisterTakesAsked | firmware/nRF_badge/data_collector/incl/filesystem_lib.c:771-844 | On units of one byte the size is exactly the size asked for, as far as storage goes. |
| FsSystem.RegisterRefuses | firmware/nRF_badge/data_collector/incl/filesystem_lib.c:771-800 | The result code of a registration that is refused before storage is looked at: no memory for a twenty-first partition, invalid parameter for a static one without element length, no memory without space at a unit boundary. |
| FsSystem.RegisterGivesHandle | firmware/nRF_badge/data_collector/incl/filesystem_lib.c:771-844 | The handle is the number of the partition, plus 0x8000 if it is dynamic and 0x4000 if its elements have checksums, and is entered in its record. |
| FsSystem.RegisterSparesOthers | firmware/nRF_badge/data_collector/incl/filesystem_lib.c:771-844 | A registration that fails leaves number and free address as they were; none touches the records of other partitions. |
| FsSystem.BoundaryIsAvailable | firmware/nRF_badge/data_collector/incl/filesystem_lib.c:101-125 | Registration finds space whenever storage has some behind the last partition. |
| Filesystem.Store.ReadElementHeader | firmware/nRF_badge/data_collector/incl/filesystem_lib.c:365-461 | The statements of the code, over storage and records that change in place, do to them exactly what the function says that the theorems are about: reading a header, with the copy in the swap page and its repair. |
| Filesystem.Store.GetNextElementHeader | firmware/nRF_badge/data_collector/incl/filesystem_lib.c:481-546 | The statements of the code, over storage and records that change in place, do to them exactly what the function says that the theorems are about: looking for the next header. |
| Filesystem.Store.GetPreviousElementHeader | firmware/nRF_badge/data_collector/incl/filesystem_lib.c:568-646 | The statements of the code, over storage and records that change in place, do to them exactly what the function says that the theorems are about: looking for the previous header. |
| Filesystem.Store.FindLatestElement | firmware/nRF_badge/data_collector/incl/filesystem_lib.c:662-716 | The statements of the code, over storage and records that change in place, do to them exactly what the function says that the theorems are about: the search for the latest element, a loop that ends because addresses grow. |
| Filesystem.Store.CheckIterator | firmware/nRF_badge/data_collector/incl/filesystem_lib.c:1171-1207 | The statements of the code, over storage and records that change in place, do to them exactly what the function says that the theorems are about: checking the iterator. |
| Filesystem.Store.CheckIteratorConflict | firmware/nRF_badge/data_collector/incl/filesystem_lib.c:1223-1260 | The statements of the code, over storage and records that change in place, do to them exactly what the function says that the theorems are about: checking a store against the iterator. |
| Filesystem.Store.StoreElement | firmware/nRF_badge/data_collector/incl/filesystem_lib.c:906-1150 | The statements of the code, over storage and records that change in place, do to them exactly what the function says that the theorems are about: storing. |
| Filesystem.Store.ClearPartition | firmware/nRF_badge/data_collector/incl/filesystem_lib.c:847-900 | The statements of the code, over storage and records that change in place, do to them exactly what the function says that the theorems are about: clearing. |
| Filesystem.Store.IteratorInit | firmware/nRF_badge/data_collector/incl/filesystem_lib.c:1263-1292 | The statements of the code, over storage and records that change in place, do to them exactly what the function says that the theorems are about: initialising the iterator. |
| Filesystem.Store.IteratorNext | firmware/nRF_badge/data_collector/incl/filesystem_lib.c:1300-1333 | The statements of the code, over storage and records that change in place, do to them exactly what the function says that the theorems are about: the step forward. |
| Filesystem.Store.IteratorPrevious | firmware/nRF_badge/data_collector/incl/filesystem_lib.c:1335-1369 | The statements of the code, over storage and records that change in place, do to them exactly what the function says that the theorems are about: the step back. |
| Filesystem.Store.IteratorReadElement | firmware/nRF_badge/data_collector/incl/filesystem_lib.c:1371-1401 | The statements of the code, over storage and records that change in place, do to them exactly what the function says that the theorems are about: reading the element. |
| Filesystem.Store.RegisterPartition | firmware/nRF_badge/data_collector/incl/filesystem_lib.c:771-844 | Registration in place leads from the state of all partitions to the one that `FsSystem.RegisterTakesLeast` and the other theorems are about, with its result code, handle and size, and the same writes. |
| Filesystem.Store.Execute | firmware/nRF_badge/data_collector/incl/filesystem_lib.c:906-1401 | Any operation on a partition changes storage, record and iterator as in a step of a run. |
| Filesystem.Store.DidIsAfter | firmware/nRF_badge/data_collector/incl/filesystem_lib.c:906-1401 | What a method did in place is a step of a run of the whole system. |
| Filesystem.Store.Restart | firmware/nRF_badge/data_collector/incl/filesystem_lib.c:736-844 | Reset and repeated registrations in place are the restart of a run. |
| Crc16.Compute | firmware/nRF_badge/data_collector/incl/filesystem_lib.c:32-45 | The loop computes the register after the bytes, from a previous value or from all ones. |
| Crc16.ChecksumIsRemainder | firmware/nRF_badge/data_collector/incl/filesystem_lib.c:32-45 | The checksum of data of any length is the remainder of bit-by-bit division by x^16 + x^12 + x^5 + 1, with the all-ones preset. |
| Crc16.BlocksCompose | firmware/nRF_badge/data_collector/incl/filesystem_lib.c:32-45 | The checksum of consecutive blocks is computed block by block. |
| Crc16.BurstChangesChecksum | firmware/nRF_badge/data_collector/incl/filesystem_lib.c:32-45 | Two payloads of one length that differ only within two adjacent bytes have different checksums. |
| Units.GetUnitAddressLimits | firmware/nRF_badge/data_collector/incl/storage_lib.c:159-197 | The loop over the modules finds first and last address of the units around a range. |
| Units.LimitsAreSmallestCover | firmware/nRF_badge/data_collector/incl/storage_lib.c:159-197 | These limits are the smallest run of whole units that holds the range, across module borders. |
| Storage1.Driver.Store | firmware/nRF_badge/data_collector/incl/storage1_lib.c:531-589 | With a right table, a store with skipped erasures leaves the data, the prefix of the first page and all other pages as they were, and the rest of the last page erased. One that does not fit, or whose erasure is refused, changes no byte. The table stays right if and only if the store succeeds, is refused for its range, or the page of its end was erased behind it anyway. |
| Storage1.EnteredTooEarly | firmware/nRF_badge/data_collector/incl/storage1_lib.c:92-168 | If the erasure is refused after the table has been updated, all entries are right if and only if the new end is the last address of its page or the rest of that page was erased already. |
| Storage1.UnerasedReadsBackIff | firmware/nRF_badge/data_collector/incl/storage1_lib.c:531-589 | A store that the table exempts from erasing reads back if and only if it clears no bit that is clear already. |
| Storage1.FirstIsEntered | firmware/nRF_badge/data_collector/incl/storage1_lib.c:92-168 | A written page of four bytes: a store of one byte whose erasure is refused leaves an entry that is wrong. |
| Storage1.SpoiltStore | firmware/nRF_badge/data_collector/incl/storage1_lib.c:531-589 | A store behind it is then not preceded by an erasure, and reads back as another byte. |
| Storage1.Driver.StoreSeveral | firmware/nRF_badge/data_collector/incl/storage1_lib.c:531-589 | Any number of stores leaves flash byte for byte as it would be if every touched page were always erased. |
| Storage1.SkippingMakesNoDifference | firmware/nRF_badge/data_collector/incl/storage1_lib.c:531-589 | Over any list of stores, the effect with skipping equals the fold of the store that always erases. |
| Storage1.TableStaysRight | firmware/nRF_badge/data_collector/incl/storage1_lib.c:92-168 | Every address the table tracks has nothing but erased bytes between it and the end of its page, after any store, eviction from a full table included. |
| Storage1.Driver.ComputePagesToErase | firmware/nRF_badge/data_collector/incl/storage1_lib.c:92-168 | The pages to erase are those the range touches, without the first if and only if some address in the table lies in front of the range on that page; the table is updated. A range that leaves storage is refused. |
| Storage1Exempt.StoreAgain | firmware/nRF_badge/data_collector/incl/storage1_lib.c:92-168 | A store that ends at an address not the last of its page, any others that leave the page alone, then one on that page while the flash refuses to erase: it succeeds if and only if it lies behind the end of the first and no store in between has evicted that end from the table; with a free slot for each of these it succeeds if and only if it lies behind. Flash then holds what the stores say. |
| Storage1Exempt.EndIsHeld | firmware/nRF_badge/data_collector/incl/storage1_lib.c:92-168 | After a store that does not end with a page its end is in the table, and nothing else of that page. |
| Storage1Exempt.RunStaysIff | firmware/nRF_badge/data_collector/incl/storage1_lib.c:92-168 | Over any run of stores that leave the page alone, the end stays in the table unless one of them evicts it, and then nothing of the page is in the table any more. A store evicts it if and only if no slot is free, the store does not end with a page, and the end is the closest in front of its own, or, with none in front, the one in the first slot. |
| Storage1Exempt.FreeSlotsSpare | firmware/nRF_badge/data_collector/incl/storage1_lib.c:150-168 | As long as the table has a free slot for every store, nothing is evicted. |
| Storage1Exempt.ExemptIff | firmware/nRF_badge/data_collector/incl/storage1_lib.c:118-140 | With an end held alone on its page, some address of the table lies in front of a store on that page if and only if the store lies behind that end. |
| Storage1.ComputeWordAlignedAddresses | firmware/nRF_badge/data_collector/incl/storage1_lib.c:183-209 | The range is split exactly into a part inside the first word, whole words, and a part inside the last word. |
| Storage1.Driver.StoreBytes | firmware/nRF_badge/data_collector/incl/storage1_lib.c:226-366 | Storing bytes as padded words programs exactly these bytes: padding disturbs no neighbour. |
| Storage1.Driver.ReadBytes | firmware/nRF_badge/data_collector/incl/storage1_lib.c:380-493 | Reading words and cutting them yields exactly the bytes of the range. |
| Storage1.Driver.Read | firmware/nRF_badge/data_collector/incl/storage1_lib.c:593-602 | A read returns what flash holds. |
| Storage1.CountIsMost | firmware/nRF_badge/data_collector/incl/storage1_lib.c:613-633 | Of a range that leaves storage as many portions of 128 bytes are cleared as fit in front of its end. |
| Storage1.Driver.Clear | firmware/nRF_badge/data_collector/incl/storage1_lib.c:613-633 | A clear stores erased bytes chunk by chunk over the range, as far as it fits. |
| Storage.Split | firmware/nRF_badge/data_collector/incl/storage_lib.c:49-81 | The loop computes, for every module, the part of the range that lies in it. |
| Storage.PiecesTile | firmware/nRF_badge/data_collector/incl/storage_lib.c:49-81 | Every piece lies in its module, the pieces follow each other without gap or overlap, and together they are the range. |
| Storage.FlatWrite | firmware/nRF_badge/data_collector/incl/storage_lib.c:104-129 | Writing to one module is writing to the one flat memory. |
| Storage.Modules.Store | firmware/nRF_badge/data_collector/incl/storage_lib.c:104-129 | Storing on several modules is storing in the flat memory; if a bus gives up, a first part of the data has been stored and nothing else has changed; a range that does not fit is refused. |
| Storage.Modules.Read | firmware/nRF_badge/data_collector/incl/storage_lib.c:131-157 | Reading from several modules returns what the flat memory holds, and changes nothing. |
| Storage.Modules.Clear | firmware/nRF_badge/data_collector/incl/storage_lib.c:210-232 | Clearing a range erases exactly it, across modules; if a bus gives up, a first part of it; a range that does not fit is refused. |
| Eeprom.Device.Store | firmware/nRF_badge/data_collector/incl/eeprom_lib.c:206-274 | The range is written page by page: no transfer crosses a 128-byte boundary, the transfers tile what was written, there are as many as pages; a store that breaks off has written a first part up to a boundary. |
| Eeprom.Device.Read | firmware/nRF_badge/data_collector/incl/eeprom_lib.c:280-335 | The same for reading, which returns exactly the bytes of the range. |
| Eeprom.Device.Clear | firmware/nRF_badge/data_collector/incl/storage2_lib.c:68-87 | Clearing erases the range in chunks, as many as fit; if the bus gives up, exactly a first part of the range is erased. |
| Eeprom.TilesAtLeastPages | firmware/nRF_badge/data_collector/incl/eeprom_lib.c:206-274 | No fewer transfers would do. |
| Sender.NothingLost | firmware/nRF_badge/data_collector/incl/sender_lib.c:142-186 | At every moment of every interleaving of calls, timer interrupts and connections: what was sent, and then what is queued, is exactly what was accepted since the last reset, in packets of at most 20 bytes. |
| Sender.NoLostWakeUp | firmware/nRF_badge/data_collector/incl/sender_lib.c:265-304 | Whenever no call is in progress and something is queued, the flag is up and the timer runs. |
| Sender.AllOrNothing | firmware/nRF_badge/data_collector/incl/sender_lib.c:265-304 | A call writes all of its data or nothing: the space it found is still there. |
| Sender.QueuedIsSent | firmware/nRF_badge/data_collector/incl/sender_lib.c:142-186 | From any moment without a call in progress, enough ticks that get through send all that was accepted. |
| Sender.TickSends | firmware/nRF_badge/data_collector/incl/sender_lib.c:142-186 | A tick that gets through takes exactly the first twenty bytes of the queue, or all if there are fewer, into one packet; one that does not leaves queue and packets alone. |
| Sender.ConnectionsAreFresh | firmware/nRF_badge/data_collector/incl/sender_lib.c:57-110 | Whenever a connection begins or ends the queue is emptied and nothing is being sent. |
| Sender.RunKeeps | firmware/nRF_badge/data_collector/incl/sender_lib.c:57-304 | The invariant behind this holds in every run. |
| Sender.Transmitter.Transmit | firmware/nRF_badge/data_collector/incl/sender_lib.c:265-304 | The statements of the code, with interrupts between any two of them, are a run of the machine: one call with these data, and no other. Not connected, it answers so and changes nothing. With room at once and no interrupt behind the look for it, it succeeds, the data stand behind the queue and the timer runs. It gives up for want of memory only when the time is up and there is still no room, or nothing to queue. If only the timer interrupts, all bytes are accepted on success and none otherwise. |
| Sender.Transmitter.TransmitQueuedBytes | firmware/nRF_badge/data_collector/incl/sender_lib.c:142-186 | The timer interrupt, on the ring buffer with its positions, is one step of the machine. |
| Sender.Transmitter.Enqueue | firmware/nRF_badge/data_collector/incl/sender_lib.c:265-304 | Writing to the ring buffer appends as many bytes as there is space for. |
| Framing.RequestsAreFrames | firmware/nRF_badge/data_collector/incl/request_handler_lib_02v1.c:382-454 | In every run without overflow the requests handed on are the first frames of the received stream, in order; each carries the time of the packet with its first byte. |
| Framing.AtRestAllHandedOn | firmware/nRF_badge/data_collector/incl/request_handler_lib_02v1.c:382-454 | When the handler has nothing more to do, all whole frames received have been handed on. |
| Framing.PackingDoesNotMatter | firmware/nRF_badge/data_collector/incl/request_handler_lib_02v1.c:382-454 | Two runs that received the same bytes in different packets have handed on the same payloads. |
| Framing.LengthsAddUp | firmware/nRF_badge/data_collector/incl/request_handler_lib_02v1.c:424-454 | Between requests the lengths of the notifications add up to the bytes in the receive queue. |
| Framing.WholeFrameIsHandedOn | firmware/nRF_badge/data_collector/incl/request_handler_lib_02v1.c:382-454 | A whole frame in the queue is handed on in three steps, with the time of its first byte. |
| Framing.AnnouncedBytes | firmware/nRF_badge/data_collector/incl/request_handler_lib_02v1.c:405-416 | The length of a request is in its first two bytes, high byte first. |
| Framing.QueuesStayBounded | firmware/nRF_badge/data_collector/incl/sender_lib.c:111-131 | In every run, overflow or not, the receive queue holds at most 128 bytes and the notification queue at most 10 notifications. |
| Framing.ArrivalTakes | firmware/nRF_badge/data_collector/incl/sender_lib.c:111-131 | Of a packet the receive queue takes the first bytes, as many as it has room for, and the notification queue takes its notification if it has a place. |
| Framing.ConsumeDrops | firmware/nRF_badge/data_collector/incl/request_handler_lib_02v1.c:424-454 | Taking the notifications of n bytes leaves those of the bytes behind, and fails if and only if there are fewer than n. |
| Framing.ConsumeIgnoresArrival | firmware/nRF_badge/data_collector/incl/request_handler_lib_02v1.c:333-370 | A packet that comes in while notifications are being taken does not change which ones are taken. |
| Framing.Receiver.ConsumeNotifications | firmware/nRF_badge/data_collector/incl/request_handler_lib_02v1.c:424-454 | The consuming loop with peek, adapt and consume takes exactly these notifications. |
| Framing.Receiver.OnReceive | firmware/nRF_badge/data_collector/incl/sender_lib.c:111-131 | A packet that comes in goes to the byte queue, as far as there is room, and leaves one notification. |
| Framing.Receiver.Process | firmware/nRF_badge/data_collector/incl/request_handler_lib_02v1.c:382-496 | The code, with packets coming in while it waits, is a run of the machine. With nothing notified it does nothing. A whole frame in the queue that decodes is handed on, with its bytes and its time. Without overflow it hands on a request if and only if something was received and what is there, together with the packets that come in while it waits first for a header and then for as many bytes as that announces, begins with a whole frame that decodes; the request is that frame. Otherwise both queues are flushed. |
| Wire.RequestsArrive | firmware/nRF_badge/data_collector/incl/request_handler_lib_02v1.c:382-454 | However the bytes of any encoded requests are packed, without overflow: what the handler has handed on decodes to exactly these requests, in order. |
| Wire.FramedBytes | BadgeFramework/badge.py:113-119 | A request is sent as the length of its message in two bytes, high byte first, and the message. |
| Codec.RoundTrip | BadgeFramework/badge_protocol.py:2062-2412 | Decoding an encoded message followed by anything gives the message back and leaves exactly what followed. |
| Codec.RoundTripIff | BadgeFramework/badge_protocol.py:388-431 | Of all values that the encoder accepts, those come back, and only those, in which arrays have their length and nothing stands behind a flag that says so. |
| Codec.DecodesIffEncoded | BadgeFramework/badge_protocol.py:3202-3393 | A buffer decodes to a message and a rest if and only if it is the encoding of that message followed by the rest. |
| Codec.PrefixFree | BadgeFramework/badge_protocol.py:2062-2412 | No encoding begins another one; different messages have different encodings. |
| Codec.EncodeInternal | BadgeFramework/badge_protocol.py:55-59 | The encoder succeeds if and only if numbers are in range, lists have at most 255 items and no part is missing, and then appends the encoding, whose bytes `RequestBytes.RequestBytes` and `ResponseBytes.AnswerBytes` give for every message. |
| Codec.DecodeInternal | BadgeFramework/badge_protocol.py:61-69 | The decoder consumes exactly the bytes of the message, or raises an exception if and only if no message is there. |
| RequestBytes.RequestBytes | BadgeFramework/badge_protocol.py:637-2412 | For each of the 29 requests and all values of its fields: the encoder accepts it and writes given bytes if and only if these are the tag and then every field at its offset, numbers by arithmetic, high byte first, and nothing else. So it accepts exactly the fields that fit their places. |
| RequestBytes.RequestDecodes | BadgeFramework/badge_protocol.py:637-2412 | The decoder makes a given request of a buffer if and only if these are all of its bytes. |
| RequestBytes.SinceBytes | BadgeFramework/badge_protocol.py:2098-2210 | The seven bytes of one request: tag 12, then 70000 seconds in four bytes and 5 milliseconds in two. |
| ResponseBytes.AnswerBytes | BadgeFramework/badge_protocol.py:2414-3393 | For each of the 13 responses and all values of its fields, lists of any length up to 255 included: the encoder accepts it and writes given bytes if and only if these are the tag and then every field at its offset, signed numbers in two's complement, lists behind their length, and nothing else. |
| ResponseBytes.AnswerDecodes | BadgeFramework/badge_protocol.py:2414-3393 | The decoder makes a given response of a buffer if and only if these are all of its bytes. |
| MessageBytes.ListStands | BadgeFramework/badge_protocol.py:2756-2760 | A list stands as its length in one byte and its items one behind the other. |
| MessageBytes.StructStands | BadgeFramework/badge_protocol.py:659-668 | Fields stand one behind the other, in the order of the schema. |
| Messages.RequestsAreShort | BadgeFramework/badge_protocol.py:2062-2412 | No request is longer than 18 bytes, so that the receive queue of the badge can hold it. |
| Responses.ResponsesArrive | firmware/nRF_badge/data_collector/incl/sender_lib.c:142-304 | At every moment of every interleaving of calls, interrupts, connections and failed packets, the hub has heard the first ones of the responses accepted since the last reset, in order and decoded: exactly those whose bytes have all been sent. |
| Responses.AllResponsesArrive | firmware/nRF_badge/data_collector/incl/sender_lib.c:142-304 | From any moment without a call in progress, enough ticks that get through let the hub hear all of them. |
| Responses.HearsWholeOnes | BadgeFramework/badge.py:125-130 | Of a stream of framed responses that has arrived in part the hub hears exactly those that are whole, and nothing else. |
| Responses.FrameBytes | firmware/nRF_badge/data_collector/incl/request_handler_lib_02v1.c:499-533 | A response is sent as the length of its message in two bytes, high byte first, and the message. |
| Responses.ResponsesAreShort | firmware/nRF_badge/data_collector/incl/request_handler_lib_02v1.c:499-533 | No response is longer than 5112 bytes, so that two bytes hold its length. |
| CircularFifo.Fifo.Flush | firmware/nRF_badge/data_collector/incl/circular_fifo_lib.c:22-25 | After a flush nothing is unread. |
| CircularFifo.Fifo.Put | firmware/nRF_badge/data_collector/incl/circular_fifo_lib.c:38-51 | A full ring drops its oldest byte, or, while it is being read, the new one. |
| CircularFifo.Fifo.Write | firmware/nRF_badge/data_collector/incl/circular_fifo_lib.c:66-72 | The content is the most recent of unread and written bytes that fit the capacity. |
| CircularFifo.Fifo.Read | firmware/nRF_badge/data_collector/incl/circular_fifo_lib.c:53-64 | What is read, and then what is left, is what was there and then, of each interrupting write, exactly as much as there was room for when it came: nothing is overwritten while it is being read; without interruption a prefix of the content is read. |
| CircularFifo.AllTakenIn | firmware/nRF_badge/data_collector/incl/circular_fifo_lib.c:53-72 | With room for all of them, the interrupting writes are taken in whole, one behind the other, up to the one before the last byte read. |
| CircularFifo.Fifo.GetSize | firmware/nRF_badge/data_collector/incl/circular_fifo_lib.c:75-83 | The size is the number of unread bytes. |
| CircularFifo.ContentIsLatest | firmware/nRF_badge/data_collector/incl/circular_fifo_lib.c:27-83 | After any calls that do not interrupt each other the content is what was written last, in order and without gaps. |
| CircularFifo.WholeElements | firmware/nRF_badge/data_collector/incl/circular_fifo_lib.c:53-72 | If the capacity is a multiple of the element size, the content after whole elements is whole elements, the most recent ones, and reads of whole elements return the first ones. |
| CircularFifo.KeepsWholeIffMultiple | firmware/nRF_badge/data_collector/incl/circular_fifo_lib.c:66-72 | Whole elements are kept whole, whatever is written, if and only if the capacity is a multiple of the element size. |
| ChunkFifo.Fifo.ReadOpen | firmware/nRF_badge/data_collector/incl/chunk_fifo_lib.c:23-38 | The reader gets the oldest unread chunk, with the content it had when it was finished, if there is one. |
| ChunkFifo.Fifo.ReadClose | firmware/nRF_badge/data_collector/incl/chunk_fifo_lib.c:40-55 | The chunk leaves the queue; the case the code marks as impossible is impossible. |
| ChunkFifo.Fifo.WriteOpen | firmware/nRF_badge/data_collector/incl/chunk_fifo_lib.c:57-65 | The place handed to the writer is not the one being read. |
| ChunkFifo.Fifo.Fill | firmware/nRF_badge/data_collector/incl/chunk_fifo_lib.c:57-65 | Filling the open place changes no unread chunk, nor the one being read. |
| ChunkFifo.Fifo.WriteClose | firmware/nRF_badge/data_collector/incl/chunk_fifo_lib.c:67-85 | The chunk joins the queue if and only if it was open and the queue is not full; otherwise nothing unread changes. |
| ChunkFifo.Fifo.NumberOfChunks | firmware/nRF_badge/data_collector/incl/chunk_fifo_lib.c:87-95 | The count is the length of the queue. |
| ChunkFifo.Calls | firmware/nRF_badge/data_collector/incl/chunk_fifo_lib.c:23-95 | Under any interleaving of calls, chunks are read in the order in which they were finished, none twice, none left out. |
| ScanAggregation.Chunk.OnReport | firmware/nRF_badge/data_collector/incl/sampling_lib.c:1180-1216 | After any matching reports the entries are the first 255 distinct devices in the order first seen, each with its count up to 255 and the maximum or sum of exactly the counted signals; other reports change nothing. |
| ScanAggregation.Chunk.Finish | firmware/nRF_badge/data_collector/incl/sampling_lib.c:1241-1252 | Every entry gets the maximum, or the mean towards zero, of its counted signals. |
| ScanAggregation.Chunk.Setup | firmware/nRF_badge/data_collector/incl/sampling_lib.c:1229-1239 | A new chunk has seen no reports. |
| ScanAggregation.ValueIsBetween | firmware/nRF_badge/data_collector/incl/sampling_lib.c:1241-1252 | That value lies between the weakest and the strongest counted signal, so that the cast to eight bits loses nothing. |
| ScanAggregation.ValueMeans | firmware/nRF_badge/data_collector/incl/sampling_lib.c:1241-1252 | The value is the strongest counted signal, or the sum of the counted ones divided by their number, with the magnitude rounded down and the sign of the sum. |
| ScanAggregation.DevicesAreDistinct | firmware/nRF_badge/data_collector/incl/sampling_lib.c:1180-1216 | No device has two entries. |

## Left out

- The theorems about logs, rings, iterators and power cuts are about storage with units of one byte; `FsStaleCopy` and the
  conflict check are about units of any size. The functions and the class of the filesystem follow the code for all unit
  sizes, but they take `storage_store` as a flat write, while flash also erases the rest of the last page
  (`Storage1.Driver.Store`); no result connects the filesystem with flash.
- Failed operations of flash, EEPROM and radio inside the filesystem: storage operations succeed or the power is cut.
  `Storage.Modules.Store` says what a store leaves if a bus gives up.
- Storage1.Driver.Store: an erasure that is refused leaves flash as it was; one that breaks off half way, and programming that
  fails, are not covered.
- Storage.Modules.Store: the devices are byte devices (EEPROM); flash is not among them.
- Storage.Modules.Read: likewise.
- Storage.Modules.Clear: likewise.
- FsRuns.RunsYieldLap: what lies behind the current lap of a dynamic partition is not claimed; bytes left over from before
  may look like a header there.
- FsIterator.StoreSparesIterator: static partitions on byte units; `FsUnderIterator.StoreUnderIterator` is about dynamic ones,
  too, but does not say whether the element stays within reach of a walk.
- FsIterator.IteratorStays: likewise.
- FsUnderIterator.StoreUnderIterator: an element that begins inside, but not at, the bytes that are erased may or may not keep
  its bytes, depending on what they were.
- FsIteratorRuns.RunsKeepStanding: static partitions on byte units, and restarts are taken to leave iterators invalid or
  untouched.
- FsIteratorRuns.ReadsTheSame: static partitions on byte units.
- FsPowerCut.CutStore: byte units; a torn copy of a header is taken to fail its checksum, unless it is the old or the new one.
- FsCutScan.CutAppendRecovers: appends only; after a cut in a store to the partition start, `FsCutRuns.RunsKeepFirst` promises
  the first header, and nothing is promised about payloads. Where storage ends less than a header behind the partition, a torn
  header may send the search to the end of storage, and registration then fails with an internal error.
- FsCutScan.LapRecovers: storage has to go on behind the partition, for the same reason.
- Storer: decoding is a parameter, and stores between a search and the steps after it are not part of `Storer.Reader`; the
  results about stores under an iterator are in `FsComesRound` and `FsIteratorRuns`. The branches for elements that fail their
  checksum cannot be taken on intact storage.
- Crc16.BurstChangesChecksum: corruptions of more than two adjacent bytes.
- Sender: interrupts do not interrupt each other; `app_fifo` and `app_timer` are a byte queue and a flag. Positions of the
  ring buffer are unbounded numbers; those of the code wrap at 2^32, a multiple of the buffer size. The timeout that
  disconnects is one of the disconnections that may happen at any time.
- Framing: packets have at least one byte; what happens to the stream after an overflow of a queue; a connection that ends and
  begins again leaves notifications in their queue until the handler flushes them. An arrival inside the consuming loop
  counts as one before or behind it, which `Framing.ConsumeIgnoresArrival` justifies. Handlers of single requests, and the
  scheduling of responses.
- Responses: packets arrive in the order in which they were sent; the retries of the request handler.
- Codec: one encoder and one decoder interpret a schema, where the program has one class for each message. Floating point
  numbers are four bytes. The maximum list sizes that only the firmware checks.
- CircularFifo: a write that is itself interrupted. ChunkFifo: interrupts inside one call.
- ScanAggregation: timestamps, streaming of reports, and what later processing makes of the chunk.
- Sensors, radio, clock, self-tests, logging and the hub's user interface.
