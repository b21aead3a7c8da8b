# A verified model of the fatfs engine

This project models the FAT16/FAT32 engine of `fatfs.c` together with two of its companions, the ATA
transfer loops of `bdh8b16.c` and the bit reader of `rwporta.c`, and proves what they promise. Code that
works step by step in the original is a method or a class here, with loops, buffers and in-place updates
where the original has them. Each such method is proved against a specification (an abstract FAT, cluster
chains, runs, directory entries, the bytes of a file), and the lemmas then say what those specifications mean.

The layers, bottom up:

- `Bytes`, `Geometry`, `BlockDevice`: little-endian numbers and splices; the geometry derived from the boot
  sector, in 32-bit arithmetic; a block device as an array of sectors, some of which may be bad.
- `FatEntries`, `FatWindow`, `FatRuns`: raw entries and their meaning; the sliding write-back window over the
  on-disk FAT; and sessions of any length compared with the build that keeps the whole FAT in memory.
- `Volume`: what the file layer sees, a table of links and a sequence of cluster contents.
- `Chains`, `ChainOps`: chains, runs of adjacent clusters, batches of runs, walking, freeing and linking.
- `FreeSpace`, `FreeScan`, `Allocator`, `Requests`, `FreeOps`: the free counter, the filtered scan, the cached
  free-run list and the calls one store makes to it, first as functions and then as the class that is proved
  to compute them.
- `Ownership`: the volume and allocator as a state machine, with the invariant every run of it keeps.
- `FileLoad`, `FileStore`, `WriteRead`, `VolumeRuns`, `Cursor`, `Session`: reading and writing clusters through
  run lists, any sequence of stores and deletions on a volume as operations on the contents of its files, the
  seek/read cursor, and whole sessions on an open file.
- `Directory`, `LongNames`, `DirEdits`, `DirQuery`, `DirOps`, `DirSearch`, `DirLife`: directory slots, long
  names, what a search looks for, and creating, finding, updating and deleting entries.
- `AtaTransfer`, `BitReader`: the chunked transfers and the bit reader.

On-disk formats follow the Microsoft FAT32 File System Specification v1.03, sections "FAT Type
Determination", "FAT Data Structure" and "FAT Long Directory Entries".

## What the proofs found

Where the code does not do what one would expect, the model keeps the code and a lemma says when it is right:

- A refill of the free-run list in the middle of a request can hand out a cluster twice, which
  docs/Changelog:46-54 suspects. `Allocator.AllocExact` gives the exact condition for one call, for every cache
  with something in it, every request and every output length: the clusters handed out and those then cached
  are disjoint if and only if the cached runs and the rest of the scan they came from cover the request (or the
  output list is too short to use them up), or that scan is complete and the one that starts over finds
  nothing, or finds enough and none of what has just been handed out. A refill that continues the scan is
  harmless (`Allocator.AllocServed`); one that starts it over on an unchanged FAT is not
  (`Allocator.ServedAgain`, `Allocator.HandedOutTwice`). `Requests.Served` asks this disjointness of each call of
  a store; it is the guard of the store results, and `Requests.CoveredServed` a simple test for it. For a store
  whose calls come to an end it says just that no cluster is handed out twice or stays in the cache though handed
  out (`Requests.ServedIff`), and without it no such store can leave a sound volume (`FileStore.ServedNeeded`).
- A directory search whose argument begins with a zero byte accepts every entry (fatfs.c:651). An argument that
  is a long name is judged by the low byte of its first character, so that a name beginning with, say, U+4E00
  finds the first entry of the directory (`DirQuery.LongNameFoundIff`, `DirQuery.FindsTheOtherFile`). The
  update of an entry has the same fault, and with a name that begins with zero it can end the directory at its
  first entry; with the attribute of long-name slots it makes the entry vanish (`DirLife.UpdateFileInfo`).
- `fatuc_fseek` passes the old position on as a signed number. Between positions inside a file's chain a seek,
  forwards or backwards, ends with Ok and the right cursor if and only if it starts below 2 GiB
  (`Cursor.SeekRightIff`; `Cursor.SeekToStartFails` is one that ends with Ok on a wrong cluster).
- After a full `fatuc_fread` the cursor is right if and only if the new position is not on a cluster boundary,
  or the read started on one, or the chain ends there (`Cursor.Delivered`, `Cursor.AlignedEndFails`); for a read
  cut off at the end of the file the exact condition is given too. The error return commented as impossible is
  indeed never taken for a file whose size fits its chain. A read that a transfer breaks off may leave the
  cursor on a later cluster (`Cursor.Interrupted`). A seek behind the chain, or a read cut off at the end of the
  file, leaves the cursor where the last batch of the walk started (`Cursor.LastEnters`); `Session.Run` follows it
  through any sequence of seeks and reads.
- The scan for free clusters ends at `cntDataClus` (fatfs.c:826, marked FIXMAYBE there), while data clusters are
  numbered up to `cntDataClus + 1`: the last two are never counted and never handed out.
  `fatfs_update_freeclusters` succeeds only if the scanned part has between one and eight free runs, because the
  condition at fatfs.c:1299 holds for every other result, and its count is the number of free clusters if and
  only if, besides, neither of the last two is free (`FreeOps.FreeClusters.UpdateFreeClusters`,
  `FreeOps.CountExactIff`; `FreeOps.LastClusterMissed` is a volume of four clusters on which it is not).
- A store answers as the allocator's calls end (`Requests.EndOf`). So one that ends exactly at the end of a
  file's chain fails with NoMore, although all is written, if and only if the free-run cache has given up for
  good (`Requests.ServedNothing`); and one that finds the volume full has written and linked what it found, but
  what its last call had taken from the cache is dropped (`FileStore.StoreFileClus`).
- The clusters a store takes up hold its buffer, and not one too many, if and only if the length and a cluster less
  one byte add up without wrapping at 2^32; a longer store writes nothing (`FileStore.ClustersCover`).
- A store behind the last cluster adds whole clusters to a size that need not end with one. The size then covers
  what was appended if and only if the file leaves no more room in its last cluster than the buffer in its own
  (`WriteRead.AppendCovers`; `WriteRead.AppendFallsShort` is a file of 100 bytes).
- `fatfs32_setfatentry` writes the four reserved bits of an entry as zero, which the FAT specification asks to be
  preserved; reading ignores them (`FatEntries.ReservedBits`). The active FAT is taken from the flags of the boot
  sector whether or not these switch mirroring off (`Geometry.DerivedMeans`).
- A written 8.3 name with more than eight characters before the dot is looked for as its first eight and whatever
  follows them in memory (`DirQuery.LongStem`). The last slot of a long name is filled up with zeros, where the FAT
  specification has one zero and then 0xFFFF (`LongNames.GroupSlotBytes`).
- Freeing a chain that runs into itself stops with the status of a free cluster, all of it freed and the counter
  unchanged (`ChainOps.FreeFileFatEntries`).
- The ATA device register keeps the high address bits of earlier commands. After a reset, which a drive found not
  ready gets before the next command, a command is addressed right if and only if the high bits of all earlier
  ones are contained in its own (`AtaTransfer.AddressedIff`, `AtaTransfer.SendAll`); a read of sector 0 after one
  of sector 2^24 succeeds with the data of sector 2^24 (`AtaTransfer.ReadsAnotherSector`). The commands a transfer
  of many sectors carries out on a drive whose status checks pass are the chunks of its range if and only if every
  chunk is addressed right (`AtaTransfer.SentIff`, `AtaTransfer.GetSectors`). A read gives up exactly when a command
  has been refused six times, when the drive does not get ready even after a reset, or when a block is disturbed
  (`AtaTransfer.Issued`, `AtaTransfer.Ends`); a write at the first refusal.
- Long names fit the buffers of writer and reader if and only if they have at most 247 characters
  (`LongNames.NameFits`).

The slide of the FAT window is right for windows of two sectors or more. `FatWindow.OneSectorWindow` says when
it would be for one sector; the window the code allocates has at least 256 (`FatWindow.ShippedWindow`).

## Model

| member | source | states |
|---|---|---|
| Geometry.DerivedMeans | fatfs.c:50-225 | the derived fields over those of the boot sector: the root directory takes the fewest sectors that hold its entries, the data region is the rest in whole clusters, the cluster count decides the FAT type at 4085 and 65525 but for volumes without a fixed root directory, and the active FAT is copy 0 or the one the flags name |
| Geometry.DerivedGeometry | fatfs.c:201-225 | for boot-sector fields the FAT specification allows, the 32-bit derivation yields a valid geometry exactly when the kind is not FAT12, the active FAT is one of the copies and the FAT has an entry for every cluster |
| Geometry.ClusterInData | fatfs.h:92 | the sectors of any run of data clusters lie inside the data region |
| Geometry.ClustersInOrder | fatfs.h:92 | cluster 2 begins the data region and every other cluster follows the one before it |
| Geometry.RegionsDisjoint | fatfs.c:201-206 | FAT sectors, and the sectors of two different clusters, never overlap, so a FAT write and a cluster write never touch the same sector; the active FAT is the copy of its number |
| FatEntries.DecodeEncode | fatfs.c:681-808 | every value a caller may store in a FAT entry, in either FAT kind, is read back as the link it was meant to be |
| FatEntries.EntryMeans | fatfs.c:681-808 | the status of an entry from its bytes: FAT16, end exactly from 0xFFF8 on, bad exactly at 0xFFF7, free exactly at 0, otherwise the next cluster is the number; FAT32 the same on the low 28 bits |
| FatEntries.MarksStored | fatfs.c:714-808 | the numbers stored for the end of a chain and a bad cluster in both kinds; any other value is stored as it is |
| FatEntries.ReservedBits | fatfs.c:779-808 | on FAT32 a set clears the four reserved bits, and a get does not depend on them |
| FatEntries.TableUpdate | fatfs.c:714-743 | overwriting the bytes of one entry changes that link of the table and no other |
| FatWindow.SlideCovers | fatfs.c:657-679 | after a miss on any entry the reloaded window contains it, under all three patterns, despite wrap-around, clamping, rounding and clipping, for windows of two sectors or more |
| FatWindow.SlidePlace | fatfs.c:289-332 | the reloaded window begins with the sector of the entry, or of the one half or a quarter of the old window before it, as the pattern says, or with the FAT, and is as long as the buffer or ends with the FAT |
| FatWindow.ShippedWindow | fatfs.h:30-31 | the window the code allocates satisfies the condition of SlideCovers on every volume |
| FatWindow.OneSectorWindow | fatfs.c:657-679 | a one-sector window would hold the entry it was loaded for if and only if the entry is in the first FAT sector or far enough into its own |
| FatWindow.Fat.StoreFat | fatfs.c:274-287 | the write-back keeps device FAT and window together equal to the abstract FAT, and changes nothing outside the active FAT even when the transfer fails |
| FatWindow.Fat.LoadFat | fatfs.c:289-332 | a successful reload leaves window, bounds and device coherent with the abstract FAT and nothing dirty; a failed one loses no entry of it |
| FatWindow.Fat.MapEntry | fatfs.c:657-679 | the window afterwards covers the entry: it is left alone if it did before and otherwise moved to where the pattern asks; coherence is kept if the transfers succeed |
| FatWindow.Fat.GetEntry | fatfs.c:681-712 | what is read through the window is the entry of the fully mapped FAT, with the status for free, bad, last and out-of-range entries that follows from its bytes |
| FatWindow.Fat.SetEntry | fatfs.c:714-743 | exactly one entry of the abstract FAT changes, and only if the result is Ok |
| FatWindow.StoredWindow | fatfs.c:274-287 | writing the window back splices it into the FAT slice of the device; a failed write disturbs only what the window covers |
| FatRuns.PlainSays | fatfs.c:681-708 | what the in-memory FAT answers to a get follows from the bytes of the entry |
| FatRuns.SetThenGet | fatfs.c:681-808 | after a set the in-memory FAT answers what was meant for that entry, and as before for every other |
| FatRuns.Do | fatfs.c:657-808 | one get, set or pattern change through the window answers like the in-memory FAT and changes the abstract FAT like it |
| FatRuns.Run | fatfs.c:657-808 | any sequence of gets, sets and pattern changes gives the answers and the final table of the in-memory FAT, and touches nothing outside the FAT |
| FatRuns.Session | fatfs.c:1619-1628 | from mount to clean-up: all answers are those of the in-memory FAT, the FAT on the device ends up equal to it, every other byte of the device is as before |
| Volume.FetchEntry | fatfs.c:681-712 | reading an entry gives its status and link and leaves links and cluster contents alone; if the FAT cannot be transferred the call fails and costs no entry that window or device hold |
| Volume.StoreEntry | fatfs.c:779-808 | setting an entry changes one link, only if the result is Ok, and no cluster content; Invalid exactly for entries the table does not have |
| Volume.GetClusters | fatfs.c:1137-1145 | reading a run of clusters fills exactly its part of the buffer with their contents, in order |
| Volume.PutClusters | fatfs.c:1453-1461 | writing a run changes the contents of exactly those clusters and leaves the FAT coherent |
| Chains.RunsCanonical | fatfs.c:867-932 | the runs of a chain are maximal and expand to the chain |
| Chains.RunsUnique | fatfs.c:867-932 | maximal runs are the only ones with their expansion |
| Chains.WalkDistinct | fatfs.c:885-930 | a walk through the FAT that ends cannot visit a cluster twice |
| ChainOps.GetOptiClusList | fatfs.c:867-932 | one call returns a full batch and where to resume, or the rest of the walk, or the status of the entry that broke it and no runs |
| ChainOps.BatchOnChain | fatfs.c:867-932 | on a file's chain a batch is a prefix of its runs: Ok exactly when it reaches the end, otherwise TryAgain with the first cluster not covered |
| ChainOps.BatchesAreRuns | fatfs.c:867-932 | for every batch size the concatenated batches are exactly the maximal runs of the chain and expand to it |
| ChainOps.GetLastClus | fatfs.c:968-996 | the cluster whose entry is EOF, or the status of the entry that breaks the walk |
| ChainOps.FreeFileFatEntries | fatfs.c:934-966 | exactly the clusters of the walk become free and one fewer is added to the counter; a broken walk keeps its last entry and the counter, and one that meets an entry it has freed ends there with all freed and the counter kept |
| ChainOps.TrailExists | fatfs.c:944-964 | whatever the FAT holds, the walk ends or comes back to an entry it has met |
| ChainOps.LinkNewSegment | fatfs.c:998-1024 | the segment is chained, terminated and hung behind the last cluster (or becomes the first of an empty file), nothing else in the FAT changes, and the counter stays a lower bound |
| FreeSpace.AddedSafe | fatfs.c:1187-1205 | after a deletion the 28-bit count stays at most the number of free entries and the flag is unchanged |
| FreeSpace.SubtractedSafe | fatfs.c:1207-1225 | after linking, likewise, and exactly the clusters of the segment are taken off a counter that claims something |
| FreeSpace.UpdatedSafe | fatfs.c:1227-1271 | taking over a guess or a count keeps the bound, and the flag only moves from UNKNOWN over GUESSED to KNOWN; a count is always taken over, a guess over nothing or a smaller guess, and never over a count |
| FreeScan.FreeListExact | fatfs.c:810-865 | the clusters a scan is about are exactly the free ones of its range, ascending |
| FreeScan.KeepOfZero | fatfs.c:841-859 | with minimum 0 no run is filtered out |
| FreeScan.KeepExact | fatfs.c:841-859 | every long enough run is kept, only runs of the range are, and only the last one kept can be short |
| FreeScan.ScanResumes | fatfs.c:810-865 | one batch and the kept runs from its resume point on are the kept runs of the whole range; a full batch holds long runs only, all before the resume point |
| FreeScan.BatchesAreKept | fatfs.c:810-865 | for every batch size the concatenated batches of a resumed scan are the kept runs of the range, and with minimum 0 exactly its maximal free runs |
| FreeOps.GetOptiFreeRuns | fatfs.c:810-865 | the loop computes that batch, with its resume point |
| FreeOps.FreeClusters.UpdateFreeClusList | fatfs.c:1315-1350 | the refill with its falling minimum computes the specified cache, keeps the counter a lower bound and restores the access pattern |
| FreeOps.FreeClusters.UpdateFreeClusters | fatfs.c:1275-1311 | Ok with the count of the scanned part, flagged KNOWN, if that has one to eight free runs, otherwise failure and the old counter; Ok with the exact number of free clusters if and only if, besides, the last two clusters are in use; a lower bound in any case |
| FreeOps.CountExactIff | fatfs.c:826 | a scan of the whole FAT finds all free clusters but those among the last two, and so all if and only if these are in use |
| FreeOps.LastClusterMissed | fatfs.c:826 | a volume of four data clusters with two free ones of which one is counted |
| FreeOps.FreeClusters.GuessFreeClusters | fatfs.c:1339-1347 | the guess from the cached runs is a lower bound of the free clusters, taken over if nothing was known: their clusters less one for each run; a known count is not touched |
| FreeOps.FreeClusters.GetOptiFreeClusList | fatfs.c:1352-1394 | the allocator computes the specified hand-out and cache, and terminates by required clusters, minimum and scan position, refills included |
| Allocator.RefillMinimum | fatfs.c:1315-1350 | a refill keeps the minimum run length of the scan it continues and takes a quarter of it when the scan starts over, caches runs of that length but for the last, and gives up exactly after a complete scan with no minimum |
| Allocator.FillFinds | fatfs.c:1315-1363 | an empty cache gets filled if and only if there is a free cluster from where the scan goes on, or anywhere while the minimum can still fall |
| Allocator.TakeConserves | fatfs.c:1364-1389 | runs handed out and runs left in the cache make up the earlier cache, none lost or duplicated, and what is missing is what was not handed out |
| Allocator.ScanPool | fatfs.c:1315-1350 | what a scan puts into the cache is free, strictly increasing and disjoint |
| Allocator.AllocServed | fatfs.c:1352-1394 | a request covered by the cached runs and the rest of their scan, or one that runs out of room first, is served from these in order across refills, and what is left can still be had |
| Allocator.AllocFacts | fatfs.c:1352-1394 | a covered request hands out free distinct runs of exactly the required total unless the output list is full, what stays cached is disjoint from them, and NoMore is returned if and only if nothing is asked of a cache that has given up |
| Allocator.HandedAndCached | fatfs.c:1352-1394 | a request within the supply is handed the front of it, and of what is left exactly the rest of the batch in which the hand-out ended, or the next batch, is then in the cache |
| Allocator.AllocExact | fatfs.c:1359-1391 | for every non-empty cache, every request and every output length, exactly when what is handed out and then cached is free, ascending and disjoint; when it is disjoint; and when the runs handed out are |
| Requests.UsableIffClear | fatfs.c:1352-1394 | what one call hands out and then caches can all be linked if and only if the second of these conditions holds |
| Requests.AllocBasics | fatfs.c:1352-1394 | whatever the cache, a call hands out free clusters below the scan's bound, no more than required and exactly that many with Ok, a full list with TryAgain, and NoMore leaves the cache given up for good |
| Requests.ServedSame | fatfs.c:1352-1394 | the calls of a store, and how they end, depend on the FAT only through which clusters are free |
| Requests.ServedIff | fatfs.c:1486-1544 | the calls of a store that come to an end are served by disjoint clusters if and only if no cluster is handed out twice in all of them and none handed out stays in the last cache; what was handed out was free |
| Requests.CoveredServed | fatfs.c:1486-1544 | a store covered by the cached runs and the rest of their scan is served by disjoint clusters in all its calls, and to the end unless it asks for nothing of a cache that has given up |
| Allocator.ServedAgain | fatfs.c:1359-1391 | beyond the supply the scan starts over and returns clusters just handed out |
| Allocator.HandedOutTwice | docs/Changelog:46-54 | a four-entry volume on which one cluster is handed out twice |
| Ownership.LinkExtends | fatfs.c:998-1024 | linking a free run appends exactly that run to the chain |
| Ownership.LinkSpares | fatfs.c:998-1024 | linking leaves every other chain as it is |
| Ownership.LinkKeepsVolume | fatfs.c:998-1024 | the FAT stays a disjoint union of terminated chains plus free clusters when a segment is linked |
| Ownership.DeleteKeepsVolume | fatfs.c:934-966 | likewise when a file is deleted, and exactly its clusters become free |
| Ownership.UsableAfterLink | fatfs.c:1019-1022 | the clusters still cached or pending stay free and distinct when the first run handed out is linked |
| Ownership.RefillKeepsIff | fatfs.c:1315-1350 | a refill keeps the invariant if and only if it finds no cluster that is handed out but not yet linked |
| Ownership.ContinuedRefill | fatfs.c:1315-1350 | a refill that continues the scan from behind all that is pending finds none of it |
| Ownership.StepDoes | fatfs.c:934-1024 | what each step of a run does: a link takes exactly its clusters from the free ones and hangs them behind one file, a deletion frees exactly those of one file, no other FAT entry changes, the counter moves by as many, a hand-out moves the front of the cache, a refill touches the cache only |
| Ownership.RunKeepsInv | fatfs.c:934-1024 | over every run of refills (also in the middle of a request), hand-outs, links, deletes (with the change of the minimum run length) and counts: chains disjoint and terminated, cached and pending runs free and distinct, counter a lower bound, flag never falling |
| Ownership.RunConserves | fatfs.c:934-1024 | over every run free clusters and clusters of files together stay as many |
| VolumeRuns.CanStore | fatfs.c:1352-1363 | a test a caller can make before a store, true exactly if the filled cache holds the clusters; if it is, all calls of the store are served, and volume, contents and counter are left alone |
| VolumeRuns.DoStore | fatfs.c:1402-1544 | a store the test admits writes the buffer over the contents of its file, or behind them, from any cluster of the file on; one that a transfer breaks off keeps what lies before; the first bytes of the buffer, as many as asked for, are in the file byte for byte; no other file changes; the answer is Refused exactly for an unknown file or cluster, a small buffer or when the test fails, and otherwise the one determined before the call, unless a transfer of data fails |
| VolumeRuns.DoDelete | fatfs.c:934-966 | deleting empties one file and changes the contents of no other |
| VolumeRuns.Do | fatfs.c:1402-1544 | one operation, with any buffer: the contents of the files change as its answer says, and the answer is the one that FAT, cache, chains and buffer length determine before it; only a store that is not refused can end with a device error instead, and only where a data sector cannot be transferred |
| VolumeRuns.Run | fatfs.c:1402-1544 | any sequence of stores from any place, deletions and counts, each store with a buffer of its own, with any data transfers failing, takes FAT, cache, chains and the contents of the files through a history of such operations, and leaves one terminated chain per file starting where its record says, free cached runs and a counter that is a lower bound; if all data can be transferred every answer is the determined one |
| VolumeRuns.Answered | fatfs.c:1402-1544 | in every history an operation is refused if and only if the state before it says so, and without device errors all answers are the determined ones |
| VolumeRuns.LastStoreStays | fatfs.c:1402-1544 | over any history, what the last completed store to a file wrote from its own buffer, over the contents it found, is what the file holds in the end, byte for byte, whatever is done to other files with whatever data |
| FileLoad.LoadFileClus | fatfs.c:1100-1159 | the whole clusters of the bytes requested, or all that are left, are in the buffer in order; Ok exactly when the chain ends there; nothing beyond the request is written |
| FileLoad.ResumedIsWhole | fatfs.c:1100-1159 | reading n1 and then n2 clusters from the returned position is one read of n1 + n2: bytes, status, last cluster and resume point |
| FileStore.ClustersCover | fatfs.c:1427 | the clusters counted for a store hold its bytes, and one fewer would not, if and only if the rounding does not wrap; if it does none is counted |
| FileStore.SizeFollows | fatfs.c:1477-1479 | a size that fitted the clusters of the file is after a store that reaches its end the size of all its clusters, old and new |
| FileStore.StoreFileClus | fatfs.c:1402-1544 | if each call of the allocator is served by disjoint clusters: the chain becomes the old chain followed by the clusters the allocator hands out, which were free, its cache is the one they leave, the written range holds the buffer, no other cluster content and no other FAT entry changes, the record is marked as changed and a known counter falls by the new clusters, size (in 32 bits), last cluster, count and resume point are as specified, also when the volume fills up on the way, and the status is how the allocator's calls end |
| FileStore.ServedNeeded | fatfs.c:1402-1544 | the guard of a store is necessary: if it comes to an end and leaves files that are chains, grown by what was handed out, and a cache of free clusters, then its calls were served by disjoint clusters |
| WriteRead.WriteThenRead | fatfs.c:1402-1544 | re-reading the range just stored, from any cluster of the file on, returns the bytes that were stored, all of those asked for, and the recorded size covers them; the store ends as the allocator's calls do and the re-read with Ok or TryAgain, as the range ends with the file or not, unless a data sector cannot be transferred |
| WriteRead.AppendThenRead | fatfs.c:1402-1544 | data appended behind the last cluster is found through its FAT entry, or the record of an empty file, and read back unchanged, all the bytes asked for; the append ends as the allocator's calls do and the re-read with Ok, unless a data sector cannot be transferred |
| WriteRead.AppendCovers | fatfs.c:1432-1436 | exactly when the size recorded after an append covers the appended bytes |
| WriteRead.AppendFallsShort | fatfs.c:1432-1436 | 512 bytes appended to a file of 100 that lie at 512 to 1023 while the size becomes 612 |
| WriteRead.RereadGivesWritten | fatfs.c:1100-1159 | a buffer holding the clusters that a store wrote equals the buffer stored |
| WriteRead.OthersUntouched | fatfs.c:1402-1544 | the contents of every cluster of every other file are the same before and after a store, and so are the other chains |
| Cursor.OldIndexRight | fatfs.c:2034-2049 | the cluster index of the old position is computed right if and only if the position is below 2 GiB |
| Cursor.SeekRightIff | fatfs.c:2034-2081 | between positions inside the chain a seek ends with Ok and a right cursor if and only if it starts below 2 GiB |
| Cursor.SeekToStartFails | fatfs.c:2034-2081 | a file and a position above 2 GiB from which a seek to the beginning ends with Ok on the last cluster |
| Cursor.LastEnters | fatfs.c:2056-2079 | a walk in batches to the end of a chain leaves the cursor on the cluster of the chain where its last batch starts |
| Cursor.WalkTo | fatfs.c:2056-2079 | the walk ends as many clusters behind the cursor as the numbers it is given are apart, or with NoMore if the chain is too short, at the start of its last batch |
| Cursor.FposChangedUpdate | fatfs.c:2034-2081 | from any cluster of the chain, wherever the old position: the status, and exactly which cluster of the chain the cursor lands on; the offset is that of the new position |
| Cursor.MovedRight | fatfs.c:2034-2081 | from a right cursor: right again from below 2 GiB, forwards or backwards, with a status that says whether the position is inside the chain; between positions inside the chain right and Ok exactly from below 2 GiB |
| Cursor.Seek | fatfs.c:2083-2111 | the position is the offset counted from the start, the old position or the end of the file, wrapping at 2^32 where there is no such position; an unused handle or unknown mode is refused unchanged, and the cursor moves as stated for FposChangedUpdate and, from the right cluster, for MovedRight |
| Cursor.BytAlCovers | fatfs.c:2139 | a read asks for the fewest whole clusters that hold its bytes |
| Cursor.ReadBytes | fatfs.c:2148-2149 | the bytes handed to the reader are the file's bytes from the position on |
| Cursor.CursorAfter | fatfs.c:2162-2169 | exactly when the cursor is right after a full read |
| Cursor.AlignedEndFails | fatfs.c:2162-2169 | a read of 412 bytes from position 100 after which the cursor is wrong |
| Cursor.Read | fatfs.c:2126-2171 | every outcome of a read: refusals leave the cursor alone, a read delivers all bytes the chain holds or those up to fileSize, exactly when the cursor is right after either, the impossible error is not taken, and after a failed transfer the cursor is right if and only if its cluster has not moved on |
| Session.Do | fatfs.c:2083-2171 | any seek, and any read that finds the cursor right, behaves as if the file were a byte string with a position, reads past fileSize or into too small a buffer included; where the cursor then is follows from where it was |
| Session.Run | fatfs.c:2083-2171 | any sequence of seeks, from and to any position, and of reads delivers what the position-only view of the file says, if each read before the end of the file finds the cursor, whose way through the chain is followed exactly, where the position is |
| Session.StaysRight | fatfs.c:2034-2171 | from below 2 GiB a seek into the chain makes the cursor right, whatever its offset was and also from behind the chain; a read of all its bytes does if and only if it does not start inside a cluster and end where another one starts |
| Session.SeekThenRead | fatfs.c:2083-2171 | from below 2 GiB a read after a seek to a position of the file delivers its bytes from there on, all that its clusters hold or up to fileSize, and the position ends behind them |
| LongNames.NameFits | fatfs.c:2419-2444 | lfnPos of the reader and lfnBPos of the writer stay inside the name buffer if and only if the name has at most 247 characters |
| LongNames.GroupHolds | fatfs.c:2340 | the slots counted for a name hold it and none is empty |
| LongNames.LongSlotUnits | fatfs.c:2424-2440 | the 13 characters of a slot are read back from the offsets they were written to, and the slot is recognised as a long-name slot |
| LongNames.GroupSlotBytes | fatfs.c:2419-2440 | the bytes of each slot of a group: its number counted from the end, with 0x40 on the first alone, attribute 0x0F, checksum, and at their offsets the characters of its part of the name, zeros behind its end |
| LongNames.GroupReads | fatfs.c:584-626 | a reader meeting the group of a name decodes that name, with first and last slot those of the group |
| Directory.EntryFields | fatfs.c:578-634 | name, attribute, first cluster and size of an entry are at their bytes of the slot, low byte first |
| Directory.PrefixSame | fatfs.c:571-655 | directories that agree up to a boundary have the same entries before it |
| DirEdits.InsertEntry | fatfs.c:1853-1889 | filling vacant slots with one entry inserts that entry and leaves all others |
| DirEdits.DeleteEntry | fatfs.c:1597-1608 | freeing the slots of one entry removes that entry and no other, and keeps the directory well formed |
| DirEdits.ReplaceEntry | fatfs.c:1546-1595 | rewriting an 8.3 slot changes that entry and no other |
| DirOps.GetFreeDEntry | fatfs.c:496-530 | the slots returned are in bounds, adjacent and used by no live entry, they are the first such place, and NoMore is returned if and only if there is none; the position returned is where the search stopped |
| DirOps.AllocateDEntry | fatfs.c:1853-1889 | the first place with room gets free slots and the new 8.3 slot, and no other slot changes |
| DirOps.AllocationInserts | fatfs.c:1853-1889 | the directory gains exactly the new entry |
| DirOps.WriteLongSlot | fatfs.c:2420-2440 | the writes of one long-name slot amount to the slot of the specification |
| DirOps.ChecksumStep | fatfs.c:1610-1617 | each byte of the name is added, modulo 256, to the checksum rotated right by one bit |
| DirOps.WriteLfn | fatfs.c:2396-2446 | if the slots before the 8.3 slot are free they receive the name's group, last part first, and otherwise nothing is written |
| DirQuery.WrittenName | fatfs.c:458-494 | a written name with a stem of one to eight characters stands for the slot name with that stem and the first three characters of its extension, blank where they end |
| DirQuery.DotNames | fatfs.c:413-456 | "." and ".." stand for themselves, given either way, and any other name that begins with a dot for an extension without a stem |
| DirQuery.LongStem | fatfs.c:458-480 | a stem of more than eight characters stands for its first eight and whatever follows them in memory |
| DirQuery.WrittenOnce | fatfs.c:458-494 | names without blanks that differ in stem or extension stand for different slot names |
| DirQuery.HasWrittenName | fatfs.c:640-643 | an entry has a written name if and only if its slot holds that stem and that extension |
| DirQuery.FoundByWrittenName | fatfs.c:533-655 | the first entry of a directory with a slot name is found by that name as it is written |
| DirQuery.FoundIff | fatfs.c:646-651 | the search stops at the first entry with the wanted name if and only if the argument does not begin with a zero byte or that entry is the first of the directory |
| DirQuery.LongNameFoundIff | fatfs.c:436-456 | exactly when looking for the long name of an entry finds it: always, but for names that are empty, begin with a multiple of 256, or are "." or ".." |
| DirQuery.NameFoundIff | fatfs.c:546-562 | looking for an 8.3 name finds the first entry that has it if and only if the name is not empty or that entry is the first |
| DirQuery.FindsTheOtherFile | fatfs.c:651-652 | two files of which the long name of the second finds the first |
| DirSearch.GetFileInfo | fatfs.c:533-655 | the first entry that matches, by name or through a zero byte at the start of the argument, is reported with name, long name, slots, cluster and size; otherwise NoMore or NotFound, depending on whether a terminator was met, and no entry matches |
| DirSearch.MoveName | fatfs.c:616-621 | the collected name survives being moved to the front of its buffer |
| DirLife.CreateEntry | fatfs.c:2374-2446 | a new entry with a long name is inserted, decodes to that name, and spans exactly the slots written, if and only if the directory has room for its slots in one place; the slots are never found taken in between |
| DirLife.DeleteFileInfo | fatfs.c:1597-1608 | the entry described by the record disappears and all others stay |
| DirLife.UpdatedReads | fatfs.c:1558-1593 | first cluster, size, name and attribute read back as set where the flags ask for it and as before where they do not, time and date always as set, and the bytes between are kept |
| DirLife.UpdateFileInfo | fatfs.c:1546-1595 | the 8.3 slot the search stops at is rewritten, which updates that entry alone if and only if the record's name does not begin with zero or is not written, and its attribute is not that of long-name slots or is not written; otherwise the directory reads as empty, or has one entry less; NotFound means no entry matches |
| DirLife.CreatedIsFound | fatfs.c:533-655 | a new entry is found by a new name if and only if the argument does not begin with a zero byte or the entry is the first; removing it, and no other, gives back the old entries |
| DirLife.WrittenMeans | fatfs.c:533-655 | a written name means the entries whose slot holds its stem and extension |
| DirLife.CreateFindDelete | fatfs.c:1597-1608 | creating an entry, looking it up by its long or its 8.3 name and deleting what was found restores the entries, the look-up reporting the names, attribute and slots written, no cluster and no size, if and only if the argument does not begin with a zero byte or the entry is the first; the entry is created if and only if there is room for its slots |
| AtaTransfer.OrBit | bdh8b16.c:187-202 | the register holds a bit if and only if it did before or the new sector number has it |
| AtaTransfer.AddressIff | bdh8b16.c:187-202 | a command is addressed to its sector if and only if the register holds no bit foreign to the sector's high bits, and repeating it changes nothing |
| AtaTransfer.SendFor | bdh8b16.c:522-536 | the command sent is addressed by what the register holds, or holds after the reset of a drive that is not ready, and to the wanted sector if and only if that is clean |
| AtaTransfer.SendAll | bdh8b16.c:205-246 | in any sequence of commands, with resets anywhere, each one goes where the register left by those since the last reset sends it |
| AtaTransfer.AddressedIff | bdh8b16.c:187-202 | after a reset a command is addressed right if and only if the high bits of every earlier one are contained in its own |
| AtaTransfer.SentElsewhere | bdh8b16.c:187-202 | after a command for sector 2^24 one for sector 0 is addressed to sector 2^24 |
| AtaTransfer.ReadsAnotherSector | bdh8b16.c:492-594 | on a drive larger than 2^24 sectors whose status checks do not fail, a read of sector 2^24 and then one of sector 0 both succeed, both with the data of sector 2^24, and the disk is unchanged |
| AtaTransfer.ReadOne | bdh8b16.c:492-594 | a read of one sector delivers the sector its command is addressed to, or the right one after a reset, and without failing status checks it succeeds |
| AtaTransfer.Issue | bdh8b16.c:519-544 | six attempts, no fewer unless one is carried out or the drive does not get ready, and no more; addressed like the first until the drive is reset and to the sector itself from then on; result, register, refusals and the checks used up are those that the status checks determine |
| AtaTransfer.GivesUp | bdh8b16.c:519-544 | attempts end without success only when all have been refused or the drive does not get ready for the next |
| AtaTransfer.TakenAfter | bdh8b16.c:519-544 | a command addressed right and on the drive is carried out if it is refused fewer times than it is tried, whatever resets there are |
| AtaTransfer.RefusedThroughout | bdh8b16.c:519-544 | a command refused at every attempt fails after exactly so many |
| AtaTransfer.ReadBlocks | bdh8b16.c:545-578 | the blocks of a command, each of the length the drive expects, fill the chunk's part of the buffer once and in order |
| AtaTransfer.CommandsTile | bdh8b16.c:500-583 | the commands carried out are exactly the chunks of the range, each once and in order, whatever was retried |
| AtaTransfer.ChunksAddUp | bdh8b16.c:502-517 | the chunks are adjacent, have 1 to 256 sectors, start at the first sector and add up to the count |
| AtaTransfer.SentIff | bdh8b16.c:187-202 | the commands of a transfer, at the addresses the register gives them, are the chunks of the range if and only if every chunk is addressed right |
| AtaTransfer.ChunksGathered | bdh8b16.c:545-578 | the chunks of a range deliver its sectors in order |
| AtaTransfer.GetSectors | bdh8b16.c:492-594 | on success the buffer holds what the commands carried out deliver, in order; when every chunk is addressed right these are the chunks of the range and the buffer holds its sectors; without failing status checks the transfer succeeds if its addresses are on the drive, and its commands are the chunks of the range if and only if every chunk is addressed right; whatever the checks, it succeeds exactly when each command is carried out within six attempts and its blocks are not disturbed; the rest of the buffer is untouched |
| AtaTransfer.EndsWell | bdh8b16.c:492-594 | a transfer whose chunks are addressed right and on the drive succeeds if the command of each is refused fewer times than it is tried, whatever resets there are, and its blocks are not disturbed |
| AtaTransfer.PutSectors | bdh8b16.c:602-695 | when every chunk is addressed right: on success the range lies on the drive and the sectors hold the buffer, without failing status checks it succeeds if the range lies on the drive, whatever the checks, it succeeds exactly when each command is carried out at its one attempt and its blocks are not disturbed, and no sector outside the range changes in any case |
| AtaTransfer.LowRange | bdh8b16.c:187-202 | below sector 2^24, with no stale bits, every chunk is addressed right |
| BitReader.BitsSplit | rwporta.c:404-439 | the bits read later are the higher digits of the number read at once |
| BitReader.BitCursor.ReadBits | rwporta.c:404-439 | the value is the next length bits, low bit first, the position advances by length, and no byte past the last bit read is looked at |
| BitReader.SlicesJoin | rwporta.c:404-439 | consecutive reads put together are the bits of the whole range |
| BitReader.ReadAll | rwporta.c:404-439 | any sequence of reads returns the consecutive slices and ends at the sum of the lengths |

## Left out

- FileStore.StoreFileClus: nothing is claimed when a call of the allocator hands out a cluster twice or caches one it hands out, which `Allocator.AllocExact` characterises; by `FileStore.ServedNeeded` such a store, if it comes to an end, leaves no sound volume. For one that fills the volume the guard is only shown to suffice.
- VolumeRuns.Run: stores are made behind the test `VolumeRuns.CanStore`, which refuses those that need more than one batch of the scan.
- Cursor.Read: assumes that no 32-bit sum of the call wraps (`Cursor.NoWrap`).
- Session.Run: what a read delivers while the cursor is on a wrong cluster or offset is not stated; when that is the case is.
- FatWindow.Fat.LoadFat: the bounds change before the transfers, so coherence is claimed for successful device calls; after failures only memory safety and the contents of the abstract FAT are.
- Volume.GetFatEntry: above `Volume` the FAT sectors can be transferred; data sectors may still fail everywhere. What a failing FAT transfer leaves is stated for `Volume.FetchEntry` and `FatWindow.Fat.GetEntry`.
- DirOps.AllocateDEntry: buffer offsets are exact numbers, 32-bit overflow of a position is not modelled.
- DirLife.CreateEntry: requires that earlier long-name groups are complete and that only terminators follow a terminator, because the code writes no new terminator; both are kept by every operation.
- DirQuery.Query: characters are stored low byte first, as on the machines the code is built for; what the uninitialised end of an expanded 8.3 name holds is a parameter.
- AtaTransfer.PutSectors: failed writes may leave any prefix of the range written.
- AtaTransfer.Drive.Reset: a reset empties the registers; that it may also switch the drive's multiple mode off is not modelled.
- BitReader.BitCursor.ReadBits: lengths 1 to 31; the code shifts by a negative amount for 32.
- Names longer than 247 characters, for which writer and reader leave their buffers.
- `fatfs_loadfileallsec_usefileinfo`, which is the cluster reader with a size check.
- Loading and storing the root directory, and the second FAT copy, which the code never updates.
- The order of writes as seen by a crash.
- Reading boot-sector fields from bytes, the partition table, and the clean-shutdown checks; of these only "entry 0 reads as EOF" is kept, as part of the volume invariant.
- Path tokenising, 8.3 name invention, date stamps, the retry of clashing names.
- `buffer_read_bits_msbbased`, which shifts by -1 at bit offset 0.
- `bdhdd.c`, register polling, reset and timing, `bdfile.c`, printing and the test programs.
