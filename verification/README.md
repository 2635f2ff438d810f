# View-OS in Dafny

This project models four parts of View-OS and proves what they promise.

- **The FAT driver** (`fuse-modules/fat`). The packed FAT12, FAT16 and FAT32 tables are bytes in an
  array and stand for one table of cluster numbers. Files are chains in that table. On top are the
  free-cluster searches, the FAT32 free-cluster cache, writing, reading, truncating and deleting.
  (`FatEntry`, `FatChain`, `FatData`, `FatAlloc`, `FatVolume`)
- **Long file names** of the same driver: UTF-8 to UTF-16, the numbered and checksummed directory
  records, and back. (`Unicode`, `Strings`, `Lfn`)
- **The kmview kernel module**: the thread-id table, the event protocol between traced threads and
  tracers, the shared copy-on-write fd sets, and the hash table of ghost mounts.
  The filters that decide which calls reach a tracer join the last two.
  (`Kmpid`, `Tracer`, `TracerSafety`, `TracerReplies`, `TracerReports`, `Kmview`, `FdSet`, `GhostHash`, `EntryFilter`)
- **Merged directories of viewfs**: the circular list built from a virtual directory, its wiped-out
  names and the real directory, and the pages in which it is handed out. (`ViewFs`)

Code that updates state in place is a class or a method with loops, proved against functions on
values; the theorems over all inputs, runs and states are lemmas about those functions. The kmview
protocol is a state machine in which every callback, read and ioctl is one step, and the class
`Kmview.Module` does those steps over the concrete id table.

## What does not hold as promised

Where the code falls short of the obvious property, the exact condition is proved.

- A refill of the FAT32 cache collects a cluster twice if the stored free count, capped by the size of
  the cache, exceeds the number of free clusters and some cluster from the start of the scan on is
  free (`RefillDistinctIff`, `RefillCanRepeat`).
- A FAT32 hint of 0 or 1 lets the cache hand out a reserved entry exactly when one from the hint on
  reads as free (`RefillClustersIff`). Setting up the free-space fields reports a bad hint and a full
  volume, but mounting ignores the report; the volume is good afterwards exactly when its stored count
  is right and no reserved entry from the hint on is free (`Mount`).
- A read that starts at an offset equal to the cluster size skips a whole cluster (`ReadData`), so it
  does not return what a write from there wrote (`WriteThenRead`).
- The size in the directory entry is wrong exactly when the end of a write reaches 4 GiB
  (`SizeExactIff`).
- A long name comes back unchanged exactly when all its characters are below 0x10000 and none is a
  high surrogate (`StoreAndLoad`, `Utf16CharIff`).
- A name of at most 255 characters overruns the 256 units of the name buffer exactly when characters
  and wide characters together are more than 255 (`GenerateLfnChain`); 128 times U+1F600 is such a
  name (`WideNameOverruns`).
- Counting characters finds the count in one pass exactly when that meets no byte that starts no
  character and no character that is cut short (`OnePass`). Such a byte sends the cursor 84 bytes back:
  in front of the string when it is met below position 84 (`BadByte`), so a string of up to 84 bytes
  has a count only from one pass (`ShortString`). Met later, the cursor may come back to the end
  (`WanderingEnds`, 87 bytes) or go round for ever (`CirclingCircles`, 85 bytes).
- A step of kmview touches memory it must not exactly in three cases (`StepSafe`; in terms of the run
  `ReplyFaultsIff`, `ReadFaultsIff`, `ReleaseFaultsIff`). An ioctl with a negative thread id reads before
  the id table as soon as some id was handed out (`Find`); a reply to id -1 does so with one thread
  attached (`ReplyToMinusOne`). A reply other than SYSRESUME writes to registers that are not there when
  its thread is dead, or has neither stopped at a call nor come out of one yet; a reply to a thread just
  attached does (`ReplyBeforeEntry`). The task of a dead thread is used, though its memory may have been
  reused, to read an event of that thread other than its death or to close the tracer
  (`BirthReadAfterDeath`). With replies that fit, the second case is impossible and the third is left for
  NEWTHREAD events and closing (`PoliteFaults`).
- Freeing a free id again leaves a free list that is no allocator's any more (`Free`, `FreedTwice`).
- Deleting a stored ghost mount whose pair is in the table fails exactly when a shorter pair in the
  table has the same hash (`FoundIff`); `/70d2b` and `/bif8t7` are such a pair (`DeleteMisses`).
- Deleting a path that is not stored takes the pair of another path exactly when the table has a pair
  of its length and hash and no shorter one with its hash; as long as no pair was lost before, these are
  the pairs of the stored paths (`StealsIff`). With `/a2` stored, deleting `/cp` does, and `/a2` is not
  matched any more (`ForeignDelete`). The table holds the pairs of the stored paths exactly after
  histories without such a delete (`TableExactIff`).
- The name `.-`, which should not be listed at the root of a mount, is listed there when the real
  directory has it and it is not wiped out (`HiddenListedIff`).
- A first `getdents64` with a buffer not larger than the first record loses the whole listing
  (`FirstCallLoses`).
- The reply discipline of the tracer needs fitting answers: `AnswerKeepsIff` says which ones keep it.

## Model

| member | source | states |
|---|---|---|
| `FatEntry.EntryInBounds` | fuse-modules/fat/libfat.c:710-728 | every entry 0..DataClusters+1 lies inside the table size computed at load, for all three types, and the last one ends it |
| `FatEntry.Packed12` | fuse-modules/fat/libfat.c:434-463 | the three bytes of two neighbouring entries, low byte first, are the first plus 0x1000 times the second |
| `FatEntry.Packed16` | fuse-modules/fat/libfat.c:387-391 | an entry is the number its two bytes spell, low byte first |
| `FatEntry.Packed32` | fuse-modules/fat/libfat.c:262-290 | an entry is the number its four bytes spell, low byte first, without the top four bits |
| `FatEntry.Marks` | fuse-modules/fat/libfat.c:67-120 | for all three types: 0 is free, the last eight values end a chain, the one before them is bad, and all others can be linked to; the mark that is written is the last one, for FAT32 the first of the eight |
| `FatEntry.GetPutSame` | fuse-modules/fat/libfat.c:262-332 | reading an entry after writing v to it gives v cut to 12, 16 or 28 bits |
| `FatEntry.GetPutOther` | fuse-modules/fat/libfat.c:434-486 | writing one entry leaves every other entry as it was, also the one that shares a byte in FAT12 |
| `FatEntry.PutRefinesUpdate` | fuse-modules/fat/libfat.c:520-542 | a write to the bytes is an update of one element of the table they stand for |
| `FatVolume.Volume.Fat12ReadEntry` | fuse-modules/fat/libfat.c:434-463 | the nibble code returns element N of the table |
| `FatVolume.Volume.Fat12WriteEntry` | fuse-modules/fat/libfat.c:465-486 | the nibble code leaves the bytes of a write of entry N |
| `FatVolume.Volume.Fat16ReadEntry` | fuse-modules/fat/libfat.c:387-391 | returns element N of the table |
| `FatVolume.Volume.Fat16WriteEntry` | fuse-modules/fat/libfat.c:393-399 | leaves the bytes of a write of entry N |
| `FatVolume.Volume.Fat32ReadEntry` | fuse-modules/fat/libfat.c:262-293 | returns element N of the table without the top four bits |
| `FatVolume.Volume.Fat32WriteEntry` | fuse-modules/fat/libfat.c:296-332 | leaves the bytes of a write of entry N |
| `FatVolume.Volume.ReadEntry` | fuse-modules/fat/libfat.c:520-530 | reads element N of the table, whatever the type |
| `FatVolume.Volume.WriteEntry` | fuse-modules/fat/libfat.c:532-542 | updates element N of the table and nothing else, whatever the type |
| `FatChain.ChainDistinct` | fuse-modules/fat/libfat.c:401-430 | a chain that ends in EOC never comes back to a cluster |
| `FatChain.ReleaseStep` | fuse-modules/fat/libfat.c:488-517 | following the links while zeroing them still finds the rest of the chain |
| `FatChain.ZeroCount` | fuse-modules/fat/libfat.c:401-430 | releasing a chain makes exactly its length of entries free |
| `FatVolume.Volume.Unlinkn` | fuse-modules/fat/libfat.c:353-383 | terminates, zeroes exactly the entries of the chain, adds its length to freecnt; nothing changes for a first cluster that is not legal |
| `FatChain.StepGood` | fuse-modules/fat/libfat.c:1836-1851 | allocate-and-link, truncate and delete keep chains disjoint, acyclic and EOC-terminated and freecnt exact |
| `FatChain.StepConserves` | fuse-modules/fat/libfat.c:1901-1918 | each operation keeps the set of clusters that are free or owned |
| `FatChain.RunConserves` | fuse-modules/fat/libfat.c:755-764 | over every run freecnt stays the number of free entries, chains stay well formed and no cluster is lost or made up |
| `FatVolume.Volume.ScanForFree` | fuse-modules/fat/libfat.c:755-764 | counts the free entries in 2..DataClusters+1 |
| `FatVolume.Volume.InitializeFreelist` | fuse-modules/fat/libfat.c:766-785 | FAT12/16 get an exact counter; FAT32 reports 0 exactly for a legal hint in range, a positive stored count and something free on the way of the scan, and is valid exactly when the stored count is right and no reserved entry from the hint on is free |
| `FatVolume.Volume.constructor` | fuse-modules/fat/libfat.c:710-753 | a volume over the table bytes of a device, with arrays of its own |
| `FatVolume.Volume.Mount` | fuse-modules/fat/libfat.c:906 | mounting goes on whatever the set-up reports: FAT12/16 volumes are valid, FAT32 ones exactly under the condition above |
| `FatAlloc.NextFitExists` | fuse-modules/fat/libfat.c:1112-1126 | with a positive number of free entries the search has a goal |
| `FatAlloc.NextFitUnique` | fuse-modules/fat/libfat.c:1112-1126 | the first free cluster at or cyclically after the hint is one cluster |
| `FatVolume.Volume.NextFit` | fuse-modules/fat/libfat.c:1112-1126 | the search terminates at the first free cluster at or cyclically after nextfree and moves nextfree behind it |
| `FatVolume.Volume.GetFree16` | fuse-modules/fat/libfat.c:1112-1126 | fails exactly when freecnt is 0; otherwise hands out the next-fit cluster and counts one less |
| `FatAlloc.RefillDistinctIff` | fuse-modules/fat/libfat.c:1003-1086 | a refill collects no cluster twice exactly when min(freecnt, cache size) is at most the number of free clusters or none from the start on is free |
| `FatAlloc.RefillExact` | fuse-modules/fat/libfat.c:1003-1086 | with an exact freecnt a refill holds min(freecnt, cache size) distinct free clusters |
| `FatAlloc.RefillNextFit` | fuse-modules/fat/libfat.c:1003-1086 | the first cluster a refill collects is the one the next-fit search from its start finds |
| `FatAlloc.RefillCanRepeat` | fuse-modules/fat/libfat.c:1003-1086 | with an overstated freecnt one free cluster is cached twice |
| `FatAlloc.RefillClustersIff` | fuse-modules/fat/libfat.c:1003-1086 | a refill collects nothing but clusters exactly when no reserved entry from its start on is free, or it collects nothing |
| `FatAlloc.RefillSomeIff` | fuse-modules/fat/libfat.c:1003-1086 | a refill finds something exactly when a cluster or a reserved entry on its way is free |
| `FatVolume.Volume.PopulateFreelist` | fuse-modules/fat/libfat.c:1003-1086 | the chunked scan with wrap-around terminates for every freecnt and caches the first free clusters in cyclic order |
| `FatVolume.Volume.FillCache` | fuse-modules/fat/libfat.c:1092-1098 | the refill loop ends with a non-empty cache exactly when freecnt is positive |
| `FatVolume.Volume.GetFree32` | fuse-modules/fat/libfat.c:1088-1110 | hands out the first cluster not yet read of the cache, or of its refill, which is free; the rest of the cache stays, and the hint becomes the maximum of itself and the cluster |
| `FatVolume.Volume.LinkNew` | fuse-modules/fat/libfat.c:1901-1918 | appends one formerly free cluster to the chain, or fails without a change exactly when none is free |
| `FatVolume.Volume.StartFile` | fuse-modules/fat/libfat.c:2866-2881 | gives an empty file a chain of one formerly free cluster, or fails exactly when none is free |
| `FatData.CeilLeast` | fuse-modules/fat/libfat.c:2585-2642 | the number of clusters kept is the least that holds len bytes |
| `FatVolume.Volume.Truncate` | fuse-modules/fat/libfat.c:2585-2642 | cutting to len keeps exactly the first ceil(len/bpc) clusters ended by EOC, frees the others and counts them, and leaves the first len bytes; lengths not below the size change nothing |
| `FatData.TruncatedFile` | fuse-modules/fat/libfat.c:2585-2642 | the kept clusters show the first len bytes of the file |
| `FatVolume.Volume.Delete` | fuse-modules/fat/libfat.c:2519-2559 | deleting frees exactly the clusters of the file and counts them; a bad first cluster is an error without a change |
| `FatData.ByteOffsetCases` | fuse-modules/fat/libfat.c:56-65 | data clusters are at FirstDataByte + (cluster - 2) * bytes per cluster, behind every byte of a FAT12/16 root directory (cluster 1) that lies before the data |
| `FatData.ContentPoked` | fuse-modules/fat/libfat.c:1862-1884 | writing bytes inside one cluster of a chain writes them at the matching position of its content |
| `FatVolume.Volume.WriteData` | fuse-modules/fat/libfat.c:1803-1956 | writes all bytes, or exactly as many as the free clusters allow and then returns -1 with an EOC mark and the offset of its last piece; the chain grows only by free clusters; position and size follow the bytes written |
| `FatVolume.Volume.WriteLoop` | fuse-modules/fat/libfat.c:1861-1930 | writes piece by piece into the clusters of the chain and new ones; stopping early, no cluster is free, the last one is full, and the offset of the last piece is the one at which the first, or else a whole cluster, began |
| `FatVolume.WriteSplices` | fuse-modules/fat/libfat.c:1803-1956 | a complete write leaves the old content with the buffer spliced in |
| `FatVolume.WriteSparesOthers` | fuse-modules/fat/libfat.c:1803-1956 | a write, complete or not, keeps chain and bytes of every other file |
| `FatVolume.Volume.WriteFile` | fuse-modules/fat/libfat.c:1803-1956 | all bytes go in, or exactly those for which the clusters of the file and the free ones have room and then the result is -1; complete or not, the chain is extended, its content is the old one with these bytes over it, and the size stays within the chain; from a position inside the file and below 4 GiB, file = old file with them spliced in and size = max(old, new position); other files untouched |
| `FatVolume.SizeExactIff` | fuse-modules/fat/libfat.c:1950 | the stored size is the right one exactly when the end of the write fits in 32 bits |
| `FatVolume.Volume.ReadData` | fuse-modules/fat/libfat.c:1706-1796 | returns the slice of the chain's content that starts at the given cluster and offset, and where it ends; at offset = cluster size the slice starts one cluster late |
| `FatVolume.Volume.WriteThenRead` | fuse-modules/fat/libfat.c:1706-1796 | reading from the place of a complete write returns the bytes written, or, given as the end of a cluster, the bytes one cluster later |
| `Unicode.Utf8Len` | fuse-modules/fat/utf8.c:45-62 | the number of bytes that a lead byte announces, or an error for none |
| `Unicode.Utf8ToWchar` | fuse-modules/fat/utf8.c:64-92 | decodes one character or reports a bad or cut one |
| `Unicode.Decode8BadIff` | fuse-modules/fat/utf8.c:76-92 | bytes are no character exactly when no lead byte is in front, they are too few, or one of those it announces is no continuation byte |
| `Unicode.Decode8Value` | fuse-modules/fat/utf8.c:76-92 | the value of every character, overlong ones included, from the bits of its bytes |
| `Unicode.WcharToUtf8` | fuse-modules/fat/utf8.c:94-130 | encodes one character in one to four bytes, or reports too little room |
| `Unicode.DecodeEncode8` | fuse-modules/fat/utf8.c:64-130 | decoding undoes encoding for every code point below 0x200000, whatever follows |
| `Unicode.EncodeShortest` | fuse-modules/fat/utf8.c:104-130 | no fewer bytes decode to the code point that is encoded |
| `Unicode.Utf16ToWchar` | fuse-modules/fat/utf16le.c:69-96 | decodes one unit or one surrogate pair |
| `Unicode.Decode16BadIff` | fuse-modules/fat/utf16le.c:69-96 | units are no character exactly when a high surrogate is not followed by a low one |
| `Unicode.PairReads` | fuse-modules/fat/utf16le.c:69-96 | the standard pair of every code point from 0x10000 to 0x10FFFF reads as that code point |
| `Unicode.WcharToUtf16` | fuse-modules/fat/utf16le.c:98-115 | encodes one character as one or two units, with the shift of the source |
| `Unicode.Utf16CharIff` | fuse-modules/fat/utf16le.c:69-115 | a character survives UTF-16 exactly when it is below 0x10000 and no high surrogate, or a wide one whose bits 10-15 are zero |
| `Strings.Utf8To16` | fuse-modules/fat/libfat.c:3092-3108 | converts a whole name, or fails as its first bad character does |
| `Strings.To16FailsIff` | fuse-modules/fat/libfat.c:3092-3108 | a name fails to convert exactly when, behind a part that converts, comes a byte that starts no character |
| `Strings.Utf16To8` | fuse-modules/fat/libfat.c:3038-3053 | converts units back up to the terminator, or fails |
| `Strings.To8FailsIff` | fuse-modules/fat/libfat.c:3038-3053 | units fail to convert back exactly when, behind units that convert and before the terminator, comes half a surrogate pair |
| `Strings.Utf8Strlen` | fuse-modules/fat/libfat.c:3055-3070 | goes the way of the cursor: a count when that reaches the terminator, the number of hops and the place when it leaves the string, or that it never does either, which after one hop per byte is certain |
| `Strings.OneWalk` | fuse-modules/fat/libfat.c:3055-3070 | the cursor has exactly one way to go |
| `Strings.OnePass` | fuse-modules/fat/libfat.c:3055-3070 | the count of one pass over the characters is n exactly when the cursor reaches the terminator after n hops that all go forward |
| `Strings.BadByte` | fuse-modules/fat/libfat.c:3065 | a byte that is no lead byte, met below position 84, takes the cursor in front of the string |
| `Strings.ShortString` | fuse-modules/fat/libfat.c:3055-3070 | a string of up to 84 bytes has a count exactly when one pass finds it |
| `Strings.WanderingEnds` | fuse-modules/fat/libfat.c:3055-3070 | 87 bytes with a bad byte that one pass cannot count and that still end with the count 86 |
| `Strings.CirclingCircles` | fuse-modules/fat/libfat.c:3055-3070 | 85 bytes on which the cursor goes round for ever |
| `Strings.HopsName` | fuse-modules/fat/libfat.c:3055-3070 | a well-formed name has as many hops as characters |
| `Strings.NameCounted` | fuse-modules/fat/libfat.c:3055-3070 | a well-formed name is counted, by the number of its characters |
| `Strings.To16Name` | fuse-modules/fat/libfat.c:3092-3108 | a well-formed name becomes the units of its characters |
| `Strings.UnitsCount` | fuse-modules/fat/libfat.c:3092-3108 | a name becomes one unit per character and one more per wide character |
| `Lfn.LfnChecksum` | fuse-modules/fat/libfat.c:1144-1150 | computes the checksum that `ChecksumStep` and `ChecksumOfReadme` describe |
| `Lfn.ChecksumStep` | fuse-modules/fat/libfat.c:1147 | one more byte turns a sum into y plus the byte, modulo 256, where y rotated to the left is the sum |
| `Lfn.ChecksumOfReadme` | fuse-modules/fat/libfat.c:1144-1150 | the checksum of `README  TXT` is 0x73 |
| `Lfn.GenerateLfnChain` | fuse-modules/fat/libfat.c:2078-2126 | a name of 1 to 255 characters becomes ceil(n/13) numbered, reversed, checksummed records that hold its units with one terminator and padding, unless characters and wide characters exceed 255, exactly when the name buffer is overrun; others are refused |
| `Lfn.ChainLayout` | fuse-modules/fat/libfat.c:1405-1425 | record q from the end of a generated chain holds the units 13q to 13q+12 of the name, 5, 6 and 2 in its three fields |
| `Lfn.ChainOfOne` | fuse-modules/fat/libfat.c:2078-2127 | every byte of the one record of the name `A` |
| `Lfn.CheckLfnOrder` | fuse-modules/fat/libfat.c:1376-1388 | accepts exactly the chains numbered from the last record down to 1 |
| `Lfn.CheckLfnChecksum` | fuse-modules/fat/libfat.c:1390-1412 | accepts exactly the chains whose records all carry the checksum of the short entry |
| `Lfn.FindLfnLength` | fuse-modules/fat/libfat.c:1430-1448 | finds the first zero unit of the last record, or its end |
| `Lfn.ExtractLfnName` | fuse-modules/fat/libfat.c:1450-1463 | returns the first units of the chain in reading order |
| `Lfn.ChainReads` | fuse-modules/fat/libfat.c:1430-1463 | measuring and extracting a generated chain gives back its units |
| `Lfn.ChainAccepted` | fuse-modules/fat/libfat.c:1376-1412 | the order and checksum checks accept every generated chain |
| `Lfn.StoreAndLoad` | fuse-modules/fat/libfat.c:2078-2126 | generate, append the short entry, check, measure, extract and convert back: accepted whenever the name buffer is not overrun, and the same name exactly when every character is below 0x10000 and no high surrogate |
| `Lfn.WideNameChanges` | fuse-modules/fat/libfat.c:2078-2126 | the name U+1F600 comes back as U+1500 |
| `Lfn.WideNameOverruns` | fuse-modules/fat/libfat.c:2078-2126 | 128 times U+1F600 passes the length test and overruns the name buffer |
| `KmpidSpec.RunGood` | kmview-kernel-module/kmview_alloc.c:79-115 | over every run that frees live ids the free list is acyclic and holds exactly the ids below km_nthread that are not live |
| `KmpidSpec.RunKeepsLive` | kmview-kernel-module/kmview_alloc.c:79-115 | an id that is not freed names the same thread throughout a run |
| `KmpidSpec.AllocReuses` | kmview-kernel-module/kmview_alloc.c:79-115 | the table grows exactly when every id is live, and the id freed last is handed out first |
| `Kmpid.Table.Find` | kmview-kernel-module/kmview_alloc.c:67-77 | a slot is found exactly for ids ever handed out; both levels are indexed in bounds except exactly for a negative id on a table that has entries |
| `Kmpid.Table.Search` | kmview-kernel-module/kmview_alloc.c:117-126 | finds the thread of an id exactly when the id is live, for every integer, and reads out of bounds exactly where the slot search does |
| `Kmpid.Table.ReallocHead` | kmview-kernel-module/kmview_alloc.c:44-51 | a longer head keeps all pages and all slots |
| `Kmpid.Table.Alloc` | kmview-kernel-module/kmview_alloc.c:79-102 | returns an id that no live thread has and names the thread by it, across page and head growth |
| `Kmpid.Table.Free` | kmview-kernel-module/kmview_alloc.c:104-115 | puts a live id back, to be handed out next; ids never handed out are ignored; a second free leaves slots that stand for no allocator |
| `Kmpid.FreedTwice` | kmview-kernel-module/kmview_alloc.c:104-115 | after a second free the free list runs in a circle |
| `TracerSafety.StepSafe` | kmview-kernel-module/kmview_trace.c:203-338 | a step faults exactly when it is an ioctl with a negative id on a table with entries, a reply other than SYSRESUME to a thread that is dead or whose registers were never saved, or the use of a dead task whose memory was reused; every other step touches no freed thread or tracer and keeps the invariant of queues, ids and counters (that no callback comes for a reaped or detached thread is what utrace promises) |
| `TracerSafety.RunSafe` | kmview-kernel-module/kmview_main.c:109-196 | every sequence of actions none of which is such a hazard in the state it is taken in leads, without a fault, from a good state to exactly one state, and that is good |
| `TracerSafety.HazardFaults` | kmview-kernel-module/kmview_main.c:109-196 | a sequence with such a hazard does not run to its end |
| `TracerSafety.ReplyToMinusOne` | kmview-kernel-module/kmview_main.c:283-290 | with one thread attached, a reply to id -1 is a fault |
| `TracerSafety.ReplyBeforeEntry` | kmview-kernel-module/kmview_main.c:298-361 | a thread just attached: a reply is a fault exactly when it is not SYSRESUME |
| `TracerSafety.BirthReadAfterDeath` | kmview-kernel-module/kmview_main.c:139-142 | a thread that dies before its NEWTHREAD is read: that read uses its dead task |
| `TracerSafety.QueueForget` | kmview-kernel-module/kmview_main.c:155-160 | nothing queued behind the death of a thread mentions it, so it can be freed when that is read |
| `TracerSafety.ReleaseInv` | kmview-kernel-module/kmview_main.c:92-128 | closing a tracer frees exactly its threads and leaves the others good |
| `TracerSafety.RunReliable` | kmview-kernel-module/kmview_trace.c:295-338 | in every reachable state every queued event names an existing thread that no earlier event frees; a NEWTHREAD is unique and first; its id finds the cloner, which exists, is announced before and outlives the event |
| `TracerSafety.ReadReportsCloner` | kmview-kernel-module/kmview_main.c:139-154 | reading a NEWTHREAD reports the umpid of the thread that cloned, and -1 for a root |
| `TracerSafety.RemainingExact` | kmview-kernel-module/kmview_trace.c:321-338 | the count in a TERMTHREAD is the number of threads of the tracer still alive, 0 exactly after the last one |
| `TracerReplies.StepDisciplined` | kmview-kernel-module/kmview_main.c:283-361 | fitting replies keep flags, registers, semaphore and queue in step with the answers |
| `TracerReplies.PoliteFaults` | kmview-kernel-module/kmview_main.c:283-361 | with fitting replies a step faults exactly for a negative id, for the NEWTHREAD of a dead thread and for closing a tracer that has one, the latter two with the memory of the task reused |
| `TracerReplies.PoliteRunSafe` | kmview-kernel-module/kmview_main.c:283-361 | every sequence of actions with fitting replies and none of these three never faults |
| `TracerReplies.CallFollowsAnswer` | kmview-kernel-module/kmview_main.c:283-361 | the call that runs is the one asked for, the tracer's, or none, as the answer says |
| `TracerReplies.ExitFollowsAnswer` | kmview-kernel-module/kmview_trace.c:589-613 | over every run with fitting replies an exit event is queued exactly for SYSMODIFIED, and the call number asked for is restored exactly for SYSVIRTUALIZED |
| `TracerReplies.OneOutstanding` | kmview-kernel-module/kmview_trace.c:520-587 | a thread has at most one queued or unanswered call event, exactly while it is stopped without an answer; its semaphore never exceeds 1 |
| `TracerReplies.AnswerKeepsIff` | kmview-kernel-module/kmview_main.c:283-361 | an answer to any thread is taken without a fault and keeps the discipline exactly when it fits the delivered event, or is SYSMODIFIED at an exit |
| `TracerReplies.LetThrough` | kmview-kernel-module/kmview_trace.c:583-586 | a call that is let through runs as asked and ends in user code, and no event is queued |
| `TracerReplies.DeliveredStops` | kmview-kernel-module/kmview_trace.c:572-577 | a call that is delivered queues its event behind all others and stops the thread |
| `TracerReplies.StopsUntilAnswered` | kmview-kernel-module/kmview_trace.c:92-112 | a stopped thread makes no step but to wake, and wakes exactly when its event has been answered |
| `TracerReplies.AnsweredCallRuns` | kmview-kernel-module/kmview_trace.c:589-613 | an answered call runs as the answer says once the thread wakes; its end queues exactly one exit event and stops the thread for SYSMODIFIED, and otherwise queues none and leads back to user code |
| `TracerReplies.AnsweredExitReturns` | kmview-kernel-module/kmview_trace.c:605-610 | after the answer to its exit event the thread wakes into user code and queues nothing |
| `TracerReplies.ReturnAtEntry` | kmview-kernel-module/kmview_main.c:298-325 | SYSRETURN to an entry, which does not fit, lets the call run as asked and brings its exit event |
| `TracerReports.Logged` | kmview-kernel-module/kmview_main.c:131-361 | over every run the umpid, last call, answer, saved registers, death, cloner and remaining count that the module keeps of a thread are those that the actions of the run give it |
| `TracerReports.ReportMeans` | kmview-kernel-module/kmview_main.c:139-175 | over every run a report carries the umpid that the thread was given last, or -1; the id in a NEWTHREAD finds its thread and the other number is the umpid last given to its cloner; a TERMTHREAD carries the number of threads alive when it was queued |
| `TracerReports.CallReportMeans` | kmview-kernel-module/kmview_main.c:161-171 | with fitting replies the number in the report of a call is the one its thread asked for last |
| `TracerReports.CallFollowsActions` | kmview-kernel-module/kmview_main.c:283-361 | with fitting replies, inside a call runs what the last entry and its answer among the actions of the run say |
| `TracerReports.ReplyFaultsIff` | kmview-kernel-module/kmview_main.c:298-361 | over every run a reply to an existing thread faults exactly when it is not SYSRESUME and the thread has died, or has neither stopped at a call nor come out of one |
| `TracerReports.ReadFaultsIff` | kmview-kernel-module/kmview_main.c:131-196 | over every run a read faults exactly when the memory of dead tasks is reused and its event, not the death, is of a thread that has died |
| `TracerReports.ReleaseFaultsIff` | kmview-kernel-module/kmview_main.c:92-128 | over every run closing a tracer faults exactly when the memory of dead tasks is reused and one of its threads has died |
| `TracerReports.TracersApart` | kmview-kernel-module/kmview_main.c:268-361 | no step on the side of one tracer changes the threads, the count or the queue of another |
| `Kmview.Module.EventEnqueue` | kmview-kernel-module/kmview_trace.c:153-177 | appends the event to the queue of the tracer of its thread |
| `Kmview.Module.NewThread` | kmview-kernel-module/kmview_trace.c:203-272 | a new thread gets an unused id, is counted, and its NEWTHREAD is queued with the id of its cloner |
| `Kmview.Module.Clone` | kmview-kernel-module/kmview_trace.c:295-316 | does the clone step of the protocol over the id table |
| `Kmview.Module.Reap` | kmview-kernel-module/kmview_trace.c:321-338 | does the death step of the protocol, for a thread that is not stopped: the wait for an answer cannot be interrupted |
| `Kmview.Module.SyscallEntry` | kmview-kernel-module/kmview_trace.c:520-587 | does the entry step: an event and a stop, or, for a call let through, the exit skipped and the call not |
| `Kmview.Module.SyscallExit` | kmview-kernel-module/kmview_trace.c:589-613 | does the exit step: restores the number and queues an event as the flags say |
| `Kmview.Module.FillEvent` | kmview-kernel-module/kmview_main.c:131-196 | takes the first event, reports it and frees the thread of a death; the threads it reads exist; tells exactly when it read the memory of a dead task after that was reused |
| `Kmview.Module.SysReply` | kmview-kernel-module/kmview_main.c:283-361 | does the reply step, or returns -EPERM exactly when the id names no thread of the caller; tells exactly the negative ids that read out of bounds and the replies that write to registers that are not there |
| `Kmview.Module.Release` | kmview-kernel-module/kmview_main.c:109-128 | the loop over all ids frees the threads of the tracer and gives their ids back; tells exactly when it detached from a dead task after its memory was reused |
| `FdSetSpec.GroupIsolated` | kmview-kernel-module/kmview_trace.c:235-249 | over every run a thread sees a change only if a member of its sharing group made it |
| `FdSetSpec.AttachSees` | kmview-kernel-module/kmview_trace.c:235-249 | a root thread starts in a group of its own and sees nothing |
| `FdSetSpec.CloneSees` | kmview-kernel-module/kmview_trace.c:235-249 | a clone starts by seeing exactly what its parent sees, in its group exactly with CLONE_FILES; nobody else notices |
| `FdSetSpec.SharedOrSnapshot` | kmview-kernel-module/kmview_trace.c:235-249 | over every run after a clone: with CLONE_FILES parent and child always see the same; without, neither sees what the other adds or removes |
| `FdSetSpec.SeesLastWord` | kmview-kernel-module/kmview_main.c:398-417 | over every run a thread sees a descriptor exactly when the last ADDFD or DELFD of it in its sharing group added it, or it was there and there was none |
| `FdSet.StateExact` | kmview-kernel-module/kmview_fdsysset.c:42-118 | structures exist exactly while somebody refers to them; ncopy and nusers count the owners, nfd the descriptors; no bit set exactly for an empty set |
| `FdSet.ReplacedElsewhere` | kmview-kernel-module/kmview_fdsysset.c:52-77 | a write by one owner of a shared bit set is invisible to the other owners |
| `FdSet.Kernel.FdsyssetCopy` | kmview-kernel-module/kmview_fdsysset.c:42-50 | one more owner, same contents |
| `FdSet.Kernel.FdsyssetSet` | kmview-kernel-module/kmview_fdsysset.c:52-77 | one owner gets the set with fd added, in place only if it is the only owner |
| `FdSet.Kernel.FdsyssetClr` | kmview-kernel-module/kmview_fdsysset.c:79-109 | one owner gets the set without fd, NULL when nothing is left; the last owner frees the old one |
| `FdSet.Kernel.FdsyssetFree` | kmview-kernel-module/kmview_fdsysset.c:111-118 | one owner less, and freed by the last |
| `FdSet.Kernel.AddFd` | kmview-kernel-module/kmview_main.c:398-417 | the whole sharing group sees fd added, nobody else; -EINVAL out of range |
| `FdSet.Kernel.DelFd` | kmview-kernel-module/kmview_main.c:398-417 | the whole sharing group sees fd removed, nobody else; -EINVAL out of range |
| `FdSet.Kernel.NewThread` | kmview-kernel-module/kmview_trace.c:235-249 | a clone with CLONE_FILES joins the group of its parent, another starts from a snapshot, an attached thread from nothing |
| `FdSet.Kernel.ThreadFree` | kmview-kernel-module/kmview_trace.c:392-399 | a thread leaves its group; the last one frees the structures nobody else refers to |
| `FdSet.Kernel.IsInFdSet` | kmview-kernel-module/kmview_trace.c:417-423 | tells whether the thread sees fd, for every fd |
| `FdSet.Kernel.HasNoFd` | kmview-kernel-module/kmview_trace.c:545-547 | the test that lets select and poll through holds exactly when the thread sees no descriptor |
| `FdSet.Kernel.IsKmviewFd` | kmview-kernel-module/kmview_trace.c:425-440 | a call on a descriptor, no exception applying, concerns the tracer exactly when its sharing group holds the descriptor |
| `GhostHashSpec.HashConcat` | kmview-kernel-module/ghosthash.example.c:53-62 | a hash computed piece by piece is the hash of the whole |
| `GhostHashSpec.HashOfHigh` | kmview-kernel-module/ghosthash.example.c:53-62 | the hash of a path with a byte above 0x7F and of what follows it: chars and shifts are signed |
| `GhostHashSpec.DecodeEncode` | kmview-kernel-module/ghosthash.example.c:79-134 | unpacking undoes packing for every sorted list, gaps of 254 and more included |
| `GhostHashSpec.NeedExact` | kmview-kernel-module/ghosthash.example.c:99-113 | the number computed first is the number of slots written |
| `GhostHashSpec.DecodeFits` | kmview-kernel-module/ghosthash.example.c:79-97 | any table stands for a list sorted by length that fits in as many slots |
| `GhostHashSpec.RemoveSorted` | kmview-kernel-module/ghosthash.example.c:156-174 | a delete never needs more slots, so it cannot fail for lack of room |
| `GhostHashSpec.ApplyChangesOne` | kmview-kernel-module/ghosthash.example.c:136-174 | a successful add or delete changes the pairs by exactly one, a failed one not at all |
| `GhostHashSpec.AddSucceedsIff` | kmview-kernel-module/ghosthash.example.c:136-154 | an add succeeds exactly when the slots of the longer list are at most 64 |
| `GhostHashSpec.FoundIff` | kmview-kernel-module/ghosthash.example.c:165-173 | a delete finds its pair exactly when that is in the table and no shorter pair has its hash |
| `GhostHashSpec.DeleteMisses` | kmview-kernel-module/ghosthash.example.c:165-173 | with `/70d2b` and `/bif8t7` stored, deleting the second fails |
| `GhostHashSpec.NoFalseNegative` | kmview-kernel-module/kmview_trace.c:462-479 | on any table, a path whose pair is stored is matched in every path it is a prefix of |
| `GhostHashSpec.HitIsShortest` | kmview-kernel-module/kmview_trace.c:462-479 | a hit is at the shortest prefix of the path that has the length and hash of an entry or of a dummy slot, and returns the length behind it |
| `GhostHashSpec.StoredPrefixMatches` | kmview-kernel-module/ghosthash.example.c:193-214 | after any history of adds and deletes, a path with a stored prefix is matched with a non-negative value unless all pairs of its key were taken by deletes of other paths |
| `GhostHashSpec.HistoryBalances` | kmview-kernel-module/ghosthash.example.c:136-174 | after any history the pairs in the table and those taken by deletes of other paths are together the keys of the stored paths |
| `GhostHashSpec.TableExactIff` | kmview-kernel-module/ghosthash.example.c:136-174 | the table holds exactly the keys of the stored paths if and only if no delete of the history took the pair of another path |
| `GhostHashSpec.HarmlessHistoryMatches` | kmview-kernel-module/kmview_trace.c:462-479 | after every such history each stored path is matched in every path it is a prefix of |
| `GhostHashSpec.StealsIff` | kmview-kernel-module/ghosthash.example.c:156-174 | a delete of a path that is not stored takes a pair exactly when the table has the pair of its length and hash and no shorter one with its hash; as long as no pair was lost before, exactly when a stored path has them and no shorter stored path has its hash |
| `GhostHashSpec.ForeignDelete` | kmview-kernel-module/ghosthash.example.c:156-174 | with `/a2` stored, deleting `/cp` empties the table and `/a2` is not matched |
| `GhostHash.ComputeHash` | kmview-kernel-module/ghosthash.example.c:57-62 | the loop continues a hash over a slice of the path |
| `GhostHash.SeenWhole` | kmview-kernel-module/ghosthash.example.c:136-139 | paths below 64 KiB are stored whole; of longer ones a multiple of that is lost |
| `GhostHash.Table.Gh2Array` | kmview-kernel-module/ghosthash.example.c:79-97 | unpacks any table into the list it stands for |
| `GhostHash.Table.Array2Gh` | kmview-kernel-module/ghosthash.example.c:99-134 | packs a sorted list, or returns -ENOMEM and changes nothing exactly when it needs more than 64 slots |
| `GhostHash.Table.Add` | kmview-kernel-module/ghosthash.example.c:136-154 | inserts the pair of the path, its length cut to an unsigned short, in order, or returns -ENOMEM and changes nothing |
| `GhostHash.Table.Del` | kmview-kernel-module/ghosthash.example.c:156-174 | removes one pair of the path, its length cut to an unsigned short, or returns -ENOENT and changes nothing |
| `GhostHash.Table.Match` | kmview-kernel-module/kmview_trace.c:462-479 | returns the rest of the path behind the first slot whose hash is that of the bytes before it, as an unsigned short |
| `EntryFilter.PathException` | kmview-kernel-module/kmview_trace.c:490-518 | a path call is an exception exactly when its path is absolute and the table of ghost mounts matches it |
| `EntryFilter.Delivers` | kmview-kernel-module/kmview_trace.c:531-586 | an entry is delivered exactly when the bitmap, the path filter with its ghost mounts, and the select, mmap and descriptor tests over the fd set of the thread want it |
| `EntryFilter.DescriptorDecides` | kmview-kernel-module/kmview_trace.c:544-582 | with fd sets and no other filter: mmap reaches the tracer exactly when the descriptor in its fifth argument is virtual, select and poll when any is, other calls on descriptors by their first argument or an exception, and all calls without one |
| `EntryFilter.SkippedPath` | kmview-kernel-module/kmview_trace.c:537-543 | a path call that is skipped reaches the tracer exactly when it is on a ghost mount and would otherwise; in a chroot the path does not matter |
| `EntryFilter.OnlyAbsolute` | kmview-kernel-module/kmview_trace.c:508-514 | only an absolute path is looked up among the ghost mounts |
| `EntryFilter.GhostMountReached` | kmview-kernel-module/kmview_trace.c:490-543 | after any history in which no delete took the pair of another path, a call on a path under a stored path is not dropped for its path |
| `ViewFsSpec.RecordSize` | xmview-os/um_viewfs/viewfs.c:74-76 | a record length is the least multiple of 8 above header, name and terminator |
| `ViewFsSpec.ListedExact` | xmview-os/um_viewfs/viewfs.c:1525-1604 | which names the three layers list |
| `ViewFsSpec.ListedIffFound` | xmview-os/um_viewfs/viewfs.c:964-977 | apart from `.-` at the root, a name is listed exactly when lstat finds it |
| `ViewFsSpec.HiddenListedIff` | xmview-os/um_viewfs/viewfs.c:1544-1545 | `.-` is listed at the root exactly when the real directory has it, not wiped out |
| `ViewFsSpec.MergedTells` | xmview-os/um_viewfs/viewfs.c:1546-1556 | every entry shown has the inode and type that its name has in the virtual directory, or in the real one if that does not list it, and a record of the right size |
| `ViewFsSpec.MergedDistinct` | xmview-os/um_viewfs/viewfs.c:1512-1604 | a name is in the merged list once, although each layer is compared with the list before it only |
| `ViewFsSpec.MergedRising` | xmview-os/um_viewfs/viewfs.c:1532-1556 | offsets never fall and are distinct on the entries shown |
| `ViewFsSpec.LayerOffsets` | xmview-os/um_viewfs/viewfs.c:1550-1556 | an entry is as far from the one before it as its name is long; wiped names take no place |
| `Paging.PagesComplete` | xmview-os/um_viewfs/viewfs.c:1620-1665 | with buffers larger than every record the pages up to the first empty one are the records of the list, in order, each once, and all later pages are empty |
| `Paging.PagesEnd` | xmview-os/um_viewfs/viewfs.c:1620-1665 | an empty page comes after at most as many calls as there are records |
| `Paging.FirstCallLoses` | xmview-os/um_viewfs/viewfs.c:1636-1640 | a first call takes nothing exactly when its buffer is not larger than the first record, and then every later call returns nothing |
| `Paging.LaterCallWaits` | xmview-os/um_viewfs/viewfs.c:1640-1658 | a later call with too small a buffer returns nothing and keeps its place |
| `Paging.ListingIsLookup` | xmview-os/um_viewfs/viewfs.c:1525-1665 | a program that pages through a merged directory sees each name that lstat finds once and no other, apart from `.-` at the root, each with the type and inode of the directory it is listed from (2 for an inode of 0) |
| `ViewFs.MergeNewEntry` | xmview-os/um_viewfs/viewfs.c:1512-1523 | walking the circle from the tail tells whether a name is among the entries up to oldtail |
| `ViewFs.StreamLaws` | xmview-os/um_viewfs/viewfs.c:1537-1568 | the entries of a directory are those of its getdents64 calls one after the other, up to the first that delivers none |
| `ViewFs.AddDirInfo` | xmview-os/um_viewfs/viewfs.c:1525-1572 | the circle after a layer is the merged list; descriptor 0 loses the list |
| `ViewFs.FillDirInfo` | xmview-os/um_viewfs/viewfs.c:1583-1604 | builds the list layer by layer, for all descriptors |
| `ViewFs.FilledMerged` | xmview-os/um_viewfs/viewfs.c:1583-1604 | off descriptor 0 it is the merged list of the directories that could be opened |
| `ViewFs.OpenDir.GetDents64` | xmview-os/um_viewfs/viewfs.c:1620-1665 | each call returns the next page, stays inside the buffer and advances dirpos by it |

## Left out

- fat_seek: its extension loop and its backward branch do not compute the intended position; reads and writes start from a given cluster and offset.
- FAT mirrors, the top four bits of FAT32 entries, dirty marks, time stamps and the FSInfo sector: device layout without influence on the chains.
- FAT directories: searching, creating and listing entries on disk, short-name generation and the fixed root directory.
- Failing or short device reads and writes, failing allocations of memory: every transfer and every malloc is taken to succeed.
- FatVolume.Volume.Truncate: the refusal of directories is not modelled.
- FatVolume.Volume.Delete: erasing the directory entry on the device and the refusal of directories are not modelled.
- FatVolume.Volume.InitializeFreelist: a FAT32 volume without any data cluster but with a positive stored count, whose scan reads an unfilled buffer, is excluded.
- FatVolume.Volume.Mount: the same volumes are excluded; the boot sector is given as its numbers.
- Lfn.GenerateLfnChain: takes well-formed UTF-8; of an overrun it says only when it happens.
- Lfn.StoreAndLoad: the same; cutting a name to 255 bytes in a listing is not modelled.
- Kmpid.Table.Alloc: the flag that denies new threads, which nothing in the module sets, is not modelled.
- Tracer: SOCKETCALL entries, the chroot flag and the magic-poll batches are not modelled; the protocol takes the decision of the filters as a choice at each call.
- Tracer: reading the memory of a dead task is a fault only once that has been reused, which each read and release takes as a choice; writing to it always is.
- Tracer: interleavings inside one callback or ioctl are not modelled; a new thread structure is taken to differ from all earlier ones; that utrace calls back no thread after its reap or detach is taken for granted.
- Kmview.Module.NewThread: the fd set of the new thread is in FdSet.Kernel; the inherited chroot flag is not modelled.
- Kmview.Module.SyscallEntry: takes the decision that EntryFilter.Delivers makes as a parameter.
- Kmview.Module.FillEvent: arguments, program counter, stack and process id are not copied; that the task they come from is alive is modelled.
- Kmview.Module.Release: killing the tasks is not modelled, nor that a stopped thread woken by the release may still use its semaphore while that is freed; the fd sets are in FdSet.Kernel.
- EntryFilter.Delivers: the socketcall branch of the 32-bit architectures is not modelled.
- GhostHash.Table.Add: paths whose length, cut to an unsigned short, is 32768 or more and so negative as a short are excluded; the kernel hands in paths below 4096 bytes.
- ghosthash_search: reads the slot behind the terminator.
- viewfs copy-on-write, rename, link, truncate and the info files: they depend on results of system calls on the real tree.
- Lookups that fail with an error other than ENOENT, and file systems that do not set d_type.
