# Verified models of the EFI NTFS driver and of EFI Commander

A Dafny project about the on-disk engine of the UEFI NTFS driver (`src/`) and about the screen-free
algorithms of EFI Commander (`ec/`). Each layer is modelled the way its C file works - loops and in-place
updates as methods and classes, computed results as functions - and each method is proved equal to a
specification function, about which the laws the layer exists for are then proved for all inputs and over
all sequences of calls. `dafny verify dfyconfig.toml` checks everything.

## What is modelled

- **Directory index** (`IndexTree`, `IndexListing`, `IndexWalk`, `IndexOpen`, `IndexBounds`, `IndexFormat`,
  `IndexExample`; `src/ntfs_btree.c`). A directory is the bytes of its `$INDEX_ROOT`, the clusters of its `$INDEX_ALLOCATION`, its
  bitmap, and the memory that follows each node once it is read, which can hold anything; nodes and entries are
  decoded from those bytes, blocks go through update-sequence fixup and header checks. Directed lookup, collection
  in key order and cursor enumeration are total functions on any image, cycles included. On well-formed trees
  lookup is membership up to `$UpCase` folding, the two listings agree, and memory behind the nodes makes no
  difference; for each loop the exact condition is given under which it reads inside its buffer. What is read from a
  node is what a writer of the bytes put there.
- **Record layer** (`UpdateSequence`, `RecordFormat`, `FixupBounds`, `MultiSector`, `RecordRuns`, `RecordCache`,
  `RecordSlots`, `RecordExample`; `src/ntfs_mft.c`). Fixup and unfixup in place, said of every byte; where a fixup
  touches memory; detection of torn writes as an exact condition; and the 16-slot record cache over a disk of bytes:
  the table is read and written through its runs, the mirror is found through record 1 at each write, and coherence
  and lock-step hold over every sequence of reads and writes, moves of the mirror included.
- **Attributes and run lists** (`AttributeData`, `RunList`, `RunFormat`; `src/ntfs_attr.c`, `src/ntfs_runlist.c`). Reads
  with a moving cursor against a cursor-free scan, in-place writes through extents, and the mapping-pairs codec in
  both directions, the decoder on the pairs of any writer.
- **Allocators** (`Bits`, `BitScan`, `ClusterAllocator`, `MftAllocator`; `src/ntfs_bitmap.c`). The word-skipping scan
  against what the bits say, the cluster allocator with its cursor and its mirror from mounting on, the MFT record
  allocator with growth; conservation and disjointness over every interleaving of calls. Growth of the table is an
  outside step: whether clusters and room can be had, and what new clusters hold, are parameters.
- **Codecs** (`Lznt1`, `NtfsTime`; `src/ntfs_lznt1.c`, `src/ntfs_time.c`). The LZNT1 decoder of section 2.5 of [MS-XCA]
  against LZ77 expansion of token sequences, and calendar conversion, where year and month loops meet a
  closed form.
- **EFI Commander** (`ContentSearch`, `SyncTrees`, `SyncCounts`, `SyncPaths`, `SyncWalk`, `PanelSort`, `Sha256`,
  `Sha256Roots`, `Sha256Vector`, `IniText`, `IniFormat`, `IniFile`). Chunked content search under arbitrary short
  reads, one-way tree update against tree comparison, by tree and by path, what both count, the panel's comparison and
  Shell sort, streaming SHA-256 against FIPS 180-4 with the origin of its constants and one digest worked through, and
  the settings text against its parser, word for word.

`ByteData`, `Letters` and `Arith` hold little-endian fields, the ASCII letters and a few facts about division.

What an on-disk layout, a token, a letter or a count means is stated apart from the code's own decoding of it, with the
numbers written out: modules named `...Format` write bytes down field after field.

## Where the code and what is said about it differ

The models follow the code. Where an expected law fails, its exact condition is proved instead, and an input that
shows the failure.

- A real run whose absolute cluster number is -1 is decoded as written but reads as a hole to everything
  downstream, which goes by that number; a comment in the run-list decoder holds this impossible since
  holes have a flag of their own (`RunList.RealRunsSurvive`, `RunList.RealRunTakenForHole`).
- An extent of 2^63 clusters or more takes nine length bytes and is refused by the decoder
  (`RunList.DecodeOfEncode`, `RunList.LongExtentRefused`).
- A write of a record caches it without the header check a read would make, so cached and uncached reads
  agree after it exactly when the header is sane (`RecordCache.AgreesIffSane`, `RecordExample.InsaneRecordIsCached`).
- Record 1 is written before it is cached, so when it moves the mirror while it is cached its own copy goes to the
  old place, and the new one is out of step until record 1 is written again (`RecordCache.MovedMirror`,
  `RecordExample.CopyGoesAstray`).
- The walks that collect entries or follow pointers do not compare an entry's end with the end of the node before
  they read its pointer, and no walk compares the end of a header: what they give can depend on memory behind the
  buffer (`IndexBounds.LoopReadsInside`, `IndexExample.MemoryCanMatter`).
- An index is sorted without regard to case, so a lookup by exact case can miss what is there: it finds it exactly if
  at every entry on the way exact case turns as any case does (`IndexOpen.ExactFindsIff`, `IndexExample.ExactCanMiss`).
  Looking up in any case afterwards makes up for it, and on a sound index the result is the same either way, as a
  comment in the code says (`IndexOpen.OpenIsFind`). The other half of that comment, that trying exact case first is
  right in a directory of several case variants too, does not hold (`IndexExample.VariantsConfuse`).
- When the bitmap cannot be loaded at mount, every cluster counts as free
  (`ClusterAllocator.MountKeepsBooks`).
- A torn write is caught only as far as the update sequence array reaches; a record whose array covers fewer
  sectors than it has can be mixed in the rest (`UpdateSequence.TornWrite`, `UpdateSequence.OnlyPureImages`,
  `UpdateSequence.TornWhereUncovered`, `UpdateSequence.TornRecordAccepted`).
- A request for zero clusters may be refused on a volume with room, because the second phase of the scan is
  skipped (`ClusterAllocator.RefusedIffFull`, `ClusterAllocator.EmptyRequestRefusedWithRoom`).
- Time stamps before 1970 do not come back, and neither do a date's time zone, daylight flag and single nanoseconds
  (`NtfsTime.TicksRoundTrip`, `NtfsTime.RecordRoundTrip`, `NtfsTime.EarlyStampLost`).
- Copying a tree has no depth cap while comparing and updating have one, so a successful update can leave
  trees that the comparison refuses (`SyncTrees.UpdateThenAgree`, `SyncPaths.CopiedTooDeep`).
- A path has room for 511 characters, and a name that does not fit is left off without an error, so what was meant
  for an entry falls on its directory. Updating and comparing do what they should exactly if every path on the way
  fits (`SyncPaths.UpdateIsByTree`, `SyncPaths.CompareIsByTree`); a deletion that goes astray loses entries that
  only the destination has (`SyncPaths.LongNameDeletes`).
- A fixup goes by a record's type and not by its buffer, which a comment says every caller makes as large as the type
  implies; an index record in the file table leads it outside (`FixupBounds.AcceptedStaysInside`,
  `FixupBounds.IndexInFileTable`).
- The hot-directory count is not saved but counted again on reading (`IniText.RestoredIffCounted`,
  `IniText.CountNotRestored`).
- A failed LZNT1 decode reports an offset into the compressed data when a chunk is cut off, and an output size
  when it is damaged; both are modelled.

## Model

| member | source | states |
|---|---|---|
| IndexTree.LookupIsMembership | src/ntfs_btree.c:156-315 | on every well-formed index a case-insensitive lookup finds something exactly when an entry with MFT index 16 or more has that name up to `$UpCase` folding, 8.3 aliases included, and then it is that entry's index |
| IndexTree.SearchRight | src/ntfs_btree.c:157-249 | the directed descent from any entry of any node of a well-formed tree answers for all entries from there on, in the node and below it |
| IndexTree.SearchSubRight | src/ntfs_btree.c:252-315 | the same for the block an entry leads to: bitmap check, read, fixup and header checks all pass, and the depth stays within the cap |
| IndexTree.SplitAt | src/ntfs_btree.c:220-244 | in a list of strictly ascending keys one comparison against an entry rules out everything on one side of it |
| IndexTree.OneOfEachName | src/ntfs_btree.c:220-229 | strictly ascending keys leave at most one entry per folded name |
| IndexTree.CollateZero | src/ntfs_btree.c:132-154 | the collation calls two folded names equal only when they are the same |
| IndexTree.CollateOpposite | src/ntfs_btree.c:132-154 | and swaps its sign with its arguments |
| IndexTree.CollateTransitive | src/ntfs_btree.c:132-154 | and is transitive, with the shorter of two names first when one begins the other |
| IndexTree.CollateMeans | src/ntfs_btree.c:132-154 | one name collates before another if and only if it has the lesser character where they first differ, or ends there |
| IndexWalk.CompareNames | src/ntfs_btree.c:132-154 | the character loop computes that collation, of the folded names or, when case matters, of the names themselves |
| IndexWalk.SearchIndexBlock | src/ntfs_btree.c:156-249 | the entry-walking loop gives the directed search of the node, with or without regard to case, on any bytes and whatever follows them in memory, and ends |
| IndexWalk.SearchBelow | src/ntfs_btree.c:251-315 | descending into a block does too, within 32 levels even when pointers form a cycle |
| IndexListing.CollectIsInOrder | src/ntfs_btree.c:462-519 | collecting from any entry of any node appends the listed entries in key order, as many as the array has room for; this holds of every image, sound or not, and whatever follows its nodes in memory |
| IndexListing.CollectDirIsInOrder | src/ntfs_btree.c:521-563 | a whole directory is collected in key order, cut off at the array's size |
| IndexListing.CollectedIsSorted | src/ntfs_btree.c:521-563 | on a well-formed index the collected files are those of the non-DOS user entries, sorted by collation |
| IndexListing.EnumerationIsPreOrder | src/ntfs_btree.c:432-454 | reading a well-formed directory with entry number k gives the k-th file of one fixed list and asks for k + 1 next; past its end it gives nothing and asks for k again |
| IndexListing.EnumerationIsPermutation | src/ntfs_btree.c:432-454 | that list is a permutation of what collecting gives: every listed entry exactly once |
| IndexListing.ScanYieldsOwn | src/ntfs_btree.c:565-626 | scanning a node passes or gives its own listed entries, moving the two counters together |
| IndexListing.BelowYields | src/ntfs_btree.c:697-711 | following a node's pointers passes or gives everything below it, in order |
| IndexListing.BrowseYields | src/ntfs_btree.c:628-715 | a block gives its own entries before those below it, and goes below only when its header says it has children |
| IndexListing.SameFiles | src/ntfs_btree.c:462-491 | from any entry on, pre-order and key order visit the same files equally often, on every image and whatever follows its nodes in memory |
| IndexListing.ListedCanBeOpened | src/ntfs_btree.c:156-715 | on a well-formed index listing and lookup know the same files: what is listed opens by the name of its entry, and what opens by a name other than an 8.3 alias is listed |
| IndexFormat.EntryBack | src/ntfs_btree.c:220-246 | an entry is read as it was written: for every file number below 2^48 and every sequence number, name, name type and 64-bit pointer, the entry that consists of their little-endian bytes has exactly these |
| IndexFormat.EndBack | src/ntfs_btree.c:232-246 | the entry that closes a node likewise, with or without a pointer |
| IndexFormat.LeafBack | src/ntfs_btree.c:462-491 | a node written from entries that lead nowhere is well-formed and holds exactly these, in order |
| IndexFormat.RootAcceptedIff | src/ntfs_mft.c:94-137 | a root is accepted if and only if its entries begin behind the header and end behind their beginning and inside the value, and then they are read from there |
| IndexFormat.BlockBack | src/ntfs_btree.c:251-315 | a block of a written allocation is read at the VCN that counts its clusters, with its entries where its header says, if and only if that header is in order |
| IndexFormat.InUseBack | src/ntfs_btree.c:251-290 | a block is in use if and only if its bit of the bitmap is set, the lowest bit of a byte first |
| IndexFormat.WrittenIsFound | src/ntfs_btree.c:156-249 | a root written from keys in order is well-formed, and a lookup gives the file number of the key of that name up to folding if it is 16 or more, and otherwise nothing |
| IndexFormat.WrittenIsListed | src/ntfs_btree.c:462-563 | what is collected from a written root are the file numbers from 16 on of the keys that are no 8.3 alias, in the order written, as far as there is room |
| IndexFormat.FarIsFound | src/ntfs_btree.c:156-249 | on a volume of more than 65536 records: the entry that begins with the bytes 70 11 01 00 00 00 02 00 is found as file 70000 |
| IndexExample.OneFileIsSound | src/ntfs_btree.c:156-249 | well-formed indexes exist: in one with a single file, lookup finds that file and nothing else |
| IndexExample.TwoLevelsAreSound | src/ntfs_btree.c:156-315 | and with blocks: below a root of one file two blocks, reached by VCN through bitmap and fixup; each of the three files is found and a fourth name is not |
| IndexBounds.LoopReadsInside | src/ntfs_btree.c:462-711 | the exact condition on a node under which the loop that collects, or the one that follows pointers, reads inside the buffer: the fields of every entry it comes to, and the pointer of the last one, lie inside |
| IndexBounds.ScanReadsInside | src/ntfs_btree.c:565-626 | the same for the scan of a listing: the length field of the last entry it comes to lies inside |
| IndexBounds.SearchReadsInside | src/ntfs_btree.c:156-249 | the same for a lookup, for every key: of the last entry it comes to the header lies inside and, unless it is an end entry or overhangs the node, the length of its name |
| IndexBounds.WellFormedReads | src/ntfs_btree.c:462-711 | in a well-formed node only the header of the end entry can stick out |
| IndexBounds.MemoryMakesNoDifference | src/ntfs_btree.c:156-715 | on a sound index whose headers lie inside, no lookup, enumeration step or collection depends on the memory behind root and blocks |
| IndexExample.MemoryCanMatter | src/ntfs_btree.c:462-491 | otherwise it can: an index cut off in the middle of a header is collected as empty or as one file, depending on the byte that follows |
| IndexOpen.OpenIsFind | src/ntfs_file.c:366-380 | on every sound index looking a component up by exact case first and then in any case gives what the lookup in any case gives; an exact hit is an entry of exactly that name |
| IndexOpen.ExactHits | src/ntfs_btree.c:132-249 | whatever the exact descent finds in a well-formed tree belongs to a user entry of exactly that name |
| IndexExample.ExactCanMiss | src/ntfs_file.c:366-380 | but it can miss one: in an index sorted as "a", "B" the exact descent for "B" finds nothing, and the second lookup finds it |
| IndexOpen.ExactFinds | src/ntfs_btree.c:156-315 | in a well-formed tree the exact descent for a name that is there finds it exactly when at every entry on the way exact case turns the way that any case does |
| IndexOpen.ExactFindsIff | src/ntfs_btree.c:132-315 | the exact lookup on every sound index: it finds the entry of exactly that name if and only if there is one and each comparison on the way to it has the same sign in exact case as in any case; otherwise it finds nothing |
| IndexExample.VariantsConfuse | src/ntfs_file.c:366-380 | in a directory of several case variants, sorted as "ba", "BB", "bB", opening "bB" gives the file of "BB", although "bB" is there |
| IndexWalk.LookupComponent | src/ntfs_file.c:376-380 | the two lookups one after the other |
| IndexWalk.CollectBlock | src/ntfs_btree.c:462-491 | the loop fills the caller's array behind what is there with exactly the collected files, and ends on any image |
| IndexWalk.CollectBelow | src/ntfs_btree.c:493-519 | the same for the block below an entry |
| IndexWalk.CollectDirectory | src/ntfs_btree.c:521-563 | the array ends up holding the collected directory and the count says how much of it |
| IndexWalk.ScanIndexBlock | src/ntfs_btree.c:565-626 | the loop gives the first entry that is due and moves both counters as specified |
| IndexWalk.BrowseEntries | src/ntfs_btree.c:697-711 | the second loop over a block, or over the root, follows its pointers as specified and ends on any image |
| IndexWalk.BrowseSubNode | src/ntfs_btree.c:628-715 | the recursion into blocks does, within the depth cap |
| IndexWalk.FindInDirectory | src/ntfs_btree.c:317-454 | opening by name is the directed search, with or without regard to case, and leaves the entry number alone; a directory read is the enumeration step |
| UpdateSequence.FixupRecord | src/ntfs_mft.c:53-77 | in place: accepted only if every covered sector ends in the record's number, whose displaced bytes come back; on a mismatch the sectors before it stay patched; bounds are checked first |
| UpdateSequence.UnfixupRecord | src/ntfs_mft.c:247-274 | in place: the number is bumped, each sector end saved to the array and overwritten |
| UpdateSequence.FixSectors | src/ntfs_mft.c:71-75 | the fixup loop patches sector after sector and stops at the first mismatch |
| UpdateSequence.StampSectors | src/ntfs_mft.c:268-272 | the stamping loop, sector after sector |
| UpdateSequence.FixEffect | src/ntfs_mft.c:71-75 | with the array clear of the sector ends, fixup succeeds if and only if all of them carry the number, and then puts each saved word back and changes nothing else |
| UpdateSequence.StampEffect | src/ntfs_mft.c:268-272 | stamping saves every sector end unspoilt by the others and leaves all other bytes alone |
| UpdateSequence.UnfixGives | src/ntfs_mft.c:247-274 | the image that goes to disk: one new number at all sector ends, the true bytes in the array, the payload untouched |
| UpdateSequence.FixUndoesUnfix | src/ntfs_mft.c:53-77 | fixup undoes unfixup on everything but the array |
| UpdateSequence.NextDiffers | src/ntfs_mft.c:264-266 | the new number differs from the old one and is neither 0 nor 0xFFFF |
| UpdateSequence.TornWrite | src/ntfs_mft.c:231-274 | a sector-by-sector mix of an image and its successor is accepted if and only if all sectors the array covers are of the generation whose number it carries |
| UpdateSequence.OnlyPureImages | src/ntfs_mft.c:231-274 | when the array covers the whole record only the two pure images are accepted, and the new one gives back the edited record |
| UpdateSequence.TornWhereUncovered | src/ntfs_mft.c:231-274 | wherever the array does not reach, a torn write passes: for every successor that changes a byte behind the covered sectors and in another sector than the array, the image with that byte's sector old and all others new is accepted and is neither of the two |
| UpdateSequence.TornRecordAccepted | src/ntfs_mft.c:231-274 | and such records exist: a two-sector record whose array covers one, with byte 600 changed |
| UpdateSequence.PayloadBack | src/ntfs_mft.c:231-274 | fixup, edit, unfixup, fixup: the edited payload |
| RecordFormat.FixMeans | src/ntfs_mft.c:25-76 | what a fixup does, byte by byte: a record without an array is left as it is; one that is neither FILE nor INDX, or whose array or covered sectors do not fit, is refused untouched; any other is accepted if and only if every covered sector ends in the array's first pair, and then each gets back the pair saved for it and nothing else changes |
| RecordFormat.UnfixMeans | src/ntfs_mft.c:230-274 | what preparing a record does, byte by byte: with the same refusals, the array begins with the next number, which is 1 after 65534 and 65535, every covered sector ends in it, the pair that stood there is saved, and nothing else changes |
| FixupBounds.FixupStaysInside | src/ntfs_mft.c:27-77 | the exact condition under which fixing up a record touches nothing behind its buffer, whatever the size of the buffer and the type of the record: there is no array, or it is refused at once, or the array, as far as the loop gets with it, and the last sector it looks at lie inside |
| FixupBounds.AcceptedStaysInside | src/ntfs_mft.c:27-77 | for an accepted record that is the code's own check with the buffer's size in place of the size the type implies; a buffer as large as the type implies always suffices |
| FixupBounds.BehindStays | src/ntfs_mft.c:53-77 | what is not touched makes no difference to the result and does not change |
| FixupBounds.IndexInFileTable | src/ntfs_mft.c:182-203 | a table record that carries the index type, on a volume whose index blocks are larger than its records: it is accepted, and bytes behind the caller's buffer change |
| MultiSector.WriteMultiSectorRecord | src/ntfs_mft.c:276-293 | prepares the record, writes it through the attribute and restores the copy in memory; a short write is reported |
| MultiSector.WrittenReadsBack | src/ntfs_mft.c:276-293 | after a success the disk, read through the same extents, fixes up to exactly the record in memory, which outside its array is the one handed in |
| MultiSector.OutcomeMeans | src/ntfs_mft.c:276-296 | a write is refused if and only if the record cannot be prepared, and then nothing changes; it is done if and only if all the bytes it should cover lie in runs that are no holes, and is short otherwise |
| MultiSector.OnlyRunsAreTouched | src/ntfs_mft.c:276-293 | whatever the outcome, no byte outside the attribute's real runs changes |
| RecordCache.RecordVolume.FindSlot | src/ntfs_mft.c:171-173 | the lookup loop finds the first valid slot of a record |
| RecordCache.RecordVolume.CachePut | src/ntfs_mft.c:162-180 | the record's slot, or else the next one round robin, takes the image; records too large for a slot are not kept |
| RecordCache.RecordVolume.ReadRaw | src/ntfs_mft.c:200-203 | the raw record is read through the table's runs, with the table's own cursor, and only a whole one counts |
| RecordCache.RecordVolume.ReadFileRecord | src/ntfs_mft.c:182-229 | a hit copies the slot; a miss reads through the table's runs, fixes up and checks the header, and caches only what passes |
| RecordCache.RecordVolume.SyncMftMirror | src/ntfs_mft.c:305-330 | the raw image of one of the first four records goes to its place in the runs that record 1, as the read gives it, names |
| RecordCache.RecordVolume.StoreRecord | src/ntfs_mft.c:343-349 | the raw record is written through the table's runs and, if all of it got there, to the mirror |
| RecordCache.RecordVolume.WriteFileRecord | src/ntfs_mft.c:332-358 | prepares, writes, mirrors, restores and caches, in that order |
| RecordRuns.WholeWrite | src/ntfs_attr.c:199-267 | through runs without holes a record is written whole exactly when it lies inside them |
| RecordRuns.ImageAfterWrite | src/ntfs_attr.c:199-267 | then it, and no other record of the same runs, has the new bytes |
| RecordRuns.ImageElsewhere | src/ntfs_attr.c:199-267 | and no record of runs that share no byte with these changes |
| RecordCache.ReadIsUncached | src/ntfs_mft.c:182-229 | a read of a coherent cache gives what reading the table's runs and fixing up would, and leaves cache and disk in step |
| RecordCache.FailsIff | src/ntfs_mft.c:200-223 | a read from the disk ends in a device error if and only if the record does not lie inside the table's runs, and otherwise with success if and only if fixup and header check accept it |
| RecordCache.ReadIffInOrder | src/ntfs_mft.c:200-227 | a record that fixes up is read with success if and only if its attributes begin no later than its bytes in use end, these end inside the record, and it claims no more bytes than it has; stated on the bytes of the three header fields |
| RecordExample.FormattedIsRead | src/ntfs_mft.c:200-227 | a formatted record of 1024 bytes with attributes at 56, 416 bytes in use and 1024 allocated is read uncached with success |
| RecordSlots.StaysCached | src/ntfs_mft.c:162-180 | a record of up to 4096 bytes that was not cached and is put into the cache stays there through the next fifteen, whichever they are |
| RecordSlots.LastSixteen | src/ntfs_mft.c:162-180 | after sixteen new records the cache holds these and nothing else |
| RecordSlots.LargeAreNotKept | src/ntfs_mft.c:170 | records of more than 4096 bytes are never cached |
| RecordCache.PutKeepsCoherence | src/ntfs_mft.c:162-180 | caching what the disk gives keeps the cache coherent, with at most one valid slot per record |
| RecordCache.WriteKeepsCoherence | src/ntfs_mft.c:332-358 | a write, whole, short or refused, keeps the cache coherent when the written header would pass the check of the read and the mirror shares no byte with the table |
| RecordCache.AgreesIffSane | src/ntfs_mft.c:332-358 | and only then: after a successful write the cached read gives the record back, and the uncached one does too if and only if the header is sane, since the write does not look at it |
| RecordExample.InsaneRecordIsCached | src/ntfs_mft.c:332-358 | such a write: a record that claims more bytes in use than it has is written without complaint and read back from the cache, while the disk would refuse it |
| RecordExample.BlankIsInStep | src/ntfs_mft.c:182-358 | a volume on which all that the runs below assume holds |
| RecordCache.SyncSees | src/ntfs_mft.c:305-330 | the place of the mirror is read from record 1 as the disk had it before the write, except that a write of record 1 itself is seen when record 1 is not cached |
| RecordCache.WriteReachesMirror | src/ntfs_mft.c:343-349 | after a write of one of records 0 to 3 its image at the place that was used equals the one in the table, and no other image changes in either |
| RecordCache.CopiedToMirror | src/ntfs_mft.c:305-349 | a write of one of records 0, 2 and 3 puts its raw image at its place in the runs that record 1 names, and a write of any record from 4 on changes nothing there |
| RecordCache.MovedMirror | src/ntfs_mft.c:305-358 | a record 1 that names new runs for the mirror: its own copy goes to the new place exactly when it was not cached, and to the old one otherwise |
| RecordExample.CopyGoesAstray | src/ntfs_mft.c:305-358 | such a move: with record 1 cached, the record that names the new place is missing there |
| RecordCache.OtherBytesStay | src/ntfs_mft.c:332-358 | no byte of the disk changes that is neither in the table nor at the mirror's place, old or new |
| RecordCache.StepKeepsInStep | src/ntfs_mft.c:182-358 | every read and every write keeps coherence, one slot per record, the place record 1 names, and the agreement of the records known to agree there |
| RecordCache.RunStaysInStep | src/ntfs_mft.c:182-358 | the same after every run of reads and writes, wherever record 1 moves the mirror |
| RecordCache.EveryReadIsUncached | src/ntfs_mft.c:182-358 | so in every run each read returns what an uncached read would, and no record has two valid slots |
| RecordCache.MirrorIsInLockStep | src/ntfs_mft.c:182-358 | and in every run that leaves the mirror where it is, every one of records 0 to 3 written before has the same image in the table and in the mirror |
| AttributeData.FindIs | src/ntfs_attr.c:129-155 | an offset lies in at most one run, and the scan from the first run finds it |
| AttributeData.ReadIsStream | src/ntfs_attr.c:80-190 | a cursor-free read returns the attribute's bytes from the offset on, holes as zeros, as many as there are |
| AttributeData.AttrContext.Seek | src/ntfs_attr.c:129-155 | wherever the cursor stood, it moves to the one run that holds the offset, or off the list |
| AttributeData.AttrContext.ReadPiece | src/ntfs_attr.c:109-182 | one turn of the read loop copies up to the end of one run and touches nothing else |
| AttributeData.AttrContext.ReadAttr | src/ntfs_attr.c:80-190 | with any cursor left by earlier reads, a read fills the buffer with exactly the bytes of a cursor-free scan |
| AttributeData.WriteAttr | src/ntfs_attr.c:199-267 | the in-place write goes run by run and stops at a hole or past the last run |
| AttributeData.ReadSeesWrite | src/ntfs_attr.c:199-267 | over disjoint extents a read after a write sees exactly the bytes reported written, and every other byte as before |
| AttributeData.ReadAfterWrite | src/ntfs_attr.c:199-267 | reading back what a write reported returns the data |
| AttributeData.WriteStaysInRuns | src/ntfs_attr.c:199-267 | bytes of the disk outside the real runs never change |
| AttributeData.WriteStops | src/ntfs_attr.c:199-267 | a write ends early only at a hole or past the last run, and writes into neither |
| AttributeData.ByteOfCluster | src/ntfs_attr.c:81-198 | byte x of the c-th cluster of a run is byte x of the cluster whose number is the run's plus c: where a run's bytes lie in the stream and on disk, for every cluster size |
| RunList.DecodeRunEntry | src/ntfs_runlist.c:17-61 | one mapping pair: both widths within 8, the pair inside the attribute, the length unsigned, the delta sign-extended, a missing delta a hole |
| RunList.BuildRunList | src/ntfs_runlist.c:64-136 | the run array holds the decoded runs up to the point of failure, and the count only on success |
| RunList.DecodeStream | src/ntfs_runlist.c:116-135 | the decoding loop, with running cluster and block numbers in 64 bits |
| RunList.MappingPairsSize | src/ntfs_runlist.c:142-167 | non-zero exactly when the header is in order and a terminator is found, and then one more than the bytes before it |
| RunList.MeasureAgreesWithDecode | src/ntfs_runlist.c:64-167 | a stream that measures is never malformed to the decoder, and a decoder that gets through stops on the very terminator the measurement ends with |
| RunList.LengthBytes | src/ntfs_runlist.c:188-195 | the shift loop finds the least signed width of a length |
| RunList.DeltaBytes | src/ntfs_runlist.c:197-207 | the widening loop finds the least signed width of a delta |
| RunList.WidthIsLeast | src/ntfs_runlist.c:188-207 | that width holds the value and no smaller one does |
| RunList.SignedOfBytes | src/ntfs_runlist.c:51-59 | sign extension recovers every value that fits its width |
| RunList.EncodeRunEntry | src/ntfs_runlist.c:177-217 | writes header, length and delta at their least widths and nothing beyond |
| RunList.DecodeOfEncode | src/ntfs_runlist.c:17-217 | decoding an encoded pair gives the same length and delta, and no hole, exactly for lengths below 2^63; a longer one is refused |
| RunList.RoundTrip | src/ntfs_runlist.c:64-217 | encoding any list of extents plus a terminator and decoding it gives the intended runs and stops on the terminator; a length of 2^63 or more makes the stream refused |
| RunList.IntendedAt | src/ntfs_runlist.c:123-131 | block numbers are the sums of the lengths before, cluster numbers the sums of the deltas, in 64 bits |
| RunList.RealRunsSurvive | src/ntfs_runlist.c:64-217 | run by run through a whole attribute: a real run is later taken for a hole if and only if its absolute cluster number is -1 |
| RunList.RealRunTakenForHole | src/ntfs_runlist.c:64-136 | and one such list: a single extent with delta -1 |
| RunList.LongExtentRefused | src/ntfs_runlist.c:17-217 | and one that is written and then refused: a single extent of 2^63 clusters |
| RunFormat.AttributeRuns | src/ntfs_runlist.c:64-128 | mapping pairs of any writer, holes among them and numbers in as many bytes as it chose: an attribute record decodes to one run for each pair, block numbers being the sums of the lengths before it and cluster numbers of the distances up to it, modulo 2^64; a hole has none and moves nothing. What stands behind the pairs decides the status: terminator or end of the record, no room for one more, or a pair that is malformed or sticks out. A record that is resident, too short or points outside itself gives none |
| RunFormat.PairBack | src/ntfs_runlist.c:17-62 | one pair, in whatever widths of up to eight bytes, is decoded as it was written |
| RunFormat.PairsMeasured | src/ntfs_runlist.c:142-167 | the measurement of such a list ends on its terminator, and gives nothing when there is none or a pair is malformed or sticks out |
| RunFormat.EncodedIsShortest | src/ntfs_runlist.c:177-218 | what the encoder writes is a pair for its extent, and the shortest of all whose length does not look negative |
| Bits.MarkedBit | src/ntfs_bitmap.c:199-201 | setting or clearing a range of bits turns exactly those bits |
| Bits.CountMarked | src/ntfs_bitmap.c:194-206 | and moves the count of clear bits by the length of the range |
| BitScan.SkipFull | src/ntfs_bitmap.c:46-60 | stepping over all-ones words and bytes passes used bits only |
| BitScan.ScanBitmapRange | src/ntfs_bitmap.c:25-95 | for every bitmap, range and request: the leftmost free run of the wanted length, or else the earliest of the longest free runs, or nothing |
| BitScan.FirstFreeBit | src/ntfs_bitmap.c:431-462 | finds the least clear bit at or above 16 and below the limit, if there is one |
| ClusterAllocator.FoundIsFree | src/ntfs_bitmap.c:169-192 | what an allocation may hand out is free and no longer than asked for, and nothing is found exactly when the searched part is full |
| ClusterAllocator.ShortIsLongest | src/ntfs_bitmap.c:174-187 | a short answer is the longest free run on either side of the cursor |
| ClusterAllocator.FirstFit | src/ntfs_bitmap.c:169-214 | if there is a free run as long as asked for from the cursor on, or anywhere when the cursor stands at the end, the first such run is handed out and marked, no other bit changes, and the next search begins behind it |
| ClusterAllocator.WrapsAround | src/ntfs_bitmap.c:178-188 | and if there is none from the cursor on but one before it, the first such run before the cursor |
| ClusterAllocator.Volume.Search | src/ntfs_bitmap.c:169-187 | the two-phase scan from the cursor |
| ClusterAllocator.Volume.AllocateClusters | src/ntfs_bitmap.c:112-217 | marks the run in the mirror and on disk, moves cursor and free count, and changes nothing when refused; the mirror equals the disk afterwards |
| ClusterAllocator.Volume.FreeClusters | src/ntfs_bitmap.c:655-743 | clears the run in both, adds to the free count, and pulls the cursor back to the run when it begins before the cursor and is at least 256 KiB long |
| ClusterAllocator.FreedIs | src/ntfs_bitmap.c:655-716 | a free clears exactly its bits, gives its clusters back to the count, and takes the cursor along if and only if it begins before the cursor and covers at least 256 KiB |
| ClusterAllocator.AllocatedKeepsBooks | src/ntfs_bitmap.c:112-217 | an allocation keeps the books: live extents disjoint, set bits equal to initial use plus live extents, free count equal to the clear bits |
| ClusterAllocator.FreedKeepsBooks | src/ntfs_bitmap.c:655-743 | so does giving back an extent that is held |
| ClusterAllocator.RunKeepsBooks | src/ntfs_bitmap.c:112-743 | so does every interleaving of the two |
| ClusterAllocator.Volume.Mount | src/ntfs_volume.c:347-388 | mounting counts the bits in use by halves of bytes and keeps the bitmap as the mirror; without memory for it nothing counts as used |
| ClusterAllocator.CountUsed | src/ntfs_volume.c:366-371 | the table of sixteen counts, summed over all half bytes, is the number of bits in use |
| ClusterAllocator.MountKeepsBooks | src/ntfs_volume.c:347-388 | a volume keeps its books from the moment it is mounted if and only if its bitmap could be loaded or has nothing in use |
| ClusterAllocator.RefusedIffFull | src/ntfs_bitmap.c:169-192 | a request for something is refused if and only if no clear bit is left; a request for nothing, if and only if none is left from the cursor on |
| ClusterAllocator.RefusedIffNoneFree | src/ntfs_bitmap.c:169-192 | while the books are kept, a request for something is refused if and only if the free count is zero |
| ClusterAllocator.EmptyRequestRefusedWithRoom | src/ntfs_bitmap.c:180-192 | a volume with room that refuses a request for nothing |
| MftAllocator.MftVolume.WriteMftRec0 | src/ntfs_bitmap.c:318-339 | every write of record 0 leaves the volume's own copy of it, and the table size it works with, equal to what was written |
| MftAllocator.WrittenRecord0 | src/ntfs_bitmap.c:318-337 | every write of record 0 gives it and the copy the next sequence number, 1 after 65534, and the table its data size |
| MftAllocator.MftVolume.GrowMft | src/ntfs_bitmap.c:222-308 | the table grows inside the volume's copy, which is then written back |
| MftAllocator.MftVolume.GrowMftBitmap | src/ntfs_bitmap.c:353-419 | the bitmap grows inside record 0, inside its clusters, or into new ones |
| MftAllocator.MftVolume.TakeFirstFree | src/ntfs_bitmap.c:515-566 | one pass finds the least clear bit and marks it where the bitmap lives |
| MftAllocator.MftVolume.AllocateMftRecord | src/ntfs_bitmap.c:474-604 | two passes with one growth between them give the specified index, status and state |
| MftAllocator.MftVolume.FreeMftRecord | src/ntfs_bitmap.c:606-653 | clears the record's bit where the bitmap lives; an index past a resident bitmap is refused, one past the clusters of another is ignored |
| MftAllocator.GrowTableKeepsBits | src/ntfs_bitmap.c:278-300 | growing the table from the volume's copy undoes no bit, because that copy is in step |
| MftAllocator.GrownBitmap | src/ntfs_bitmap.c:353-419 | a grown bitmap is the old one with clear bytes behind it, whatever the new clusters held |
| MftAllocator.RecordsAre | src/ntfs_bitmap.c:517 | the table has as many records as fit into its size whole |
| MftAllocator.TableGrows | src/ntfs_bitmap.c:222-430 | growth by c clusters succeeds if and only if the bitmap can follow, and adds exactly c times the cluster size to the table, of which all is in use; after a success that many records can be handed out |
| MftAllocator.RecordsAdded | src/ntfs_bitmap.c:222-300 | in whole clusters each cluster adds as many records as fit into it |
| MftAllocator.WidensInPlace | src/ntfs_bitmap.c:354-430 | a bitmap in clusters keeps them when it grows, with those that were had behind them where it needs them, and exactly the bytes that are new to it are cleared |
| MftAllocator.NeededIsLeast | src/ntfs_bitmap.c:354-380 | the bitmap grows to the fewest multiples of eight bytes that hold a bit for every record |
| MftAllocator.GrowthKeepsBits | src/ntfs_bitmap.c:570-600 | growth of table and bitmap leaves every record marked as it was, and after a success the bitmap covers the table |
| MftAllocator.AllocateGives | src/ntfs_bitmap.c:474-604 | whatever growth does: the index handed out is at least 16 and below the record count, was free, all user records below it were taken, no other mark changes, and nothing falls out of step |
| MftAllocator.FullTableGrows | src/ntfs_bitmap.c:474-600 | on a table without a free record, with clusters and room for the bitmap, the call succeeds if and only if the bitmap leaves one of the larger table's records from 16 on unmarked, and hands out the least |
| MftAllocator.FirstNewRecord | src/ntfs_bitmap.c:474-600 | so on a full table in whole clusters the first record of the new clusters is handed out |
| MftAllocator.RefusedIffFull | src/ntfs_bitmap.c:474-604 | with a free user record a call succeeds and grows nothing; after a growth it fails if and only if every user record of the larger table is already marked |
| MftAllocator.FreeGives | src/ntfs_bitmap.c:606-653 | giving back clears one mark and no other, whatever the index; it is refused only past a resident bitmap |
| MftAllocator.StepKeepsBooks | src/ntfs_bitmap.c:474-653 | each call keeps the volume in step and the marks equal to those from before plus the live records, apart from one another; a record handed out is the least free one |
| MftAllocator.RunKeepsBooks | src/ntfs_bitmap.c:318-653 | in every run of calls from a state in step, with any growth: record 0 and its copy never differ, every record handed out is the least free one of a user's, neither live nor marked from before, and the marks account for exactly the live records |
| Lznt1.Format | src/ntfs_lznt1.c:48-50 | the token format at an output position: the first whose reach covers it, never past the ninth |
| Lznt1.NextFormat | src/ntfs_lznt1.c:113 | the loop that advances the format ends at exactly that one and stays inside the table |
| Lznt1.DecompressChunk | src/ntfs_lznt1.c:88-160 | decodes a chunk in place byte for byte as specified, errors included, and writes nothing outside it |
| Lznt1.DecodeItem | src/ntfs_lznt1.c:115-149 | one literal or one copy token: half a token and a reach beyond the output are errors, a length is cut at the end of the output |
| Lznt1.CopyRun | src/ntfs_lznt1.c:144-149 | the byte-at-a-time copy |
| Lznt1.CopyRepeats | src/ntfs_lznt1.c:144-149 | every byte of a copy equals the one its displacement before it, overlapping or not |
| Lznt1.TokenWord | src/ntfs_lznt1.c:52-82 | every displacement and length the format can name has a token that reads back as both |
| Lznt1.ReachDoubles | src/ntfs_lznt1.c:34-41 | the reach of a token is 16 in the first format and doubles from format to format, up to a whole chunk in the ninth |
| Lznt1.TokenForEach | src/ntfs_lznt1.c:52-82 | in every format each displacement up to its reach, with each length from 3 to 65536 over that reach plus 2, is named by a 16-bit word |
| Lznt1.TokenSpells | src/ntfs_lznt1.c:52-82 | a token has sixteen bits: in a format that reaches D back every word names a displacement from 1 to D and a length from 3 to 65536 / D + 2, the displacement less one high and the length less three low |
| Lznt1.TokenIsOne | src/ntfs_lznt1.c:52-82 | and by one word only |
| Lznt1.ItemsOfBody | src/ntfs_lznt1.c:111-156 | decoding the items of a group from any point gives the expansion of the tokens that are left |
| Lznt1.DecodeOfSerialize | src/ntfs_lznt1.c:88-160 | decoding any valid token sequence, serialised in groups of eight, gives its LZ77 expansion, cut at the room there is |
| Lznt1.AcceptedIsExpansion | src/ntfs_lznt1.c:88-160 | conversely, every chunk the decoder accepts, well made or not, decodes to the expansion of some valid token sequence, cut at the room there is |
| Lznt1.AcceptedItems | src/ntfs_lznt1.c:111-156 | the same of the rest of a chunk from any point |
| Lznt1.DecompressBuffer | src/ntfs_lznt1.c:167-254 | decodes a row of chunks in place with the size and status as specified; the k-th chunk is written at 4096 k |
| Lznt1.HeaderMeans | src/ntfs_lznt1.c:190-200 | a chunk's header holds its size less 3 in twelve bits, three bits that are not looked at, and the packed flag on top |
| Lznt1.DecodeOne | src/ntfs_lznt1.c:190-230 | one chunk of either kind behind its header |
| Lznt1.ChunksBeginAligned | src/ntfs_lznt1.c:189-250 | for every input, however short its chunks turn out, chunk k begins at output offset 4096 k |
| Lznt1.ChunksOfWritten | src/ntfs_lznt1.c:189-250 | a row of written blocks decodes block by block, each in its own 4096 bytes |
| Lznt1.DecodeOfWritten | src/ntfs_lznt1.c:167-254 | a buffer of valid packed and raw blocks, with or without an end marker behind it, decodes to their contents, short blocks filled up with zeros |
| NtfsTime.ConvertTime | src/ntfs_time.c:10-63 | the loops compute the calendar split of a tick count; a stamp before 1970 becomes the all-zero record |
| NtfsTime.YearLoop | src/ntfs_time.c:36-44 | subtracting whole years from 1970 on |
| NtfsTime.MonthLoop | src/ntfs_time.c:45-54 | subtracting whole months, February from the leap rule, without leaving the table |
| NtfsTime.SplitIsDate | src/ntfs_time.c:10-63 | every 64-bit tick count from 1970 on splits into a real date that stands for exactly that many ticks |
| NtfsTime.ClosedFormIsDayNumber | src/ntfs_time.c:82-87 | the closed form equals the plain count of days on every date from 1970 on |
| NtfsTime.EpochIsCounted | src/ntfs_time.c:7-8 | the offset between the two epochs is the days of the years from 1601 to 1969, in ticks of 100 nanoseconds |
| NtfsTime.JoinIsCalendar | src/ntfs_time.c:71-95 | joining a date gives its ticks modulo 2^64 |
| NtfsTime.CalendarTicksInjective | src/ntfs_time.c:71-95 | no two dates stand for the same ticks |
| NtfsTime.TicksRoundTrip | src/ntfs_time.c:10-95 | ticks to date to ticks is the identity if and only if the stamp is not before 1970 |
| NtfsTime.DateRoundTrip | src/ntfs_time.c:10-95 | every date from 1970 on comes back from its ticks, nanoseconds down to whole hundreds, if and only if the ticks fit 64 bits |
| NtfsTime.FirmwareDatesRoundTrip | src/ntfs_time.c:10-95 | which covers every date from 1970 to 9999 |
| NtfsTime.RecordRoundTrip | src/ntfs_time.c:10-95 | any record at all comes back whole if and only if it is a date from 1970 on, its ticks fit 64 bits, its nanoseconds are whole hundreds, its zone is unspecified and its daylight flag clear |
| ContentSearch.ViewerFindBytes | ec/Viewer.c:218-247 | the first match at or after a position, letters compared without case, or none |
| ContentSearch.CarryTail | ec/Search.c:87-92 | moving the carried bytes to the front keeps them a window of the file, overlap or not |
| ContentSearch.Refill | ec/Search.c:70-81 | topping up behind them keeps the buffer a window of the file that ends at the file position |
| ContentSearch.NoMatchYet | ec/Search.c:55-97 | a window that starts a needle's length less one before the unread part misses no match across the join |
| ContentSearch.MatchMeans | ec/Viewer.c:218-247 | bytes match exactly if each is the needle's byte or the other case of the same ASCII letter, by a list of the letters |
| ContentSearch.SearchFileContains | ec/Search.c:55-97 | finds the needle if and only if the whole content holds it, whatever sizes the reads deliver |
| ContentSearch.SearchAgreesWithViewer | ec/Search.c:55-97 | the same answer as the viewer's matcher on the whole content |
| SyncWalk.WalkState.Count | ec/Sync.c:25-39 | each entry is counted once, and the walk stops at the first report that says so |
| SyncWalk.FindItem | ec/Sync.c:41-51 | the first entry of exactly that name |
| SyncWalk.CompareInternal | ec/Sync.c:77-153 | the loop over the left side and the count of what only the right side has, summed in place, with the status as specified by path |
| SyncWalk.CompareEntry | ec/Sync.c:93-140 | one entry: its paths are joined, and it falls under exactly one count, or is gone into by them |
| SyncWalk.CountMissing | ec/Sync.c:142-148 | the usable entries only the right side has |
| SyncWalk.Compare | ec/Sync.c:155-174 | the whole comparison |
| SyncWalk.UpdateInternal | ec/Sync.c:193-271 | the loop over the source, with the destination as each step leaves it |
| SyncWalk.DeleteEntry | ec/FileSystem.c:1370-1426 | a deletion takes away the entry with all below it, or, where a path does not fit, what lies in a directory up to the name that does not |
| SyncWalk.UpdateEntry | ec/Sync.c:209-266 | one entry: its paths are joined, and it is copied, replaced, gone into or left as equal, or the walk goes astray as specified |
| SyncWalk.Update | ec/Sync.c:273-300 | the whole update |
| SyncPaths.CombinePath | ec/FileSystem.c:1189-1244 | base, backslash and name, each appended only if it fits 511 characters |
| SyncPaths.JoinLeads | ec/FileSystem.c:1189-1244 | a joined path leads to the entry if base, backslash and name fit, and to the base itself otherwise |
| SyncPaths.LeftNone | ec/FileSystem.c:1370-1426 | a deletion ends with everything gone if and only if all paths below fit |
| SyncPaths.LeftAgain | ec/FileSystem.c:1370-1426 | otherwise it comes to a name that does not fit, starts over on the directory it is in, and leaves the same again: it never ends |
| SyncPaths.UpdateByPath | ec/Sync.c:193-271 | from any entry of any directory on, the walk by path is the walk by tree if and only if every path it visits fits, in source and destination, copied and deleted trees included; otherwise it goes astray |
| SyncPaths.UpdateIsByTree | ec/Sync.c:273-300 | the same of the whole update |
| SyncPaths.CompareIsByTree | ec/Sync.c:155-174 | and of the comparison, which uses the paths of what both sides have |
| SyncPaths.RoomIsEnough | ec/Sync.c:77-300 | a condition to be checked beforehand: every path of the source fits under both roots and every path of the destination under its own |
| SyncPaths.SuccessVisitsAll | ec/Sync.c:193-271 | a successful update has found every path of the source to fit under both roots |
| SyncPaths.KeptUnlessAstray | ec/Sync.c:273-300 | an update by path that does not go astray, successful or not, leaves every entry only the destination has as it was |
| SyncPaths.StrayDeletes | ec/Sync.c:258-264 | one that goes astray may not: where a file on both sides has different sizes and a name that does not fit under the destination, an entry that only the destination has is deleted |
| SyncPaths.LongNameDeletes | ec/Sync.c:258-264 | for one, a destination with a path of 300 characters and a name of 250 |
| SyncPaths.UpdateThenAgreeByPath | ec/Sync.c:77-300 | after an error-free update by path, a comparison and a second update under the same roots do not go astray; the one finds nothing left-only and nothing different, the other copies and replaces nothing, and either ends without an error if and only if the source nests at most 64 directories deep |
| SyncPaths.CopiedTooDeep | ec/Sync.c:77-271 | n nested directories copied into an empty one: the copy goes well if and only if their paths fit under both roots, and then comparing and updating again succeed exactly for n up to 64 |
| SyncTrees.VisitedAreCounted | ec/Sync.c:77-153 | however a comparison ends, its left-only, different, equal and common-directory counts sum to the entries visited, but for the one the user stopped at |
| SyncTrees.UpdateKeeps | ec/Sync.c:193-271 | an update whose paths fit (SyncPaths.UpdateByPath), successful or not, leaves every entry only the destination has as it was, at every depth outside replaced entries |
| SyncTrees.DestinationKept | ec/Sync.c:273-300 | the same of the whole update |
| SyncTrees.UpdateSyncs | ec/Sync.c:193-271 | after an error-free update, whose paths fit, every entry of the source is at the destination, of the same kind, equal by size and SHA-256 |
| SyncTrees.UpdatedByContent | ec/Sync.c:193-271 | said of contents: at the path of every file of the source there is then a file of the same size with the same SHA-256, and at that of every directory a directory |
| SyncTrees.UpdateThenAgree | ec/Sync.c:77-271 | after an error-free update, whose paths fit, a comparison finds nothing left-only and nothing different, and a second update copies and replaces nothing; either one ends without an error if and only if the source nests at most 64 directories deep |
| SyncCounts.ComparedByContent | ec/Sync.c:77-153 | an error-free comparison counts two files as equal if and only if their sizes and SHA-256 agree and as different otherwise; every other entry of either side is counted once, where it belongs, and the files and directories looked at are those of the left side |
| SyncCounts.UpdateDoesWhatCompareSays | ec/Sync.c:77-271 | an error-free update does what a comparison beforehand says: it skips as many files as compare as equal, replaces as many entries as compare as different, copies these and all that only the source has, and looks at the same entries |
| SyncCounts.ChangedIsReplaced | ec/Sync.c:132-138 | two files of one size with different digests: the comparison counts them as different, and the update replaces the one at the destination |
| SyncTrees.UpdateSucceedsIff | ec/Sync.c:193-271 | left to itself an update whose paths fit fails if and only if directories that both sides have nest deeper than the cap |
| SyncTrees.CopyInSync | ec/Sync.c:176-191 | a copied tree, whose paths fit, is in sync with its source |
| PanelSort.BeforeIsTotal | ec/Panel.c:98-135 | of any two items one may stand before the other, in every mode and direction |
| PanelSort.BeforeIsTransitive | ec/Panel.c:98-135 | and the order is transitive, so it is a total preorder |
| PanelSort.ModeChain | ec/Panel.c:110-130 | each sort mode with its tie-break on the name is transitive and changes sign with its arguments |
| PanelSort.TextChain | ec/Panel.c:81-96 | so is the text comparison |
| PanelSort.TextMeans | ec/Panel.c:81-96 | what the comparison of texts means: the first place where they differ other than by the case of a letter decides, by the folded characters, and a text that begins another comes first |
| PanelSort.FoldedLetter | ec/Panel.c:75-79 | folding takes each small ASCII letter to its capital, by a list of the letters, and leaves every other character |
| PanelSort.ExtensionMeans | ec/Panel.c:65-73 | the extension is what stands behind the last dot and holds none itself, or nothing without a dot |
| PanelSort.TimeChain | ec/Panel.c:54-63 | and the comparison of time stamps |
| PanelSort.CompareTextInsensitive | ec/Panel.c:81-96 | the character loop compares ASCII-folded, a prefix first |
| PanelSort.FileExtension | ec/Panel.c:65-73 | what follows the last dot |
| PanelSort.CompareTime | ec/Panel.c:54-63 | field by field from the year down |
| PanelSort.Panel.CompareItems | ec/Panel.c:98-135 | parent entry, then directories, then files; mode, tie-break and direction only within a kind |
| PanelSort.Panel.Sink | ec/Panel.c:143-153 | one insertion of the sort keeps all other items of its stride in order and loses none |
| PanelSort.Panel.Pass | ec/Panel.c:143-154 | a pass leaves elements one gap apart in order, as a permutation |
| PanelSort.Panel.SortItems | ec/Panel.c:137-156 | the panel ends as a permutation of its items with every pair in order, and nothing behind its count is touched |
| PanelSort.ParentThenDirectories | ec/Panel.c:98-135 | in a sorted panel only a parent entry stands before a parent entry, and no file before a directory |
| PanelSort.SortedByField | ec/Panel.c:98-134 | of two files the one that comes first has the lesser name, extension, modification time or size, as the mode says, or the same and no greater name; descending, the other way round |
| Sha256.RorRotates | ec/Checksum.c:26-29 | two shifts are the standard's rotation, for each count in use |
| Sha256Vector.DigestOfAbc | ec/Checksum.c:11-109 | the digest of "abc" is the one that the standard's authors give, worked through word by word and round by round |
| Sha256Roots.ConstantsAreCubeRoots | ec/Checksum.c:15-24 | the sixty-four constants are the first 32 bits behind the point of the cube roots of the first sixty-four primes |
| Sha256Roots.InitialAreSquareRoots | ec/Checksum.c:64-68 | and the initial words those of the square roots of the first eight |
| Sha256.Transform | ec/Checksum.c:31-60 | the code's schedule and rounds are those of section 6.2.2 of FIPS 180-4 |
| Sha256.Schedule | ec/Checksum.c:36-44 | the 64 words of the message schedule |
| Sha256.ScheduleWord | ec/Checksum.c:40-44 | one word of it, summed in another order than the standard's |
| Sha256.CodeRound | ec/Checksum.c:48-57 | one round |
| Sha256.PaddingIsLeast | ec/Checksum.c:89-102 | for every message length the padding of section 5.1.1 fills the last block, with no zero too many |
| Sha256.PaddingSpells | ec/Checksum.c:89-101 | the padding is a single 1 bit, zeros, and eight bytes that spell the length in bits modulo 2^64, the most significant first |
| Sha256.AbsorbJoin | ec/Checksum.c:72-87 | taking in whole blocks may be split anywhere |
| Sha256.BlockFull | ec/Checksum.c:82-85 | a full block taken into the hash value stands for the message so far |
| Sha256.OneMoreBlock | ec/Checksum.c:93-102 | with up to 55 bytes pending one more block ends the hash |
| Sha256.TwoMoreBlocks | ec/Checksum.c:93-102 | with 56 or more pending it takes two |
| Sha256.Context.Update | ec/Checksum.c:72-87 | whatever the pieces, the context stands for their concatenation |
| Sha256.Context.Finish | ec/Checksum.c:89-109 | the digest is that of everything taken in |
| Sha256.ChecksumFile | ec/Checksum.c:122-155 | the digest of a file is the one-shot digest of its content, however the reads split it, and the size is its length |
| IniFile.AsciiEqNoCase | ec/Config.c:157-167 | equal but for the case of ASCII letters |
| IniFile.ParseBoolean | ec/Config.c:169-188 | the spellings of yes and no; anything else keeps the old value |
| IniFile.AsciiToUnicode | ec/Config.c:190-204 | a value goes into its field up to a NUL and as far as there is room |
| IniFile.FindSetting | ec/Config.c:224-252 | which setting a key names |
| IniFile.Config.ApplyKeyValue | ec/Config.c:206-253 | key and value are trimmed and the one named field assigned |
| IniFile.Config.AssignHotDir | ec/Config.c:246-251 | a hot directory that is not empty raises the count to cover it |
| IniFile.Config.ReadLine | ec/Config.c:267-276 | comments, sections and lines without an equals sign change nothing |
| IniFile.Config.ParseIni | ec/Config.c:255-278 | the loop reads line after line to the end of the data |
| IniFile.AppendAscii | ec/Config.c:361-378 | a text and its terminator are appended, or refused if and only if they do not fit |
| IniFile.AppendUnicode | ec/Config.c:380-400 | the same for a string of the settings, other characters than ASCII as question marks |
| IniFile.AppendValue | ec/Config.c:402-413 | a whole line of key and value |
| IniFile.BuildText | ec/Config.c:434-466 | the buffer holds exactly the text to be saved; it is refused if and only if that text does not fit |
| IniText.SavedFits | ec/Config.c:359-466 | for all settings that fit their fields the text fits the buffer |
| IniFormat.SavedTextIs | ec/Config.c:420-470 | the saved file, word for word: notes, keys, order, blank lines and line ends, for all settings |
| IniText.ParsePair | ec/Config.c:206-276 | a saved line reads back as its key and its value, trimming and line end notwithstanding |
| IniText.WhichKey | ec/Config.c:224-252 | every key that is saved is read as the setting it was saved for |
| IniText.IsMeans | ec/Config.c:157-167 | two spellings name the same key if and only if they agree but for the case of ASCII letters, by a list of the letters |
| IniFormat.ConfirmDeleteMeans | ec/Config.c:224-225 | a line with this key, in any case, sets this switch and nothing else: on for 1, y, yes, true and on, off for 0, n, no, false and off, in any case, and unchanged otherwise |
| IniFormat.ConfirmOverwriteMeans | ec/Config.c:226-227 | likewise |
| IniFormat.ShowSuccessMessagesMeans | ec/Config.c:228-229 | likewise |
| IniFormat.ShowOperationSummaryMeans | ec/Config.c:230-231 | likewise |
| IniFormat.VerifyAfterCopyMeans | ec/Config.c:232-233 | likewise |
| IniFormat.FieldMeans | ec/Config.c:190-204 | a field takes the longest beginning of a value that holds no NUL and leaves room for one |
| IniFormat.PathsMean | ec/Config.c:234-245 | a line that names a start directory or the driver, under either of its names, sets it to the first 511 characters of the value, and a filter to the first 127 |
| IniFormat.HotDirsMean | ec/Config.c:246-252 | HotDir1 to HotDir9 set the directory of that number to the first 511 characters and, unless the value is empty, raise the count to cover it |
| IniFormat.BlanksDoNotCount | ec/Config.c:206-277 | blanks and tabs before a line, around its equals sign and behind its value do not count |
| IniFormat.OthersSetNothing | ec/Config.c:255-277 | a comment, a section, and a line without an equals sign set nothing |
| IniFormat.LinesAreRead | ec/Config.c:255-277 | a text is read line by line, the last one with or without an end |
| IniText.ParseText | ec/Config.c:255-278 | a text of such lines reads as the lines one by one |
| IniText.SavedReadsBack | ec/Config.c:206-466 | for every settings record of printable ASCII strings without blanks at the ends, parsing the saved text from the defaults restores every field, with the hot directories counted anew |
| IniText.RestoredIffCounted | ec/Config.c:246-278 | the whole record comes back if and only if the saved count was that of the last hot directory in use |
| IniText.CountNotRestored | ec/Config.c:246-278 | and it need not: a count of one over empty directories is read back as zero |

## Left out

- Index insertion, splitting, rebalancing and collapse, file writing and resizing, symbolic links and WOF compression.
  `ntfs_create.c`, `ntfs_delete.c`, `ntfs_setinfo.c` and `ntfs_wof.c` are not part of this model; of `ntfs_file.c` only the
  lookup of one path component is, and of `ntfs_volume.c` the counting of free clusters. Appending a run and growing
  a resident attribute enter as parameters of a growth.
- Failures of DiskIo, BlockIo and the file protocol, pool exhaustion, and disk writes that fail part way: the code
  mostly ignores their results. Runs of calls assume that I/O succeeds.
- Volumes whose cluster is larger than an index block, directories that hold two names equal up to case, and
  records whose update sequence array overlaps a sector end: the laws require their absence.
- Gathering the runs of a compression unit, which assumes that each real run lies inside one unit; the decoder
  it feeds is modelled.
- A promise that a free run crossing the allocation cursor is found whole: the scan splits there.
- CRC-32, checksum text, filters, resolving of the driver path, going up a directory by path, and all screens.
- The cryptographic strength of SHA-256: equality of files means equality of size and digest, as in the code.
- IndexWalk.CollectBlock: the memory behind a block is taken to be the same each time that block is loaded.
- IndexWalk.CollectDirectory: the values of the directory's attributes are given; reading its record and finding them
  in it are not modelled.
- IndexWalk.FindInDirectory: the numbers of entries are unbounded, where the code counts in 32 bits; the values of
  the directory's attributes are given.
- IndexBounds.LoopReadsInside: which bytes a loop reads is stated for one node at a time and for an array with room;
  a full array ends the loop earlier.
- IndexWalk.SearchBelow: a bitmap that is too short reads as zeros behind its end, as the code's four bytes of padding
  do; a bitmap shorter than that by more is not modelled as it is read.
- RecordCache.RecordVolume.ReadFileRecord: what a read that fails leaves in the caller's buffer is not stated. No record
  of the table carries the index type on a volume whose index blocks are larger than its records; FixupBounds says
  what happens then.
- RecordCache.RecordVolume.SyncMftMirror: finding record 1's data attribute and decoding its runs is a parameter of the
  volume; a place that does not lie on the disk altogether is not written to, where the code would write the part of
  it that does.
- RecordCache.WriteKeepsCoherence: the table's runs are distinct and no holes, and the mirror shares no byte with
  them, as on any volume; the table's own runs do not change during a run of calls.
- AttributeData.AttrContext.ReadAttr: byte offsets do not wrap at 64 bits, the disk is the value it has during the
  call, and the resident and the compressed branch are not modelled.
- AttributeData.WriteAttr: sector alignment and read-modify-write of partial sectors by the disk layer, the refusal of
  a resident attribute and wrap-around at 64 bits are not modelled.
- RunList.EncodeRunEntry: the ninth length byte, of a length of 2^63 or more, comes from a shift by 64 bits, which C
  leaves undefined; here it is the byte the number has there.
- ClusterAllocator.Volume.AllocateClusters: failures to find the bitmap's record or to get memory for it are not
  modelled.
- ClusterAllocator.Volume.FreeClusters: the same.
- ClusterAllocator.Volume.Mount: a volume whose bitmap record cannot be read at all is not modelled.
- MftAllocator.MftVolume.WriteMftRec0: the write of record 0 succeeds and its data attribute is found.
- MftAllocator.MftVolume.GrowMft: which clusters are had, zeroing them, and the pair appended to record 0 are outside
  steps; of record 0 only its sequence number, bitmap and table sizes are kept.
- MftAllocator.MftVolume.GrowMftBitmap: getting clusters and growing the resident attribute are outside steps.
- MftAllocator.MftVolume.AllocateMftRecord: device and memory errors are not modelled.
- MftAllocator.MftVolume.FreeMftRecord: the same.
- ContentSearch.SearchFileContains: a file that cannot be opened or read, and the flag that reports it, are not modelled.
- SyncWalk.CompareInternal: listing a directory succeeds.
- SyncWalk.CompareEntry: taking a checksum succeeds.
- SyncWalk.UpdateInternal: an entry is looked up in the destination as it stands, where the code looks in a listing taken
  at the start; names being unique in the source, the two agree. New entries appear at the end of a directory.
- SyncWalk.UpdateEntry: copying, deleting and taking a checksum succeed. What an operation does that is given a path
  which leads elsewhere is modelled for deletions only; a copy or a checksum that goes astray ends the model as it
  begins.
- SyncWalk.DeleteEntry: a deletion that comes back to the same name for ever is taken to have done what it does
  before that; the user's breaking it off is not modelled.
- SyncPaths.UpdateByPath: the walk is followed with the lengths of its paths, which by SyncPaths.JoinLeads decide where
  they lead; source and destination are different trees, and a character of a name stands for one 16-bit unit.
- SyncTrees.UpdateThenAgree: names differing only in case are different names, as the code compares them, although a
  volume may hold them to be the same; `.` and `..` are skipped. The report of progress is represented by the count at
  which it first says stop.
- SyncWalk.Update: flushing the volume, and errors of copying and deleting, are not modelled.
- PanelSort.Panel.SortItems: time stamps without nanoseconds and zones, which the comparison ignores.
- Sha256.ChecksumFile: read errors and the CRC are not modelled.
- IniText.SavedReadsBack: a lone surrogate is not a character of the model's strings; the fields the parser does not
  touch (application directory, resolved driver path) are not kept.
