# FrAT filesystem: a verified model

FrAT is the small filesystem of `tools/filesystem`. It keeps files on a partition of a disk image in
three layers, and the project models all three and proves that each refines the one above it.

* **Raw blocks** (`Raw`). `raw.c` turns logical block addresses into byte ranges of the image. The image
  is a byte sequence; reads and writes move whole units of 512-byte sectors. `Layout` holds the region
  macros of `frat.h` with the 32-bit arithmetic they are computed in.
* **Cluster map** (`ClusterMap`, `Runs`, `Lifecycle`, `Codec`, `Mount`). A slot is a file code, an index and
  attributes; slot `k` owns data block `k`. A file is the family of slots with one code: index 0 is the
  metadata head, indices 1 .. m are the data. `Runs` is the state machine of create, extend, remove and
  write, `Lifecycle` says slot by slot what removal leaves and creation makes; `Codec` and `Mount` put the map
  on disk and read it back.
* **Byte streams** (`FileStore`, `Write`, `Limits`, `Files`, `Stream`, `Chunks`, `Split`, `Session`, `SelfTest`).
  The chunked read-modify-write loops of `_fwrite` and `_fread` over the block store, against a growable
  byte sequence with a cursor.

`FileStore` to `Session` state the operations as functions on values and prove theorems about them.
`Volume`, `Handles`, `Execution` and `Persist` hold the same operations as they run in the source: classes
whose methods scan the slot array, update slots, hint and cursor in place and write the image through the
raw layer. Each method is proved equal to its function, whole runs and whole sessions included, so the
theorems hold of the running code. `Image` connects the blocks of the store with the bytes of the image.
`Failures` holds concrete states at which the code does not do what it reports.

Beside the filesystem: `Wildcard`, `Escapes` and `Replace` model the matcher and the string replacement of
`tools.c`; `LineEditor` and `Numbers` model the debugger's line editor and its number printer and parser
in `src/minidbg-master/dbg.c`.

## Main results

1. `Session.SessionRefines`: any session of seeks, relative seeks, reads and writes whose calls are
   allowed on the tape (a byte sequence, a position and a number of blocks that can still be added)
   returns call by call what the tape returns. `Session.SessionSpares`: every session whatsoever leaves
   the slots and bytes of all other files alone. `Execution.RunSession` is the session on the disk.
2. `Stream.WriteReports`: a write reports every byte as written, but lays them over the stream if and only
   if it starts no later than the block after the file and enough free slots lie at or above the hint.
3. `Runs.EveryRun`: after every run from an empty map each family has one head at most and data blocks
   1 .. m once each, and the metadata flag marks exactly the heads. `Runs.CreateReaches`: creating a path
   creates every directory it lacks on the way, if and only if as many slots are free at or above the hint.
   `Lifecycle.FlagsRecycled`: a head in a recycled slot carries every flag the slot had. `Lifecycle.Extended`:
   the exact number of zero blocks that n extend steps add.
4. `Split.SplitExactly`: two writes in a row amount to one, whatever their bytes, if and only if they meet at
   a block boundary, or the first is stored as it should be, or no slot is free any more when it comes to the
   block they share. `Stream.ReadSplit`: two reads amount to one if and only if they end within the file
   together or each of them alone passes its end.
5. `Persist.FormatAndRun`, `Persist.RunAndRemount`: format, mount, run, flush and mount on the disk; what
   mounts is the map the run ended with, and every file reads as it did then. `Mount.FlushThenMount` and
   `Mount.FormatExactly` give the exact conditions on the place of the map, `Mount.FormatWrites` and
   `Mount.FlushWrites` every block that is written, `Mount.FreshSlots` the exact size a partition needs for a
   number of slots.
6. `Escapes.EscapesExactly`: `__pattmatch` has the documented meaning, escapes included, on all names if
   and only if `Honoured` holds of the pattern; it rests on `Escapes.FormsExactly`, by which two wildcard
   patterns stand for the same names only if they are the same up to the order of wildcards.
   `Wildcard.MatchExactly` is the same question for `match_rec`.
7. `SelfTest.VerdictTrueExactly`: the verdict of the filesystem's own self-test is right, a pass meaning that
   the block is stored and a failure that it is not, unless the file is empty and either read-only or without
   a free slot at or above the hint; the test then passes with nothing stored.

## Where the code differs from what it promises

* A write that runs out of slots, or starts too far past the end, is counted as written in full. Exact
  condition: `Stream.WriteReports`; states: `Failures.WriteLost`, `Failures.WriteAstray`.
* Block indices are looked up in 32 bits, so block 2^32 is taken for the head and the protected metadata
  block is overwritten. Exact condition, for whole writes: `Stream.MetadataKeptExactly`; state:
  `Failures.HeadClobbered`.
* A write that finds no slot resets the hint, so a second write can find one that the rest of a longer write
  does not get. Exact condition: `Split.SplitExactly`; state: `Failures.WritesApart`.
* A forced re-creation removes the old head before it looks for a slot, so it can lose the file. Exact
  condition: `Runs.ReplaceExactly`; state: `Failures.ReplaceLoses`.
* The map's block number is a 32-bit product and can wrap onto the root. Exact condition:
  `Layout.MapApartExactly`, `Mount.FormatExactly`; sizes: `Layout.MapOnRoot`.
* The sector count of log and spare sectors wraps at 32 bits too, and the log can then lie over the data.
  Exact condition: `Layout.DataApart`; sizes: `Layout.LogOverData`.
* `confClusterSize` is computed as a number of sectors and used as a number of bytes, so the map never has
  the slot for each sector that its formula provides for. Exact condition: `Mount.MapFallsShort`.
* The escape of a pattern is dropped before matching. Exact condition: `Escapes.EscapesExactly`; patterns:
  `Escapes.EscapeLost`, `Escapes.EscapeKept`.
* `__ftest` passes on an empty file that is read-only, or for which no slot at or above the hint is free,
  although nothing was stored. Exact condition: `SelfTest.VerdictTrueExactly`; states: `Failures.TestDeceived`,
  `Failures.TestDeceivedReadOnly`.
* A read that passes the end of the file returns nothing at all, so reading on in pieces and reading at once
  differ. Exact condition: `Stream.ReadSplit`; state: `Failures.ReadsApart`.
* A write past 2^64 leaves the cursor in the metadata block, and a read from there returns metadata as data.
  Exact conditions: `Session.CursorWraps`, `Stream.ReadFromMetadata`; states: `Failures.CursorInMetadata`,
  `Failures.MetadataRead`.
* Creation ORs its flags into whatever the freed slot still holds, so a new file can be read-only or a directory
  without having been asked for. Exact condition: `Lifecycle.Created`, `Lifecycle.CreatedWritable`; state:
  `Failures.ReadOnlyInherited`.
* A `***` directly followed by `*` looks for a literal `*`. Exact condition: `Wildcard.MatchExactly`; pattern:
  `Wildcard.CrowdedLost`.

## Model

| member | source | states |
|---|---|---|
| Raw.UnitSizesAgree | tools/filesystem/raw.c:16-43 | startup and setblocksize give the same unit size if and only if the block size is nonzero and its rounding up does not overflow 32 bits; it is then the least number of sectors that holds a block |
| Raw.WrappedUnit | tools/filesystem/raw.c:53-55 | with a block size within a sector of 2^32 the unit wraps to 0 and a request of any size moves 2^32 bytes |
| Raw.SaneExtent | tools/filesystem/raw.c:53-55 | a request of n bytes moves the least number of whole units that hold it |
| Raw.WriteRefinesBlockMap | tools/filesystem/raw.c:71-99 | a write replaces exactly the ceil(n/U) consecutive blocks at its address, the last one zero-padded, and no other block of the map |
| Raw.WriteKeepsPrefix | tools/filesystem/raw.c:78-92 | no byte before the partition changes |
| Raw.ReadRefinesBlockMap | tools/filesystem/raw.c:45-70 | a read returns the consecutive blocks at its address and fails exactly when the last of them is not in the image |
| Raw.ReadAfterWrite | tools/filesystem/raw.c:45-99 | reading where n bytes were written returns them, zero-padded to whole units |
| Raw.WriteBytes | tools/filesystem/raw.c:78-92 | every byte of the image after a write: the data at 512 bytes for each sector before the partition and a unit for each block within it, zeros to the end of the last unit, the rest as it was |
| Raw.ReadBytes | tools/filesystem/raw.c:53-67 | the bytes a read returns, and when it fails, by their place in the image |
| Raw.RawEnv.constructor | tools/filesystem/raw.c:21-43 | the fields after startup |
| Raw.RawEnv.SetBlockSize | tools/filesystem/raw.c:16-19 | the fields after setblocksize, the sum wrapping at 32 bits |
| Raw.RawEnv.Read | tools/filesystem/raw.c:45-70 | the result is the function the block-map lemmas speak of |
| Raw.RawEnv.Write | tools/filesystem/raw.c:71-99 | the new image is the function the block-map lemmas speak of |
| Layout.DataApart | tools/filesystem/frat.h:16-28 | for all sizes, whatever wraps at 32 bits: root and log, root and data, map and data are disjoint, the map both as used and in the larger extent that formatting zeroes; log and data are disjoint if and only if the log ends before the data block |
| Layout.Places | tools/filesystem/frat.h:16-20 | where map and data start: the data begin a row of blocks after the rows that log, spare sectors and map take, whatever wraps, and block follows on block |
| Layout.DataFollowsMap | tools/filesystem/frat.h:16-20 | while log and spare sectors stay below 2^32 bytes, slot k's block is k blocks after the map's rows and one more |
| Layout.LogApart | tools/filesystem/frat.h:16-20 | the log ends before the data whenever the log-sector count is below 2^32 - 2 |
| Layout.LogOverData | tools/filesystem/frat.h:16-20 | sizes for which the log lies over the first data block |
| Layout.MapApartExactly | tools/filesystem/frat.h:16-20 | the map is disjoint from root and log if and only if its 32-bit block number lies past the log |
| Layout.MapPastLog | tools/filesystem/frat.h:16-20 | it does whenever the log and the two spare sectors stay below 2^32 bytes |
| Layout.MapOnRoot | tools/filesystem/frat.h:16-20 | sizes for which the map lies on the root |
| ClusterMap.FreeFromLeast | tools/filesystem/frat.c:260-269 | the allocator passes over no free slot |
| ClusterMap.EmptyInv | tools/filesystem/frat.c:123-127 | the zeroed map satisfies the family invariant |
| ClusterMap.MembersSplit | tools/filesystem/frat.c:330-333 | the count that numbers a new block is the number of data blocks, plus one for a head |
| ClusterMap.PlaceInv | tools/filesystem/frat.c:297-311 | a free slot may take a new head or the next data block without breaking the invariant |
| ClusterMap.ClearHeadInv | tools/filesystem/frat.c:271-279 | removing a head keeps the invariant and the data blocks of every file |
| ClusterMap.WithoutFamilyInv | tools/filesystem/frat.c:283-290 | removing a family keeps the invariant |
| Lifecycle.HeadRemoved | tools/filesystem/frat.c:271-279 | removing a head clears the code of one slot; its attributes and index, every other slot, the hint and all blocks stay |
| Lifecycle.FamilyRemoved | tools/filesystem/frat.c:283-290 | removing a family clears the code of each of its slots; attributes, indices, hint and blocks stay |
| FileStore.NextSlotExtends | tools/filesystem/frat.c:324-337 | the slot __faddr fills is the next data block of its family, was absent before, and keeps the invariant |
| Lifecycle.Added | tools/filesystem/frat.c:324-350 | the slot one call of __faddr takes has the family's code and attributes but the metadata flag, and the next number; its block is zero |
| Lifecycle.Extended | tools/filesystem/frat.c:324-350 | n calls append a zero block each while slots are found ahead of the hint, then lose one call and go on from slot 0 while any is free; nothing else differs |
| FileStore.StepInPlace | tools/filesystem/frat.c:684-697 | a chunk in an existing block patches the stream there, keeps map and hint, and touches nothing else |
| FileStore.StepNewBlock | tools/filesystem/frat.c:684-697 | a chunk in the block after the file takes the first free slot at or above the hint and patches the zero-extended stream, whatever the block held before |
| FileStore.ConfinedOthers | tools/filesystem/frat.c:442-489 | a change within one file's blocks and free slots leaves the slots and bytes of every other file as they were |
| FileStore.PatchPatch | tools/filesystem/frat.c:683-701 | two adjacent patches of a stream are one |
| Write.GrowGrow | tools/filesystem/frat.c:324-336 | a + b allocate-and-fill steps are a steps and then b |
| Write.LoopGrows | tools/filesystem/frat.c:683-701 | the write loop takes exactly the missing blocks, in the order of allocate-and-fill steps, and touches only its own data blocks and free slots |
| Write.LoopPatches | tools/filesystem/frat.c:683-701 | the write loop lays its data over the stream |
| Limits.LoopSound | tools/filesystem/frat.c:683-701 | no write, wherever it starts and whether or not it finds slots, breaks the map, loses the head or leaves its own file and free slots |
| Limits.HeadAliased | tools/filesystem/frat.c:445-447 | pushing a data block overwrites the head block if and only if its index is a multiple of 2^32 |
| Limits.HeadKeptExactly | tools/filesystem/frat.c:683-701 | the write loop keeps the head block, whatever the bytes, if and only if it touches no block whose number is a multiple of 2^32 |
| Limits.WriteReaches | tools/filesystem/frat.c:683-701 | the last block of a write exists afterwards if and only if the write starts no later than the block after the file and enough free slots lie at or above the hint |
| Limits.LoopRunsOut | tools/filesystem/frat.c:449-455 | with too few free slots ahead of the hint the last block of the write is never added |
| Limits.WriteExactly | tools/filesystem/frat.c:683-703 | the data are laid over the stream if and only if the write starts no later than the block after the file and enough free slots lie at or above the hint |
| Files.SeekByClamps | tools/filesystem/frat.c:657-668 | a relative seek is the exact sum clamped to the first data byte and 2^64 - 1, for every 64-bit delta |
| Files.SeekByAnywhere | tools/filesystem/frat.c:657-668 | from any cursor, one in the metadata block included |
| Files.StampFields | tools/filesystem/frat.c:613-634 | the stamped head byte by byte: access time and date always, write time and date on a write, zeros past the record |
| Files.LoadExactly | tools/filesystem/frat.c:414-440 | the block found under any number: numbers count modulo 2^32, 0 is the head, nothing past the last data block |
| Files.StampKeeps | tools/filesystem/frat.c:613-634 | a time stamp changes no byte of any file |
| Files.WriteConfined | tools/filesystem/frat.c:675-704 | every write, wrapping or short of slots, keeps the map sound and stays within its own file and free slots |
| Files.LoopReads | tools/filesystem/frat.c:715-729 | the read loop within the file returns that stretch of the stream |
| Files.LoopReadsAny | tools/filesystem/frat.c:715-729 | the read loop from any position, the metadata block included, returns head and data bytes in order as far as there are any |
| Stream.WriteOverwrites | tools/filesystem/frat.c:675-704 | contents after a write are the old ones, zero-extended to a block boundary and overwritten at the cursor; the head block only gets its time stamp |
| Stream.WriteIsolates | tools/filesystem/frat.c:675-704 | every write leaves every slot and byte of every other file unchanged; only the head block, the file's own data blocks and fresh blocks are written |
| Stream.WriteReports | tools/filesystem/frat.c:675-704 | a write to a writable file reports all its bytes; they are laid over the stream if and only if it starts no later than the block after the file and enough free slots lie at or above the hint |
| Stream.WriteRefused | tools/filesystem/frat.c:676-682 | a write of nothing changes nothing; one to a read-only file still stamps the head, and does nothing else |
| Stream.MetadataKeptExactly | tools/filesystem/frat.c:675-704 | writes of n bytes change the metadata block in its time fields only, whatever the bytes, if and only if they touch no block whose number is a multiple of 2^32 |
| Stream.WriteSize | tools/filesystem/frat.c:636-645 | the size after a write is the larger of the old size and the end of the write rounded up to a block |
| Stream.ReadExactly | tools/filesystem/frat.c:705-733 | a nonempty read succeeds in full if and only if it ends within the file, and otherwise leaves cursor, map and disk unchanged |
| Stream.ReadFromMetadata | tools/filesystem/frat.c:705-706 | with the cursor in the metadata block a read is refused if it ends there, and returns metadata and data otherwise, within the file |
| Stream.StampHistory | tools/filesystem/frat.c:613-634 | after a write and a read the head shows the read's clock as last access and the write's as last change, and the rest as before |
| Stream.WriteThenRead | tools/filesystem/frat.c:770-798 | seek, write, seek, read returns exactly the data |
| Stream.ReadSplit | tools/filesystem/frat.c:705-733 | two reads in a row amount to one longer read if and only if they end within the file together or each of them alone passes its end |
| Chunks.LoopConcat | tools/filesystem/frat.c:683-701 | the write loop may be cut at any block boundary, whether or not it finds slots |
| Chunks.Merge | tools/filesystem/frat.c:684-697 | two chunks in one block are one if the block is there after the first, or no slot is free |
| Split.WriteSplit | tools/filesystem/frat.c:675-704 | if the write of both starts no later than the block after the file and finds enough slots, two writes leave the same map, hint, cursor and blocks as it, but for the time stamp in the head |
| Split.AlignedSplit | tools/filesystem/frat.c:675-704 | so do two writes that meet at a block boundary, whether or not they find slots |
| Split.SplitExactly | tools/filesystem/frat.c:675-704 | two writes of given lengths do so for all bytes if and only if they meet at a block boundary, or the first is stored as it should be, or no slot is free when it comes to the block they share |
| Session.CallRefines | tools/filesystem/frat.c:657-733 | one allowed call does to the handle what it does to the tape |
| Session.PutAllowed | tools/filesystem/frat.c:675-704 | the tape allows a write if and only if the filesystem accepts it or has nothing to do |
| Session.SessionRefines | tools/filesystem/frat.c:657-733 | every session of allowed calls returns what the tape returns, ends where the tape ends and leaves all other files' bytes alone |
| Session.SessionSpares | tools/filesystem/frat.c:657-733 | every session whatsoever keeps the map sound and changes no slot and no byte of any other file |
| Session.CursorKept | tools/filesystem/frat.c:580-586 | over every session within 64 bits, with or without free slots, the map stays sound, the file stays open and the cursor stays past the metadata block |
| Session.CursorWraps | tools/filesystem/frat.c:698-702 | a write leaves the cursor in the metadata block if and only if it ends less than a block beyond 2^64 |
| SelfTest.VerdictExactly | tools/filesystem/frat.c:770-798 | the self-test fails if and only if the file is read-only, not empty, and starts with another block |
| SelfTest.VerdictTrueExactly | tools/filesystem/frat.c:770-798 | a pass means that the file starts with the block and a failure that it does not, if and only if the file was not empty, or was writable with a free slot at or above the hint |
| SelfTest.TestStores | tools/filesystem/frat.c:770-798 | on a writable file with a block or a free slot the test stores its block and passes |
| SelfTest.TestLost | tools/filesystem/frat.c:449-455 | on an empty file with no slot at or above the hint the test's block is lost |
| SelfTest.Test | tools/filesystem/frat.c:770-798 | the running test returns that verdict |
| Runs.CreateKeeps | tools/filesystem/frat.c:292-322 | creation with any number of missing ancestors keeps the invariant and every slot in use but a replaced head; the file's own slot and head block survive the creation of its ancestors |
| Runs.CreateReaches | tools/filesystem/frat.c:292-322 | the file and every prefix of its path that ends before a separator and is lacking, no longer prefix being known or sharing a code, have heads afterwards, those of the prefixes being directories, if and only if as many slots are free at or above the hint |
| Runs.EnterReaches | tools/filesystem/frat.c:491-514 | the same for the prefixes of a path whose file has just been marked |
| Runs.EnterKeeps | tools/filesystem/frat.c:491-514 | entering a file into its parent, created if missing, keeps every slot in use |
| Runs.ParentExactly | tools/filesystem/frat.c:735-744 | the parent is the longest proper nonempty prefix that ends before a separator, and there is none if and only if no separator follows the first character |
| Lifecycle.Created | tools/filesystem/frat.c:296-320 | the new head takes the first slot at or above the hint that is free or holds the replaced head, has exactly the flags asked for and those left in the slot, and its block is the metadata record; every other slot in use stays |
| Lifecycle.CreatedNothing | tools/filesystem/frat.c:296-298 | without such a slot only a head to be replaced is removed, and the hint is reset |
| Lifecycle.CreatedWritable | tools/filesystem/frat.c:299-303 | a new file takes writes if and only if neither its flags nor those left in its slot make it read-only |
| Lifecycle.FlagsRecycled | tools/filesystem/frat.c:299-303 | removal and creation in a row: the new head in the freed slot carries every flag the removed one had |
| Lifecycle.Entered | tools/filesystem/frat.c:312-315 | a directory whose code differs from the file's in both halves is extended by the blocks the entry needs, as far as slots are found; otherwise entering changes nothing |
| Lifecycle.LastOp | tools/filesystem/frat.c:271-350 | each operation of a run takes effect on the state the ones before it left: blocks appended, heads and families gone and all else found as before, bytes overwritten |
| Runs.ReplaceExactly | tools/filesystem/frat.c:296-297 | a forced re-creation yields the file if and only if a slot at or above the hint is free or holds the old head |
| Runs.NextFit | tools/filesystem/frat.c:260-269 | with n free slots at or above the hint, n allocate-and-fill steps succeed and take the first n of them in increasing order |
| Runs.NextFitFills | tools/filesystem/frat.c:324-336 | exactly those slots change hands |
| Runs.AllocateExactly | tools/filesystem/frat.c:260-269 | the result is the least free slot at or above the hint, NULL if and only if there is none; after a NULL a second one means the map is full |
| Runs.RunInv | tools/filesystem/frat.c:271-350 | every run of create, extend, remove and write keeps the family invariant |
| Runs.EveryRun | tools/filesystem/frat.c:271-350 | after any run from an empty map: one head at most, data blocks 1 .. m once each, metadata flag on heads only, extension flag nowhere |
| Codec.SlotRoundTrip | tools/filesystem/frat.h:52-58 | a slot whose fields fit survives packing into 64, 48, 16 and 32 bits |
| Codec.SlotLayout | tools/filesystem/frat.h:52-58 | the record byte by byte: code in 8 and 6 bytes, attributes in 2, index in 4, each least significant byte first |
| Codec.MapRoundTrip | tools/filesystem/frat.h:52-58 | so does the whole map, whatever follows it |
| Codec.RootRoundTrip | tools/filesystem/frat.h:88-100 | so does the root |
| Codec.RootLayout | tools/filesystem/frat.h:88-100 | the root byte by byte |
| Codec.ParseEmpty | tools/filesystem/frat.c:242-244 | zero bytes read as free slots |
| Mount.FlushThenMount | tools/filesystem/frat.c:541-547 | flushing and mounting restores the root and every slot if and only if the map is not on the root, is empty, or repeats the root's bytes |
| Mount.FlushKeepsData | tools/filesystem/frat.c:541-547 | flushing touches no data block |
| Mount.FormatMounts | tools/filesystem/frat.c:103-128 | mounting a fresh partition recovers its root and an all-free map |
| Mount.FormatExactly | tools/filesystem/frat.c:103-128 | it mounts if and only if the map's block number is not the root's, or there is no map |
| Mount.FormatWrites | tools/filesystem/frat.c:103-128 | every block of the partition after formatting: root, zeroed log, zeroed map, and the rest as it was |
| Mount.FlushWrites | tools/filesystem/frat.c:541-547 | every block of the partition after a flush: root, map, and the rest as it was |
| Mount.MountFinds | tools/filesystem/frat.c:157-176 | what mounts has the signature and the bytes of its root at the start of the partition |
| Mount.FreshSlots | tools/filesystem/frat.h:27-28 | a fresh map has a slot number j if and only if the partition is large enough for it |
| Mount.DefaultFormat | tools/filesystem/frat.h:12-28 | the default sizes on 100000 sectors give 195 slots, the map at block 3584 and the data at block 7680 |
| Mount.MapFallsShort | tools/filesystem/frat.h:27-28 | a fresh map has one slot for each sector after the log if and only if there is no such sector; its slot count times the block size stays below the number of those sectors plus a twentieth of the block size, and one slot more would pass that number |
| Codec.RootOfBytes | tools/filesystem/frat.h:88-100 | any 60 bytes are the packing of the root they parse to |
| Image.PutBlock | tools/filesystem/frat.c:958-960 | writing slot k's block replaces that block and no other slot's |
| Image.PutFrame | tools/filesystem/frat.c:958-960 | and no other block of the partition at all |
| Image.GetBlock | tools/filesystem/frat.c:436-437 | reading slot k's block returns it whenever the image holds it |
| Image.DataBytesAt | tools/filesystem/frat.c:958-960 | slot k's bytes by their place in the image, in units of the block size rounded up to sectors |
| Volume.Volume.constructor | tools/filesystem/frat.c:230-249 | the in-memory root holds what mounting read, with hint 0 |
| Volume.Volume.AllocateCluster | tools/filesystem/frat.c:260-269 | the scan returns the function the next-fit lemmas speak of and sets the hint to it, or to 0 |
| Volume.Volume.FindIndexed | tools/filesystem/frat.c:391-400 | the scan returns the least matching slot, the index cut to 32 bits |
| Volume.Volume.CountFamily | tools/filesystem/frat.c:331-333 | the loop counts the family |
| Volume.Volume.FillSlot | tools/filesystem/frat.c:330-337 | the slot takes code and attributes of the family, the latter without the metadata flag, and the number of its slots as index |
| Volume.Volume.AddBlock | tools/filesystem/frat.c:324-351 | the new state is that of the block-store step; only the file's own blocks and one free slot change, on disk too |
| Volume.Volume.ReadOne | tools/filesystem/frat.c:414-440 | the buffer starts with the block the store holds, NULL exactly when there is none |
| Volume.Volume.PushOne | tools/filesystem/frat.c:442-489 | the new state is that of the block-store step; disk blocks outside the file stay as they are |
| Volume.Volume.Stamp | tools/filesystem/frat.c:613-634 | only the head block changes, in its time fields |
| Volume.Volume.WriteChunk | tools/filesystem/frat.c:684-697 | one turn of the write loop on map and image |
| Volume.Volume.Size | tools/filesystem/frat.c:636-645 | the result is the number of data blocks times the block size |
| Volume.Volume.RemoveHead | tools/filesystem/frat.c:275-279 | the new state is that of removal on values: only the head's code is cleared; the invariant is kept |
| Volume.Volume.RemoveFamily | tools/filesystem/frat.c:283-290 | the code of every slot of the family is cleared, no other slot changes |
| Volume.Volume.Create | tools/filesystem/frat.c:292-322 | the new map, hint and image are those of creation on values |
| Volume.Volume.Enter | tools/filesystem/frat.c:735-744 | the same for the parent |
| Volume.Volume.Flush | tools/filesystem/frat.c:541-547 | the new image is the flushed one |
| Handles.Handle.constructor | tools/filesystem/frat.c:580-586 | the cursor starts past the metadata block |
| Handles.OpenFile | tools/filesystem/frat.c:573-590 | the file is created first if asked for; the handle is null if and only if the file is missing, and else points to its head with the cursor past the metadata block |
| Handles.Handle.SeekTo | tools/filesystem/frat.c:669-673 | the cursor is the position past the metadata block, clamped |
| Handles.Handle.SeekRelative | tools/filesystem/frat.c:657-668 | the cursor is that of the relative seek, from any position |
| Handles.Handle.WriteChunks | tools/filesystem/frat.c:683-701 | the loop ends in the state of the write function; disk blocks outside the file stay as they are |
| Handles.Handle.StampForWrite | tools/filesystem/frat.c:681-682 | only the head block changes, in its time fields; the answer is whether the head allows writing |
| Handles.Handle.Write | tools/filesystem/frat.c:675-704 | state, cursor and count are those of the write function |
| Handles.Handle.ReadChunks | tools/filesystem/frat.c:715-729 | the loop returns what the read function returns |
| Handles.Handle.Read | tools/filesystem/frat.c:705-733 | state, cursor, count and data are those of the read function |
| Persist.MountPartition | tools/filesystem/frat.c:194-258 | the result is the mounted state the round-trip lemmas speak of |
| Persist.FormatPartition | tools/filesystem/frat.c:75-128 | the root made has the sizes and versions asked for, and the new image is the formatted one |
| Persist.Remount | tools/filesystem/frat.c:541-547 | a live volume survives flush and mount exactly as above, and every file holds the same bytes on disk in any case |
| Persist.FreshVolume | tools/filesystem/frat.c:103-128 | a freshly formatted and mounted volume is ready for use |
| Persist.RunAndRemount | tools/filesystem/frat.c:541-547 | a run on the disk of a live volume, flush and mount: the map the run ended with mounts if and only if it can survive a flush, and every file reads as it did when the run ended |
| Persist.FormatAndRun | tools/filesystem/frat.c:103-128 | the same from a freshly formatted partition, where mounting succeeds |
| Execution.PerformOp | tools/filesystem/frat.c:271-350 | one operation on slots, hint and image is the operation on values |
| Execution.RunOps | tools/filesystem/frat.c:271-350 | a run on slots, hint and image is the run on values |
| Execution.PerformCall | tools/filesystem/frat.c:657-733 | one call on a handle is the call on values |
| Execution.RunSession | tools/filesystem/frat.c:657-733 | a session on a handle is the session on values, outputs included |
| Failures.WriteLost | tools/filesystem/frat.c:449-455 | a state in which 512 bytes are reported as written and the file stays empty |
| Failures.WriteAstray | tools/filesystem/frat.c:331-333 | a state in which a write past the end is reported in full and not found where it was put |
| Failures.HeadClobbered | tools/filesystem/frat.c:445-447 | a state in which a write replaces the metadata block |
| Failures.TestDeceived | tools/filesystem/frat.c:770-798 | a state in which the self-test passes and its block is not stored |
| Failures.TestDeceivedReadOnly | tools/filesystem/frat.c:770-798 | the same on an empty read-only file of a volume with a free slot |
| Failures.WritesApart | tools/filesystem/frat.c:260-269 | a state in which two writes of half a block take a slot and one write of the block takes none |
| Failures.CursorInMetadata | tools/filesystem/frat.c:698-702 | a state in which a write takes the cursor to 0 |
| Failures.MetadataRead | tools/filesystem/frat.c:705-706 | a read from there that returns the metadata record |
| Failures.ReadsApart | tools/filesystem/frat.c:705-706 | a state in which two reads return a block and one read of both returns nothing |
| Failures.ReplaceLoses | tools/filesystem/frat.c:296-297 | a state in which a forced re-creation loses the file |
| Failures.ReadOnlyInherited | tools/filesystem/frat.c:299-303 | a file created without flags that refuses every write |
| Wildcard.MatchRec | tools/filesystem/tools.c:248-273 | the recursion with its scanning loop ends and computes the function the lemmas speak of |
| Wildcard.PattMatch | tools/filesystem/tools.c:275-291 | the escape pass and the match |
| Wildcard.MatchSound | tools/filesystem/frat.h:154-159 | whatever match_rec accepts has the documented meaning, for every pattern |
| Wildcard.MeansConcat | tools/filesystem/frat.h:154-159 | the documented meaning: one pattern after another means one name after another, unless wildcards run together |
| Wildcard.MeansOne | tools/filesystem/frat.h:154-159 | '*' means any one character, another character itself |
| Wildcard.MeansBlock | tools/filesystem/frat.h:154-159 | '***' means any name |
| Wildcard.CrowdedLost | tools/filesystem/tools.c:257-263 | a pattern with '*' after '***' and a name that its documented meaning accepts and match_rec does not |
| Wildcard.MatchExactly | tools/filesystem/tools.c:248-273 | match_rec has the documented meaning on all names if and only if no block wildcard is directly followed by '*' |
| Escapes.EscapesExactly | tools/filesystem/tools.c:275-291 | __pattmatch has the documented meaning, escapes included, on all names if and only if the pattern's escapes are honoured: an escaped '*' stands directly after block wildcards with at most one '*' after it, blocks follow on each other only in front of such an escape, and no other three '*' come together |
| Escapes.FormsExactly | tools/filesystem/frat.h:154-159 | two wildcard forms stand for the same names if and only if they are the same |
| Escapes.ActualIs | tools/filesystem/tools.c:248-273 | what match_rec accepts, as a form, for every pattern |
| Escapes.DocumentedIs | tools/filesystem/frat.h:154-159 | what the documentation describes, as a form, for every pattern |
| Escapes.PattMatchPlain | tools/filesystem/tools.c:275-291 | for patterns without backslash the meaning is that of match_rec, and so is the condition |
| Escapes.EscapeKept | tools/filesystem/tools.c:275-291 | patterns whose escaped '*' is honoured |
| Escapes.EscapeLost | tools/filesystem/tools.c:281-283 | a pattern whose escaped '*' matches another character, against its documented meaning |
| Replace.LengthPredicted | tools/filesystem/tools.c:322 | the wrapping unsigned formula gives the length of the result, growing or shrinking |
| Replace.ReplacedExactly | tools/filesystem/tools.c:326-341 | replacing is cutting at the leftmost occurrence, over and over, and joining the parts with the new string; the hits are the cuts |
| Replace.CutLeftmost | tools/filesystem/tools.c:310-316 | every string falls into such parts |
| Replace.CountHits | tools/filesystem/tools.c:310-316 | the first pass counts the leftmost non-overlapping occurrences |
| Replace.Fill | tools/filesystem/tools.c:326-341 | the second pass writes the replaced string and its terminator and fills the buffer exactly |
| Replace.StrReplace | tools/filesystem/tools.c:301-342 | the result is leftmost non-overlapping replacement, NULL for an empty pattern |
| LineEditor.EditedProper | src/minidbg-master/dbg.c:196-255 | on every input the line stays within 255 characters, none below space |
| LineEditor.CursorKeys | src/minidbg-master/dbg.c:231-237 | cursor keys keep the text and undo each other |
| LineEditor.TypeAndErase | src/minidbg-master/dbg.c:216-249 | a typed character is taken back by backspace, or by cursor left and delete |
| LineEditor.RawCursorKeys | src/minidbg-master/dbg.c:206-209 | on raw input: ESC [ D takes the last character before the cursor behind it, ESC [ C the first one after it in front of it, for any line and any rest of the input |
| LineEditor.RawErasingKeys | src/minidbg-master/dbg.c:210-230 | ESC [ 3 ~ drops the first character after the cursor, 8 and 127 the last one before it |
| LineEditor.RawCharacters | src/minidbg-master/dbg.c:238-249 | a character of at least 32 is inserted while there are fewer than 255; other control characters do nothing, but for 1, 2 and 3, which act as the keys |
| LineEditor.RawEscapes | src/minidbg-master/dbg.c:202-214 | any other escape counts as its last character alone, a newline or escape character in that place being ignored |
| LineEditor.RawEnds | src/minidbg-master/dbg.c:202-214 | a newline ends the line, and so does the end of the input, also within an escape |
| LineEditor.ShiftLeft | src/minidbg-master/dbg.c:219-229 | the shifting loop drops one character |
| LineEditor.ShiftRight | src/minidbg-master/dbg.c:243-246 | the shifting loop opens one place |
| LineEditor.PressKey | src/minidbg-master/dbg.c:216-250 | one key on the array does what it does on the text before and after the cursor |
| LineEditor.GetLine | src/minidbg-master/dbg.c:196-255 | for every input the array shows the simple editor's line, terminated, with cursor <= length <= 255 |
| Numbers.FormatHex | src/minidbg-master/dbg.c:119-137 | the digits denote the value modulo 2^64, as many as it needs or the width asks for |
| Numbers.DigitTable | src/minidbg-master/dbg.c:119-137 | digits are printed in upper case and read in either |
| Numbers.GetOffset | src/minidbg-master/dbg.c:272-289 | the digit loops compute the parsing function in wrapping 64-bit arithmetic |
| Numbers.HexRoundTrip | src/minidbg-master/dbg.c:119-137 | parsing 0x and the printout returns the value, a negative one as its two's complement, for every width |
| Numbers.LowerCaseParses | src/minidbg-master/dbg.c:272-282 | the printout put in lower case parses to the same number |
| Numbers.FormatDecimal | src/minidbg-master/dbg.c:93-118 | the printout is the padded decimal representation with its sign |
| Numbers.PrintoutReads | src/minidbg-master/dbg.c:93-118 | that is padding, a minus sign if the number is negative, and its digits without leading zeros, as long as the width asks for |
| Numbers.DecimalParses | src/minidbg-master/dbg.c:283-289 | a decimal run below 2^64 is parsed to its value |
| Numbers.DecimalExactly | src/minidbg-master/dbg.c:93-118 | parsing the printout returns the number if and only if it is 0, or positive and not padded with spaces |

## Left out

- Directory contents and traversal: entry scanning is not modelled. Putting an entry into a directory counts as a number of extend steps, given by `World.gain`; a directory insertion that never ends because the volume is full has no counterpart. The flush and the rewriting of the directory's blocks at the end of the insertion are not part of creation here.
- GPT probing: the base and the end of the partition are parameters.
- Runs.CreateKeeps, Runs.EnterKeeps, Volume.Volume.Create, Volume.Volume.Enter: the entry put into the parent, and the flush that ends its insertion, are not modelled.
- BLAKE2b in the path hash: a function from paths to nonzero codes of 112 bits, `World.hash`. Collisions are not excluded.
- Metadata records and clocks: `World.meta` gives the 512 bytes of a new head, `Clock` the bytes of time and date.
- Failed memory allocations, missing files and NULL arguments.
- The log: its extent is modelled, its contents are neither read nor written after formatting.
- The skip loops for extension clusters in __fread1 and __fpush1: no reachable slot carries that flag (`Runs.EveryRun`).
- Volume.Volume.PushOne: the branch that overwrites a head without metadata flag is dead on a sound map and exists only in the function `FileStore.Push`.
- Volume.Volume.RemoveHead: the file must exist, since the source dereferences the slot it looks up.
- Persist.MountPartition: a map that cannot be read yields no volume; the source goes on with a null map.
- Limits.WriteExactly: the write must start past the metadata block and end below 2^64; for writes that wrap only `Files.WriteConfined` and `Session.CursorWraps` say what happens. The same holds of Stream.WriteReports.
- Stream.ReadExactly: the read must end below 2^64; beyond that the size test of the source wraps. The same holds of Stream.ReadSplit.
- Stream.WriteOverwrites: the block size is at least the 512 bytes of the metadata record, as everywhere above the raw layer.
- Split.WriteSplit, Split.AlignedSplit, Split.SplitExactly: the time stamps of the two writes differ from that of one, so the head block is excepted.
- Split.SplitExactly: the writes touch no block with a number of 2^32 or more; beyond that only Split.WriteSplit and Split.AlignedSplit speak of two writes.
- Raw.Offset, Layout.DataLba: byte offsets and block addresses are unbounded integers, where the source computes them in 64 bits; partitions that reach beyond 2^64 bytes are not modelled.
- Replace.StrReplace: the result and its terminator must fit in 64 bits.
- Numbers.GetOffset: the register prefix and the sign before the offset are not modelled.
- Numbers.FormatDecimal: %c, %s and %% and the parsing of the format string are not modelled; the value, the width and the pad character are parameters.
- LineEditor.GetLine: the echo to the terminal is left out; an input that ends in the middle of a line leaves the line as edited so far.
- readbytes and writebytes, the string splitting helpers, the shell, logging, the debugger's command loop and the disassembler.
