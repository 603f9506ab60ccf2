# Verified model of the EDK II FAT stack

The model follows the FAT driver of EDK II (`FatPkg/EnhancedFatDxe`), the block reader of the
recovery module (`FatPkg/FatPei`) and the packet layer of the GDB stub
(`EmbeddedPkg/GdbStub`). Each layer is stateful code that has to look like something simple
from above; the proofs say that it does.

* **Disk cache** (`CacheImage`, `FatCopies`, `DiskCache`). Two direct-mapped write-back caches
  in front of the disk, with aligned data going past them and FAT pages written to every copy,
  answer every run of accesses as one flat byte array.
* **FAT and cluster chains** (`FatTable`, `Clusters`, `FileChains`, `FileSpace`). Packed
  FAT12, FAT16 and FAT32 entries are an array of values; allocating, growing, shrinking and
  freeing keep all files' chains well-formed and apart, whatever is run, and a grow that fails
  is undone. What they do to chains that are not well-formed is stated, too.
* **File bytes** (`FileData`, `ReadWrite`, `FileRuns`). Each file is a flat byte sequence. The
  seek cursor, run lengths and the fixed root directory are below that picture, and in any run
  through many handles no operation on one file is seen by another.
* **Tasks** (`Tasks`) and **open files** (`References`). Every interleaving of submissions,
  completions and clean-ups of non-blocking requests; every run of opening and closing in the
  tree of open files.
* **Directories** (`FatNames`, `DirSlots`, `DirScan`, `DirChange`, `DirPlace`, `DirHash`,
  `Directory`, `DirRuns`). Names in 32-byte slots, first-fit placement, the shared read cursor,
  both hash tables and generated short names. The child list in memory always is what a scan of
  the slots finds, and any run of calls is one on an ordered list of entries.
* **Recovery reader** (`PeiCache`, `PeiFile`). A four-slot cache that is entered again while
  it fills a partition's block, behind a range check that wraps, and reading files by their
  chains and beyond them.
* **GDB packets** (`GdbPacket`). Framing, retransmission and escaping, both ends together.

Objects whose fields the source updates are classes here, with the loops of the source; what
their methods compute is stated through functions on values, and the laws are lemmas about
those. `Bytes` and `Lists` hold what all layers share; `Bytes.UnitsAreDivision` shows that its
`Start`, `Unit` and `Rest` are multiplication, division and remainder.

What the code relies on is stated as hypotheses:

* I/O under the disk cache is blocking and succeeds; the one error is an access beyond the
  volume. FAT and data layers work on the flat bytes that `DiskCache` provides.
* The geometry is the one `FatPkg/EnhancedFatDxe/Init.c` computes: the FATs lie one behind the
  other in front of the root directory, hold an entry for every cluster, and a cluster number
  is never one of the special values.
* Upper and lower case are those of the English collation in
  `MdeModulePkg/Universal/Disk/UnicodeCollation/EnglishDxe/UnicodeCollationEng.c`, with bytes
  taken as unsigned; the checksum service is any function.
* A directory has only end marks behind its end, at most 65536 slots, and clusters of at least
  21 slots whose number divides 65536. No two of its entries have the same short name, or the
  same long name but for case.
* A free count that is marked as valid on the volume is exact. (Where it is not marked, the
  driver counts.)
* Growing, shrinking and seeking a file: following the file's own chain comes to an end and
  meets no 1, whatever the rest of the FAT holds. File sizes have 32 bits, and a cluster is
  smaller than 4 GB.
* A directory entry lies in one directory, under whose open file its own is opened.
* A partition of the recovery reader is found after the device it lies on, has its block size
  and starts on one of its blocks; it may reach past the end of that device. A Block I/O
  service refuses what is not on its medium. Positions asked for, and the block behind the end
  of a device, have 64 bits, and so have those of all 32-bit cluster numbers. The chain of a
  file ends at a free entry or at a special value.

Where the code does less than one would expect, the model keeps the code and says so exactly:

* `FileSpace.FatVolume.SetFatEntry` with an index beyond the table rewrites the entry that was
  loaded last (`FileSpace.FreeBeyond`). So does `FileSpace.FatVolume.ShrinkEof` for a file
  that begins beyond the table (`FileSpace.CutElsewhere`).
* `FileSpace.FatVolume.GrowEof` remembers the last cluster of a chain it has just refused, so
  a second grow of the same file does not look at the chain again. If that runs out of space,
  it may keep clusters; `Clusters.GrowthUndone` says exactly when it does not, and
  `FileSpace.RefusedThenFull` is a sequence of two calls in which it does.
* `ReadWrite.Handle.Write` and `Read` compute the end of a request in 64 bits. Where it wraps,
  the file may grow, and it fails from then on (`ReadWrite.WrappedWrite`);
  `FileRuns.NeverMarked` says that it does not otherwise.
* `DirPlace.TailIgnoresLabel`: behind the last child of a full root directory the first fit
  may overwrite the volume label (`Directory.OverwriteLabel`).
* `DirSlots.StoreLoad`: a name kept in one slot is read back wrongly behind a stray long-name
  slot with the same checksum (`Directory.NameLost`).
* `PeiCache.RoomWraps`: of a partition the one block behind its end cannot be read, but every
  one behind that can if the parent has it (`PeiCache.BehindThePartition`).
* `PeiCache.FailedFill`: a failed read leaves evicted slots valid under the labels of blocks
  that could not be read, once all slots are in use (`PeiCache.WrongAfterFailure`).
* `PeiFile.File.ReadFile`: reading up to the exact end of the last cluster does not move the
  file's position, and reading on takes the number that ended the chain for a cluster
  (`PeiFile.ReadFullDirectory`).
* `Directory.SearchNeverEnds`: the search for a short name does not end in a directory that
  holds the first 260 candidates (`Directory.AllCandidatesTaken`).

## Model

| member | source | states |
|---|---|---|
| `DiskCache.Volume.Run` | FatPkg/EnhancedFatDxe/DiskCache.c:291-378 | Over every run of reads, writes and flushes the volume answers, byte for byte and status for status, as one flat array does; a run that ends in a flush leaves that array on the disk; FAT copies equal at the start are equal at the end |
| `DiskCache.Volume.Execute` | FatPkg/EnhancedFatDxe/Misc.c:311-384 | One access through the cache answers as the flat array and leaves the cache showing the flat array after the access; a flush puts the reserved area, the first FAT and everything from the root directory on of it on the disk |
| `DiskCache.Volume.DiskRead` | FatPkg/EnhancedFatDxe/Misc.c:311-384 | A read inside the volume returns the bytes of the cached view for its mode and changes no view; beyond the volume it fails and sets the disk error |
| `DiskCache.Volume.DiskWrite` | FatPkg/EnhancedFatDxe/Misc.c:311-384 | A write inside the volume overwrites exactly that stretch of one view; beyond the volume nothing changes but the disk error |
| `DiskCache.Volume.ReadCache` | FatPkg/EnhancedFatDxe/DiskCache.c:291-378 | Underrun, whole pages past the cache and overrun together are the stretch of the view, although dirty pages are only in the cache |
| `DiskCache.Volume.WriteCache` | FatPkg/EnhancedFatDxe/DiskCache.c:291-378 | The same split for writing overwrites exactly the stretch, and cached pages behind the direct write are dropped or kept in step |
| `DiskCache.Volume.GetCachePage` | FatPkg/EnhancedFatDxe/DiskCache.c:168-204 | The page is in its slot afterwards, and if it was before nothing happens; an evicted dirty page has reached the disk; no view changes |
| `DiskCache.Volume.StorePage` | FatPkg/EnhancedFatDxe/DiskCache.c:96-153 | Writing a page back, to every FAT copy for a FAT page, cleans its slot and changes neither view |
| `DiskCache.Volume.FlushCache` | FatPkg/EnhancedFatDxe/DiskCache.c:391-432 | After a flush the raw disk equals both cached views |
| `DiskCache.FlatViewRead` | FatPkg/EnhancedFatDxe/DiskCache.c:291-378 | A stretch of the flat array is the stretch of the view its mode selects |
| `DiskCache.FlatViewWrite` | FatPkg/EnhancedFatDxe/DiskCache.c:291-378 | Overwriting a stretch of a view is overwriting the flat array |
| `DiskCache.Splitting` | FatPkg/EnhancedFatDxe/DiskCache.c:316-376 | Underrun, whole pages and overrun are adjacent, cover the request exactly, and start and end on page boundaries |
| `CacheImage.StoreKeeps` | FatPkg/EnhancedFatDxe/DiskCache.c:96-153 | A page written back leaves the view of disk and cache together unchanged |
| `CacheImage.LoadKeeps` | FatPkg/EnhancedFatDxe/DiskCache.c:96-153 | Loading a page into a slot whose old page is clean leaves the view unchanged |
| `CacheImage.SlotWrite` | FatPkg/EnhancedFatDxe/DiskCache.c:223-260 | Writing into a cached page and marking it dirty overwrites that stretch of the view |
| `CacheImage.DirectWrite` | FatPkg/EnhancedFatDxe/DiskCache.c:30-80 | A write past the cache overwrites the view, once the pages it covers are dropped |
| `CacheImage.ReconcilePage` | FatPkg/EnhancedFatDxe/DiskCache.c:30-80 | A direct read overlaid with the dirty pages is the view |
| `CacheImage.CleanIsDisk` | FatPkg/EnhancedFatDxe/DiskCache.c:391-432 | Without dirty pages the view is the disk |
| `CacheImage.SlotIsRemainder` | FatPkg/EnhancedFatDxe/DiskCache.c:119 | The slot of a page is its number modulo the number of slots, so that pages in a row get slots in a row |
| `FatCopies.FatPageStored` | FatPkg/EnhancedFatDxe/DiskCache.c:124-152 | A FAT page written to every copy is in the window of the FAT cache afterwards, nothing outside the FATs changes, and equal copies stay equal |
| `FatCopies.FatCopiesByte` | FatPkg/EnhancedFatDxe/DiskCache.c:124-152 | Every byte of the disk after writing to every copy, equal before or not: the page at its place in each copy, the old byte elsewhere |
| `FatCopies.MirroredByCopies` | FatPkg/EnhancedFatDxe/DiskCache.c:124-152 | Copies that were byte-for-byte equal stay equal over a write-back |
| `FatTable.GetAfterSet` | FatPkg/EnhancedFatDxe/FileSpace.c:82-222 | Reading an entry after setting it gives the value, special values with all high bits set, for all three FAT types |
| `FatTable.Fat12Value` | FatPkg/EnhancedFatDxe/FileSpace.c:102-107 | What a FAT12 entry's two bytes are worth, by the parity of its number, and from which value on it is a special one |
| `FatTable.Fat16Value` | FatPkg/EnhancedFatDxe/FileSpace.c:109-113 | What the two bytes of a FAT16 entry are worth, low byte first |
| `FatTable.Fat32Value` | FatPkg/EnhancedFatDxe/FileSpace.c:115-118 | What the four bytes of a FAT32 entry are worth, low byte first and without the top four bits |
| `FatTable.WideStored` | FatPkg/EnhancedFatDxe/FileSpace.c:192-199 | The bytes a set leaves in a FAT16 or FAT32 entry, low byte of the value first |
| `FatTable.PackedStored` | FatPkg/EnhancedFatDxe/FileSpace.c:177-190 | The two bytes a set leaves in a FAT12 entry, next to four bits of its neighbour |
| `FatTable.SetElsewhere` | FatPkg/EnhancedFatDxe/FileSpace.c:137-222 | Setting an entry leaves every other entry's value alone, although FAT12 neighbours share a byte |
| `FatTable.TopNibbleKept` | FatPkg/EnhancedFatDxe/FileSpace.c:197-199 | The four reserved bits of a FAT32 entry are kept |
| `FatTable.SharedHighByte` | FatPkg/EnhancedFatDxe/FileSpace.c:177-190 | Setting an even FAT12 entry keeps the other half of the byte it shares |
| `FatTable.SharedLowByte` | FatPkg/EnhancedFatDxe/FileSpace.c:177-190 | Setting an odd FAT12 entry keeps the other half of the byte it shares |
| `FatTable.TableAfterSet` | FatPkg/EnhancedFatDxe/FileSpace.c:137-222 | The packed table seen as values changes in one element |
| `FatTable.MarkElsewhere` | FatPkg/EnhancedFatDxe/FileSpace.c:202-207 | Marking the volume dirty changes no entry but entry 1 |
| `FatTable.MarkStored` | FatPkg/EnhancedFatDxe/FileSpace.c:202-207 | Entry 1 of a FAT16 or FAT32 volume is the mark after the first set, and nothing is marked otherwise |
| `FatTable.BeyondIsLoaded` | FatPkg/EnhancedFatDxe/FileSpace.c:137-222 | What is stored for an index beyond the table becomes the value of the entry loaded before; on FAT12 if both indexes are even or both odd |
| `FatTable.BeyondTable` | FatPkg/EnhancedFatDxe/FileSpace.c:137-222 | On FAT16 and FAT32 no other entry changes then |
| `FatTable.NormOfClusters` | FatPkg/EnhancedFatDxe/FileSpace.c:82-122 | Cluster numbers, the free mark and the end mark are stored unchanged |
| `FileSpace.FatVolume.LoadFatEntry` | FatPkg/EnhancedFatDxe/FileSpace.c:24-70 | An index beyond the last entry gives all ones and leaves the remembered position alone |
| `FileSpace.FatVolume.GetFatEntry` | FatPkg/EnhancedFatDxe/FileSpace.c:82-122 | The value decoded from the entry's bytes, entries 0 and 1 included, and the end of a chain for every index beyond the table |
| `FileSpace.FatVolume.SetFatEntry` | FatPkg/EnhancedFatDxe/FileSpace.c:137-222 | Exactly which bytes, free count, hint and dirty mark a set leaves, also for index 0 and 1 (refused) and beyond the table (the entry loaded last is overwritten) |
| `FileSpace.FreeInfoRules` | FatPkg/EnhancedFatDxe/FileSpace.c:157-168 | How freeing and taking a cluster change the free count and the hint |
| `FileSpace.FreeBeyond` | FatPkg/EnhancedFatDxe/FileSpace.c:137-222 | Two calls that show it: freeing a cluster beyond the last one frees the cluster looked at before |
| `FileSpace.FatVolume.SetKeepsExact` | FatPkg/EnhancedFatDxe/FileSpace.c:157-167 | A free count equal to the number of free entries stays equal over a set |
| `FileSpace.FatVolume.ComputeFreeInfo` | FatPkg/EnhancedFatDxe/FileSpace.c:715-744 | The count is the number of free clusters and the hint the lowest of them, unless the disk failed |
| `FileSpace.FatVolume.AllocateCluster` | FatPkg/EnhancedFatDxe/FileSpace.c:268-311 | Ends, returns a free cluster in range with the hint behind it, and reports none exactly when there is none or the disk failed |
| `FileSpace.FatVolume.FreeClusters` | FatPkg/EnhancedFatDxe/FileSpace.c:235-257 | Ends whenever the walk does not come to 1, cycles and cross links included, and frees what the walk meets; when it leaves the volume, the entry freed last is cleared once more in the place of the missing one, on FAT16 and FAT32 without effect but for a free count one too high |
| `Clusters.FreeWalkOnPath` | FatPkg/EnhancedFatDxe/FileSpace.c:235-257 | On a well-formed chain the walk frees exactly that chain |
| `Clusters.FreeWalkNoOnes` | FatPkg/EnhancedFatDxe/FileSpace.c:235-257 | On every FAT without an entry of 1 the walk does not come to 1 |
| `Clusters.FreeWalkNotOne` | FatPkg/EnhancedFatDxe/FileSpace.c:235-257 | If the chain followed does not meet a 1, the freeing walk does not come to 1, although it changes the FAT on its way |
| `Clusters.FreeWalkSane` | FatPkg/EnhancedFatDxe/FileSpace.c:235-257 | If the chain followed meets only free marks, clusters and special values, the freeing walk ends at a free mark or a special value, although it changes the FAT on its way |
| `Clusters.FreeWalkOnlyFrees` | FatPkg/EnhancedFatDxe/FileSpace.c:235-257 | Whatever the FAT, entries are only ever freed |
| `Clusters.CountLiveFreed` | FatPkg/EnhancedFatDxe/FileSpace.c:235-257 | Every step frees one live entry, which is why the walk ends |
| `Clusters.PathDistinct` | FatPkg/EnhancedFatDxe/FileSpace.c:455-479 | A walk that stops never met a cluster twice |
| `Clusters.ChainUnique` | FatPkg/EnhancedFatDxe/FileSpace.c:455-479 | A first cluster has one chain |
| `Clusters.CutIsPrefix` | FatPkg/EnhancedFatDxe/FileSpace.c:350-410 | Cutting leaves the first clusters as the chain, frees the others and touches nothing else |
| `Clusters.FreeWalkAfterCut` | FatPkg/EnhancedFatDxe/FileSpace.c:350-410 | Ending the chain and freeing from there is that cut |
| `Clusters.AppendIsChain` | FatPkg/EnhancedFatDxe/FileSpace.c:488-537 | A free cluster linked behind the tail makes the chain one longer and the free clusters one fewer |
| `Clusters.LaidIsChain` | FatPkg/EnhancedFatDxe/FileSpace.c:488-537 | The clusters linked up to the n-th are a chain, and all of them are distinct when all are linked |
| `Clusters.LayFirst` | FatPkg/EnhancedFatDxe/FileSpace.c:488-537 | The first cluster allocated behind a path that ends anywhere: the path and the cluster are one chain, also when the path's last cluster is marked free and is itself the one allocated |
| `Clusters.LayNext` | FatPkg/EnhancedFatDxe/FileSpace.c:488-537 | Each further cluster makes that chain one longer and takes one free cluster |
| `Clusters.GrowthUndone` | FatPkg/EnhancedFatDxe/FileSpace.c:494-504 | After a grow that ran full the same clusters are free as before exactly when the file size asks for the clusters the chain had in use, or for more and nothing could be allocated |
| `Clusters.CutUndoesGrowth` | FatPkg/EnhancedFatDxe/FileSpace.c:494-504 | Cutting a grown chain back to its old length restores every entry that the growth changed, up to the end mark |
| `FileSpace.FatVolume.ShrinkEof` | FatPkg/EnhancedFatDxe/FileSpace.c:350-410 | What a shrink does to any FAT, as long as following the file's own chain meets no 1, and when it reports corruption; a number beyond the last entry counts as the last cluster, and its end mark goes into the entry loaded before |
| `FileSpace.FatVolume.WalkClusters` | FatPkg/EnhancedFatDxe/FileSpace.c:362-380 | The walk finds the last cluster to keep exactly when the chain has so many values that are clusters, a number beyond the last entry allowed as the last |
| `FileSpace.CutElsewhere` | FatPkg/EnhancedFatDxe/FileSpace.c:350-410 | Two calls: shrinking a file whose first cluster is beyond the last entry ends the chain of the cluster looked at before |
| `FileSpace.FatVolume.ShrinkChain` | FatPkg/EnhancedFatDxe/FileSpace.c:350-410 | It keeps as many clusters as the size asks for and frees exactly the rest, or finds too few and changes nothing, when the chain ends at a free mark or a special value |
| `FileSpace.FatVolume.FindLastCluster` | FatPkg/EnhancedFatDxe/FileSpace.c:455-486 | Finds the tail, and accepts the chain exactly when it ends properly and has the length the size promises |
| `FileSpace.FatVolume.ExtendChain` | FatPkg/EnhancedFatDxe/FileSpace.c:488-537 | Links free clusters one by one behind a path that may end in any way; full exactly when the volume has fewer than that takes, and then all there were are linked |
| `FileSpace.FatVolume.GrowEof` | FatPkg/EnhancedFatDxe/FileSpace.c:425-544 | Every outcome of a grow, table and file fields, for a chain of any length and end: refused sizes, nothing to do, a chain refused and cut to the size or left, the longer chain, or a full volume with the chain cut back to the size or kept as long as it got, and exactly when that frees again what was taken; for a refused chain that ends beyond the last entry only the answer and the size |
| `FileSpace.GrewFull` | FatPkg/EnhancedFatDxe/FileSpace.c:494-544 | A grow that ran full, followed by the shrink, is the outcome stated, for any chain |
| `FileSpace.RefusedThenFull` | FatPkg/EnhancedFatDxe/FileSpace.c:425-544 | Two calls: a grow refused for a broken chain, tried again, takes both free clusters of the volume, runs full and keeps them |
| `FileChains.ClustersOf` | FatPkg/EnhancedFatDxe/FileSpace.c:323-338 | The least number of clusters that holds the size |
| `FileChains.GrowKeepsFile` | FatPkg/EnhancedFatDxe/FileSpace.c:425-544 | A grown file is well-formed and its chain begins with the old one |
| `FileChains.GrowKeepsOthers` | FatPkg/EnhancedFatDxe/FileSpace.c:425-544 | No other file's chain changes or comes to share a cluster |
| `FileChains.TruncateKeepsFile` | FatPkg/EnhancedFatDxe/FileSpace.c:350-410 | A truncated file is well-formed and the clusters cut off are free |
| `FileChains.TruncateKeepsOthers` | FatPkg/EnhancedFatDxe/FileSpace.c:350-410 | No other file's chain changes |
| `FileChains.StepKeepsAll` | FatPkg/EnhancedFatDxe/FileSpace.c:350-544 | One grow or truncate keeps all files well-formed and pairwise disjoint |
| `FileChains.RunKeepsAll` | FatPkg/EnhancedFatDxe/FileSpace.c:350-544 | Every run of grows and truncates keeps all chains in range, acyclic, disjoint and as long as their sizes say |
| `FileData.WhereInjective` | FatPkg/EnhancedFatDxe/FileSpace.c:612-624 | No two bytes of a file lie at the same disk position |
| `FileData.ConsecutiveIsStraight` | FatPkg/EnhancedFatDxe/FileSpace.c:624-635 | Consecutive clusters are one straight run on the disk |
| `FileData.RunRead` | FatPkg/EnhancedFatDxe/ReadWrite.c:454-514 | Reading a run of the disk reads that stretch of the file |
| `FileData.RunWrite` | FatPkg/EnhancedFatDxe/ReadWrite.c:454-514 | Overwriting a run of the disk overwrites that stretch of the file and no cluster outside it |
| `FileData.OtherContents` | FatPkg/EnhancedFatDxe/ReadWrite.c:454-514 | A file with no cluster in common keeps its bytes |
| `FileSpace.FatVolume.SeekCluster` | FatPkg/EnhancedFatDxe/FileSpace.c:580-618 | From the remembered cluster or the head, the cluster reached is the one the chain has at that position; beyond the chain it fails |
| `FileSpace.FatVolume.MeasureRun` | FatPkg/EnhancedFatDxe/FileSpace.c:620-636 | The run is straight, inside the file, and ends only at the limit or where the chain goes elsewhere |
| `FileSpace.FatVolume.Position` | FatPkg/EnhancedFatDxe/FileSpace.c:559-638 | Disk position and run length agree with walking the chain from its first cluster, and the remembered cursor is good again |
| `FileSpace.FatVolume.OFilePosition` | FatPkg/EnhancedFatDxe/FileSpace.c:559-638 | The same for the fixed root directory and for chains |
| `ReadWrite.ReadOFile` | FatPkg/EnhancedFatDxe/ReadWrite.c:454-514 | The bytes of the file from the position on, as far as its clusters go, and success exactly when all were there |
| `ReadWrite.WriteOFile` | FatPkg/EnhancedFatDxe/ReadWrite.c:454-514 | Exactly those bytes of the file are overwritten and no cluster of another file changes |
| `ReadWrite.GrowChain` | FatPkg/EnhancedFatDxe/FileSpace.c:425-544 | On a well-formed file the grow method does what the run theorem over all files assumes, whatever other entries of the FAT hold |
| `ReadWrite.GrewIsOutcome` | FatPkg/EnhancedFatDxe/FileSpace.c:425-544 | Because a well-formed chain takes exactly one free cluster for each one added, and is restored in full |
| `ReadWrite.TruncateChain` | FatPkg/EnhancedFatDxe/ReadWrite.c:612-620 | The same for truncating |
| `ReadWrite.GrowKeepsBytes` | FatPkg/EnhancedFatDxe/FileSpace.c:425-544 | Among all files of a volume a grow keeps every byte, and succeeds exactly when the size fits 32 bits and the clusters are there |
| `ReadWrite.GrowFile` | FatPkg/EnhancedFatDxe/FileSpace.c:425-544 | The file keeps its bytes and gets its new length or stays as it was, with exactly the status and the free clusters taken that size and free count determine; all other files are as before |
| `ReadWrite.GrowTakes` | FatPkg/EnhancedFatDxe/FileSpace.c:425-544 | A grow of a well-formed file takes exactly the clusters it needs, or fails and takes none |
| `ReadWrite.MakeRoom` | FatPkg/EnhancedFatDxe/ReadWrite.c:277-305 | The growing before a write: none while the end of the request is inside the file |
| `ReadWrite.TruncateFile` | FatPkg/EnhancedFatDxe/ReadWrite.c:612-620 | The file is cut to a prefix of its bytes; all other files are as before |
| `ReadWrite.WriteFile` | FatPkg/EnhancedFatDxe/ReadWrite.c:454-514 | One file is overwritten in place, all other files are as before; beyond the end of the file the write goes on to the end of its clusters, unseen, and then fails |
| `ReadWrite.WriteKeepsBytes` | FatPkg/EnhancedFatDxe/ReadWrite.c:454-514 | Overwriting in one chain, inside the file or in the slack behind it, overwrites that file's bytes and leaves those of a disjoint one |
| `ReadWrite.WriteZeroPool` | FatPkg/EnhancedFatDxe/ReadWrite.c:557-599 | Zeroes from the position to the end, whatever the number of buffers it takes |
| `ReadWrite.ExpandFile` | FatPkg/EnhancedFatDxe/ReadWrite.c:527-543 | The old bytes followed by zeroes, or no change at all; success exactly when there is room |
| `ReadWrite.Handle.Read` | FatPkg/EnhancedFatDxe/ReadWrite.c:194-336 | The bytes up to the end of the file, with the handle moved by as many; a device error behind the end; the mark of a file that failed before; and where the end of the request wraps, the bytes to the end of the file's clusters and a lasting error |
| `ReadWrite.Handle.Write` | FatPkg/EnhancedFatDxe/ReadWrite.c:194-336 | Write protected on a read-only volume, access denied for a read-only handle, the error of a failed file, each changing nothing; else the file grows as needed and free clusters allow, or nothing changes; the bytes are put at the position and all others kept; and where the end of the request wraps, the file may grow to the wrapped end, gets what fits into its clusters, and fails for good |
| `ReadWrite.WrappedWrite` | FatPkg/EnhancedFatDxe/ReadWrite.c:277-309 | Three calls: 100 bytes written 16 below the highest position make an empty file 84 bytes long, and it cannot be read any more |
| `ReadWrite.Handle.SetPosition` | FatPkg/EnhancedFatDxe/ReadWrite.c:64-105 | The position asked for, or the end of the file for a position of all ones |
| `FileRuns.Handles.RunAll` | FatPkg/EnhancedFatDxe/ReadWrite.c:64-336 | Every run of reads, writes and seeks through any number of handles on any number of files is the run of byte sequences, positions, error marks and a free cluster count that the calls determine: when a write succeeds, what it takes from the free clusters, what each read returns; no handle sees another file, and writes through a read-only handle or volume are refused and change nothing |
| `FileRuns.Handles.Call` | FatPkg/EnhancedFatDxe/ReadWrite.c:64-336 | One call through one handle: its answer, and exactly what becomes of its file, its position, the error mark and the free clusters; every open file stays well-formed and in place |
| `FileRuns.FlatStep` | FatPkg/EnhancedFatDxe/ReadWrite.c:194-336 | While the end of a request does not wrap at 64 bits, a read returns what is there, a write puts all its bytes or changes nothing, and no file is marked |
| `FileRuns.NeverMarked` | FatPkg/EnhancedFatDxe/ReadWrite.c:194-336 | A run of such requests never marks a file with an error |
| `Tasks.EveryRun` | FatPkg/EnhancedFatDxe/Misc.c:121-293 | In every interleaving: a token is signalled at most once, exactly once after a successful queue call, with success exactly if all subtasks succeeded; a task is freed once, after its last subtask; an empty list means nothing outstanding |
| `Tasks.RunGood` | FatPkg/EnhancedFatDxe/Misc.c:121-293 | The invariant behind it holds after every sequence of events |
| `Tasks.StepGood` | FatPkg/EnhancedFatDxe/Misc.c:121-293 | ... because every event keeps it |
| `Tasks.OutstandingIsListed` | FatPkg/EnhancedFatDxe/Misc.c:247-293 | A completion finds its task not freed and itself still in the list |
| `Tasks.CleanUpOk` | FatPkg/EnhancedFatDxe/Misc.c:184-209 | Giving up the subtasks not submitted keeps the task consistent, freed or silenced |
| `Tasks.CompleteOk` | FatPkg/EnhancedFatDxe/Misc.c:247-293 | A completion keeps the task consistent, signalled at the last subtask or the first failure |
| `Tasks.Progress` | FatPkg/EnhancedFatDxe/Misc.c:72-84 | While the list is not empty something can happen, and whatever happens to a task brings it nearer to its end, so waiting ends |
| `Tasks.IFile.QueueTask` | FatPkg/EnhancedFatDxe/Misc.c:121-145 | The invariant is kept; a task without subtasks is signalled and freed at once |
| `Tasks.IFile.SubmitNext` | FatPkg/EnhancedFatDxe/Misc.c:160-183 | The submitted link is a listed subtask of a live task, and the invariant is kept |
| `Tasks.IFile.AdvanceLoop` | FatPkg/EnhancedFatDxe/Misc.c:155-158 | The link the loop moves to is a listed subtask of a task that is alive, not submitted and not completed, or every subtask was accepted and the call returns success; the invariant is kept |
| `Tasks.LinkIsLive` | FatPkg/EnhancedFatDxe/Misc.c:155-183 | In every reachable state the link about to be submitted is listed, its task is not freed, and it is neither outstanding nor completed |
| `Tasks.IFile.CleanUpTask` | FatPkg/EnhancedFatDxe/Misc.c:184-209 | Only subtasks submitted stay; without any the task is freed, else its token is taken away; the invariant is kept |
| `Tasks.IFile.DestroyFrom` | FatPkg/EnhancedFatDxe/Misc.c:184-199 | Destroying one by one leaves exactly the listed subtasks below the refused one |
| `Tasks.IFile.OnAccessComplete` | FatPkg/EnhancedFatDxe/Misc.c:247-293 | A completion finds its task alive and itself listed, signals at the last subtask or the first failure, and keeps the invariant |
| `References.OpenFiles.CheckVolumeRef` | FatPkg/EnhancedFatDxe/Flush.c:328-356 | Ends with an empty check list; what stays open is exactly what has an open handle at or below it, and every dirty file that was freed has been written to its directory |
| `References.OpenFiles.CheckOFileRef` | FatPkg/EnhancedFatDxe/Flush.c:288-316 | Writes the file if dirty, leaves it and all above it clean, and frees it exactly when neither a handle nor a child refers to it |
| `References.OpenFiles.CloseDirEnt` | FatPkg/EnhancedFatDxe/DirectoryManage.c:1200-1230 | Only that file goes, and its parent loses it as a child |
| `References.OpenFiles.FlushUp` | FatPkg/EnhancedFatDxe/Flush.c:214-274 | No file on the way up to the root is dirty afterwards, each that was is written to its directory, and nothing else changes |
| `References.OpenFiles.OpenDirEnt` | FatPkg/EnhancedFatDxe/DirectoryManage.c:1126-1191 | One open file per entry: the one there is, or a new child waiting to be checked |
| `References.OpenFiles.AddHandle` | FatPkg/EnhancedFatDxe/Open.c:23-60 | One more handle on the file |
| `References.OpenFiles.CloseHandle` | FatPkg/EnhancedFatDxe/Flush.c:170-201 | That one handle is taken out of its file's list, all others and all other files stay as they are, and the file waits on the check list |
| `References.OpenFiles.OpenVolume` | FatPkg/EnhancedFatDxe/OpenVolume.c:23-58 | The root has one more handle; nothing in use is freed; nothing unreferenced is left |
| `References.OpenFiles.Open` | FatPkg/EnhancedFatDxe/Open.c:84-173 | The handle is on the file that the name leads to from the start, each named file a child of the one before it, and exists exactly when the name was found and did not climb above the root; it and all files above are clean then; files opened before stay, and no file of the walk is left unreferenced |
| `References.OpenFiles.WalkOne` | FatPkg/EnhancedFatDxe/DirectoryManage.c:1255-1380 | One component: the parent, or the child that is the file of the entry found; `..` stops at the root |
| `References.SameParent` | FatPkg/EnhancedFatDxe/DirectoryManage.c:1126-1191 | The open file of an entry is a child of the open file of the directory the entry lies in |
| `References.LeadsFurther` | FatPkg/EnhancedFatDxe/Open.c:84-173 | Opening one more component keeps the way walked so far, child by child |
| `References.OpenFiles.Close` | FatPkg/EnhancedFatDxe/Flush.c:125-159 | The one handle goes, all others stay on their files, and exactly the files that then have no handle at or below them are freed, those that were dirty having been written to their directories |
| `References.ExactlyInUse` | FatPkg/EnhancedFatDxe/Flush.c:328-356 | Freeing only files without handles until none is unreferenced leaves exactly the files in use |
| `References.ReferencedInUse` | FatPkg/EnhancedFatDxe/Flush.c:328-356 | A tree without unreferenced files has a handle below every file |
| `FatNames.ShortNameRoundTrip` | FatPkg/EnhancedFatDxe/FileName.c:288-365 | An 8.3 name in one case per part comes back from its short name and case flag |
| `FatNames.ShortBytesAreNames` | FatPkg/EnhancedFatDxe/FileName.c:24-97 | No short name begins like a free or a deleted slot |
| `FatNames.CaseBlind` | MdeModulePkg/Universal/Disk/UnicodeCollation/EnglishDxe/UnicodeCollationEng.c:181-197 | ASCII names are the same exactly when they differ at most in the case of letters |
| `FatNames.LegalAscii` | MdeModulePkg/Universal/Disk/UnicodeCollation/EnglishDxe/UnicodeCollationEng.c:102-122 | Which ASCII characters a short name may hold |
| `FatNames.EightDotThree` | FatPkg/EnhancedFatDxe/FileName.c:24-97 | A name is an 8.3 name exactly when it is one to eight legal characters, and perhaps a dot and up to three more |
| `FatNames.CandidateShape` | FatPkg/EnhancedFatDxe/FileName.c:167-232 | The first four names tried keep at most six bytes and end the main part in `~1` to `~4`; the later ones keep two, followed by four digits, `~` and a counter |
| `FatNames.FatByteExactly` | MdeModulePkg/Universal/Disk/UnicodeCollation/EnglishDxe/UnicodeCollationEng.c:431-467 | Which byte a letter, a digit or an illegal character becomes in a short name |
| `FatNames.DotsIgnored` | MdeModulePkg/Universal/Disk/UnicodeCollation/EnglishDxe/UnicodeCollationEng.c:431-467 | Dots and blanks anywhere in a name make no difference to its bytes |
| `FatNames.FatToStrStops` | MdeModulePkg/Universal/Disk/UnicodeCollation/EnglishDxe/UnicodeCollationEng.c:393-411 | The text of a FAT name is exactly its bytes before the first NUL |
| `FatNames.CaseFlagSamples` | FatPkg/EnhancedFatDxe/FileName.c:330-365 | One short name under the case flags 0, 0x08 and 0x10 |
| `FatNames.HashDigits` | FatPkg/EnhancedFatDxe/FileName.c:215-226 | Which hexadecimal digits of the name's checksum those are |
| `DirSlots.LfnRoundTrip` | FatPkg/EnhancedFatDxe/DirectoryManage.c:97-127 | Thirteen characters come back from a long-name slot, with its ordinal, attribute and checksum |
| `DirSlots.LfnLayout` | FatPkg/EnhancedFatDxe/FatFileSystem.h:195-204 | Byte by byte what a long-name slot is: exactly these places hold ordinal, marks, checksum and the characters, low byte first |
| `DirSlots.CheckSumTurns` | FatPkg/EnhancedFatDxe/FileName.c:376-390 | Each byte of the short name is added to the sum turned right by one bit, which bit by bit fixes the checksum |
| `DirSlots.ComputeCheckSum` | FatPkg/EnhancedFatDxe/FileName.c:376-390 | The loop computes the checksum that all slots are compared with |
| `DirSlots.SampleCheckSum` | FatPkg/EnhancedFatDxe/FileName.c:376-390 | The checksum of `LONGNA~1.TXT` is 0xF4 |
| `DirSlots.LoadsForeign` | FatPkg/EnhancedFatDxe/DirectoryManage.c:228-302 | Any long name in slots that another system wrote for `LONGNA~1.TXT`, with the checksum 0xF4, is loaded |
| `DirSlots.LoadExactly` | FatPkg/EnhancedFatDxe/DirectoryManage.c:228-302 | For any slots: those in front of an entry with the numbers from 1 to a marked one, its checksum and the other marks of long-name slots, at most 20, are its name and count; without them its short name is the name |
| `DirSlots.SlotKinds` | FatPkg/EnhancedFatDxe/DirectoryManage.c:362-390 | Which slots a scan skips, takes for an entry, or ends at |
| `DirSlots.Store` | FatPkg/EnhancedFatDxe/DirectoryManage.c:62-130 | Writing slot by slot leaves exactly the entry and its long-name slots, in order, and no other slot changed |
| `DirSlots.StoredSlot` | FatPkg/EnhancedFatDxe/DirectoryManage.c:62-130 | What each written long-name slot holds: number and end mark or the mark of deletion, the checksum, and its 13 characters of name, NUL and filling |
| `DirSlots.StoreLoad` | FatPkg/EnhancedFatDxe/DirectoryManage.c:228-302 | A stored entry is loaded with the same name and slot count exactly when no stray long-name slot is taken for its first |
| `DirSlots.ChainOfStored` | FatPkg/EnhancedFatDxe/DirectoryManage.c:228-302 | The load loop collects the whole name in order from the slots the store loop wrote |
| `DirSlots.DeletedIsSkipped` | FatPkg/EnhancedFatDxe/DirectoryManage.c:1086-1112 | After a removal a scan skips every slot the entry used |
| `Directory.ValidNameRoundTrip` | FatPkg/EnhancedFatDxe/DirectoryManage.c:640-687 | Every valid name of 1 to 255 characters comes back from the slots written for it, exactly when it is not one slot behind a stray long-name slot with its checksum |
| `Directory.NameLost` | FatPkg/EnhancedFatDxe/DirectoryManage.c:228-302 | The name A stored behind a stray long-name slot with its checksum is read back as that slot's characters |
| `DirScan.ScanIsOrdered` | FatPkg/EnhancedFatDxe/DirectoryManage.c:338-426 | Whatever the slots hold, the entries found are ordered and their slot ranges disjoint |
| `DirScan.LoadAfterLive` | FatPkg/EnhancedFatDxe/DirectoryManage.c:228-302 | An entry's long-name slots never reach back over another entry |
| `DirScan.LoadLocal` | FatPkg/EnhancedFatDxe/DirectoryManage.c:228-302 | An entry depends on its own slots, and on the one before only while that is a long-name slot |
| `DirScan.RewrittenScan` | FatPkg/EnhancedFatDxe/DirectoryManage.c:62-130 | Rewriting one entry's slots changes what a scan finds at that entry and nowhere else |
| `DirChange.AppendScan` | FatPkg/EnhancedFatDxe/DirectoryManage.c:839-890 | A scan finds the appended entry behind all others, and then the end |
| `DirChange.InsertScan` | FatPkg/EnhancedFatDxe/DirectoryManage.c:766-825 | A scan finds an entry put into a gap at its place among the others |
| `DirChange.RemoveScan` | FatPkg/EnhancedFatDxe/DirectoryManage.c:1086-1112 | A scan finds the others, in order, without the removed entry |
| `DirPlace.SeekVolumeId` | FatPkg/EnhancedFatDxe/DirectoryManage.c:719-749 | The first volume label before the end of the directory |
| `DirPlace.LabelExactly` | FatPkg/EnhancedFatDxe/DirectoryManage.c:719-749 | Which slot is the label: the first undeleted one with the volume attribute, and at most the archive one besides, before one never used |
| `DirPlace.FirstFit` | FatPkg/EnhancedFatDxe/DirectoryManage.c:766-825 | The loop finds the first gap that is large enough and clear of the label, else the space behind the last child, and fails exactly when that is too small |
| `DirPlace.FitIsFirst` | FatPkg/EnhancedFatDxe/DirectoryManage.c:800-825 | The place is in the first gap that is large enough and clear of the label, behind the last child if there is none |
| `DirPlace.FitIsFree` | FatPkg/EnhancedFatDxe/DirectoryManage.c:800-825 | The place lies between its neighbours and below the end; in front of a child it never covers the label |
| `DirPlace.FitFails` | FatPkg/EnhancedFatDxe/DirectoryManage.c:800-825 | It fails exactly when every gap is too small or holds the label, and the space behind the last child is too small |
| `DirPlace.TailIgnoresLabel` | FatPkg/EnhancedFatDxe/DirectoryManage.c:817-825 | The label is overwritten exactly when no gap in front of a child suits and it is among the slots then taken behind the last child |
| `DirPlace.LabelOverwritten` | FatPkg/EnhancedFatDxe/DirectoryManage.c:817-825 | The slots of a root directory in which that happens |
| `Directory.OverwriteLabel` | FatPkg/EnhancedFatDxe/DirectoryManage.c:839-890 | A sequence of calls: loading that directory and asking for two slots gives the slots of the label away |
| `DirHash.InsertIndexes` | FatPkg/EnhancedFatDxe/Hash.c:125-148 | Both tables still hold exactly the child list, each entry once, in the bucket of its hash |
| `DirHash.DeleteIndexes` | FatPkg/EnhancedFatDxe/Hash.c:158-166 | With unique names, splicing out the first match takes out exactly the entry |
| `DirHash.SearchFinds` | FatPkg/EnhancedFatDxe/Hash.c:69-115 | A search through one bucket is a search through the whole list |
| `Directory.ODir.LoadNext` | FatPkg/EnhancedFatDxe/DirectoryManage.c:338-426 | The next entry, under its long name where its slots carry one, joins list and tables, or the end is reached; the list is what a scan up to there finds |
| `Directory.ODir.GetNext` | FatPkg/EnhancedFatDxe/DirectoryManage.c:589-630 | The cursor moves to the next child, or to the end, and CurrentPos stays behind all children passed |
| `Directory.ODir.ReadDir` | FatPkg/EnhancedFatDxe/ReadWrite.c:119-174 | A read yields the lowest entry at or behind the handle's own position, whatever other handles did to the cursor; a too small buffer leaves the position |
| `Directory.ODir.SkipTo` | FatPkg/EnhancedFatDxe/ReadWrite.c:143-157 | The loop stops at the lowest entry at or behind the slot asked for, or at the end of the directory |
| `Directory.ODir.ReadInterleaved` | FatPkg/EnhancedFatDxe/ReadWrite.c:119-174 | Any number of handles reading in any order: each gets every entry once, in order, then the end |
| `Directory.NextIsNth` | FatPkg/EnhancedFatDxe/ReadWrite.c:119-174 | The entry after the j-th position is the j-th entry |
| `Directory.ODir.SearchODir` | FatPkg/EnhancedFatDxe/DirectoryManage.c:504-556 | Nothing is found exactly when a linear scan of the whole directory finds no long or short match |
| `Directory.ODir.CreateShortName` | FatPkg/EnhancedFatDxe/FileName.c:167-232 | The first of the candidates that no entry has, provided there is one |
| `Directory.NextCandidate` | FatPkg/EnhancedFatDxe/FileName.c:199-231 | Counting up and switching to the checksum in place gives the next candidate |
| `Directory.SmallDirectoryHasCandidate` | FatPkg/EnhancedFatDxe/FileName.c:167-232 | With fewer than 256 entries one candidate is free, so the search for one ends |
| `Directory.CandidatesRepeat` | FatPkg/EnhancedFatDxe/FileName.c:199-231 | The candidates come round after 256 |
| `Directory.SearchNeverEnds` | FatPkg/EnhancedFatDxe/FileName.c:167-232 | All candidates there ever are are taken, so that the search does not end, exactly when the first 260 are |
| `Directory.AllCandidatesTaken` | FatPkg/EnhancedFatDxe/FileName.c:167-232 | A directory of 260 files in which that is so |
| `Directory.ODir.SetEntryCount` | FatPkg/EnhancedFatDxe/DirectoryManage.c:640-687 | The entry is storable in the slots counted, its fields follow from name and attributes, and its short name is the one of the name or the first free candidate |
| `Directory.ODir.InsertByFirstFit` | FatPkg/EnhancedFatDxe/DirectoryManage.c:766-825 | The first fit for the label's position, which is a gap between children and, in front of a child, clear of the label; full exactly when there is none |
| `Directory.ODir.NewEntryPos` | FatPkg/EnhancedFatDxe/DirectoryManage.c:839-890 | Which of four outcomes it is, and the slot and list position: behind the end, in a new cluster, the first fit, or full with nothing changed; 16-bit positions suffice |
| `Directory.ODir.CreateDirEnt` | FatPkg/EnhancedFatDxe/DirectoryManage.c:1026-1073 | Whether there is place, exactly which entry is made where, and the slots afterwards; list, tables, names and slots agree again with one more entry of that name unless it is mistaken for one with a long name, and the cursor stays on its child; or nothing changed |
| `Directory.ODir.OpenOrCreate` | FatPkg/EnhancedFatDxe/Open.c:117-134 | The entry of that name when a scan of the directory has one, whatever candidates are taken; else, exactly if there is place, a new entry in its slots, which the scan then finds at its place unless it is mistaken; or a full volume and no change |
| `Directory.ODir.RemoveDirEnt` | FatPkg/EnhancedFatDxe/DirectoryManage.c:1086-1112 | List, tables, names and slots agree again without the entry, a scan finds the others in order, its slots are all skipped, all others untouched; the cursor stays on its child, or goes back to the one before the removed one |
| `DirRuns.RunAll` | FatPkg/EnhancedFatDxe/DirectoryManage.c:504-1112 | Every run of listing, finding, creating and removing in one open directory of any size is the run of an ordered list of entries that slots and calls determine, up to a new entry that is mistaken for one with a long name or a search for a short name that does not end |
| `DirRuns.Call` | FatPkg/EnhancedFatDxe/DirectoryManage.c:504-1112 | One call that ends: what it answers, when it is refused for lack of place, and what it does to list and slots; only a mistaken entry breaks the agreement of list, tables and slots |
| `DirRuns.NotStuck` | FatPkg/EnhancedFatDxe/FileName.c:167-232 | A call is endless exactly when its name is new, needs a generated short name, and every candidate there ever is is held; the first 260 decide |
| `PeiCache.Reader.ReadDisk` | FatPkg/FatPei/FatLiteLib.c:224-293 | Succeeds exactly when every block it touches can be read, then returns exactly the bytes there and leaves every touched slot right, partitions read through their parents included; otherwise exactly what a failed fill leaves |
| `PeiCache.Reader.GetCacheBlock` | FatPkg/FatPei/FatLiteLib.c:132-208 | Succeeds exactly when the block can be read; the slot then holds it, though filling it may relabel it, and nothing changes if one did before; and exactly what a failed fill leaves |
| `PeiCache.Reader.ReadBlocks` | FatPkg/FatPei/FatLiteLib.c:56-115 | With the range check as computed in 64 bits: whole blocks, of a partition through its parent, exactly when all can be read |
| `PeiCache.Reader.ReadRest` | FatPkg/FatPei/FatLiteLib.c:258-290 | Whole blocks and the overrun are the bytes from the block boundary on |
| `PeiCache.RoomWraps` | FatPkg/FatPei/FatLiteLib.c:75 | The wrapping range check refuses exactly the accesses that start no more than one block behind the last one and run over the end |
| `PeiCache.PartitionBlocks` | FatPkg/FatPei/FatLiteLib.c:75-111 | That check and the parent together let through exactly the blocks that can be read |
| `PeiCache.ReachIsRun` | FatPkg/FatPei/FatLiteLib.c:56-115 | The number of blocks that can be read in a row: so many can, and the next one cannot |
| `PeiCache.ServedInside` | FatPkg/FatPei/FatLiteLib.c:224-293 | An access that starts at most one block behind a device's readable blocks succeeds exactly if it starts and ends inside them, and finds the device's bytes |
| `PeiCache.ServedByParent` | FatPkg/FatPei/FatLiteLib.c:75-111 | A partition serves what its parent serves, less what touches the one block behind its end: starting further behind, the parent's bytes come back |
| `PeiCache.BehindThePartition` | FatPkg/FatPei/FatLiteLib.c:75-111 | A disk and a partition where the block behind the end fails and the next one is the disk's |
| `PeiCache.ParentWindow` | FatPkg/FatPei/FatLiteLib.c:101-111 | The bytes at a place of a partition are those at the shifted place of its parent |
| `PeiCache.Filled` | FatPkg/FatPei/FatLiteLib.c:179-205 | A slot that was wrong while being filled ends right, relabelled or not |
| `PeiCache.FailedFill` | FatPkg/FatPei/FatLiteLib.c:179-202 | After a fill that failed, its parents' failed fills included, all valid slots are right exactly when a slot was still unused |
| `PeiCache.WrongAfterFailure` | FatPkg/FatPei/FatLiteLib.c:179-202 | With a whole disk cached, a failed read leaves the label of the missing block on another block's bytes |
| `PeiCache.SuccessKeepsRight` | FatPkg/FatPei/FatLiteLib.c:224-293 | Slots that are all right stay all right over every call that succeeds |
| `PeiFile.NextAgrees` | FatPkg/FatPei/FatLiteAccess.c:184-247 | Reader and driver agree on every FAT entry and on which values end a chain |
| `PeiFile.File.GetNextCluster` | FatPkg/FatPei/FatLiteAccess.c:184-247 | The value of the entry in 32 bits |
| `PeiFile.File.WalkTo` | FatPkg/FatPei/FatLiteAccess.c:286-307 | The cluster of the position, or the end of the chain when there is none |
| `PeiFile.File.MeasureRun` | FatPkg/FatPei/FatLiteAccess.c:310-332 | The consecutive clusters from the current one on are straight and inside the chain |
| `PeiFile.File.SetFilePos` | FatPkg/FatPei/FatLiteAccess.c:263-337 | Positioned there exactly when the chain reaches so far, or the fixed root directory does; else an error, the position as before, and the number that ended the chain as the cluster |
| `PeiFile.File.ReadFile` | FatPkg/FatPei/FatLiteAccess.c:353-422 | Exactly the chain's bytes from the position on; what is asked for beyond the chain, then or in later calls, comes from the place of the number that ended it, over and over, and succeeds exactly if that place can be read |
| `PeiFile.ReadFullDirectory` | FatPkg/FatPei/FatLiteAccess.c:353-422 | Three calls on a directory that fills its cluster: its entry is read, and the read of the next one fails |
| `PeiFile.File.ReadPiece` | FatPkg/FatPei/FatLiteAccess.c:393-418 | One turn of the loop: the rest of a run of the chain, or what lies at the far place |
| `PeiFile.File.ReadRoot` | FatPkg/FatPei/FatLiteAccess.c:371-388 | The bytes of the fixed root directory, exactly when the place is inside the device, also for no bytes; or an error beyond the directory |
| `GdbPacket.Dialogue` | EmbeddedPkg/GdbStub/GdbStub.c:275-390 | Frames damaged detectably and then one intact: the receiver ends with the payload, and its answers make the sender send exactly that many |
| `GdbPacket.ReceivesFrame` | EmbeddedPkg/GdbStub/GdbStub.c:333-390 | The payload comes through after any noise without a start mark and any abandoned packets |
| `GdbPacket.ReceivesExactlyShort` | EmbeddedPkg/GdbStub/GdbStub.c:354-370 | A framed payload is received as sent exactly when it is shorter than the buffer less its NUL |
| `GdbPacket.RefusesDamage` | EmbeddedPkg/GdbStub/GdbStub.c:372-387 | A frame whose checksum does not fit is answered with a refusal and skipped |
| `GdbPacket.ReceivesAfterDamage` | EmbeddedPkg/GdbStub/GdbStub.c:333-390 | Each damaged frame is refused once and the next intact one accepted |
| `GdbPacket.AttemptsUntilAck` | EmbeddedPkg/GdbStub/GdbStub.c:275-314 | The sender stops at the first acknowledgement or when its retries are used up |
| `GdbPacket.EscapedTextArrives` | EmbeddedPkg/GdbStub/GdbStub.c:783-815 | An escaped text that fits is received as sent and unescapes to the original |
| `GdbPacket.EscapeIsPlain` | EmbeddedPkg/GdbStub/GdbStub.c:798-808 | Escaped text holds no mark that ends or restarts a packet |
| `GdbPacket.UnescapeAfterEscape` | EmbeddedPkg/GdbStub/GdbStub.c:798-808 | Unescaping undoes escaping |
| `GdbPacket.HexRoundTrip` | EmbeddedPkg/GdbStub/GdbStub.c:303-306 | The two checksum digits parse to the checksum |
| `GdbPacket.DigitPairs` | EmbeddedPkg/GdbStub/GdbStub.c:368-372 | Two hexadecimal digits in either case are worth sixteen times the first and the second |
| `GdbPacket.OddPairs` | MdePkg/Library/BaseLib/SafeString.c:2342-2420 | What any other two characters are worth where the checksum is expected |
| `GdbPacket.CheckSumAdds` | EmbeddedPkg/GdbStub/GdbStub.c:290-302 | The checksum of two parts is the sum of theirs, without the carry out of eight bits |
| `GdbPacket.OkPacket` | EmbeddedPkg/GdbStub/GdbStub.c:275-314 | What goes over the line for `OK` |
| `GdbPacket.EscapedChars` | EmbeddedPkg/GdbStub/GdbStub.c:798-808 | Which four characters are escaped, and as what |
| `GdbPacket.Port.SendPacket` | EmbeddedPkg/GdbStub/GdbStub.c:275-314 | As many frames as the answers call for, and the length of the last |
| `GdbPacket.Port.ReceivePacket` | EmbeddedPkg/GdbStub/GdbStub.c:333-390 | The buffer ends with the payload and a NUL, with the answers sent on the way |
| `GdbPacket.Port.XferRead` | EmbeddedPkg/GdbStub/GdbStub.c:783-815 | The frames of the escaped text |

## Left out

- ReadWrite.Handle.Write: the bytes between the old end of the file and a position behind it are left open, as the code does not zero them; the copy of size and first cluster into the directory entry is left out.
- FileSpace.FatVolume.GrowEof: a cyclic chain, on which the walk to the last cluster does not end, and a refused chain that ends at a 1; of a refused chain that ends beyond the last entry only the answer and the file size are stated here, the rest by `FileSpace.FatVolume.ShrinkEof`.
- FileSpace.FatVolume.FreeClusters: a walk that comes to 1, which need not end; on FAT12, after the walk has left the volume, the value table is stated only through the bytes.
- FileSpace.FatVolume.ShrinkChain: of a chain that ends beyond the last entry nothing but that the volume stays consistent; `FileSpace.FatVolume.ShrinkEof` states it.
- PeiFile.File.SetFilePos: a cluster chain of 4 GB or more, whose positions no longer fit the 32 bits of the reader.
- PeiCache.Reader.ReadDisk: positions whose distance from the start of the disk exceeds 64 bits.
- Directory.ODir.CreateDirEnt: the entries `.` and `..`, which take their slot data from open files, are not created here; an unlabelled root directory and the label entry itself are covered only through the slots.
- Directory.ODir.LoadNext: the high cluster word, which the driver clears in memory on FAT12 and FAT16, is left as read.
- Tasks.IFile.AdvanceLoop: the read of the list head after the last submission, whose value is not used, is left out.
- DiskCache.Volume.Run: failed transfers and accesses with a task, for which the overlay of dirty pages precedes the queued read.
- ReadWrite.Handle.Read: a handle on a deleted file, and errors of a file that come from elsewhere than from its own accesses.
- References.OpenFiles.Open: permanent errors of open files, memory exhaustion and the cache of discarded directories.
- References.OpenFiles.Close: rename between directories, which moves an open file without checking its old parent.
- User buffers are values; aliasing between a caller's buffer and the caches is not modelled. Cache pages and tags are sequences in fields.
- Times, dates, locks, events and protocol installation: platform services.
- Growth of a directory with clusters of fewer than 21 slots, where one added cluster may not hold the new entry.
- Volume mount and its field checks, volume label changes, file information and rename in `Info.c`: they move fields between structures and call the operations modelled here.
- Partition discovery and boot sector parsing in the recovery module, and partitions with a block size of their own.
- Register access, breakpoints and memory transfer in the GDB stub, and the type letter of a library response, which the code overwrites.
- One statement over all layers at once: each is proved over the flat bytes, values or slots that the one below is proved to provide.
