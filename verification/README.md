# OTGMaster storage core: a model in Dafny

This project models the parts of OTGMaster that decide where bytes end up and whether they
come back: the exFAT writer, the memory schedule of Argon2, and the sector ciphers used for
BitLocker and VeraCrypt volumes. Each part is stated against a plain meaning and proved for
all inputs, all runs or all reachable states.

* **exFAT clusters and file content** (`Bitmap`, `Chains`, `Content`, `Volume`, `FileIO`,
  `FileRuns`). A volume is a bitmap, a FAT and a cluster heap, changed in place. The chains of
  all files partition the heap; growing is all or nothing; reads, writes and truncations refine
  plain byte sequences; merged device writes equal one write per cluster; any run of new files,
  truncations and writes is a replay on plain bytes.
* **exFAT directories** (`DirEntries`, `DirLayout`, `DirNodes`, `DirSlots`, `Directory`,
  `DirLookup`, `DirRuns`, `DirReading`, `DirStore`, `DirVolume`, `NodeState`, `RootDirectory`, `Utf`,
  `Timestamps`). Entry sets are bytes with a type automaton and a checksum. Children form a
  doubly linked list. Creating, renaming, deleting and flushing keep every set readable, apart
  from the others and inside the directory; any run of them is a replay on plain records that
  keeps names unique; and a fresh read finds exactly the children. The same operations run on
  the volume through the file layer.
* **Argon2** (`ArgonIndex`, `ArgonFill`, `ArgonThreads`, `ArgonMemory`, `ArgonBase64`,
  `ArgonText`). The threads are a state machine; every interleaving ends in the memory of the
  sequential fill. The text form decodes exactly to the context it was made from.
* **Sector ciphers** (`Serpent`, `SerpentBlock`, `Diffuser`, `BitLocker`, `Xts`, `Cascade`).
  Serpent's register code computes the published rounds and is invertible for every key
  schedule; the Elephant diffusers, XTS and the cascades undo themselves in place.
* Shared ground: `Basics`, `Arithmetic`, `BitWords`, `Machine`.

Some properties one might expect do not hold of the code, and each is stated with the exact
condition under which it does: a write past the valid size (`FileIO.WriteIsExact`), truncation
with a 32-bit cluster count (`FileIO.TruncateAnySize`), shrinking a directory by name length
(`Directories.ShrinkDirectory`, `Directories.ShrinkKeepsSetIff`), an entry set without a name
(`DirEntries.CommitEntries`, `DirEntries.RenameEntries`), equal lengths of names that compare
equal (`DirLookup.LengthsAgreeIff`) and, with it, renames that change all or nothing
(`DirRuns.AllOrNothingIff`), timestamps under odd timezones (`Timestamps.UnixToExfat`)
and dates after February 2100 (`Timestamps.GregorianIff`). Besides, a slot past the end of the
root directory is taken without looking at the disk (`DirSlots.RootSlotMayBeLive`,
`DirSlots.ExtendedClearIff`); a write that runs out of space may already have extended the file
to its offset (`FileIO.PrepareWrite`); a node truncated to nothing may still be marked
contiguous in memory, while its entry is not (`DirEntries.FlushEntries`).

## Model

| member | source | states |
|---|---|---|
| Bitmaps.Bitmap.FindBitAndSet | app/src/main/cpp/exfat/cluster.c:114-137 | Between `start` and `end` the lowest clear bit is set and its cluster returned; if all are set, the end marker is returned and nothing changes. |
| Volumes.Volume.AdvanceCluster | app/src/main/cpp/exfat/cluster.c:92-112 | Gives cluster number `count` of the file from any state of the cached file pointer, which then rests on that cluster. |
| Volumes.Volume.AllocateCluster | app/src/main/cpp/exfat/cluster.c:194-213 | Takes the nearest free cluster at or after the hint, wrapping around once; the end marker exactly when none is free. |
| Volumes.Volume.SetNextCluster | app/src/main/cpp/exfat/cluster.c:174-192 | Writes one FAT entry unless the file is contiguous; chains that do not hold the cluster stay recorded. |
| Volumes.Volume.MakeNoncontiguous | app/src/main/cpp/exfat/cluster.c:225-234 | Links a contiguous chain in the FAT and leaves every other chain recorded. |
| Volumes.Volume.ExtendFile | app/src/main/cpp/exfat/cluster.c:275-296 | Appends one cluster, giving up contiguity if it does not follow the last one; all chains stay disjoint and in step with the bitmap. |
| Volumes.Volume.GrowFile | app/src/main/cpp/exfat/cluster.c:239-302 | Adds all the clusters asked for or none: out of space exactly when too few are free, and then chains and bitmap are as before, even if the file was relinked midway. |
| Volumes.Volume.ShrinkFile | app/src/main/cpp/exfat/cluster.c:304-359 | The file keeps its first clusters; the cut ones become free in the bitmap, and in the FAT unless the file is contiguous; no other chain changes. |
| Chains.AppendKeepsPartition | app/src/main/cpp/exfat/cluster.c:194-213 | Appending a cluster whose bit was clear keeps chains disjoint, duplicate-free and in step with the bitmap. |
| Chains.CutKeepsPartition | app/src/main/cpp/exfat/cluster.c:304-359 | Cutting a chain keeps the partition, the cut clusters being accounted for until they are freed. |
| Chains.FreeKeepsPartition | app/src/main/cpp/exfat/cluster.c:215-223 | Clearing the bit of a pending cluster keeps the partition. |
| Chains.PartitionFixesBits | app/src/main/cpp/exfat/cluster.c:239-302 | The chains and the reserved clusters determine the bitmap, so a rolled-back allocation restores it exactly. |
| Chains.Conservation | app/src/main/cpp/exfat/cluster.c:445-454 | Free clusters, clusters on chains and reserved clusters add up to the cluster count. |
| Chains.OwnPlusFree | app/src/main/cpp/exfat/cluster.c:406-443 | While the other chains stay, clusters only move between one file and the free set. |
| FileIO.CountFreeClusters | app/src/main/cpp/exfat/cluster.c:445-454 | The count is the number of clear bits, and with chains and reserved clusters it makes up the heap. |
| FileIO.ClusterCountExact | app/src/main/cpp/exfat/cluster.c:67-71 | The 32-bit cluster count is the true one if and only if the size is at most 2^32 - 1 clusters. |
| FileIO.ClusterCountWraps | app/src/main/cpp/exfat/cluster.c:67-71 | A size of 2^32 whole clusters counts as zero clusters. |
| FileIO.TruncateAnySize | app/src/main/cpp/exfat/cluster.c:406-443 | Truncation to any 64-bit size without erasing leaves a consistent volume if and only if the size is at most 2^32 - 1 clusters. |
| Content.Geometry.PositionInjective | app/src/main/cpp/exfat/cluster.c:50-53 | Different bytes of one file lie at different places of the heap. |
| Content.Geometry.PositionDisjoint | app/src/main/cpp/exfat/cluster.c:50-53 | Bytes of two files with disjoint chains lie at different places. |
| Content.Geometry.RunWrote | app/src/main/cpp/exfat/io.c:288-323 | One device write over clusters with consecutive numbers writes exactly those bytes of the file. |
| Content.Geometry.PerClusterWrote | app/src/main/cpp/exfat/io.c:288-323 | One device write per cluster writes the same request: the reference the merged writes are held against. |
| Content.Geometry.WroteUnique | app/src/main/cpp/exfat/io.c:288-323 | The heap after a write is determined by the file, the offset and the data. |
| FileIO.GatherRun | app/src/main/cpp/exfat/io.c:288-323 | Gathers a run of consecutive clusters up to the run limit and leaves the cluster after it. |
| FileIO.WriteRuns | app/src/main/cpp/exfat/io.c:28-323 | Merged device writes leave the heap one write per cluster would leave, cover every byte of the request once and in order, and none is longer than the run limit less one plus a cluster. |
| FileIO.EraseRange | app/src/main/cpp/exfat/cluster.c:371-404 | Zeroes the range on disk and less than a cluster after it, up to the end of the last cluster it enters. |
| FileIO.ResizedView | app/src/main/cpp/exfat/cluster.c:406-443 | Changing the chain and zeroing from the old valid size on resizes what the file reads as. |
| FileIO.Truncate | app/src/main/cpp/exfat/cluster.c:406-443 | On the plain bytes a cut or an extension by zeros, with or without erasing; out of space exactly when clusters do not suffice, and then bitmap, chains, sizes, start cluster and heap are as before; every other file reads as before. |
| FileIO.AddFile | app/src/main/cpp/exfat/node.c:120-130 | A new node owns no cluster, reads as empty and changes no other file. |
| FileRuns.Run | app/src/main/cpp/exfat/cluster.c:406-443 | Any run of new files, truncations and writes has the results, and leaves the bytes, valid sizes and free clusters, of a replay on plain bytes; only stale bytes that a write brings to light come from the disk. |
| FileRuns.CoveredRunIsPlain | app/src/main/cpp/exfat/io.c:255-329 | A run in which no write starts between the valid size and the end has one outcome, whatever lies on the disk. |
| FileIO.Read | app/src/main/cpp/exfat/io.c:191-253 | Returns the slice of the file that exists at the offset, from any state of the cached pointer, with zeros past the valid size. |
| FileIO.PrepareWrite | app/src/main/cpp/exfat/io.c:255-283 | Makes room for a write; without space no byte changes, except that a write past the end may already have extended the file to its offset. |
| FileIO.Write | app/src/main/cpp/exfat/io.c:255-329 | After a successful write the file reads as the write means, up to stale bytes between valid size and offset; no other file changes. |
| FileIO.WriteIsExact | app/src/main/cpp/exfat/io.c:255-329 | The write means exactly overwriting with zero extension if and only if the request is empty, starts at or below the valid size or past the end, or the gap is zero on disk. |
| FileIO.GapShowsStaleBytes | app/src/main/cpp/exfat/io.c:255-329 | On an empty volume a new file is extended without erasing and written inside: it reads a stale byte. |
| NodeState.FileIsSound | app/src/main/cpp/exfat/node.c:209-294 | Whatever truncating and writing make of a file on a consistent volume, its node as stored meets the consistency conditions and fits its fields. |
| DirEntries.CheckEntries | app/src/main/cpp/exfat/node.c:165-207 | Accepts exactly FILE, INFO, one or more NAME and any number of tail entries. |
| DirEntries.StartChecksum | app/src/main/cpp/exfat/utils.c:56-79 | The sum over the first entry without its checksum field. |
| DirEntries.CalcChecksum | app/src/main/cpp/exfat/utils.c:56-95 | The sum over all bytes of the set but the checksum field. |
| DirEntries.ChecksumIgnoresItself | app/src/main/cpp/exfat/utils.c:70-79 | The checksum does not depend on the field that holds it. |
| DirEntries.ParseFileEntries | app/src/main/cpp/exfat/node.c:144-334 | Succeeds exactly for readable sets (types, counts, flags, checksum, consistency) and gives their fields and name. |
| DirEntries.WriteName | app/src/main/cpp/exfat/node.c:936-945 | The name entries hold the name: reading their units up to the first zero gives it back. |
| DirEntries.CommitEntries | app/src/main/cpp/exfat/node.c:905-947 | The set written for a new file is readable if and only if the name is not empty, and then describes that empty file under its name. |
| DirEntries.RenameEntries | app/src/main/cpp/exfat/node.c:1036-1073 | The set written on renaming is readable if and only if the name is not empty, and then differs from the old description in name and entry count only. |
| DirEntries.FlushEntries | app/src/main/cpp/exfat/node.c:656-681 | The flushed set is readable and describes the node; contiguity is kept unless the file is empty. |
| NodeState.ComponentIsNameable | app/src/main/cpp/exfat/lookup.c:176-202 | A path component that converts to UTF-16 without a zero is a name that can be stored. |
| DirNodes.TreeAttach | app/src/main/cpp/exfat/node.c:572-581 | The node becomes the first of a well-formed doubly linked list. |
| DirNodes.TreeDetach | app/src/main/cpp/exfat/node.c:583-594 | The node leaves the list, which stays well formed; its own links are cleared. |
| DirLayout.EraseKeeps | app/src/main/cpp/exfat/node.c:691-721 | Erasing one child leaves every other set readable and apart. |
| DirLayout.WriteKeeps | app/src/main/cpp/exfat/node.c:905-962 | A set written over slots no child uses keeps every set readable and apart. |
| DirLayout.ResizeKeeps | app/src/main/cpp/exfat/node.c:723-766 | Resizing to a size that covers every child keeps every set. |
| DirLayout.RewriteKeeps | app/src/main/cpp/exfat/node.c:639-689 | Rewriting a set in place with one of the same length keeps the layout. |
| DirSlots.BuildMap | app/src/main/cpp/exfat/node.c:851-862 | The map marks exactly the slots that some child uses. |
| DirSlots.CheckSlot | app/src/main/cpp/exfat/node.c:818-838 | In the root, the slots hold nothing in use; elsewhere always true. |
| DirSlots.Scan | app/src/main/cpp/exfat/node.c:864-893 | Terminates despite the backward jump and finds the lowest suitable slot; if there is none, it gives the unused run at the end, maximal up to one slot less than asked for. |
| DirSlots.FindSlot | app/src/main/cpp/exfat/node.c:840-903 | The lowest suitable slot inside the directory, else the directory grown to whole clusters so that the slot at its end fits; out of space exactly when that takes more clusters than there are, and then nothing changes. |
| DirSlots.TakesFirstOpen | app/src/main/cpp/exfat/node.c:840-903 | Outside the root the search takes the first slots in a row that no child uses, inside the directory or past its end. |
| DirSlots.FindSlotValid | app/src/main/cpp/exfat/node.c:840-903 | Outside the root place, new size, remaining free clusters and failure follow from the children, the size and the free clusters alone; the directory stays valid. |
| DirSlots.ExtendedClearIff | app/src/main/cpp/exfat/node.c:896-902 | A slot that reaches past the end is clear on disk exactly when its part inside the old size is. |
| DirSlots.RootSlotMayBeLive | app/src/main/cpp/exfat/node.c:896-902 | In a root with a label in every third entry the search returns a slot that starts on a label. |
| Directories.ShrinkDirectory | app/src/main/cpp/exfat/node.c:723-766 | Unless a child lies after the deleted set, the size becomes the least whole number of clusters up to the end of the name of the last child; the directory stays valid if and only if every set still lies inside, and always without tail entries. |
| Directories.ShrinkKeepsSetIff | app/src/main/cpp/exfat/node.c:748-760 | Cutting by name length keeps the last set wherever it lies if and only if the set has no entries beyond those of its name. |
| Directories.RemoveChild | app/src/main/cpp/exfat/node.c:691-721 | Exactly the slots of the set of the child are erased and it leaves the list; every other slot is as before. |
| Directories.Delete | app/src/main/cpp/exfat/node.c:768-794 | Removes the child and cuts the directory as shrinking does; the slots left are as before but for the erased set, and the clusters cut off become free. |
| Directories.AddChild | app/src/main/cpp/exfat/node.c:948-962 | Set on disk and node in the list together keep the directory valid. |
| Directories.Create | app/src/main/cpp/exfat/node.c:964-999 | A new child with the given name in the first open slots, readable from disk; out of space exactly when the directory would need more clusters than there are, and then nothing changes. |
| Directories.RenameEntry | app/src/main/cpp/exfat/node.c:1036-1082 | The child has the new name and place, in the same or another directory; both directories stay valid. |
| Directories.Rename | app/src/main/cpp/exfat/node.c:1161-1181 | Finds room and renames, in the first open slots; out of space exactly when clusters lack, and then nothing changes. |
| Directories.RemoveTarget | app/src/main/cpp/exfat/node.c:1120-1159 | The replaced child is gone and its clusters and those cut off the directory are free; the renamed one is still there, and both directories stay valid. |
| Directories.ReplacementFits | app/src/main/cpp/exfat/node.c:1120-1181 | A set no longer than the one it replaces fits into the clusters the directory had. |
| Directories.RenameOver | app/src/main/cpp/exfat/node.c:1120-1181 | Refuses exactly by kind and emptiness, also when the target is the parent; otherwise the target is replaced, out of space exactly when the new name needs more clusters than directory, replaced file and free ones make up, so never when it needs no more entries. |
| Directories.MakeDirectory | app/src/main/cpp/exfat/node.c:1006-1034 | A new child that is itself a valid directory of one blank cluster, flushed; out of space exactly when entry and cluster do not both fit, and then the children are as before and no cluster is lost. |
| Directories.Update | app/src/main/cpp/exfat/cluster.c:406-443 | A change of size and clusters, marked dirty, keeps the directory valid. |
| Directories.FlushNode | app/src/main/cpp/exfat/node.c:639-689 | After the flush the node is clean, its set describes it and the directory is valid. |
| DirLookup.CompareName | app/src/main/cpp/exfat/lookup.c:62-78 | Zero exactly when the upper cases agree unit by unit up to the end of the shorter name, inclusive. |
| DirLookup.LengthsAgreeIff | app/src/main/cpp/exfat/lookup.c:62-78 | Names that compare equal have the same length if and only if no unit but zero has the upper case of zero. |
| DirLookup.LookupName | app/src/main/cpp/exfat/lookup.c:80-108 | The first child in list order whose name compares equal, or none. |
| DirRuns.Run | app/src/main/cpp/exfat/node.c:723-1182 | Any run of creations, renames, deletions and file changes keeps the directory valid and has the results, and leaves the children, the size and the free clusters, of a replay on plain records. |
| DirRuns.StepKeepsUnique | app/src/main/cpp/exfat/node.c:964-1182 | When no unit but zero has the upper case of zero, no operation lets two children have names that compare equal. |
| DirRuns.AllOrNothingIff | app/src/main/cpp/exfat/node.c:964-1182 | Operations that do not succeed change nothing, on every directory, if and only if no unit but zero has the upper case of zero: then a rename that replaces a child always finds room. |
| DirRuns.LosesTarget | app/src/main/cpp/exfat/node.c:1120-1181 | With another unit of that upper case a rename in a full directory deletes the child it replaces and then has no room. |
| DirReading.SkipEntry | app/src/main/cpp/exfat/node.c:405-497 | Entries of bitmap, upper case table and label are accepted exactly when their fields are in order; deleted ones always; others never. |
| DirReading.CacheDirectory | app/src/main/cpp/exfat/node.c:387-570 | Builds the list of the sets found in slot order, or none at all if something cannot be read. |
| DirReading.RereadFinds | app/src/main/cpp/exfat/node.c:387-570 | Reading a valid directory finds exactly its children, in slot order. |
| DirReading.ResetCache | app/src/main/cpp/exfat/node.c:596-637 | Every child is flushed and detached; the slots then hold the children as their nodes described them. |
| DirReading.Reread | app/src/main/cpp/exfat/node.c:596-637 | Dropping the cached children and reading again gives a valid directory with the same children, flushed before or not. |
| DirStore.ReadEntries | app/src/main/cpp/exfat/node.c:80-99 | Reading entries through the file layer gives those entries, exactly when there are that many. |
| DirStore.WriteEntries | app/src/main/cpp/exfat/node.c:101-118 | Writing entries through the file layer replaces exactly those entries; no other file changes. |
| DirStore.TruncateEntries | app/src/main/cpp/exfat/node.c:723-903 | Truncation by the file layer resizes the entries with blank ones and runs out of space exactly when clusters do not suffice: what `Directories.Truncate` takes for granted. |
| DirStore.WriteHasPlainMeaning | app/src/main/cpp/exfat/io.c:255-329 | A fully initialised file shows no stale bytes on a write inside it. |
| DirVolume.CreateOnVolume | app/src/main/cpp/exfat/node.c:964-999 | Creating on the volume keeps its bytes those of the cached directory and every other file as it was; out of space exactly when the clusters of the volume lack. |
| DirVolume.DeleteOnVolume | app/src/main/cpp/exfat/node.c:691-794 | Deleting on the volume does the same, and gives the clusters cut off back to the volume. |
| DirVolume.RenameOnVolume | app/src/main/cpp/exfat/node.c:1036-1181 | Renaming on the volume does the same. |
| DirVolume.ReplaceOnVolume | app/src/main/cpp/exfat/node.c:1120-1181 | Renaming over a child, whose file is emptied, always succeeds on the volume when the name needs no more entries. |
| DirVolume.FlushOnVolume | app/src/main/cpp/exfat/node.c:639-689 | Flushing on the volume does the same. |
| DirVolume.VolumeFinds | app/src/main/cpp/exfat/node.c:387-570 | The bytes of the file of the directory read back as exactly its children. |
| RootDirectory.RootDirSize | app/src/main/cpp/exfat/mount.c:31-59 | Terminates on every FAT; non-zero exactly when the chain from the root cluster reaches the end mark through valid clusters, and then the size of that chain. |
| RootDirectory.EndingHasNoDuplicates | app/src/main/cpp/exfat/mount.c:31-59 | A chain that ends visits no cluster twice. |
| RootDirectory.TooLong | app/src/main/cpp/exfat/mount.c:31-59 | After as many clusters as there are no chain can still end: cyclic chains are rejected and no other. |
| Utf.Decode8Encode8 | app/src/main/cpp/exfat/utf.c:26-83 | What is written for a character reads back as it, whatever follows. |
| Utf.Encode16Decode16 | app/src/main/cpp/exfat/utf.c:85-102 | What is read as a character is what would be written for it. |
| Utf.Utf16ToUtf8 | app/src/main/cpp/exfat/utf.c:104-137 | Succeeds exactly when the name converts and fits, never overruns, and is never too long for three bytes a unit and one for the end. |
| Utf.Utf8ToUtf16 | app/src/main/cpp/exfat/utf.c:212-245 | Succeeds exactly when the bytes convert and the units and the closing zero fit. |
| Utf.OverlongZero | app/src/main/cpp/exfat/utf.c:139-193 | A zero spelled in two non-zero bytes is accepted and ends the name. |
| Utf.NameRoundTrip | app/src/main/cpp/exfat/utf.c:26-245 | A name without zeros that converts to UTF-8 converts back unchanged. |
| Timestamps.YearOfDay | app/src/main/cpp/exfat/time.c:129-131 | One division finds the year of a day in the calendar with a leap year every four years. |
| Timestamps.FindMonth | app/src/main/cpp/exfat/time.c:132-144 | The search finds the month in leap and common years, and the day within it. |
| Timestamps.UnixToExfat | app/src/main/cpp/exfat/time.c:56-158 | All fields in range; up to the year 2107 reading them back gives the time, to the second, if and only if the timezone is a whole number of quarter hours in the seven-bit range; later times read as earlier ones. |
| Timestamps.GregorianIff | app/src/main/cpp/exfat/time.c:56-112 | A stamp reads as the time its date has in the Gregorian calendar if and only if the date is before 1 March 2100. |
| Timestamps.MarchOf2100 | app/src/main/cpp/exfat/time.c:45-49 | 1 March 2100 reads as one day later, because 2100 counts as a leap year. |
| ArgonIndex.MemoryShapeFits | app/src/main/cpp/argon2/src/argon2.c:53-70 | For every accepted cost the shape is valid and the largest that fits. |
| ArgonIndex.AreaIsWindow | app/src/main/cpp/argon2/src/core.c:189-235 | The reference area is never empty, is computed without wrap-around and has the size of the window of section 3.4.2 of RFC 9106. |
| ArgonIndex.RelativePositionInArea | app/src/main/cpp/argon2/src/core.c:237-242 | No product overflows 64 bits and the position lies below the area. |
| ArgonIndex.IndexAlphaInWindow | app/src/main/cpp/argon2/src/core.c:189-257 | The block chosen is the one written inside the window at the position that the mapping of section 3.4.2 of RFC 9106 gives. |
| ArgonIndex.ReferenceAvoids | app/src/main/cpp/argon2/src/ref.c:123-179 | Never the current or the previous block of the lane, never the slice being written in another lane. |
| ArgonFill.RunLaneWrites | app/src/main/cpp/argon2/src/ref.c:90-194 | A lane writes its own segment only. |
| ArgonFill.SameNewBlock | app/src/main/cpp/argon2/src/ref.c:123-193 | A lane computes the same block whatever the other lanes have done in the slice. |
| ArgonFill.StepMerged | app/src/main/cpp/argon2/src/ref.c:123-193 | A step of one lane commutes with the steps of the others. |
| ArgonFill.SliceIsSequential | app/src/main/cpp/argon2/src/core.c:260-275 | Once every lane has finished its segment, in whatever order, the memory is that of the sequential order. |
| ArgonThreads.ThreadedIsSequential | app/src/main/cpp/argon2/src/core.c:292-372 | A finished multi-threaded run leaves the memory of the single-threaded fill, whatever the interleaving. |
| ArgonThreads.AtMostThreads | app/src/main/cpp/argon2/src/core.c:311-357 | Never more threads alive than allowed. |
| ArgonThreads.JoinedExactlyOnce | app/src/main/cpp/argon2/src/core.c:311-357 | In every run the joins of the thread of a lane in a slice number one once the slice is over or the thread is marked joined, and none before. |
| ArgonThreads.JoinsAlive | app/src/main/cpp/argon2/src/core.c:311-357 | What is joined is always a thread that was created and not yet joined. |
| ArgonThreads.NoDeadlock | app/src/main/cpp/argon2/src/core.c:292-372 | While a run has not finished, a step is possible. |
| ArgonThreads.EveryRunFinishes | app/src/main/cpp/argon2/src/core.c:292-372 | Every run has the same finite number of steps, so it ends. |
| ArgonMemory.NextAddress | app/src/main/cpp/argon2/src/ref.c:109-159 | The address for each block is the one of its position, a new block of addresses being made when one is used up. |
| ArgonMemory.FillSegment | app/src/main/cpp/argon2/src/ref.c:90-194 | The loop over a segment is the lane steps of the model, with the previous offset always the cyclic predecessor. |
| ArgonMemory.FillMemoryBlocksSt | app/src/main/cpp/argon2/src/core.c:260-275 | The nested loops fill the memory pass by pass, slice by slice, lane by lane. |
| ArgonBase64.CharOfValue | app/src/main/cpp/argon2/src/encoding.c:83-102 | Values and characters of the alphabet correspond one to one. |
| ArgonBase64.DecodedEncoded | app/src/main/cpp/argon2/src/encoding.c:112-200 | Encoded bytes decode to themselves. |
| ArgonBase64.EncodedDecoded | app/src/main/cpp/argon2/src/encoding.c:161-200 | Text decodes only if it is the encoding of the result: no other length, no stray bits. |
| ArgonBase64.EncodedLength | app/src/main/cpp/argon2/src/encoding.c:440-453 | The length formula is exact. |
| ArgonBase64.ToBase64 | app/src/main/cpp/argon2/src/encoding.c:112-146 | The accumulator loop writes the groups of three bytes; it fails exactly when text and closing zero do not fit. |
| ArgonBase64.FromBase64 | app/src/main/cpp/argon2/src/encoding.c:161-200 | The accumulator loop decodes the leading text, exactly when it is canonical and its bytes fit. |
| ArgonText.DecodeDecimal | app/src/main/cpp/argon2/src/encoding.c:209-236 | Accepts exactly a minimal decimal number below 2^64 and gives its value and length. |
| ArgonText.MinimalIsDecimal | app/src/main/cpp/argon2/src/encoding.c:209-236 | Only its own minimal form denotes a number. |
| ArgonText.NumLen | app/src/main/cpp/argon2/src/encoding.c:455-462 | The number of decimal digits. |
| ArgonText.EncodeString | app/src/main/cpp/argon2/src/encoding.c:373-438 | Writes the text form of a context, exactly when the context is valid and the text and its closing zero fit. |
| ArgonText.DecodeString | app/src/main/cpp/argon2/src/encoding.c:258-371 | Accepts exactly the text forms of valid contexts that fit the buffers, and gives back version, costs, lanes, salt and hash. |
| ArgonText.ParseComplete | app/src/main/cpp/argon2/src/encoding.c:258-438 | A text form of a context parses to that context. |
| ArgonText.ParseSound | app/src/main/cpp/argon2/src/encoding.c:258-371 | What parses is a text form of the result. |
| ArgonText.EncodedLen | app/src/main/cpp/argon2/src/argon2.c:447-452 | For version 0x13 the length of the text form and its closing zero. |
| Serpent.S0 | app/src/main/cpp/serpent/serpent_generic.c:69-77 | The register steps apply Serpent's S-box 0 at every bit position. |
| Serpent.S1 | app/src/main/cpp/serpent/serpent_generic.c:79-87 | The register steps apply Serpent's S-box 1 at every bit position. |
| Serpent.S2 | app/src/main/cpp/serpent/serpent_generic.c:89-97 | The register steps apply Serpent's S-box 2 at every bit position. |
| Serpent.S3 | app/src/main/cpp/serpent/serpent_generic.c:99-107 | The register steps apply Serpent's S-box 3 at every bit position. |
| Serpent.S4 | app/src/main/cpp/serpent/serpent_generic.c:109-118 | The register steps apply Serpent's S-box 4 at every bit position. |
| Serpent.S5 | app/src/main/cpp/serpent/serpent_generic.c:120-128 | The register steps apply Serpent's S-box 5 at every bit position. |
| Serpent.S6 | app/src/main/cpp/serpent/serpent_generic.c:130-138 | The register steps apply Serpent's S-box 6 at every bit position. |
| Serpent.S7 | app/src/main/cpp/serpent/serpent_generic.c:140-149 | The register steps apply Serpent's S-box 7 at every bit position. |
| Serpent.SI0 | app/src/main/cpp/serpent/serpent_generic.c:151-158 | The register steps apply inverse S-box 0 at every bit position. |
| Serpent.SI1 | app/src/main/cpp/serpent/serpent_generic.c:160-168 | The register steps apply inverse S-box 1 at every bit position. |
| Serpent.SI2 | app/src/main/cpp/serpent/serpent_generic.c:170-177 | The register steps apply inverse S-box 2 at every bit position. |
| Serpent.SI3 | app/src/main/cpp/serpent/serpent_generic.c:179-187 | The register steps apply inverse S-box 3 at every bit position. |
| Serpent.SI4 | app/src/main/cpp/serpent/serpent_generic.c:189-197 | The register steps apply inverse S-box 4 at every bit position. |
| Serpent.SI5 | app/src/main/cpp/serpent/serpent_generic.c:199-207 | The register steps apply inverse S-box 5 at every bit position. |
| Serpent.SI6 | app/src/main/cpp/serpent/serpent_generic.c:209-217 | The register steps apply inverse S-box 6 at every bit position. |
| Serpent.SI7 | app/src/main/cpp/serpent/serpent_generic.c:219-227 | The register steps apply inverse S-box 7 at every bit position. |
| Serpent.MixTwice | app/src/main/cpp/serpent/serpent_generic.c:42-45 | Adding a round key twice restores the registers, so the step undoes itself. |
| Serpent.LK | app/src/main/cpp/serpent/serpent_generic.c:47-57 | The linear transformation, then the round key. |
| Serpent.KL | app/src/main/cpp/serpent/serpent_generic.c:59-67 | The round key, then the inverse transformation. |
| Serpent.LinearInverts | app/src/main/cpp/serpent/serpent_generic.c:47-67 | The inverse transformation undoes the transformation. |
| Serpent.UnlinearInverts | app/src/main/cpp/serpent/serpent_generic.c:47-67 | The transformation undoes its inverse. |
| Serpent.BoxesInvert | app/src/main/cpp/serpent/serpent_generic.c:69-227 | The eight pairs of S-box tables are inverse to each other. |
| Serpent.Encrypt | app/src/main/cpp/serpent/serpent_generic.c:466-515 | The 32 rounds with the register renaming of the code compute the cipher of the rounds, S-boxes and transformation. |
| Serpent.Decrypt | app/src/main/cpp/serpent/serpent_generic.c:527-576 | The rounds taken backwards with the register renaming of the code compute its inverse. |
| Serpent.DecryptedEncrypted | app/src/main/cpp/serpent/serpent_generic.c:466-576 | For every key schedule and block, decryption undoes encryption. |
| Serpent.EncryptedDecrypted | app/src/main/cpp/serpent/serpent_generic.c:466-576 | For every key schedule and block, encryption undoes decryption. |
| SerpentBlocks.CryptBlock | app/src/main/cpp/serpent/serpent_adapter.c:14-20 | On sixteen little-endian bytes, each direction undoes the other. |
| Diffusers.ADecrypt | app/src/main/cpp/bitlocker/bitlocker_crypto.c:127-144 | Five passes, all indices in bounds and wrapped at the right places. |
| Diffusers.AEncrypt | app/src/main/cpp/bitlocker/bitlocker_crypto.c:146-163 | Five passes undone from the last word down. |
| Diffusers.BDecrypt | app/src/main/cpp/bitlocker/bitlocker_crypto.c:165-182 | Three passes of diffuser B. |
| Diffusers.BEncrypt | app/src/main/cpp/bitlocker/bitlocker_crypto.c:184-201 | Three passes undone. |
| Diffusers.UnpassesInvert | app/src/main/cpp/bitlocker/bitlocker_crypto.c:127-201 | Undoing any number of passes restores the words, for both diffusers and every word count of at least 8 divisible by 4. |
| Diffusers.PassesInvert | app/src/main/cpp/bitlocker/bitlocker_crypto.c:127-201 | Passes restore what undoing passes changed. |
| BitLocker.Elephant | app/src/main/cpp/bitlocker/bitlocker_crypto.c:204-229 | In place on one sector: mask then diffuse, or un-diffuse then mask; nothing outside the sector changes. |
| BitLocker.UnscrambledScrambled | app/src/main/cpp/bitlocker/bitlocker_crypto.c:204-229 | Reading undoes writing, for every sector key. |
| BitLocker.ScrambledUnscrambled | app/src/main/cpp/bitlocker/bitlocker_crypto.c:204-229 | Writing undoes reading. |
| BitLocker.SectorInverts | app/src/main/cpp/bitlocker/bitlocker_crypto.c:236-258 | In each of the three modes the other direction restores the sector. |
| BitLocker.CryptSectors | app/src/main/cpp/bitlocker/bitlocker_crypto.c:231-260 | Fails and changes nothing exactly when the length is not a whole number of sectors; else every sector is crypted under its own number modulo 2^64. |
| BitLocker.RunInverts | app/src/main/cpp/bitlocker/bitlocker_crypto.c:231-260 | Decrypting restores what was encrypted, and the other way round, for any number of sectors. |
| BitLocker.RunSplits | app/src/main/cpp/bitlocker/bitlocker_crypto.c:231-260 | Crypting a run equals crypting its parts, split at any sector boundary. |
| Xts.DoubledIsTimesX | app/src/main/cpp/serpent/xts_generic.c:14-25 | The byte shift with carry is multiplication by x modulo x^128 + x^7 + x^2 + x + 1. |
| Xts.MulByAlpha | app/src/main/cpp/serpent/xts_generic.c:14-25 | The in-place loop multiplies the tweak by x in the field. |
| Xts.CryptedAt | app/src/main/cpp/serpent/xts_generic.c:27-49 | Block j is the block cipher between two additions of the tweak times x^j (sections 5.3 and 5.4 of IEEE Std 1619-2007). |
| Xts.CryptedInverts | app/src/main/cpp/serpent/xts_generic.c:27-49 | With the inverse block cipher the mode restores every block. |
| Xts.Crypt | app/src/main/cpp/serpent/xts_generic.c:27-49 | The in-place loop crypts the first bytes of the buffer and leaves the rest. |
| Cascades.StageCrypt | app/src/main/cpp/vc_cascade.cpp:80-100 | One stage in place. |
| Cascades.EncryptUnit | app/src/main/cpp/vc_cascade.cpp:38-136 | The stages in order, all with the tweak of the unit. |
| Cascades.DecryptUnit | app/src/main/cpp/vc_cascade.cpp:38-142 | The inverse stages in reverse order. |
| Cascades.BackwardForward | app/src/main/cpp/vc_cascade.cpp:132-142 | Decrypting a unit restores what was encrypted, for every cascade. |
| Cascades.ForwardBackward | app/src/main/cpp/vc_cascade.cpp:132-142 | Encrypting a unit restores what was decrypted. |
| Cascades.NewCascade | app/src/main/cpp/vc_cascade.cpp:44-123 | Succeeds exactly for one to three known ciphers that accept their keys and a key of at least 64 bytes each; stage i gets primary key i and secondary key n + i. |
| Cascades.SlicesCover | app/src/main/cpp/vc_cascade.cpp:113-116 | The key slices are the key in order, without gap or overlap. |

## Left out

- Bitmaps.Bitmap.FindBitAndSet: a bitmap word is 64 bits in a row; the mask arithmetic inside a word is not modelled.
- FileIO.Truncate: asks for a size of at most 2^32 - 1 clusters, because above that the code computes a wrapped cluster count and leaves an inconsistent file; `FileIO.TruncateAnySize` states this for truncation without erasing.
- FileIO.TruncateAnySize: without erasing only; erasing with a wrapped cluster count walks off the chain, which is not modelled.
- FileIO.PrepareWrite: asks for an end of the write of at most 2^32 - 1 clusters, for the same reason.
- FileIO.Write: asks for an end of the write of at most 2^32 - 1 clusters, for the same reason.
- FileRuns.Run: sizes are at most 2^32 - 1 clusters, for the same reason.
- DirSlots.Truncate: stands for `DirStore.TruncateEntries`, with the number of free clusters as a parameter; the directory's own start cluster and contiguity are not followed.
- DirSlots.FindSlot: in the root, a slot that reaches past the end is only clear of children.
- Directories.Create: in directories other than the root, as all operations that keep a directory valid; the root holds entries of no child. Names are not empty; what an empty one does to the set is in `DirEntries.CommitEntries` and `DirEntries.RenameEntries`.
- Directories.RenameOver: asks for children without tail entries, as creating and renaming write them, because deleting the target may else cut another set; the check that a directory is not moved into itself is up to the caller.
- DirRuns.Run: one directory at a time, for the same children; moving between two directories is in `Directories.Rename` only, and a deleted file keeps its clusters until its node is cleaned up.
- DirVolume.RenameOnVolume: within one directory.
- Directories.FlushNode: the flush of the parent's own entry, with which creating, renaming and deleting end, is not chained up the tree.
- DirReading.CacheDirectory: the entries for the bitmap, the upper case table and the label are checked; what they load is not modelled, and neither is the repair of unknown entries.
- DirReading.Reread: one directory at a time, and its own entry is not flushed.
- DirEntries.CommitEntries: encoded times and the name hash are parameters.
- Timestamps.UnixToExfat: the timezone is a parameter; years from 65536 after 1980 on are excluded, because the code keeps the year in sixteen bits.
- Utf.Utf8ToUtf16: bytes are 0 to 255; the sign of the character type is not modelled.
- ArgonText.EncodeString: all error codes of validation are one.
- ArgonBase64.CharOfValue: the branch-free comparisons of the code are plain comparisons.
- ArgonThreads.ThreadedIsSequential: failing to create or join a thread is not modelled.
- ArgonFill.SameNewBlock: the compression function and the block addition are parameters.
- BitLocker.SectorInverts: the AES modes are inverse pairs given by the context, and do not fail.
- Cascades.StageCrypt: AES in XTS mode and the Twofish block are inverse pairs given by the stage.
- Cascades.NewCascade: the key schedules are parameters; Serpent's results hold for every schedule, its key expansion is not modelled.
- Diffusers.ADecrypt: the work array has as many words as the sector, where the code uses the front of a larger one.
- Device I/O errors and the branches that end in an internal error are not modelled; the device always succeeds.
- Reference counts, access times, the modification time and the freeing of nodes are not modelled.
- The order of device writes across a crash is not modelled.
- Splitting paths into components, setting the label, decompressing the upper case table and mounting beyond the size of the root directory are not modelled.
- Key stretching, authenticated key unwrapping, hashing and the wiping of keys are not modelled.
- The bridges to Java, the NTFS and APFS drivers and archive decompression are not modelled.
