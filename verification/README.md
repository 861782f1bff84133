# ChimaeraOS: a verified model of the FAT32 driver, its checker, the scheduler and the compositor

ChimaeraOS keeps its files on a FAT32 volume (Microsoft FAT32 File System Specification, version 1.03). The driver works
through a one-sector write-back cache over a raw disk, keeps two copies of the allocation table in step, allocates
clusters first fit, stores names as long-name records in front of 8.3 entries, and reads and writes files through
descriptors that follow cluster chains. A checker walks the same structures at boot. Besides the file system this project
models the kernel's round-robin scheduler with its two interrupt handlers, and the text-mode window compositor.

The code that works in place is modelled in place: the disk, the cache, the descriptor table, the reachability marks, the
task table, memory with the task stacks, and the back buffer are arrays and fields of classes, changed by methods with
loops. What these methods do is stated by functions and predicates on values, and the long-range properties are lemmas
about those.

## How the file system is layered

- `Bytes`, `Layout`, `Disks`: sectors, little-endian words, where table and data lie, and what an image means. `Sees`
  says that a `View` (the table as a sequence of 28-bit values, the data region as sectors by cluster) is what the image
  holds. `Disks.Disk` records the image after every sector write.
- `Volumes`: cache, `fat_get`/`fat_set`/`fat_alloc`/`fat_free_chain`, mirror repair. `view` is what the disk holds now and
  `history` is what it held after each write, which is what a power cut can leave.
- `Names`, `ShortNames`, `LongNames`: 8.3 forms, numbered variants, checksums, long-name records.
- `ChainData`, `Cells`, `Directories`, `DirAdd`: the sectors of a chain, a directory as one cell per entry, walking,
  searching and adding. `Cells.Listing` is a directory as a map from case-folded names.
- `Catalogs`, `Files`, `EntryChanges`, `TreeChanges`: the meaning of a whole volume. A `Catalog` names every chain, the
  place of every cluster in use, the cells of every directory and the entry that owns each chain. `Consistent` is the
  invariant between operations; `CrashSafe` is what a power cut may leave: a sound volume with at most one stray cluster
  on which nothing recorded is lost. `CrashSafeBut` asks less while a file is being removed or emptied: that file may be as
  it was, gone or empty, and any number of clusters may be stray.
- `PowerCuts`: what the bytes of an image force on every description of it, and so which states are not safe.
- `Paths`, `FileSystems`: path resolution and the public operations.
- `Runs`: what the operations come to over whole runs. `Formatting`: format and mount. `Marks`, `Repairs`, `Fsck`: the
  checker, its own iterator, and what it writes when it finds something.

`Scheduler` is the state machine of scheduling decisions, `Kernels` the handlers on memory and registers, `Compositors`
the window order, the painter and the hit test.

## What was found

- A removal frees the file's chain before it erases its entry. Every state from the first write of `fat32_unlink` to the
  last but one is one in which the entry names a free cluster: none of them is safe even for losing that file, and the
  finished state is (`RemovedUnsafely`, from `PowerCuts.FreedUnderEntry`). Opening for truncation begins the same way
  (`EmptiedUnsafely`). Erasing the entry first and freeing the chain afterwards would be safe at every write
  (`PowerCuts.ErasedFirstIsSafe`).
- Creating a file and making a directory are safe at every write exactly if the directory has room for the records of the
  name and the short entry (`HasRoom`, which depends on the directory before the call only; `SafeIfRoom`). Otherwise the
  directory is extended. Then two clusters are closed before either is referred to, and the new cluster is linked before it
  is zeroed, so that the directory reads on into what the cluster held before. That second state is safe exactly if none
  of the entries the cluster holds is a live short entry or unreadable (`PowerCuts.StaleExactly`); a cluster of blanks, as
  a text file may leave, is an input for which it is not (`PowerCuts.BlanksAreHarmful`).
- Appending and closing are safe at every write, whatever the input.
- The checker's owner key of entry number 0 is the one a directory uses for its own chain, and an entry that begins where
  its own directory begins is taken for the directory: cross-links of such entries are not reported
  (`Marks.EntryZeroMissed`, and the first clauses of `Marks.MarkChain`). `Stumbles` is the exact condition under which a
  cross-link is raised.
- The checker's directory iterator does not stop at the end of a chain: without an unused entry it goes on into the sector
  behind the last cluster (`Repairs.DirIterNext`). Claims about the walk require a terminating entry. Its edits go one
  entry back by address: they hit the entry just read exactly if that was not the last one of a cluster whose successor in
  the chain lies elsewhere on the disk (`Repairs.EditHits`).
- The formatter accepts disks whose cluster numbers need more than 28 bits: those of 0x80401FE0 sectors and more
  (`Formatting.ClusterNumbersFit`). The disk driver takes its sector count from the 28-bit fields of IDENTIFY
  (`src/drivers/ata.c:88-91`), which cannot be that large if the disk keeps to them.
- Opening `//` for writing creates an entry without a name in the root: eleven blanks and no records, after which no reading
  of the root is a well-formed directory (`FileSystem.CreateNameless`). The paths that lead to an empty name are exactly `/`
  and those that end in two slashes (`Paths.EmptyNameExactly`). `fat32_mkdir` checks for an empty name, `fat32_open` does
  not. `fat32_mkdir` and `fat32_unlink` do not look at the read-only flag.
- The comment at the top of `src/proc/sched.c` gives DS the lowest word of a frame; the handlers and `sched_spawn` put ES
  there. The model follows the code. `src/include/fat32.h` says that `fat32_mkdir` makes all parents; the code does not.

## Model

| member | source | states |
|---|---|---|
| Bytes.Le32RoundTrip | src/fs/fat32_core.c:88-112 | a 32-bit word read back from its four bytes is the word stored |
| Layout.Addresses | src/fs/fat32_core.c:71-85 | table entries are four bytes each from the front of the first table on, and clusters lie one behind the other from number 2 |
| Layout.SeesUnique | src/fs/fat32_core.c:71-96 | an image has only one meaning: its table and its data region are determined by its sectors |
| Layout.EntriesApart | src/fs/fat32_core.c:76-85 | two table entries in one sector occupy disjoint windows, and none straddles the sector's end |
| Layout.FatWriteSeen | src/fs/fat32_core.c:99-112 | storing an entry in the first table changes exactly that entry of the table |
| Layout.FatSetMirrored | src/fs/fat32_core.c:99-112 | after the value went into every copy, all copies of the table are byte-identical if they were before |
| Disks.Disk.Write | src/fs/fat32_core.c:41-47 | a sector write changes one sector and adds the new image to the trace of images a power cut can leave |
| Volumes.Volume.Mount | src/fs/fat32_core.c:796-814 | from any image, the repaired volume has equal tables and the view its first table and its clusters had |
| Volumes.Volume.RepairMirror | src/fs/fat32_core.c:801-814 | copying the first table over the second makes them equal and never changes the view, at any write |
| Volumes.Volume.SecFlush | src/fs/fat32_core.c:41-47 | the logical disk is unchanged, the cache is clean, and one image was written exactly if it was dirty |
| Volumes.Volume.SecRead | src/fs/fat32_core.c:49-56 | the cache shows the sector of the logical disk, which does not change |
| Volumes.Volume.SecWrite | src/fs/fat32_core.c:58-67 | the logical disk changes at that sector only |
| Volumes.Volume.FatGet | src/fs/fat32_core.c:88-96 | the value read is the 28-bit entry of the view, and nothing is written |
| Volumes.Volume.FatSet | src/fs/fat32_core.c:99-112 | the view changes at that entry only, to the value cut to 28 bits; tables stay equal; every state written shows the new value |
| Volumes.Volume.ZeroPastCache | src/fs/fat32_core.c:124-130 | zeroing a sector past the cache leaves the cache coherent, because the cached sector is one of the table's |
| Volumes.Volume.FatAlloc | src/fs/fat32_core.c:115-133 | the cluster is the first free one, closed, linked behind `prev` and zeroed; 0 only if none is free, and then nothing changes; what every write on the way leaves, among it the cluster closed but not linked, and linked but not zeroed |
| Volumes.Volume.FatFreeChain | src/fs/fat32_core.c:136-144 | ends on cyclic chains too; on an acyclic chain frees exactly that chain, from the front; at every write a front part is freed, and the first cluster is |
| Chains.ClearedPrefixLeavesChain | src/fs/fat32_core.c:136-144 | after the first k clusters were freed, the rest is still an acyclic chain with an end mark |
| Names.FoldExactly | src/fs/fat32_internal.h:165-166 | names fold to the same exactly if they have the same length and at each place the same byte, or an ASCII letter once as a capital and once 32 higher |
| Names.PlainForm | src/fs/fat32_internal.h:188-209 | a name without spaces and dots before its last dot: the first eight bytes of that part and the first three behind the dot, in capitals, each filled up with blanks |
| Names.LeftOut | src/fs/fat32_internal.h:196-203 | a space or a dot before the last dot, or a space of a name without dots, can be left out without changing the short form |
| Names.ShortIsCapital | src/fs/fat32_internal.h:188-209 | no short form, plain or numbered, holds a small letter |
| Names.NumberedForm | src/fs/fat32_core.c:273-309 | as much of the plain form's base as there is room for, a tilde, the decimal digits of the number without leading zeros, blanks, and the plain form's extension |
| Names.NumberedDistinct | src/fs/fat32_core.c:273-311 | the numbered short forms of a name are pairwise distinct |
| Names.VariantsCount | src/fs/fat32_core.c:273-311 | there are as many numbered short forms as numbers |
| Names.SomeVariantFree | src/fs/fat32_core.c:264-314 | with fewer than 9999 short names taken, some numbered form is free |
| ShortNames.WriteMake83 | src/fs/fat32_internal.h:188-209 | the buffer receives the short form as the specification function gives it: stem up to the last dot, extension behind it |
| ShortNames.WriteNumbered | src/fs/fat32_core.c:273-309 | the buffer receives the numbered form with its extension |
| LongNames.LfnChecksum | src/fs/fat32_internal.h:169-176 | the loop computes the checksum defined by rotation and addition |
| LongNames.KnownChecksum | src/fs/fat32_internal.h:169-176 | the checksum of `README  TXT` is 0x73 |
| LongNames.BuildRecord | src/fs/fat32_ops.c:83-134 | the entry is the long-name record of that part: order byte, attribute, checksum and thirteen padded characters |
| LongNames.RecordBytes | src/fs/fat32_ops.c:83-134 | the bytes of a record, by place: number, 0x40 on the last part, attribute, checksum, the name's characters, one zero character, all ones |
| LongNames.PartExtendsTail | src/fs/fat32_core.c:349-366 | storing a record of a name extends the rebuilt tail of the name by that part |
| LongNames.EncodeThenDecode | src/fs/fat32_ops.c:83-134 | for every name of 1 to 255 nonzero bytes the records, last part first, rebuild exactly the name |
| LongNames.MatchesBuffer | src/fs/fat32_core.c:375-390 | the comparison of a scan holds exactly if the names are equal up to case |
| ChainData.ChainUpdate | src/fs/fat32_ops.c:292-306 | storing a sector of one cluster changes exactly that sector of the chain |
| ChainData.FlatUpdate | src/fs/fat32_ops.c:292-306 | changing bytes of a sector changes exactly those bytes of the file |
| Cells.RunFits | src/fs/fat32_ops.c:83-150 | a run placed on the first free places of a gap leaves the directory well formed |
| Cells.LookupAfterRun | src/fs/fat32_core.c:323-405 | after a run was placed, its name is found at its short entry and every other lookup is as before |
| Cells.ListingPut | src/fs/fat32_core.c:323-405 | a new or changed entry enters the map under its name and nothing else changes |
| Cells.ListingDrop | src/fs/fat32_ops.c:526-540 | an entry that is gone leaves the map and nothing else changes |
| Directories.DirNext | src/fs/fat32_core.c:208-226 | the next position is that of the next entry, across sectors and clusters; false exactly at the end |
| Directories.StoredEntryEffect | src/fs/fat32_core.c:168-205 | storing an entry replaces that entry of the directory and touches no other cluster |
| Directories.AtInjective | src/fs/fat32_ops.c:534-540 | two positions have the same sector and offset exactly if they are the same entry |
| Directories.Dir83Exists | src/fs/fat32_core.c:241-257 | true exactly if a live entry has the short name |
| Directories.Make83Unique | src/fs/fat32_core.c:264-314 | the plain form if no entry has it, else the numbered form with the least number no entry has, else the plain form; with fewer than 9999 short names the result is new |
| Directories.AbsorbPart | src/fs/fat32_core.c:344-368 | a scan inside a long-name run knows the tail of the name and where the run began |
| Directories.DirFind | src/fs/fat32_core.c:323-405 | finds the entry whose name has the same length and the same letters up to case, with its position and the start of its run; fails exactly if no entry has such a name |
| DirAdd.BuildEntry83 | src/fs/fat32_ops.c:136-148 | the 32 bytes say the short name, attribute, first cluster and size; the date is 0x5B21 and the other bytes are zero |
| DirAdd.WriteRun | src/fs/fat32_ops.c:83-150 | the run is in place afterwards, and at every write some front part of it |
| DirAdd.GrowDirectory | src/fs/fat32_ops.c:66-81 | one zeroed cluster more gives the run room, continuing the free tail; on a full disk nothing changes; on the way the cluster is closed but not linked, then linked but not zeroed |
| DirAdd.StaleEntriesShow | src/fs/fat32_core.c:121-130 | between the link to a new cluster and its zeroing a directory reads on into what the cluster held before |
| DirAdd.FindRoom | src/fs/fat32_ops.c:21-81 | the first place with enough free entries in a row; the directory is extended exactly if there is none; fails only if then the disk is full |
| DirAdd.RoomShows | src/fs/fat32_ops.c:62-65 | places have room exactly if the entries there begin with 0 or 0xE5 |
| DirAdd.DirAddEntry | src/fs/fat32_ops.c:21-153 | the run of the new entry is in place, at the first room, under the short form that is due to its name beside the directory's other ones; the directory is extended exactly if it has no room; fails only on a full disk, changing nothing |
| DirAdd.DirAddNameless | src/fs/fat32_ops.c:21-153 | what it does on an empty name: one short entry, of eleven blanks if that is free, and no records |
| DirAdd.NobodyListsNameless | src/fs/fat32_core.c:344-390 | a directory with such an entry reads as no well-formed directory |
| Catalogs.SoundAlloc | src/fs/fat32_core.c:115-133 | an allocated cluster is the only thing not referenced |
| Catalogs.SoundExtendFile | src/fs/fat32_ops.c:280-289 | a file's chain grows by one cluster and the volume stays sound |
| Catalogs.SoundGrowDir | src/fs/fat32_ops.c:66-81 | a directory grows by one zeroed cluster and the volume stays sound |
| Catalogs.SoundFree | src/fs/fat32_core.c:136-144 | freeing a chain nobody refers to leaves a sound volume without it |
| Catalogs.SoundAttach | src/fs/fat32_ops.c:136-150 | an entry written for a chain nobody refers to makes it owned, as a file or as a directory |
| Files.WriterCases | src/fs/fat32_ops.c:277-289 | a writer goes on to a new cluster exactly when it has filled the last one |
| Files.WriterPut | src/fs/fat32_ops.c:291-306 | the bytes go behind the file's contents and no other file changes |
| Files.WriterExtended | src/fs/fat32_ops.c:280-289 | a new cluster keeps the file's bytes, all other files, and the volume |
| Files.ExtendingIsSafe | src/fs/fat32_ops.c:280-289 | every state of extending a file is safe against a power cut |
| FileSystems.ReaderMoves | src/fs/fat32_ops.c:257-261 | a reader stands in the cluster of its next byte after every step |
| FileSystems.FileSystem.Read | src/fs/fat32_ops.c:229-265 | returns exactly the next bytes of the file, as many as asked for and left, and advances by them |
| FileSystems.FileSystem.Write | src/fs/fat32_ops.c:267-310 | the accepted bytes are a front part of the buffer, appended to the file; less than all only on a full disk; other files unchanged; no cluster is given back; every written state is safe |
| FileSystems.FileSystem.Close | src/fs/fat32_ops.c:331-350 | the entry of a written file records its size in one safe write; no file's bytes change; the descriptor is closed |
| FileSystems.FileSystem.PathResolveParent | src/fs/fat32_core.c:415-447 | returns the directory to which the components of the path but the last lead, one after the other, and the last component; 0 exactly if they lead nowhere |
| FileSystems.FileSystem.PathStat | src/fs/fat32_core.c:450-469 | finds the entry exactly if the path names one; for the root's own path an entry of its own |
| FileSystems.FileSystem.Open | src/fs/fat32_ops.c:157-227 | each refusal and its order; a reader at the start of the file; an emptied file, with an unsafe state on the way; or a new file listed besides the old ones under its name and the short form due to it, safe at every write exactly if its directory has room; nothing else disturbed; on a full disk nothing changes |
| FileSystems.FileSystem.CreateNameless | src/fs/fat32_ops.c:197-227 | on a path that ends in two slashes the file gets an entry without a name; if it is in the root the volume then reads as no consistent one |
| FileSystems.FileSystem.Truncate | src/fs/fat32_ops.c:181-194 | the entry gets a new empty chain, the old chain is free, no other file is disturbed; after the first write the state is not safe even for losing the file, after the last it is |
| FileSystems.FileSystem.EnterOrRelease | src/fs/fat32_ops.c:205-213 | the entry is made, or the cluster is given back and the table is as before; safe at every write exactly if no entry is made or the directory, as it was, has room; otherwise it shows a cluster that is not zeroed yet |
| FileSystems.FileSystem.Mkdir | src/fs/fat32_ops.c:362-404 | each refusal; or an empty directory, listed besides the old entries, whose first entry on the disk reads `.` and ten blanks and leads to itself and whose second reads `..` and nine blanks and leads to the parent, or 0 under the root; paths below the new one then lead into it; safe at every write exactly if no directory is made or the parent, as it was, has room |
| FileSystems.FileSystem.Unlink | src/fs/fat32_ops.c:512-543 | exactly the named file leaves its directory's map, its chain is free, no other file is disturbed; every write but the last leaves a state that is not safe even for losing the file, the last one a safe state |
| FileSystems.FileSystem.EraseRun | src/fs/fat32_ops.c:531-540 | exactly the entries from the run's start to the short entry are marked deleted, the short entry last |
| EntryChanges.SizeRecorded | src/fs/fat32_ops.c:335-346 | recording a size keeps the volume consistent, loses nothing recorded, and changes no file's bytes |
| TreeChanges.EntryIsMade | src/fs/fat32_ops.c:136-150 | a new entry keeps the volume consistent, is listed besides the old entries, keeps short names distinct, and disturbs no other file or directory |
| TreeChanges.EnteringIsSafe | src/fs/fat32_ops.c:136-150 | every state of writing the records of a new entry is safe: the name is there when all of it is |
| TreeChanges.StrayReleased | src/fs/fat32_ops.c:209-213 | giving a cluster back restores the table and is safe at every write |
| PowerCuts.FreedUnderEntry | src/fs/fat32_ops.c:526-527 | a state in which a file's first cluster is free and its short entry is still on the disk is not safe, not even if the file is to go |
| PowerCuts.FreedThenErased | src/fs/fat32_ops.c:526-540 | freeing first and erasing afterwards: every state but the last is unsafe, the last is safe |
| PowerCuts.RemovedIsSafe | src/fs/fat32_ops.c:526-540 | the finished removal is a safe state |
| PowerCuts.RenewedIsSafe | src/fs/fat32_ops.c:181-194 | the finished truncation is a safe state |
| PowerCuts.ErasedFirstIsSafe | src/fs/fat32_ops.c:526-540 | with the two loops the other way round every state would be safe |
| PowerCuts.TwoStraysNotSafe | src/fs/fat32_ops.c:66-81 | the state in which the new entry's cluster and the directory's new cluster are both closed and neither is referred to is not safe |
| PowerCuts.StaleExactly | src/fs/fat32_core.c:121-130 | a directory linked to a cluster that is not zeroed yet is safe exactly if no entry the cluster holds is a live short entry or unreadable |
| PowerCuts.BlanksAreHarmful | src/fs/fat32_core.c:121-130 | a cluster full of blanks is an input for which it is not safe |
| TreeChanges.SafeEntriesLinked | src/fs/fat32_ops.c:526-527 | on every safe state each entry leads to a cluster in use |
| TreeChanges.EntryIsRenewed | src/fs/fat32_ops.c:181-194 | an emptied file has its new chain and size 0 under its name, and no other file is disturbed |
| TreeChanges.RemovedSound | src/fs/fat32_ops.c:526-540 | the volume is consistent after a file was removed |
| TreeChanges.RemovedDisturbsNothing | src/fs/fat32_ops.c:526-540 | removing a file takes exactly its name from its directory and disturbs no other file |
| TreeChanges.DotsWritten | src/fs/fat32_ops.c:376-396 | the two dot entries in a zeroed cluster make an empty directory |
| Paths.ResolveStable | src/fs/fat32_core.c:415-447 | a path leads where it led as long as no directory on the way goes away |
| Paths.PathLeads | src/fs/fat32_core.c:415-447 | a path leads to a name in a directory exactly if its components, each cut to 255 bytes, lead there from the root: each one is listed, up to case, as a directory in the one before, an entry with cluster 0 leads to the root, and an empty component at the end does not count |
| Paths.ResolveBelow | src/fs/fat32_core.c:415-447 | once the directory a path names is there, every path below it leads into it |
| Paths.NextComponent | src/fs/fat32_core.c:422-430 | the next component, cut to what a name holds, and the place behind it |
| Paths.EmptyNameExactly | src/fs/fat32_core.c:415-447 | a path that leads somewhere leads to an empty name exactly if it is `/` or ends in two slashes |
| Paths.TwoSlashes | src/fs/fat32_core.c:415-447 | `//` leads to an empty name in the root |
| Runs.WriteThenRead | src/fs/fat32_ops.c:157-350 | open, writes of any lengths, close, open again, reads of any lengths: exactly the accepted bytes come back, in order; a write is accepted in part only if no cluster is free |
| Runs.Take | src/fs/fat32_ops.c:267-404 | every image that an append, a close, a creation or a mkdir with room for the entry leaves at any of its sector writes can be mounted, and is as safe as a power cut may leave it |
| Runs.RemountAfterCut | src/fs/fat32_core.c:801-814 | mounting such an image gives a mounted volume with the image's first table and clusters, and it is safe |
| Runs.Conservation | src/fs/fat32_core.c:115-144 | on every consistent volume free clusters, bad clusters and the lengths of all chains add up to the clusters there are |
| Formatting.FormatDoesNotWrap | src/fs/fat32_core.c:477-487 | for 56 sectors and more no step of the size computation wraps, a cluster is left, and the tables are large enough |
| Formatting.BuildBoot | src/fs/fat32_core.c:489-517 | the boot sector holds the parameters mount reads |
| Formatting.MountReads | src/fs/fat32_core.c:780-794 | on any boot sector, when nothing wraps: the fields mount reads, by byte, the tables behind the reserved sectors, the clusters behind the tables, as many as there is room for |
| Formatting.MountSeesFormat | src/fs/fat32_core.c:772-788 | mount computes the formatter's own geometry |
| Formatting.MountAfterFormat | src/fs/fat32_core.c:772-788 | data behind both tables and inside the volume, an entry for each cluster; in order exactly if cluster numbers fit 28 bits |
| Formatting.ClusterInside | src/fs/fat32_core.c:71-74 | every sector of every cluster lies behind both tables and inside the volume |
| Formatting.ClusterNumbersFit | src/fs/fat32_core.c:477-487 | cluster numbers keep to 28 bits exactly on disks of fewer than 0x80401FE0 sectors |
| Formatting.Format | src/fs/fat32_core.c:473-546 | the image has the boot sector, two tables with only the root's cluster closed, and an empty root |
| Formatting.FreshConsistent | src/fs/fat32_core.c:519-545 | a freshly formatted volume is consistent and empty |
| Formatting.FormatAndMount | src/fs/fat32_core.c:736-833 | formatting and mounting gives a file system in order whose root lists nothing |
| Marks.MarkChain | src/fs/fat32_fsck.c:120-187 | on any table: ends; marks only what is reachable; raises a cross-link exactly if the first marked cluster met belongs to another entry; otherwise, with a new key, claims all that is reachable |
| Marks.ReachedEarly | src/fs/fat32_fsck.c:136-139 | the iteration guard never cuts a walk short: what is reachable at all is reached in as many steps as there are clusters |
| Marks.ReachableInChain | src/fs/fat32_fsck.c:136-187 | from the head of an acyclic chain exactly its clusters are reachable |
| Marks.ClaimAll | src/fs/fsck.c:402-415 | over any run of claims, with entries that begin anywhere and directories walked any number of times: entries whose first claim raised no cross-link share no cluster, and each keeps its whole chain |
| Marks.EntriesApart | src/fs/fsck.c:402-415 | any two different entries for which no cross-link was ever raised share no cluster |
| Marks.EntryZeroMissed | src/fs/fat32_fsck.c:141-153 | a concrete cross-link through entry number 0 that is not raised, though it would be for entry number 1 |
| Fsck.Examine | src/fs/fsck.c:222-398 | what is counted for an entry, exactly; on entries as the driver writes them nothing, and the automaton follows the run and knows where it began |
| Fsck.ExamineRecord | src/fs/fsck.c:236-290 | a record is counted exactly if it neither starts a run nor continues the one before it |
| Fsck.CheckEntry | src/fs/fsck.c:222-398 | what is written for an entry, exactly, on any disk: a stray record is marked deleted; at a short entry the records from the start of the run on, if they are not its own, and then the entry itself, if it is none; otherwise nothing |
| Fsck.ClaimChain | src/fs/fsck.c:402-415 | on any table, an entry loses its chain and its size exactly if its chain runs into a cluster that another entry owns |
| Repairs.DirIterNext | src/fs/fat32_fsck.c:45-65 | on any disk, the entry at the iterator, or failure past the end of the disk; on a directory in order the next entry, and at the end of the chain the sector behind the last cluster |
| Repairs.EditHits | src/fs/fat32_fsck.c:67-81 | an edit hits the entry just read exactly if the iterator did not jump to a cluster elsewhere; otherwise it hits the sector in front of that cluster |
| Repairs.RangeMarkedExactly | src/fs/fat32_fsck.c:83-104 | on a directory of a volume in order, without a jump in the range, the disk differs afterwards by 0xE5 in the first byte of each entry of the range, and nowhere else |
| Repairs.DeleteEntriesRange | src/fs/fat32_fsck.c:83-104 | on any disk, the result of editing where each position of the scan in the range says, in turn; on a directory in order, exactly the entries of the range |
| Repairs.DetachedExactly | src/fs/fat32_fsck.c:194-217 | on a directory of a volume in order the entry with that number, unless it is the last one before a jump, loses its chain and its size, and nothing else on the disk changes |
| Repairs.ZeroEntryCluster | src/fs/fat32_fsck.c:194-217 | on any disk, the entry in front of where that many steps lead loses its chain and size, exactly if these steps stay on the disk |
| Repairs.RepairEntry | src/fs/fsck.c:247-397 | the whole disk afterwards, for every entry: the record marked, or the records of the run, and then the entry if it is invalid |
| Repairs.DetachIfCrossed | src/fs/fat32_fsck.c:194-217 | an entry whose chain ran into another one's loses its chain and size, in one write; otherwise nothing is written |
| Fsck.WalkDir | src/fs/fsck.c:194-426 | on a consistent volume nothing is counted and no repair is made, and exactly the chains at and below the directory are marked |
| Fsck.ViaSplit | src/fs/fsck.c:402-423 | what is found under an entry is its own chain, or below it: the walk meets every chain once |
| Repairs.CheckFatMismatch | src/fs/fsck.c:138-169 | on any disk: the second table becomes a copy of the first, nothing else changes, and there is one write for each sector counted as different |
| Repairs.NoneDiffering | src/fs/fsck.c:148-165 | nothing is counted exactly if the tables agree |
| Fsck.ChimeraFsck | src/fs/fsck.c:430-593 | on a consistent volume with terminated directories at most 32 deep, no error in any check, no repair, no sector written, and the volume stays writable |
| Scheduler.ApplyKeepsInv | src/kernel/idt.asm:181-224 | every event keeps: only the current slot runs or has just exited, and task 0 is ready whenever it is not current |
| Scheduler.NextInCycle | src/kernel/idt.asm:181-199 | the next task is the first ready one in cyclic order behind the current one, or the current one if there is none |
| Scheduler.FiveTicks | src/kernel/idt.asm:169-177 | a task keeps the processor for exactly five timer ticks |
| Scheduler.SuccessorExists | src/proc/sched.c:103-114 | an exiting task always finds a successor |
| Scheduler.ZombieStays | src/kernel/idt.asm:196-224 | a zombie that was switched away from is never dispatched and its slot never used again |
| Scheduler.SwitchComesCloser | src/kernel/idt.asm:181-219 | every switch dispatches a waiting slot or comes closer to it |
| Scheduler.PatienceRunsOut | src/kernel/idt.asm:156-219 | every tick and every yield uses up part of at most fifteen waits; nothing gives it back |
| Scheduler.BoundedWaiting | src/kernel/idt.asm:156-287 | over any run a ready slot is dispatched within fifteen timer ticks and yields |
| Scheduler.ScanIsSound | src/proc/sched.c:318-336 | on every run since boot, slots seen done one after the other with interrupts on are all done at the end, although other tasks may spawn in between |
| Scheduler.PackedSinceBoot | src/proc/sched.c:206-213 | on every run since boot the slots in use are the lowest ones |
| Kernels.Kernel.SaveContext | src/kernel/idt.asm:138-155 | the thirteen words of the frame hold the registers as they were, below the stack pointer and nowhere else |
| Kernels.Kernel.RestoreContext | src/kernel/idt.asm:226-233 | the registers become those of the frame |
| Kernels.Kernel.ScanReady | src/kernel/idt.asm:181-199 | the scan loop finds the next ready slot in round-robin order, or none |
| Kernels.Kernel.Irq0Handler | src/kernel/idt.asm:138-233 | schedules as the state machine says, writes no word outside the interrupted task's own stack, and leaves the context of every task, running or parked, as it was |
| Kernels.Kernel.YieldHandler | src/kernel/idt.asm:239-293 | the same for the yield interrupt |
| Kernels.Kernel.BuildFrame | src/proc/sched.c:231-254 | the frame of a new task restores to the trampoline with the entry function in EBX, CS 0x10, DS and ES 0x18, EFLAGS 0x202 and zero in the other registers |
| Kernels.Kernel.SpawnTask | src/proc/sched.c:206-272 | a new task takes the first unused slot and is parked in its first frame; no other task's stack is touched |
| Kernels.Kernel.ExitTask | src/proc/sched.c:101-104 | the current task becomes a zombie, and everything else is kept |
| Kernels.ResumedAsLeft | src/kernel/idt.asm:138-293 | a task is resumed with the registers, stack pointer and stack it was suspended with, a new one with those it was made with |
| Kernels.Act | src/kernel/idt.asm:138-293 | a tick or yield changes who runs and no task's context; a spawn adds a context at the trampoline; an instruction changes the context of the task that executes it |
| Kernels.Interleave | src/kernel/idt.asm:138-293 | over any interleaving of ticks, yields, exits, spawns and task instructions, taken as long as the next action is a possible one, every moment follows from the one before as its action says |
| Kernels.TraceSchedules | src/kernel/idt.asm:138-293 | along such a run the scheduler goes through exactly the events the actions cause |
| Kernels.UndisturbedBetween | src/kernel/idt.asm:138-293 | along such a run a task's registers, stack pointer and stack stay as they are for as long as it executes no instruction itself |
| Compositors.Compositor.CreateWindow | src/gui/compositor.c:95-136 | the new window is in the first free slot and on top with the focus; it fails exactly if all slots are taken |
| Compositors.Compositor.CloseWindow | src/gui/compositor.c:140-164 | the window leaves the order, the others keep theirs, and the focus is on the top one |
| Compositors.Compositor.BringToFront | src/gui/compositor.c:168-203 | the window is on top with the focus, the others keep their order |
| Compositors.Compositor.RenderWindow | src/gui/compositor.c:290-356 | every cell of the window on the screen shows the window's look, and no other cell changes |
| Compositors.TitleShows | src/gui/compositor.c:296-326 | the title bar shows the focus in its colour, the title as far as there is room, and the close button |
| Compositors.Compositor.Paint | src/gui/compositor.c:358-365 | every cell of the screen shows the topmost window that covers it, or the desktop |
| Compositors.Compositor.HitTest | src/gui/compositor.c:387-399 | the topmost window that covers the point, or -1 |
| Compositors.OwnerIsTopmost | src/gui/compositor.c:387-399 | the window that owns a cell covers it and none above it in the order does; there is none exactly if no window covers the cell |
| Compositors.Compositor.PaintAgreesWithHitTest | src/gui/compositor.c:290-399 | every cell shows the window the hit test finds there |

## Left out

- Sector reads and writes always succeed; the branches for I/O errors are not modelled. A power cut is the only failure.
- Volumes have at least two sectors per cluster and at most two tables. With one sector per cluster a long run can need
  more than the one cluster a directory is extended by.
- Names are 1 to 255 nonzero bytes whose short form does not begin with 0xE5, the mark of a deleted entry.
- `fat32_seek`: on write descriptors it does not agree with the lazy way `fat32_write` goes on to the next cluster.
- `fat32_copy`, `fat32_rename`, `fat32_append_file`, `fat32_readdir`, `fat32_stat` and `fat32_filesize` are compositions or
  repeat the scans modelled here.
- FileSystems.FileSystem.Write: a file is kept below 4 GiB; the C code would wrap its 32-bit position.
- FileSystems.FileSystem.Open: a file that is open is not opened for writing at the same time, which `fat32_open` does not
  check; a name that cannot be stored is not created (`CreateNameless` says what happens to an empty one).
- FileSystems.FileSystem.Unlink: an open file is not removed; `fat32_unlink` does not check.
- Volumes.Volume.Mount: with three or more tables, mount would repair the second one only.
- Volumes.Volume.RepairMirror: the same.
- Formatting.FormatAndMount: on disks whose cluster numbers need more than 28 bits the mounted volume is not in order.
- PowerCuts.StaleExactly: the entries of the stale cluster do not happen to name the very cluster just taken for the new
  entry.
- The entry number in `dir_pos_t` is not used by any caller and is not kept.
- Adopting orphans into `/lost+found` is not part of this model. `Fsck.Examine` and `Marks.MarkChain` say when something is
  counted, on any entry and any table, `Fsck.CheckEntry` and `Fsck.ClaimChain` what is written then.
- Addresses of cluster numbers far outside the volume do not wrap at 32 bits: the checker's reads there fail.
- Fsck.WalkDir: stated for consistent volumes; the walk of a damaged tree, where repairs change what is walked, is not. What
  is counted and written for one entry is stated on any disk by `Fsck.CheckEntry` and `Fsck.ClaimChain`.
- Fsck.ChimeraFsck: counts every unreachable cluster, not only those the neighbour rule takes for the head of a chain.
- The reachability bitmap is an array of booleans; the packing of eight marks to a byte is not modelled.
- `fat32_fsck_repair` and its helpers are no longer called.
- MBR parsing, volume labels and the FSInfo sector.
- Kernels.Kernel.Irq0Handler: registers and memory hold natural numbers and addresses count words; wrap-around of counters
  and the programming of the interrupt controller are not modelled. A task keeps room for one frame on its stack.
- Kernels.Kernel.SpawnTask: one step; `sched_spawn` runs with interrupts on, so that two tasks that spawn at the same time
  can pick the same slot.
- `kmalloc` is a parameter: it returns memory apart from all stacks in use, or nothing.
- Compositors.Compositor.Paint: the mouse cursor's inversion and the copy to video memory are left out; windows have at
  least one row and one column, since a window without is drawn at its corners but never hit.
- Window contents (`comp_win_putchar`) and input handling; 32-bit overflow of window coordinates.
