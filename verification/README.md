# MiniOrangeOS: a verified model

MiniOrangeOS is a small 32-bit kernel with an inode file system, plus host tools that make and check
its volumes. This project models the stateful parts of it in Dafny and proves what they keep over
every input and every run:

* **MiniFS** (`kernel/fs/minifs.c`). The disk is an array of 4096-byte blocks behind the scratch
  buffers of the kernel; bitmaps, inode records, pointers and directory entries are bytes in those
  blocks. Every operation is proved, byte by byte, to refine an operation on a tree of files, to keep
  the volume well formed, and to leave a usable tree behind wherever its sequence of block writes is cut.
* **The host tools** (`tools/mkfs.py`, `tools/fsck.py`, `tools/minifs.py`). The checker accepts exactly the
  clean volumes; the builder makes volumes that it accepts; made, mounted, used and checked fit together.
* **The scheduler** (`kernel/proc/scheduler.c`) as a state machine over its steps, with an invariant of all
  runs, wake-ups that cannot be lost, bounded waiting and exact sleeping across counter wrap-around.
* **Memory**: the first-fit heap on its doubly linked headers, the page-frame pool, two-level page tables
  with exact ownership of frames, the ELF loader and the initial user stack.
* **The open-file table, path normalisation, the shell's word splitter and the line editor**: in-place
  code refining short pure functions.

## How the files fit together

| files | contents |
|---|---|
| `Errno`, `Bytes` | error numbers; little-endian words, bit sets, splices |
| `Layout`, `Volume`, `BlockOps`, `Crash` | the disk format; what a sound volume is; what each kind of block write does to it; what an interrupted write leaves |
| `Mount`, `FileOps`, `DirOps`, `PathOps`, `Kernel` | the kernel's code, from bitmap bits up to whole runs of operations |
| `Directory`, `Tree`, `FileSystem`, `TreeLaws` | directory contents as maps, trees of files, path lookup, what operations do to paths |
| `DiskFormat` | the format byte by byte |
| `Crc32`, `CrcRemainder`, `Superblock`, `Mkfs`, `NewVolume`, `Fsck`, `DirectoryWalk` | superblock and host tools |
| `WholeVolume`, `Lifecycle` | mounting and checking any disk; made, mounted, used and checked |
| `Processes`, `SchedulerSteps`, `Scheduling`, `SchedulerRuns`, `ProcessFates`, `Scheduler` | steps, what they do slot by slot, invariant, runs, what becomes of a process over runs, and the code on the process table |
| `HeapModel`, `Heap`, `HeapRanges` | the heap as a list of blocks, the code on linked headers, and allocated ranges |
| `Frames`, `Paging`, `AddressSpaces`, `ElfFormat`, `ElfLoader`, `ElfImages`, `UserStack` | frames, page tables, program loading |
| `Listing`, `Vfs`, `OpenOutcomes`, `Paths`, `ShellWords`, `ShellGrammar`, `Editor` | directory reading, open files, paths, shell words, text lines |

Main definitions: `Volume.Sound` (bitmaps equal ownership, no block has two owners, pointers past the size are
zero), `Trees.IsTree` (one tree of directories with right dot entries, every inode reachable, link counts equal
references), `FileSystem.WellFormed` (both, and one name per regular file), `FileSystem.CrashSafe`,
`Scheduling.Valid`, `HeapModel.HeapOK`, `Paging.SpaceOK`, `Vfs.Linked`.

## Findings

Four properties that one might expect do not hold of the code. Each has a lemma at an input and an exact condition:

* `mkfs` checks import names with the directory-entry encoder, which admits "." and "..", so it builds volumes that
  `fsck` rejects (`NewVolume.DotImportRefused`). These two names are the only obstacle: `NewVolume.AcceptedIff`, and
  `Lifecycle.MakeAndCheck` for the two tools run one after the other.
* `waitpid` may report ECHILD to a process that has a live child (`ProcessFates.LiveChildDenied` gives a run of five
  steps from boot). `ProcessFates.NoChildIff` says exactly when: there is no matching child, or none of them has
  exited and no process is ready. The cause is a boot process that waits or sleeps (`BootMaySleep`; it is never woken,
  `BootSleepsForever`). While it only yields and creates processes, ECHILD means no child in every run (`OthersProceed`).
* Replacing an unterminated last line of the editor's buffer by nothing removes the line
  (`Editor.EmptyReplacement`); `Editor.ReplaceMeans` and `Editor.TextBuffer.ReplaceLine` state the exact condition.
* A path normalised by `normalize_path` may end in a slash, that is, with an empty string after its last slash
  (`Paths.TrailingSlashKept`). `Paths.NormalizedIsNormal` says exactly when: the input ends in one and names are left.
  Nowhere else do two slashes meet.

## Model

| member | source | states |
|---|---|---|
| `Bytes.WordOfSetWord` | kernel/fs/minifs.c:65-83 | storing a 32-bit little-endian word at one index changes that word and no other |
| `Bytes.Le32Injective` | kernel/fs/minifs.c:65-69 | four bytes are determined by the word they encode |
| `Bytes.BitOfSetBit` | kernel/fs/minifs.c:304-322 | setting or clearing one bitmap bit of a block changes that bit and no other |
| `Layout.DecodeEncodeInode` | kernel/fs/minifs.c:362-416 | decoding an encoded 64-byte inode record gives the inode back |
| `Layout.WriteBlockBit` | kernel/fs/minifs.c:304-322 | flipping a bit of the block bitmap on disk is that flip in the abstract volume and changes nothing else |
| `Layout.WriteInodeBit` | kernel/fs/minifs.c:304-322 | the same for the inode bitmap |
| `Layout.WriteRecord` | kernel/fs/minifs.c:480-503 | overwriting one 64-byte record of the inode table changes one inode of the abstract volume and nothing else |
| `Layout.WriteData` | kernel/fs/minifs.c:184-193 | overwriting a data block leaves all metadata as it is |
| `Volume.Replace` | tools/fsck.py:138-209 | a volume in which one inode and its blocks were exchanged for a sound one, with bitmaps to match, is sound, and all other files are unchanged |
| `BlockOps.Overwrite` | kernel/fs/minifs.c:1575-1592 | storing bytes inside allocated blocks turns the contents into the old ones with those bytes written over, and keeps the volume sound |
| `BlockOps.Attach` | kernel/fs/minifs.c:1596-1652 | linking a new block, directly, through the indirect block, or with a new indirect block, appends its bytes to the file and keeps the volume sound |
| `BlockOps.Create` | kernel/fs/minifs.c:1042-1050 | a fresh inode adds an empty file and changes no other |
| `BlockOps.CreateDirectory` | kernel/fs/minifs.c:1168-1192 | a fresh inode with one block adds a directory with that content and changes no other file |
| `BlockOps.Release` | kernel/fs/minifs.c:1107-1143 | clearing an inode's record, number and exactly its blocks removes the file and leaves the bitmaps exact |
| `BlockOps.Shrink` | kernel/fs/minifs.c:1757-1811 | clearing the pointers past a smaller size and the bits of their blocks gives the prefix of the contents and keeps the volume sound, across the boundary between direct and indirect blocks |
| `Crash.PaddedShows` | kernel/fs/minifs.c:1042-1051 | further allocated blocks and inodes that belong to nobody do not hide any file |
| `Crash.PendingPointerShows` | kernel/fs/minifs.c:1627-1652 | a pointer stored in the indirect block before the inode's new size is not seen yet |
| `Crash.ShowsIgnoresLinks` | kernel/fs/minifs.c:995-1011 | what shows a set of files shows any part of it, whatever the link counts |
| `Crash.ClearedTailShows` | kernel/fs/minifs.c:1757-1781 | clearing indirect pointers past the new size before the inode is written leaves pointers that read as zero and damages no other file |
| `Mounted.Mount.constructor` | kernel/fs/minifs.c:1288-1289 | a mount of a decoded geometry stands for the abstract volume that its disk encodes |
| `Mounted.Mount.BitmapBitSet` | kernel/fs/minifs.c:290-302 | reports the bit of the bitmap, and false past its blocks |
| `Mounted.Mount.BitmapUpdate` | kernel/fs/minifs.c:304-322 | changes that bit of the disk only, or fails with EIO past the bitmap and changes nothing |
| `Mounted.Mount.AllocateBitmapBit` | kernel/fs/minifs.c:324-360 | takes the lowest clear bit of the range; ENOSPC only if all bits are set, EINVAL exactly for an empty range |
| `Mounted.Mount.PointerShapeValid` | kernel/fs/minifs.c:433-452 | true exactly when pointers inside the size are non-zero and the others zero |
| `Mounted.Mount.ReadInode` | kernel/fs/minifs.c:454-478 | gives the inode of the abstract volume, or the error for a number out of range, a free inode or a bad record |
| `Mounted.Mount.WriteInode` | kernel/fs/minifs.c:480-503 | stores the inode in one block write, or refuses a bad number or pointer shape and writes nothing |
| `Mounted.Mount.AllocateInode` | kernel/fs/minifs.c:505-514 | takes the lowest free inode from 1 on in one block write; ENOSPC only if all are used |
| `Mounted.Mount.FreeInode` | kernel/fs/minifs.c:516-525 | clears the bit of any inode but the root |
| `Mounted.Mount.ClearInodeRecord` | kernel/fs/minifs.c:527-549 | zeroes the record of any inode but the root in one block write |
| `Mounted.Mount.BlockAllocated` | kernel/fs/minifs.c:551-562 | true exactly for data blocks of the volume whose bit is set |
| `Mounted.Mount.AllocateBlock` | kernel/fs/minifs.c:564-587 | takes the lowest free data block and zeroes it, bit first; ENOSPC exactly when none is free |
| `Mounted.Mount.FreeBlock` | kernel/fs/minifs.c:589-597 | clears the bit of a data block and nothing else |
| `Mounted.Mount.InodeBlockAt` | kernel/fs/minifs.c:599-629 | gives the block of a slot, with EINVAL past the size and EIO for pointers to unallocated blocks |
| `FileOps.TakeBlocks` | kernel/fs/minifs.c:1596-1614 | takes one block, or two of which the second is zeroed; succeeds exactly if there is room for all of them, and otherwise gives the first one back |
| `FileOps.WriteInPlace` | kernel/fs/minifs.c:1575-1592 | rewrites part of an allocated block; before and after the size is stored, every other file reads as before |
| `FileOps.StorePointer` | kernel/fs/minifs.c:1627-1650 | links the new block through the indirect block in one write that no reader of the volume sees |
| `FileOps.StoreNewBlock` | kernel/fs/minifs.c:1615-1672 | fills and links the new block and stores the size, or gives the block back when the file is at its limit |
| `FileOps.WriteNewBlock` | kernel/fs/minifs.c:1593-1672 | appends a chunk in a new block; ENOSPC exactly without room, and then the files are untouched and the bitmaps exact |
| `FileOps.WriteChunk` | kernel/fs/minifs.c:1559-1672 | one chunk is written or nothing is; every disk state on the way shows the old files, the old files with the bytes, or the new files |
| `FileOps.WriteLoop` | kernel/fs/minifs.c:1703-1720 | the file holds the old contents with the first `completed` bytes written over; it stops early only without room for the next chunk |
| `FileOps.Write` | kernel/fs/minifs.c:1674-1726 | a write at an offset up to the size that returns k gives old[..off] + data[..k] + old[off+k..]; k is short only without room; errors change nothing |
| `FileOps.Read` | kernel/fs/minifs.c:1366-1422 | returns the slice of the contents that starts at the offset, cut off at the size; errors as for a missing inode or a directory |
| `FileOps.FreeSlotsFrom` | kernel/fs/minifs.c:1782-1809 | clears the bits of exactly the blocks in slots from `lo` on, including the indirect block when no indirect slot is left |
| `FileOps.ShortenRecord` | kernel/fs/minifs.c:1748-1781 | clears the pointers past the new size, indirect block first, and remembers the old ones; no other file changes on the way |
| `FileOps.Truncate` | kernel/fs/minifs.c:1728-1811 | gives the prefix of the contents, with stale bytes after it unreachable; exact errors, which change nothing |
| `Directory.DecodeEncodeEntry` | kernel/fs/minifs.c:936-948 | decoding an encoded 64-byte entry gives child, kind and name back |
| `Directory.AddEntry` | kernel/fs/minifs.c:950-1012 | writing an entry in the first unused slot, or at the end, adds exactly that name to the directory's map and keeps names unique |
| `Directory.RemoveEntry` | kernel/fs/minifs.c:1239-1250 | zeroing the slot of a name removes exactly that name |
| `Trees.AddFileKeepsTree` | kernel/fs/minifs.c:1020-1063 | adding a new file under a new name keeps the tree: reachability, dot entries, link counts, one name per file |
| `Trees.AddFolderKeepsTree` | kernel/fs/minifs.c:1145-1202 | adding a new directory with "." and "..", and one more link to its parent, keeps the tree |
| `Trees.RemoveKeepsTree` | kernel/fs/minifs.c:1204-1265 | removing a file or an empty directory, and the parent's link for a directory, keeps the tree |
| `Trees.SetContentKeepsTree` | kernel/fs/minifs.c:1559-1672 | changing the bytes of a regular file keeps the tree |
| `Trees.Reachable` | tools/fsck.py:282-285 | in a tree some path of names without dots leads from the root to every inode |
| `DirOps.NameValid` | kernel/fs/minifs.c:631-653 | accepts exactly the 59-byte fields that hold a valid name padded with zeros |
| `DirOps.FindInBlock` | kernel/fs/minifs.c:704-749 | finds the first entry of that name in the block, or the first bad entry before it |
| `DirOps.DirectoryFind` | kernel/fs/minifs.c:683-754 | the outcome of scanning all entries of the directory in order, and EINVAL for names of a bad length |
| `DirOps.ScanIsLookup` | kernel/fs/minifs.c:683-754 | in a consistent directory the scan finds exactly the names of the directory's map |
| `DirOps.NextComponent` | kernel/fs/minifs.c:806-822 | isolates the next path component, and rejects one that is too long or not ASCII |
| `DirOps.LookupPath` | kernel/fs/minifs.c:789-856 | returns the inode that walking the path through the tree of files gives, with the same error at the same component |
| `DirOps.ResolveParent` | kernel/fs/minifs.c:858-929 | returns the directory and last name of a path as defined on the tree, with the same errors, refusing "." and ".." |
| `DirOps.FindFreeSlot` | kernel/fs/minifs.c:972-987 | the first unused slot of the directory, or its end |
| `DirOps.DirectoryAppend` | kernel/fs/minifs.c:950-1012 | stores the entry and the parent's new link count, or changes no file; EINVAL and ENOSPC in exactly the stated cases; every disk state shows the files as they were or as they are in the end |
| `DirOps.DirectoryEmpty` | kernel/fs/minifs.c:1065-1105 | reports the first entry other than the dots, or a bad one |
| `DirOps.EmptyIsDotsOnly` | kernel/fs/minifs.c:1065-1105 | on a consistent volume it succeeds exactly when the directory's map has only the two dots |
| `PathOps.Rollback` | kernel/fs/minifs.c:1014-1018 | undoing a created inode restores the files and well-formedness, and shows the old files all the time |
| `PathOps.CreateFile` | kernel/fs/minifs.c:1020-1063 | adds an empty file with the lowest free inode under the path, or fails for a bad path, an existing name, or exactly without an inode or a block that is needed, without changing the tree; keeps well-formedness; every disk state on the way shows exactly the old files or the new ones |
| `PathOps.BuildFolder` | kernel/fs/minifs.c:1172-1192 | gives the new inode a block with its two dot entries, or undoes the inode when no block is free |
| `PathOps.RollbackFolder` | kernel/fs/minifs.c:1196-1200 | undoing a built directory restores the files and well-formedness, and shows the old files all the time |
| `PathOps.NameFolder` | kernel/fs/minifs.c:1193-1201 | enters the new directory into its parent, or undoes it exactly if the entry cannot be stored |
| `PathOps.MakeDirectory` | kernel/fs/minifs.c:1145-1202 | adds a directory with its dots and the parent's link, or fails in exactly the stated cases without changing the tree; keeps well-formedness; every disk state on the way shows exactly the old files or the new ones |
| `PathOps.ReleaseInode` | kernel/fs/minifs.c:1107-1143 | frees all blocks, the record and the number of an inode without a name; the disk states on the way differ only in what nobody reaches |
| `PathOps.ClearEntry` | kernel/fs/minifs.c:1239-1263 | zeroes the entry and stores the parent's link count; from the first write on the directory without the entry shows |
| `PathOps.Unlink` | kernel/fs/minifs.c:1204-1265 | removes the name and its inode, refuses directories that are not empty, and changes nothing on errors; keeps well-formedness; every disk state on the way shows exactly the old files or the new ones |
| `Kernel.WriteFile` | kernel/fs/minifs.c:1674-1726 | on the tree: sets the contents of one file as `FileOps.Write` says and leaves every other file alone, in every disk state on the way |
| `Kernel.TruncateFile` | kernel/fs/minifs.c:1728-1811 | on the tree: cuts one file's contents, with the exact errors, and leaves every other file alone, in every disk state on the way |
| `Kernel.ReadFile` | kernel/fs/minifs.c:1366-1422 | on the tree: the slice of the file's contents |
| `Kernel.WriteReadBack` | kernel/fs/minifs.c:1674-1726 | what a write stored is read back |
| `Kernel.Run` | kernel/fs/minifs.c:1424-1470 | any sequence of create, mkdir, unlink, write and truncate calls, each succeeding or failing, keeps a well-formed volume well formed, and every disk state after any block write is crash safe |
| `Kernel.CrashSafeEntries` | kernel/fs/minifs.c:1042-1051 | in a crash-safe disk state every directory entry reached from the root names an allocated inode of the kind it says |
| `Kernel.CrashSafePointers` | kernel/fs/minifs.c:1605-1652 | and every non-zero pointer inside the size of a reachable inode refers to an allocated block that no other pointer of a reachable inode refers to |
| `Listing.NextEntry` | kernel/fs/minifs.c:1496-1550 | what scanning the slots from one on gives on any directory: an entry, the end, or EIO at the first damaged slot |
| `Listing.FollowingIsNext` | kernel/fs/minifs.c:1496-1550 | in a consistent directory nothing is damaged and the scan stops at the next used slot |
| `Listing.ReadDirectory` | kernel/fs/minifs.c:1472-1557 | returns the next name with its link and moves the offset behind it, 0 at the end, and the exact errors |
| `Listing.NamesOnce` | kernel/fs/minifs.c:1472-1557 | successive calls never return a name twice |
| `Listing.ListDirectory` | user/programs/ls.c:66-77 | calling until the end gives every name of the directory exactly once |
| `TreeLaws.WalkMeans` | kernel/fs/minifs.c:789-856 | walking components gives the inode that they lead to one after the other, or the error of the first one that leads nowhere: EINVAL, EIO, ENOTDIR or ENOENT |
| `TreeLaws.OutcomeUnique` | kernel/fs/minifs.c:789-856 | there is no other outcome |
| `TreeLaws.LookupMeans` | kernel/fs/minifs.c:789-856 | looking up a path: rooted, below 256 bytes, and a slash at its end asks for a directory |
| `TreeLaws.ParentMeans` | kernel/fs/minifs.c:858-929 | the directory and name that a path stands for: all components but the last lead to the directory and the last is no dot; exact errors |
| `TreeLaws.CreateMeans` | kernel/fs/minifs.c:1020-1063 | after create the path leads to a new empty file, where it led nowhere before; all paths that led somewhere lead there still, and no file changes |
| `TreeLaws.MkdirMeans` | kernel/fs/minifs.c:1145-1202 | the same for a directory, which lists its two dots and nothing else |
| `TreeLaws.UnlinkMeans` | kernel/fs/minifs.c:1204-1265 | after unlink the path leads nowhere and its inode is gone; no path leads elsewhere than before, and paths to other inodes that do not take ".." through a removed directory lead there still |
| `TreeLaws.ContentMeans` | kernel/fs/minifs.c:1674-1811 | writing or truncating a file changes no path and no other file |
| `DiskFormat.SuperblockBytes` | include/minios/abi/minifs.h:19-33 | a block encodes a layout if and only if it has "MFS1", the numbers at their offsets with the lowest byte first, the CRC-32 of the rest, and zeros after it |
| `DiskFormat.InodeBytes` | include/minios/abi/minifs.h:35-42 | where the fields of an inode stand in its 64 bytes |
| `DiskFormat.RecordMeans` | kernel/fs/minifs.c:388-400 | which records are inodes |
| `DiskFormat.BitmapBytes` | kernel/fs/minifs.c:290-322 | which bit of which byte of which block a bitmap bit is |
| `DiskFormat.TableBytes` | kernel/fs/minifs.c:454-478 | which bytes of which block an inode record is |
| `DiskFormat.ContentBytes` | kernel/fs/minifs.c:599-629 | which byte of which block a byte of a file is: ten direct blocks, and then the words of the indirect block |
| `DiskFormat.EntryBytes` | kernel/fs/minifs.c:936-948 | the 64 bytes of a directory entry |
| `DiskFormat.EntryMeans` | kernel/fs/minifs.c:631-681 | entries that are accepted are all zero, or name an inode of kind 1 or 2 by 1 to 58 ASCII bytes other than NUL and slash, padded with zeros |
| `Crc32.BitStepInjective` | kernel/fs/minifs.c:123-127 | each bit step of the CRC register is a bijection on 32-bit states |
| `Crc32.RegisterInjective` | kernel/fs/minifs.c:109-130 | absorbing the same bytes keeps different register states different |
| `Crc32.BurstDetected` | kernel/fs/minifs.c:109-130 | two inputs that differ in up to four neighbouring bytes have different checksums |
| `CrcRemainder.PolynomialTerms` | kernel/fs/minifs.c:13 | the constant has the terms of the CRC-32 polynomial with exponents 26, 23, 22, 16, 12, 11, 10, 8, 7, 5, 4, 2, 1 and 0, bit-reversed |
| `CrcRemainder.RegisterIsRemainder` | kernel/fs/minifs.c:109-130 | the register is the remainder, over the two-element field, of the start value above the message and the message with 32 places after it |
| `CrcRemainder.RemainderUnique` | kernel/fs/minifs.c:109-130 | there is only one such remainder |
| `CrcRemainder.ChecksumIsCrc32` | kernel/fs/minifs.c:109-130 | a number is the checksum of some bytes if and only if it is their CRC-32, as defined by that division |
| `Superblock.SuperblockCrc` | kernel/fs/minifs.c:109-130 | computes the checksum of the block with its checksum field read as zero, which is its CRC-32 by `CrcRemainder.ChecksumIsCrc32` |
| `Superblock.ReservedZero` | kernel/fs/minifs.c:195-207 | true exactly when all bytes after the header are zero |
| `Superblock.DecodeSuperblock` | kernel/fs/minifs.c:209-288 | accepts exactly the blocks that the host encodes for a valid geometry of that volume size, and returns that geometry |
| `Superblock.RegionsFit` | kernel/fs/minifs.c:239-275 | the region arithmetic does not wrap around for accepted totals, and the geometry is valid exactly when a data block is left and the root is in range |
| `Superblock.OneByteChange` | kernel/fs/minifs.c:209-288 | changing any one byte of a superblock makes it rejected, by the kernel and by the host |
| `Superblock.MadeIff` | tools/minifs.py:207-233 | the host makes a superblock for exactly the totals that have a layout, and the kernel accepts it if and only if the inode table can be measured in 32 bits |
| `Superblock.MadeUnique` | tools/minifs.py:207-233 | the host finds the only layout with root 0 for the totals |
| `Superblock.EncodeInjective` | tools/minifs.py:236-263 | a superblock determines its geometry, so encoding and decoding are inverse |
| `Mkfs.Builder.constructor` | tools/mkfs.py:103-124 | a new volume has its metadata, and everything past its end, marked as used, and no files |
| `Mkfs.Builder.MarkMetadata` | tools/mkfs.py:113-124 | the loops mark exactly the metadata blocks and the bits past the end of both bitmaps |
| `Mkfs.Builder.MarkBlock` | tools/mkfs.py:126-127 | sets one bit of the block bitmap in the payload |
| `Mkfs.Builder.MarkInode` | tools/mkfs.py:129-130 | sets one bit of the inode bitmap in the payload |
| `Mkfs.Builder.AllocateBlock` | tools/mkfs.py:132-138 | hands out blocks in order and fails exactly at the end of the volume |
| `Mkfs.Builder.WriteInode` | tools/mkfs.py:140-148 | stores the record and marks the inode; fails exactly for numbers out of range |
| `Mkfs.Builder.FillBlocks` | tools/mkfs.py:155-161 | stores the file in consecutive blocks, the last one padded with zeros |
| `Mkfs.Builder.FillPointers` | tools/mkfs.py:165-171 | fills the indirect block with the pointers past the direct ones |
| `Mkfs.Builder.WriteFile` | tools/mkfs.py:150-181 | adds exactly that file, keeps the volume sound, and succeeds exactly when number, size and space allow |
| `Mkfs.Builder.WriteDirectory` | tools/mkfs.py:183-208 | adds a directory of at most 64 entries with that content and keeps the volume sound |
| `Mkfs.EntriesAre` | tools/mkfs.py:189-192 | entries with distinct names written one after the other form exactly that directory map |
| `NewVolume.WriteImports` | tools/mkfs.py:244-245 | all imports are stored, or the volume is too small for them |
| `NewVolume.FillVolume` | tools/mkfs.py:215-246 | the volume holds root, bin and the imports, and the superblock; it fails exactly when they do not fit |
| `NewVolume.BuildVolume` | tools/mkfs.py:215-246 | the same from a block count: fails exactly when metadata or data does not fit |
| `NewVolume.BuiltIsTree` | tools/mkfs.py:215-246 | without imports called "." or ".." the new volume's files form a tree with right link counts |
| `NewVolume.AcceptedIff` | tools/mkfs.py:77-99 | a new volume is well formed, and accepted by the checker, if and only if no import is called "." or ".." |
| `NewVolume.DotImportRefused` | tools/mkfs.py:77-99 | an import called "." passes the checks on imports, and the volume built from it has no ownership that makes it clean |
| `Fsck.Checker.constructor` | tools/fsck.py:115-119 | starts with the metadata blocks claimed and nothing else |
| `Fsck.Checker.ClaimDataBlock` | tools/fsck.py:128-136 | claims a data block once; a refusal means that no ownership makes the volume sound |
| `Fsck.Checker.ClaimDirect` | tools/fsck.py:157-167 | claims exactly the direct blocks inside the size; a refusal means the volume is unsound |
| `Fsck.Checker.ClaimIndirect` | tools/fsck.py:168-188 | claims the indirect block and its pointers inside the size and finds zeros after them; a refusal means the volume is unsound |
| `Fsck.Checker.LoadInode` | tools/fsck.py:138-194 | one inode is recorded with its blocks, or the volume is unsound |
| `Fsck.Checker.LoadInodes` | tools/fsck.py:138-194 | all allocated inodes are recorded and their blocks are disjoint, or the volume is not clean |
| `Fsck.Checker.CheckBlockBits` | tools/fsck.py:196-201 | used bits equal metadata and claimed blocks, or the volume is not clean |
| `Fsck.Checker.CheckBitmapCoverage` | tools/fsck.py:196-209 | the volume is sound, or it is not clean |
| `Fsck.Checker.ReadInodeContent` | tools/fsck.py:211-219 | returns the file's contents |
| `Fsck.DecodeName` | tools/fsck.py:221-233 | accepts exactly the fields that hold a name padded with zeros, and returns the name |
| `Fsck.Checker.ReadEntry` | tools/fsck.py:248-271 | one entry is unused, or names an allocated inode of its kind under a new name; otherwise the volume is not clean |
| `Fsck.Checker.ReadEntries` | tools/fsck.py:246-271 | the directory's map and the reference counts, or the volume is not clean |
| `Fsck.Checker.VisitDirectory` | tools/fsck.py:242-275 | the visited directory is in order and its dots lead to itself and its parent, or the volume is not clean |
| `Fsck.Checker.CheckDirectories` | tools/fsck.py:235-295 | the walk ends on every volume, and accepts exactly the trees that contain all allocated inodes with matching link counts; the number of directories is right |
| `Fsck.Checker.CheckLinks` | tools/fsck.py:286-291 | all link counts equal the counted references, or the volume is not clean |
| `Fsck.Checker.Run` | tools/fsck.py:297-301 | accepts if and only if some ownership makes the volume clean, and reports the right numbers of inodes, regular files and directories |
| `DirectoryWalk.Visiting` | tools/fsck.py:241-281 | visiting the head of the queue keeps the walk's invariant: what was reached, from where, and at what depth |
| `DirectoryWalk.FinishedIsTree` | tools/fsck.py:235-295 | a finished walk over entries in order that reached every inode proves that the directories form one tree |
| `DirectoryWalk.VisitedTwice` | tools/fsck.py:243-244 | a directory met twice means that there is no tree |
| `DirectoryWalk.Unreached` | tools/fsck.py:282-285 | an inode that was not reached means that there is no tree |
| `WholeVolume.HostDecode` | tools/fsck.py:73-104 | accepts a block if and only if it encodes a layout for that volume size with root 0, and returns it |
| `WholeVolume.CheckVolume` | tools/fsck.py:72-301 | accepts a disk, whatever its blocks hold, if and only if its first block encodes a layout for its size with root 0 and the rest is a clean volume of that layout |
| `WholeVolume.ChecksPass` | kernel/fs/minifs.c:1289-1302 | passes exactly if the metadata blocks are marked as used and the root is a readable directory |
| `WholeVolume.MountVolume` | kernel/fs/minifs.c:1267-1312 | mounts a disk, whatever its blocks hold, if and only if the superblock is accepted and those checks pass |
| `WholeVolume.CleanMounts` | kernel/fs/minifs.c:1267-1312 | every clean volume passes the checks |
| `Lifecycle.MakeAndCheck` | tools/mkfs.py:215-246 | what mkfs builds is accepted by fsck if and only if no import is called "." or ".." |
| `Lifecycle.ImportFound` | tools/mkfs.py:215-246 | in a new volume the path "/bin/" and the name of an import leads to a file with its bytes |
| `Lifecycle.UseAndCheck` | tools/fsck.py:297-301 | a mounted well-formed volume is accepted by fsck after any operations, and every disk state on the way is crash safe |
| `Lifecycle.MakeUseCheck` | tools/mkfs.py:215-246 | a volume made by mkfs is mounted by the kernel, keeps every disk state crash safe through any operations, and is accepted by fsck afterwards |
| `Scheduler.ProcessTable.constructor` | kernel/proc/scheduler.c:307-324 | after start-up only the boot process exists and runs |
| `Scheduler.ProcessTable.FindUnusedProcess` | kernel/proc/scheduler.c:157-167 | the first unused slot after slot 0 |
| `Scheduler.ProcessTable.PidInUse` | kernel/proc/scheduler.c:169-180 | true exactly when a live process has that number |
| `Scheduler.ProcessTable.AllocatePid` | kernel/proc/scheduler.c:182-201 | always finds a number that no live process has, also after the counter ran out |
| `Scheduler.ProcessTable.FindNextReady` | kernel/proc/scheduler.c:203-215 | the first ready slot in cyclic order after the given one |
| `Scheduler.ProcessTable.SwitchTo` | kernel/proc/scheduler.c:217-235 | gives the processor and a full slice to the slot |
| `Scheduler.ProcessTable.WakeWaitingParent` | kernel/proc/scheduler.c:237-251 | readies exactly the blocked processes with the child's parent number that wait for it or for any child |
| `Scheduler.ProcessTable.ExitCurrent` | kernel/proc/scheduler.c:253-269 | does the exit step, keeps the invariant, and panics exactly when no process is ready afterwards |
| `Scheduler.ProcessTable.YieldCurrent` | kernel/proc/scheduler.c:701-715 | does the yield step and keeps the invariant |
| `Scheduler.ProcessTable.SleepCurrent` | kernel/proc/scheduler.c:717-741 | does the sleep step and keeps the invariant; refuses too long sleeps and sleeps that would leave nobody to run |
| `Scheduler.ProcessTable.FindChild` | kernel/proc/scheduler.c:743-762 | the first matching child in slot order |
| `Scheduler.ProcessTable.WaitOnce` | kernel/proc/scheduler.c:774-805 | one round of the waiting loop: reap, refuse or block, as the step says; keeps the invariant |
| `Scheduler.ProcessTable.WaitPidCurrent` | kernel/proc/scheduler.c:764-806 | the whole call up to its result or its block, with EINVAL for bad arguments; `SchedulerSteps` says what it comes to in each case |
| `Scheduler.ProcessTable.ResumeCurrent` | kernel/proc/scheduler.c:774-789 | a caller that was blocked returns at once with the number and exit code of a matching zombie child |
| `Scheduler.ProcessTable.WakeAllSleepers` | kernel/proc/scheduler.c:814-823 | readies exactly the sleepers whose time has come |
| `Scheduler.ProcessTable.OnTick` | kernel/proc/scheduler.c:808-841 | does the tick step on 32-bit counters and keeps the invariant |
| `Scheduler.ProcessTable.CreateProcess` | kernel/proc/scheduler.c:326-381 | a new ready process with a fresh number, exactly when a slot and the resources are there |
| `SchedulerRuns.SomePidFree` | kernel/proc/scheduler.c:182-201 | with 16 slots one of the numbers 1 to 16 is always unused, so allocation cannot fail |
| `SchedulerRuns.NewPidFresh` | kernel/proc/scheduler.c:182-201 | the number given out differs from those of all live processes |
| `Scheduling.YieldKeeps` | kernel/proc/scheduler.c:701-715 | yield keeps the invariant |
| `Scheduling.TickKeeps` | kernel/proc/scheduler.c:808-841 | a tick keeps the invariant |
| `Scheduling.SleepKeeps` | kernel/proc/scheduler.c:717-741 | sleep keeps the invariant |
| `Scheduling.ExitKeeps` | kernel/proc/scheduler.c:253-269 | exit keeps the invariant: no parent stays blocked on a child that has exited |
| `Scheduling.WaitKeeps` | kernel/proc/scheduler.c:764-806 | waitpid keeps the invariant, with reaping in place |
| `Scheduling.BornKeeps` | kernel/proc/scheduler.c:326-381 | a new process keeps the invariant |
| `SchedulerRuns.NextKeeps` | kernel/proc/scheduler.c:701-841 | every enabled step keeps the invariant |
| `SchedulerRuns.AlwaysInOrder` | kernel/proc/scheduler.c:307-324 | in every state of every run from start-up exactly the current process is running, live numbers are distinct, and nobody is blocked in waitpid while a matching child is a zombie |
| `SchedulerRuns.ResumeReturns` | kernel/proc/scheduler.c:764-806 | a process that was blocked in waitpid does not block again: it returns a matching child's number and exit code |
| `SchedulerRuns.ZombieKept` | kernel/proc/scheduler.c:678-699 | a zombie keeps its number and exit code in every step except its parent's waitpid, which returns both and clears the slot |
| `SchedulerRuns.BoundedWaiting` | kernel/proc/scheduler.c:203-235 | a process that stays ready gets the processor after at most 15 switches and at most 75 ticks, whatever the others do |
| `SchedulerRuns.DueExactly` | kernel/proc/scheduler.c:814-823 | the wrapped 32-bit comparison agrees with the unbounded clock for sleeps below 2^31 ticks |
| `SchedulerRuns.SleepStarts` | kernel/proc/scheduler.c:717-741 | a sleep call puts the process to sleep until start plus n of the unbounded clock |
| `SchedulerRuns.SleepStep` | kernel/proc/scheduler.c:237-251 | a sleeping process stays asleep in every step, a child's exit included, except the tick that reaches start plus n, and is ready right after that one |
| `SchedulerSteps.NextReadyMeans` | kernel/proc/scheduler.c:203-215 | the scan finds the first ready slot in cyclic order after the given one, which comes last |
| `SchedulerSteps.YieldMeans` | kernel/proc/scheduler.c:701-715 | with another process ready, the caller is ready and the next one in cyclic order runs with a slice of five; otherwise nothing changes |
| `SchedulerSteps.SleepMeans` | kernel/proc/scheduler.c:717-741 | all outcomes of sleep, and the whole table after each |
| `SchedulerSteps.ExitMeans` | kernel/proc/scheduler.c:237-269 | the caller is a zombie with its code, exactly the processes that wait for it are ready, and the next one runs |
| `SchedulerSteps.WaitReaps` | kernel/proc/scheduler.c:774-789 | with exited children, waitpid returns number and exit code of the one in the lowest slot, and that slot, and nothing else, is cleared; no slot holds that number afterwards |
| `SchedulerSteps.ResumeReaps` | kernel/proc/scheduler.c:774-789 | so does the rest of a call that was blocked |
| `SchedulerSteps.WaitRefuses` | kernel/proc/scheduler.c:769-794 | EINVAL for bad arguments and ECHILD without children change nothing |
| `SchedulerSteps.WaitBlocks` | kernel/proc/scheduler.c:795-805 | with live children only, the caller is blocked for the one or for any, and the next process runs; ECHILD if there is none |
| `SchedulerSteps.TickMeans` | kernel/proc/scheduler.c:808-841 | exactly the sleepers that are due, by the difference of 32-bit counters, are ready; the slice is counted down, and when it is used up the next process runs |
| `SchedulerSteps.SpawnMeans` | kernel/proc/scheduler.c:157-201 | the lowest unused slot gets a ready child of the caller with the next number, or the least unused one after the counter has run out |
| `ProcessFates.SleepsExactly` | kernel/proc/scheduler.c:717-741 | from the call on, over any run: refused exactly if nobody else is ready, otherwise asleep up to the tick that brings the unbounded clock to start plus n, and ready or running right after that tick |
| `ProcessFates.ExitCodeReturned` | kernel/proc/scheduler.c:253-269 | from the exit on, over any run: the slot keeps the exit code up to the first step that changes it, and that step is the parent's waitpid, which returns that number and code and leaves the slot unused |
| `ProcessFates.WaitBlocksOnce` | kernel/proc/scheduler.c:764-806 | from a blocking waitpid on, over any run: the next step of the caller ends the call with the number and exit code of a matching child |
| `ProcessFates.ScanFinds` | kernel/proc/scheduler.c:203-215 | the scan finds a process if and only if one is ready |
| `ProcessFates.NoChildIff` | kernel/proc/scheduler.c:790-803 | waitpid returns ECHILD if and only if no child matches, or no matching child has exited and no process is ready |
| `ProcessFates.WaitFindsChild` | kernel/proc/scheduler.c:790-803 | while some process is ready, ECHILD means that there is no matching child |
| `ProcessFates.CanExitIff` | kernel/proc/scheduler.c:253-269 | an exiting process has a successor if and only if somebody is ready or waits for it |
| `ProcessFates.LiveChildDenied` | kernel/proc/scheduler.c:798-803 | a run of five steps from boot after which waitpid returns ECHILD to a process with a live child |
| `ProcessFates.BootMaySleep` | kernel/proc/scheduler.c:717-741 | a run of two steps from boot after which the boot process sleeps |
| `ProcessFates.BootSleepsForever` | kernel/proc/scheduler.c:814-823 | over any run a sleeping boot process stays as it is |
| `ProcessFates.BootStaysIdle` | kernel/proc/scheduler.c:701-715 | over any run in which the boot process only yields, spawns or is preempted it is ready or running |
| `ProcessFates.OthersProceed` | kernel/proc/scheduler.c:253-269 | in every state of such a run from boot every other process can exit and sleep, and ECHILD means that there is no matching child |
| `HeapModel.PayloadsDisjoint` | kernel/mm/heap.c:59-103 | payloads of different blocks lie inside the mapped range and do not overlap |
| `HeapModel.AllocateKeeps` | kernel/mm/heap.c:147-164 | splitting and taking a block keeps the tiling, sizes and the absence of free neighbours |
| `HeapModel.ReleaseKeeps` | kernel/mm/heap.c:166-201 | freeing and merging keeps them |
| `HeapModel.GrowKeeps` | kernel/mm/heap.c:238-279 | growing by whole pages keeps them |
| `HeapModel.GrowFits` | kernel/mm/heap.c:238-279 | after growing by what was missing the request fits |
| `HeapModel.AllocateRelease` | kernel/mm/heap.c:334-371 | freeing what was just allocated restores the block list |
| `Heap.KernelHeap.constructor` | kernel/mm/heap.c:281-303 | a new heap is one page with one free block |
| `Heap.KernelHeap.ValidateBlock` | kernel/mm/heap.c:59-103 | no check of a reachable header ever fails |
| `Heap.KernelHeap.HeapTail` | kernel/mm/heap.c:121-131 | walks to the last block |
| `Heap.KernelHeap.FindFirstFit` | kernel/mm/heap.c:133-145 | the lowest free block that is large enough, or none |
| `Heap.KernelHeap.SplitBlock` | kernel/mm/heap.c:147-164 | rewrites the links so that the list is the split one |
| `Heap.KernelHeap.MergeWithNext` | kernel/mm/heap.c:166-188 | rewrites the links so that the list is the merged one, if the next block is free |
| `Heap.KernelHeap.Coalesce` | kernel/mm/heap.c:190-201 | merges with the next and then with the previous free block |
| `Heap.KernelHeap.GrowHeap` | kernel/mm/heap.c:238-279 | grows by exactly the missing pages, into the last free block or a new one, or changes nothing |
| `Heap.KernelHeap.Kmalloc` | kernel/mm/heap.c:305-332 | allocates from the first fit, growing when there is none; fails exactly for bad sizes, at the limit or without pages, and then changes nothing |
| `Heap.KernelHeap.Kfree` | kernel/mm/heap.c:334-371 | true exactly for NULL or the payload start of an allocated block; frees and merges that block and leaves the list alone otherwise |
| `Heap.MallocFree` | kernel/mm/heap.c:305-371 | an allocation that needed no growth followed by its free restores the block list |
| `HeapRanges.RangesDetermine` | kernel/mm/heap.c:166-201 | two heaps of the same size with the same allocated ranges are the same list of blocks: free space is always merged as far as possible |
| `HeapRanges.GrowsByFewest` | kernel/mm/heap.c:238-279 | the heap grows by the fewest pages that make the request fit |
| `HeapRanges.MallocMeans` | kernel/mm/heap.c:305-332 | all outcomes of kmalloc on addresses: an aligned range of at least the requested and less than 40 bytes more is added to the allocated ranges, which do not change; it lies in the lowest free block that can hold it, or after the least growth |
| `HeapRanges.FreeMeans` | kernel/mm/heap.c:334-371 | kfree takes away the range that begins at the address, and no other; it fails exactly if none does |
| `Frames.RangeToPages` | kernel/mm/pmm.c:38-66 | gives exactly the frames below 4 GiB that lie wholly inside a 64-bit range |
| `Frames.ReservedPages` | kernel/mm/pmm.c:83-107 | gives exactly the frames that a range touches |
| `Frames.MarkUsable` | kernel/mm/pmm.c:130-146 | a frame is usable exactly if a usable entry contains it |
| `Frames.MarkReserved` | kernel/mm/pmm.c:147-151 | and stays so exactly if no reserved entry touches it |
| `Frames.InitPool` | kernel/mm/pmm.c:109-169 | the pool hands out exactly the frames that are usable, not reserved, not the kernel's and not the first megabyte's, and counts them; it fails exactly if there is none |
| `Frames.CountFree` | kernel/mm/pmm.c:159-164 | counts the free frames |
| `Frames.TakeCount` | kernel/mm/pmm.c:171-183 | taking a frame lowers the number of free bits by one |
| `Frames.GiveCount` | kernel/mm/pmm.c:185-200 | returning one raises it by one |
| `AddressSpaces.Memory.PmmAlloc` | kernel/mm/pmm.c:171-183 | takes the lowest free frame; the counter equals the number of free bits |
| `AddressSpaces.Memory.PmmFree` | kernel/mm/pmm.c:185-200 | takes back exactly page-aligned frames that were handed out |
| `AddressSpaces.Memory.OpenWindow` | kernel/mm/address_space.c:56-59 | mapping a window takes a frame for its page table, or fails if there is none |
| `AddressSpaces.Memory.CloseWindow` | kernel/mm/address_space.c:61-69 | unmapping the last window returns that frame |
| `AddressSpaces.Memory.FillDirectory` | kernel/mm/address_space.c:122-131 | the user half is empty, the kernel half is copied except for the windows, and the last entry is the directory itself |
| `AddressSpaces.Memory.Create` | kernel/mm/address_space.c:89-137 | a new space maps nothing and owns its directory only; succeeds exactly with a frame for the directory and one for the window |
| `AddressSpaces.Memory.Map` | kernel/mm/address_space.c:139-213 | adds one page to the partial map; fails exactly for bad addresses, mapped pages, or without frames for the window and a missing table, and then changes nothing |
| `AddressSpaces.Memory.Protect` | kernel/mm/address_space.c:215-269 | changes the access of one mapped page, exactly if there is a frame for the window |
| `AddressSpaces.Memory.Unmap` | kernel/mm/address_space.c:271-340 | removes one page from the partial map, returns its frame, and frees a table that became empty; exactly if there is a frame for the window |
| `AddressSpaces.Memory.Query` | kernel/mm/address_space.c:342-401 | reads the partial map, exactly if there is a frame for the window |
| `AddressSpaces.Memory.DestroyTable` | kernel/mm/address_space.c:470-488 | returns exactly the frames mapped through one table, and the table |
| `AddressSpaces.Memory.DestroyTables` | kernel/mm/address_space.c:462-489 | returns exactly the mapped frames and all tables |
| `AddressSpaces.Memory.Destroy` | kernel/mm/address_space.c:442-498 | returns exactly the frames the space owns; refuses the active space, and fails without a frame for the window |
| `AddressSpaces.OtherSpaceKept` | kernel/mm/address_space.c:139-340 | operations on one space leave every space with disjoint frames as it was |
| `AddressSpaces.UseSpace` | kernel/mm/address_space.c:139-340 | mapping new pages, unmapping and freeing, and changing access keep the sum of free and owned frames |
| `AddressSpaces.CreateUseDestroy` | kernel/mm/address_space.c:442-498 | whatever is done with a space in between, creating and destroying it restores the free count; it is created exactly with two free frames, and not destroyed only if no frame is left for the window |
| `Paging.EntryParts` | kernel/mm/address_space.c:205-206 | an entry's frame and flags can be read back from its 32-bit word |
| `Paging.ProcessorWalk` | kernel/mm/address_space.c:181-206 | what the processor finds in the two tables: bits 0, 1 and 2 for present, writable and user, and the frame in the upper 20 bits, agree with the abstract map |
| `Paging.TableAdded` | kernel/mm/address_space.c:166-206 | a new table with one page keeps the ownership of frames exact |
| `Paging.TableRemoved` | kernel/mm/address_space.c:318-334 | dropping a table with its last page keeps it exact |
| `ElfFormat.ValidateImage` | kernel/proc/elf.c:127-189 | accepts exactly the images whose header, program ranges, alignment, flags, overlaps and entry point are in order |
| `ElfFormat.SegmentsDisjoint` | kernel/proc/elf.c:112-125 | different segments of an accepted image do not overlap in memory |
| `ElfImages.AcceptedImages` | kernel/proc/elf.c:78-189 | the accepted images told on the bytes of the file: header fields, ranges, alignment, flags, collisions and entry point, with their offsets and values |
| `ElfLoader.Loader.ZeroPage` | kernel/proc/elf.c:191-209 | zeroes a frame through the loader's window, exactly if there is a frame for the window |
| `ElfLoader.Loader.CopyToPage` | kernel/proc/elf.c:242-262 | copies bytes into a frame through that window, exactly if there is a frame for it |
| `ElfLoader.Loader.EnsureUserPage` | kernel/proc/elf.c:211-240 | one page is there afterwards, zero if new, and at least as accessible; no other page changes; ENOMEM only with at most two frames left |
| `ElfLoader.Loader.MapSegment` | kernel/proc/elf.c:277-288 | so are exactly the pages that the segment touches |
| `ElfLoader.Loader.CopyChunk` | kernel/proc/elf.c:289-302 | the bytes are stored in the page at the cursor, and every other page of the space reads as before |
| `ElfLoader.Loader.CopySegment` | kernel/proc/elf.c:289-306 | the segment's file bytes are in memory at its addresses and no other byte changes; EIO only without a free frame |
| `ElfLoader.Loader.LoadProgram` | kernel/proc/elf.c:264-308 | both, for one program header |
| `ElfLoader.Loader.LoadImage` | kernel/proc/elf.c:310-339 | ENOEXEC exactly for bad images, ENOMEM and EIO only when frames run out; on success every page of the space is what loading the segments in order gives, and the entry point is returned |
| `ElfLoader.PagesExact` | kernel/proc/elf.c:264-288 | a page is mapped exactly if a segment touches it, and writable exactly if a writable segment touches it; `ElfImages.LoadedAsDescribed` says so on the file |
| `ElfLoader.SegmentInMemory` | kernel/proc/elf.c:289-308 | every byte of a loaded segment is the file byte below the file size and zero above it, also on pages shared by segments |
| `ElfImages.LoadedAsDescribed` | kernel/proc/elf.c:264-339 | every page after loading, told on the words of the program headers: it is there if a loaded segment has an address in it, writable if one of these has flag 2, and holds the file's bytes, and zeros elsewhere |
| `UserStack.Measure` | kernel/proc/scheduler.c:438-452 | accepts 1 to 16 strings below 256 bytes and sums their lengths |
| `UserStack.PutTexts` | kernel/proc/scheduler.c:461-473 | lays the strings out from the top of the page down, none overlapping |
| `UserStack.PutVector` | kernel/proc/scheduler.c:474-485 | writes argc, the pointers and the terminator and nothing above them |
| `UserStack.InitializeUserStack` | kernel/proc/scheduler.c:424-492 | succeeds exactly for arguments that fit if the page can be mapped, and then the page holds argc, the vector and above it the strings, none overlapping another, at an aligned stack pointer, and zeros below and between; otherwise the page is untouched |
| `UserStack.ReadBackText` | kernel/proc/scheduler.c:408-422 | reading a string up to its NUL gives it back |
| `UserStack.ReadBack` | kernel/proc/scheduler.c:424-492 | reading the vector and the strings back gives exactly the given arguments |
| `Vfs.FileTable.constructor` | kernel/fs/vfs.c:138-149 | no file is open at first |
| `Vfs.FileTable.AllocateFile` | kernel/fs/vfs.c:85-98 | the first unused slot, or none if all are used |
| `Vfs.FileTable.FreeDescriptor` | kernel/proc/scheduler.c:895-913 | the lowest free descriptor from 3 on |
| `Vfs.FileTable.FileOf` | kernel/fs/vfs.c:100-117 | the open file of a descriptor, which is in use with one reference; none for bad descriptors |
| `Vfs.FileTable.FindOrCreate` | kernel/fs/vfs.c:169-172 | the inode that the path leads to, or a new one if flag 0x100 asks for it and the error is ENOENT, or the error |
| `Vfs.FlagValues` | kernel/fs/vfs.c:119-127 | the ten flag values that are allowed, and which of them create, empty and only read |
| `Vfs.FileTable.Open` | kernel/fs/vfs.c:151-206 | all outcomes of opening by the value of the flags: bad values, full table, lookup and creation errors, directories, truncation, no descriptor, and the new entry; keeps the correspondence |
| `OpenOutcomes.Refused` | kernel/fs/vfs.c:158-168 | values other than 0 to 2, 0x100 to 0x102, 0x201, 0x202, 0x301 and 0x302 give EINVAL, and a full table ENFILE; nothing changes |
| `OpenOutcomes.Missing` | kernel/fs/vfs.c:169-176 | without 0x100 a missing file is an error that changes nothing |
| `OpenOutcomes.Created` | kernel/fs/vfs.c:169-176 | with 0x100 it is created, empty, exactly if that is possible, and paths that led somewhere lead there still |
| `OpenOutcomes.Existing` | kernel/fs/vfs.c:177-192 | an existing file keeps its bytes without 0x200 and is empty with it; directories can only be opened with 0 and 0x100 |
| `OpenOutcomes.Descriptor` | kernel/fs/vfs.c:193-202 | a returned descriptor is the lowest free one from 3 on and stands for a new open file at offset 0 of the inode that the path leads to |
| `OpenOutcomes.OpenAndUse` | kernel/fs/vfs.c:129-137 | after opening, reading gives EBADF exactly for the write-only values, and writing exactly for the read-only ones |
| `Vfs.FileTable.Close` | kernel/fs/vfs.c:208-230 | frees the descriptor and its open file, or EBADF; keeps the correspondence |
| `Vfs.FileTable.ReadFd` | kernel/fs/vfs.c:232-259 | reads at the file's offset and moves it by what was read; exact errors |
| `Vfs.FileTable.WriteFd` | kernel/fs/vfs.c:261-288 | writes at the file's offset and moves it by what was written; exact errors |
| `Vfs.FileTable.Seek` | kernel/fs/vfs.c:290-335 | moves the offset relative to start, offset or size, refusing targets below 0 or past 2^31 - 1 |
| `Vfs.FileTable.UnlinkPath` | kernel/fs/vfs.c:372-400 | EBUSY exactly for open inodes, otherwise unlinks; every open file keeps its inode |
| `Vfs.FileTable.MakeDirectoryAt` | kernel/fs/vfs.c:356-370 | makes a directory; every open file keeps its inode |
| `Vfs.FileTable.ReadDirFd` | kernel/fs/vfs.c:402-447 | reads the next entry of an open directory and moves its offset; exact errors |
| `Vfs.FileTable.CloseAllCurrent` | kernel/fs/vfs.c:449-463 | leaves the process without descriptors and all others with theirs |
| `Vfs.FileTable.Perform` | kernel/fs/vfs.c:151-463 | each call keeps the invariant; after an exit the process has no descriptor |
| `Vfs.FileTable.Run` | kernel/fs/vfs.c:151-463 | any sequence of open, close, read, write, seek, unlink, mkdir, readdir, stat and exit by any processes keeps used slots and non-zero descriptors in one-to-one correspondence, every open inode allocated, and the volume well formed |
| `Vfs.MkdirKeepsNodes` | kernel/fs/vfs.c:356-370 | making a directory, or failing to, keeps every inode with its kind |
| `Vfs.UnlinkKeepsNodes` | kernel/fs/vfs.c:372-400 | unlinking removes the inode that the path leads to, and no other |
| `Paths.RemoveLastComponent` | kernel/core/syscall.c:136-145 | drops the last name in place, and stays at the root |
| `Paths.AppendName` | kernel/core/syscall.c:177-191 | appends a name exactly if the result stays below 256 bytes |
| `Paths.AppendComponents` | kernel/core/syscall.c:147-194 | enters the components one by one, "." and ".." resolved, or reports EINVAL when a prefix gets too long |
| `Paths.NormalizePath` | kernel/core/syscall.c:196-234 | fills the buffer with the normal form of the path, relative to the working directory unless absolute, or EINVAL, or EIO without a working directory |
| `Paths.NormalizedIsNormal` | kernel/core/syscall.c:196-234 | the result is rooted, below 256 bytes, no two slashes meet, all components are neither "." nor "..", and it ends in a slash if and only if the input does and names are left |
| `Paths.TrailingSlashKept` | kernel/core/syscall.c:225-232 | the path "/a/" is its own normal form |
| `Paths.Idempotent` | kernel/core/syscall.c:196-234 | normalising a result again, from any working directory, changes nothing |
| `Paths.LookupNormalized` | kernel/fs/minifs.c:789-856 | on a tree, whenever walking an absolute path through the stored ".." entries succeeds, the normal form leads to the same inode |
| `Paths.NormalizedIsSimplified` | kernel/core/syscall.c:147-234 | the result is the path with "." dropped and ".." resolved, starting in the working directory unless absolute; it is refused exactly if some part of the way, or the result with its slash, does not fit into 255 bytes |
| `Paths.RelativeIsAbsolute` | kernel/core/syscall.c:208-219 | a relative path is normalised, or refused, as the working directory, a slash and the path are |
| `Paths.RelativeLookup` | kernel/core/syscall.c:208-219 | on a tree, whenever the working directory is a directory and walking a relative path from there through the stored ".." entries leads somewhere, the normalised path leads there |
| `ShellWords.SkipSeparators` | user/programs/sh.c:148-150 | skips exactly the separators |
| `ShellWords.ReadStep` | user/programs/sh.c:160-205 | one character is copied, dropped as a quote or escape, or ends the word, as the pure tokeniser says; unread input is intact |
| `ShellWords.ReadWordInPlace` | user/programs/sh.c:160-209 | one word is what the pure tokeniser reads from the original line; unclosed quotes and trailing escapes fail |
| `ShellWords.ParseWord` | user/programs/sh.c:158-214 | the word is stored, terminated, before the unread rest of the line, which is unchanged |
| `ShellWords.ParseLine` | user/programs/sh.c:139-219 | succeeds exactly when the pure tokeniser does on the original line, and then the buffer holds exactly its words, no later one overwriting an earlier one |
| `ShellWords.QuotedLineReads` | user/programs/sh.c:139-219 | single-quoting any list of at most 16 words and reading the line gives the list back |
| `ShellGrammar.LineReads` | user/programs/sh.c:139-219 | a line written by the grammar of bare, escaped, single-quoted and double-quoted pieces is read as its words, and refused exactly with more than 16 |
| `ShellGrammar.LineWritten` | user/programs/sh.c:139-219 | every accepted line was written by that grammar |
| `ShellGrammar.LineMeans` | user/programs/sh.c:139-219 | so the accepted lines and their words are exactly those of the grammar |
| `Editor.LinesSplit` | user/programs/edit.c:62-112 | the lines of a text cut after a newline are the lines of its parts |
| `Editor.LinesOfJoined` | user/programs/edit.c:62-112 | joining lines with newlines and splitting them gives the lines back |
| `Editor.JoinedLines` | user/programs/edit.c:62-112 | a text is its lines joined with newlines, except that the last newline may be missing |
| `Editor.LineAtMeans` | user/programs/edit.c:81-112 | the located range is that line of the list, with the earlier lines before it and the later ones after it |
| `Editor.AppendMeans` | user/programs/edit.c:175-185 | the bytes appended add one line at the end, also after an unterminated last line |
| `Editor.InsertMeans` | user/programs/edit.c:187-206 | the bytes inserted add one line at that position |
| `Editor.DeleteMeans` | user/programs/edit.c:220-230 | removing the range removes that line |
| `Editor.ReplaceMeans` | user/programs/edit.c:208-218 | replacing the range replaces that line, except that an unterminated last line replaced by nothing is removed |
| `Editor.EmptyReplacement` | user/programs/edit.c:208-218 | replacing line 1 by nothing removes it from the text "a", and leaves an empty line when a newline follows |
| `Editor.LastLine` | user/programs/edit.c:105-110 | the range reaches the end of the text exactly for the unterminated last line |
| `Editor.TextBuffer.LineCount` | user/programs/edit.c:62-79 | the number of lines |
| `Editor.TextBuffer.LineBounds` | user/programs/edit.c:81-112 | succeeds exactly for 1 to the number of lines, and locates that line |
| `Editor.TextBuffer.MoveTail` | user/programs/edit.c:130-142 | moves the tail up or down in place without losing a byte |
| `Editor.TextBuffer.ReplaceRange` | user/programs/edit.c:114-148 | replaces the range exactly if the result fits into the buffer, and changes nothing otherwise |
| `Editor.TextBuffer.BuildLinePayload` | user/programs/edit.c:150-173 | the line with its newlines, exactly if it fits |
| `Editor.TextBuffer.AppendLine` | user/programs/edit.c:175-185 | appends to the list of lines and ends the text with a newline, or changes nothing; exact condition |
| `Editor.TextBuffer.InsertLine` | user/programs/edit.c:187-206 | inserts into the list of lines, or changes nothing; whether the text ends in a newline; exact condition |
| `Editor.TextBuffer.ReplaceLine` | user/programs/edit.c:208-218 | replaces in the list of lines, with the one exception, or changes nothing; whether the text ends in a newline; exact condition |
| `Editor.TextBuffer.DeleteLine` | user/programs/edit.c:220-230 | deletes from the list of lines, or changes nothing; whether the text ends in a newline |

## Left out

- Device errors: block reads and writes inside the volume always succeed, so the rollback branches for I/O errors are not modelled; the no-space rollbacks are.
- Byte copy and clear loops over whole blocks are sequence splices in the model; aliasing of the scratch buffers is kept as separate fields that the helpers overwrite.
- Busy flags and disabled interrupts: each file-system, open-file and scheduler call is one atomic step, so EAGAIN does not occur.
- Inode timestamps, which the kernel leaves at zero, and `minifs_stat_inode`.
- Fsck.Checker.Run: stops at the first fault, as the source does; its messages are not modelled.
- Host path guards, command-line parsing, atomic file replacement and image assembly: operating-system calls.
- Context switches are atomic; the waiting loop of `waitpid` is split into rounds at the point where the caller gives up the processor; user-mode page faults, kernel stacks, names and working directories of processes are not modelled.
- Scheduler.ProcessTable.WaitOnce: that a zombie's address space and kernel stack can be freed is not modelled; the source panics otherwise.
- Orphans: the code has no re-parenting, so nothing is said about zombies whose parent is gone.
- Heap.KernelHeap.GrowHeap: (and so `Kmalloc`) whether the pages of an extension can be mapped is a parameter; the unmapping of a half-mapped extension is not modelled.
- Scheduler.ProcessTable.CreateProcess: whether memory for the process can be had is a parameter.
- Kernel half of the address spaces: entries are copied at creation and fixed afterwards; `kernel/mm/vmm.c` beyond the frame that a window takes, recursive mapping, activation and TLB handling become direct frame access, and the contents of a window's own page table are not modelled.
- ElfLoader.Loader.LoadImage: on ENOMEM the pages mapped so far stay, as in the source, where the caller destroys the space; nothing more is said about them.
- PMM bitmaps are sequences of booleans, and masks for alignment and flags are arithmetic on the same values.
- Vfs.FileTable.Run: `vfs_stat` is a lookup whose result is not stored; the contents of the user's buffers are results of the calls.
- ShellWords.ParseLine: error messages, built-in commands, history, completion and redraw of the shell are not modelled.
- Editor I/O, command parsing and printing are not modelled.
