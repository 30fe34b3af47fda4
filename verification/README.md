# LCFS in Dafny

LCFS is a file system for container layers: a daemon in C (`lcfs/`) that keeps many copy-on-write layers on one device, and a graph driver in Go (`plugin/`) that talks to it. This project models the parts that decide whether data survives: the block allocator and its checkpoints, block maps and dirty pages of files, clones of files and directories, the tree of layers and its superblocks, the inode log, directories and readdir, extended attributes, the block cache, and the protocol by which the driver asks for the changes of a layer. `dafny verify dfyconfig.toml` checks all of it.

Code that updates lists and counters in place is modelled by classes and by methods with loops; each is proved against a specification on values (sets of blocks, maps from pages to blocks, bytes as a reader sees them, names of a directory). Where an assert of the code does not follow from what the code does before, or a promise is not kept, the exact condition is proved and a case is exhibited (see "Findings"). Some asserts about sizes and flags have no counterpart in the model; the operations are then modelled for all inputs.

| file | models |
|---|---|
| `Extents` | extent lists of `lcfs/extent.c`: free space lists and block maps |
| `Checkpoint` | the owner of every block, as a state machine over allocator steps, and what the last superblock refers to |
| `Blocks`, `Allocator` | the lists of `lcfs/block.c` in agreement with the owners; each operation is one step of `Checkpoint` |
| `FreeMap`, `Commit`, `Overflow` | the free list on disk, a whole checkpoint and the mount after it, and the run in which it fails |
| `EndOfDevice` | an allocation that ends at the last block |
| `Emap`, `EmapDisk` | block maps of files (`lcfs/emap.c`), in memory and on disk |
| `Pages`, `Inodes`, `Growth`, `Truncations` | dirty pages of a file, writes within it and past its end, and truncation (`lcfs/page.c`) |
| `Rooms`, `Flush`, `Writeback` | the flush of a file, which allocates blocks, and its way through the block cache to the disk |
| `Clones`, `Runs` | a file shared with a parent layer, everything done to it, and what a run of operations comes to |
| `Layers`, `Supers`, `Mounts` | the forest of layers with its pointers, its superblocks, and both together |
| `InodeLog` | inodes written as a log and read back (`lcfs/inode.c`) |
| `Packing`, `Dirs`, `Readdir`, `Directories` | directories: hash table, names, blocks on disk, readdir, sharing between layers |
| `Xattrs` | extended attributes |
| `Bcache` | the block cache and its clustered reads and writes (`lcfs/bcache.c`) |
| `Diff` | the changes of a layer, from the daemon's list to the driver's |

## Model

| member | source | states |
|---|---|---|
| `Extents.AddExtent` | lcfs/extent.c:48-105 | adding a range to a list adds exactly its blocks and changes no other mapping; a sorted space list stays sorted and fully coalesced, a block map keeps every page's block |
| `Extents.RemoveExtent` | lcfs/extent.c:160-189 | takes off exactly the reported number of blocks from `start` on, none only if `start` is not on the list, and in a coalesced list stops short only where the blocks end |
| `Extents.TakeFirst` | lcfs/block.c:124-170 | first fit: succeeds exactly if some extent is large enough, answers the first such, and the list loses exactly those blocks |
| `Extents.CanonicalUnique` | lcfs/extent.c:48-105 | a sorted coalesced list is determined by its set of blocks |
| `Blocks.FreeLayerExtent` | lcfs/block.c:410-438 | of any range, exactly the blocks the layer allocated itself leave its list and become pending; inherited blocks are left alone |
| `Blocks.ListsPartition` | lcfs/debug.c:128-177 | every block of the device is on exactly one of the lists: pool, pending, a reserve, the blocks of a layer, or the blocks of the root layer |
| `Checkpoint.StepKeepsPartition` | lcfs/block.c:511-540 | every allocator step keeps the owners a partition of the device |
| `Checkpoint.StepOwner` | lcfs/block.c:124-258 | what each step does to the owner of any block: taken blocks go to the layer and the rest of a chunk to its reserve, freed ones are pending if the layer owned them, released ones and new ones are free, and no other block changes hands |
| `Checkpoint.CheckpointOwner` | lcfs/block.c:712-784 | after a checkpoint all pending blocks and the old map are free, the root layer has the new map, and the superblock refers to exactly the blocks in use and the map as written |
| `Checkpoint.StepKeepsCrashSafe` | lcfs/block.c:605-628 | no step hands out a block of the last checkpoint, and all of them stay in use or pending, as long as free maps fit |
| `Checkpoint.PublishSafe` | lcfs/block.c:712-784 | a checkpoint is safe if and only if every block its free map is written to is in use |
| `Checkpoint.RunPartition` | lcfs/debug.c:128-177 | the device is partitioned at every state of every run from a formatted device |
| `Checkpoint.RunSafe` | lcfs/fs.c:814-853 | at every state of every run whose free maps fit, the last checkpoint is intact |
| `Checkpoint.NoReuseBeforeNextCheckpoint` | lcfs/block.c:712-784 | in every run whose free maps fit, no block a checkpoint refers to, in use or in its free map, is handed out until the next checkpoint is taken |
| `Checkpoint.CheckpointImage` | lcfs/fs.c:814-853 | what a mount after a checkpoint finds: nothing pending, all blocks referred to in use, and the only blocks lost are the reserves layers held |
| `Checkpoint.FormatSafe` | lcfs/block.c:14-26 | a formatted device is partitioned and safe |
| `Allocator.Gfs.BlockAlloc` | lcfs/block.c:124-220 | answers with the first run that is long enough, in the layer's reserve or else in the pool (`Allotted`), a whole chunk if there is one; it is a step that keeps lists and owners in agreement, and fails only if neither list has a run that long; the assert at line 496 fails exactly if `Allotted` ends at the end of the device |
| `Blocks.AllottedLaw` | lcfs/block.c:124-220 | where an allocation is: the first extent of the reserve that is large enough; only without one, the first extent of the pool with 8192 blocks, or, if more are asked for or there is none, the first one large enough; nowhere only if none is |
| `Allocator.Gfs.FullDevice` | lcfs/block.c:159-161 | the assert on the count of used blocks holds exactly as long as a block is free or pending |
| `EndOfDevice.LastBlock` | lcfs/block.c:487-499 | an allocation of the root layer, with 900 other blocks free, whose first fit ends at the end of the device, so that the assert fails |
| `Allocator.Gfs.BlockFree` | lcfs/block.c:511-540 | freeing any range in a layer makes pending exactly what the layer owns of it |
| `Allocator.Gfs.ReuseBlocks` | lcfs/block.c:511-540 | blocks the root layer took since the last checkpoint and did not use go back to its reserve without a checkpoint |
| `Allocator.Gfs.FreeRootBlocks` | lcfs/block.c:245-258 | blocks of the root layer become pending |
| `Allocator.Gfs.AddFreedBlocks` | lcfs/block.c:631-636 | blocks put aside in a layer are added to what waits for its next sync, and nothing changes owner yet |
| `Allocator.Gfs.ProcessFreed` | lcfs/block.c:605-628 | a sync makes pending, of all that was put aside, exactly the blocks the layer owns |
| `Allocator.Gfs.ReleaseReservedBlocks` | lcfs/block.c:29-43 | the whole reserve of a layer, and nothing else, returns to the pool |
| `Allocator.Gfs.RemoveLayer` | lcfs/block.c:605-628 | a deleted layer's reserve is free at once, and its blocks only after the next checkpoint |
| `Allocator.Gfs.GrowTo` | lcfs/block.c:787-814 | growing the device adds exactly the new blocks to the pool |
| `Allocator.Gfs.ProcessFreeExtents` | lcfs/block.c:712-784 | succeeds if and only if one extent can hold the new free map; the new pool is the old one without the map, with all pending blocks and the old map, and the counts the next mount checks agree |
| `FreeMap.FillPages` | lcfs/block.c:261-348 | the pages of a free list hold it record by record whatever the pages held before, in exactly as many pages as needed |
| `FreeMap.FlushExtents` | lcfs/block.c:261-348 | the list is stored as a chain from the given block on, and no block outside is written |
| `FreeMap.ReadExtents` | lcfs/block.c:351-407 | reading a stored list gives it back exactly, with the counts of blocks and of map blocks |
| `FreeMap.FreeMapFits` | lcfs/block.c:712-784 | the merged list has at most one extent more than was counted; the map fits the blocks set aside if and only if `Overflows` is false |
| `FreeMap.OverflowExample` | lcfs/block.c:712-784 | a state of the allocator, on a device of the smallest size, in which the map does not fit |
| `Commit.WriteCheckpoint` | lcfs/block.c:712-784 | a whole checkpoint with its map written: which asserts of the code hold, where the map lies, what else stays on disk; the map fits, and the last checkpoint is safe, if and only if `Overflows` was false before the call |
| `Commit.ReadFreeMap` | lcfs/block.c:351-407 | the mount after a checkpoint reads back the free list, and free blocks and blocks in use add up to the device |
| `Commit.CommitAndMount` | lcfs/block.c:712-784 | checkpoint and mount end to end: the same free list, and the number of map blocks passes the check at line 392 if and only if `Overflows` was false |
| `Overflow.HandsOutMapBlock` | lcfs/block.c:712-784 | a run of six steps from a formatted device of the smallest size, each with the blocks and counts the code chooses and within its asserts, in which a block of the committed free map is handed out |
| `Emap.EmapUpdate` | lcfs/emap.c:89-190 | the given pages have the new blocks, or none, and all others theirs; exactly the blocks replaced are to be freed, and `di_blocks` is the number of mapped pages |
| `Emap.EmapTruncate` | lcfs/emap.c:398-510 | pages below the new size keep their blocks, pages beyond have none, exactly their blocks are given back, and the last page is to be zeroed if and only if it is mapped and partial |
| `Emap.CopyEmap` | lcfs/emap.c:205-221 | the copy has the extents of the original in the same order |
| `Emap.ExpandEmap` | lcfs/emap.c:193-202 | a file in one extent becomes a list and every page keeps its block |
| `EmapDisk.EmapFlush` | lcfs/emap.c:251-313 | the map is stored in the inode, or packed into chained blocks, according to its form, and no other block is written |
| `EmapDisk.EmapRead` | lcfs/emap.c:316-370 | a stored map is read back: same list, same count, same block for every page |
| `EmapDisk.EmapRemount` | lcfs/emap.c:251-370 | flush and read of any valid map give every page its block back |
| `Pages.MergeData` | lcfs/page.c:552-684 | a write into a page that is clean, partial or full shows the new bytes in its range and everywhere else what a reader saw before |
| `Inodes.MergePage` | lcfs/page.c:552-684 | a write changes exactly its range of the file as read through dirty pages and blocks, and counts a page once, when it becomes dirty |
| `Inodes.AddPages` | lcfs/page.c:786-821 | a write over several pages shows as all its pieces written in order, in either form of the page table, and dirty pages stay dirty |
| `Growth.WriteFile` | lcfs/page.c:724-821 | a write anywhere: it shows, the file grows if need be, what lies between the old end and the write reads as zeros, and every other byte stays, if and only if the write does not start past the end of a file whose last page would lose bytes (`Loses`); which bytes and which dirty pages change is given in all cases |
| `Growth.ZeroFillLastPage` | lcfs/page.c:724-748 | only a last page that has a block and is dirty but not to its end is filled |
| `Growth.TruncateAndWrite` | lcfs/page.c:724-748 | any file truncated inside a clean page and then written to past its end has lost all that was left of that page |
| `Growth.FirstBytesLost` | lcfs/page.c:724-748 | such a file and its lost bytes |
| `Growth.ExtendFile` | lcfs/fops.c:86-110 | a truncation to a larger size: every byte stays and all that is added reads as zeros, if and only if the page in which the file ended is not one with a block that is dirty in part and has other bytes past the end (`Reappears`) |
| `Growth.TruncateAndExtend` | lcfs/fops.c:86-110 | any file truncated inside a clean page and then made larger has the bytes of that page back that were cut off |
| `Growth.CutBytesBack` | lcfs/fops.c:86-110 | such a file and a byte that is back |
| `Truncations.TruncateFile` | lcfs/page.c:1377-1430 | truncation with dirty pages, in either form of the page table: the map and the pages are cut, exactly the blocks beyond are given back, the last page is dirty if it is mapped and partial; the code fails if and only if the pages are in a hash table and one is dirty afterwards, and what is left can be flushed if and only if the new end is not in a dirty page of zeros |
| `Truncations.TruncatePage` | lcfs/page.c:1231-1270 | the last page is cut or made dirty, and only it; the page is lost sight of exactly if it is new, in a hash table and not between the markers |
| `Truncations.InvalidatePages` | lcfs/page.c:1273-1374 | exactly the pages past the end are dropped and the markers are right again, except for a hash table in which a page is left |
| `Truncations.CutBytes` | lcfs/page.c:1377-1430 | every byte before the new end is what it was |
| `Truncations.LargeFile` | lcfs/page.c:1231-1270 | truncating any file of more than 4 MB in one extent to a size inside a page fails |
| `Truncations.ZeroedFile` | lcfs/page.c:1256-1268 | a file whose dirty page of zeros is cut, and then cannot be filled |
| `Flush.FlushPages` | lcfs/page.c:935-1228 | flushing changes no byte of the file and leaves zeros past its end on disk; clean pages keep their blocks; exactly the replaced blocks are to be freed; every block taken holds one page or is in the unused tail; nothing is written to a block in use; the file is one extent, at the place the allocator has for all dirty pages, if and only if it is dirty from its first page on and has no other blocks or the dirty pages follow its extent in the file and on disk (`Layout`), and a dirty page has no block if and only if it is a page of zeros in a list (`Holes`) |
| `Flush.FlushFile` | lcfs/page.c:935-1228 | in any layer: the bytes stay, the blocks taken and not used go back, exactly the replaced blocks are put aside for the next sync, no block in use is overwritten, and the form and place of the new extents are those of `Layout` and `Holes` |
| `Flush.FreeInodeDataBlocks` | lcfs/emap.c:373-395 | exactly the blocks of the list are put aside |
| `Writeback.FlushThrough` | lcfs/page.c:935-1228 | a flush done through the block cache: what was last given to the cache is what the file is read from afterwards, for every data block in use |
| `Writeback.FlushToDisk` | lcfs/bcache.c:827-844 | flush and writeback: the file read from the disk alone has every byte it had |
| `Flush.ReturnTail` | lcfs/page.c:1183-1228 | exactly the unused blocks go out of use, and no other block changes hands |
| `Clones.FileInode.Write` | lcfs/page.c:765-821 | a write to a clone, within the file or past its end, goes to its dirty pages and leaves the shared map alone |
| `Clones.FileInode.FlushDirtyPages` | lcfs/page.c:935-1228 | a flush keeps every byte of the clone and every block of other layers, and writes only to extents of its own, copied if shared |
| `Clones.FileInode.Truncate` | lcfs/page.c:1377-1430 | map and dirty pages are cut at the new size, shared extents are dropped or copied first, and exactly the blocks beyond are given back; it is carried out exactly if the code does not fail |
| `Clones.FileInode.Extend` | lcfs/fops.c:86-110 | a larger size changes nothing else; it is carried out exactly if the extents are not shared, as the code asserts, and no cut off bytes would show |
| `Clones.FileInode.Run` | lcfs/page.c:935-1228 | over any sequence of writes, flushes, truncations, syncs and checkpoints: the states it goes through are given, each operation is carried out if and only if its condition holds in the state it finds (`CarriedOut`) and then does what it should (`Did`), and at the end the file has the size and every byte as if exactly these operations were applied to its bytes; blocks of other layers keep owner and content |
| `Clones.PathReads` | lcfs/page.c:935-1228 | every such sequence of states, however it comes about, reads as the operations carried out |
| `Clones.SyncLayer` | lcfs/block.c:605-628 | a sync frees no block that a page of the file still maps, and none of another layer |
| `Clones.CloneAndRun` | lcfs/inode.c:1103-1188 | clone isolation: whatever is done to the clone of a file and its layer, every byte of the parent stays, its blocks stay in use in its layer, and the clone, which starts as the parent, reads as the parent with exactly those of the given operations that its states allow |
| `Clones.CloneAndExtend` | lcfs/fops.c:86-110 | making a fresh clone larger fails the assert if and only if its parent is fragmented |
| `Runs.WriteDone` | lcfs/page.c:724-748 | in a run, a write is carried out if and only if it does not start past the end of a file whose last page has a block, is dirty, and has a byte other than zero between its dirty part and the end of the file |
| `Runs.FlushDone` | lcfs/page.c:935-1228 | a flush is carried out if and only if the free blocks and those of the reserve are as many as the dirty pages |
| `Runs.TruncateDone` | lcfs/page.c:1231-1430 | a truncation to a smaller size is carried out unless the pages are in a hash table and one is dirty or becomes so, or the new end is in a dirty page of zeros; and only then not |
| `Runs.ExtendDone` | lcfs/fops.c:86-110 | a truncation to a larger size is carried out if and only if no extents are shared and no byte past the end would show again |
| `Runs.CheckpointDone` | lcfs/block.c:712-784 | a checkpoint is carried out if and only if there is something to write and one extent can hold it at 255 records to a block |
| `Runs.WriteLaw` | lcfs/page.c:765-821 | a write in a run: exactly the bytes of its pieces show, every other byte of the file stays, bytes between the old end and the write are zero, and the size is right |
| `Runs.FlushLaw` | lcfs/page.c:935-1228 | a flush in a run: no byte changes and no page is dirty |
| `Runs.TruncateLaw` | lcfs/page.c:1377-1430 | a truncation in a run: the bytes below both sizes stay and the bytes added are zero |
| `Runs.LastWriteWins` | lcfs/page.c:765-821 | over any run of operations nothing stands in the way of, a byte of the file has what was last written to it, if it was not cut off since |
| `Runs.AllCarriedOut` | lcfs/page.c:935-1228 | over such a run every operation is carried out, and the file reads as all of them applied in order |
| `Layers.Forest.AddLayer` | lcfs/fs.c:405-444 | the layer gets the lowest free index above those taken before it and joins its parent's children, after the first; nothing else moves; fails only if no index is left |
| `Layers.Forest.RemoveLayer` | lcfs/fs.c:284-293 | a layer without children leaves table and forest, its parent's list of children closes up, and every other layer keeps its index and its children |
| `Layers.Forest.RemoveLayers` | lcfs/fs.c:296-324 | removing a layer and its chain of zombie parents leaves a valid forest with exactly those gone; every other layer keeps its index and root, and its children but for those gone, in order; the root layer stays, and the highest index in use is right |
| `Layers.Forest.CommitLayer` | lcfs/layer.c:586-640 | a commit swaps roots and indices and turns the three layers around: children, siblings, parents, table and absence of cycles hold again, with or without a zombie that goes |
| `Layers.TurnedLaw` | lcfs/layer.c:588-630 | what the turn of a commit means: the committed layer is a child of the old parent of the layer, what it was made from is its only child, the layer is the only child of that and has none, and every other layer that stays keeps its parent |
| `Layers.RotateRanked` | lcfs/layer.c:588-630 | the pointer changes of a commit, in place, keep the forest linked both ways and without cycles |
| `Layers.NoCycle` | lcfs/layer.c:588-630 | no walk to the parents comes back to where it started |
| `Supers.AllocateSuperBlocks` | lcfs/super.c:80-139 | unless nothing changed, every layer gets a new superblock that names its first child and next sibling, exactly the old ones are to be freed, each once, no two layers share a block, and no superblock on disk is overwritten before that of the root layer |
| `Supers.Mount` | lcfs/fs.c:514-608 | a mount rebuilds the table of any tree of layers so written |
| `Supers.Remount` | lcfs/fs.c:514-608 | checkpoint and mount give back the same table of layers |
| `Supers.CrashedMount` | lcfs/super.c:80-139 | until the superblock of the root layer is written, a mount finds the layers of the checkpoint before, whatever has become of them |
| `Mounts.RemountLayers` | lcfs/super.c:80-139 | for every valid forest, whatever was added, removed or committed before, checkpoint and mount give back each layer with index, root and all pointers |
| `InodeLog.ReadInodes` | lcfs/inode.c:508-622 | reading the log gives for each inode its latest copy, and drops the removed ones |
| `InodeLog.InodeTable.Update` | lcfs/inode.h:373-384 | an inode that is new or changed replaces its old content and no other, and is to be written |
| `InodeLog.InodeTable.Remove` | lcfs/fops.c:190-214 | an inode that loses its last link is gone and no other is |
| `InodeLog.InodeTable.Rewrite` | lcfs/inode.c:411-431 | giving up the log and marking all inodes dirty loses none |
| `InodeLog.InodeTable.SyncInodes` | lcfs/inode.c:924-1013 | after a sync the log on disk restores exactly the live inodes, and a removed inode is still in memory if and only if it is one to be kept |
| `InodeLog.InodeTable.Remount` | lcfs/inode.c:508-622 | a mount after a sync has exactly the live inodes |
| `InodeLog.FlushInodePages` | lcfs/inode.c:653-687 | a batch of inode blocks becomes the newest part of the log, and the older parts stay |
| `Packing.Append` | lcfs/dir.c:376-445 | a record goes to the current page or a new one, and the pages hold all records in order |
| `Packing.ReadChain` | lcfs/dir.c:284-333 | reading chained blocks gives all records, in the order of the pages |
| `Dirs.DirAdd` | lcfs/dir.c:88-124 | the name is there and every other name means what it did, across the conversion to a hash table at 32 entries, and no index grows by more than one |
| `Dirs.RemoveFrom` | lcfs/dir.c:198-220 | exactly the name is gone, in either form |
| `Dirs.RenameIn` | lcfs/dir.c:223-281 | the inode is under the new name only, and all other entries stay, even if the entry moves to another list |
| `Dirs.ConvertHashed` | lcfs/dir.c:16-38 | the hash table has the same names with the same meaning |
| `Dirs.CopyLists` | lcfs/dir.c:127-188 | the copy has every list of the original, though it stops once all entries are copied |
| `Dirs.DirFlush` | lcfs/dir.c:376-445 | all entries are stored and no other block is written, and the link count it works out is the number of subdirectories added to `links` |
| `Dirs.DirRead` | lcfs/dir.c:284-333 | every name means what it did when it was flushed, with the same entry and link counts |
| `Readdir.DirReaddir` | lcfs/dir.c:635-757 | a reply is a prefix of the entries after the cookie, and is empty only if none is left |
| `Readdir.ReplyBetween` | lcfs/dir.c:635-757 | an entry is in the reply if and only if it lies between the cookie asked for and the cookie to go on with |
| `Readdir.ExactlyOnce` | lcfs/dir.c:635-757 | a reader that goes on to the empty reply gets each entry left alone meanwhile, whatever is added, removed and renamed between calls and even if the directory is converted: exactly once if and only if there is no conversion or the entry is still ahead of the cookie then, and otherwise twice |
| `Readdir.SessionEnds` | lcfs/dir.c:635-757 | reading ends, however many entries are added meanwhile and even if the directory is converted |
| `Readdir.ReadTwice` | lcfs/dir.c:650-668 | a session over a directory of 32 files, built and read with the model's own operations, in which a file is created after the first call and an entry comes twice |
| `Directories.Directory.CreateName` | lcfs/fops.c:17-83 | adds the name for the inode, on entries of its own, and every other name is there exactly if it was, for the same inode; the link count stays as right as it was |
| `Directories.Directory.RemoveName` | lcfs/fops.c:124-256 | removes the name, on entries of its own, but not a directory with entries, except in the root layer; every other name is there exactly if it was, for the same inode; the link count stays as right as it was |
| `Directories.Directory.RenameName` | lcfs/fops.c:693-851 | in one directory, the inode is then under the new name and not under the old one, and every other name is there exactly if it was, for the same inode; refused if the name is not there or the new one is a directory with entries; the link count gains one exactly if an inherited directory is replaced |
| `Directories.Directory.Run` | lcfs/fops.c:693-851 | over any sequence of changes, refused ones among them, the names are as if applied to a map, and the link count stays right if and only if no rename that is carried out replaces an inherited directory |
| `Directories.CreateLaw` | lcfs/fops.c:17-83 | at any point of a run, a create adds the name for its inode, unless it is there, and changes no other name |
| `Directories.RemoveLaw` | lcfs/fops.c:124-256 | at any point of a run, a removal leaves the name there if and only if it is a directory with entries outside the root layer, and changes no other name |
| `Directories.RenameLaw` | lcfs/fops.c:693-851 | at any point of a run, a rename moves the inode from the old name to the new one, unless it is missing or the new name is a directory with entries, and changes no other name |
| `Directories.CountLaw` | lcfs/fops.c:137-153 | at any point of a run, the link count goes off by one more if and only if the change is a rename that is carried out over an empty directory of a parent layer |
| `Directories.Untouched` | lcfs/fops.c:693-851 | a name no change of a run is about stays as it is |
| `Directories.FromSomewhere` | lcfs/fops.c:693-851 | after a run a name is for an inode that was in the directory before or that the run created |
| `Directories.OneName` | lcfs/fops.c:693-851 | over any run of creations of new inodes, removals and renames, no inode gets a second name |
| `Directories.MoveName` | lcfs/fops.c:693-851 | a rename to another directory moves exactly the name, replacing what is there unless it is a directory with entries; only the link count of the target can go wrong, and only if that is an inherited directory |
| `Directories.Directory.Remount` | lcfs/dir.c:284-445 | flush and read give all names back; the asserts on the link count hold if and only if the count is right |
| `Directories.CloneAndRun` | lcfs/inode.c:1103-1188 | clone isolation for directories: whatever is done in the clone, the parent keeps its names and the clone has them with the changes; how far its link count is off is counted exactly |
| `Directories.CloneAndRename` | lcfs/fops.c:137-153 | a rename over a directory in a clone keeps the link count right if and only if the directory replaced belongs to the clone |
| `Directories.RenameOverInherited` | lcfs/fops.c:137-153 | a parent and a clone for which the link count becomes wrong |
| `Xattrs.Xattr.Set` | lcfs/xattr.c:41-147 | sets exactly the named attribute, with the error for each flag; the asserts on its size fail exactly for a new attribute that is too long, and a value that replaces another is not checked |
| `Xattrs.Xattr.Remove` | lcfs/xattr.c:312-373 | removes exactly the named attribute, or fails |
| `Xattrs.Xattr.Copy` | lcfs/xattr.c:376-403 | the copy has the same names and values, though in the opposite order; the asserts hold if and only if none is too long |
| `Xattrs.Xattr.Pack` | lcfs/xattr.c:446-500 | the pages hold all attributes; no page is filled beyond its end if and only if each attribute fits a page by itself |
| `Xattrs.Xattr.Remount` | lcfs/xattr.c:446-550 | flush and read give back the same names, values and total size |
| `Xattrs.AcceptedButTooLarge` | lcfs/xattr.c:446-500 | an attribute that is set without error and packed beyond the end of a page |
| `Xattrs.ReplacedButTooLarge` | lcfs/xattr.c:41-147 | a value that is accepted in place of another, and whose copy in a clone fails the assert |
| `Bcache.FlushPageCluster` | lcfs/bcache.c:747-803 | requests of up to 256 consecutive blocks leave the disk as page by page writing would |
| `Bcache.ReadPages` | lcfs/bcache.c:657-744 | clustered requests give every page what reading it by itself would, and read exactly the pages that were not valid |
| `Bcache.Cache.GetPage` | lcfs/bcache.c:514-604 | a reader of a data block gets what was last given to the block, whether that is cached, queued or on disk |
| `Bcache.Cache.GetPageNew` | lcfs/bcache.c:607-622 | new data replaces what the cache had for the block, and is kept until it is queued |
| `Bcache.Cache.AddPage` | lcfs/bcache.c:806-824 | a queued data page is referenced by the list, so it stays until it is written |
| `Bcache.Cache.AddMetadata` | lcfs/bcache.c:628-637 | a metadata page is queued without entering the cache, and data pages stay right |
| `Bcache.Cache.ReleasePage` | lcfs/bcache.c:313-360 | a reader's release never drops a page another reader or the list of dirty pages still refers to; with its last reference a page goes exactly if it is not to be cached, and otherwise stays with its data and one reference less |
| `Bcache.Cache.InvalPage` | lcfs/bcache.c:424-463 | a page in use keeps its data and is only marked; one not in use is dropped |
| `Bcache.Cache.PurgeTreePages` | lcfs/bcache.c:960-993 | every page in use stays with its data and references, every idle page of the list goes, if the list is no longer than one pass takes, and the count is the number of pages that left the cache |
| `Bcache.Cache.FlushDirtyPages` | lcfs/bcache.c:827-844 | afterwards every block on disk has what was last given to it, except blocks whose writer is still to queue the page; pages keep their data and lose the reference of the list, and only those not to be cached and in no other use leave |
| `Bcache.Cache.ReadCluster` | lcfs/bcache.c:657-744 | pages read in clusters have what was last given to their blocks |
| `Diff.Changes.ReplyDiff` | lcfs/diff.c:502-566 | a reply is the encoding of the records that fit a block, and exactly those leave the list |
| `Diff.TakeFull` | lcfs/diff.c:502-566 | a reply that leaves any change is full: the next record does not fit in it |
| `Diff.ReadChunk` | plugin/lcfs_plugin.go:307-341 | the driver decodes every record of a reply and stops at its end, and is then in the directory of the last directory record |
| `Diff.ReadOne` | plugin/lcfs_plugin.go:309-340 | one record: a path that starts with a slash is a directory and becomes the prefix of the names that follow, nothing if it is just the slash; any other is reported below the directory |
| `Diff.ReportAt` | plugin/lcfs_plugin.go:314-322 | where each record of a reply is reported: the path of a directory as it is, any other below the last directory before it, and directly below the slash if that is the root |
| `Diff.FileChangeAt` | plugin/lcfs_plugin.go:314-322 | a change of a file in the list is reported at its place, with the path of its directory, a slash and its name, or a slash and the name in the directory `/` |
| `Diff.DirectoryAt` | plugin/lcfs_plugin.go:314-322 | a change of a directory is reported at its place with its path, except for the root directory of the layer |
| `Diff.JoinedPath` | plugin/lcfs_plugin.go:314-322 | such a path has two slashes in a row if and only if the directory is not `/` and its path has two in a row or ends in one |
| `Diff.NoDoubleSlash` | plugin/lcfs_plugin.go:314-322 | no path in the report has two slashes in a row, if none of the directories' has |
| `Diff.ReceivedExactly` | lcfs/diff.c:502-566 | the driver ends with exactly the changes of the layer, in order, if and only if each directory record fits a block together with each of its file records |
| `Diff.AllReceived` | lcfs/diff.c:502-566 | if all records fit, how many replies it takes, with nothing left after the last |
| `Diff.NeverStops` | plugin/lcfs_plugin.go:298-347 | a directory and a file that fit apart and not together: every reply repeats the directory |
| `Diff.GetChanges` | plugin/lcfs_plugin.go:298-347 | if all records fit, the loops of driver and daemon together end with exactly the changes of the layer |

## Findings

What the code promises or asserts and does not always keep. For each there is the exact condition and a case.

- Free map overflow (`lcfs/block.c:712-784`). The number of blocks for the free map is worked out before the lists are merged, and merging can add one extent, because the old map's blocks need one of their own. If the number of extents counted is a multiple of 255 and nothing merges (`FreeMap.Overflows`), the map is written one block beyond the blocks set aside. That block is on the free list: the next allocation hands it out while the superblock refers to it (`Overflow.HandsOutMapBlock`), and the next mount fails the assert at `lcfs/block.c:392-393` (`Commit.CommitAndMount`). In all other states the checkpoint is safe (`Commit.WriteCheckpoint`, if and only if).
- Bytes lost when a file grows (`lcfs/page.c:724-748`). When a write starts past the end of a file, its last page is zeroed from the end of its dirty part on, but bytes before the end of the file that are only in the block come after that. They are lost if and only if `Growth.Loses` holds (`Growth.WriteFile`). After a truncation inside a page the dirty part is empty, so all that is left of the page goes (`Growth.TruncateAndWrite`, `Growth.FirstBytesLost`).
- Bytes that come back (`lcfs/fops.c:86-110`). A truncation to a larger size zeroes nothing. The bytes added read as zeros if and only if `Growth.Reappears` is false (`Growth.ExtendFile`); after a truncation inside a clean page the bytes cut off of it show again (`Growth.TruncateAndExtend`, `Growth.CutBytesBack`). The code also asserts that the file has extents of its own then, which fails if and only if it is a clone that still shares them (`Clones.FileInode.Extend`, `Clones.CloneAndExtend`).
- Truncation of large files (`lcfs/page.c:1231-1374`). In a hash table a page is looked up only between the markers. A page made dirty by the truncation itself is not found again, and the markers are reset before the search that is to set them. The truncation fails if and only if the pages are in a hash table and one of them is dirty at the end (`Truncations.TruncateFile`, `Truncations.LargeFile`).
- Truncation inside a page of zeros (`lcfs/page.c:1256-1268`). A dirty page of zeros is a shared buffer; cut, it is partial and still shared, and the assert at `lcfs/page.c:321` fails when it is filled. This is the only truncation whose result cannot be flushed (`Truncations.TruncateFile`, `Truncations.ZeroedFile`).
- Link count after a rename (`lcfs/fops.c:137-153`, `lcfs/fops.c:786`). A rename that replaces an empty directory inherited from a parent layer does not lower the link count of the directory, which is one too high from then on; the next flush asserts otherwise (`lcfs/dir.c:440`). `Directories.Directory.Run` and `Directories.MoveName` prove that this is the only way the count goes wrong; `Directories.RenameOverInherited` is a case.
- Attributes too large for a block (`lcfs/xattr.c:4-30`). Name and value of a new attribute are each limited, their sum is not, and a value that replaces another is not limited at all. The flush writes beyond the end of a page if and only if an attribute does not fit a page (`Xattrs.Xattr.Pack`, `Xattrs.AcceptedButTooLarge`), and a clone fails the assert if and only if a name or value is too long (`Xattrs.Xattr.Copy`, `Xattrs.ReplacedButTooLarge`).
- Changes that never end (`lcfs/diff.c:502-566`). A directory whose record and the record of one of its files do not fit a block together makes the driver stop early or ask forever. `Diff.ReceivedExactly` gives the condition, `Diff.NeverStops` the endless case.
- Entries read twice (`lcfs/dir.c:635-757`). Cookies of a list and of a hash table differ, so a reader starts over when the directory is converted between two calls. An entry comes twice if and only if it has been returned before the conversion (`Readdir.ExactlyOnce`, `Readdir.ReadTwice`).
- The last block of the device (`lcfs/block.c:487-499`). The pool has it, and the asserts on allocations exclude it. They fail if and only if the run that is chosen ends there, or nothing is left (`Allocator.Gfs.BlockAlloc`, `Allocator.Gfs.FullDevice`, `EndOfDevice.LastBlock`).

## Left out

- Threads and locks: operations follow one another; what the code does within one lock is one method.
- Superblock and page checksums, magic numbers and the layout of structures in bytes, except for the replies of `lc_replyDiff`.
- FUSE entry points, the daemon's start and upgrade, statistics, memory limits, the ioctl interface, and the driver's other requests.
- The cost of allocation: the reserve a layer takes is any chunk that is at least what was asked for in the state machine, and the code's own sizes in `Allocator`.
- Inode numbers, hard links and the removal of inodes from the cache, beyond what the log needs.
- How the list of changes of a layer comes about from the inodes of two layers (`lcfs/diff.c:1-500`).
- A checkpoint for which no list has changed, which skips the free map: the lists of such a checkpoint are those of the one before.
- The flush that a write starts itself when a file has too many dirty pages; a flush can come before or after any write.
- The temporary file flag `LC_INODE_TMP`, with which a flush is skipped.
- Removal of a layer whose pages are still dirty (`lc_invalidateDirtyPages`) and the hash chains and free list of the block cache, which are a map from blocks to pages; the dirty pages of the layers that share a cache are one list.
- The move of inodes between the two layers of a commit (`lcfs/layer.c:508-585`); the pointers, roots and indices are in the model.
- Readdir.DirReaddir: requires indices of entries that fit 32 bits and a buffer that can take an entry; in the model the index of an entry does not wrap around.
- Layers.Forest.CommitLayer: takes as given what the caller has made sure of, that the layers are frozen or without children and which layer is the zombie.
- Directories.Directory.CreateName: requires a name that is not there, because the kernel looks names up first and the code does not; refusals of frozen layers, of a full device and of the directory of layers are not modelled.
- Directories.Directory.RemoveName: the inode of every entry exists, and the directory of layers, which the root layer keeps, is not distinguished.
- Clones.FileInode.Run: where the code loses bytes, lets them show again or fails an assert, the operation is not carried out in a run, so what comes after such a failure is not part of it.
- Supers.AllocateSuperBlocks: the new blocks are given; that they are blocks not in use is the allocator's part.
- Xattrs.Xattr.Remount: requires attributes that fit a page, because the code writes beyond the page otherwise and what is read back is undefined.
- Diff.GetChanges: requires records that fit, because the loop need not end otherwise.
