# ShitOS: block file system, mounts, substring search, formatted output, kernel heap and page tables

ShitOS is a small i386 kernel with a libc. This project models six of its parts and proves what they promise.

**The ext2 block layer** (`src/kernel/fs/ext2fs.c`, with the bit search of
`src/libc/internal/atomic.h`). A device is an array of blocks; bitmaps, group and superblock
counters say which blocks are in use; an inode reaches its blocks directly or through one, two or three levels of
index blocks. The layers are proved one on top of the other: bits in words (`Bytes`, `TrailingZeros`, `Bitmaps`),
allocation (`Volumes`, `Allocation`, `InodeNumbers`), the sector arithmetic (`BlockCounts`), the tree of an inode
(`BlockTree`, `TreeUpdates`, `Growth`, and `Ranks` for the order of its blocks), the tree inside a volume (`Files`),
growing and shrinking (`FileGrowth`, `Shrinking`), a file as a flat sequence of bytes (`FileBytes`), tree, files and
bitmaps by the bytes of the device alone (`OnDevice`), and directories as lists of records and as name tables
(`Directories`, `NameTables`). `Ext2` has the mounted file system as a class whose methods follow the code;
`DirectoryOps` has the directory operations on it. `FreshVolumes` shows that sound volumes and files exist.

**Substring search** (`src/libc/string/memmem.c`, `strstr.c`). The two-way algorithm of Crochemore and Perrin with a
bad-character table and memory of a matched prefix: `Suffixes` has periods and the critical factorization,
`MaximalSuffix` the maximal-suffix computation, `TwoWay` the shifts, `Memmem` and `Strstr` the searches.

**The kernel heap** (`src/kernel/mem/heap.c`, with its index in `src/kernel/misc/ordered_array.c`). `Segments` has the
layout as a list of segments, `HoleIndex` the index and its order by hole size; `Heap` has headers, footers and index
in byte-addressed memory, and the class; `HeapRuns` has what clients do in between and heaps that runs lead to.

**Formatted output** (`src/libc/stdio/vfprintf.c`). `Decimals` has the loops of fmt_fp that turn a binary number
into digits in base 10^9, from the mantissa to the last digit that is kept. `Printf` has the integer and string
conversions, and the parser of `src/libc/stdlib/atoll.c`; `Formats` has the reading of format strings, and
printf_core; `FormatTexts` has formats put together from text and directives, `Conversions` what each of them prints.

**Paths and mounts** (`src/kernel/fs/fs.c`, `src/libc/string/strtok_r.c`). `Paths` has canonical paths, their parent
and last part; `Mounts` has the tree of mounted file systems and the search for the one a path belongs to.

**Page tables** (`src/kernel/arch/i386/vmem.c`). `PageTables` has the frame bitset, page tables made on demand, and
translation.

All machine integers are unbounded here unless the code relies on their width; 32-bit wrap-around is written out
where it happens (`BlockCounts.U32`). Division and remainder are of natural numbers only. `off_t` is a signed 32-bit
type in the code; offsets are taken as not negative. Methods that need it take ghost parameters naming the state they
start from. `dafny verify dfyconfig.toml` checks the whole project.

## Model

| member | source | states |
|---|---|---|
| MaximalSuffixes.MaximalSuffix | src/libc/string/memmem.c:42-80 | Either maximal-suffix loop ends, and then `ip + 1` starts the lexicographically greatest suffix of the needle in its byte order and `p` is the smallest period of that suffix. |
| TwoWay.Factorize | src/libc/string/memmem.c:42-86 | The cut is the later start of the maximal suffixes of both orders; `p` is a period of the needle with `mem0` its overlap, or a distance that no smaller period within the right part bridges. |
| Suffixes.CriticalShift | src/libc/string/memmem.c:79-86 | Critical factorization: a shift that fits into the later of the two maximal suffixes and repeats the letters before the cut is a period of the whole needle, and longer than the part before the cut. |
| Suffixes.PeriodReachesBack | src/libc/string/memmem.c:82-86 | If the needle has any period longer than the left part that fits into the right one, then the period of the right part is one of the whole needle; so the memcmp test misses none. |
| TwoWay.RightMismatch | src/libc/string/memmem.c:109-115 | A mismatch in the right half at `k` rules out every start up to `k - ms` further on. |
| TwoWay.LeftMismatch | src/libc/string/memmem.c:116-120 | A mismatch in the left half rules out every start below one shift further on. |
| TwoWay.RememberedMismatch | src/libc/string/memmem.c:109-120 | With a remembered prefix, a mismatch rules out the same starts although the prefix was not compared again. |
| TwoWay.BadCharacter | src/libc/string/memmem.c:94-107 | The bad-character table never skips an occurrence: no start before the last place of the letter can match. |
| TwoWay.PeriodMove | src/libc/string/memmem.c:116-121 | After a shift by the period, the remembered prefix `mem0` really matches at the new place, and no occurrence was skipped. |
| Memmem.TwoByte | src/libc/string/memmem.c:4-9 | With a 16-bit window that wraps on every shift, the first occurrence of a two-letter needle, or none. |
| Memmem.ThreeByte | src/libc/string/memmem.c:11-17 | The same for three letters kept in the upper bytes of a 32-bit window. |
| Memmem.FourByte | src/libc/string/memmem.c:19-25 | The same for four letters. |
| Memmem.SearchLoop | src/libc/string/memmem.c:87-121 | The two-way search loop terminates and returns the first occurrence at or behind the start, or none. |
| Memmem.Memmem | src/libc/string/memmem.c:124-143 | For every haystack and needle: the position of the first occurrence, or null exactly when there is none; an empty needle is found at 0. |
| Strstr.ExtendEnd | src/libc/string/strstr.c:93-102 | The incremental end pointer never passes the terminator, and then covers a needle's length of text, or the text is known to be shorter. |
| Strstr.SearchLoop | src/libc/string/strstr.c:86-131 | The same search over a string whose end is discovered on the way: first occurrence or none, without reading behind the terminator. |
| Strstr.StrStr | src/libc/string/strstr.c:134-149 | For all C strings: the first occurrence of the needle, or null exactly when there is none. |
| TrailingZeros.Ctz32Works | src/libc/internal/atomic.h:6-12 | Multiplying the lowest set bit by the constant and looking up the top five bits in the table gives its number, for every 32-bit word but 0. |
| Bytes.Ffs | src/kernel/fs/ext2fs.c:346 | One plus the number of the lowest set bit; 0 exactly for a word without set bits. |
| Bytes.WordWith | src/kernel/fs/ext2fs.c:360 | Setting bit `k` of a little-endian word in memory sets bit `k % 8` of its byte `k / 8` and nothing else. |
| Bitmaps.FindClear | src/kernel/fs/ext2fs.c:344-351 | Word by word through `ffsl(~word)`: the first clear bit of the bitmap; 0 exactly when all bits are set. |
| Bitmaps.DecodeMark | src/kernel/fs/ext2fs.c:360-361 | In the decoded bitmap, marking or unmarking changes exactly the one bit. |
| Bitmaps.MarkThenUnmark | src/kernel/fs/ext2fs.c:359-361 | Clearing a bit that was just set restores the bitmap bit for bit. |
| Allocation.FindFree | src/kernel/fs/ext2fs.c:340-352 | Over all groups, skipping the ones without free items: the first clear bit of the first group that has one; everything before it is taken. |
| Allocation.AllocatedOk | src/kernel/fs/ext2fs.c:336-378 | Allocating keeps each group's count equal to its clear bits, puts exactly the new block in use, and lowers the sum of free blocks by one; the block is on the disk, not 0 and no bitmap. |
| Allocation.FreedOk | src/kernel/fs/ext2fs.c:383-412 | Freeing frees exactly that block and raises the sum by one; the counts stay right if and only if the block was in use. |
| Allocation.FreeUndoesAlloc | src/kernel/fs/ext2fs.c:336-412 | Freeing right after allocating restores bitmaps, group counts and sum; only the block itself stays zeroed. |
| Allocation.FirstFreeWorks | src/kernel/fs/ext2fs.c:336-378 | The lowest free block exists exactly when the free counts do not add up to 0. |
| Volumes.SameUseSameCounts | src/kernel/fs/ext2fs.c:336-412 | Two sound volumes with the same blocks in use have the same bits and the same counts. |
| Volumes.GiveTwiceMiscounts | src/kernel/fs/ext2fs.c:383-412 | Freeing what is not in use always leaves a wrong count. |
| Ext2.Ext2Fs.AllocBlock | src/kernel/fs/ext2fs.c:336-378 | Takes the lowest free block and zeroes it, updates descriptor and superblock counts and writes them back; 0 and no change exactly when nothing is free. |
| Ext2.Ext2Fs.FreeBlock | src/kernel/fs/ext2fs.c:383-412 | Block 0 is refused; otherwise the new state is that of giving the block's bit back. |
| InodeNumbers.InodeMap.AllocInode | src/kernel/fs/ext2fs.c:418-456 | Takes the lowest free inode, numbered from 1, and keeps the counts right; 0 exactly when the free count is 0. |
| InodeNumbers.InodeMap.FreeInode | src/kernel/fs/ext2fs.c:461-490 | Inode 0 is refused; the counts stay right if and only if the inode was in use. |
| BlockCounts.ClosedFormCounts | src/kernel/fs/ext2fs.c:1017-1054 | The closed form counts exactly the content blocks and the index blocks that growing a file offset by offset creates, in all four regimes. |
| BlockCounts.BlockCountExact | src/kernel/fs/ext2fs.c:1017-1054 | Within 32 bits of sectors, the machine arithmetic of get_block_count never wraps and gives the true count of blocks, times the sectors of a block. |
| BlockCounts.SectorBytes | src/kernel/fs/ext2fs.c:1053 | The sectors of a block have 512 bytes each. |
| BlockCounts.CountsInvert | src/kernel/fs/ext2fs.c:1017-1113 | get_content_blocks(get_block_count(n)) = n for every n whose sector count fits 32 bits, for all block sizes from 1 to 64 KiB. |
| BlockCounts.ContentBlocksExactly | src/kernel/fs/ext2fs.c:1061-1113 | For every 32-bit sector count, get_content_blocks gives the number of offsets whose content and index blocks are all counted if and only if the count does not stop among the new index blocks of the next offset, with some of them counted and some not; and it stops there exactly for the counts that a division of the code finds to be one short. |
| BlockCounts.CountUnderflow | src/kernel/fs/ext2fs.c:1074-1079 | The least of these counts, a double-indirect block with nothing below it, reads as billions of content blocks. |
| BlockCounts.SmallFits | src/kernel/fs/ext2fs.c:1017-1054 | Every offset of a file with 32-bit byte positions is within the reach of the tree and of the 32-bit sector count. |
| BlockCounts.CountsInOrder | src/kernel/fs/ext2fs.c:517-520 | Sector counts are ordered like content blocks, in both directions. |
| BlockTree.PathIsLeaf | src/kernel/fs/ext2fs.c:785-880 | For every offset the computed slots lead to a content position below the right index blocks, and that position is reached by no earlier offset. |
| BlockTree.LeafIsPath | src/kernel/fs/ext2fs.c:785-880 | Conversely every content position is the path of exactly one offset. |
| BlockTree.FirstUseOnPath | src/kernel/fs/ext2fs.c:885-1010 | An index block first needed by an offset lies on the path of that offset. |
| TreeUpdates.AttachTree | src/kernel/fs/ext2fs.c:885-1010 | Storing a block that is not in the tree yet changes exactly one position and keeps all blocks of the inode distinct. |
| TreeUpdates.TreeFrame | src/kernel/fs/ext2fs.c:785-880 | Writes that leave the index blocks alone leave the whole tree alone. |
| Growth.GrownStep | src/kernel/fs/ext2fs.c:499-510 | Mapping offset n in a tree that uses exactly the first n offsets gives one that uses exactly the first n + 1. |
| Growth.MissingCount | src/kernel/fs/ext2fs.c:1017-1054 | The index blocks missing on the path of the next offset are as many as the closed count adds. |
| Files.SetSpecWorks | src/kernel/fs/ext2fs.c:885-1010 | Setting a real block ends its path in that block, creates the missing index blocks out of free ones, keeps all blocks distinct, in use and accounted for, touches no other block; it fails only for lack of space. |
| FileGrowth.SetThenGet | src/kernel/fs/ext2fs.c:785-1010 | After set_real_block, the offset reads the assigned block and every other offset, mapped or not, reads as before. |
| Ext2.Ext2Fs.SetRealBlock | src/kernel/fs/ext2fs.c:885-1010 | The four-way branch with its divisions, allocations and write-backs computes the specified update of volume and inode; afterwards the bytes on the device lead from the offset to the number stored, and from every other offset where they led before. |
| Ext2.Ext2Fs.GetRealBlock | src/kernel/fs/ext2fs.c:785-880 | By the bytes of the device: the slot of the inode for the first 12 offsets, then four bytes at 4 * (off - 12) of the block in slot 12, then two and three such numbers in a row for slots 13 and 14; 0 when a block on the way is missing. |
| OnDevice.NodeIsReal | src/kernel/fs/ext2fs.c:785-880 | The node at the end of the path of an offset is the number that these bytes lead to. |
| OnDevice.SetOnDevice | src/kernel/fs/ext2fs.c:885-1010 | The same for the tree after set_real_block: the new number at its offset, the old one at every other. |
| OnDevice.BytesOnDevice | src/kernel/fs/ext2fs.c:144-195 | Byte k of the flat file is byte k % block_sz of the block that offset k / block_sz leads to on the device, or a zero where there is none. |
| OnDevice.UseOnDevice | src/kernel/fs/ext2fs.c:336-378 | Block b is in use exactly when bit b % n of the bitmap of group b / n is set, counted from the low bit of its first byte. |
| FileGrowth.AllocInodeWorks | src/kernel/fs/ext2fs.c:499-510 | Growing by one block succeeds if and only if the block and the index blocks of the closed count are free; content stays, the new block is blank, what came into use belongs to the file, other files are untouched. |
| Ext2.Ext2Fs.AllocInodeBlock | src/kernel/fs/ext2fs.c:499-510 | The same for the method, with `i_blocks` advanced to the next block count and the inode written back. |
| Ext2.Ext2Fs.GrowTo | src/kernel/fs/ext2fs.c:129-135 | The allocation loop ends, with measure offset + 1 - content blocks; it succeeds exactly when the difference of the block counts is free, and then every offset up to the one asked for is mapped. |
| Ext2.Ext2Fs.WriteBlockInode | src/kernel/fs/ext2fs.c:129-138 | One block of the file is replaced, the file growing if it has to, and nothing else changes. |
| Ext2.Ext2Fs.ReadBlockInode | src/kernel/fs/ext2fs.c:110-123 | The content of the block; zeros and an error for what is not allocated. |
| FileBytes.OtherFileIntact | src/kernel/fs/ext2fs.c:129-138 | Whatever is done to one file, every file that shares no block with it keeps its tree and content, and still shares none. |
| Ext2.Ext2Fs.WriteBufferInode | src/kernel/fs/ext2fs.c:201-254 | The file as a flat byte sequence takes the buffer at its offset and keeps every other byte; size is the maximum of both ends; a gap reads as zeros if and only if the bytes there were zero, which zero-filled growth maintains; other files are untouched. |
| Ext2.Ext2Fs.WriteBlocks | src/kernel/fs/ext2fs.c:210-251 | Head, tail and middle blocks, in the order of the code, leave every touched block with its target content and every other one alone. |
| Ext2.Ext2Fs.ReadBufferInode | src/kernel/fs/ext2fs.c:144-195 | Nothing is read behind the end; otherwise as many bytes as were asked for or as the file has left, whichever is less. The buffer receives exactly these bytes of the flat file, and nothing behind them is written. |
| FileBytes.WrittenBytes | src/kernel/fs/ext2fs.c:201-254 | When every touched block has its target, the flat file is the old one with the buffer laid in, exactly when the gap was blank. |
| FileBytes.FlatWrite | src/kernel/fs/ext2fs.c:201-254 | Reference definition of writing to a flat byte sequence. |
| FileBytes.MovesExactly | src/kernel/fs/ext2fs.c:150-192 | A transfer moves exactly sz bytes if and only if off + sz is not 0; for 0 bytes at offset 0 it runs to the last addressable block, past the buffer. |
| FileBytes.ClampedInside | src/kernel/fs/ext2fs.c:146-148 | Clamping a read keeps it inside the file if and only if off + sz does not wrap around 32 bits. |
| Shrinking.DropWorks | src/kernel/fs/ext2fs.c:539-620 | Freeing a block with nothing below it clears exactly its position and frees exactly that block. |
| Ext2.Ext2Fs.FreeInodeBlock | src/kernel/fs/ext2fs.c:539-687 | The real block of the given rank is freed and its slot cleared, for every rank that the divisions find. |
| Ext2.Ext2Fs.FreeInodeBlocks | src/kernel/fs/ext2fs.c:517-533 | Freeing back to k blocks, wherever all ranks are found: the real blocks behind the new end are freed exactly once each, what is left keeps its content, counts and `i_blocks` agree, other files are untouched; refused exactly when there is nothing to free. |
| Shrinking.GrowThenShrink | src/kernel/fs/ext2fs.c:499-687 | For all k and n that the tree can hold: growing from k to n blocks and freeing back to k restores which blocks are in use, every bitmap bit and every count, and the tree. |
| Ranks.FreedExactly | src/kernel/fs/ext2fs.c:539-687 | Over all four branches and every rank of the tree: the slots that free_inode_block computes lead to the block of that rank if and only if the rank is one of the first 15 + 2p or of the first p + 3 of the triple-indirect range. |
| Ranks.LastBlockFreed | src/kernel/fs/ext2fs.c:517-687 | The last real block of a file of o + 1 content blocks is found if and only if o < 12 + 2p or 12 + p + p*p <= o < 12 + 2p + p*p. |
| Ranks.AddressedOutside | src/kernel/fs/ext2fs.c:579-687 | Where it is not found within one double-indirect tree, the slot computed lies behind the end of its index block. |
| Ranks.FoundRanks | src/kernel/fs/ext2fs.c:517-533 | All blocks that free_inode_blocks takes when it cuts n content blocks down to k are found if and only if n <= 12 + 2p, or 12 + p + p*p <= k and n <= 12 + 2p + p*p. |
| FreshVolumes.FreshOk | src/kernel/fs/ext2fs.c:336-412 | A freshly formatted volume is sound, for every block size and group size. |
| FreshVolumes.EmptyFile | src/kernel/fs/ext2fs.c:1017-1054 | An inode without blocks is a file of length 0 in any sound volume. |
| Directories.SplitRecord | src/kernel/fs/ext2fs.c:734-747 | Splitting the slack off a record and filling it adds exactly one entry and keeps the block tiled. |
| Directories.ReuseRecord | src/kernel/fs/ext2fs.c:727-732 | Filling an unused record that is long enough adds exactly one entry and keeps the block tiled. |
| Directories.NewBlock | src/kernel/fs/ext2fs.c:760-770 | A new block with one spanning record is tiled and has exactly that entry. |
| Directories.MergeRecord | src/kernel/fs/ext2fs.c:1501-1508 | Merging a record into the one before it removes exactly its entry and keeps the block tiled. |
| Directories.BlankRecord | src/kernel/fs/ext2fs.c:1501 | Without a record before it, clearing the inode number removes exactly that entry. |
| NameTables.LookupInserted | src/kernel/fs/ext2fs.c:716-779 | Creating an entry with a new name adds exactly that binding to the name table: find_dirent then finds it, and all other names as before. |
| NameTables.LookupRemoved | src/kernel/fs/ext2fs.c:1501-1508 | Removing an entry leaves all other names alone; with unique names, its own name is gone. |
| Directories.RecordOnDisk | src/kernel/fs/ext2fs.c:1149-1188 | The bytes of a record: inode number and record length with the low byte first, then the length of the name, the type and the name. |
| DirectoryOps.FindDirent | src/kernel/fs/ext2fs.c:1149-1188 | Over any number of blocks: the first live record with the name, with the record before it; nothing if and only if no entry has the name. |
| DirectoryOps.FindSpace | src/kernel/fs/ext2fs.c:721-758 | The first record over all blocks that is unused and long enough or has enough slack, shortened in the latter case; the place behind the last block if and only if no record has room. |
| DirectoryOps.CreateDirent2 | src/kernel/fs/ext2fs.c:716-779 | The directory gains exactly one entry and stays exactly tiled; a block is appended if and only if no record of any block has room; no other file is touched. |
| DirectoryOps.RemoveRecord | src/kernel/fs/ext2fs.c:1498-1524 | Exactly the record found is removed and the directory stays tiled; the block is reported for freeing if and only if it is the last one and one unused record is left that spans it. |
| Segments.PlacedOk | src/kernel/mem/heap.c:161-213 | Allocating from a hole keeps the heap tiled from start to end with no two holes side by side. |
| Segments.PlacedParts | src/kernel/mem/heap.c:161-213 | The segment made of a hole, what is left of it, and that nothing else changes. |
| Segments.CoalescedOk | src/kernel/mem/heap.c:355-397 | Freeing, with coalescing to both sides, does too. |
| Segments.CoalescedHoles | src/kernel/mem/heap.c:369-396 | The holes afterwards are the holes before, with the right one gone and the segment added when no hole was on its left. |
| Segments.FreeUndoesAlloc | src/kernel/mem/heap.c:112-397 | Freeing right after allocating gives back the very same segments. |
| Segments.ExpandsRightHole | src/kernel/mem/heap.c:126-155 | Making the highest hole longer keeps the heap tiled if and only if that hole is the last segment. |
| Heap.VmemHeap.constructor | src/kernel/mem/heap.c:21-51 | One hole from start to end, with header, footer and index in place. |
| HoleIndex.InsertedOrdered | src/kernel/misc/ordered_array.c:32-45 | The place behind everything smaller keeps an index ordered by hole size in order, and makes none of one that was not. |
| HoleIndex.RemovedOrdered | src/kernel/misc/ordered_array.c:58-62 | Taking out an element leaves the index in order if and only if all others were. |
| Heap.VmemHeap.IndexInsert | src/kernel/misc/ordered_array.c:32-45 | The element comes behind everything smaller at the front and before what is not; everything else keeps its order. |
| Heap.VmemHeap.HoleFind | src/kernel/mem/heap.c:84-110 | Finds a hole through the index if and only if some segment is a hole that is long enough; all holes before it in the index are too short. |
| Heap.FirstIsBest | src/kernel/mem/heap.c:84-110 | In an index in order, that hole is the shortest that is long enough. |
| Heap.VmemHeap.Alloc | src/kernel/mem/heap.c:112-216 | Keeps headers, footers, index and layout right in memory; the result lies in a hole that is taken whole when less than a header and a footer would be left, and is split at the size asked for otherwise, the heap expanding by whole pages when no hole fits; all live segments keep every byte. The hole is a best fit when the index was in order, and the index is in order afterwards if and only if all holes but the one taken were before. |
| Heap.VmemHeap.Free | src/kernel/mem/heap.c:355-397 | Keeps them right too; the segment and the holes beside it become one hole, and all other live segments keep every byte. An index in order stays so if and only if no hole was on the left or none behind that one in the index is smaller than what it grows to. |
| Heap.FreedOrdered | src/kernel/mem/heap.c:369-396 | The same for the writes and the index steps of a free: a left hole that grows is not moved in the index. |
| HeapRuns.OrderLost | src/kernel/mem/heap.c:369-376 | A heap with two holes whose index is in order before one free and out of order after it. |
| HeapRuns.TornReached | src/kernel/mem/heap.c:112-397 | Five allocations and two frees lead to that heap. |
| HeapRuns.ClientKeepsSound | src/kernel/mem/heap.c:112-397 | Writing to the payload of a live segment keeps every clause of the heap invariant and the order of the index; so the invariant holds over whole runs of clients. |
| HeapRuns.HoleBeforeTheEnd | src/kernel/mem/heap.c:112-397 | Two allocations and one free lead to a heap whose highest hole is not its last segment. |
| Heap.JoinedStored | src/kernel/mem/heap.c:369-392 | Writing the size of the left header and the address in the right footer turns two adjacent segments into one. |
| Heap.PlacedSound | src/kernel/mem/heap.c:191-213 | The headers and footers written by an allocation, with the index updated, keep every clause of the heap invariant. |
| Heap.FreedSound | src/kernel/mem/heap.c:365-396 | The same for freeing. |
| FileBytes.EmptyTransferWraps | src/kernel/fs/ext2fs.c:150-151 | The last block of a transfer lies inside the range if and only if the range is not empty at offset 0. |
| Decimals.ToDigits | src/libc/stdio/vfprintf.c:258-294 | For every finite long double: the base-10^9 digits in the buffer are exactly the number when the exponent is not negative; otherwise they differ from it by less than two units of the 21st decimal place behind the precision (format f) or at most one part in 10^(p + 17) (e and g), and not at all when the precision is large; both ends stay in the buffer. |
| Decimals.Extract | src/libc/stdio/vfprintf.c:263-266 | The digits of the mantissa, exactly; at most one for every nine bits of its fraction. |
| Decimals.ShiftLeft | src/libc/stdio/vfprintf.c:271-275 | One pass multiplies the number by 2^sh: digits stay below 10^9, the carry below 2^29, the intermediate value below 2^64. |
| Decimals.ScaleUp | src/libc/stdio/vfprintf.c:268-279 | The whole loop multiplies the value of the active digits by 2^e2, exactly. |
| Decimals.ShiftRight | src/libc/stdio/vfprintf.c:283-287 | One pass divides the number by 2^sh, with the rest as one more digit; digits stay below 10^9, and only the first one can become zero. |
| Decimals.ScaleDown | src/libc/stdio/vfprintf.c:280-294 | The whole loop divides the value by 2^e2 up to what line 292 cuts off, which is bounded in units of the last digit kept (f) or as a share of the value (e, g). |
| Decimals.CutAt | src/libc/stdio/vfprintf.c:291-292 | What the digits cut off are worth: at most the weight of the last digit kept, and at most one part in BASE^(need - 1) when the first digit is not zero. |
| Decimals.FixedAccuracy | src/libc/stdio/vfprintf.c:282-292 | In the format f the bound in units of the last digit kept lies 21 decimal places behind the precision. |
| Decimals.FloatAccuracy | src/libc/stdio/vfprintf.c:282-292 | In the formats e and g the losses of all rounds together are at most one part in 10^(p + 17). |
| Decimals.Room | src/libc/stdio/vfprintf.c:172-173 | The size of the buffer is enough for every exponent of a long double, in both directions. |
| Formats.PrintfCore | src/libc/stdio/vfprintf.c:425-600 | For every format string and argument list, read character by character: the result is the number of characters put out, and they are what the format means; -1 exactly when the format means nothing, for a wrong directive or a width or precision of a number that does not fit an int, or the whole length does not fit one. |
| FormatTexts.FormatReadBack | src/libc/stdio/vfprintf.c:433-503 | A format put together from any text, with its percent signs doubled, and any directives, with flags, sizes, arguments for sizes and lengths, is read as what it was put together from. |
| FormatTexts.DirectiveReadBack | src/libc/stdio/vfprintf.c:440-503 | Every proper directive is read back whole, whatever follows it. |
| Conversions.IntegerPrinted | src/libc/stdio/vfprintf.c:440-597 | From the text of the directive to the number: for all flags, widths, precisions (given, taken from an argument, or absent) and lengths, d and i print the argument as a signed number of the width of the length, u, o, x and X as an unsigned one, p as a pointer; in decimal, octal or hexadecimal digits without leading zeros, with the sign or prefix that the flags ask for, as many digits as the precision asks for, in a field filled up with blanks or zeros on the side that the flags ask for. |
| Conversions.NumberReadBack | src/libc/stdio/vfprintf.c:440-597 | atoll reads the text that d, i and u print as the number in the argument. |
| Conversions.CharacterPrinted | src/libc/stdio/vfprintf.c:563-566 | c prints the low byte of its argument as a character, in a field. |
| Conversions.StringPrinted | src/libc/stdio/vfprintf.c:569-575 | s prints its string up to the precision, or "(null)", in a field. |
| Conversions.DirectiveRefused | src/libc/stdio/vfprintf.c:488-494 | A length and conversion that do not go together make the format wrong, whatever comes before and behind. |
| Conversions.WidthRefused | src/libc/stdio/vfprintf.c:465 | So does a width that does not fit an int. |
| Conversions.PrecisionRefused | src/libc/stdio/vfprintf.c:538-554 | So does a precision of a number that does not fit an int, if and only if it is not that of an octal number with #, which gets a precision of its own first. |
| Formats.GetInt | src/libc/stdio/vfprintf.c:125-132 | The number the digits are worth, or -1 if and only if that does not fit an int, although the overflow is only seen digit by digit. |
| Formats.LiteralMeaning | src/libc/stdio/vfprintf.c:433-437 | A run of text and doubled percent signs means the one slice of the format that is put out for it. |
| Printf.Stream.PutItem | src/libc/stdio/vfprintf.c:433-597 | A piece of a format is put out whole and its length given, or nothing is, exactly when a precision or the count does not fit an int. |
| Printf.Stream.PutInteger | src/libc/stdio/vfprintf.c:534-561 | Sign or base prefix, precision and alternate form of an integer conversion give the text specified for it, or a refusal and no output. |
| Printf.FieldParts | src/libc/stdio/vfprintf.c:585-597 | The field is what prefix, body and the three width pads put out, of which at most one is not empty. |
| Printf.Stream.Pad | src/libc/stdio/vfprintf.c:139-148 | Padding in pieces of 256 puts out exactly the missing characters, or none when a flag forbids it. |
| Printf.FmtU | src/libc/stdio/vfprintf.c:164-169 | The decimal digits of every 64-bit number, at most 20, although the division goes on in 32 bits. |
| Printf.FmtO | src/libc/stdio/vfprintf.c:159-162 | Its octal digits, at most 22. |
| Printf.DigitsWorth | src/libc/stdio/vfprintf.c:150-152 | Each of the sixteen digits, small or capital, is worth its place in the alphabet. |
| Printf.ValueConcat | src/libc/stdio/vfprintf.c:154-169 | Digits in front count for as many powers of the base as there are digits behind them. |
| Printf.DigitsValue | src/libc/stdio/vfprintf.c:154-169 | The digits of a number are worth the number, in every base and case. |
| Printf.Atoll | src/libc/stdlib/atoll.c:4-15 | The number a string starts with, behind spaces and a sign; no value on the way leaves 64 bits, not even for the least number. |
| Printf.ParsedNumber | src/libc/stdlib/atoll.c:4-15 | A sign and digits are read as their number behind any of the six white-space characters, whatever follows that is no digit. |
| Printf.ReadBack | src/libc/stdlib/atoll.c:4-15 | atoll reads back what %lld prints, for every 64-bit number and all flags, widths and precisions. |
| Paths.StrTokR | src/libc/string/strtok_r.c:3-11 | The tokens of successive calls are the parts of the string between separators, in order; the separator behind a token becomes its terminator. |
| Paths.CanonicalizePath | src/kernel/fs/fs.c:533-602 | The canonical path with its terminator in a buffer of exactly that size, and its exact length. |
| Paths.CanonIsCanonical | src/kernel/fs/fs.c:533-602 | The result is "/" or parts joined by slashes, none of them empty, "." or "..". |
| Paths.CanonIdempotent | src/kernel/fs/fs.c:533-602 | Canonicalizing a result again, in any directory, changes nothing. |
| Paths.CanonOfCanonical | src/kernel/fs/fs.c:533-602 | A canonical path is left as it is. |
| Paths.CanonParent | src/kernel/fs/fs.c:562-568 | A part ".." and the proper part before it cancel, wherever they are in a path. |
| Paths.CanonAboveRoot | src/kernel/fs/fs.c:562-568 | At the start of a path ".." means nothing. |
| Paths.CanonCurrent | src/kernel/fs/fs.c:560-561 | A part "." means nothing, wherever it is. |
| Paths.CanonSlashes | src/kernel/fs/fs.c:552-575 | Nor does a slash too many. |
| Paths.CanonRelative | src/kernel/fs/fs.c:537-551 | A relative path means the same as the path put behind its directory. |
| Paths.CanonRelativeExactly | src/kernel/fs/fs.c:537-551 | That holds for all relative paths if and only if the directory has no part "." or ".."; those are taken for names. |
| Paths.CanonEmpty | src/kernel/fs/fs.c:539 | The empty path names the root, whatever the directory; so it means the same as the path put behind the directory if and only if the directory leads to the root. |
| Paths.ParentBasename | src/kernel/fs/fs.c:32-56 | Parent and last part make up the canonical path again, the parent is the path of the other parts; the root has neither. |
| Mounts.MountTree.Mount | src/kernel/fs/fs.c:427-500 | The table of mounted file systems is updated at the path and nowhere else, whether its directories exist or are made, and the node returned is the one of the path; a path that does not start with a slash is refused. |
| Mounts.MountPartsOfCanonical | src/kernel/fs/fs.c:443-447 | For a canonical path the directories descended through are its parts. |
| Mounts.MountTree.GetMountPoint | src/kernel/fs/fs.c:604-649 | After any mounts, the file system mounted last at the longest prefix of the path that has one, the number of parts of that prefix, and where the remaining parts start. |
| Mounts.MountTree.MountPointOf | src/kernel/fs/fs.c:658-689 | The same for every name in every directory, through canonicalizing and counting separators. |
| Mounts.NothingBelow | src/kernel/fs/fs.c:618-638 | When a node has no child for the next part, no node of the tree stands for the path or for anything below. |
| Mounts.GrownTree | src/kernel/fs/fs.c:477-485 | A new directory keeps the tree a tree: every node stands for one path, and no two for the same. |
| PageTables.FindFirst | src/kernel/arch/i386/vmem.c:108-154 | The first free frame behind the first megabyte, through ffsl; none exactly when all whole words of the bitset are full. |
| PageTables.Paging.GetPage | src/kernel/arch/i386/vmem.c:352-385 | A missing page table is made, blank, in the first free frame, which comes into use and no other; its entry is present, writable, and for users unless the kernel asks. No address changes its translation, and the tables stay distinct and in use. It fails only when no frame is free. |
| PageTables.Paging.FrameMapAddr | src/kernel/arch/i386/vmem.c:266-270 | The page leads to the frame of the physical address, every other page where it led before; for frame 0 it leads to a free frame instead. The frames in use afterwards are exactly those before, the frame of the address and the frame taken; one entry is written, with the flags asked for. |
| PageTables.Paging.MapPage | src/kernel/arch/i386/vmem.c:266-385 | Getting a page and mapping it makes the address translate to the physical address and its offset if and only if that is not in the first page of memory; no other page changes its translation. The entry is in the slots of the upper ten and the next ten bits of the address, with all its bits; the frames in use are exactly those before, the one mapped and that of a new table, so no frame in use is handed out. |

## Findings

Where the code and its evident intent differ, the code is modelled, and a lemma says exactly when it meets the intent.

- BlockCounts.ContentBlocksExactly: get_content_blocks is wrong exactly on sector counts that take in some, but not all,
  of the index blocks that the next offset needs.
- FileBytes.MovesExactly: reading or writing nothing at offset 0 runs to the last block that 32 bits can address.
- FileBytes.ClampedInside: clamping a read fails when its end wraps around 32 bits.
- Ranks.FreedExactly, Ranks.LastBlockFreed: free_inode_block divides by one too much in the double-indirect and
  triple-indirect ranges; the last block of a file is found for at most 12 + 2p content blocks, and again for
  12 + p + p*p + 1 to 12 + 2p + p*p.
- Segments.ExpandsRightHole: expanding the heap lengthens the highest hole even when it is not the last segment, as
  in the heap of HeapRuns.HoleBeforeTheEnd.
- Heap.FreedOrdered: freeing can leave the index out of order, as in HeapRuns.OrderLost.
- PageTables.Paging.MapPage: mapping the first page of physical memory maps some free frame instead.
- Paths.CanonRelativeExactly, Paths.CanonEmpty: "." and ".." in a directory are taken for names, and the empty path
  names the root.

## Left out

- Ext2.Ext2Fs.WriteInode: inodes are written to a table of records; the inode table's blocks and the address computation in them (which uses the global inode number and is right for one block group only) are not modelled.
- Ext2.Ext2Fs.WriteCounts: the superblock and the descriptor table on the device are two saved copies, and the blocks they occupy are not part of the block array.
- Ext2.Ext2Fs.WriteBufferInode: enough free blocks are required, because the code ignores errors midway; `off + sz` must fit 32 bits and not be 0 (see FileBytes.MovesExactly).
- Ext2.Ext2Fs.AllocInodeBlock: when space runs out in the middle of a path, the blocks taken so far stay in use; only the soundness of the volume is stated for that case.
- Ext2.Ext2Fs.FreeInodeBlocks: cuts whose ranks are all found; in any other the code addresses a block of another rank or a slot outside its index block (see Ranks.FoundRanks and Ranks.AddressedOutside), and what it then does to the volume is not followed.
- Ext2.Ext2Fs.FreeInodeBlock: ranks that are found (see Ranks.FreedExactly), for the same reason.
- InodeNumbers.InodeMap.AllocInode: the inode bitmaps form a volume of their own; that they lie on the same device as the block bitmaps is not used.
- DirectoryOps.CreateDirent2: blocks below 64 KiB, so that a record length fits 16 bits, names of at most 255 bytes, and enough free blocks.
- DirectoryOps.RemoveRecord: the rest of unlink, link counts and the freeing of an emptied last block, is not modelled; the latter does not lower the size of the directory.
- Heap.VmemHeap.Alloc: alignment 0 only; a needed expansion requires that the highest hole reaches the end of the heap (see Segments.ExpandsRightHole) and stays below the maximum.
- Heap.VmemHeap.constructor: memory before the start and behind the end must not look like a footer or header; page frames, their mapping and the room for the index array are not modelled.
- Heap.VmemHeap.IndexInsert: the index is a sequence that the methods reassign; the memmove of its array and its capacity, which the code does not check, are not modelled.
- Heap, realloc and the aligned branch of alloc: their size arithmetic does not keep the layout.
- Strstr.StrStr: strings are sequences with a terminator; words of the byte set are a table of flags. The two maximal-suffix loops, which differ in one comparison, are one method with an order parameter.
- File names: C strings are their bytes up to the terminator; strcmp of equally long names is equality.
- The superblock's first data block is ignored, as in the code.
- truncate, readdir, count_dirent, mknod, symlink and permissions: not modelled.
- Decimals.ToDigits: what frexpl gives is taken as an exact fraction; the rounding to the precision, the exponent and the output behind line 294, and the formats a, inf and nan are not modelled.
- Paths.StrTokR: the set of separators is the one that the callers modelled here pass, a slash.
- Paths.CanonicalizePath: the list of parts is a sequence, kmalloc always succeeds.
- Mounts.MountTree.Mount: the nodes are a sequence, with indexes for pointers; the warnings, reference counts and the clone of the node found are not modelled.
- Mounts.MountTree.MountPointOf: what kopen does with the mount point (symbolic links, the search inside the file system) is not modelled.
- PageTables.Paging.GetPage: physical memory is reached by frame number, so the pages of the mapping region and their running out are not modelled; addresses in that region have a table of their own.
- PageTables.Paging.MapPage: the physical address must have a bit in the frame bitset. arch_fatal, which does not return, is an out-parameter.
- Formats.PrintfCore: a format is its characters before the terminator; formats whose reading comes to %n, to a floating-point conversion, to a positional argument or to a width argument of the least int are excluded; the arguments are a function, so running out of them is not modelled, nor what the stream does with the output.
- The hash map, pipes, drivers and the terminal are not part of this model.
