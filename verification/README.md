# Kernel model

A Dafny model of the parts of a 32-bit hobby kernel and its C library that carry real invariants, with
proofs of what callers rely on. Code that updates memory in place is modelled by classes, arrays and loops;
each method is proved against a specification function, and the laws are lemmas about those functions.

- `Kmem`, `KmemRuns`: the kernel heap. One word array holds both the block headers and the payloads; a ghost
  list of blocks says what the headers mean. Runs are sequences of allocations, frees and stores by the owners
  of live blocks.
- `Fat32`, `Fat32Readdir`, `Fat32Listing`, `Fat32Names`, `Fat32RoundTrip`, `Fat32Read`: the FAT32 reader of the
  Microsoft FAT File System Specification (August 2005). A volume is a map from sector numbers to sectors; an
  absent sector is one that the device cannot read. Directory enumeration is one scan over the slots of the
  concatenated clusters, with the long-name assembly as a state machine.
- `Fat32Entries`, `Fat32Volume`, `VfsVolume`: what the reader makes of volumes that are written as the specification
  says - slots, allocation table, clusters, directory trees - up to files that are found by path and read back.
- `VfsPath`, `VfsPathLaws`, `Vfs`: path resolution, which cuts a copy of the path in place, and the descriptor
  table.
- `Paging`, `Bits`: the page-table pool, the boot mappings and the single-page mapper, judged by the page walk of
  section 4.3 of the Intel Software Developer's Manual, Volume 3A.
- `Snprintf`, `SnprintfRun`, `SnprintfFormats`, `SnprintfLaws`: the bounded printer (section 7.21.6.5 of ISO C11),
  formats as they are written, and what they print.
- `Scan`, `ScanNumerals`, `ScanRoundTrip`: the number parser, the numerals that it reads, and when it undoes the
  printer.
- `Stdio`: the two buffered writers and fflush (section 7.21.3 of ISO C11).
- `Vga`, `Vbe`: the text console and the graphical console, each as a window on an unbounded surface that never
  scrolls; the glyph cache against drawing pixel by pixel.
- `Bmp`: decoding of 24- and 32-bit bitmaps.
- `Machine`, `Arith`, `CString`: 32-bit words, division lemmas, and the string routines that the rest uses.

Where the code and what it seems meant to do differ, the model follows the code, and the exact condition is
proved:

- Rounding a heap request up wraps above 0xFFFFFFF0 (`Kmem.AlignSizeCovers`). A search that finds no block makes
  kmalloc loop forever; the model ends there with the result `Exhausted`.
- readdir counts a volume label and then skips it, so the entry behind it is returned twice
  (`Fat32Listing.LabelRepeatsNext`). `Fat32Listing.ListingIs` says how often every entry is listed, and
  `Fat32Listing.ListingOnceIff` that each is listed once exactly when no label stands before an entry.
- vfs_lookup takes a device error for "go on" (src/kernel/fs/vfs.c:49) and asks for the same index again. The model
  ends there with the result `Stuck`, which happens exactly when a directory on the way cannot be read to its end and
  the name does not stand before the unreadable sector (`VfsPath.Lookup`, `VfsPathLaws.ResolveEnds`).
- The long-name buffer accepts fewer than 255 characters with the last terminator counted, so written names of 254
  and 255 characters come back as 8.3 names (`Fat32RoundTrip.NameComesBack`).
- The memcpy of fat32_read stands inside a comment (src/kernel/fs/fat32.c:143). `Fat32Read.Read` has a parameter
  `copies`: with it the intended copy is made, without it the count is the same and the buffer unchanged.
- An empty file has cluster 0, which the code does not tell from others, so reading it returns a cluster that is not its
  own (`Fat32Volume.EmptyFileRead`); files of one cluster or more are read back (`VfsVolume.FileReadBack`).
- The guard against mapping a frame twice compares a masked bit with 1 (`Paging.PageTables.GuardFiresIff`).
- Reserved memory above 0x9001 pages collides with the table for page 0x9000, and above 256 MiB with the window at
  0xD0000000 (`Paging.LowIdentityIff`, `Paging.HigherHalfIff`).
- Zero padding and precision put zeros in front of a minus sign or of 0x (`ScanRoundTrip.NegativeReadsBackIff`,
  `ScanRoundTrip.PointerReadsBackIff`).
- A short write by the device loses the rest of the buffer (`Stdio.ShortWriteLoses`), and nothing else does
  (`Stdio.NothingLostIff`, `Stdio.DeliveredIff`, `Stdio.FlushKeepsIff`).
- The bitmap decoder trusts the image size in the header (`Bmp.ReadsInsideIff`, `Bmp.ZeroImageSize`).

## Model

| member | source | states |
|---|---|---|
| Kmem.AlignSizeCovers | src/kernel/utils/kmem.c:24-26 | The rounded size covers the request if and only if the request is at most 0xFFFFFFF0; above that it is 0 |
| Kmem.Heap.constructor | src/kernel/utils/kmem.c:30-43 | The initialised heap array holds one free block header that spans it |
| Kmem.Heap.Kmalloc | src/kernel/utils/kmem.c:46-84 | The whole array afterwards, header words included: the first fitting block of the list is split and marked, every other word stays, and no call leaves a gap, an overlap, two free neighbours or a wrong header word |
| Kmem.Heap.Search | src/kernel/utils/kmem.c:53-79 | Following the stored next words reaches exactly the first free block that is large enough, or NULL |
| Kmem.Heap.Take | src/kernel/utils/kmem.c:56-76 | Splitting and marking in place turns the block list into the one that the list-level placement describes, and keeps every live payload word |
| Kmem.Heap.SplitBlock | src/kernel/utils/kmem.c:57-70 | Writing the remainder as a new header inside the free block leaves a tiling with matching headers and the same live blocks, and touches no live payload |
| Kmem.Heap.Kfree | src/kernel/utils/kmem.c:87-122 | NULL, foreign and already free pointers change nothing; otherwise the array is the one with the block released and merged both ways, every other word unchanged |
| Kmem.Heap.ReleaseBlock | src/kernel/utils/kmem.c:102-121 | Marking free and merging with the next and the previous block in place gives the released list |
| Kmem.Heap.Absorb | src/kernel/utils/kmem.c:105-119 | Enlarging a block over its successor and unlinking the successor keeps the list a tiling with matching headers, and touches no live payload |
| Kmem.FirstFit | src/kernel/utils/kmem.c:53-79 | The result fits, and nothing before it does |
| Kmem.PlaceKeeps | src/kernel/utils/kmem.c:57-73 | Placing a request keeps the tiling without free neighbours and adds exactly one live block, which overlaps no other |
| Kmem.PlaceTakes | src/kernel/utils/kmem.c:57-73 | A placement takes n paragraphs and leaves the rest as a free block when two more are there, otherwise it takes the block whole; all other blocks stay |
| Kmem.ReleaseKeeps | src/kernel/utils/kmem.c:102-121 | Releasing a block and merging both ways keeps the tiling, leaves no free neighbours and removes exactly that block from the live ones |
| Kmem.HeadersApart | src/kernel/utils/kmem.c:34-39 | No header word lies inside the payload of a live block |
| Kmem.SplitRepresents | src/kernel/utils/kmem.c:57-70 | The words that a split writes are the headers of the split list |
| Kmem.MergeRepresents | src/kernel/utils/kmem.c:105-119 | The words that a merge writes are the headers of the merged list |
| Kmem.PlaceState | src/kernel/utils/kmem.c:56-76 | The exact array after a placement is again a tiling without free neighbours, its header words match, and the payload words of all live blocks are the old ones |
| Kmem.ReleaseState | src/kernel/utils/kmem.c:102-121 | The exact array after a release is so too, and the payload words of all other live blocks are the old ones |
| Kmem.Canonical | src/kernel/utils/kmem.c:46-122 | Two tilings without free neighbours that have the same live blocks are the same list |
| KmemRuns.AllocMeaning | src/kernel/utils/kmem.c:46-84 | The pointer is the 16-byte aligned payload of a new live block at the start of a free one, disjoint from every live block; it takes what the rounded request needs and leaves a free block behind it whenever 32 more bytes are there, otherwise it takes the free block whole; all other blocks stay; it is shorter than the rounded request plus 32 bytes, and at least as long as the request if and only if that is at most 0xFFFFFFF0 |
| KmemRuns.AllocIsLowest | src/kernel/utils/kmem.c:53-79 | No free block that would do lies below the one chosen |
| KmemRuns.AllocFailsOnlyWhenNothingFits | src/kernel/utils/kmem.c:46-83 | NULL is the answer to size 0 alone; exhaustion happens if and only if no free block is large enough; neither changes anything |
| KmemRuns.Capacity | src/kernel/utils/kmem.c:30-84 | From a new heap, the request number i of n paragraphs each succeeds if and only if (i + 1) * (n + 1) paragraphs are at most the heap |
| KmemRuns.FreeMeaning | src/kernel/utils/kmem.c:87-122 | Freeing the pointer of any live block makes exactly that block no longer live |
| KmemRuns.LiveMayFree | src/kernel/utils/kmem.c:87-99 | The pointer of every live block may be freed |
| KmemRuns.FreeRefused | src/kernel/utils/kmem.c:87-99 | NULL, pointers outside the heap and the pointers of free blocks leave everything as it is |
| KmemRuns.AllocatedMayFree | src/kernel/utils/kmem.c:46-99 | What kmalloc returned may be freed |
| KmemRuns.AllocFreeUndo | src/kernel/utils/kmem.c:46-122 | kfree of what kmalloc just returned restores the block list exactly |
| KmemRuns.StepSound | src/kernel/utils/kmem.c:46-122 | Every allocation, free and owner store turns a heap with a tiling, no free neighbours and matching header words into one; nothing of this is assumed of the step |
| KmemRuns.StartEvent | src/kernel/utils/kmem.c:30-43 | A new heap is the start of a run |
| KmemRuns.AllocEvent | src/kernel/utils/kmem.c:46-84 | A call of kmalloc on the array is an allocation step of a run |
| KmemRuns.FreeEvent | src/kernel/utils/kmem.c:87-122 | A call of kfree on the array is a free step of a run |
| KmemRuns.StoreEvent | src/kernel/utils/kmem.c:46-122 | A store of an owner to its payload is a store step, and leaves the heap valid |
| KmemRuns.RunGrows | src/kernel/utils/kmem.c:46-122 | A run extended by such a step is a run |
| KmemRuns.StepKeeps | src/kernel/utils/kmem.c:46-122 | A step changes a payload word of a block live before and after it only by the owner storing to that word |
| KmemRuns.RunSound | src/kernel/utils/kmem.c:46-122 | In every state of every run of allocations, frees and stores, from the initial heap on, the list tiles the heap, no two neighbours are free and every header word matches |
| KmemRuns.PayloadSafe | src/kernel/utils/kmem.c:46-122 | Over any stretch of a run in which a block stays live, its payload words change only by stores to them |
| KmemRuns.LiveApart | src/kernel/utils/kmem.c:46-122 | Two different live blocks never overlap, and both lie inside the heap |
| KmemRuns.LiveSetDecides | src/kernel/utils/kmem.c:46-122 | Two runs that leave the same blocks live leave the same block list, however they came there |
| KmemRuns.AllFreedIsInitial | src/kernel/utils/kmem.c:102-121 | Whenever nothing is live any more, the list is the single initial block |
| KmemRuns.AnyOrderRestores | src/kernel/utils/kmem.c:102-121 | Freeing all live blocks restores the initial list for every order of the frees |
| CString.Memmove | src/libc/string/memmove.c:3-14 | The destination holds what the source held before the call, also when they overlap, and nothing else changes |
| CString.Strncpy | src/libc/string/strncpy.c:4-12 | The first n bytes are the text cut at n, then NULs; nothing behind them changes |
| CString.Stricmp | src/libc/string/stricmp.c:4-25 | 0 if and only if the strings have the same length and at every place the same byte or the capital and the small form of one letter; otherwise the difference of the lower-case forms at the first place where they differ |
| CString.SameTextIff | src/libc/string/stricmp.c:4-9 | Two strings have the same lower-case form if and only if they are equal but for letters 0x41 to 0x5A and 0x61 to 0x7A that differ by 32 |
| CString.Strchr | src/libc/string/strchr.c:4-15 | The first occurrence at or after the start, or the terminator |
| Fat32.ChainUnique | src/kernel/fs/fat32.c:59-72 | A cluster chain that ends is determined by its first cluster |
| Fat32.ChainAcyclic | src/kernel/fs/fat32.c:59-72 | A cluster chain that ends visits no cluster twice |
| Fat32Volume.EntryComesBack | src/kernel/fs/fat32.c:59-66 | An entry written to the allocation table, four bytes per cluster, low byte first, is read back in its low 28 bits |
| Fat32Volume.ChainComesBack | src/kernel/fs/fat32.c:59-72 | Links written to the table, ended by a value from 0x0FFFFFF8 on, are followed cluster by cluster to the end |
| Fat32Volume.ClusterComesBack | src/kernel/fs/fat32.c:74-81 | Sectors written behind the data start, cluster 2 first, are read back as the cluster |
| Fat32Volume.FileComesBack | src/kernel/fs/fat32.c:128-150 | A file written as linked clusters is read back: no read fails, and each returns the bytes written, as many as are asked for and exist |
| Fat32Volume.EmptyFileRead | src/kernel/fs/fat32.c:128-150 | The stored cluster 0 of an empty file is read like any other: the sectors two clusters before the data region are returned, and only a read of no bytes returns none |
| Fat32Readdir.ComputeChecksum | src/kernel/fs/fat32.c:83-89 | The loop computes the rotate-and-add fold of the eleven bytes |
| Fat32Readdir.ExtractPart | src/kernel/fs/fat32.c:208-225 | The temporary buffer holds the characters of the three fields of a long-name slot, in order, without units above 0xFF |
| Fat32Readdir.PrependPart | src/kernel/fs/fat32.c:226-238 | The memmove and strncpy put the part in front of the name collected so far, inside 256 bytes |
| Fat32Readdir.TakeLong | src/kernel/fs/fat32.c:185-242 | The buffer, position, expected number and checksum after a long-name slot are those of the long-name state machine, and no buffer is overrun |
| Fat32Readdir.BuildShort | src/kernel/fs/fat32.c:254-266 | The 8.3 name is assembled from base and extension up to their first spaces |
| Fat32Readdir.TakeShort | src/kernel/fs/fat32.c:244-294 | The returned entry has the long name exactly when the machine allows it, else the 8.3 name, with its cluster and directory flag |
| Fat32Readdir.TakeSlot | src/kernel/fs/fat32.c:179-294 | One slot: end, deletion, long part, skipped short entry, label or returned entry, as one step of the scan |
| Fat32Readdir.ScanSector | src/kernel/fs/fat32.c:174-295 | The loop over the slots of a sector leaves what the scan of those slots leaves for the rest of the directory |
| Fat32Readdir.ScanCluster | src/kernel/fs/fat32.c:169-296 | So does the loop over the sectors of a cluster, which stops with an error at a sector that cannot be read |
| Fat32Readdir.Readdir | src/kernel/fs/fat32.c:156-302 | For every directory whose chain ends, the nested loops over clusters, sectors and slots return what one scan of the concatenated slots returns |
| Fat32Listing.ReaddirAnswers | src/kernel/fs/fat32.c:174-302 | Call k returns the first non-label entry that at least k short slots precede, and the end or the error when there is none |
| Fat32Listing.EachOnceInOrder | src/kernel/fs/fat32.c:245-302 | Without volume labels call k returns exactly the k-th short entry of the disk |
| Fat32Listing.ListingComplete | src/kernel/fs/fat32.c:245-302 | Without volume labels, calling from 0 until the end lists every short entry exactly once in disk order |
| Fat32Listing.ListingIs | src/kernel/fs/fat32.c:245-302 | In any directory, calling from 0 until the end lists the entries in disk order, each as often as one plus the number of labels between it and the entry before it |
| Fat32Listing.ListingOnceIff | src/kernel/fs/fat32.c:245-302 | Every entry is listed exactly once if and only if no label stands before an entry |
| Fat32Listing.ListedAt | src/kernel/fs/fat32.c:245-302 | The k-th listed entry is the one whose rank, less the labels directly before it, reaches k |
| Fat32Listing.NoneMissed | src/kernel/fs/fat32.c:245-302 | With or without labels, every entry is the answer to the call numbered by the short slots before it |
| Fat32Listing.LabelRepeatsNext | src/kernel/fs/fat32.c:245-283 | A volume label with nothing but long-name slots between it and an entry makes two consecutive calls return that entry |
| Fat32Names.RunIsTracked | src/kernel/fs/fat32.c:185-242 | After a descending run of slots the machine holds the concatenated text of the run, up to 254 characters |
| Fat32Names.TrackedIsRun | src/kernel/fs/fat32.c:185-242 | A machine that expects more slots, or holds a usable name, was brought there by a descending run with one checksum |
| Fat32Names.LongNameIff | src/kernel/fs/fat32.c:185-291 | A long name is used if and only if, deleted slots aside, N with flag 0x40 down to 1 stand directly before the short entry, all with its checksum and at most 254 characters |
| Fat32Names.NameIs | src/kernel/fs/fat32.c:244-291 | The name is the text of that run when there is one, and the 8.3 name for every other stream of slots |
| Fat32Names.ChecksumSeesOneByte | src/kernel/fs/fat32.c:83-89 | Short names that differ in exactly one byte have different checksums |
| Fat32Names.ChecksumByBits | src/kernel/fs/fat32.c:83-89 | The checksum starts at 0; for each byte its eight bits are rotated right by one and the byte is added modulo 256 |
| Fat32RoundTrip.WrittenRun | src/kernel/fs/fat32.c:185-242 | The slots written for a name form a descending run that carries the name and its terminator |
| Fat32RoundTrip.OnlyRun | src/kernel/fs/fat32.c:185-242 | At most one run is complete before a short entry |
| Fat32RoundTrip.NameComesBack | src/kernel/fs/fat32.c:185-291 | A name of 1 to 255 characters without NUL, cut into slots written last to first, is read back if it has at most 253 characters; a longer one gives the 8.3 name |
| Fat32RoundTrip.ReaddirRoundTrip | src/kernel/fs/fat32.c:156-302 | The same through readdir, whatever surrounds the entry and wherever sectors and clusters end |
| Fat32Entries.ShortNameComesBack | src/kernel/fs/fat32.c:254-266 | Base and extension, written padded with spaces, come back as the 8.3 name with a dot only before an extension |
| Fat32Entries.ClusterComesBack | src/kernel/fs/fat32.c:289 | The first cluster is put together from bytes 20-21 (high half) and 26-27 (low half) of the slot |
| Fat32Entries.LongEntryComesBack | src/kernel/fs/fat32.c:156-302 | An entry written with a long name comes back whole: the long name of up to 253 characters, else the 8.3 name; the written cluster; the directory bit 0x10 |
| Fat32Entries.ShortEntryComesBack | src/kernel/fs/fat32.c:244-294 | An entry written without a long name comes back with its 8.3 name, cluster and directory bit |
| Fat32Entries.SlotRead | src/kernel/fs/fat32.c:174-182 | A slot that begins with 0 ends the directory, and one that begins with 0xE5 is left out |
| Fat32Entries.LabelIsNoEntry | src/kernel/fs/fat32.c:245-283 | A written slot is an entry if and only if bit 0x08 of its attributes is clear, and counts as a short slot in any case |
| Fat32Read.ReadFailsIff | src/kernel/fs/fat32.c:135-147 | A read fails if and only if one of the clusters it has to touch cannot be read |
| Fat32Read.ReadIsSlice | src/kernel/fs/fat32.c:128-150 | A read that does not fail is the slice [offset, offset + count) of the concatenated clusters |
| Fat32Read.ReadMeaning | src/kernel/fs/fat32.c:128-150 | It has min(count, max(0, clusters * cluster size - offset)) bytes, each the byte of the file at its place |
| Fat32Read.ReadTwice | src/kernel/fs/fat32.c:128-150 | Reading a and then b bytes is reading a + b bytes: the same bytes, and an error in exactly the same cases |
| Fat32Read.SkipClusters | src/kernel/fs/fat32.c:135-138 | Skipping whole clusters ends inside the cluster of the offset, or at the end of the chain |
| Fat32Read.ReadCluster | src/kernel/fs/fat32.c:78-81 | The buffer holds the sectors of the cluster in order, or the read fails because one of them cannot be read |
| Fat32Read.CopyClusters | src/kernel/fs/fat32.c:140-147 | The loop delivers the clusters from the offset on, part by part, and stops at the count, the end of the chain or an error |
| Fat32Read.Read | src/kernel/fs/fat32.c:128-150 | The loop terminates on every chain that ends and returns the error or the count of that slice, placed at the start of the buffer; behind it the buffer is unchanged |
| VfsPath.SearchStep | src/kernel/fs/vfs.c:46-62 | Call number `index` of the directory reader either decides the search - found, not there, device error - or moves it past slots that do not match |
| VfsPath.Search | src/kernel/fs/vfs.c:46-62 | Calling the directory reader with increasing indices finds the first matching entry, although labels make it return entries twice; when the device fails before that, the search never ends |
| VfsPath.Lookup | src/kernel/fs/vfs.c:43-64 | The first entry of the directory whose name equals the component up to case; otherwise none, or stuck if and only if the directory cannot be read to its end |
| VfsPath.SplitAtSlash | src/kernel/fs/vfs.c:89-107 | Cutting a path at its first slash gives the first component and the components of the rest |
| VfsPath.CopyPath | src/kernel/fs/vfs.c:79-86 | The 256-byte copy holds the path without one leading slash, cut at 255 characters |
| VfsPath.WalkCopy | src/kernel/fs/vfs.c:88-108 | Cutting the copy in place, slash by slash, walks the same nodes as the recursive walk over the list of components |
| VfsPath.ResolvePath | src/kernel/fs/vfs.c:67-109 | For every path and every device the in-place resolver comes to what the recursive first-match walk of the directory tree comes to |
| VfsPathLaws.LeadingSlash | src/kernel/fs/vfs.c:79-86 | One leading slash is ignored |
| VfsPathLaws.TrailingSlash | src/kernel/fs/vfs.c:96-107 | One trailing slash is ignored |
| VfsPathLaws.LongPathCut | src/kernel/fs/vfs.c:79-81 | Only the first 255 bytes of a path count |
| VfsPathLaws.WalkComposes | src/kernel/fs/vfs.c:88-108 | Walking a concatenated path is descending through the front and walking the rest from there |
| VfsPathLaws.FileInTheMiddle | src/kernel/fs/vfs.c:43-46 | A file before the last component makes the walk fail without a look at the disk |
| VfsPathLaws.NamelessIff | src/kernel/fs/vfs.c:48-59 | The empty component is found if and only if the directory holds an entry with an empty name |
| VfsPathLaws.EmptyComponent | src/kernel/fs/vfs.c:88-108 | Two slashes in a row lead nowhere unless such an entry exists |
| VfsPathLaws.ResolveEnds | src/kernel/fs/vfs.c:43-109 | When all directories of the tree can be read, every resolution ends |
| VfsPathLaws.ResolveIgnoresCase | src/kernel/fs/vfs.c:43-109 | Paths that are equal but for capital and small letters resolve to the same node |
| Vfs.FileSystem.Open | src/kernel/fs/vfs.c:111-127 | The descriptor is the lowest free slot, holds the resolved node at offset 0, and every other slot is unchanged; ENOENT, EACCES and EMFILE exactly in their cases; it hangs exactly when the lookup does |
| Vfs.FileSystem.Read | src/kernel/fs/vfs.c:129-136 | Reads at the offset of the descriptor, moves it by the bytes read, and changes no other descriptor |
| Vfs.FileSystem.Lseek | src/kernel/fs/vfs.c:165-177 | Sets or moves the offset, never below zero; every refused call changes nothing |
| Vfs.FileSystem.Close | src/kernel/fs/vfs.c:155-163 | Empties exactly the given descriptor, or reports EBADF |
| Vfs.ReadThroughTwice | src/kernel/fs/vfs.c:129-136 | Two reads through a descriptor both succeed if and only if one read of the sum does, and then deliver its bytes and leave its offset |
| Vfs.ReadEndsInside | src/kernel/fs/vfs.c:129-136 | A read that returns something ends inside the file, so the offset stays a non-negative 32-bit number |
| VfsVolume.DirectoryComesBack | src/kernel/fs/fat32.c:156-178 | The slots met in a directory of a written volume are the 32-byte slots of its written contents, in order |
| VfsVolume.NameFound | src/kernel/fs/vfs.c:43-64 | A written entry that is the first one with the name, case aside, is found as a node with its stored name, its written cluster and its directory bit |
| VfsVolume.RootResolves | src/kernel/fs/vfs.c:35-75 | The path / and the empty path name the directory at cluster 2 |
| VfsVolume.PathFound | src/kernel/fs/vfs.c:67-109 | A path of up to 255 bytes through directories written on the volume, from cluster 2 on, names the node written at its end |
| VfsVolume.FileReadBack | src/kernel/fs/vfs.c:67-136 | Every read from the node that such a path names returns the bytes written to the file: as many as are asked for and exist, each from its place |
| Paging.PageTables.InitStage1 | src/kernel/arch/i386/paging.c:278-451 | On zeroed tables: page p is newly marked, and mapped at its own and at its high address, exactly when it begins before the end of reserved memory plus 4096 bytes, except for the 4 MiB at 144 MiB, the first 4 MiB and page 5 of the higher half, and the window; the window shows the memory from 0x02001000 bytes below the top of RAM on; the last 512 MiB but one page are mapped to themselves; nothing else is mapped, and the mapper may be used |
| Paging.BootWalk | src/kernel/arch/i386/paging.c:300-440 | Tables and directory laid out as the loops leave them translate every page as the piecewise boot map |
| Paging.WholePages | src/kernel/arch/i386/paging.c:297-318 | The page count taken from the end of reserved memory covers exactly the pages that begin before that end plus 4096 bytes |
| Paging.BootInBytes | src/kernel/arch/i386/paging.c:297-440 | The boot map says so for every page of the address space, in bytes of reserved memory and of RAM |
| Paging.BootSharing | src/kernel/arch/i386/paging.c:313-338 | Two directory entries share a table if and only if they are the low and the high alias of the same low memory, and the pool index stays below 1280 |
| Paging.LowIdentityIff | src/kernel/arch/i386/paging.c:300-316 | All reserved memory is identity mapped if and only if it takes at most 0x9001 pages |
| Paging.HigherHalfIff | src/kernel/arch/i386/paging.c:300-316 | All of it except frame 5 is mapped at 0xC0000000 if and only if it takes at most 256 MiB, or 288 MiB when the frame buffer window begins at 256 MiB |
| Paging.PageTables.LastReserved | src/kernel/arch/i386/paging.c:210-231 | The end of reserved memory is the largest of the kernel end and the module ends |
| Paging.PageTables.FillTables | src/kernel/arch/i386/paging.c:300-305 | A region loop fills consecutive tables of the pool with consecutive frames and leaves all other words |
| Paging.PageTables.FillLowDirectory | src/kernel/arch/i386/paging.c:310-318 | The entries of low memory and of its alias 3 GiB above point to the same tables, in order |
| Paging.PageTables.FillDirectory | src/kernel/arch/i386/paging.c:334-339 | The entries of a region point to the next tables of the pool, in order |
| Paging.PageTables.MarkPages | src/kernel/arch/i386/paging.c:397-399 | Marks exactly the frames below the count |
| Paging.PageTables.FillKernelStart | src/kernel/arch/i386/paging.c:422-432 | The table for the start of the higher half maps the first 4 MiB, with page 0xC0005 onto itself |
| Paging.PageTables.GetFreePagetable | src/kernel/arch/i386/paging.c:82-102 | Takes the next table of the pool and empties it, or reports that there is none and changes nothing |
| Paging.PageTables.GuardFiresIff | src/kernel/arch/i386/paging.c:130-152 | The "already mapped" guard fires if and only if the frame is marked and its number is a multiple of 32 |
| Paging.PageTables.SetMapped | src/kernel/arch/i386/paging.c:139-146 | Marks exactly the given frame |
| Paging.PageTables.MapPage | src/kernel/arch/i386/paging.c:148-192 | The result code is decided by the guard and the pool; failures change neither directory, tables, bitmap nor pool; success writes one entry, in a fresh empty table if need be |
| Paging.PageTables.MapPhysToVirt | src/kernel/arch/i386/paging.c:194-203 | After success the virtual page walks to the physical address with the flags and pages that do not use the same table entry walk as before - all other pages, when a new table was taken; misaligned addresses and failures change nothing |
| Paging.MappedWalk | src/kernel/arch/i386/paging.c:153-191 | A written entry is what the walk of its page finds, and no page with another table entry is affected |
| Paging.FreshUnshared | src/kernel/arch/i386/paging.c:156-170 | A newly taken table belongs to one directory entry alone |
| Paging.MappedExactly | src/kernel/arch/i386/paging.c:190 | The entry is exactly the frame and the flags if and only if the flags are below 4096 and contain present |
| Paging.BootOwned | src/kernel/arch/i386/paging.c:300-440 | After boot every present directory entry points to a table that was taken from the pool |
| Paging.MarkedAfter | src/kernel/arch/i386/paging.c:139-146 | Setting one bit of the bitmap marks one page and no other |
| Bits.BitOfOr | src/kernel/arch/i386/paging.c:190 | A bit of an or is set if and only if it is set in one of the operands |
| Bits.OrIsSum | src/kernel/arch/i386/paging.c:190 | Or with a value below the lowest set bit of a page address is addition |
| SnprintfRun.PutChar | src/libc/string/snprintf.c:76-82 | The buffer goes on holding the front of the output, NUL included, and nothing at or past the size is written |
| SnprintfRun.PutString | src/libc/string/snprintf.c:85-114 | The field of %s: text cut at the precision, padded to the width |
| SnprintfRun.PutField | src/libc/string/snprintf.c:148-173 | Padding on the left or right, precision zeros and text are appended in the order that the flags decide |
| SnprintfRun.DigitsBackwards | src/libc/string/snprintf.c:134-137 | The digits written from the back of the 32-byte buffer are the digits of the number |
| SnprintfRun.BuildBody | src/libc/string/snprintf.c:118-146 | The back of the buffer holds the sign or 0x and the digits |
| SnprintfRun.MagnitudeFits | src/libc/string/snprintf.c:118-137 | No 64-bit magnitude needs more than 20 digits, so the buffer is never overrun |
| SnprintfRun.PutNumber | src/libc/string/snprintf.c:117-173 | The field of a number: sign or 0x, digits, precision zeros and padding |
| SnprintfRun.ReadFormat | src/libc/string/snprintf.c:14-73 | The loops over flags, width, precision and length compute the directive of the grammar, which SnprintfFormats.ConversionRead ties to conversions as they are written |
| SnprintfFormats.ConversionRead | src/libc/string/snprintf.c:14-73 | Every conversion that is written down - any flags, width and precision in digits or *, length, specifier - is read back: - is left, 0 is zero padding, digits are their decimal value modulo 2^32, * takes the next argument, and reading ends behind the specifier |
| SnprintfFormats.AmountRead | src/libc/string/snprintf.c:29-57 | A width or precision is the value of its digits or the next argument |
| SnprintfFormats.LengthRead | src/libc/string/snprintf.c:59-67 | No l, one l and two are told apart |
| SnprintfRun.PutDirective | src/libc/string/snprintf.c:192-244 | One conversion appends its text to the output and takes its arguments |
| SnprintfRun.Vsnprintf | src/libc/string/snprintf.c:176-255 | For every format and every argument list: with size 0 the result is 0 and nothing changes; with any other size the result is the length of the unbounded output, the buffer holds its first min(length, size - 1) characters and a NUL, and nothing at or past the size changes |
| SnprintfLaws.RenderShift | src/libc/string/snprintf.c:184-245 | The output from a position on is the output of the rest of the format |
| SnprintfLaws.CharactersCopied | src/libc/string/snprintf.c:184-188 | Characters other than % and NUL are copied |
| SnprintfLaws.FormatPrinted | src/libc/string/snprintf.c:184-245 | Text, a written conversion and a rest print the text, what the conversion prints for its arguments, and the rest with the arguments that are left |
| SnprintfLaws.FieldHolds | src/libc/string/snprintf.c:94-113 | A field is as long as the width or the text: on the left before spaces, or on the right behind spaces or zeros |
| SnprintfLaws.StringPrinted | src/libc/string/snprintf.c:193-198 | %s prints in its field the string of its argument, or (null), up to the precision, and takes one argument |
| SnprintfLaws.CharacterPrinted | src/libc/string/snprintf.c:199-203 | %c prints the low byte of its argument without a field; an unknown specifier prints itself and takes no argument |
| SnprintfLaws.NumberPrinted | src/libc/string/snprintf.c:117-239 | %d, %u, %x, %X and %p print in their field the sign or 0x and the digits of the C value of their argument, behind the zeros that the precision asks for, and take two words exactly behind ll |
| SnprintfLaws.NoLeadingZero | src/libc/string/snprintf.c:134-137 | The digits of a positive number do not begin with 0 |
| SnprintfLaws.DigitsInCase | src/libc/string/snprintf.c:122 | Digits above nine are capital letters for %X and small ones otherwise |
| SnprintfLaws.EightHexDigits | src/libc/string/snprintf.c:176-255 | %08x prints every word as exactly eight hexadecimal digits whose value is the word |
| Scan.FindStart | src/libc/stdio/scanf.c:41-50 | White space, sign and 0x prefix are skipped, and the base is decided |
| Scan.TakeDigits | src/libc/stdio/scanf.c:51-59 | The digit loop stops at the first character that is no digit of the base and holds the value of those before it |
| Scan.TakeDigitsWrapped | src/libc/stdio/scanf.c:74-82 | The same modulo 2^32 |
| Scan.Strtol | src/libc/stdio/scanf.c:40-62 | Value and end pointer are those of the number that the text starts with, for every magnitude that a long holds |
| Scan.Strtoul | src/libc/stdio/scanf.c:64-85 | The same modulo 2^32, for every text |
| ScanNumerals.NumeralScanned | src/libc/stdio/scanf.c:40-85 | White space, an optional sign, an optional 0x and digits are read as the value of the digits with that sign, up to the first character that is no digit; base 0 means 16 behind 0x, 8 for digits that begin with 0 and 10 otherwise |
| ScanNumerals.Alphabet | src/libc/stdio/scanf.c:51-55 | The sixteen digits stand for their places in 0123456789abcdef, capital or small |
| ScanRoundTrip.DigitsRead | src/libc/stdio/scanf.c:51-59 | Reading the digits of a number in its base gives the number |
| ScanRoundTrip.NumberLayout | src/libc/string/snprintf.c:148-173 | A printed number is spaces, zeros, body and spaces, with the numbers of each decided by the flags, width and precision |
| ScanRoundTrip.NonNegativeReadsBack | src/libc/string/snprintf.c:117-173 | A non-negative int printed with %d under any flags, width and precision is read back by strtol, the end pointer just past its last digit |
| ScanRoundTrip.NegativeReadsBackIff | src/libc/string/snprintf.c:148-173 | The scanned sign, magnitude and end of a printed negative int are its own if and only if no zero is printed in front of its sign; strtol itself holds all of them but the minimum |
| ScanRoundTrip.HexReadsBack | src/libc/string/snprintf.c:117-173 | %x and %X under any flags, width and precision are undone by strtoul with base 16 |
| ScanRoundTrip.PointerReadsBackIff | src/libc/string/snprintf.c:117-173 | %p is undone if and only if no zero is printed in front of its 0x |
| ScanRoundTrip.StarDReadsBack | src/libc/string/snprintf.c:176-255 | Whatever width is passed to "%*d", sign and magnitude of the int are scanned back and the scan stops at the end of the text |
| Stdio.ChunksConserve | src/libc/stdio/buffer.c:453-481 | Sent and pending bytes after the chunk writer are those before it and the data, in order; less than a buffer stays pending |
| Stdio.BytesConserve | src/libc/stdio/fprintf.c:7-34 | The same for the byte-by-byte writer |
| Stdio.ChunksHoldNoNewline | src/libc/stdio/buffer.c:455-480 | A line-buffered stream holds no newline between calls |
| Stdio.BytesHoldNoNewline | src/libc/stdio/fprintf.c:23-31 | Neither does stdout under the byte-by-byte writer |
| Stdio.ChunksSendWholeBuffers | src/libc/stdio/buffer.c:466-480 | Fully buffered, only whole buffers are sent: the pending count is the total count modulo the buffer size |
| Stdio.BytesSendWholeBuffers | src/libc/stdio/fprintf.c:7-34 | So does the byte-by-byte writer, which makes room only when a byte comes: the pending count is the total less one modulo the buffer size, plus one |
| Stdio.ChunksStay | src/libc/stdio/buffer.c:466-480 | Data that leaves room in the buffer stays pending, line-buffered when it holds no newline |
| Stdio.ChunksWithLine | src/libc/stdio/buffer.c:466-480 | Line-buffered data that fits and holds a newline is sent whole, with what was pending and with what follows its last newline |
| Stdio.BytesStay | src/libc/stdio/fprintf.c:7-34 | The byte-by-byte writer keeps data that fits, line-buffered when it holds no newline |
| Stdio.BytesAfterLine | src/libc/stdio/fprintf.c:7-34 | Line-buffered, it sends everything up to the last newline and keeps what follows |
| Stdio.RunConserves | src/libc/stdio/buffer.c:432-504 | Over every run of writes and flushes, sent then pending bytes are everything written, in order |
| Stdio.WritersAgree | src/libc/stdio/fprintf.c:7-34 | With any buffer sizes and modes both writers have sent the same bytes once flushed |
| Stdio.RunAccounted | src/libc/stdio/buffer.c:432-505 | On any device and over every run of either writer, every byte taken in was sent, is pending or was lost by a short write, and without a failure what was taken in is everything written |
| Stdio.NothingLostIff | src/libc/stdio/buffer.c:486-505 | On any device and over every run, sent and pending bytes are all bytes taken in, in order, if and only if every hand-over of the buffer failed or was accepted whole |
| Stdio.DeliveredIff | src/libc/stdio/buffer.c:486-505 | A run without a failure ends, once flushed, with the device holding everything written if and only if no hand-over was short |
| Stdio.FlushKeepsIff | src/libc/stdio/buffer.c:495-502 | One flush keeps the bytes of a stream if and only if the device fails or accepts at least as many as are pending |
| Stdio.ShortWriteLoses | src/libc/stdio/buffer.c:495-502 | Ten bytes flushed to a device that takes three: three arrive, none are pending, and no error is reported |
| Stdio.AcceptedChunks | src/libc/stdio/buffer.c:452-483 | On a device that accepts everything the chunk writer never fails, loses nothing and sends what the writer without a device sends |
| Stdio.AcceptedBytes | src/libc/stdio/fprintf.c:14-33 | So does the byte-by-byte writer |
| Stdio.Stream.WriteBuffer | src/libc/stdio/buffer.c:432-484 | On any device: a buffered stream is left in the state of the chunk writer, with its result, and an unbuffered one in the state after one call with the data; on a device that accepts everything nothing is lost |
| Stdio.Stream.WriteInChunks | src/libc/stdio/buffer.c:452-483 | The buffered loop terminates for every buffer size, also when it starts with a full buffer, and equals the chunk writer on any device |
| Stdio.Stream.WriteThrough | src/libc/stdio/buffer.c:442-450 | An unbuffered stream hands the data to the device in one call and reports how much was accepted |
| Stdio.Stream.HasNewline | src/libc/stdio/buffer.c:455-464 | The scan finds a newline if and only if there is one |
| Stdio.Stream.Fflush | src/libc/stdio/buffer.c:486-505 | On any device: closed, unbuffered and failed streams are left alone, and otherwise the state is the one after one offer of the buffer; the bytes of the stream stay if and only if the device fails or accepts all that is offered |
| Stdio.Stream.Drain | src/libc/stdio/buffer.c:495-502 | One system call with the whole buffer, which is forgotten unless the call fails |
| Stdio.Stream.WriteBufferBytewise | src/libc/stdio/fprintf.c:7-34 | On any device: the in-place byte loop leaves the state of the byte-by-byte writer, with its result |
| Stdio.Stream.NothingLostIff | src/libc/stdio/buffer.c:486-505 | Sent and pending bytes of the stream are all bytes it took in if and only if no hand-over of the buffer was short |
| Vga.Console.PutChar | src/kernel/drivers/vga.c:29-54 | Printing a character in place, scrolling included, keeps the screen and cursor equal to the last 25 rows of an unbounded terminal that never scrolls |
| Vga.Console.WriteString | src/kernel/drivers/vga.c:57-61 | The same for every string, with any characters and any positive tab size |
| Vga.Console.Scroll | src/kernel/drivers/vga.c:64-85 | Rows move up by the step, blank rows of the current attribute follow, and the cursor moves along |
| Vga.Console.Clear | src/kernel/drivers/vga.c:136-146 | A cleared screen shows the fresh terminal |
| Vga.Console.CopyRow | src/kernel/drivers/vga.c:70-75 | A row moves up by the step and every other row stays |
| Vga.Console.SetTextColor | src/kernel/drivers/vga.c:126-128 | The high four bits of the attribute are the background and the low four the foreground |
| Vga.Console.Spaces | src/kernel/drivers/vga.c:36-41 | The tab loop blanks the cells up to the tab stop and no others |
| Vga.TextLands | src/kernel/drivers/vga.c:29-61 | A text without newline and tab fills consecutive cells in the current attribute, running on over row ends |
| Vga.TabLands | src/kernel/drivers/vga.c:35-51 | A tab blanks the cells up to the next column that is a multiple of the tab size, and goes to the start of the next row exactly when the row has no such column left |
| Vbe.Screen.UpdatePrerendered | src/kernel/drivers/vbe.c:982-998 | Every cached row of every glyph holds the bytes of its pixels in the current colours |
| Vbe.Screen.SetFgColor | src/kernel/drivers/vbe.c:1000-1005 | After the setter the cache agrees with the new colours |
| Vbe.Screen.SetBgColor | src/kernel/drivers/vbe.c:1007-1012 | The same for the background |
| Vbe.Screen.ResetTextColor | src/kernel/drivers/vbe.c:1014-1018 | White on black, and the cache agrees |
| Vbe.Screen.DrawPixel | src/kernel/drivers/vbe.c:751-789 | At 24 bits per pixel: changes exactly the pixel, and nothing outside the screen |
| Vbe.Screen.DrawChar | src/kernel/drivers/vbe.c:859-872 | Copying cached rows leaves the visible frame buffer as drawing the glyph bit by bit with the pixel routine does |
| Vbe.RowByPixels | src/kernel/drivers/vbe.c:859-872 | Drawing a row of a glyph pixel by pixel is one copy of its bytes |
| Vbe.GlyphByPixels | src/kernel/drivers/vbe.c:859-872 | Drawing a glyph pixel by pixel changes exactly its rectangle, to the bytes of the glyph |
| Vbe.Screen.ScrollUp | src/kernel/drivers/vbe.c:877-889 | The overlapping move and the clearing loop drop the top pixel rows of one text line and append background rows |
| Vbe.Screen.PutChar | src/kernel/drivers/vbe.c:1025-1058 | Printing keeps the frame buffer equal to the last pixel rows of an unbounded canvas that never scrolls, and the cursor in the grid |
| Vbe.CellOnScreen | src/kernel/drivers/vbe.c:1043-1046 | The cell under a cursor in the grid lies fully on the screen |
| Vbe.DrawnInCell | src/kernel/drivers/vbe.c:859-872 | Drawing a character changes only the cell under the cursor, which then shows its glyph |
| Vbe.PutKeeps | src/kernel/drivers/vbe.c:1025-1058 | Printing never changes a visible byte outside the cell under the cursor |
| Vbe.TextShows | src/kernel/drivers/vbe.c:1025-1058 | A text of any length, running on over lines and scrolling, is shown whole: every character with a glyph in its own cell |
| Vbe.RowsSpliced | src/kernel/drivers/vbe.c:780-786 | A copy into one pixel row of the linear frame buffer changes that row alone, whatever the pitch |
| Vbe.DotsAreBits | src/kernel/drivers/vbe.c:982-998 | The dots of a glyph row, read from the left as a binary number, are the high bits of its byte: the leftmost dot is the highest bit |
| Vbe.GlyphPixel | src/kernel/drivers/vbe.c:982-998 | Each pixel of a prerendered row is the three bytes blue, green, red of the foreground where the glyph has a dot and of the background elsewhere |
| Vbe.FreshRows | src/kernel/drivers/vbe.c:877-889 | Pixel rows that scrolling appends hold blue, green and red of the background in every pixel |
| Bmp.ReadBmp | src/kernel/utils/bmp.c:10-93 | The status is the first failing check in the order of the code; on success the output holds the rows of the picture one after the other, y * width + x, and nothing behind them changes |
| Bmp.VerdictOnHeaders | src/kernel/utils/bmp.c:10-59 | For all header bytes: accepted if and only if they begin with BM, the info header has at least 40 bytes, the width is positive, the height not 0, the depth 24 or 32, the compression 0 and offset plus image size, modulo 2^32, inside the buffer; each rejection exactly for the first of these that fails |
| Bmp.HeaderComesBack | src/kernel/utils/bmp.c:19-39 | Written header fields, little-endian and signed where the code says so, are read back from their places |
| Bmp.DecodeRow | src/kernel/utils/bmp.c:75-89 | One row, with the 32-bit index and offset arithmetic of the code, which does not wrap for any readable picture that fits its output |
| Bmp.RasterAt | src/kernel/utils/bmp.c:80-81 | Pixel (x, y) is at y * width + x |
| Bmp.PictureComesBack | src/kernel/utils/bmp.c:61-91 | For every picture and 24 or 32 bits per pixel, the bottom-up and the top-down file with padded rows are accepted, decode to the picture, and no byte outside the file is read |
| Bmp.ReadsInsideIff | src/kernel/utils/bmp.c:71-91 | With all products modulo 2^32 as in the code, the bytes read lie in the buffer if the last stored row ends there, and, unless the pixel data reaches 4 GiB, only then |
| Bmp.CoveredReadsInside | src/kernel/utils/bmp.c:56-59 | They do for every accepted file whose image size covers its padded rows and, added to the offset, does not wrap |
| Bmp.ZeroImageSize | src/kernel/utils/bmp.c:56-59 | An image size of 0 is accepted and makes the decoder read behind the file |

## Left out

- Hardware and foreign calls: port I/O, disk transfers, PCI, timers, interrupts, control registers and the BIOS;
  a disk is a map of sectors, and turning paging on is nothing.
- Scheduler, processes and virtual memory manager, whose live code is commented out or stack assembly.
- Floating-point output, UTF-8 and UTF-16 helpers, strncmp, ANSI colours, mouse and cursor drawing.
- Kmem.Heap.Kfree: takes NULL, pointers outside the heap, and pointers whose header place says free or begins a
  block; what a free through any other word of the heap does depends on payload contents.
- Kmem.Heap.Kmalloc: does not model the endless loop after an exhausted search; it returns `Exhausted` there.
- KmemRuns.PayloadSafe: owners store only into their own live payloads, as C asks of them.
- Fat32Readdir.Readdir: chains end; on a cyclic table the code loops forever. The 512-byte boundary of sectors and
  the 32-byte size of slots are types.
- Fat32Read.Read: the cluster size is at most 4096 bytes, the size of the buffer on the stack of the code; file sizes
  are not in the nodes of the code, so reads end with the chain.
- Volume mounting and the boot sector, and FAT32 write, unlink and stat, which return ENOSYS.
- VfsPath.Lookup: directory chains end; when the very first call fails, the code compares the name with an
  uninitialised entry, which the model takes not to match.
- VfsPath.ResolvePath: nodes are values; allocation of nodes, nodes that are never freed, and the shared root are
  not modelled.
- Vfs.FileSystem.Open: no memory is allocated, so there is no ENOMEM; opendir, closedir and the mount table are left
  out, and one FAT32 volume is mounted at the root.
- Vfs.FileSystem.Read: files are shorter than 2 GiB, so the signed offset does not overflow.
- Vfs.FileSystem.Lseek: a relative move that would overflow the signed offset is undefined in C and excluded.
- Vfs.FileSystem.Close: leaves freeing of the node out, and with it the double use of the root.
- Paging.PageTables.InitStage1: the multiboot tables are replaced by the kernel end, the module ends and the top of
  RAM; reserved memory ends below 1 GiB, beyond which the directory index of the higher half would leave the
  directory; frames are marked after the region loops instead of between them, which none of the loops observes.
- Paging.PageTables.MapPage: pages of the 4 GiB address space only; page numbers beyond it, which no caller of
  map_phys_to_virt can form, are excluded.
- SnprintfRun.Vsnprintf: the output is shorter than 2^32, where the C counter would wrap; %f is left out;
  arguments are the words of an i386 argument list, and every pointer passed for %s is NULL or names a C string.
- Scan.Strtol: magnitudes above LONG_MAX overflow a signed variable, which is undefined in C, and are excluded.
- kscanf, scanf and vfscanf, which read from the keyboard or are stubs.
- Stdio.Stream.WriteBuffer: the write system call is an arbitrary oracle for how much is accepted at each call.
- Stdio.WritersAgree: devices that accept all they are given; on others the two writers lose different bytes.
- The hardware cursor, vga_gotoxy and the tab size 0, which divides by zero.
- Vbe.Screen.PutChar: 24 bits per pixel; fonts of at most 8x16, as large as a cache entry; loading a font and its
  Unicode table are replaced by a table that maps each character to an existing glyph or to none.
- Vbe.Screen.DrawChar: the glyph lies on the screen, as it always does under vbe_putchar; at its edge the pixel
  routine clips and the copy does not.
- Bmp.ReadBmp: the pixel bytes that the header asks for are readable and the output is large enough and below 4 GiB,
  as the header file asks of the caller; palettes and compressed files are rejected by the code.
