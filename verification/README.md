# A verified model of kehinde-kernel

kehinde-kernel is a bare-metal AArch64 kernel for the Raspberry Pi 3 and 5. This project models the two stacks it is
built from, joined by `kmalloc`, and proves what they keep over whole runs.

**Memory.** A bitmap frame allocator lives in RAM; a three-level tree of 512-entry tables is built from its frames; a
bump heap at 4 GiB backs its pages lazily with more of them. The model keeps all of RAM in one array of 64-bit words, so
the bitmap, the tables and every descriptor are words in the same memory, and `translate` walks those words. Beside them
stand a flat view of the tree (which page has which descriptor), a role for every frame that was handed out (root, second
level, third level, data), and a cache that the hardware may refill from the tables after every single store.

**Files.** Inodes form a linked list, blocks form chains of 4088 payload bytes, directories pack 15 entries of 264 bytes
into a block, and the shell keeps a current inode number and a path string on top. Records and blocks are held in maps
keyed by heap address, payloads as bytes; the abstract store is a sequence of `File(bytes) | Dir(entries)` nodes.

| file | models |
|---|---|
| `Bits.dfy` | 64-bit words as numbers: and, or, complement, trailing zeros, proved digit by digit |
| `Pmm.dfy` | the frame allocator and its geometry |
| `PageTable.dfy` | descriptors, index arithmetic, the tree in memory and the flat view it stands for |
| `Mmu.dfy` | `map`, `unmap`, `translate`, the frame accounts and the translation cache |
| `MmuInit.dfy` | `mmu_init` of both boards |
| `HeapAlloc.dfy` | `kmalloc` as a machine on values and as the code over the page tables |
| `CStrings.dfy` | bytes and null-terminated strings |
| `Store.dfy` | the filesystem as a value: operations, path resolution, what every run keeps |
| `Disk.dfy` | the layout of entries, chains and the inode list, and the effect of each write on the store it stands for |
| `Filesystem.dfy` | the `fs_*` functions over that layout |
| `ShellSpec.dfy` | tokens, commands and the current directory on values |
| `Shell.dfy` | the shell's buffers, in-place splitting and built-in commands |
| `Kernel.dfy` | `kernel_main`: boot, the whole run over page tables, and the frames and heap bytes that suffice |

`panic` and the out-of-memory loop of `mmu_init` are a `halted` result: when it happens is
stated, the state after it is not. Memory that `kmalloc` hands out for the first time is taken to be zero; this is the
one assumption, `Disk.UntouchedBlock`. The code itself relies on it: it never writes `next` or `data` of a new block
(src/filesystem/filesystem.cpp:379-389).

Where the code and its comments disagree the code is modelled:

- include/heap_alloc.h:47-48 promises that every address below `bump_ptr` is backed. With one or two frames left `map`
  gives up in silence and the page stays without a translation; `HeapAlloc.KmallocExact` says exactly when, and
  `Kernel.FirstKmalloc` on which boots.
- include/filesystem.h:150 promises 0 for reads past the end. An offset whose block index exceeds the blocks that the
  content needs gives -1; `Filesystem.FileSystem.FsRead` says exactly when; `Kernel.ReadPastEnd` is a case.
- include/mmu.h:74-75 says that `unmap` reclaims no table. The code releases an emptied third-level table and leaves it
  linked, so ownership is lost; `Mmu.ReleasesNothing` says exactly when that does not happen, and
  `Kernel.UnmapAfterBoot` reaches a case where it does.
- include/pmm.h:77-80 says that `free_frame` does not validate its argument. The code ignores bad addresses.
- include/filesystem.h:39-40 allows names of 255 characters. The code accepts at most 254.
- include/filesystem.h:127-128 says that `fs_create` fails when allocation fails. The code panics.

## Model

| member | source | states |
|---|---|---|
| `Bits.Ctz` | src/pmm/pmm.cpp:75-76 | counting trailing zeros finds a set bit with every lower bit clear |
| `Bits.ClearLow` | include/pmm.h:59-61 | masking with the complement of `2^k - 1` rounds down to a multiple of `2^k` |
| `Pmm.RoundUpIsLeastMultiple` | include/pmm.h:50-61 | `round_up` is the least multiple of the alignment that is not below the value, when the sum does not wrap |
| `Pmm.BootGeometryIsGood` | src/pmm/pmm.cpp:30-53 | for every kernel end inside memory the bitmap starts at the first page past the image, has a bit for every tracked frame and does not overlap the frames, which start at the next page past it and fill memory up to 0x3F800000; no frame has address 0 |
| `Pmm.SetUsedAddsFrame` | src/pmm/pmm.cpp:81 | setting a bit adds exactly that frame to the used set and keeps the padding bits |
| `Pmm.SetFreeRemovesFrame` | src/pmm/pmm.cpp:116-118 | clearing a bit removes exactly that frame from the used set and keeps the padding bits |
| `Pmm.FreeReleasesOne` | src/pmm/pmm.cpp:100-119 | a release removes exactly one used frame; for any other address not a word changes |
| `Pmm.FreeUndoesAlloc` | src/pmm/pmm.cpp:68-119 | freeing a frame just taken restores the bitmap word for word |
| `Pmm.FirstFree` | src/pmm/pmm.cpp:73-83 | the lowest free frame at or above a number, or that there is none |
| `Pmm.AllocTakesLowest` | src/pmm/pmm.cpp:68-98 | allocation returns the address of the lowest free frame and 0 exactly when every frame is used; the used set gains that one frame |
| `Pmm.AllocOnWords` | src/pmm/pmm.cpp:68-98 | on the words of memory: every tracked page address below the result has its bit set, the result's bit was clear, and it is the only bit of any word that changes; frame 0 is bit 0 of the first bitmap word |
| `Pmm.FreeOnWords` | src/pmm/pmm.cpp:100-119 | on the words of memory: the one bit of a tracked address is clear afterwards and no other bit changes |
| `Pmm.RunNeverHandsOutTwice` | src/pmm/pmm.cpp:68-119 | over every sequence of allocations and frees, the frames handed out and not given back are distinct, in range and exactly the used ones |
| `Pmm.PaddingOnly` | src/pmm/pmm.cpp:55-64 | after the bitmap is cleared and the last word masked, only bits past the last frame are set |
| `Pmm.Allocator.PmmInit` | src/pmm/pmm.cpp:30-66 | boot leaves a valid bitmap with the geometry above and no used frame, and writes nothing outside the bitmap |
| `Pmm.Allocator.SetGeometry` | src/pmm/pmm.cpp:33-53 | the address arithmetic of the code gives that geometry |
| `Pmm.Allocator.AllocFrame` | src/pmm/pmm.cpp:68-98 | the word scan with `ctz` computes the allocation step: the lowest free frame, no other bit changed |
| `Pmm.Allocator.FreeFrame` | src/pmm/pmm.cpp:100-119 | a tracked used frame is released; an address out of range, unaligned or already free changes nothing |
| `PageTable.AddressField` | src/mmu/mmu.cpp:95 | the mask keeps exactly bits 12 to 47: a page multiple below 2^48, equal to the value when it is one |
| `PageTable.TableDescriptor` | src/mmu/mmu.cpp:105-106 | a child address with the two low bits set is valid, ends in `0b11` and its address field is the child |
| `PageTable.PageDescriptorNames` | src/mmu/mmu.cpp:76-79 | physical address, flags and the two low bits, or-ed: the address field is `phys`, the two low bits are set, and every other bit is that of the flags, for any flags outside the address mask |
| `PageTable.IndicesOfPage` | src/mmu/mmu.cpp:62-64 | the three 9-bit indices are the base-512 digits of the page number |
| `PageTable.WalkArithmetic` | src/mmu/mmu.cpp:110-129 | the walk, in any memory, restated with division and remainder on its words: nine bits of the address a level, tables of 512 words, bits 12 to 47 of each descriptor, the low twelve bits added, `~0` unless a word ends in `0b11` |
| `PageTable.WalkStaysInTree` | src/mmu/mmu.cpp:110-124 | every table pointer the walker follows names a linked table of the right level inside memory, and a step succeeds exactly when the view has that table |
| `PageTable.WalkIsLookup` | src/mmu/mmu.cpp:110-129 | on a well-formed tree the walk equals the flat map on every 64-bit address |
| `PageTable.TreeFrame` | src/mmu/mmu.cpp:52-108 | memory outside the tables is irrelevant to the tree |
| `PageTable.LinkMid` | src/mmu/mmu.cpp:101-106 | linking a zeroed, unowned frame below the root keeps a well-formed tree with one more second-level table and the same pages |
| `PageTable.LinkLeaf` | src/mmu/mmu.cpp:101-106 | the same one level down |
| `PageTable.StorePage` | src/mmu/mmu.cpp:79 | storing a descriptor in a third-level slot changes the flat map at that one page |
| `Mmu.RefillFromTree` | src/mmu/mmu.cpp:52-89 | whatever the hardware caches while memory holds a tree is an entry of its flat map: nothing is invented |
| `Mmu.LinkedOnce` | src/mmu/mmu.cpp:91-108 | on the words of memory: every non-zero slot of a first-level or second-level table ends in `0b11` and names a used frame, and two such slots that name the same frame are the same slot |
| `Mmu.PageCost` | src/mmu/mmu.cpp:66-74 | one more page costs exactly the tables missing for it, given those the earlier pages made |
| `Mmu.CostAtFailure` | src/mmu/mmu.cpp:66-74 | a page that cannot be served shows that the whole range costs more than there was |
| `Mmu.LeafTablesBound` | src/mmu/mmu.cpp:58-80 | `n` contiguous pages need at most `(n + 1022) / 512` third-level tables, and some ranges need that many |
| `Mmu.MapPagesAt` | src/mmu/mmu.cpp:58-80 | the flat map after `n` pages, page by page |
| `Mmu.MapWalks` | src/mmu/mmu.cpp:52-129 | after `n` pages `translate` gives `phys + (v - va)` inside the range and its old result everywhere else, for every 64-bit address |
| `Mmu.MapWords` | src/mmu/mmu.cpp:58-80 | on words: the third-level word of each of the `n` pages has its physical address and every bit of `flags`, the two low bits set; the word that any other address leads to is as before |
| `Mmu.MapCoherent` | src/mmu/mmu.cpp:82-86 | once every page of the range is invalidated, a cache that agreed with the old map agrees with the new one |
| `Mmu.PageTables.SpareNatural` | src/pmm/pmm.cpp:68-98 | every frame handed out has a role, so tracked frames minus roles is never negative |
| `Mmu.PageTables.Store` | src/mmu/mmu.cpp:79 | one store writes one slot; the hardware may then cache any translation the tables give |
| `Mmu.PageTables.Translate` | src/mmu/mmu.cpp:110-129 | the code's walk is the walk on words and equals the flat map |
| `Mmu.PageTables.ZeroFrame` | src/mmu/mmu.cpp:101-103 | none of the 512 stores to a fresh frame changes a translation or lets one be invented |
| `Mmu.PageTables.TakeFrame` | src/mmu/mmu.cpp:98-99 | a frame in no role of the tree, or 0 exactly when none is spare |
| `Mmu.DataStoreIsolated` | src/mmu/mmu.cpp:95-106 | a store into any data frame changes neither the bitmap, nor the tables, nor any translation |
| `Mmu.PageTables.GetOrAllocTable` | src/mmu/mmu.cpp:91-108 | the existing child, or a new zeroed and linked one for one frame, or 0 exactly when it is absent and no frame is left; no translation changes |
| `Mmu.PageTables.MakeTable` | src/mmu/mmu.cpp:98-107 | taken, zeroed, and only then linked: the tree is whole after every store |
| `Mmu.PageTables.LinkFrame` | src/mmu/mmu.cpp:105-107 | the link gives the frame its role and its one parent |
| `Mmu.PageTables.TablesFor` | src/mmu/mmu.cpp:66-74 | both tables exist afterwards exactly when the missing ones can be paid for; otherwise every spare frame is used up |
| `Mmu.PageTables.MapPage` | src/mmu/mmu.cpp:59-79 | one page: one descriptor written, its tables made and paid for, or no page changed |
| `Mmu.PageTables.WriteLeaf` | src/mmu/mmu.cpp:79 | one slot of a third-level table changes the flat map at that page |
| `Mmu.PageTables.Map` | src/mmu/mmu.cpp:52-89 | exactly a prefix of the range is mapped, all of it exactly when the missing tables can be paid for; the exact frames used; every 64-bit address translates as before or to `phys + (v - va)`; the descriptor words of the range have their address and the bits of `flags`, all others are unchanged; old or new translations only are cached, and after a complete `map` the cache agrees with the tables |
| `Mmu.PageTables.WritePages` | src/mmu/mmu.cpp:58-80 | the descriptor loop of `map` |
| `Mmu.PageTables.InvalidatePages` | src/mmu/mmu.cpp:82-86 | afterwards no page of the range has an entry that the tables do not give |
| `Mmu.PageTables.TableIsEmpty` | src/mmu/mmu.cpp:179-184 | true exactly when all 512 slots are zero |
| `Mmu.ZeroMeansEmpty` | src/mmu/mmu.cpp:153-154 | a third-level table is all zero exactly when its 2 MiB region maps no page |
| `Mmu.ParentNotZero` | src/mmu/mmu.cpp:163-166 | a second-level table that leads to a third-level one is never empty: the second release of `unmap` cannot run |
| `Mmu.ReleasedNext` | src/mmu/mmu.cpp:153-160 | the frames released after one more page, also when a region empties in mid-range and is released again |
| `Mmu.FreeKeepsTree` | src/mmu/mmu.cpp:158-159 | releasing a table's frame, even twice, leaves the words of the tree alone |
| `Mmu.UnmapWalks` | src/mmu/mmu.cpp:131-167 | after `n` pages `translate` gives `~0` inside the range and its old result everywhere else |
| `Mmu.UnmapWords` | src/mmu/mmu.cpp:131-167 | on words: the third-level word of each of the `n` pages is 0, that of any other address is as before |
| `Mmu.ReleasedBreaksAccount` | src/mmu/mmu.cpp:154-160 | frames and roles still agree exactly when nothing was released |
| `Mmu.ReleasesNothing` | src/mmu/mmu.cpp:131-167 | `unmap` releases no table exactly when every 2 MiB region the range touches maps a page outside the range |
| `Mmu.LonePageIsReleased` | src/mmu/mmu.cpp:147-160 | unmapping the only page of a region releases a third-level table that stays linked |
| `Mmu.ReleasedIsLost` | src/mmu/mmu.cpp:154-160 | on the words of memory a released table is linked from the first level down while its bit is clear, and no assignment of roles to frames matches that memory |
| `Mmu.OwnableUnlessReleased` | src/mmu/mmu.cpp:131-167 | memory admits some consistent ownership exactly when nothing was released |
| `Mmu.PageTables.UnmapPage` | src/mmu/mmu.cpp:138-168 | one page of `unmap`: cleared, its table released when emptied, or a stop at a missing table with nothing changed |
| `Mmu.PageTables.ReleaseTable` | src/mmu/mmu.cpp:154-160 | the release of a frame already free has no effect |
| `Mmu.PageTables.Unmap` | src/mmu/mmu.cpp:131-177 | exactly the pages before the first one without tables are removed; the frames released, each linked and free afterwards; consistent ownership is possible exactly when there are none; every address translates as before or to `~0`; only old translations are cached, also after an early return, and none of the range after a complete one |
| `MmuInit.SlotCounts` | src/mmu/mmu_pi3.cpp:66-76 | the identity map of either board has 516 tables counting the root |
| `MmuInit.FlagsHaveNoAddress` | include/mmu.h:30-35 | both flag templates lie outside the address mask |
| `MmuInit.RegionsExpected` | src/mmu/mmu_pi5.cpp:70-80 | the five regions of either board touch only those tables, for every kernel end |
| `MmuInit.EnoughFrames` | src/mmu/mmu_pi3.cpp:72-76 | with 516 frames no expected page can be left without tables |
| `MmuInit.IdentityNeedsTables` | src/mmu/mmu_pi3.cpp:66-76 | an identity map needs all of those tables, in any state |
| `MmuInit.MapIdentity` | src/mmu/mmu_pi3.cpp:72 | one identity `map` of boot: with 516 frames every address of it translates to itself through a descriptor with those flags; outside it no descriptor and no translation changes |
| `MmuInit.InstallRoot` | src/mmu/mmu_pi3.cpp:44-62 | boot halts exactly when there is no frame; otherwise an empty tree in which no address translates, with one role and an empty cache |
| `MmuInit.MapMemory` | src/mmu/mmu_pi3.cpp:72-74 | with 516 frames the first three calls map [0, 0x3F800000) to itself with the bits of 0x703 |
| `MmuInit.WindowsWin` | src/mmu/mmu_pi3.cpp:74-76 | the two device calls leave their windows with the bits of 0x707, also where the one of the Pi 3 overlaps memory, and the rest of memory with those of 0x703 |
| `MmuInit.MapRegions` | src/mmu/mmu_pi5.cpp:76-80 | with 516 frames the five calls complete that map, address ranges written out for each board, and the cache agrees with it; nothing else is mapped |
| `MmuInit.MmuInit` | src/mmu/mmu_pi5.cpp:27-93 | for both boards and every kernel end: halts exactly without frames; the identity map of [0, 0x3F800000) and of [0x3F000000, 0x40001000) on the Pi 3, or [0x107FFF8000, 0x1080000000) and [0x1C00000000, 0x1C00410000) on the Pi 5, holds exactly with at least 516 frames, then uses exactly 516 and has the bits of 0x707 in the device windows and of 0x703 elsewhere; no other address is mapped, however many frames there are |
| `HeapAlloc.Aligned` | src/heap_alloc/heap_alloc.cpp:30-31 | the rounded size is the next multiple of 16 |
| `HeapAlloc.AlignUp` | src/heap_alloc/heap_alloc.cpp:31 | `(size + 15) & ~15` is that multiple |
| `HeapAlloc.GrowExact` | src/heap_alloc/heap_alloc.cpp:38-45 | the growth loop in closed form, for every number of pages, frames and missing tables |
| `HeapAlloc.KmallocExact` | src/heap_alloc/heap_alloc.cpp:29-51 | exactly when `kmalloc` halts, what it returns, and exactly when it leaves a page without a translation |
| `HeapAlloc.BudgetSuffices` | src/heap_alloc/heap_alloc.cpp:29-51 | with a frame for every page of the window and every missing table, no sequence of requests that fits halts; exactly `n + need` frames back `n` pages |
| `HeapAlloc.RoomyRun` | src/heap_alloc/heap_alloc.cpp:29-51 | the same from any state reached, for any room left |
| `HeapAlloc.FreshHeapNeeds258` | include/heap_alloc.h:28-34 | from boot with 258 frames exactly the sequences that fit 1 MiB are served; they end at 0x100000000 plus their total, with one frame for every 4 KiB begun and two for tables |
| `HeapAlloc.NextAddress` | src/heap_alloc/heap_alloc.cpp:29-51 | each request is served at 0x100000000 plus the sizes before it, each rounded up to 16 |
| `HeapAlloc.With257Frames` | include/heap_alloc.h:28-34 | 257 do not |
| `HeapAlloc.UnbackedExample` | include/heap_alloc.h:46-48 | with two frames and no tables the first request succeeds on a page that does not translate |
| `HeapAlloc.Heap.KheapInit` | src/heap_alloc/heap_alloc.cpp:24-27 | an empty, valid heap over the current page tables |
| `HeapAlloc.Heap.Translates` | src/heap_alloc/heap_alloc.cpp:13-16 | while the heap is backed, every address below `heap_end` translates into the frame of its page, through a descriptor with the bits of 0x703 |
| `HeapAlloc.Heap.DistinctAddresses` | src/heap_alloc/heap_alloc.cpp:39-45 | distinct heap addresses translate to distinct physical addresses |
| `HeapAlloc.Heap.PastEnd` | src/heap_alloc/heap_alloc.cpp:38-45 | from `heap_end` to the end of the 2 MiB region no address translates; boot establishes this and every `kmalloc` keeps it |
| `HeapAlloc.Heap.StoreIsolated` | src/heap_alloc/heap_alloc.cpp:39-45 | whatever is stored at whatever heap address, the word lies in RAM and bitmap, tables, frame accounts and all translations stay what they are |
| `HeapAlloc.Heap.StoreWord` | src/heap_alloc/heap_alloc.cpp:47-50 | the heap is memory: a word stored through the page tables is read back, every other heap word keeps its value, and the heap state and all translations are unchanged |
| `HeapAlloc.Heap.GrowPage` | src/heap_alloc/heap_alloc.cpp:39-45 | one page: a fresh data frame owned by no table and no other page, then `map`; the state moves as the value machine says |
| `HeapAlloc.Heap.BackPage` | src/heap_alloc/heap_alloc.cpp:43 | the `map` call succeeds exactly when the missing tables can be paid for; otherwise no page changes and no frame is left |
| `HeapAlloc.Heap.BackUpTo` | src/heap_alloc/heap_alloc.cpp:38-45 | the growth loop is the growth of the value machine |
| `HeapAlloc.Heap.Kmalloc` | src/heap_alloc/heap_alloc.cpp:29-51 | halts, returns and moves as the value machine says; blocks stay disjoint, aligned and inside the window; page tables, frames and cache stay in order; nothing is mapped past the end; nothing outside the heap window is disturbed |
| `HeapAlloc.BootMapKept` | src/heap_alloc/heap_alloc.cpp:43 | the boot map of either board, attributes included, survives any change confined to the heap window, and outside that window nothing new is mapped |
| `CStrings.CString` | src/shell/shell.cpp:51-62 | the string in a buffer is what precedes its first terminator |
| `Store.OverwriteAt` | src/filesystem/filesystem.cpp:239-279 | a write byte by byte: the new bytes, the old content around them, zeros in a gap |
| `Store.WriteAt` | src/filesystem/filesystem.cpp:220-280 | the same for `fs_write` on a store: that one file changes as it says, every other node and anything that is not a file stays |
| `Store.EndsDelimit` | src/filesystem/filesystem.cpp:329-348 | each recorded end closes the segment that starts one past the previous end |
| `Store.CreateAddsOneBinding` | src/filesystem/filesystem.cpp:83-136 | creation succeeds exactly for an unbound name of 1 to 254 characters in a directory; it then binds that one name, last in the directory, to a number never used and an empty node of the kind asked for, and changes no other binding and no other node |
| `Store.UnlinkRemovesOneBinding` | src/filesystem/filesystem.cpp:138-173 | removal succeeds exactly for a bound name that is not a non-empty directory; it removes that one binding, puts the last entry in its place, and changes no other binding and no other node |
| `Store.CreateKeepsGraph` | src/filesystem/filesystem.cpp:83-136 | names stay legal and distinct, every entry names a listed inode with a larger number, and no inode gets two parents |
| `Store.UnlinkKeepsGraph` | src/filesystem/filesystem.cpp:155-172 | so does swap-last removal |
| `Store.WriteKeepsGraph` | src/filesystem/filesystem.cpp:220-280 | so does a write |
| `Store.RunsKeepGraph` | src/filesystem/filesystem.cpp:35-280 | after any run the directories form a forest, no inode disappears and none changes its kind |
| `Store.RunsInOrder` | src/filesystem/filesystem.cpp:35-280 | calls take effect and return in order: a run is its first part and then the rest from the store that part leaves |
| `Store.RunOfOne` | src/filesystem/filesystem.cpp:83-280 | one call is that creation, removal or write, and returns the new number or 0, 0 or -1, the bytes written or -1 |
| `Store.WalkAscends` | src/filesystem/filesystem.cpp:62-80 | every step of a resolution goes to a larger inode number: there is no cycle |
| `Store.CreateKeepsWalks` | src/filesystem/filesystem.cpp:83-136 | what resolved before a creation resolves to the same inode after it |
| `Store.CreateResolves` | src/filesystem/filesystem.cpp:47-136 | the new name resolves to the new inode below every path to its directory |
| `Store.UnlinkCutsOnly` | src/filesystem/filesystem.cpp:138-173 | removal cuts exactly the paths through the removed entry; all others keep their result |
| `Store.PathToDirAvoidsIt` | src/filesystem/filesystem.cpp:62-80 | the path to a directory never uses that directory's own entries |
| `Store.WriteKeepsWalks` | src/filesystem/filesystem.cpp:220-280 | resolution does not depend on file contents |
| `Store.SegmentsOfJoin` | src/filesystem/filesystem.cpp:329-348 | parsing a joined path gives its slash-free components back |
| `Store.JoinOfSegments` | src/filesystem/filesystem.cpp:329-348 | joining the parsed segments gives back any path, except that its first character is taken for a slash |
| `Store.LookupAny` | src/filesystem/filesystem.cpp:47-81 | looking up any path string but the empty one and `/` walks its first 16 segments, empty ones included, from inode 1 |
| `Store.LookupJoined` | src/filesystem/filesystem.cpp:47-81 | looking up a joined path walks its first 16 components |
| `Store.LookupSteps` | src/filesystem/filesystem.cpp:47-81 | `/` is inode 1, the empty path 0, one more component is what the name is bound to in the directory reached so far, and a seventeenth component has no effect |
| `Store.CreateLookupRoundTrip` | src/filesystem/filesystem.cpp:47-136 | creating a name below a resolving path of at most 15 components makes the extended path resolve to the new inode |
| `Store.CreateKeepsLookups` | src/filesystem/filesystem.cpp:47-136 | and every path string that resolved before keeps its result |
| `Store.SlashNameNeverResolves` | src/filesystem/filesystem.cpp:89-90 | a created name that contains a slash is reached by no path |
| `Disk.BlockLayout` | include/filesystem.h:59-92 | an entry is 264 bytes, a payload 4088 of a 4096-byte block, and 15 entries fit but not 16 |
| `Disk.BytesRoundTrip` | src/filesystem/filesystem.cpp:126-127 | an inode number written as 8 bytes is read back |
| `Disk.AppendKeepsStore` | src/filesystem/filesystem.cpp:379-389 | a zeroed block at the end of a chain leaves the store it stands for unchanged and keeps all chains apart |
| `Disk.NewRecordEffect` | src/filesystem/filesystem.cpp:100-107 | a record at the head of the list adds one empty node with the next number |
| `Disk.AddEntryEffect` | src/filesystem/filesystem.cpp:124-134 | counting and writing the tail slot appends one entry to one directory |
| `Disk.SwapEntryEffect` | src/filesystem/filesystem.cpp:168-171 | copying the last slot and shrinking is swap-last removal on the entries, wherever the two slots lie |
| `Disk.DropEntryEffect` | src/filesystem/filesystem.cpp:162-166 | shrinking alone removes the last entry |
| `Disk.StoredMore` | src/filesystem/filesystem.cpp:262-274 | one chunk of a write stores the next bytes at the next positions and nothing else |
| `Disk.WriteEffect` | src/filesystem/filesystem.cpp:259-279 | the stored bytes and the new size are the overwritten content; bytes past the size stay zero |
| `Filesystem.FitsWithRecord` | src/filesystem/filesystem.cpp:100 | a record allocated at the bump pointer lies in the heap window and overlaps no record and no block |
| `Filesystem.FitsWithBlock` | src/filesystem/filesystem.cpp:379-389 | the same for a block |
| `Filesystem.BlocksAfterWrite` | src/filesystem/filesystem.cpp:239-251 | a file with exactly the blocks its size needs has exactly those it needs after a write |
| `Filesystem.DirentWritten` | src/filesystem/filesystem.cpp:124-134 | number, name and terminator written into a slot read back as that entry; every other slot of the block keeps its entry |
| `Filesystem.FileSystem.AppendBlock` | src/filesystem/filesystem.cpp:379-389 | halts exactly when the heap does; otherwise the new block, holding what its memory held, is linked at the end of that chain and the store is the same |
| `Filesystem.FileSystem.AddRecord` | src/filesystem/filesystem.cpp:99-107 | a fresh number, an empty node, all other records unchanged |
| `Filesystem.FileSystem.KmallocBlock` | src/filesystem/filesystem.cpp:381 | the block comes into view with the assumed content of untouched memory and nothing is stored |
| `Filesystem.FileSystem.FsInit` | src/filesystem/filesystem.cpp:35-45 | the store with one empty root directory, number 1 |
| `Filesystem.FileSystem.FindInode` | src/filesystem/filesystem.cpp:350-357 | the record of a listed number, null exactly for the others |
| `Filesystem.FileSystem.Advance` | src/filesystem/filesystem.cpp:187-192 | the walk along a chain fails exactly past its end and never steps through null |
| `Filesystem.FileSystem.DirentAt` | src/filesystem/filesystem.cpp:359-377 | block and slot of an entry, null exactly past the last one |
| `Filesystem.FileSystem.SearchDir` | src/filesystem/filesystem.cpp:66-78 | the inner loop of lookup finds the entry whose name is that piece of the path |
| `Filesystem.FileSystem.FsLookup` | src/filesystem/filesystem.cpp:47-81 | equals resolution on the store; no null record is followed |
| `Filesystem.FileSystem.HasEntry` | src/filesystem/filesystem.cpp:92-97 | true exactly for a bound name |
| `Filesystem.FileSystem.CheckCreate` | src/filesystem/filesystem.cpp:84-97 | null exactly when nothing may be created |
| `Filesystem.FileSystem.WriteDirent` | src/filesystem/filesystem.cpp:124-134 | one slot holds the new entry, the others keep theirs |
| `Filesystem.FileSystem.AddEntry` | src/filesystem/filesystem.cpp:114-134 | one directory gains one entry, nothing else changes |
| `Filesystem.FileSystem.MakeRoom` | src/filesystem/filesystem.cpp:109-112 | a block is added exactly at a multiple of 15; afterwards the tail slot exists |
| `Filesystem.FileSystem.FsCreate` | src/filesystem/filesystem.cpp:83-136 | result and store are those of creation; the exact heap requests; halts exactly when they do not fit |
| `Filesystem.FileSystem.FindDirent` | src/filesystem/filesystem.cpp:146-153 | the first entry with the name, or else one with another name |
| `Filesystem.FileSystem.RemoveEntry` | src/filesystem/filesystem.cpp:155-172 | swap-last removal of that entry on the store |
| `Filesystem.FileSystem.FsUnlink` | src/filesystem/filesystem.cpp:138-173 | result and store are those of removal; -1 changes nothing |
| `Filesystem.FileSystem.CopyOut` | src/filesystem/filesystem.cpp:201-216 | the chunked loop copies exactly those bytes of the chain and touches nothing else of the buffer, for every alignment |
| `Filesystem.FileSystem.FsRead` | src/filesystem/filesystem.cpp:175-218 | -1 exactly for no buffer, no file, or an offset whose block index exceeds the blocks that the content needs; otherwise `content[off..min(off+len,size)]`, and the rest of the buffer is untouched |
| `Filesystem.FileSystem.CountBlocks` | src/filesystem/filesystem.cpp:231-237 | the length of the chain |
| `Filesystem.FileSystem.GrowChain` | src/filesystem/filesystem.cpp:239-251 | exactly the missing blocks are appended; the store does not change |
| `Filesystem.FileSystem.CopyIn` | src/filesystem/filesystem.cpp:259-274 | the chunked loop stores exactly the buffer's bytes in that one chain |
| `Filesystem.FileSystem.FsWrite` | src/filesystem/filesystem.cpp:220-280 | -1 exactly for no buffer or no file, with nothing changed; otherwise the store of the write; halts exactly when the blocks that the content lacks do not fit the heap; a file keeps exactly the blocks it needs |
| `Filesystem.FileSystem.FsStat` | src/filesystem/filesystem.cpp:297-303 | -1 exactly for an unlisted inode; each output that is asked for gets the length of a file or the number of entries of a directory, and 1 or 2 for its type, and keeps its value on failure |
| `Filesystem.NameMatches` | src/filesystem/filesystem.cpp:307-314 | true exactly when the piece of the path is the stored name |
| `Filesystem.NameMatchesSingle` | src/filesystem/filesystem.cpp:316-327 | string equality |
| `Filesystem.ParsePath` | src/filesystem/filesystem.cpp:329-348 | the first segment ends of the path, none for the bare root |
| `Filesystem.CreateAsks` | src/filesystem/filesystem.cpp:99-112 | a new name asks the heap for 40 bytes, and for 4096 more exactly at a multiple of 15 entries |
| `Filesystem.DirectoryCost` | src/filesystem/filesystem.cpp:83-136 | creating `n` new names in a directory takes 48 heap bytes each and 4096 for every 15 entries begun |
| `Filesystem.WriteCost` | src/filesystem/filesystem.cpp:231-251 | a write takes 4096 heap bytes for every 4088 bytes of content begun past what the file has |
| `Filesystem.RunCalls` | src/filesystem/filesystem.cpp:35-280 | any sequence of create, unlink and write calls leaves memory standing for the abstract run and returns its results; the run halts exactly when the heap cannot serve the requests that the abstract run makes, after a prefix of the results |
| `ShellSpec.TokensAreWords` | src/shell/shell.cpp:129-140 | tokens are non-empty and contain no space |
| `ShellSpec.TokensOfJoined` | src/shell/shell.cpp:75-84 | splitting joined words gives them back |
| `ShellSpec.TokensSplit` | src/shell/shell.cpp:129-140 | what stands on the two sides of a space is split on its own: runs of spaces and spaces at the ends make no difference |
| `ShellSpec.JoinedFits` | src/shell/shell.cpp:75-84 | any run of a line's tokens, joined, is no longer than the line |
| `ShellSpec.RmKeepsCwd` | src/shell/shell.cpp:304-310 | removing an entry of the current directory cannot cut the path to it |
| `ShellSpec.StepKeepsCwd` | src/shell/shell.cpp:234-310 | every command keeps the path string and the inode number of the current directory in step |
| `ShellSpec.RunKeepsCwd` | src/shell/shell.cpp:234-310 | so does every sequence of commands |
| `ShellSpec.RunSnoc` | src/shell/shell.cpp:327-352 | commands take effect in order: one more command acts on the state the others leave |
| `ShellSpec.BootState` | src/shell/shell.cpp:42-46 | they are in step at boot |
| `ShellSpec.GoDown` | src/shell/shell.cpp:234-262 | `mkdir` and `cd` with an unbound name end in a new, empty directory whose path is the old one and the name |
| `ShellSpec.TouchMakesFile` | src/shell/shell.cpp:265-271 | `touch` with an unbound name makes an empty file that its path then leads to |
| `ShellSpec.CreateCommands` | src/shell/shell.cpp:256-271 | for any name: `mkdir` binds it to a new empty directory and `touch` to a new empty file and nothing else changes, or nothing at all for a name that starts with a slash, is bound, or has not 1 to 254 characters |
| `ShellSpec.RmCommand` | src/shell/shell.cpp:304-310 | for any name: `rm` unbinds exactly what is no non-empty directory and does not start with a slash, and changes nothing else |
| `ShellSpec.RmUnbinds` | src/shell/shell.cpp:304-310 | the path of a removed name resolves no more |
| `ShellSpec.ShortPathsFit` | src/shell/shell.cpp:152-160 | a line that fits the 256-byte line buffer fits the 512-byte path buffers where the current path has at most 255 characters |
| `ShellSpec.PathsCanOverflow` | src/shell/shell.cpp:152-160 | five lines that fit the line buffer and make the shell build a 750-character path in a 512-byte buffer |
| `ShellSpec.CatPrintsWhole` | src/shell/shell.cpp:274-289 | content is printed whole exactly when it holds no terminator, whatever its length |
| `ShellSpec.TerminatorHides` | src/shell/shell.cpp:279-288 | the first terminator hides the rest of the 127 bytes it was read with and nothing else |
| `ShellSpec.WriteThenCat` | src/shell/shell.cpp:274-301 | written text is printed, followed by the old tail, exactly when that tail holds no terminator |
| `ShellSpec.WriteThenCatLine` | src/shell/shell.cpp:274-301 | the same for the two commands naming a file by any path, in any state |
| `ShellSpec.RunKeepsText` | src/shell/shell.cpp:234-310 | no command puts a terminator into a file |
| `ShellSpec.FilesPrintFromBoot` | src/shell/shell.cpp:274-301 | after any commands from boot `cat` prints every file whole, and write-then-cat shows the words followed by the old tail |
| `ShellSpec.ArgumentPaths` | src/shell/shell.cpp:152-160 | `cd`, `write` and `cat` take any argument that starts with a slash as it stands and any other one after the current path and one slash: `cd` moves there exactly if it is a directory, `write` changes and `cat` shows that file |
| `ShellSpec.AbsolutePaths` | src/shell/shell.cpp:152-160 | with the absolute path of up to 16 components they act on the inode those components lead to from the root, whatever the current directory |
| `ShellSpec.RelativePaths` | src/shell/shell.cpp:234-301 | with a relative path they act on the inode it leads to from the current directory, and `cd` extends the current path by it |
| `ShellSpec.TouchWriteCat` | src/shell/shell.cpp:265-301 | `touch`, `write` and `cat` of a new name show exactly the text, and so does its absolute path from any directory |
| `ShellSpec.LineMeans` | src/shell/shell.cpp:333-352 | which of the first 16 words of a line is the verb, the name or path, and the text, with the verbs spelled out |
| `ShellSpec.LineShows` | src/shell/shell.cpp:334-352 | a `cat` line shows the file that its second word names, any other line none |
| `ShellSpec.Session` | src/shell/shell.cpp:320-354 | `mkdir a`, `cd a`, `touch f`, `write f hello world`, `cd /` typed at boot leave the shell at the root, and `cat /a/f` shows `hello world` |
| `Shell.Slen` | src/shell/shell.cpp:51-55 | the length of the string in a buffer |
| `Shell.Scpy` | src/shell/shell.cpp:58-62 | characters and terminator are copied, no other byte changes |
| `Shell.Same` | src/shell/shell.cpp:65-69 | string equality |
| `Shell.Extend` | src/shell/shell.cpp:152-160 | path, separator if missing, and argument, in one fixed buffer |
| `Shell.CutWord` | src/shell/shell.cpp:135-137 | one word scanned and terminated in place, everything before it untouched |
| `Shell.ParseArgs` | src/shell/shell.cpp:129-140 | after splitting in place `argv` points at the first tokens of the old line, each terminated |
| `Shell.JoinArgs` | src/shell/shell.cpp:75-84 | the arguments with single spaces, terminated |
| `Shell.FilesAreSmall` | src/filesystem/filesystem.cpp:379-389 | no file comes near 2^64 bytes, so the offsets of `cat` cannot wrap |
| `Shell.ReadStartsInside` | src/shell/shell.cpp:274-289 | a read at or before the end of a file starts within its blocks: `cat` meets no read error |
| `Shell.ScriptIsSmall` | src/shell/shell.cpp:256-301 | a script asks the heap for at most 4144 bytes for each of its allocating commands |
| `Shell.ScriptSurvives` | src/shell/shell.cpp:320-354 | with that much room all its requests are served |
| `Shell.Shell.ResolvePath` | src/shell/shell.cpp:152-160 | the lookup of the absolute path, or of the argument below the current one |
| `Shell.Shell.CmdCd` | src/shell/shell.cpp:234-253 | refuses exactly what is not a directory; otherwise both pieces of state move |
| `Shell.Shell.CmdCreate` | src/shell/shell.cpp:256-271 | `mkdir` and `touch`: the abstract step, success exactly when creation is possible, the exact heap requests |
| `Shell.Shell.CmdRm` | src/shell/shell.cpp:304-310 | the abstract step, success exactly when removal is possible |
| `Shell.Shell.CmdWrite` | src/shell/shell.cpp:292-301 | the joined words over the start of the file, or no change; the exact heap requests |
| `Shell.Shell.Stream` | src/shell/shell.cpp:279-288 | the 127-byte loop terminates, fails exactly on what is not a file, and prints the content chunk by chunk |
| `Shell.Shell.CmdCat` | src/shell/shell.cpp:274-289 | found exactly when the path resolves, no error exactly on a file, and what is printed |
| `Shell.Shell.Dispatch` | src/shell/shell.cpp:334-352 | the words of a line run the command they name; the exact heap requests |
| `Shell.Shell.Execute` | src/shell/shell.cpp:333-352 | a line of raw bytes takes the abstract step that its tokens ask for |
| `Shell.Shell.ShellRun` | src/shell/shell.cpp:320-354 | any script of lines follows the abstract machine and prints what it says, a proper prefix of it if it halts; it halts exactly when the heap cannot serve its requests, so never while 4144 bytes are left for each allocating command |
| `Kernel.EnoughMemory` | src/pmm/pmm.cpp:30-53 | 774 frames are left exactly when the kernel image ends at or below 0x3F4F9000 |
| `Kernel.EnoughForOnePage` | src/pmm/pmm.cpp:30-53 | 519 frames are left exactly when it ends at or below 0x3F5F8000 |
| `Kernel.ScarceMemory` | src/pmm/pmm.cpp:30-53 | the kernel ends that leave exactly 518 and exactly 517 frames |
| `Kernel.HeapNeedsTwoTables` | src/heap_alloc/heap_alloc.cpp:43 | after boot of either board the heap window lacks exactly two tables and holds no page |
| `Kernel.BootMemory` | src/kernel.cpp:59-62 | boot halts exactly without frames; with 516 the boot map holds with its attributes, nothing else is mapped, and the heap starts empty with every frame beyond 516 to spare |
| `Kernel.FirstUnbacked` | src/heap_alloc/heap_alloc.cpp:38-50 | of all first requests, exactly those of at most one page that find 517 or 518 frames succeed without a translation |
| `Kernel.FirstKmalloc` | src/heap_alloc/heap_alloc.cpp:29-51 | after a real boot: the first allocation halts exactly with 516 frames, and its address has no translation exactly with 517 or 518 |
| `Kernel.ReadPastEnd` | src/filesystem/filesystem.cpp:175-194 | an empty file read at offset 1 gives 0 and at offset 4088 gives -1 |
| `Kernel.UnmapAfterBoot` | src/mmu/mmu.cpp:131-177 | boot, one 16-byte allocation and `unmap` of its page: the table below slots 4 and 0 is linked and free, and no ownership is consistent with memory |
| `Kernel.RunSystem` | src/kernel.cpp:65-71 | on the heap value that boot leaves, filesystem and shell halt exactly when it cannot serve the requests of the script, never within 253 allocating commands and 258 spare frames; otherwise they end where the abstract machine ends |
| `Kernel.Serve` | src/heap_alloc/heap_alloc.cpp:29-51 | serving any sequence of requests takes the real heap through the states of the value machine and disturbs nothing outside its window |
| `Kernel.FilesTranslate` | include/heap_alloc.h:46-48 | every byte of every record and block of the filesystem translates into the data frame of its own page, different bytes to different physical addresses, and past the heap nothing translates |
| `Kernel.KernelMain` | src/kernel.cpp:50-72 | from the first frame to the end of a script: halts exactly when what boot left cannot serve the script; otherwise the shell ends where the abstract machine ends, the boot map is intact with its attributes, the cache agrees, filesystem memory is mapped byte for byte, and nothing outside boot map and heap window is mapped |

## Left out

- UART drivers, interrupts, timer, boot assembly, the exception vectors, caches and system registers: hardware without a result to state. Of the barriers only `tlbi` is modelled.
- Memory ordering: stores are visible at once. The `dsb ishst` of `map` comes before its writes, so no claim about weakly ordered observers is made.
- The cache after an early return of `map` or `unmap`: the code then skips the invalidations; only "old or new" is claimed for `map` there.
- `Mmu.PageTables.Unmap`: ownership is claimed only when nothing is released, because the code leaves the parent link in place; nothing in the repository calls `unmap`.
- What the attribute bits mean: the bits of every descriptor are stated, the memory types that the registers give them are not.
- `HeapAlloc.Heap.Kmalloc`: sizes for which `HEAP_LIMIT + size + 15` wraps 64 bits are excluded.
- `Filesystem.FileSystem.FsRead`: `offset + len` must not wrap 64 bits.
- `Filesystem.FileSystem.FsWrite`: the same.
- The filesystem's structures are records and byte payloads in maps keyed by heap address, not words of the RAM array; `kmalloc` for them is the value machine that `HeapAlloc.Heap.Kmalloc` is proved equal to.
- `Filesystem.FileSystem.FsInit`: heaps with one or two spare frames and missing tables are excluded; the root record would be stored at an address that does not translate, which faults (`Kernel.FirstKmalloc`).
- `Filesystem.FileSystem.AddRecord`: the same.
- `Kernel.KernelMain`: kernel images that leave fewer than 519 frames are excluded for the same reason.
- In `Kernel.KernelMain` the page tables serve the requests of a script after filesystem and shell have run on their values, not between the commands. That order does not matter to memory management: by `HeapAlloc.Heap.StoreIsolated` no store to a heap address changes a table, a bitmap word or a translation.
- Strings passed by pointer are values that contain no terminator; reads past a terminator are excluded by `CharAt`.
- Paths the shell builds must fit its 512-byte buffers, as the code assumes without checking; `ShellSpec.PathsCanOverflow` is a script that breaks this, and runs are claimed only for scripts that do not.
- Lookups use the first 16 segments of a path, as the code does (`Store.LookupSteps`); `ShellSpec.AbsolutePaths` and `ShellSpec.RelativePaths` are for paths of at most 16.
- A `shutdown` line stops the machine; in a script of the model it is one more line without effect.
- `ls`, `fs_readdir`, `pwd`, `help`, `clear`, `kernel`, `uptime`, `shutdown`, `read_line` and the number printers: input and output, or easy.
- The messages that commands print: a success flag stands for them, and for `cat` the file bytes it prints.
- `name_copy`: an unused stub.
- Reclaiming unlinked inodes and blocks: the code does none.
