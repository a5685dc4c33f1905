/** `kernel_main`: memory, heap, filesystem and shell brought up one on top of the other. */
module Kernel {
  import opened Bits
  import opened Pmm
  import opened PageTable
  import opened Mmu
  import opened MmuInit
  import opened CStrings
  import opened Store
  import opened ShellSpec
  import opened Disk
  import H = HeapAlloc
  import F = Filesystem
  import S = Shell

  // ---- How much memory a kernel image leaves ----

  /** 516 frames for the identity map and 258 for a full heap. */
  const BOOT_FRAMES: nat := 774

  /** The kernel image leaves those frames exactly when it ends at or below this address. */
  const LAST_KERNEL_END: nat := 0x3F4F_9000

  /** It leaves three frames beside the identity map, enough for the first heap page with its two tables, exactly when
      it ends at or below this one. */
  const LAST_BACKED_END: nat := 0x3F5F_8000

  lemma EnoughMemory(kernelEnd: nat)
    requires kernelEnd <= PHYS_MEM_END
    ensures BootGeometry(kernelEnd).total >= 774 <==> kernelEnd <= 0x3F4F_9000
  {
    hide BootFrames, BootGeometry;
    FramesLeft(kernelEnd);
    FramesAbove(kernelEnd, 775);
  }

  /** Every frame above the image but those that hold the bitmap. */
  lemma FramesLeft(kernelEnd: nat)
    requires kernelEnd <= PHYS_MEM_END
    ensures var f := BootFrames(kernelEnd); BootGeometry(kernelEnd).total == f - ((f + 63) / 64 + 511) / 512
  {
    BootStartIs(kernelEnd);
  }

  lemma FramesAbove(kernelEnd: nat, n: nat)
    requires kernelEnd <= PHYS_MEM_END && PAGE_SIZE * n <= PHYS_MEM_END
    ensures BootFrames(kernelEnd) >= n <==> kernelEnd <= PHYS_MEM_END - PAGE_SIZE * n
  {
    BootStartIs(kernelEnd);
    hide BootFrames;
    assert BitmapBase(kernelEnd) == PAGE_SIZE * (BitmapBase(kernelEnd) / PAGE_SIZE);
  }

  lemma EnoughForOnePage(kernelEnd: nat)
    requires kernelEnd <= PHYS_MEM_END
    ensures BootGeometry(kernelEnd).total >= 519 <==> kernelEnd <= 0x3F5F_8000
  {
    hide BootFrames, BootGeometry;
    FramesLeft(kernelEnd);
    FramesAbove(kernelEnd, 520);
  }

  /** The kernel images that leave just one or two. */
  lemma ScarceMemory(kernelEnd: nat)
    requires kernelEnd <= PHYS_MEM_END
    ensures BootGeometry(kernelEnd).total == 518 <==> 0x3F5F_8000 < kernelEnd <= 0x3F5F_9000
    ensures BootGeometry(kernelEnd).total == 517 <==> 0x3F5F_9000 < kernelEnd <= 0x3F5F_A000
  {
    BootStartIs(kernelEnd);
  }

  // ---- Boot ----

  /** Neither board's identity map reaches the first-level slot of the heap, the gigabyte at 4 GiB: both tables are
      missing and no page is mapped there. */
  lemma HeapNeedsTwoTables(v: View, board: Board)
    requires board == PI3 || board == PI5
    requires v.leaf.Keys == LeafSlots(board) && v.mid.Keys == MidSlots(board)
    ensures Needed(v, H.HEAP_PAGE) == 2
    ensures Shape(v) ==> H.NothingPast(v, H.HEAP_BASE)
  {
    hide Below;
    assert H.HEAP_PAGE / 512 == 2048 && H.HEAP_PAGE / 512 / 512 == 4;
    assert 2048 !in v.leaf;
  }

  /** The first two steps of `kernel_main`: the frame allocator with the identity map, then an empty heap. */
  method BootMemory(pt: PageTables, kernelEnd: nat, board: Board) returns (halted: bool, heap: H.Heap?)
    requires board == PI3 || board == PI5
    requires pt.pmm.ram.Length == RAM_WORDS && 0x8_0000 <= kernelEnd <= 0x3F80_0000
    modifies pt, pt.pmm, pt.pmm.ram
    ensures halted <==> BootGeometry(kernelEnd).total == 0
    ensures pt.pmm.totalFrames == BootGeometry(kernelEnd).total
    ensures !halted ==>
              && heap != null && fresh(heap) && heap.mmu == pt && heap.Valid() && heap.blocks == []
              && NothingElse(pt.Mem(), pt.l1Table, board)
    ensures BootGeometry(kernelEnd).total >= 516 ==>
              && !halted
              && BootMap(pt.Mem(), pt.l1Table, board) && Coherent(pt.tlb, pt.view.pages)
              && H.NothingPast(pt.view, heap.heapEnd)
              && heap.State() == BootHeap(BootGeometry(kernelEnd).total)
    ensures kernelEnd <= LAST_KERNEL_END ==> BootGeometry(kernelEnd).total >= BOOT_FRAMES && heap.State().spare >= 258
  {
    hide Tree, PageTable.Walk, Accounted, GoodBitmap, IdentityMap, BootMap, NothingElse, Coherent, LeafSlots, MidSlots,
         Needed, BootGeometry, H.NothingPast;
    EnoughMemory(kernelEnd);
    halted := MmuInit.MmuInit(pt, kernelEnd, board);
    if halted { return true, null; }
    heap := new H.Heap(pt);
    heap.KheapInit();
    if pt.pmm.totalFrames >= 516 {
      HeapNeedsTwoTables(pt.view, board);
      TreeHasShape(pt);
    }
  }

  lemma TreeHasShape(pt: PageTables)
    requires pt.Valid()
    ensures Shape(pt.view)
  {
  }

  /** The heap that boot leaves when the allocator starts with `total` frames. */
  function BootHeap(total: nat): H.HeapState
    requires total >= 516
  {
    H.HeapState(H.HEAP_BASE, H.HEAP_BASE, total - 516, 2, true)
  }

  // ---- The first allocation ----

  lemma FirstPage(total: nat, size: nat)
    requires total >= 516 && 0 < size <= PAGE_SIZE
    ensures H.GoodHeap(BootHeap(total))
    ensures var (r, s) := H.KmallocStep(BootHeap(total), size);
            && (r.Halted? <==> total == 516)
            && (r.Allocated? ==>
                  && r.addr == H.HEAP_BASE && s.bump > H.HEAP_BASE && s.end == H.HEAP_BASE + PAGE_SIZE
                  && (s.backed <==> total >= 519))
  {
    H.KmallocExact(BootHeap(total), size);
  }

  /** Of all first requests, those of at most one page that find 517 or 518 frames, and no others, are served without
      a translation. */
  lemma FirstUnbacked(total: nat, size: nat)
    requires total >= 516
    ensures var (r, s) := H.KmallocStep(BootHeap(total), size);
            r.Allocated? && !s.backed <==> (total == 517 || total == 518) && 0 < size <= PAGE_SIZE
  {
    H.KmallocExact(BootHeap(total), size);
  }

  /** The documented promise that everything below the bump pointer is backed fails on real boots: the first `kmalloc`
      succeeds on a page without a translation exactly when boot left 517 or 518 frames, by `ScarceMemory` exactly for
      kernel images that end in the 8 KiB above 0x3F5F8000. */
  method FirstKmalloc(pt: PageTables, kernelEnd: nat, board: Board, size: Word) returns (r: H.Allocation, heap: H.Heap)
    requires board == PI3 || board == PI5
    requires pt.pmm.ram.Length == RAM_WORDS && 0x8_0000 <= kernelEnd <= 0x3F80_0000
    requires BootGeometry(kernelEnd).total >= 516 && 0 < size <= PAGE_SIZE
    modifies pt, pt.pmm, pt.pmm.ram
    ensures fresh(heap) && heap.Valid() && heap.mmu == pt
    ensures r.Halted? <==> BootGeometry(kernelEnd).total == 516
    ensures r.Allocated? ==>
              && r.addr == 0x1_0000_0000 && heap.bumpPtr > r.addr
              && (PageTable.Walk(pt.Mem(), pt.l1Table, r.addr) == 0xFFFF_FFFF_FFFF_FFFF <==>
                    BootGeometry(kernelEnd).total == 517 || BootGeometry(kernelEnd).total == 518)
              && (heap.backed <==> BootGeometry(kernelEnd).total >= 519)
              && heap.heapEnd == H.HEAP_BASE + PAGE_SIZE && H.NothingPast(pt.view, heap.heapEnd)
  {
    hide Tree, PageTable.Walk, Accounted, GoodBitmap, IdentityMap, BootMap, NothingElse, Coherent, LeafSlots, MidSlots,
         Needed, BootGeometry, H.NothingPast, H.KmallocStep, H.GoodHeap, H.OwnData, H.AllBacked, H.SameOutsideHeap;
    var halted, booted := BootMemory(pt, kernelEnd, board);
    heap := booted;
    FirstPage(BootGeometry(kernelEnd).total, size);
    r := heap.Kmalloc(size);
    if r.Allocated? { FirstPageTranslates(heap); }
  }

  lemma FirstPageTranslates(heap: H.Heap)
    requires heap.Valid() && heap.heapEnd == H.HEAP_BASE + PAGE_SIZE
    ensures PageTable.Walk(heap.mmu.Mem(), heap.mmu.l1Table, H.HEAP_BASE) == NO_ADDRESS <==> !heap.backed
  {
    hide Tree, PageTable.Walk, Accounted, And, H.OwnData, H.AllBacked, H.Disjoint, H.GoodHeap;
    if heap.backed {
      heap.Translates(H.HEAP_BASE);
    } else {
      WalkIsLookup(heap.mmu.Mem(), heap.mmu.l1Table, heap.mmu.view, heap.mmu.role, H.HEAP_BASE);
      assert PageOf(H.HEAP_BASE) == H.HEAP_PAGE;
    }
  }

  // ---- Ownership after `unmap` ----

  /** Ownership is lost on a run of the code: boot, one small allocation, and `unmap` of its page, the only one of its
      region. */
  method UnmapAfterBoot(pt: PageTables, kernelEnd: nat, board: Board) returns (done: nat)
    requires board == PI3 || board == PI5
    requires pt.pmm.ram.Length == RAM_WORDS && 0x8_0000 <= kernelEnd <= LAST_BACKED_END
    modifies pt, pt.pmm, pt.pmm.ram
    ensures done == 1 && !pt.Valid()
    ensures pt.pmm.Valid() && !Ownable(pt.Mem(), pt.pmm.Geo(), pt.l1Table)
    ensures exists t :: LinkedFree(pt.Mem(), pt.pmm.Geo(), pt.l1Table, 4, 0, t)
  {
    hide Tree, PageTable.Walk, Accounted, GoodBitmap, Coherent, BootGeometry, H.NothingPast, H.OwnData, H.AllBacked,
         Released, UnmapPages, Ownable, LinkedFree;
    EnoughForOnePage(kernelEnd);
    var r, heap := FirstKmalloc(pt, kernelEnd, board, 16);
    LoneHeapPage(heap);
    done := pt.Unmap(H.HEAP_BASE, PAGE_SIZE);
    ghost var t :| t in Released(pt.view, pt.role, H.HEAP_PAGE, 1);
    ReleasedRegion(pt.view, pt.role, t);
  }

  lemma ReleasedRegion(v: View, role: map<Table, Role>, t: Table)
    requires t in Released(v, role, H.HEAP_PAGE, 1)
    ensures t in role && role[t].Leaf? && role[t].r / 512 == 4 && role[t].r % 512 == 0
  {
  }

  lemma LoneHeapPage(heap: H.Heap)
    requires heap.Valid() && heap.backed && heap.heapEnd == H.HEAP_BASE + PAGE_SIZE
    requires H.NothingPast(heap.mmu.view, heap.heapEnd)
    ensures var mmu, p := heap.mmu, H.HEAP_PAGE;
            && HasTables(mmu.view, p)
            && Released(mmu.view.(pages := UnmapPages(mmu.view.pages, p, 1)), mmu.role, p, 1) != {}
  {
    hide And, H.OwnData, Represents, Accounted, Released, UnmapPages, H.Disjoint, H.GoodHeap;
    var v, p := heap.mmu.view, H.HEAP_PAGE;
    assert H.BackedBy(v, 0, heap.frames[0]);
    forall q | q in v.pages && q / LEAF_SPAN == p / LEAF_SPAN ensures q == p {}
    LonePageIsReleased(heap.mmu.l1Table, v, heap.mmu.role, p);
  }

  // ---- Reading past the end ----

  /** The documented promise that reads past the end return 0 fails on an empty file: on any heap with a frame for every
      page, create one and read it at 1 and at 4088. */
  method ReadPastEnd(total: nat) returns (near: int, far: int)
    requires total >= BOOT_FRAMES
    ensures near == 0 && far == -1
  {
    hide F.FileSystem.Valid, F.FileSystem.Abs, H.RunHeap, H.KmallocStep, H.Roomy, H.GoodHeap, Graph, Find, Create;
    var h := BootHeap(total);
    H.FreshHeapIsRoomy(h.spare);
    H.RoomyStep(h, INODE_SIZE, H.HEAP_MAX_SIZE);
    var fs := new F.FileSystem(h);
    var stop := fs.FsInit();
    FirstFile(fs.heap);
    var ino;
    ino, stop := fs.FsCreate(ROOT_INO, [102], 1);
    var buf := new byte[1];
    near := fs.FsRead(ino, 1, 1, buf);
    far := fs.FsRead(ino, 4088, 1, buf);
  }

  /** The first file of a fresh store is inode 2, empty, and its two heap requests are served. */
  lemma FirstFile(h: H.HeapState)
    requires H.Roomy(h, H.HEAP_MAX_SIZE - H.Aligned(INODE_SIZE))
    ensures var name: Text := [102];
            && Create([Dir([])], ROOT_INO, name, 1) == (2, [Dir([Entry(name, 2)]), File([])])
            && H.RunHeap(h, F.CreateRequests([Dir([])], ROOT_INO, name)).Survived?
  {
    hide H.Roomy, H.RunHeap;
    var name: Text := [102];
    var none: seq<Entry> := [];
    assert none + [Entry(name, 2)] == [Entry(name, 2)];
    assert [Dir(none)][0 := Dir([Entry(name, 2)])] + [File([])] == [Dir([Entry(name, 2)]), File([])];
    S.CreateIsSmall([Dir([])], ROOT_INO, name);
    H.RoomyRun(h, F.CreateRequests([Dir([])], ROOT_INO, name), H.HEAP_MAX_SIZE - H.Aligned(INODE_SIZE));
  }

  // ---- The whole kernel ----

  /** Commands that a 1 MiB heap is sure to serve: 48 bytes for the root inode, then 4144 bytes each. */
  const SAFE_COMMANDS: nat := 253

  lemma SafeCommandsFit(h: H.HeapState, n: nat)
    requires H.Roomy(h, H.HEAP_MAX_SIZE - H.Aligned(INODE_SIZE)) && n <= SAFE_COMMANDS
    ensures H.Roomy(h, S.COMMAND_BYTES * n)
  {
    assert S.COMMAND_BYTES * n <= S.COMMAND_BYTES * SAFE_COMMANDS;
  }

  /** Everything the kernel asks of the heap when the shell runs these lines: the root inode, then the commands. */
  function KernelRequests(lines: seq<Text>): seq<nat> {
    [40] + S.ScriptRequests(BOOT_STATE, Script(lines))
  }

  /** Lines that fit the shell's line buffer and make it build no path longer than its path buffers. */
  ghost predicate GoodScript(lines: seq<Text>) {
    && (forall i :: 0 <= i < |lines| ==> |lines[i]| < 256)
    && (forall i :: 0 <= i < |lines| ==>
          LineFits(ShellSpec.Run(BOOT_STATE, Script(lines[..i])), Arguments(lines[i])))
  }

  /** Filesystem and shell on the heap that boot leaves: they halt exactly when it cannot serve what they ask. */
  method RunSystem(h: H.HeapState, lines: seq<Text>)
    returns (halted: bool, shell: S.Shell?, outs: seq<seq<byte>>)
    requires h == H.HeapState(H.HEAP_BASE, H.HEAP_BASE, h.spare, 2, true) && h.spare > 2 && GoodScript(lines)
    ensures H.RunHeap(h, KernelRequests(lines)).Panicked? <==> halted
    ensures h.spare >= 258 && Allocating(Script(lines)) <= 253 ==> !halted
    ensures !halted ==>
              && shell != null && fresh(shell) && fresh(shell.fs) && fresh(shell.cwdPath) && shell.Valid()
              && H.RunHeap(h, KernelRequests(lines)) == H.Survived(shell.fs.heap)
              && shell.Now() == ShellSpec.Run(BOOT_STATE, Script(lines)) && CwdAgrees(shell.Now())
              && outs == S.ScriptOutput(BOOT_STATE, lines)
    ensures halted ==> outs <= S.ScriptOutput(BOOT_STATE, lines)
  {
    hide LineFits, ShellSpec.Run, Script, Arguments, Allocating, CwdAgrees, H.Roomy, H.KmallocStep, CString,
         F.FileSystem.Abs, F.FileSystem.Valid, S.ScriptRequests, S.ScriptOutput, H.RunHeap;
    if h.spare >= 258 {
      H.FreshHeapIsRoomy(h.spare);
      H.RoomyStep(h, INODE_SIZE, H.HEAP_MAX_SIZE);
    }
    ServedFirst(h, lines);
    var fs := new F.FileSystem(h);
    var stop := fs.FsInit();
    if stop { return true, null, []; }
    if h.spare >= 258 && Allocating(Script(lines)) <= SAFE_COMMANDS {
      SafeCommandsFit(fs.heap, Allocating(Script(lines)));
    }
    shell := new S.Shell(fs);
    halted, outs := shell.ShellRun(lines);
  }

  lemma ServedFirst(h: H.HeapState, lines: seq<Text>)
    ensures H.RunHeap(h, KernelRequests(lines)) ==
            var (r, h') := H.KmallocStep(h, INODE_SIZE);
            if r.Halted? then H.Panicked else H.RunHeap(h', S.ScriptRequests(BOOT_STATE, Script(lines)))
  {
    hide H.KmallocStep, S.ScriptRequests, Script;
    assert KernelRequests(lines)[1..] == S.ScriptRequests(BOOT_STATE, Script(lines));
  }

  /** Serve a sequence of requests from the real heap: it goes through the states of the value machine, and what lies
      outside the heap window is not disturbed. */
  method Serve(heap: H.Heap, sizes: seq<nat>) returns (halted: bool)
    requires heap.Valid() && forall i :: 0 <= i < |sizes| ==> sizes[i] <= BLOCK_SIZE
    modifies heap, heap.mmu.pmm.ram, heap.mmu`tlb, heap.mmu`view, heap.mmu`role, heap.mmu`data
    ensures heap.Valid() && (heap.backed ==> old(heap.backed))
    ensures H.RunHeap(old(heap.State()), sizes) == if halted then H.Panicked else H.Survived(heap.State())
    ensures H.SameOutsideHeap(old(heap.mmu.Mem()), heap.mmu.Mem(), heap.mmu.l1Table)
    ensures old(H.NothingPast(heap.mmu.view, heap.heapEnd)) ==> H.NothingPast(heap.mmu.view, heap.heapEnd)
    ensures old(Coherent(heap.mmu.tlb, heap.mmu.view.pages)) && heap.backed ==>
              Coherent(heap.mmu.tlb, heap.mmu.view.pages)
    decreases |sizes|
  {
    hide Tree, PageTable.Walk, Accounted, GoodBitmap, Coherent, Needed, H.NothingPast, H.KmallocStep, H.GoodHeap,
         H.OwnData, H.AllBacked, H.Disjoint, H.SameOutsideHeap;
    H.SameOutsideItself(heap.mmu.Mem(), heap.mmu.l1Table);
    if sizes == [] { return false; }
    ghost var m := heap.mmu.Mem();
    var r := heap.Kmalloc(sizes[0]);
    if r.Halted? { return true; }
    ghost var m' := heap.mmu.Mem();
    halted := Serve(heap, sizes[1..]);
    H.SameOutsideTwice(m, m', heap.mmu.Mem(), heap.mmu.l1Table);
  }

  /** Address `a` translates into the data frame of its own heap page. */
  ghost predicate InOwnFrame(heap: H.Heap, a: Word)
    requires heap.mmu.pmm.Valid()
    reads heap, heap.mmu, heap.mmu.pmm, heap.mmu.pmm.ram
  {
    && H.HEAP_BASE <= a
    && var k := (a - H.HEAP_BASE) / PAGE_SIZE;
       && k < |heap.frames| && H.HoldsData(heap.mmu.role, k, heap.frames[k])
       && PageTable.Walk(heap.mmu.Mem(), heap.mmu.l1Table, a) == heap.frames[k] + a % PAGE_SIZE
  }

  /** Every byte of every record and block of the filesystem. */
  ghost predicate Occupied(fs: F.FileSystem, a: nat)
    reads fs
  {
    || (exists p :: p in fs.inodes && p <= a < p + INODE_SIZE)
    || (exists b :: b in fs.blocks && b <= a < b + BLOCK_SIZE)
  }

  /** Filesystem memory over page tables: every byte is mapped into the frame of its page, different bytes to
      different physical addresses, and past the heap nothing is mapped. */
  lemma FilesTranslate(heap: H.Heap, fs: F.FileSystem)
    requires heap.Valid() && heap.backed && fs.Valid() && fs.heap == heap.State()
    requires H.NothingPast(heap.mmu.view, heap.heapEnd)
    ensures forall a: Word :: Occupied(fs, a) ==> InOwnFrame(heap, a)
    ensures forall a1: Word, a2: Word :: Occupied(fs, a1) && Occupied(fs, a2) && a1 != a2 ==>
              PageTable.Walk(heap.mmu.Mem(), heap.mmu.l1Table, a1) !=
              PageTable.Walk(heap.mmu.Mem(), heap.mmu.l1Table, a2)
    ensures forall a: Word :: heap.heapEnd <= a < H.HEAP_LIMIT ==>
              PageTable.Walk(heap.mmu.Mem(), heap.mmu.l1Table, a) == NO_ADDRESS
  {
    hide Tree, PageTable.Walk, Accounted, Linked, AllSized, TightExcept, H.AllBacked, H.Disjoint, H.NothingPast, And;
    forall a: Word | Occupied(fs, a) ensures H.HEAP_BASE <= a < heap.heapEnd {}
    forall a: Word | Occupied(fs, a) ensures InOwnFrame(heap, a) { heap.Translates(a); }
    forall a1: Word, a2: Word | Occupied(fs, a1) && Occupied(fs, a2) && a1 != a2
      ensures PageTable.Walk(heap.mmu.Mem(), heap.mmu.l1Table, a1) !=
              PageTable.Walk(heap.mmu.Mem(), heap.mmu.l1Table, a2)
    {
      heap.DistinctAddresses(a1, a2);
    }
    forall a: Word | heap.heapEnd <= a < H.HEAP_LIMIT
      ensures PageTable.Walk(heap.mmu.Mem(), heap.mmu.l1Table, a) == NO_ADDRESS
    {
      heap.PastEnd(a);
    }
  }

  lemma KernelRequestsFit(lines: seq<Text>)
    ensures forall i :: 0 <= i < |KernelRequests(lines)| ==> KernelRequests(lines)[i] <= BLOCK_SIZE
  {
    hide S.ScriptRequests, Script;
    S.RequestsFitBlocks(BOOT_STATE, Script(lines));
  }

  /** `kernel_main` from the first frame to the end of a script.  It halts exactly when the frames and the heap window
      that boot left cannot serve what the script asks, never within 253 allocating commands on an image that leaves 774
      frames.  Otherwise the shell ends where the abstract machine ends, and memory is in order underneath: the boot map
      is intact, the cache agrees, the filesystem's memory is mapped byte for byte, and nothing else is mapped outside
      the heap window. */
  method KernelMain(pt: PageTables, kernelEnd: nat, board: Board, lines: seq<Text>)
    returns (halted: bool, heap: H.Heap, shell: S.Shell?, outs: seq<seq<byte>>)
    requires board == PI3 || board == PI5
    requires pt.pmm.ram.Length == RAM_WORDS && 0x8_0000 <= kernelEnd <= LAST_BACKED_END && GoodScript(lines)
    modifies pt, pt.pmm, pt.pmm.ram
    ensures BootGeometry(kernelEnd).total >= 519
    ensures halted <==> H.RunHeap(BootHeap(BootGeometry(kernelEnd).total), KernelRequests(lines)).Panicked?
    ensures kernelEnd <= LAST_KERNEL_END && Allocating(Script(lines)) <= 253 ==> !halted
    ensures !halted ==>
              && shell != null && shell.Valid()
              && shell.Now() == ShellSpec.Run(BOOT_STATE, Script(lines)) && CwdAgrees(shell.Now())
              && outs == S.ScriptOutput(BOOT_STATE, lines)
    ensures halted ==> outs <= S.ScriptOutput(BOOT_STATE, lines)
    ensures !halted ==>
              && heap.mmu == pt && heap.Valid() && heap.backed && shell.fs.heap == heap.State()
              && H.NothingPast(pt.view, heap.heapEnd)
              && BootMap(pt.Mem(), pt.l1Table, board) && Coherent(pt.tlb, pt.view.pages)
              && (forall a: Word ::
                    a < 0x80_0000_0000 && !InRegions(board, a) && !(0x1_0000_0000 <= a < 0x1_0010_0000) ==>
                      PageTable.Walk(pt.Mem(), pt.l1Table, a) == 0xFFFF_FFFF_FFFF_FFFF)
              && (forall a: Word :: Occupied(shell.fs, a) ==> InOwnFrame(heap, a))
              && (forall a1: Word, a2: Word :: Occupied(shell.fs, a1) && Occupied(shell.fs, a2) && a1 != a2 ==>
                    PageTable.Walk(pt.Mem(), pt.l1Table, a1) != PageTable.Walk(pt.Mem(), pt.l1Table, a2))
  {
    hide Tree, PageTable.Walk, Accounted, GoodBitmap, IdentityMap, BootMap, NothingElse, Coherent, Needed, BootGeometry,
         H.NothingPast, H.GoodHeap, H.OwnData, H.AllBacked, H.Disjoint, H.SameOutsideHeap, F.FileSystem.Valid,
         F.FileSystem.Abs, CwdAgrees, Script, S.ScriptRequests, S.ScriptOutput, KernelRequests, GoodScript, H.RunHeap,
         Occupied, InOwnFrame, Allocating;
    EnoughForOnePage(kernelEnd);
    KernelRequestsFit(lines);
    var stop, booted := BootMemory(pt, kernelEnd, board);
    heap := booted;
    ghost var m := pt.Mem();
    halted, shell, outs := RunSystem(BootHeap(pt.pmm.totalFrames), lines);
    if halted { return; }
    stop := Serve(heap, KernelRequests(lines));
    H.BootMapKept(m, pt.Mem(), pt.l1Table, board);
    BackedFiles(shell.fs);
    FilesTranslate(heap, shell.fs);
  }

  lemma BackedFiles(fs: F.FileSystem)
    requires fs.Valid()
    ensures fs.heap.backed
  {
    hide Linked, AllSized, TightExcept;
  }
}
