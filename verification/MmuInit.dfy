/** Boot: the frame allocator, the first-level table and the identity map of either board. */
module MmuInit {
  import opened Bits
  import opened Pmm
  import opened PageTable
  import opened Mmu

  const PTE_NORMAL_RW: Word := 0x703
  const PTE_DEVICE_RW: Word := 0x707
  const KERNEL_BASE: nat := 0x8_0000

  /** Device windows of a board. */
  datatype Board = Board(peripheralBase: Word, peripheralSize: Word, localBase: Word, localSize: Word)

  const PI3: Board := Board(0x3F00_0000, 0x0100_0000, 0x4000_0000, 0x1000)
  const PI5: Board := Board(0x1C_0000_0000, 0x41_0000, 0x10_7FFF_8000, 0x8000)

  /** Second-level and first-level slots that the identity map of a board needs. */
  function LeafSlots(board: Board): set<nat> {
    if board == PI3 then Below(513) else Below(508) + {33791, 57344, 57345, 57346}
  }

  function MidSlots(board: Board): set<nat> {
    if board == PI3 then {0, 1} else {0, 65, 112}
  }

  lemma SlotCounts(board: Board)
    requires board == PI3 || board == PI5
    ensures 1 + |MidSlots(board)| + |LeafSlots(board)| == 516
  {
    hide Below;
    assert |{33791, 57344, 57345, 57346}| == 4;
  }

  /** An address that boot maps: memory and the two device windows, which on the Pi 3 are one range. */
  predicate InRegions(board: Board, v: nat) {
    if board == PI3 then v < 0x4000_1000
    else v < 0x3F80_0000 || 0x10_7FFF_8000 <= v < 0x10_8000_0000 || 0x1C_0000_0000 <= v < 0x1C_0041_0000
  }

  /** What the kernel relies on after boot: the walker gives those addresses back unchanged. */
  ghost predicate IdentityMap(m: Memory, l1: Table, board: Board) {
    forall v: Word :: InRegions(board, v) ==> Walk(m, l1, v) == v
  }

  /** ... and nothing else is mapped. */
  ghost predicate NothingElse(m: Memory, l1: Table, board: Board) {
    forall v: Word :: v < 0x80_0000_0000 && !InRegions(board, v) ==> Walk(m, l1, v) == 0xFFFF_FFFF_FFFF_FFFF
  }

  /** Every address of `[lo, hi)` is mapped to itself by a descriptor with the bits of `flags`. */
  ghost predicate MappedAs(m: Memory, l1: Table, lo: nat, hi: nat, flags: Word) {
    forall v: Word :: lo <= v < hi ==> Walk(m, l1, v) == v && Maps(LeafWord(m, l1, v), v - v % 4096, flags)
  }

  /** The map of each board: memory is normal memory, 0x703, and the device windows are device memory, 0x707, also where
      the peripherals of the Pi 3 overlap the end of memory. */
  ghost predicate BootMap(m: Memory, l1: Table, board: Board) {
    if board == PI3 then
      && MappedAs(m, l1, 0, 0x3F00_0000, 0x703)
      && MappedAs(m, l1, 0x3F00_0000, 0x4000_1000, 0x707)
    else
      && MappedAs(m, l1, 0, 0x3F80_0000, 0x703)
      && MappedAs(m, l1, 0x10_7FFF_8000, 0x10_8000_0000, 0x707)
      && MappedAs(m, l1, 0x1C_0000_0000, 0x1C_0041_0000, 0x707)
  }

  lemma BootMapIsIdentity(m: Memory, l1: Table, board: Board)
    requires BootMap(m, l1, board)
    ensures IdentityMap(m, l1, board)
  {
    hide Walk, LeafWord, Maps;
  }

  /** Outside `[lo, lo + size)` no third-level word and no translation is different. */
  ghost predicate SameElsewhere(m: Memory, m': Memory, l1: Table, lo: nat, size: nat) {
    forall v: Word :: v < VA_SIZE && !(lo <= v < lo + size) ==>
      LeafWord(m', l1, v) == LeafWord(m, l1, v) && Walk(m', l1, v) == Walk(m, l1, v)
  }

  lemma MappedStays(m: Memory, m': Memory, l1: Table, lo: nat, hi: nat, flags: Word, at: nat, size: nat)
    requires MappedAs(m, l1, lo, hi, flags) && SameElsewhere(m, m', l1, at, size)
    requires hi <= VA_SIZE && (hi <= at || at + size <= lo)
    ensures MappedAs(m', l1, lo, hi, flags)
  {
    hide Walk, LeafWord, Maps;
  }

  ghost predicate WithinRegions(board: Board, lo: nat, size: nat) {
    forall v: nat :: lo <= v < lo + size ==> InRegions(board, v)
  }

  lemma FlagsHaveNoAddress()
    ensures And(PTE_NORMAL_RW, ADDR_MASK) == 0 && And(PTE_DEVICE_RW, ADDR_MASK) == 0
  {
    hide And;
    MaskBelow(PTE_NORMAL_RW);
    MaskBelow(PTE_DEVICE_RW);
  }

  lemma AndAtMost(a: nat, b: nat)
    ensures And(a, b) <= a
  {
  }

  lemma SmallMultiple(y: nat)
    requires y % PAGE_SIZE == 0 && y < PAGE_SIZE
    ensures y == 0
  {
  }

  lemma MaskBelow(x: Word)
    requires x < PAGE_SIZE
    ensures And(x, ADDR_MASK) == 0
  {
    hide And;
    AndAtMost(x, ADDR_MASK);
    AddressField(x);
    SmallMultiple(And(x, ADDR_MASK));
  }

  /** `[lo, lo + size)` lies in slots the board is known to need. */
  ghost predicate Expected(board: Board, lo: nat, size: nat) {
    && lo % PAGE_SIZE == 0 && size % PAGE_SIZE == 0 && lo + size <= VA_SIZE
    && (forall k: nat :: Touched(lo / PAGE_SIZE, size / PAGE_SIZE, LEAF_SPAN, k) ==> k in LeafSlots(board))
    && (forall k: nat :: Touched(lo / PAGE_SIZE, size / PAGE_SIZE, MID_SPAN, k) ==> k in MidSlots(board))
  }

  lemma RegionsExpected(board: Board, start: nat)
    requires board == PI3 || board == PI5
    requires start % PAGE_SIZE == 0 && KERNEL_BASE <= start <= PHYS_MEM_END
    ensures Expected(board, 0, KERNEL_BASE)
    ensures Expected(board, KERNEL_BASE, start - KERNEL_BASE)
    ensures Expected(board, start, PHYS_MEM_END - start)
    ensures Expected(board, board.peripheralBase, board.peripheralSize)
    ensures Expected(board, board.localBase, board.localSize)
  {
    hide Below;
  }

  /** Only expected tables exist so far, and no data frame. */
  ghost predicate Booting(pt: PageTables, board: Board)
    reads pt, pt.pmm, pt.pmm.ram
  {
    && pt.Valid() && pt.data == 0
    && pt.view.leaf.Keys <= LeafSlots(board) && pt.view.mid.Keys <= MidSlots(board)
  }

  /** With 516 frames, no expected page can be left without tables when the frames run out. */
  lemma EnoughFrames(pt: PageTables, board: Board, r: nat)
    requires board == PI3 || board == PI5
    requires Booting(pt, board) && pt.Spare() == 0 && r in LeafSlots(board) && r !in pt.view.leaf
    ensures pt.pmm.totalFrames < 516
  {
    hide LeafSlots, MidSlots;
    SlotCounts(board);
    CardinalityOfProperSubset(pt.view.leaf.Keys, LeafSlots(board));
    if pt.view.mid.Keys != MidSlots(board) { CardinalityOfProperSubset(pt.view.mid.Keys, MidSlots(board)); }
    assert |pt.view.leaf| == |pt.view.leaf.Keys| && |pt.view.mid| == |pt.view.mid.Keys|;
  }

  /** One identity `map` of the boot sequence. */
  method MapIdentity(pt: PageTables, board: Board, lo: Word, size: Word, flags: Word)
    requires board == PI3 || board == PI5
    requires Booting(pt, board) && Expected(board, lo, size) && And(flags, ADDR_MASK) == 0
    modifies pt.pmm.ram, pt`tlb, pt`view, pt`role
    ensures Booting(pt, board)
    ensures SameElsewhere(old(pt.Mem()), pt.Mem(), pt.l1Table, lo, size)
    ensures old(NothingElse(pt.Mem(), pt.l1Table, board)) && WithinRegions(board, lo, size) ==>
              NothingElse(pt.Mem(), pt.l1Table, board)
    ensures pt.pmm.totalFrames >= 516 ==> MappedAs(pt.Mem(), pt.l1Table, lo, lo + size, flags)
    ensures pt.pmm.totalFrames >= 516 && old(Coherent(pt.tlb, pt.view.pages)) ==> Coherent(pt.tlb, pt.view.pages)
  {
    hide And, Or, Walk, LeafWord, Maps, Tree, Accounted, GoodBitmap, LeafSlots, MidSlots, Touched, MapPages, Cost,
         Cached, Coherent, MoreTables, TablesCover, Counted, NothingElse, SameElsewhere, MappedAs, WithinRegions;
    ghost var m := pt.Mem();
    var done := pt.Map(lo, lo, size, flags);
    IdentityMapped(m, pt.Mem(), pt.l1Table, lo, size, done, flags);
    NothingElseKept(m, pt.Mem(), pt.l1Table, board, lo, size);
    if done < size / PAGE_SIZE {
      TouchedAt(lo / PAGE_SIZE, done, size / PAGE_SIZE);
      EnoughFrames(pt, board, (lo / PAGE_SIZE + done) / LEAF_SPAN);
    }
  }

  /** `map` with equal addresses, seen from the 39-bit range. */
  lemma IdentityMapped(m: Memory, m': Memory, l1: Table, lo: Word, size: Word, n: nat, flags: Word)
    requires lo % PAGE_SIZE == 0 && lo + size <= VA_SIZE && n <= size / PAGE_SIZE && size % PAGE_SIZE == 0
    requires forall virt: Word ::
               var a := virt % 0x80_0000_0000;
               Walk(m', l1, virt) == if lo <= a < lo + 4096 * n then lo + (a - lo) else Walk(m, l1, virt)
    requires forall virt: Word ::
               var a := virt % 0x80_0000_0000;
               if lo <= a < lo + 4096 * n then Maps(LeafWord(m', l1, virt), lo + (a - lo) / 4096 * 4096, flags)
               else LeafWord(m', l1, virt) == LeafWord(m, l1, virt)
    ensures SameElsewhere(m, m', l1, lo, size)
    ensures n == size / PAGE_SIZE ==> MappedAs(m', l1, lo, lo + size, flags)
  {
    hide Walk, LeafWord, Maps;
    forall v: Word | v < VA_SIZE && !(lo <= v < lo + size)
      ensures LeafWord(m', l1, v) == LeafWord(m, l1, v) && Walk(m', l1, v) == Walk(m, l1, v)
    {
      assert v % 0x80_0000_0000 == v;
    }
    if n == size / PAGE_SIZE {
      forall v: Word | lo <= v < lo + size
        ensures Walk(m', l1, v) == v && Maps(LeafWord(m', l1, v), v - v % 4096, flags)
      {
        assert v % 0x80_0000_0000 == v;
        PageOfRange(lo, v);
      }
    }
  }

  lemma PageOfRange(lo: nat, v: nat)
    requires lo % 4096 == 0 && lo <= v
    ensures lo + (v - lo) / 4096 * 4096 == v - v % 4096
  {
  }

  lemma NothingElseKept(m: Memory, m': Memory, l1: Table, board: Board, lo: nat, size: nat)
    requires SameElsewhere(m, m', l1, lo, size)
    ensures NothingElse(m, l1, board) && WithinRegions(board, lo, size) ==> NothingElse(m', l1, board)
  {
    hide Walk, LeafWord;
  }

  lemma TouchedAt(p0: nat, k: nat, n: nat)
    requires k < n
    ensures Touched(p0, n, LEAF_SPAN, (p0 + k) / LEAF_SPAN)
    ensures forall q: nat :: Touched(p0, k, LEAF_SPAN, q) ==> Touched(p0, n, LEAF_SPAN, q)
  {
    SlotsOrdered(p0, p0 + k, LEAF_SPAN);
    SlotsOrdered(p0 + k, p0 + n - 1, LEAF_SPAN);
    if k > 0 { SlotsOrdered(p0 + k - 1, p0 + n - 1, LEAF_SPAN); }
  }

  /** The allocator, one zeroed frame as first-level table, and an empty translation cache (`tlbi vmalle1`). */
  method InstallRoot(pt: PageTables, kernelEnd: nat) returns (halted: bool)
    requires pt.pmm.ram.Length == RAM_WORDS && kernelEnd <= PHYS_MEM_END
    modifies pt, pt.pmm, pt.pmm.ram
    ensures pt.pmm.Geo() == BootGeometry(kernelEnd)
    ensures halted <==> pt.pmm.totalFrames == 0
    ensures !halted ==>
              && pt.Valid() && pt.data == 0 && pt.tlb == map[]
              && pt.view == View(map[], map[], map[]) && |pt.role| == 1
              && forall v: Word :: Walk(pt.Mem(), pt.l1Table, v) == NO_ADDRESS
  {
    hide Tree, Accounted, SameBitmap, GoodBitmap, UsedFrames, BootGeometry, IsUsed, Walk, And;
    pt.pmm.PmmInit(kernelEnd);
    ghost var m0, g := pt.pmm.ram[..], pt.pmm.Geo();
    FirstFrame(m0, g);
    var page := pt.pmm.AllocFrame();
    if page == 0 { return true; }
    ghost var m1 := pt.pmm.ram[..];
    ZeroRootFrame(pt.pmm, page);
    pt.l1Table := page;
    pt.tlb := map[];
    pt.view := View(map[], map[], map[]);
    pt.role := map[page as Table := Root];
    pt.data := 0;
    assert pt.role.Keys == {page};
    AccountedSame(m1, pt.pmm.ram[..], g, {page});
    EmptyTree(pt.Mem(), page);
    forall v: Word ensures Walk(pt.Mem(), page, v) == NO_ADDRESS {
      WalkIsLookup(pt.Mem(), page, pt.view, pt.role, v);
    }
    halted := false;
  }

  lemma EmptyTree(m: Memory, l1: Table)
    requires ZeroTable(m, l1)
    ensures Tree(m, l1, View(map[], map[], map[]), map[l1 := Root])
  {
  }

  /** Zero the frame that becomes the first-level table. */
  method ZeroRootFrame(pmm: Allocator, page: Table)
    requires pmm.Valid() && IsFrame(pmm.Geo(), page)
    modifies pmm.ram
    ensures pmm.Valid() && SameBitmap(old(pmm.ram[..]), pmm.ram[..], pmm.Geo()) && ZeroTable(pmm.ram[..], page)
  {
    hide IsUsed, Padded;
    for i := 0 to 512
      invariant pmm.Valid() && SameBitmap(old(pmm.ram[..]), pmm.ram[..], pmm.Geo())
      invariant forall j: nat :: j < i ==> Slot(pmm.ram[..], page, j) == 0
    {
      ghost var m := pmm.ram[..];
      PutKeepsBitmap(m, pmm.Geo(), page, i, 0);
      forall j: nat | j < i + 1 ensures Slot(Put(m, page, i, 0), page, j) == 0 { PutSlot(m, page, i, 0, page, j); }
      pmm.ram[page / 8 + i] := 0;
      assert pmm.ram[..] == Put(m, page, i, 0);
    }
  }

  /** From an empty bitmap the first allocation takes frame 0, unless there is no frame at all. */
  lemma FirstFrame(m: Memory, g: Geometry)
    requires GoodBitmap(m, g) && (g.total > 0 ==> g.start > 0) && UsedFrames(m, g) == {}
    ensures var (addr, m') := AllocStep(m, g);
            && |m'| == RAM_WORDS && GoodBitmap(m', g)
            && (addr == 0 <==> g.total == 0)
            && (addr != 0 ==> IsTable(addr) && IsFrame(g, addr) && Accounted(m', g, {addr}))
  {
    AllocTakesLowest(m, g);
    if g.total > 0 {
      assert 0 in Below(g.total);
      assert IsUsed(m, g, 0) <==> 0 in UsedFrames(m, g);
      forall j: nat | j < g.total ensures IsUsed(SetUsed(m, g, 0), g, j) == (j == 0) {
        SetUsedBit(m, g, 0, j);
        assert IsUsed(m, g, j) <==> j in UsedFrames(m, g);
      }
    }
  }

  /** An address in each slot the board needs, inside the identity-mapped ranges. */
  function SlotAddress(board: Board, k: nat): nat {
    if k == 33791 then board.localBase else PAGE_SIZE * LEAF_SPAN * k
  }

  lemma SlotAddressMapped(board: Board, m: Memory, l1: Table, k: nat)
    requires (board == PI3 || board == PI5) && IdentityMap(m, l1, board) && k in LeafSlots(board)
    ensures var a := SlotAddress(board, k);
            a < VA_SIZE && Walk(m, l1, a) == a && PageOf(a) / LEAF_SPAN == k
  {
    hide Below, Walk;
  }

  /** An identity map needs all 516 frames: it holds in no state with fewer tables. */
  lemma IdentityNeedsTables(board: Board, m: Memory, l1: Table, v: View, role: map<Table, Role>)
    requires (board == PI3 || board == PI5) && Tree(m, l1, v, role) && IdentityMap(m, l1, board)
    ensures LeafSlots(board) <= v.leaf.Keys && MidSlots(board) <= v.mid.Keys
  {
    hide LeafSlots, Walk, IdentityMap, Represents, And;
    forall k | k in LeafSlots(board) ensures k in v.leaf && k / 512 in v.mid {
      SlotAddressMapped(board, m, l1, k);
      WalkIsLookup(m, l1, v, role, SlotAddress(board, k));
    }
    MidsOfLeaves(board);
  }

  lemma MidsOfLeaves(board: Board)
    requires board == PI3 || board == PI5
    ensures forall i :: i in MidSlots(board) ==> exists k :: k in LeafSlots(board) && k / 512 == i
  {
    hide Below;
    if board == PI3 {
      assert 0 in LeafSlots(board) && 512 in LeafSlots(board);
      assert 0 / 512 == 0 && 512 / 512 == 1;
    } else {
      assert 0 in LeafSlots(board) && 33791 in LeafSlots(board) && 57344 in LeafSlots(board);
      assert 0 / 512 == 0 && 33791 / 512 == 65 && 57344 / 512 == 112;
    }
  }

  /** `mmu_init`, for either board.  Every kernel end in memory is covered: boot halts without any frame, and
      the identity map is complete exactly when the allocator starts with at least 516 frames, all of which
      it then uses. */
  method MmuInit(pt: PageTables, kernelEnd: nat, board: Board) returns (halted: bool)
    requires board == PI3 || board == PI5
    requires pt.pmm.ram.Length == RAM_WORDS && 0x8_0000 <= kernelEnd <= 0x3F80_0000
    modifies pt, pt.pmm, pt.pmm.ram
    ensures pt.pmm.Geo() == BootGeometry(kernelEnd)
    ensures halted <==> pt.pmm.totalFrames == 0
    ensures !halted ==> pt.Valid() && pt.data == 0 && NothingElse(pt.Mem(), pt.l1Table, board)
    ensures !halted ==> (IdentityMap(pt.Mem(), pt.l1Table, board) <==> pt.pmm.totalFrames >= 516)
    ensures !halted && pt.pmm.totalFrames >= 516 ==> BootMap(pt.Mem(), pt.l1Table, board)
    ensures !halted && pt.pmm.totalFrames >= 516 ==>
              && |pt.role| == 516 && Coherent(pt.tlb, pt.view.pages)
              && pt.view.leaf.Keys == LeafSlots(board) && pt.view.mid.Keys == MidSlots(board)
  {
    hide And, Or, Walk, Tree, Accounted, GoodBitmap, LeafSlots, MidSlots, Expected, BootMap, IdentityMap;
    halted := InstallRoot(pt, kernelEnd);
    if halted { return; }
    BootStartAboveKernel(kernelEnd);
    RegionsExpected(board, pt.pmm.physMemStart);
    FlagsHaveNoAddress();
    MapRegions(pt, board);
    if pt.pmm.totalFrames >= 516 { BootMapIsIdentity(pt.Mem(), pt.l1Table, board); }
    BootedWith516(pt, board);
  }

  lemma BootStartAboveKernel(kernelEnd: nat)
    requires KERNEL_BASE <= kernelEnd <= PHYS_MEM_END
    ensures var g := BootGeometry(kernelEnd);
            KERNEL_BASE <= g.start <= PHYS_MEM_END && g.start % PAGE_SIZE == 0
  {
    BootGeometryIsGood(kernelEnd);
  }

  /** The first three regions: low memory, kernel and bitmap, and free memory. */
  method MapMemory(pt: PageTables, board: Board)
    requires board == PI3 || board == PI5
    requires Booting(pt, board) && pt.tlb == map[] && NothingElse(pt.Mem(), pt.l1Table, board)
    requires Expected(board, 0, KERNEL_BASE)
    requires KERNEL_BASE <= pt.pmm.physMemStart <= PHYS_MEM_END
    requires Expected(board, KERNEL_BASE, pt.pmm.physMemStart - KERNEL_BASE)
    requires Expected(board, pt.pmm.physMemStart, PHYS_MEM_END - pt.pmm.physMemStart)
    requires And(PTE_NORMAL_RW, ADDR_MASK) == 0
    modifies pt.pmm.ram, pt`tlb, pt`view, pt`role
    ensures Booting(pt, board) && NothingElse(pt.Mem(), pt.l1Table, board)
    ensures pt.pmm.totalFrames >= 516 ==>
              MappedAs(pt.Mem(), pt.l1Table, 0, 0x3F80_0000, 0x703) && Coherent(pt.tlb, pt.view.pages)
  {
    hide And, Or, Walk, LeafWord, Maps, MappedAs, SameElsewhere, Tree, Accounted, GoodBitmap, LeafSlots, MidSlots,
         Expected, NothingElse;
    var start := pt.pmm.physMemStart;
    ghost var enough, l1 := pt.pmm.totalFrames >= 516, pt.l1Table;
    assert WithinRegions(board, 0, KERNEL_BASE);
    assert WithinRegions(board, KERNEL_BASE, start - KERNEL_BASE);
    assert WithinRegions(board, start, PHYS_MEM_END - start);
    MapIdentity(pt, board, 0, KERNEL_BASE, PTE_NORMAL_RW);
    ghost var m1 := pt.Mem();
    MapIdentity(pt, board, KERNEL_BASE, start - KERNEL_BASE, PTE_NORMAL_RW);
    ghost var m2 := pt.Mem();
    if enough {
      MappedStays(m1, m2, l1, 0, KERNEL_BASE, 0x703, KERNEL_BASE, start - KERNEL_BASE);
      MappedJoined(m2, l1, 0, KERNEL_BASE, start, 0x703);
    }
    MapIdentity(pt, board, start, PHYS_MEM_END - start, PTE_NORMAL_RW);
    if enough {
      MappedStays(m2, pt.Mem(), l1, 0, start, 0x703, start, PHYS_MEM_END - start);
      MappedJoined(pt.Mem(), l1, 0, start, PHYS_MEM_END, 0x703);
    }
  }

  lemma MappedJoined(m: Memory, l1: Table, lo: nat, mid: nat, hi: nat, flags: Word)
    requires MappedAs(m, l1, lo, mid, flags) && MappedAs(m, l1, mid, hi, flags)
    ensures MappedAs(m, l1, lo, hi, flags)
  {
    hide Walk, LeafWord, Maps;
  }

  /** The five regions: memory, and after it the two device windows, so that a window wins where it overlaps memory. */
  method MapRegions(pt: PageTables, board: Board)
    requires board == PI3 || board == PI5
    requires Booting(pt, board) && pt.tlb == map[] && NothingElse(pt.Mem(), pt.l1Table, board)
    requires Expected(board, 0, KERNEL_BASE)
    requires KERNEL_BASE <= pt.pmm.physMemStart <= PHYS_MEM_END
    requires Expected(board, KERNEL_BASE, pt.pmm.physMemStart - KERNEL_BASE)
    requires Expected(board, pt.pmm.physMemStart, PHYS_MEM_END - pt.pmm.physMemStart)
    requires Expected(board, board.peripheralBase, board.peripheralSize)
    requires Expected(board, board.localBase, board.localSize)
    requires And(PTE_NORMAL_RW, ADDR_MASK) == 0 && And(PTE_DEVICE_RW, ADDR_MASK) == 0
    modifies pt.pmm.ram, pt`tlb, pt`view, pt`role
    ensures Booting(pt, board) && NothingElse(pt.Mem(), pt.l1Table, board)
    ensures pt.pmm.totalFrames >= 516 ==>
              BootMap(pt.Mem(), pt.l1Table, board) && Coherent(pt.tlb, pt.view.pages)
  {
    hide And, Or, Walk, LeafWord, Maps, MappedAs, SameElsewhere, Tree, Accounted, GoodBitmap, LeafSlots, MidSlots,
         Expected, NothingElse;
    assert WithinRegions(board, board.peripheralBase, board.peripheralSize);
    assert WithinRegions(board, board.localBase, board.localSize);
    MapMemory(pt, board);
    ghost var m1 := pt.Mem();
    MapIdentity(pt, board, board.peripheralBase, board.peripheralSize, PTE_DEVICE_RW);
    ghost var m2 := pt.Mem();
    MapIdentity(pt, board, board.localBase, board.localSize, PTE_DEVICE_RW);
    if pt.pmm.totalFrames >= 516 { WindowsWin(m1, m2, pt.Mem(), pt.l1Table, board); }
  }

  lemma WindowsWin(m1: Memory, m2: Memory, m3: Memory, l1: Table, board: Board)
    requires (board == PI3 || board == PI5) && MappedAs(m1, l1, 0, 0x3F80_0000, 0x703)
    requires SameElsewhere(m1, m2, l1, board.peripheralBase, board.peripheralSize)
    requires MappedAs(m2, l1, board.peripheralBase, board.peripheralBase + board.peripheralSize, 0x707)
    requires SameElsewhere(m2, m3, l1, board.localBase, board.localSize)
    requires MappedAs(m3, l1, board.localBase, board.localBase + board.localSize, 0x707)
    ensures BootMap(m3, l1, board)
  {
    hide Walk, LeafWord, Maps, MappedAs, SameElsewhere;
    var end := if board == PI3 then 0x3F00_0000 else 0x3F80_0000;
    var lo, hi := board.peripheralBase, board.peripheralBase + board.peripheralSize;
    MappedWithin(m1, l1, 0x3F80_0000, end, 0x703);
    MappedStays(m1, m2, l1, 0, end, 0x703, lo, board.peripheralSize);
    MappedStays(m2, m3, l1, 0, end, 0x703, board.localBase, board.localSize);
    MappedStays(m2, m3, l1, lo, hi, 0x707, board.localBase, board.localSize);
    if board == PI3 { MappedJoined(m3, l1, lo, hi, 0x4000_1000, 0x707); }
  }

  lemma MappedWithin(m: Memory, l1: Table, hi: nat, end: nat, flags: Word)
    requires MappedAs(m, l1, 0, hi, flags) && end <= hi
    ensures MappedAs(m, l1, 0, end, flags)
  {
    hide Walk, LeafWord, Maps;
  }

  lemma BootedWith516(pt: PageTables, board: Board)
    requires (board == PI3 || board == PI5) && Booting(pt, board)
    requires pt.pmm.totalFrames >= 516 ==> IdentityMap(pt.Mem(), pt.l1Table, board)
    ensures IdentityMap(pt.Mem(), pt.l1Table, board) <==> pt.pmm.totalFrames >= 516
    ensures pt.pmm.totalFrames >= 516 ==>
              |pt.role| == 516 && pt.view.leaf.Keys == LeafSlots(board) && pt.view.mid.Keys == MidSlots(board)
  {
    hide LeafSlots, MidSlots, Tree, Walk, Accounted;
    SlotCounts(board);
    if IdentityMap(pt.Mem(), pt.l1Table, board) {
      IdentityNeedsTables(board, pt.Mem(), pt.l1Table, pt.view, pt.role);
      assert pt.view.leaf.Keys == LeafSlots(board) && pt.view.mid.Keys == MidSlots(board);
      assert |pt.view.leaf| == |pt.view.leaf.Keys| && |pt.view.mid| == |pt.view.mid.Keys|;
      pt.SpareNatural();
    }
  }
}
