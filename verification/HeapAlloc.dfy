/** The kernel heap: a bump allocator whose pages are backed by fresh frames as the bump pointer needs them. */
module HeapAlloc {
  import opened Bits
  import opened Pmm
  import opened PageTable
  import opened Mmu
  import opened MmuInit

  const HEAP_BASE: nat := 0x1_0000_0000
  const HEAP_MAX_SIZE: nat := 0x10_0000
  const HEAP_LIMIT: nat := HEAP_BASE + HEAP_MAX_SIZE
  const HEAP_PAGE: nat := HEAP_BASE / PAGE_SIZE
  const HEAP_PAGES: nat := HEAP_MAX_SIZE / PAGE_SIZE

  // ---- The heap as a machine on values ----

  /** `spare`: frames the allocator has left; `need`: tables still missing for the heap's 2 MiB region;
      `backed`: every page below `end` translates. */
  datatype HeapState = HeapState(bump: nat, end: nat, spare: nat, need: nat, backed: bool)

  datatype Allocation = Halted | Allocated(addr: nat)

  function Aligned(size: nat): (a: nat)
    ensures size <= a < size + 16 && a % 16 == 0
  {
    (size + 15) / 16 * 16
  }

  /** One page of backing: a frame for the data, then the missing tables if enough frames are left for them.
      Otherwise `map` gives up in silence and the page stays without a translation. */
  function GrowOnce(s: HeapState): HeapState
    requires s.spare > 0
  {
    if s.need < s.spare
    then s.(end := s.end + PAGE_SIZE, spare := s.spare - 1 - s.need, need := 0)
    else s.(end := s.end + PAGE_SIZE, spare := 0, need := s.need - (s.spare - 1), backed := false)
  }

  /** Back pages up to `limit`; `Option`-like: no state when the frames run out (the kernel panics). */
  datatype Grown = OutOfFrames | Grown(state: HeapState)

  function Grow(s: HeapState, limit: nat): Grown
    decreases limit - s.end
  {
    if limit <= s.end then Grown.Grown(s)
    else if s.spare == 0 then OutOfFrames
    else Grow(GrowOnce(s), limit)
  }

  function KmallocStep(s: HeapState, size: nat): (Allocation, HeapState) {
    var required := s.bump + Aligned(size);
    if required > HEAP_LIMIT then (Halted, s) else
    match Grow(s, required)
    case OutOfFrames => (Halted, s)
    case Grown(s') => (Allocated(s.bump), s'.(bump := required))
  }

  /** The states `kheap_init` and `kmalloc` produce. */
  predicate GoodHeap(s: HeapState) {
    && HEAP_BASE <= s.bump <= s.end <= HEAP_LIMIT
    && s.bump % 16 == 0 && s.end % PAGE_SIZE == 0
    && s.need <= 2
    && (s.backed && s.end > HEAP_BASE ==> s.need == 0)
    && (!s.backed ==> s.end == HEAP_BASE + PAGE_SIZE && s.spare == 0)
  }

  /** Pages that must still be backed to reach `limit`. */
  function PagesFor(s: HeapState, limit: nat): nat {
    if limit <= s.end then 0 else (limit - s.end + 4095) / 4096
  }

  /** The one way `kmalloc` succeeds without backing: the first heap page, with enough frames for its data
      but not for its tables. */
  predicate Starves(s: HeapState, limit: nat) {
    PagesFor(s, limit) == 1 && 1 <= s.spare <= s.need
  }

  predicate Affords(s: HeapState, limit: nat) {
    PagesFor(s, limit) == 0 || PagesFor(s, limit) + s.need <= s.spare
  }

  /** The state after `n` pages with all tables in place. */
  function Backed(s: HeapState, n: nat): HeapState
    requires n == 0 || n + s.need <= s.spare
  {
    if n == 0 then s else s.(end := s.end + PAGE_SIZE * n, spare := s.spare - n - s.need, need := 0)
  }

  lemma OnePageFewer(s: HeapState, limit: nat)
    requires s.end < limit && s.spare > 0
    ensures PagesFor(GrowOnce(s), limit) == PagesFor(s, limit) - 1
  {
    var d := limit - s.end;
    assert d > PAGE_SIZE ==> (d - PAGE_SIZE + 4095) / 4096 == (d + 4095) / 4096 - 1;
  }

  /** Exactly what growing does, for every number of pages and frames. */
  lemma {:induction false} GrowExact(s: HeapState, limit: nat)
    requires GoodHeap(s) && s.backed && limit <= HEAP_LIMIT
    ensures Affords(s, limit) ==> Grow(s, limit) == Grown.Grown(Backed(s, PagesFor(s, limit)))
    ensures Starves(s, limit) ==>
              Grow(s, limit) ==
                Grown.Grown(s.(end := s.end + PAGE_SIZE, spare := 0, need := s.need - s.spare + 1, backed := false))
    ensures !Affords(s, limit) && !Starves(s, limit) ==> Grow(s, limit) == OutOfFrames
    decreases limit - s.end
  {
    if s.end < limit && s.spare > 0 {
      var s' := GrowOnce(s);
      OnePageFewer(s, limit);
      EndStaysInWindow(s, limit);
      if s'.backed {
        GrowExact(s', limit);
      }
    }
  }

  lemma GrownIsGood(s: HeapState)
    requires GoodHeap(s) && s.end < HEAP_LIMIT && s.spare > 0
    ensures GoodHeap(GrowOnce(s))
  {
    EndStaysInWindow(s, HEAP_LIMIT);
  }

  lemma EndInWindow(s: HeapState, k: nat)
    requires GoodHeap(s) && s.end < HEAP_LIMIT && s.end == HEAP_BASE + PAGE_SIZE * k
    ensures k < HEAP_PAGES && (s.backed || s.spare == 0)
  {
  }

  lemma EndStaysInWindow(s: HeapState, limit: nat)
    requires GoodHeap(s) && s.end < limit <= HEAP_LIMIT
    ensures s.end + PAGE_SIZE <= HEAP_LIMIT && (s.end + PAGE_SIZE) % PAGE_SIZE == 0
  {
  }

  /** `kmalloc` from a backed heap: when it halts, when it succeeds with every page backed, and the only case
      in which it hands out memory that does not translate. */
  lemma KmallocExact(s: HeapState, size: nat)
    requires GoodHeap(s) && s.backed
    ensures var limit := s.bump + Aligned(size);
            var (r, s') := KmallocStep(s, size);
            && GoodHeap(s')
            && (r.Halted? <==> limit > HEAP_LIMIT || (!Affords(s, limit) && !Starves(s, limit)))
            && (r.Allocated? ==> r.addr == s.bump && s'.bump == limit && s'.bump <= s'.end)
            && (r.Allocated? ==> (s'.backed <==> !Starves(s, limit)))
            && (r.Allocated? && s'.backed ==> s' == Backed(s, PagesFor(s, limit)).(bump := limit))
  {
    hide Grow, Aligned, PagesFor, Affords, Starves;
    var limit := s.bump + Aligned(size);
    if limit <= HEAP_LIMIT {
      GrowExact(s, limit);
      BackedIsGood(s, limit);
      StarvedIsGood(s, limit);
    }
  }

  lemma BackedIsGood(s: HeapState, limit: nat)
    requires GoodHeap(s) && s.backed && s.bump <= limit <= HEAP_LIMIT && limit % 16 == 0
    ensures Affords(s, limit) ==>
              && !Starves(s, limit) && GoodHeap(Backed(s, PagesFor(s, limit)).(bump := limit))
              && Backed(s, PagesFor(s, limit)).backed
  {
    PagesReach(s, limit);
    hide PagesFor;
    if PagesFor(s, limit) > 0 { assert (s.end + PAGE_SIZE * PagesFor(s, limit)) % PAGE_SIZE == 0; }
  }

  lemma StarvedIsGood(s: HeapState, limit: nat)
    requires GoodHeap(s) && s.backed && s.bump <= limit <= HEAP_LIMIT && limit % 16 == 0
    ensures Starves(s, limit) ==>
              && s.need > 0 && s.end == HEAP_BASE && limit <= s.end + PAGE_SIZE
              && s.need - s.spare + 1 <= 2
  {
    if Starves(s, limit) { PagesReach(s, limit); }
  }

  lemma PagesReach(s: HeapState, limit: nat)
    requires GoodHeap(s) && limit <= HEAP_LIMIT
    ensures var n := PagesFor(s, limit);
            limit <= s.end + PAGE_SIZE * n <= HEAP_LIMIT && (n > 0 ==> s.end + PAGE_SIZE * n < limit + PAGE_SIZE)
  {
  }

  // ---- Whole runs ----

  function Total(sizes: seq<nat>): nat {
    if sizes == [] then 0 else Aligned(sizes[0]) + Total(sizes[1..])
  }

  lemma {:induction false} TotalInParts(a: seq<nat>, b: seq<nat>)
    ensures Total(a + b) == Total(a) + Total(b)
    decreases |a|
  {
    if a == [] {
      assert a + b == b;
    } else {
      assert (a + b)[1..] == a[1..] + b;
      TotalInParts(a[1..], b);
    }
  }

  datatype Run = Panicked | Survived(state: HeapState)

  function RunHeap(s: HeapState, sizes: seq<nat>): Run
    decreases |sizes|
  {
    if sizes == [] then Survived(s) else
      var (r, s') := KmallocStep(s, sizes[0]);
      if r.Halted? then Panicked else RunHeap(s', sizes[1..])
  }

  /** Frames a backed heap has used: one per page and, once there is a page, the tables it began without. */
  function FramesUsed(s: HeapState, need: nat): nat {
    var n := (s.end - HEAP_BASE) as int / PAGE_SIZE;
    if n <= 0 then 0 else n + need
  }

  /** Frame budget: with one frame per page of the window and one per missing table, every sequence of
      requests that fits the window succeeds, leaves every page backed, and uses exactly one frame per page
      plus the missing tables. */
  lemma {:induction false} BudgetSuffices(s0: HeapState, s: HeapState, sizes: seq<nat>)
    requires GoodHeap(s0) && s0.bump == s0.end == HEAP_BASE && s0.backed && s0.spare >= HEAP_PAGES + s0.need
    requires GoodHeap(s) && s.backed && s.spare == s0.spare - FramesUsed(s, s0.need)
    requires s.need == if s.end == HEAP_BASE then s0.need else 0
    requires s.bump + Total(sizes) <= HEAP_LIMIT && s.end < s.bump + PAGE_SIZE
    ensures var r := RunHeap(s, sizes);
            && r.Survived? && r.state.backed && GoodHeap(r.state) && r.state.end < r.state.bump + PAGE_SIZE
            && r.state.bump == s.bump + Total(sizes)
            && r.state.spare == s0.spare - FramesUsed(r.state, s0.need)
    decreases |sizes|
  {
    hide KmallocStep, Grow;
    if sizes != [] {
      var limit := s.bump + Aligned(sizes[0]);
      KmallocExact(s, sizes[0]);
      PagesReach(s, limit);
      BudgetSuffices(s0, KmallocStep(s, sizes[0]).1, sizes[1..]);
    }
  }

  /** Room for `bytes` more bytes, with a frame for every page of the window not backed yet. */
  predicate Roomy(s: HeapState, bytes: nat) {
    && GoodHeap(s) && s.backed && s.bump + bytes <= HEAP_LIMIT
    && s.spare >= (HEAP_LIMIT - s.end) / 4096 + s.need
  }

  lemma RoomyStep(s: HeapState, size: nat, bytes: nat)
    requires Roomy(s, bytes) && Aligned(size) <= bytes
    ensures var (r, s') := KmallocStep(s, size);
            r.Allocated? && Roomy(s', bytes - Aligned(size))
  {
    hide Grow;
    KmallocExact(s, size);
    PagesReach(s, s.bump + Aligned(size));
  }

  /** No sequence of requests that fits the room halts. */
  lemma {:induction false} RoomyRun(s: HeapState, sizes: seq<nat>, bytes: nat)
    requires Roomy(s, bytes) && Total(sizes) <= bytes
    ensures var r := RunHeap(s, sizes);
            r.Survived? && Roomy(r.state, bytes - Total(sizes))
    decreases |sizes|
  {
    hide KmallocStep, Roomy;
    if sizes != [] {
      RoomyStep(s, sizes[0], bytes);
      RoomyRun(KmallocStep(s, sizes[0]).1, sizes[1..], bytes - Aligned(sizes[0]));
    }
  }

  /** A run that is served moves the bump pointer by what it asked for, and stays in the window. */
  lemma {:induction false} RunMovesBump(s: HeapState, sizes: seq<nat>)
    requires s.bump <= HEAP_LIMIT && RunHeap(s, sizes).Survived?
    ensures RunHeap(s, sizes).state.bump == s.bump + Total(sizes) <= HEAP_LIMIT
    decreases |sizes|
  {
    hide Grow;
    if sizes != [] { RunMovesBump(KmallocStep(s, sizes[0]).1, sizes[1..]); }
  }

  /** From boot with no table for the heap and 258 free frames: exactly the sequences of requests that fit 1 MiB are
      served, with one frame for every 4 KiB begun and two for tables. */
  lemma FreshHeapNeeds258(spare: nat, sizes: seq<nat>)
    requires spare >= 258
    ensures var r, n := RunHeap(HeapState(0x1_0000_0000, 0x1_0000_0000, spare, 2, true), sizes), Total(sizes);
            && (r.Survived? <==> n <= 0x10_0000)
            && (r.Survived? ==>
                  && r.state.backed && r.state.bump == 0x1_0000_0000 + n
                  && r.state.spare == spare - if n == 0 then 0 else (n + 4095) / 4096 + 2)
  {
    var s := HeapState(HEAP_BASE, HEAP_BASE, spare, 2, true);
    if Total(sizes) <= HEAP_MAX_SIZE {
      BudgetSuffices(s, s, sizes);
      PagesBegun(RunHeap(s, sizes).state, Total(sizes));
    } else if RunHeap(s, sizes).Survived? {
      RunMovesBump(s, sizes);
    }
  }

  lemma PagesBegun(s: HeapState, n: nat)
    requires GoodHeap(s) && s.bump == HEAP_BASE + n && s.end < s.bump + PAGE_SIZE
    ensures FramesUsed(s, 2) == if n == 0 then 0 else (n + 4095) / 4096 + 2
  {
  }

  /** Every request starts where the ones before it, rounded up to 16 bytes each, end. */
  lemma NextAddress(spare: nat, sizes: seq<nat>, size: nat)
    requires spare >= 258 && Total(sizes) + Aligned(size) <= 0x10_0000
    ensures var r := RunHeap(HeapState(0x1_0000_0000, 0x1_0000_0000, spare, 2, true), sizes);
            r.Survived? && KmallocStep(r.state, size).0 == Allocated(0x1_0000_0000 + Total(sizes))
  {
    hide KmallocStep;
    var s := HeapState(HEAP_BASE, HEAP_BASE, spare, 2, true);
    FreshHeapIsRoomy(spare);
    RoomyRun(s, sizes, HEAP_MAX_SIZE);
    FreshHeapNeeds258(spare, sizes);
    RoomyStep(RunHeap(s, sizes).state, size, HEAP_MAX_SIZE - Total(sizes));
    KmallocExact(RunHeap(s, sizes).state, size);
  }

  lemma FreshHeapIsRoomy(spare: nat)
    requires spare >= 258
    ensures var h := HeapState(HEAP_BASE, HEAP_BASE, spare, 2, true);
            GoodHeap(h) && Roomy(h, HEAP_MAX_SIZE)
  {
  }

  /** One frame less is not enough: filling the window then runs out. */
  lemma With257Frames()
    ensures RunHeap(HeapState(0x1_0000_0000, 0x1_0000_0000, 257, 2, true), [0x10_0000]).Panicked?
  {
    var s := HeapState(HEAP_BASE, HEAP_BASE, 257, 2, true);
    KmallocExact(s, HEAP_MAX_SIZE);
  }

  /** The documented promise that every allocated address is backed fails with one or two frames left:
      the request succeeds and its page does not translate. */
  lemma UnbackedExample()
    ensures var (r, s') := KmallocStep(HeapState(HEAP_BASE, HEAP_BASE, 2, 2, true), 16);
            r == Allocated(HEAP_BASE) && !s'.backed
  {
    KmallocExact(HeapState(HEAP_BASE, HEAP_BASE, 2, 2, true), 16);
  }

  // ---- The allocator itself ----

  /** An address range handed out. */
  datatype Block = Block(addr: nat, size: nat)

  /** Ranges in the order handed out: inside the window, 16-byte aligned, none reaching into a later one. */
  ghost predicate Disjoint(blocks: seq<Block>, bump: nat) {
    && (forall i :: 0 <= i < |blocks| ==>
          HEAP_BASE <= blocks[i].addr && blocks[i].addr % 16 == 0 && blocks[i].addr + blocks[i].size <= bump)
    && (forall i, j :: 0 <= i < j < |blocks| ==> blocks[i].addr + blocks[i].size <= blocks[j].addr)
  }

  /** Page `k` of the heap is backed by frame `f`, as normal memory. */
  ghost predicate BackedBy(v: View, k: nat, f: Table) {
    HEAP_PAGE + k in v.pages && Maps(v.pages[HEAP_PAGE + k], f, 0x703)
  }

  /** Frame `k` of the heap is the data frame of page `k` and of nothing else. */
  ghost predicate HoldsData(role: map<Table, Role>, k: nat, f: Table) {
    f in role && role[f] == Data(k)
  }

  ghost predicate OwnData(role: map<Table, Role>, frames: seq<Table>) {
    forall k :: 0 <= k < |frames| ==> HoldsData(role, k, frames[k])
  }

  ghost predicate AllBacked(v: View, frames: seq<Table>) {
    forall k :: 0 <= k < |frames| ==> BackedBy(v, k, frames[k])
  }

  /** No page of the heap's 2 MiB region is mapped from address `end` on. */
  ghost predicate NothingPast(v: View, end: nat) {
    forall p :: p in v.pages && p / LEAF_SPAN == HEAP_PAGE / 512 ==> PAGE_SIZE * p < end
  }

  class Heap {
    const mmu: PageTables
    var bumpPtr: nat
    var heapEnd: nat
    ghost var frames: seq<Table>
    ghost var blocks: seq<Block>
    ghost var backed: bool

    constructor (mmu: PageTables)
      ensures this.mmu == mmu
    {
      this.mmu := mmu;
    }

    ghost function State(): HeapState
      requires mmu.Valid()
      reads this, mmu, mmu.pmm, mmu.pmm.ram
    {
      mmu.SpareNatural();
      HeapState(bumpPtr, heapEnd, mmu.Spare(), Needed(mmu.view, HEAP_PAGE), backed)
    }

    ghost predicate Valid()
      reads this, mmu, mmu.pmm, mmu.pmm.ram
    {
      && mmu.Valid() && GoodHeap(State())
      && heapEnd == HEAP_BASE + PAGE_SIZE * |frames| && mmu.data == |frames|
      && OwnData(mmu.role, frames)
      && (backed ==> AllBacked(mmu.view, frames))
      && (!backed ==> HEAP_PAGE !in mmu.view.pages)
      && Disjoint(blocks, bumpPtr)
    }

    /** `kheap_init` */
    method KheapInit()
      requires mmu.Valid() && mmu.data == 0
      modifies this
      ensures Valid() && backed && blocks == []
      ensures State() == HeapState(HEAP_BASE, HEAP_BASE, mmu.Spare(), Needed(mmu.view, HEAP_PAGE), true)
    {
      hide And, Walk, Tree, Accounted;
      mmu.SpareNatural();
      bumpPtr := HEAP_BASE;
      heapEnd := HEAP_BASE;
      frames, blocks, backed := [], [], true;
    }

    /** Any address below `heapEnd` translates when the heap is backed, through a descriptor for normal memory. */
    lemma Translates(virt: Word)
      requires Valid() && backed && 0x1_0000_0000 <= virt < heapEnd
      ensures var k := (virt - 0x1_0000_0000) / 4096;
              && k < |frames| && Walk(mmu.Mem(), mmu.l1Table, virt) == frames[k] + virt % 4096
              && Maps(LeafWord(mmu.Mem(), mmu.l1Table, virt), frames[k], 0x703)
    {
      hide And, Walk, LeafWord, Maps, Tree, Accounted;
      var k := (virt - HEAP_BASE) / PAGE_SIZE;
      assert PageOf(virt) == HEAP_PAGE + k;
      WalkIsLookup(mmu.Mem(), mmu.l1Table, mmu.view, mmu.role, virt);
      LeafWordIs(mmu.Mem(), mmu.l1Table, mmu.view, mmu.role, virt);
      assert BackedBy(mmu.view, k, frames[k]);
      AddressOf(mmu.view.pages[HEAP_PAGE + k], frames[k], 0x703);
    }

    lemma DistinctAddresses(v1: Word, v2: Word)
      requires Valid() && backed && HEAP_BASE <= v1 < heapEnd && HEAP_BASE <= v2 < heapEnd && v1 != v2
      ensures Walk(mmu.Mem(), mmu.l1Table, v1) != Walk(mmu.Mem(), mmu.l1Table, v2)
    {
      hide And, Walk, Tree, Accounted, GoodHeap, Needed;
      Translates(v1);
      Translates(v2);
      var k1, k2 := (v1 - HEAP_BASE) / PAGE_SIZE, (v2 - HEAP_BASE) / PAGE_SIZE;
      assert HoldsData(mmu.role, k1, frames[k1]) && HoldsData(mmu.role, k2, frames[k2]);
      SameFrameOffset(frames[k1], frames[k2], v1, v2);
    }

    /** Where a word of the heap lies in memory: inside the data frame of its page. */
    lemma WordPlace(virt: Word)
      requires Valid() && backed && HEAP_BASE <= virt < heapEnd && virt % 8 == 0
      ensures var k, pa, i := (virt - HEAP_BASE) / PAGE_SIZE, Walk(mmu.Mem(), mmu.l1Table, virt), virt % PAGE_SIZE / 8;
              && k < |frames| && HoldsData(mmu.role, k, frames[k]) && i < 512
              && pa % 8 == 0 && pa / 8 == frames[k] / 8 + i && pa / 8 < RAM_WORDS
    {
      hide And, Walk, Tree, Accounted, AllBacked, GoodHeap;
      Translates(virt);
      var k := (virt - HEAP_BASE) / PAGE_SIZE;
      assert HoldsData(mmu.role, k, frames[k]);
      WordOfFrame(frames[k], virt);
    }

    /** Isolation: whatever is stored at a heap address, the bitmap, the tables, the frame accounts and every
        translation stay what they are. */
    lemma StoreIsolated(virt: Word, d: Word)
      requires Valid() && backed && HEAP_BASE <= virt < heapEnd && virt % 8 == 0
      ensures var m, g, pa := mmu.Mem(), mmu.pmm.Geo(), Walk(mmu.Mem(), mmu.l1Table, virt);
              && pa % 8 == 0 && pa / 8 < RAM_WORDS
              && var m' := m[pa / 8 := d];
                 && GoodBitmap(m', g) && Tree(m', mmu.l1Table, mmu.view, mmu.role) && Accounted(m', g, mmu.role.Keys)
                 && forall v: Word :: Walk(m', mmu.l1Table, v) == Walk(m, mmu.l1Table, v)
    {
      hide And, Walk, Tree, Accounted, GoodBitmap, AllBacked, OwnData, GoodHeap, Disjoint;
      WordPlace(virt);
      var f := frames[(virt - HEAP_BASE) / PAGE_SIZE];
      DataStoreIsolated(mmu.Mem(), mmu.pmm.Geo(), mmu.l1Table, mmu.view, mmu.role, f, virt % PAGE_SIZE / 8, d);
    }

    /** The memory word behind a heap address. */
    ghost function WordAt(virt: Word): Word
      requires Valid() && backed && HEAP_BASE <= virt < heapEnd && virt % 8 == 0
      reads this, mmu, mmu.pmm, mmu.pmm.ram
    {
      WordPlace(virt);
      mmu.Mem()[Walk(mmu.Mem(), mmu.l1Table, virt) / 8]
    }

    /** A store through the page tables: the heap is memory.  The word stored is read back, every other word of the heap
        keeps its value, and nothing that memory management relies on changes. */
    method StoreWord(virt: Word, d: Word)
      requires Valid() && backed && HEAP_BASE <= virt < heapEnd && virt % 8 == 0
      modifies mmu.pmm.ram
      ensures Valid() && State() == old(State())
      ensures forall v: Word :: Walk(mmu.Mem(), mmu.l1Table, v) == Walk(old(mmu.Mem()), mmu.l1Table, v)
      ensures forall v: Word :: HEAP_BASE <= v < heapEnd && v % 8 == 0 ==>
                WordAt(v) == if v == virt then d else old(WordAt(v))
    {
      hide And, Walk, Tree, Accounted, GoodBitmap, AllBacked, OwnData, GoodHeap, Disjoint, Counted, Needed;
      StoreIsolated(virt, d);
      WordPlace(virt);
      ghost var m := mmu.Mem();
      forall v: Word | HEAP_BASE <= v < heapEnd && v % 8 == 0
        ensures Walk(m, mmu.l1Table, v) / 8 < RAM_WORDS && WordAt(v) == m[Walk(m, mmu.l1Table, v) / 8]
        ensures v != virt ==> Walk(m, mmu.l1Table, v) / 8 != Walk(m, mmu.l1Table, virt) / 8
      {
        WordPlace(v);
        if v != virt { DistinctAddresses(v, virt); }
      }
      var pa := mmu.Translate(virt);
      mmu.pmm.ram[pa / 8] := d;
      assert mmu.Mem() == m[pa / 8 := d];
      forall v: Word | HEAP_BASE <= v < heapEnd && v % 8 == 0
        ensures WordAt(v) == if v == virt then d else old(WordAt(v))
      {
        assert WordAt(v) == mmu.Mem()[Walk(m, mmu.l1Table, v) / 8];
      }
    }

    /** One iteration of the backing loop; false when there is no frame for the data. */
    method GrowPage() returns (ok: bool)
      requires Valid() && heapEnd < HEAP_LIMIT
      modifies this, mmu.pmm.ram, mmu`tlb, mmu`view, mmu`role, mmu`data
      ensures Valid() && bumpPtr == old(bumpPtr) && blocks == old(blocks)
      ensures ok <==> old(State()).spare > 0
      ensures State() == if ok then GrowOnce(old(State())) else old(State())
      ensures old(frames) <= frames
      ensures SameOutsideHeap(old(mmu.Mem()), mmu.Mem(), mmu.l1Table)
      ensures old(NothingPast(mmu.view, heapEnd)) ==> NothingPast(mmu.view, heapEnd)
      ensures old(Coherent(mmu.tlb, mmu.view.pages)) && backed ==> Coherent(mmu.tlb, mmu.view.pages)
    {
      hide And, Or, Walk, LeafWord, Maps, Tree, Accounted, GoodBitmap, Needed, Coherent, Cached, MoreTables,
           SameOutsideHeap, Counted, PageDescriptor, OwnData, AllBacked, Disjoint, GoodHeap, NothingPast;
      ghost var k, m, r, s := |frames|, mmu.Mem(), mmu.role, State();
      EndInWindow(s, k);
      var pa := mmu.TakeDataFrame(k);
      SameOutside(m, mmu.Mem(), mmu.l1Table);
      if pa == 0 { return false; }
      ghost var m1 := mmu.Mem();
      OwnDataGrows(r, mmu.role, frames, pa);
      AddPage(pa, s);
      SameOutsideTwice(m, m1, mmu.Mem(), mmu.l1Table);
      ok := true;
    }

    /** The second half of the iteration: the frame `pa` becomes the next page of the heap. */
    method AddPage(pa: Table, ghost s: HeapState)
      requires mmu.Valid() && GoodHeap(s) && s.end < HEAP_LIMIT && s.spare > 0 && s.spare - 1 == mmu.Spare() && backed
      requires s == HeapState(bumpPtr, heapEnd, s.spare, Needed(mmu.view, HEAP_PAGE), true)
      requires heapEnd == HEAP_BASE + PAGE_SIZE * |frames| && mmu.data == |frames| + 1
      requires OwnData(mmu.role, frames + [pa]) && AllBacked(mmu.view, frames) && Disjoint(blocks, bumpPtr)
      modifies this, mmu.pmm.ram, mmu`tlb, mmu`view, mmu`role
      ensures Valid() && bumpPtr == old(bumpPtr) && blocks == old(blocks) && frames == old(frames) + [pa]
      ensures State() == GrowOnce(s)
      ensures SameOutsideHeap(old(mmu.Mem()), mmu.Mem(), mmu.l1Table)
      ensures old(NothingPast(mmu.view, heapEnd)) ==> NothingPast(mmu.view, heapEnd)
      ensures old(Coherent(mmu.tlb, mmu.view.pages)) && backed ==> Coherent(mmu.tlb, mmu.view.pages)
    {
      hide And, Or, Walk, LeafWord, Maps, Tree, Accounted, GoodBitmap, Needed, Coherent, Cached, MoreTables,
           SameOutsideHeap, Counted, PageDescriptor, OwnData, AllBacked, Disjoint, GoodHeap, NothingPast;
      ghost var k, v, r := |frames|, mmu.view, mmu.role;
      EndInWindow(s, k);
      GrownIsGood(s);
      var mapped := BackPage(pa, k);
      PastNext(v, mmu.view, k, PageDescriptor(pa, PTE_NORMAL_RW));
      KeepsData(r, mmu.role, frames + [pa]);
      if mapped { KeepsBacked(v, mmu.view, frames, pa, PageDescriptor(pa, PTE_NORMAL_RW)); }
      heapEnd := heapEnd + PAGE_SIZE;
      frames := frames + [pa];
      backed := mapped;
    }

    /** Past its end the heap is not mapped. */
    lemma PastEnd(virt: Word)
      requires Valid() && NothingPast(mmu.view, heapEnd) && heapEnd <= virt < HEAP_BASE + PAGE_SIZE * LEAF_SPAN
      ensures Walk(mmu.Mem(), mmu.l1Table, virt) == 0xFFFF_FFFF_FFFF_FFFF
    {
      hide And, Walk, Tree, Accounted, Counted;
      WalkIsLookup(mmu.Mem(), mmu.l1Table, mmu.view, mmu.role, virt);
      RegionOf(virt, heapEnd);
    }

    /** `kmalloc`.  A request that would wrap 64-bit arithmetic is excluded. */
    method Kmalloc(size: Word) returns (r: Allocation)
      requires Valid() && HEAP_LIMIT + size + 15 < TWO64
      modifies this, mmu.pmm.ram, mmu`tlb, mmu`view, mmu`role, mmu`data
      ensures Valid() && r == KmallocStep(old(State()), size).0
      ensures r.Allocated? ==>
                && State() == KmallocStep(old(State()), size).1
                && blocks == old(blocks) + [Block(r.addr, size)]
      ensures r.Halted? ==> blocks == old(blocks)
      ensures old(frames) <= frames
      ensures SameOutsideHeap(old(mmu.Mem()), mmu.Mem(), mmu.l1Table)
      ensures old(NothingPast(mmu.view, heapEnd)) ==> NothingPast(mmu.view, heapEnd)
      ensures backed ==> old(backed)
      ensures old(Coherent(mmu.tlb, mmu.view.pages)) && backed ==> Coherent(mmu.tlb, mmu.view.pages)
    {
      hide And, Or, Walk, Tree, Accounted, GoodBitmap, Needed, Coherent, Cached, SameOutsideHeap, OwnData, AllBacked,
           Disjoint, Grow;
      SameOutsideItself(mmu.Mem(), mmu.l1Table);
      AlignUp(size);
      var aligned := And(size + 15, Not(15));
      var requiredEnd := bumpPtr + aligned;
      if requiredEnd > HEAP_LIMIT {
        return Halted;
      }
      var ok := BackUpTo(requiredEnd);
      if !ok {
        return Halted;
      }
      r := Allocated(bumpPtr);
      DisjointNext(blocks, bumpPtr, size);
      blocks := blocks + [Block(bumpPtr, size)];
      bumpPtr := bumpPtr + aligned;
    }

    /** The backing loop of `kmalloc`; false when the frames run out and the kernel panics. */
    method BackUpTo(requiredEnd: nat) returns (ok: bool)
      requires Valid() && bumpPtr <= requiredEnd <= HEAP_LIMIT
      modifies this, mmu.pmm.ram, mmu`tlb, mmu`view, mmu`role, mmu`data
      ensures Valid() && bumpPtr == old(bumpPtr) && blocks == old(blocks)
      ensures ok <==> Grow(old(State()), requiredEnd).Grown?
      ensures ok ==> Grow(old(State()), requiredEnd) == Grown.Grown(State()) && requiredEnd <= heapEnd
      ensures old(frames) <= frames
      ensures SameOutsideHeap(old(mmu.Mem()), mmu.Mem(), mmu.l1Table)
      ensures old(NothingPast(mmu.view, heapEnd)) ==> NothingPast(mmu.view, heapEnd)
      ensures backed ==> old(backed)
      ensures old(Coherent(mmu.tlb, mmu.view.pages)) && backed ==> Coherent(mmu.tlb, mmu.view.pages)
    {
      hide And, Or, Walk, Tree, Accounted, GoodBitmap, Needed, Coherent, Cached, SameOutsideHeap, OwnData, AllBacked,
           GrowOnce;
      SameOutsideItself(mmu.Mem(), mmu.l1Table);
      while heapEnd < requiredEnd
        invariant Valid() && bumpPtr == old(bumpPtr) && blocks == old(blocks) && old(frames) <= frames
        invariant Grow(old(State()), requiredEnd) == Grow(State(), requiredEnd)
        invariant SameOutsideHeap(old(mmu.Mem()), mmu.Mem(), mmu.l1Table)
        invariant old(Coherent(mmu.tlb, mmu.view.pages)) && backed ==> Coherent(mmu.tlb, mmu.view.pages)
        invariant backed ==> old(backed)
        invariant old(NothingPast(mmu.view, heapEnd)) ==> NothingPast(mmu.view, heapEnd)
        decreases requiredEnd - heapEnd
      {
        ghost var s, m := State(), mmu.Mem();
        GrowStep(s, requiredEnd);
        var more := GrowPage();
        SameOutsideTwice(old(mmu.Mem()), m, mmu.Mem(), mmu.l1Table);
        if !more { return false; }
      }
      ok := true;
    }

    /** `map(heap_end, pa, PAGE_SIZE, PTE_NORMAL_RW)`, and what it does when the tables cannot be made. */
    method BackPage(pa: Table, ghost k: nat) returns (mapped: bool)
      requires mmu.Valid() && heapEnd == HEAP_BASE + PAGE_SIZE * k && k < HEAP_PAGES
      modifies mmu.pmm.ram, mmu`tlb, mmu`view, mmu`role
      ensures mmu.Valid() && MoreTables(old(mmu.role), mmu.role)
      ensures mapped <==> Needed(old(mmu.view), HEAP_PAGE) <= old(mmu.Spare())
      ensures mapped ==>
                && mmu.view.pages == old(mmu.view).pages[HEAP_PAGE + k := PageDescriptor(pa, PTE_NORMAL_RW)]
                && Maps(PageDescriptor(pa, PTE_NORMAL_RW), pa, 0x703)
                && Needed(mmu.view, HEAP_PAGE) == 0
                && mmu.Spare() == old(mmu.Spare()) - Needed(old(mmu.view), HEAP_PAGE)
      ensures !mapped ==>
                && mmu.view.pages == old(mmu.view).pages && HEAP_PAGE !in mmu.view.pages
                && Needed(mmu.view, HEAP_PAGE) == Needed(old(mmu.view), HEAP_PAGE) - old(mmu.Spare())
                && mmu.Spare() == 0
      ensures SameOutsideHeap(old(mmu.Mem()), mmu.Mem(), mmu.l1Table)
      ensures old(Coherent(mmu.tlb, mmu.view.pages)) && mapped ==> Coherent(mmu.tlb, mmu.view.pages)
    {
      hide And, Or, Walk, LeafWord, Maps, Tree, Accounted, GoodBitmap, Needed, Coherent, Cached, MoreTables, Cost,
           Covers, WithinCover, MapPages;
      ghost var v, r := mmu.view, mmu.role;
      FlagsHaveNoAddress();
      HeapPageCost(v, k);
      PageDescriptorNames(pa, PTE_NORMAL_RW);
      var done := mmu.Map(heapEnd, pa, PAGE_SIZE, PTE_NORMAL_RW);
      mapped := done == 1;
      OnePageMapped(v.pages, HEAP_PAGE + k, done, pa, PTE_NORMAL_RW);
      if mapped {
        NeedAfterSuccess(v, mmu.view, k);
      } else {
        NeedAfterFailure(v, mmu.view, r, mmu.role, mmu.data, k);
        LeafOfPage(mmu.Mem(), mmu.l1Table, mmu.view, mmu.role, HEAP_PAGE);
      }
    }
  }

  lemma WordOfFrame(f: Table, virt: Word)
    requires virt % 8 == 0
    ensures var pa, i := f + virt % PAGE_SIZE, virt % PAGE_SIZE / 8;
            i < 512 && pa % 8 == 0 && pa / 8 == f / 8 + i && pa / 8 < RAM_WORDS
  {
    assert f == 8 * (f / 8) && virt == 4096 * (virt / 4096) + virt % 4096;
    assert virt % PAGE_SIZE % 8 == 0;
  }

  lemma RegionOf(virt: Word, end: nat)
    requires HEAP_BASE <= end <= virt < HEAP_BASE + PAGE_SIZE * LEAF_SPAN && end % PAGE_SIZE == 0
    ensures var p := PageOf(virt); p / LEAF_SPAN == HEAP_PAGE / 512 && PAGE_SIZE * p >= end
  {
    assert PageOf(virt) == virt / PAGE_SIZE;
  }

  lemma PastNext(v: View, v': View, k: nat, d: Word)
    requires v'.pages == v.pages || v'.pages == v.pages[HEAP_PAGE + k := d]
    ensures NothingPast(v, HEAP_BASE + PAGE_SIZE * k) ==> NothingPast(v', HEAP_BASE + PAGE_SIZE * k + PAGE_SIZE)
  {
  }

  /** Descriptors and translations of addresses outside the heap window, which every other mapping of the kernel is. */
  ghost predicate SameOutsideHeap(m: Memory, m': Memory, l1: Table) {
    forall virt: Word :: !(0x1_0000_0000 <= virt % 0x80_0000_0000 < 0x1_0010_0000) ==>
      LeafWord(m', l1, virt) == LeafWord(m, l1, virt) && Walk(m', l1, virt) == Walk(m, l1, virt)
  }

  lemma SameOutside(m: Memory, m': Memory, l1: Table)
    requires forall virt: Word :: LeafWord(m', l1, virt) == LeafWord(m, l1, virt)
    ensures SameOutsideHeap(m, m', l1)
  {
    hide LeafWord, And, Or;
  }

  lemma AddressOf(d: Word, phys: int, flags: Word)
    requires Maps(d, phys, flags)
    ensures And(d, ADDR_MASK) == phys
  {
    hide And;
  }

  lemma SameOutsideItself(m: Memory, l1: Table)
    ensures SameOutsideHeap(m, m, l1)
  {
  }

  /** The boot map of either board lies outside the heap window, so allocation never disturbs it, attributes included;
      and allocation maps nothing outside its window. */
  lemma BootMapKept(m: Memory, m': Memory, l1: Table, board: Board)
    requires (board == PI3 || board == PI5) && SameOutsideHeap(m, m', l1)
    ensures BootMap(m, l1, board) ==> BootMap(m', l1, board)
    ensures NothingElse(m, l1, board) ==>
              forall v: Word :: v < 0x80_0000_0000 && !InRegions(board, v) && !(0x1_0000_0000 <= v < 0x1_0010_0000) ==>
                Walk(m', l1, v) == 0xFFFF_FFFF_FFFF_FFFF
  {
    hide Walk, LeafWord, Maps;
  }

  lemma DisjointNext(blocks: seq<Block>, bump: nat, size: nat)
    requires Disjoint(blocks, bump) && HEAP_BASE <= bump && bump % 16 == 0
    ensures Disjoint(blocks + [Block(bump, size)], bump + Aligned(size))
  {
  }

  lemma AlignUp(size: Word)
    requires size + 15 < TWO64
    ensures And(size + 15, Not(15)) == Aligned(size)
  {
    assert Pow2(4) == 16;
    ClearLow(size + 15, 4);
  }

  lemma GrowStep(s: HeapState, limit: nat)
    requires s.end < limit
    ensures s.spare == 0 ==> Grow(s, limit) == OutOfFrames
    ensures s.spare > 0 ==> Grow(s, limit) == Grow(GrowOnce(s), limit) && GrowOnce(s).end == s.end + PAGE_SIZE
    ensures s.spare > 0 && GrowOnce(s).backed ==> s.backed
  {
  }

  lemma SameOutsideTwice(m0: Memory, m1: Memory, m2: Memory, l1: Table)
    requires SameOutsideHeap(m0, m1, l1) && SameOutsideHeap(m1, m2, l1)
    ensures SameOutsideHeap(m0, m2, l1)
  {
  }

  lemma OnePageMapped(pages: map<nat, Word>, p: nat, n: nat, phys: nat, flags: Word)
    requires n <= 1 && phys + PAGE_SIZE <= PA_LIMIT
    ensures MapPages(pages, p, n, phys, flags) == if n == 1 then pages[p := PageDescriptor(phys, flags)] else pages
  {
  }

  lemma OwnDataGrows(r: map<Table, Role>, r': map<Table, Role>, frames: seq<Table>, pa: Table)
    requires OwnData(r, frames) && pa !in r && r' == r[pa := Data(|frames|)]
    ensures OwnData(r', frames + [pa])
  {
    var all := frames + [pa];
    forall k | 0 <= k < |all| ensures HoldsData(r', k, all[k]) {
      if k < |frames| { assert HoldsData(r, k, frames[k]); }
    }
  }

  lemma KeepsData(r: map<Table, Role>, r': map<Table, Role>, frames: seq<Table>)
    requires OwnData(r, frames) && MoreTables(r, r')
    ensures OwnData(r', frames)
  {
    forall k | 0 <= k < |frames| ensures HoldsData(r', k, frames[k]) { assert HoldsData(r, k, frames[k]); }
  }

  lemma KeepsBacked(v: View, v': View, frames: seq<Table>, pa: Table, d: Word)
    requires v'.pages == v.pages[HEAP_PAGE + |frames| := d] && Maps(d, pa, 0x703) && AllBacked(v, frames)
    ensures AllBacked(v', frames + [pa])
  {
    hide Maps;
    forall k | 0 <= k < |frames| + 1 ensures BackedBy(v', k, (frames + [pa])[k]) {
      if k < |frames| { assert BackedBy(v, k, frames[k]); }
    }
  }

  lemma LeafOfPage(m: Memory, l1: Table, v: View, role: map<Table, Role>, p: nat)
    requires Tree(m, l1, v, role) && p / 512 !in v.leaf
    ensures p !in v.pages
  {
  }

  /** All heap pages share one second-level slot, so a page costs the tables that page 0 would cost. */
  lemma HeapPageCost(v: View, k: nat)
    requires k < HEAP_PAGES
    ensures Cost(v, HEAP_PAGE + k, 1) == Needed(v, HEAP_PAGE)
  {
    HeapPageSlots(k);
    assert HEAP_PAGE + k + 1 - 1 == HEAP_PAGE + k;
    MissingOne(v.mid.Keys, HEAP_PAGE / 512 / 512);
    MissingOne(v.leaf.Keys, HEAP_PAGE / 512);
  }

  lemma HeapPageSlots(k: nat)
    requires k < HEAP_PAGES
    ensures (HEAP_PAGE + k) / LEAF_SPAN == 2048 == HEAP_PAGE / 512
    ensures (HEAP_PAGE + k) / MID_SPAN == 4 == HEAP_PAGE / 512 / 512
  {
  }

  lemma TouchedByHeapPage(k: nat, q: nat)
    requires k < HEAP_PAGES
    ensures Touched(HEAP_PAGE + k, 1, LEAF_SPAN, q) <==> q == HEAP_PAGE / 512
    ensures Touched(HEAP_PAGE + k, 1, MID_SPAN, q) <==> q == HEAP_PAGE / 512 / 512
  {
    HeapPageSlots(k);
    assert HEAP_PAGE + k + 1 - 1 == HEAP_PAGE + k;
  }

  lemma MissingOne(keys: set<nat>, k: nat)
    ensures Missing(keys, k, k) == if k in keys then 0 else 1
  {
    assert Missing(keys, k, k - 1) == 0;
  }

  lemma NeedAfterSuccess(v: View, v': View, k: nat)
    requires k < HEAP_PAGES && TablesCover(v, v', HEAP_PAGE + k, 1)
    ensures Needed(v', HEAP_PAGE) == 0
  {
    TouchedByHeapPage(k, HEAP_PAGE / 512);
    TouchedByHeapPage(k, HEAP_PAGE / 512 / 512);
  }

  lemma FailureKeys(v: View, v': View, k: nat)
    requires k < HEAP_PAGES
    requires Covers(v.leaf.Keys, v'.leaf.Keys, HEAP_PAGE + k, 0, LEAF_SPAN) && !HasTables(v', HEAP_PAGE + k)
    requires WithinCover(v.mid.Keys, v'.mid.Keys, HEAP_PAGE + k, 1, MID_SPAN)
    ensures HEAP_PAGE / 512 !in v'.leaf && v.leaf.Keys == v'.leaf.Keys
    ensures v'.mid.Keys <= v.mid.Keys + {HEAP_PAGE / 512 / 512}
  {
    hide Touched;
    assert (HEAP_PAGE + k) / LEAF_SPAN == HEAP_PAGE / 512;
    forall q: nat ensures q in v'.leaf.Keys <==> q in v.leaf.Keys { NothingTouched(HEAP_PAGE + k, q); }
    forall q | q in v'.mid.Keys ensures q in v.mid.Keys + {HEAP_PAGE / 512 / 512} { TouchedByHeapPage(k, q); }
  }

  lemma OneMoreKey(a: set<nat>, b: set<nat>, i: nat)
    requires a <= b <= a + {i}
    ensures |b| == |a| + if i in b && i !in a then 1 else 0
  {
    if i in b && i !in a {
      assert b == a + {i};
    } else {
      assert b == a;
    }
  }

  lemma MapSize(m: map<nat, Table>)
    ensures |m| == |m.Keys|
  {
  }

  /** When the frames run out inside `map`, the tables it still made are counted by the frames it used up. */
  lemma NeedAfterFailure(v: View, v': View, role: map<Table, Role>, role': map<Table, Role>, data: nat, k: nat)
    requires k < HEAP_PAGES && Counted(v, role, data) && Counted(v', role', data)
    requires Covers(v.leaf.Keys, v'.leaf.Keys, HEAP_PAGE + k, 0, LEAF_SPAN) && !HasTables(v', HEAP_PAGE + k)
    requires v.mid.Keys <= v'.mid.Keys && WithinCover(v.mid.Keys, v'.mid.Keys, HEAP_PAGE + k, 1, MID_SPAN)
    ensures HEAP_PAGE / 512 !in v'.leaf
    ensures Needed(v', HEAP_PAGE) == Needed(v, HEAP_PAGE) - (|role'| - |role|)
  {
    hide Covers, WithinCover, HasTables;
    FailureKeys(v, v', k);
    OneMoreKey(v.mid.Keys, v'.mid.Keys, HEAP_PAGE / 512 / 512);
    MapSize(v.mid); MapSize(v'.mid); MapSize(v.leaf); MapSize(v'.leaf);
    assert (HEAP_PAGE / 512 / 512 in v.mid.Keys <==> HEAP_PAGE / 512 / 512 in v.mid)
           && (HEAP_PAGE / 512 / 512 in v'.mid.Keys <==> HEAP_PAGE / 512 / 512 in v'.mid)
           && (HEAP_PAGE / 512 in v.leaf.Keys <==> HEAP_PAGE / 512 in v.leaf);
  }

  lemma NothingTouched(p: nat, q: nat)
    ensures !Touched(p, 0, LEAF_SPAN, q)
  {
  }

  lemma SameFrameOffset(f1: Table, f2: Table, v1: nat, v2: nat)
    ensures f1 + v1 % PAGE_SIZE == f2 + v2 % PAGE_SIZE ==> f1 == f2 && v1 % PAGE_SIZE == v2 % PAGE_SIZE
  {
  }
}
