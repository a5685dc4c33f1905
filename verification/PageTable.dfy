/** The three-level translation tables of VMSAv8-64 as a value in memory, and the flat map they stand for. */
module PageTable {
  import opened Bits
  import opened Pmm

  const ADDR_MASK: Word := 0x0000_FFFF_FFFF_F000
  const PA_LIMIT: nat := 0x1_0000_0000_0000     // 2^48
  const VA_PAGES: nat := 0x800_0000             // 2^27 pages in the 39-bit range
  const VA_SIZE: nat := PAGE_SIZE * VA_PAGES    // 2^39
  const REGIONS: nat := 0x4_0000                // 2^18 second-level slots, 2 MiB each
  const NO_ADDRESS: Word := ALL_ONES            // `~0ULL`

  // ---- Descriptors ----

  lemma MaskedIs(x: Word)
    ensures And(x, ADDR_MASK) == Low(x, 48) - Low(x, 48) % PAGE_SIZE
  {
    Pow2Values();
    LowHigh(x, 48);
    AndIgnoresHigh(x, ADDR_MASK, 48);
    MaskSplits(Low(x, 48), 4095, 48);
    LowMask(Low(x, 48), 12);
  }

  /** The address mask keeps a multiple of the page size below 2^48. */
  lemma AddressField(x: Word)
    ensures And(x, ADDR_MASK) % PAGE_SIZE == 0 && And(x, ADDR_MASK) < PA_LIMIT
    ensures x < PA_LIMIT && x % PAGE_SIZE == 0 ==> And(x, ADDR_MASK) == x
  {
    hide And, Low, High, Join, Pow2;
    MaskedIs(x);
    LowHigh(x, 48);
    LowIsRemainder(x, 48);
    Pow2Values();
  }

  /** ... so it is the value without the bits from 48 up and without the offset in the page. */
  lemma MaskArithmetic(x: Word)
    ensures And(x, ADDR_MASK) == x % 0x1_0000_0000_0000 / 4096 * 4096
  {
    hide And, Low, High, Join, Pow2;
    MaskedIs(x);
    LowIsRemainder(x, 48);
    Pow2Values();
  }

  lemma LowTwoBits(x: nat)
    ensures And(x, 3) == x % 4
  {
    assert Pow2(2) == 4;
    LowMask(x, 2);
  }

  lemma LowBit(x: nat)
    ensures And(x, 1) == x % 2
  {
    assert Pow2(1) == 2;
    LowMask(x, 1);
  }

  /** `x | 0b11` sets the two low bits and leaves the address field alone. */
  lemma ValidBits(x: Word)
    ensures Or(x, 3) % 4 == 3 && And(Or(x, 3), ADDR_MASK) == And(x, ADDR_MASK)
    ensures x % 4 == 0 ==> Or(x, 3) == x + 3
  {
    hide And, Or;
    AndOverOr(x, 3, ADDR_MASK);
    ThreeHasNoAddress();
    OrZero(And(x, ADDR_MASK));
    OrThree(x);
  }

  lemma ThreeHasNoAddress()
    ensures And(3, ADDR_MASK) == 0
  {
    AddressField(3);
  }

  lemma OrZero(y: nat)
    ensures Or(y, 0) == y
  {
  }

  lemma OrThree(x: nat)
    ensures Or(x, 3) == x - x % 4 + 3
  {
    assert Or(x, 3) == if x == 0 then 3 else 2 * Or(x / 2, 1) + 1;
    assert Or(x / 2, 1) == if x / 2 == 0 then 1 else 2 * Or(x / 2 / 2, 0) + 1;
  }

  lemma MultipleOfFour(x: nat)
    requires x % PAGE_SIZE == 0
    ensures x % 4 == 0
  {
    assert x == 4 * (1024 * (x / PAGE_SIZE));
  }

  /** `child | 0b11` for a page-aligned child is a valid table descriptor naming the child. */
  lemma TableDescriptor(child: Word)
    requires child % PAGE_SIZE == 0 && child < PA_LIMIT
    ensures Or(child, 3) == child + 3 && And(child + 3, ADDR_MASK) == child
  {
    hide And, Or, Bit, Pow2, Low, High;
    MultipleOfFour(child);
    ValidBits(child);
    AddressField(child);
  }

  /** `phys | flags | 0b11` */
  function PageDescriptor(phys: Word, flags: Word): (d: Word) {
    PageDescriptorFits(phys, flags);
    Or(Or(phys, flags), 3)
  }

  lemma PageDescriptorFits(phys: Word, flags: Word)
    ensures Or(Or(phys, flags), 3) < TWO64
  {
    Pow2Values();
    OrBound(phys, flags, 64);
    OrBound(Or(phys, flags), 3, 64);
  }

  lemma PhysWithFlags(phys: Word, flags: Word)
    requires phys % PAGE_SIZE == 0 && phys < PA_LIMIT && And(flags, ADDR_MASK) == 0
    ensures Or(phys, flags) < TWO64 && And(Or(phys, flags), ADDR_MASK) == phys
  {
    Pow2Values();
    OrBound(phys, flags, 64);
    AndOverOr(phys, flags, ADDR_MASK);
    AddressField(phys);
  }

  /** The word `d` sends a page to `phys`: its address field, bits 12 to 47, is `phys`; its two low bits are set; every
      other bit is that of `flags`. */
  ghost predicate Maps(d: Word, phys: int, flags: Word) {
    && And(d, 0x0000_FFFF_FFFF_F000) == phys
    && forall k: nat :: k < 12 || k >= 48 ==> Bit(d, k) == (k < 2 || Bit(flags, k))
  }

  /** Flags outside the address field do not disturb the address, none of them is lost, and the descriptor is valid. */
  lemma PageDescriptorNames(phys: Word, flags: Word)
    requires phys % PAGE_SIZE == 0 && phys < PA_LIMIT && And(flags, ADDR_MASK) == 0
    ensures And(PageDescriptor(phys, flags), ADDR_MASK) == phys
    ensures PageDescriptor(phys, flags) % 4 == 3
    ensures Maps(PageDescriptor(phys, flags), phys, flags)
  {
    hide And, Or, Bit;
    PhysWithFlags(phys, flags);
    ValidBits(Or(phys, flags));
    forall k: nat | k < 12 || k >= 48
      ensures Bit(PageDescriptor(phys, flags), k) == (k < 2 || Bit(flags, k))
    {
      OrBit(Or(phys, flags), 3, k);
      OrBit(phys, flags, k);
      ThreeBits(k);
      NoBitOutside(phys, k);
    }
  }

  lemma ThreeBits(k: nat)
    ensures Bit(3, k) == (k < 2)
  {
    if k >= 2 {
      assert Bit(3, k) == Bit(1, k - 1) == Bit(0, k - 2);
      BitZero(k - 2);
    }
  }

  lemma NoBitOutside(phys: Word, k: nat)
    requires phys % PAGE_SIZE == 0 && phys < PA_LIMIT && (k < 12 || k >= 48)
    ensures !Bit(phys, k)
  {
    Pow2Values();
    LowIsRemainder(phys, 12);
    if k < 12 { NoLowDigits(phys, 12, k); } else { NoHighDigits(phys, 48, k); }
  }

  // ---- Indices ----

  function L1Index(virt: Word): nat { And(virt / 0x4000_0000, 0x1FF) }
  function L2Index(virt: Word): nat { And(virt / 0x20_0000, 0x1FF) }
  function L3Index(virt: Word): nat { And(virt / 0x1000, 0x1FF) }

  /** The page of the 39-bit range that a walk for `virt` resolves. */
  function PageOf(virt: Word): nat {
    virt / PAGE_SIZE % VA_PAGES
  }

  /** The three indices are the base-512 digits of the page number. */
  lemma IndicesOfPage(virt: Word)
    ensures var p := PageOf(virt);
            L3Index(virt) == p % 512 && L2Index(virt) == p / 512 % 512 && L1Index(virt) == p / 512 / 512
  {
    NineBits(virt / 0x4000_0000);
    NineBits(virt / 0x20_0000);
    NineBits(virt / 0x1000);
    Digits(virt);
  }

  lemma NineBits(x: nat)
    ensures And(x, 0x1FF) == x % 512
  {
    assert Pow2(9) == 512 by { Pow2Plus8(1); }
    LowMask(x, 9);
  }

  lemma Digits(v: nat)
    ensures var p := v / 0x1000 % 0x800_0000;
            && v / 0x1000 % 512 == p % 512
            && v / 0x20_0000 % 512 == p / 512 % 512
            && v / 0x4000_0000 % 512 == p / 512 / 512
  {
    var q := v / 0x1000;
    assert v / 0x20_0000 == q / 512;
    assert v / 0x4000_0000 == q / 512 / 512;
  }

  // ---- Memory and tables ----

  type Memory = m: seq<Word> | |m| == RAM_WORDS ghost witness seq(RAM_WORDS, _ => 0)

  /** Base address of a 512-entry table in memory. */
  type Table = t: nat | t % PAGE_SIZE == 0 && t + PAGE_SIZE <= PHYS_MEM_END

  predicate IsTable(t: nat) {
    t % PAGE_SIZE == 0 && t + PAGE_SIZE <= PHYS_MEM_END
  }

  /** `table[i]` */
  function Slot(m: Memory, t: Table, i: nat): Word
    requires i < 512
  {
    m[t / 8 + i]
  }

  function Put(m: Memory, t: Table, i: nat, d: Word): (m': Memory)
    requires i < 512
    ensures m' == m[t / 8 + i := d]
  {
    m[t / 8 + i := d]
  }

  lemma PutSlot(m: Memory, t: Table, i: nat, d: Word, t': Table, j: nat)
    requires i < 512 && j < 512
    ensures Slot(Put(m, t, i, d), t', j) == if t == t' && i == j then d else Slot(m, t', j)
  {
    if t' != t {
      assert t / 8 + 512 <= t' / 8 || t' / 8 + 512 <= t / 8;
    }
  }

  ghost predicate SameTable(m: Memory, m': Memory, t: Table) {
    forall j: nat :: j < 512 ==> Slot(m, t, j) == Slot(m', t, j)
  }

  /** The third-level word that the indices of `virt` lead to, or 0 when a table is missing on the way.  A descriptor
      naming something outside memory is not followed; in a well-formed tree there is none. */
  function LeafWord(m: Memory, l1: Table, virt: Word): Word {
    IndicesOfPage(virt);
    var d1 := Slot(m, l1, L1Index(virt));
    if And(d1, 3) != 3 || !IsTable(And(d1, ADDR_MASK)) then 0 else
    AddressField(d1);
    var d2 := Slot(m, And(d1, ADDR_MASK), L2Index(virt));
    if And(d2, 3) != 3 || !IsTable(And(d2, ADDR_MASK)) then 0 else
    AddressField(d2);
    Slot(m, And(d2, ADDR_MASK), L3Index(virt))
  }

  /** What the hardware walker and `translate` compute from the tables in memory. */
  function Walk(m: Memory, l1: Table, virt: Word): Word {
    var d3 := LeafWord(m, l1, virt);
    if And(d3, 3) != 3 then NO_ADDRESS else
    LeafAddressFits(d3, virt);
    Or(And(d3, ADDR_MASK), And(virt, 0xFFF))
  }

  /** The table that a descriptor word names, in arithmetic; `None` unless it ends in `0b11` and lies in memory. */
  datatype Next = None | At(table: nat)

  function Follow(d: Word): Next {
    var t := d % 0x1_0000_0000_0000 / 4096 * 4096;
    if d % 4 == 3 && t + 4096 <= 0x3F80_0000 then At(t) else None
  }

  /** The walk in plain arithmetic on the words of memory: 512 words a table, nine bits of the address a level, the low
      twelve added at the end, and `~0` when a descriptor does not end in `0b11`. */
  lemma WalkArithmetic(m: Memory, l1: Table, virt: Word)
    ensures l1 / 8 + virt / 0x4000_0000 % 512 < |m|
    ensures match Follow(m[l1 / 8 + virt / 0x4000_0000 % 512])
            case None => LeafWord(m, l1, virt) == 0
            case At(t2) =>
              && t2 / 8 + virt / 0x20_0000 % 512 < |m|
              && match Follow(m[t2 / 8 + virt / 0x20_0000 % 512])
                 case None => LeafWord(m, l1, virt) == 0
                 case At(t3) =>
                   && t3 / 8 + virt / 0x1000 % 512 < |m|
                   && LeafWord(m, l1, virt) == m[t3 / 8 + virt / 0x1000 % 512]
    ensures var d := LeafWord(m, l1, virt);
            Walk(m, l1, virt) ==
            if d % 4 == 3 then d % 0x1_0000_0000_0000 / 4096 * 4096 + virt % 4096 else 0xFFFF_FFFF_FFFF_FFFF
  {
    hide And, Or;
    NineBits(virt / 0x4000_0000);
    NineBits(virt / 0x20_0000);
    NineBits(virt / 0x1000);
    var d1 := m[l1 / 8 + virt / 0x4000_0000 % 512];
    FollowIs(d1);
    if Follow(d1).At? { FollowIs(m[Follow(d1).table / 8 + virt / 0x20_0000 % 512]); }
    var d := LeafWord(m, l1, virt);
    LowTwoBits(d);
    MaskArithmetic(d);
    if d % 4 == 3 { LeafAddressFits(d, virt); }
  }

  lemma FollowIs(d: Word)
    ensures Follow(d).At? <==> And(d, 3) == 3 && IsTable(And(d, ADDR_MASK))
    ensures Follow(d).At? ==> Follow(d).table == And(d, ADDR_MASK)
  {
    hide And;
    LowTwoBits(d);
    MaskArithmetic(d);
    AddressField(d);
  }

  lemma LeafAddressFits(d: Word, virt: Word)
    ensures Or(And(d, ADDR_MASK), And(virt, 0xFFF)) == And(d, ADDR_MASK) + virt % PAGE_SIZE
    ensures And(d, ADDR_MASK) + virt % PAGE_SIZE < PA_LIMIT
  {
    Pow2Values();
    AddressField(d);
    LowMask(virt, 12);
    OrAligned(And(d, ADDR_MASK), virt % PAGE_SIZE, 12);
  }

  // ---- The tree ----

  /** The second-level table of each first-level slot, the third-level table of each 2 MiB region,
      and the descriptor of each mapped page. */
  datatype View = View(mid: map<nat, Table>, leaf: map<nat, Table>, pages: map<nat, Word>)

  /** What a frame handed out by the allocator is used for. */
  datatype Role = Root | Mid(i: nat) | Leaf(r: nat) | Data(k: nat)

  function Link(tables: map<nat, Table>, k: nat): Word {
    if k in tables then (var t: int := tables[k]; t + 3) else 0
  }

  function Descriptor(pages: map<nat, Word>, p: nat): Word {
    if p in pages then pages[p] else 0
  }

  ghost predicate Shape(v: View) {
    && (forall i :: i in v.mid ==> i < 512)
    && (forall r :: r in v.leaf ==> r < REGIONS && r / 512 in v.mid)
    && (forall p :: p in v.pages ==> p < VA_PAGES && p / 512 in v.leaf && v.pages[p] % 4 == 3)
  }

  ghost predicate RootHolds(m: Memory, l1: Table, mid: map<nat, Table>) {
    forall i: nat :: i < 512 ==> Slot(m, l1, i) == Link(mid, i)
  }

  ghost predicate MidHolds(m: Memory, t: Table, i: nat, leaf: map<nat, Table>) {
    forall j: nat :: j < 512 ==> Slot(m, t, j) == Link(leaf, 512 * i + j)
  }

  ghost predicate LeafHolds(m: Memory, t: Table, r: nat, pages: map<nat, Word>) {
    forall k: nat :: k < 512 ==> Slot(m, t, k) == Descriptor(pages, 512 * r + k)
  }

  /** Every table slot holds what the view says, and nothing else. */
  ghost predicate Represents(m: Memory, l1: Table, v: View) {
    && RootHolds(m, l1, v.mid)
    && (forall i :: i in v.mid ==> MidHolds(m, v.mid[i], i, v.leaf))
    && (forall r :: r in v.leaf ==> LeafHolds(m, v.leaf[r], r, v.pages))
  }

  /** Each table of the view is a frame with the matching role, so no two tables share a frame;
      and every frame with a table role is linked at exactly the place its role names. */
  ghost predicate Owned(l1: Table, v: View, role: map<Table, Role>) {
    && l1 in role && role[l1] == Root
    && (forall i :: i in v.mid ==> v.mid[i] in role && role[v.mid[i]] == Mid(i))
    && (forall r :: r in v.leaf ==> v.leaf[r] in role && role[v.leaf[r]] == Leaf(r))
    && (forall t :: t in role && role[t].Root? ==> t == l1)
    && (forall t :: t in role && role[t].Mid? ==> role[t].i in v.mid && v.mid[role[t].i] == t)
    && (forall t :: t in role && role[t].Leaf? ==> role[t].r in v.leaf && v.leaf[role[t].r] == t)
  }

  ghost predicate Tree(m: Memory, l1: Table, v: View, role: map<Table, Role>) {
    Shape(v) && Owned(l1, v, role) && Represents(m, l1, v)
  }

  /** The flat map that the tree stands for. */
  function Lookup(v: View, virt: Word): nat {
    var p := PageOf(virt);
    if p in v.pages then And(v.pages[p], ADDR_MASK) + virt % PAGE_SIZE else NO_ADDRESS
  }

  /** Every descriptor the walker follows names a table in memory: it never leaves the tree. */
  lemma WalkStaysInTree(m: Memory, l1: Table, v: View, role: map<Table, Role>, virt: Word)
    requires Tree(m, l1, v, role)
    ensures L1Index(virt) < 512 && L2Index(virt) < 512 && L3Index(virt) < 512
    ensures var p := PageOf(virt);
            var d1 := Slot(m, l1, L1Index(virt));
            && (And(d1, 3) == 3 <==> p / 512 / 512 in v.mid)
            && (And(d1, 3) == 3 ==>
                  && And(d1, ADDR_MASK) == v.mid[p / 512 / 512]
                  && var d2 := Slot(m, v.mid[p / 512 / 512], L2Index(virt));
                     && (And(d2, 3) == 3 <==> p / 512 in v.leaf)
                     && (And(d2, 3) == 3 ==> And(d2, ADDR_MASK) == v.leaf[p / 512]))
  {
    hide And, Or;
    IndicesOfPage(virt);
    var p := PageOf(virt);
    var r, i := p / 512, p / 512 / 512;
    LinkDecodes(v.mid, i);
    if i in v.mid {
      assert MidHolds(m, v.mid[i], i, v.leaf);
      assert 512 * i + r % 512 == r;
      LinkDecodes(v.leaf, r);
    }
  }

  /** The word that the indices lead to is the descriptor of the page, or 0. */
  lemma LeafWordIs(m: Memory, l1: Table, v: View, role: map<Table, Role>, virt: Word)
    requires Tree(m, l1, v, role)
    ensures LeafWord(m, l1, virt) == Descriptor(v.pages, PageOf(virt))
  {
    hide And, Slot;
    WalkStaysInTree(m, l1, v, role, virt);
    var p := PageOf(virt);
    if p / 512 in v.leaf {
      IndicesOfPage(virt);
      LeafSlot(m, v.leaf[p / 512], v.pages, p);
    }
  }

  /** Refinement: walking the tables computes the flat map, for every 64-bit address. */
  lemma WalkIsLookup(m: Memory, l1: Table, v: View, role: map<Table, Role>, virt: Word)
    requires Tree(m, l1, v, role)
    ensures Walk(m, l1, virt) == Lookup(v, virt)
  {
    hide And, Or, LeafWord;
    LeafWordIs(m, l1, v, role, virt);
    var p := PageOf(virt);
    LowTwoBits(Descriptor(v.pages, p));
    if p in v.pages { LeafAddressFits(v.pages[p], virt); }
  }

  lemma LeafSlot(m: Memory, t: Table, pages: map<nat, Word>, p: nat)
    requires LeafHolds(m, t, p / 512, pages)
    ensures Slot(m, t, p % 512) == Descriptor(pages, p)
  {
    assert 512 * (p / 512) + p % 512 == p;
  }

  lemma PageBase(p: nat)
    requires p < VA_PAGES
    ensures PageOf(PAGE_SIZE * p) == p && (PAGE_SIZE * p) % PAGE_SIZE == 0
  {
  }

  /** A link slot is either empty or a valid descriptor of its table. */
  lemma LinkDecodes(tables: map<nat, Table>, k: nat)
    ensures k in tables ==> And(Link(tables, k), 3) == 3 && And(Link(tables, k), 1) == 1
                            && And(Link(tables, k), ADDR_MASK) == tables[k]
    ensures k !in tables ==> And(Link(tables, k), 3) == 0 && And(Link(tables, k), 1) == 0
  {
    LowTwoBits(Link(tables, k));
    LowBit(Link(tables, k));
    if k in tables { TableDescriptor(tables[k]); }
  }

  // ---- Stores that change the tree ----

  /** Memory that agrees on every table still holds the same tree. */
  lemma TreeFrame(m: Memory, m': Memory, l1: Table, v: View, role: map<Table, Role>)
    requires Tree(m, l1, v, role)
    requires forall t :: t in role && !role[t].Data? ==> SameTable(m, m', t)
    ensures Tree(m', l1, v, role)
  {
    assert SameTable(m, m', l1);
    forall i | i in v.mid ensures MidHolds(m', v.mid[i], i, v.leaf) {
      assert SameTable(m, m', v.mid[i]);
    }
    forall r | r in v.leaf ensures LeafHolds(m', v.leaf[r], r, v.pages) {
      assert SameTable(m, m', v.leaf[r]);
    }
  }

  /** A store into a frame that is no table changes no table. */
  lemma PutElsewhere(m: Memory, f: Table, i: nat, d: Word, t: Table)
    requires i < 512 && t != f
    ensures SameTable(m, Put(m, f, i, d), t)
  {
    forall j: nat | j < 512 ensures Slot(m, t, j) == Slot(Put(m, f, i, d), t, j) {
      PutSlot(m, f, i, d, t, j);
    }
  }

  function WithMid(v: View, i: nat, f: Table): View {
    v.(mid := v.mid[i := f])
  }

  function WithLeaf(v: View, r: nat, f: Table): View {
    v.(leaf := v.leaf[r := f])
  }

  ghost predicate ZeroTable(m: Memory, f: Table) {
    forall j: nat :: j < 512 ==> Slot(m, f, j) == 0
  }

  /** A table that did not change holds what it held. */
  lemma TableKept(m: Memory, m': Memory, t: Table, k: nat, v: View)
    requires SameTable(m, m', t)
    ensures RootHolds(m, t, v.mid) ==> RootHolds(m', t, v.mid)
    ensures MidHolds(m, t, k, v.leaf) ==> MidHolds(m', t, k, v.leaf)
    ensures LeafHolds(m, t, k, v.pages) ==> LeafHolds(m', t, k, v.pages)
  {
    hide Slot, Link, Descriptor;
  }

  lemma RootStored(m: Memory, l1: Table, mid: map<nat, Table>, i: nat, f: Table, d: Word)
    requires RootHolds(m, l1, mid) && i < 512 && d == f as int + 3
    ensures RootHolds(Put(m, l1, i, d), l1, mid[i := f])
  {
    forall j: nat | j < 512 ensures Slot(Put(m, l1, i, d), l1, j) == Link(mid[i := f], j) {
      PutSlot(m, l1, i, d, l1, j);
    }
  }

  /** Linking a zeroed frame into an empty first-level slot. */
  lemma LinkMid(m: Memory, l1: Table, v: View, role: map<Table, Role>, i: nat, f: Table, d: Word)
    requires Tree(m, l1, v, role) && i < 512 && i !in v.mid
    requires f !in role && ZeroTable(m, f) && d == f as int + 3
    ensures Tree(Put(m, l1, i, d), l1, WithMid(v, i, f), role[f := Mid(i)])
  {
    var m', v' := Put(m, l1, i, d), WithMid(v, i, f);
    hide Put, Slot, Link, Descriptor, ZeroTable;
    RootStored(m, l1, v.mid, i, f, d);
    forall k | k in v'.mid ensures MidHolds(m', v'.mid[k], k, v'.leaf) {
      PutElsewhere(m, l1, i, d, v'.mid[k]);
      if k == i { EmptyMid(m, v, i, f); }
    }
    forall r | r in v'.leaf ensures LeafHolds(m', v'.leaf[r], r, v'.pages) {
      PutElsewhere(m, l1, i, d, v'.leaf[r]);
    }
  }

  lemma EmptyMid(m: Memory, v: View, i: nat, f: Table)
    requires Shape(v) && i !in v.mid && ZeroTable(m, f)
    ensures MidHolds(m, f, i, v.leaf)
  {
    forall j: nat | j < 512 ensures Slot(m, f, j) == Link(v.leaf, 512 * i + j) {
      assert (512 * i + j) / 512 == i;
    }
  }

  lemma EmptyLeaf(m: Memory, v: View, r: nat, f: Table)
    requires Shape(v) && r !in v.leaf && ZeroTable(m, f)
    ensures LeafHolds(m, f, r, v.pages)
  {
    forall k: nat | k < 512 ensures Slot(m, f, k) == Descriptor(v.pages, 512 * r + k) {
      assert (512 * r + k) / 512 == r;
    }
  }

  lemma MidStored(m: Memory, t: Table, leaf: map<nat, Table>, r: nat, f: Table, d: Word)
    requires MidHolds(m, t, r / 512, leaf) && d == f as int + 3
    ensures MidHolds(Put(m, t, r % 512, d), t, r / 512, leaf[r := f])
  {
    forall j: nat | j < 512
      ensures Slot(Put(m, t, r % 512, d), t, j) == Link(leaf[r := f], 512 * (r / 512) + j)
    {
      PutSlot(m, t, r % 512, d, t, j);
    }
  }

  lemma MidKept(m: Memory, m': Memory, t: Table, i: nat, leaf: map<nat, Table>, r: nat, f: Table)
    requires MidHolds(m, t, i, leaf) && SameTable(m, m', t) && i != r / 512
    ensures MidHolds(m', t, i, leaf[r := f])
  {
    forall j: nat | j < 512 ensures Slot(m', t, j) == Link(leaf[r := f], 512 * i + j) {
      assert (512 * i + j) / 512 == i;
    }
  }

  function StoredIn(pages: map<nat, Word>, p: nat, d: Word): map<nat, Word> {
    if d == 0 then pages - {p} else pages[p := d]
  }

  /** The view after a third-level store: a zero descriptor removes the page. */
  function Stored(v: View, p: nat, d: Word): View {
    v.(pages := StoredIn(v.pages, p, d))
  }

  lemma LeafStored(m: Memory, t: Table, pages: map<nat, Word>, p: nat, d: Word)
    requires LeafHolds(m, t, p / 512, pages)
    ensures LeafHolds(Put(m, t, p % 512, d), t, p / 512, StoredIn(pages, p, d))
  {
    forall k: nat | k < 512
      ensures Slot(Put(m, t, p % 512, d), t, k) == Descriptor(StoredIn(pages, p, d), 512 * (p / 512) + k)
    {
      PutSlot(m, t, p % 512, d, t, k);
    }
  }

  lemma LeafKept(m: Memory, m': Memory, t: Table, r: nat, pages: map<nat, Word>, p: nat, d: Word)
    requires LeafHolds(m, t, r, pages) && SameTable(m, m', t) && r != p / 512
    ensures LeafHolds(m', t, r, StoredIn(pages, p, d))
  {
    forall k: nat | k < 512 ensures Slot(m', t, k) == Descriptor(StoredIn(pages, p, d), 512 * r + k) {
      assert (512 * r + k) / 512 == r;
    }
  }

  lemma LeafOwned(l1: Table, v: View, role: map<Table, Role>, r: nat, f: Table)
    requires Shape(v) && Owned(l1, v, role) && r < REGIONS && r / 512 in v.mid && r !in v.leaf && f !in role
    ensures Shape(WithLeaf(v, r, f)) && Owned(l1, WithLeaf(v, r, f), role[f := Leaf(r)])
  {
  }

  /** Table `t` is no other table of the view: a second-level table other than the one at `i`, or a third-level table
      other than the one of region `r`. */
  ghost predicate OnlyAt(l1: Table, v: View, t: Table, i: int, r: int) {
    && t != l1
    && (forall k :: k in v.mid && k != i ==> v.mid[k] != t)
    && (forall q :: q in v.leaf && q != r ==> v.leaf[q] != t)
  }

  lemma OwnedOnce(l1: Table, v: View, role: map<Table, Role>)
    requires Owned(l1, v, role)
    ensures forall i :: i in v.mid ==> OnlyAt(l1, v, v.mid[i], i, -1)
    ensures forall r :: r in v.leaf ==> OnlyAt(l1, v, v.leaf[r], -1, r)
  {
  }

  lemma LeafLinked(m: Memory, l1: Table, v: View, r: nat, f: Table, d: Word)
    requires Shape(v) && Represents(m, l1, v) && r < REGIONS && r / 512 in v.mid && r !in v.leaf
    requires OnlyAt(l1, v, v.mid[r / 512], r / 512, -1) && f != v.mid[r / 512] && ZeroTable(m, f) && d == f as int + 3
    ensures Represents(Put(m, v.mid[r / 512], r % 512, d), l1, WithLeaf(v, r, f))
  {
    var t, j0 := v.mid[r / 512], r % 512;
    var m', v' := Put(m, t, j0, d), WithLeaf(v, r, f);
    hide Put, Slot, Link, Descriptor, ZeroTable, SameTable, RootHolds, MidHolds, LeafHolds, Shape;
    PutElsewhere(m, t, j0, d, l1);
    TableKept(m, m', l1, 0, v);
    forall k | k in v'.mid ensures MidHolds(m', v'.mid[k], k, v'.leaf) {
      if k == r / 512 {
        MidStored(m, t, v.leaf, r, f, d);
      } else {
        PutElsewhere(m, t, j0, d, v.mid[k]);
        MidKept(m, m', v.mid[k], k, v.leaf, r, f);
      }
    }
    forall q | q in v'.leaf ensures LeafHolds(m', v'.leaf[q], q, v'.pages) {
      PutElsewhere(m, t, j0, d, v'.leaf[q]);
      if q == r { EmptyLeaf(m, v, r, f); }
      TableKept(m, m', v'.leaf[q], q, v);
    }
  }

  /** Linking a zeroed frame into an empty second-level slot. */
  lemma LinkLeaf(m: Memory, l1: Table, v: View, role: map<Table, Role>, r: nat, f: Table, d: Word)
    requires Tree(m, l1, v, role) && r < REGIONS && r / 512 in v.mid && r !in v.leaf
    requires f !in role && ZeroTable(m, f) && d == f as int + 3
    ensures Tree(Put(m, v.mid[r / 512], r % 512, d), l1, WithLeaf(v, r, f), role[f := Leaf(r)])
  {
    hide Put, ZeroTable, Represents, OnlyAt, Shape;
    LeafOwned(l1, v, role, r, f);
    OwnedOnce(l1, v, role);
    LeafLinked(m, l1, v, r, f, d);
  }

  lemma PageStored(m: Memory, l1: Table, v: View, p: nat, d: Word)
    requires Represents(m, l1, v) && p / 512 in v.leaf && OnlyAt(l1, v, v.leaf[p / 512], -1, p / 512)
    ensures Represents(Put(m, v.leaf[p / 512], p % 512, d), l1, Stored(v, p, d))
  {
    var t, k0 := v.leaf[p / 512], p % 512;
    var m', v' := Put(m, t, k0, d), Stored(v, p, d);
    hide Put, Slot, Link, Descriptor, SameTable, RootHolds, MidHolds, LeafHolds, StoredIn;
    PutElsewhere(m, t, k0, d, l1);
    TableKept(m, m', l1, 0, v);
    forall k | k in v'.mid ensures MidHolds(m', v'.mid[k], k, v'.leaf) {
      PutElsewhere(m, t, k0, d, v.mid[k]);
      TableKept(m, m', v.mid[k], k, v);
    }
    forall q | q in v'.leaf ensures LeafHolds(m', v'.leaf[q], q, v'.pages) {
      if q == p / 512 {
        LeafStored(m, t, v.pages, p, d);
      } else {
        PutElsewhere(m, t, k0, d, v.leaf[q]);
        LeafKept(m, m', v.leaf[q], q, v.pages, p, d);
      }
    }
  }

  /** Writing a third-level slot changes exactly one page of the flat map. */
  lemma StorePage(m: Memory, l1: Table, v: View, role: map<Table, Role>, p: nat, d: Word)
    requires Tree(m, l1, v, role) && p < VA_PAGES && p / 512 in v.leaf
    requires d == 0 || d % 4 == 3
    ensures Tree(Put(m, v.leaf[p / 512], p % 512, d), l1, Stored(v, p, d), role)
  {
    hide Put, Represents, OnlyAt;
    OwnedOnce(l1, v, role);
    PageStored(m, l1, v, p, d);
  }
}
