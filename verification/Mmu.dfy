/** Page-table management: `map`, `translate`, `unmap` over the frames of the allocator, with the
    translation cache the hardware may refill after any store. */
module Mmu {
  import opened Bits
  import opened Pmm
  import opened PageTable

  // ---- Which frame is used for what ----

  /** Every frame in use has exactly one role, and only frames in use have one. */
  ghost predicate Accounted(m: Memory, g: Geometry, frames: set<Table>)
    requires GoodBitmap(m, g)
  {
    && (forall t :: t in frames ==> IsFrame(g, t))
    && (forall f: nat :: f < g.total ==> (IsUsed(m, g, f) <==> FrameAddr(g, f) in frames))
  }

  /** The tables and `data` other frames are all the frames with a role. */
  ghost predicate Counted(v: View, role: map<Table, Role>, data: nat) {
    |role| == 1 + |v.mid| + |v.leaf| + data
  }

  /** Bitmap words lie below every managed frame. */
  lemma BitmapBelowFrame(g: Geometry, f: nat, t: Table)
    requires GoodGeometry(g) && f < 64 * BitmapWords(g) && IsFrame(g, t)
    ensures WordIndex(g, f) < t / 8
  {
    var b, u, w := g.bitmapAddr / 8, t / PAGE_SIZE, BitmapWords(g);
    hide BitmapWords;
    assert t == PAGE_SIZE * u && t / 8 == 512 * u;
    assert b + w <= 512 * u;
    assert f / 64 < w;
  }

  lemma SetUsedKeepsTables(m: Memory, g: Geometry, f: nat, t: Table)
    requires GoodBitmap(m, g) && f < g.total && IsFrame(g, t)
    ensures SameTable(m, SetUsed(m, g, f), t)
  {
    BitmapBelowFrame(g, f, t);
  }

  lemma SetFreeKeepsTables(m: Memory, g: Geometry, f: nat, t: Table)
    requires GoodBitmap(m, g) && f < g.total && IsFrame(g, t)
    ensures SameTable(m, SetFree(m, g, f), t)
  {
    BitmapBelowFrame(g, f, t);
  }

  ghost predicate SameBitmap(m: Memory, m': Memory, g: Geometry)
    requires GoodBitmap(m, g) && GoodBitmap(m', g)
  {
    forall f: nat :: f < 64 * BitmapWords(g) ==> IsUsed(m', g, f) == IsUsed(m, g, f)
  }

  lemma AccountedSame(m: Memory, m': Memory, g: Geometry, frames: set<Table>)
    requires GoodBitmap(m, g) && GoodBitmap(m', g) && SameBitmap(m, m', g) && Accounted(m, g, frames)
    ensures Accounted(m', g, frames)
  {
  }

  /** A store into a managed frame leaves the bitmap alone. */
  lemma PutKeepsBitmap(m: Memory, g: Geometry, t: Table, i: nat, d: Word)
    requires GoodBitmap(m, g) && IsFrame(g, t) && i < 512
    ensures GoodBitmap(Put(m, t, i, d), g)
    ensures SameBitmap(m, Put(m, t, i, d), g)
  {
    forall f: nat | f < 64 * BitmapWords(g)
      ensures IsUsed(Put(m, t, i, d), g, f) == IsUsed(m, g, f)
    {
      BitmapBelowFrame(g, f, t);
    }
  }

  /** The number of frames with a role is the number of used frames. */
  lemma RolesCountUsed(m: Memory, g: Geometry, frames: set<Table>)
    requires GoodBitmap(m, g) && Accounted(m, g, frames)
    ensures |frames| == |UsedFrames(m, g)|
  {
    var used := UsedFrames(m, g);
    AddressesOf(g, used);
    var addrs := set f | f in used :: FrameAddr(g, f);
    forall t | t in frames ensures t in addrs {
      assert t == FrameAddr(g, FrameOf(g, t));
    }
    SameSize(addrs, frames);
  }

  lemma {:induction false} SameSize(a: set<nat>, b: set<Table>)
    requires forall t: nat :: t in a <==> t in b
    ensures |a| == |b|
  {
    if b != {} {
      var t :| t in b;
      SameSize(a - {t}, b - {t});
    } else {
      assert a == {};
    }
  }

  lemma {:induction false} AddressesOf(g: Geometry, fs: set<nat>)
    ensures |set f | f in fs :: FrameAddr(g, f)| == |fs|
  {
    if fs != {} {
      var x :| x in fs;
      AddressesOf(g, fs - {x});
      var rest := set f | f in fs - {x} :: FrameAddr(g, f);
      assert (set f | f in fs :: FrameAddr(g, f)) == rest + {FrameAddr(g, x)};
      assert FrameAddr(g, x) !in rest;
    }
  }

  /** One allocation seen from the tree: either every frame already has a role, or the new frame has none
      and no table changes. */
  lemma AllocKeepsTree(m: Memory, g: Geometry, l1: Table, v: View, role: map<Table, Role>)
    requires GoodBitmap(m, g) && (g.total > 0 ==> g.start > 0) && Accounted(m, g, role.Keys) && Tree(m, l1, v, role)
    ensures var (addr, m') := AllocStep(m, g);
            && |m'| == RAM_WORDS && GoodBitmap(m', g)
            && (addr == 0 <==> |role| == g.total)
            && (addr == 0 ==> m' == m)
            && Tree(m', l1, v, role)
            && (addr != 0 ==> IsTable(addr) && IsFrame(g, addr) && addr !in role
                              && Accounted(m', g, role.Keys + {addr}))
  {
    AllocTakesLowest(m, g);
    RolesCountUsed(m, g, role.Keys);
    var f := FirstFree(m, g, 0);
    if f < g.total {
      var m' := SetUsed(m, g, f);
      forall t | t in role ensures SameTable(m, m', t) { SetUsedKeepsTables(m, g, f, t); }
      TreeFrame(m, m', l1, v, role);
      forall j: nat | j < g.total ensures IsUsed(m', g, j) == (j == f || IsUsed(m, g, j)) { SetUsedBit(m, g, f, j); }
    }
  }

  /** A store into a frame without a role changes no table of the tree. */
  lemma PutOutside(m: Memory, l1: Table, v: View, role: map<Table, Role>, f: Table, i: nat, d: Word)
    requires Tree(m, l1, v, role) && f !in role && i < 512
    ensures Tree(Put(m, f, i, d), l1, v, role)
  {
    hide Put, Slot;
    forall t | t in role ensures SameTable(m, Put(m, f, i, d), t) { PutElsewhere(m, f, i, d, t); }
    TreeFrame(m, Put(m, f, i, d), l1, v, role);
  }

  // ---- Ownership on the words of memory ----

  /** A first-level or second-level table: its slots are links to tables. */
  predicate HoldsLinks(role: map<Table, Role>, t: Table) {
    t in role && (role[t].Root? || role[t].Mid?)
  }

  /** The role of the table that slot `i` of `t` names. */
  function RoleBelow(role: map<Table, Role>, t: Table, i: nat): Role
    requires HoldsLinks(role, t)
  {
    if role[t].Root? then Mid(i) else Leaf(512 * role[t].i + i)
  }

  lemma SlotNamesRole(m: Memory, l1: Table, v: View, role: map<Table, Role>, t: Table, i: nat)
    requires Tree(m, l1, v, role) && HoldsLinks(role, t) && i < 512 && Slot(m, t, i) != 0
    ensures Slot(m, t, i) % 4 == 3
    ensures var f := And(Slot(m, t, i), ADDR_MASK);
            IsTable(f) && f in role && role[f] == RoleBelow(role, t, i)
  {
    hide And, Slot, Link, LeafHolds;
    if role[t].Root? {
      LinkIs(v.mid, i);
    } else {
      assert MidHolds(m, t, role[t].i, v.leaf);
      LinkIs(v.leaf, 512 * role[t].i + i);
    }
  }

  lemma LinkIs(tables: map<nat, Table>, k: nat)
    requires Link(tables, k) != 0
    ensures k in tables && Link(tables, k) % 4 == 3 && And(Link(tables, k), ADDR_MASK) == tables[k]
  {
    hide And;
    assert k in tables;
    LinkedSlot(tables, k);
  }

  /** Every non-zero slot of a first-level or second-level table ends in `0b11` and names a used frame, and no frame
      is named by two such slots: each table has one parent. */
  lemma LinkedOnce(m: Memory, g: Geometry, l1: Table, v: View, role: map<Table, Role>,
                   t1: Table, i1: nat, t2: Table, i2: nat)
    requires Tree(m, l1, v, role) && GoodBitmap(m, g) && Accounted(m, g, role.Keys)
    requires HoldsLinks(role, t1) && i1 < 512 && Slot(m, t1, i1) != 0
    requires HoldsLinks(role, t2) && i2 < 512 && Slot(m, t2, i2) != 0
    ensures Slot(m, t1, i1) % 4 == 3
    ensures var f := And(Slot(m, t1, i1), ADDR_MASK); IsFrame(g, f) && IsUsed(m, g, FrameOf(g, f))
    ensures And(Slot(m, t1, i1), ADDR_MASK) == And(Slot(m, t2, i2), ADDR_MASK) ==> t1 == t2 && i1 == i2
  {
    hide And, Slot, IsUsed, Tree, RoleBelow, GoodBitmap, HoldsLinks;
    SlotNamesRole(m, l1, v, role, t1, i1);
    SlotNamesRole(m, l1, v, role, t2, i2);
    var f := And(Slot(m, t1, i1), ADDR_MASK);
    UsedFrame(m, g, role.Keys, f);
    if RoleBelow(role, t1, i1) == RoleBelow(role, t2, i2) { SameParent(m, l1, v, role, t1, i1, t2, i2); }
  }

  lemma UsedFrame(m: Memory, g: Geometry, frames: set<Table>, f: Table)
    requires GoodBitmap(m, g) && Accounted(m, g, frames) && f in frames
    ensures IsFrame(g, f) && IsUsed(m, g, FrameOf(g, f))
  {
    hide IsUsed;
    assert FrameAddr(g, FrameOf(g, f)) == f;
  }

  lemma SameParent(m: Memory, l1: Table, v: View, role: map<Table, Role>, t1: Table, i1: nat, t2: Table, i2: nat)
    requires Tree(m, l1, v, role) && HoldsLinks(role, t1) && HoldsLinks(role, t2) && i1 < 512 && i2 < 512
    requires RoleBelow(role, t1, i1) == RoleBelow(role, t2, i2)
    ensures t1 == t2 && i1 == i2
  {
    hide Represents, Shape;
  }

  /** A store into a data frame disturbs neither the bitmap nor the tables nor any translation. */
  lemma DataStoreIsolated(m: Memory, g: Geometry, l1: Table, v: View, role: map<Table, Role>, f: Table, i: nat, d: Word)
    requires GoodBitmap(m, g) && Tree(m, l1, v, role) && Accounted(m, g, role.Keys)
    requires f in role && role[f].Data? && i < 512
    ensures var m' := Put(m, f, i, d);
            && GoodBitmap(m', g) && Tree(m', l1, v, role) && Accounted(m', g, role.Keys)
            && forall virt: Word :: Walk(m', l1, virt) == Walk(m, l1, virt)
  {
    hide And, Tree, IsUsed, GoodBitmap, Put, SameTable, Walk;
    var m' := Put(m, f, i, d);
    assert IsFrame(g, f) by { assert f in role.Keys; }
    PutKeepsBitmap(m, g, f, i, d);
    AccountedSame(m, m', g, role.Keys);
    forall t | t in role && !role[t].Data? ensures SameTable(m, m', t) { PutElsewhere(m, f, i, d, t); }
    TreeFrame(m, m', l1, v, role);
    forall virt: Word ensures Walk(m', l1, virt) == Walk(m, l1, virt) {
      WalkIsLookup(m, l1, v, role, virt);
      WalkIsLookup(m', l1, v, role, virt);
    }
  }

  // ---- The translation cache ----

  /** Entry `p -> a` is what the tables say about page `p`. */
  ghost predicate EntryAgrees(pages: map<nat, Word>, p: nat, a: nat) {
    p in pages && And(pages[p], ADDR_MASK) == a
  }

  ghost predicate Coherent(tlb: map<nat, nat>, pages: map<nat, Word>) {
    forall p :: p in tlb ==> EntryAgrees(pages, p, tlb[p])
  }

  /** Entries of `tlb'` come from `tlb` or from one of two flat maps. */
  ghost predicate Cached(tlb: map<nat, nat>, tlb': map<nat, nat>, pages: map<nat, Word>, pages': map<nat, Word>) {
    forall p :: p in tlb' ==>
      (p in tlb && tlb'[p] == tlb[p]) || EntryAgrees(pages, p, tlb'[p]) || EntryAgrees(pages', p, tlb'[p])
  }

  /** What the hardware may do after a store: cache any translation the tables now give. */
  ghost predicate Refilled(tlb: map<nat, nat>, tlb': map<nat, nat>, m: Memory, l1: Table) {
    forall p :: p in tlb' ==> (p in tlb && tlb'[p] == tlb[p]) || Walked(m, l1, p, tlb'[p])
  }

  ghost predicate Walked(m: Memory, l1: Table, p: nat, a: nat) {
    p < VA_PAGES && Walk(m, l1, PAGE_SIZE * p) == a && a != NO_ADDRESS
  }

  /** While the memory holds a tree, refilling adds nothing but entries of its flat map. */
  lemma RefillFromTree(tlb: map<nat, nat>, tlb': map<nat, nat>, m: Memory, l1: Table, v: View, role: map<Table, Role>)
    requires Refilled(tlb, tlb', m, l1) && Tree(m, l1, v, role)
    ensures Cached(tlb, tlb', v.pages, v.pages)
  {
    forall p | p in tlb' && Walked(m, l1, p, tlb'[p]) ensures EntryAgrees(v.pages, p, tlb'[p]) {
      hide And, Walk, Tree;
      WalkIsLookup(m, l1, v, role, PAGE_SIZE * p);
      PageBase(p);
    }
  }

  // ---- The slot a table hangs from ----

  datatype Place = First(i: nat) | Second(r: nat)

  ghost predicate IsPlace(v: View, l1: Table, place: Place, table: Table, index: nat) {
    match place
    case First(i) => i < 512 && table == l1 && index == i
    case Second(r) => r < REGIONS && r / 512 in v.mid && table == v.mid[r / 512] && index == r % 512
  }

  ghost function ChildAt(v: View, place: Place): Word {
    match place
    case First(i) => if i in v.mid then v.mid[i] else 0
    case Second(r) => if r in v.leaf then v.leaf[r] else 0
  }

  ghost predicate Present(v: View, place: Place) {
    match place
    case First(i) => i in v.mid
    case Second(r) => r in v.leaf
  }

  ghost function WithTable(v: View, place: Place, f: Table): View {
    match place
    case First(i) => WithMid(v, i, f)
    case Second(r) => WithLeaf(v, r, f)
  }

  ghost function RoleAt(place: Place): Role {
    match place
    case First(i) => Mid(i)
    case Second(r) => Leaf(r)
  }

  /** `v'` has the table at `place`, and otherwise the tables and pages of `v`. */
  ghost predicate Grew(v: View, v': View, place: Place) {
    && v'.pages == v.pages
    && match place
       case First(i) => v'.leaf == v.leaf && v'.mid.Keys == v.mid.Keys + {i}
       case Second(r) => v'.mid == v.mid && v'.leaf.Keys == v.leaf.Keys + {r}
  }

  lemma PresentGrew(v: View, place: Place)
    requires Present(v, place)
    ensures Grew(v, v, place)
  {
  }

  lemma LinkTable(m: Memory, l1: Table, v: View, role: map<Table, Role>, place: Place, table: Table, index: nat,
                  f: Table, d: Word)
    requires Tree(m, l1, v, role) && IsPlace(v, l1, place, table, index) && index < 512 && !Present(v, place)
    requires f !in role && ZeroTable(m, f) && d == f as int + 3
    ensures Tree(Put(m, table, index, d), l1, WithTable(v, place, f), role[f := RoleAt(place)])
  {
    match place
    case First(i) => LinkMid(m, l1, v, role, i, f, d);
    case Second(r) => LinkLeaf(m, l1, v, role, r, f, d);
  }

  /** A slot is valid exactly when its table exists, and then names it. */
  lemma SlotDecodes(m: Memory, l1: Table, v: View, role: map<Table, Role>, place: Place, table: Table, index: nat)
    requires Tree(m, l1, v, role) && index < 512 && IsPlace(v, l1, place, table, index)
    ensures And(Slot(m, table, index), 1) != 0 <==> Present(v, place)
    ensures Present(v, place) ==> And(Slot(m, table, index), ADDR_MASK) == ChildAt(v, place)
  {
    hide And, Slot;
    match place
    case First(i) =>
      LinkDecodes(v.mid, i);
    case Second(r) =>
      assert MidHolds(m, table, r / 512, v.leaf);
      assert 512 * (r / 512) + r % 512 == r;
      LinkDecodes(v.leaf, r);
  }

  lemma ChildIsFrame(m: Memory, g: Geometry, l1: Table, v: View, role: map<Table, Role>, place: Place, table: Table,
                     index: nat)
    requires GoodBitmap(m, g) && (g.total > 0 ==> g.start > 0) && Accounted(m, g, role.Keys)
    requires Tree(m, l1, v, role) && IsPlace(v, l1, place, table, index)
    ensures IsFrame(g, table)
    ensures Present(v, place) ==> IsFrame(g, ChildAt(v, place)) && ChildAt(v, place) != 0
  {
  }

  lemma LeafIsFrame(m: Memory, g: Geometry, l1: Table, v: View, role: map<Table, Role>, r: nat)
    requires GoodBitmap(m, g) && Accounted(m, g, role.Keys) && Tree(m, l1, v, role) && r in v.leaf
    ensures IsFrame(g, v.leaf[r])
  {
  }

  /** After the invalidations: cached entries inside the range are current, the others are older or current. */
  ghost predicate Invalidated(t: map<nat, nat>, t': map<nat, nat>, pages: map<nat, Word>, p0: nat, n: nat) {
    forall p :: p in t' ==>
      EntryAgrees(pages, p, t'[p]) || (!(p0 <= p < p0 + n) && p in t && t'[p] == t[p])
  }

  lemma InvalidatedNext(t0: map<nat, nat>, t1: map<nat, nat>, t2: map<nat, nat>, pages: map<nat, Word>, p0: nat, n: nat)
    requires Invalidated(t0, t1, pages, p0, n) && Cached(t1 - {p0 + n}, t2, pages, pages)
    ensures Invalidated(t0, t2, pages, p0, n + 1)
  {
  }

  lemma LeafHasMid(m: Memory, l1: Table, v: View, role: map<Table, Role>, r: nat)
    requires Tree(m, l1, v, role)
    ensures r in v.leaf ==> r / 512 in v.mid
  {
  }

  lemma CachedThen(t0: map<nat, nat>, t1: map<nat, nat>, t2: map<nat, nat>, pages: map<nat, Word>,
                   pages': map<nat, Word>)
    requires Cached(t0, t1, pages, pages) && Cached(t1, t2, pages', pages')
    ensures Cached(t0, t2, pages, pages')
  {
  }

  lemma CachedTwice(t0: map<nat, nat>, t1: map<nat, nat>, t2: map<nat, nat>, pages: map<nat, Word>,
                    pages': map<nat, Word>)
    requires Cached(t0, t1, pages, pages') && Cached(t1, t2, pages, pages')
    ensures Cached(t0, t2, pages, pages')
  {
  }

  // ---- What `map` asks for ----

  /** Numbers in `[lo, hi]` that are not in `keys`. */
  ghost function Missing(keys: set<nat>, lo: nat, hi: int): nat
    decreases hi - lo + 1
  {
    if hi < lo then 0 else Missing(keys, lo, hi - 1) + if hi in keys then 0 else 1
  }

  lemma {:induction false} MissingGrows(keys: set<nat>, lo: nat, hi: int, hi': int)
    requires hi <= hi'
    ensures Missing(keys, lo, hi) <= Missing(keys, lo, hi')
    decreases hi' - hi
  {
    if hi < hi' && lo <= hi' { MissingGrows(keys, lo, hi, hi' - 1); }
  }

  /** Tables missing for one page. */
  ghost function Needed(v: View, p: nat): nat {
    (if p / 512 / 512 in v.mid then 0 else 1) + (if p / 512 in v.leaf then 0 else 1)
  }

  const MID_SPAN: nat := 0x4_0000    // pages under one first-level slot
  const LEAF_SPAN: nat := 512        // pages under one second-level slot

  /** Numbers not in `keys` among the slots, `unit` pages wide, that pages `[p0, p0 + n)` fall in. */
  ghost function MissingUnder(keys: set<nat>, p0: nat, n: nat, unit: nat): nat
    requires unit > 0
  {
    if n == 0 then 0 else Missing(keys, p0 / unit, (p0 + n - 1) / unit)
  }

  /** Tables that mapping pages `[p0, p0 + n)` has to allocate: one per first-level slot and one per
      second-level slot that the range falls in and that has no table yet. */
  ghost function Cost(v: View, p0: nat, n: nat): nat {
    MissingUnder(v.mid.Keys, p0, n, MID_SPAN) + MissingUnder(v.leaf.Keys, p0, n, LEAF_SPAN)
  }

  /** `k` is among the slots, `unit` pages wide, that pages `[p0, p0 + n)` fall in. */
  ghost predicate Touched(p0: nat, n: nat, unit: nat, k: nat)
    requires unit > 0
  {
    n > 0 && p0 / unit <= k <= (p0 + n - 1) / unit
  }

  /** `keys'` is `keys` with the slots touched by pages `[p0, p0 + n)`. */
  ghost predicate Covers(keys: set<nat>, keys': set<nat>, p0: nat, n: nat, unit: nat)
    requires unit > 0
  {
    forall k :: k in keys' <==> k in keys || Touched(p0, n, unit, k)
  }

  /** `keys'` adds to `keys` only slots touched by pages `[p0, p0 + n)`. */
  ghost predicate WithinCover(keys: set<nat>, keys': set<nat>, p0: nat, n: nat, unit: nat)
    requires unit > 0
  {
    forall k :: k in keys' ==> k in keys || Touched(p0, n, unit, k)
  }

  lemma NextSlot(p: nat, unit: nat)
    requires unit == MID_SPAN || unit == LEAF_SPAN
    ensures p > 0 ==> (p - 1) / unit <= p / unit <= (p - 1) / unit + 1
  {
  }

  lemma CoverStep(keys: set<nat>, keys': set<nat>, p0: nat, n: nat, unit: nat)
    requires unit == MID_SPAN || unit == LEAF_SPAN
    requires Covers(keys, keys', p0, n, unit)
    ensures Covers(keys, keys' + {(p0 + n) / unit}, p0, n + 1, unit)
    ensures MissingUnder(keys, p0, n + 1, unit) ==
            MissingUnder(keys, p0, n, unit) + if (p0 + n) / unit in keys' then 0 else 1
  {
    var s := (p0 + n) / unit;
    assert n == 0 ==> Missing(keys, s, s - 1) == 0;
    if n > 0 {
      NextSlot(p0 + n, unit);
      SlotsOrdered(p0, p0 + n - 1, unit);
      assert s == (p0 + n - 1) / unit ==> Touched(p0, n, unit, s);
    }
  }

  lemma SlotsOrdered(p: nat, q: nat, unit: nat)
    requires p <= q && (unit == MID_SPAN || unit == LEAF_SPAN)
    ensures p / unit <= q / unit
  {
  }

  lemma MissingUnderGrows(keys: set<nat>, p0: nat, n: nat, n': nat, unit: nat)
    requires n <= n' && (unit == MID_SPAN || unit == LEAF_SPAN)
    ensures MissingUnder(keys, p0, n, unit) <= MissingUnder(keys, p0, n', unit)
  {
    if n > 0 {
      SlotsOrdered(p0 + n - 1, p0 + n' - 1, unit);
      MissingGrows(keys, p0 / unit, (p0 + n - 1) / unit, (p0 + n' - 1) / unit);
    }
  }

  lemma {:induction false} MissingAtMost(keys: set<nat>, lo: nat, hi: int)
    requires lo <= hi + 1
    ensures Missing(keys, lo, hi) <= hi + 1 - lo
    ensures keys == {} ==> Missing(keys, lo, hi) == hi + 1 - lo
    decreases hi + 1 - lo
  {
    if lo <= hi { MissingAtMost(keys, lo, hi - 1); }
  }

  /** `n` contiguous pages need at most `(n + 1022) / 512` third-level tables; starting in the last slot of an
      unmapped region they need that many. */
  lemma LeafTablesBound(keys: set<nat>, p0: nat, n: nat)
    ensures MissingUnder(keys, p0, n, LEAF_SPAN) <= (n + 1022) / 512
    ensures n > 0 && keys == {} && p0 % 512 == 511 ==> MissingUnder(keys, p0, n, LEAF_SPAN) == (n + 1022) / 512
  {
    if n > 0 {
      MissingAtMost(keys, p0 / LEAF_SPAN, (p0 + n - 1) / LEAF_SPAN);
    }
  }

  /** Both levels have exactly the tables of `v` and those that pages `[p0, p0 + n)` need. */
  ghost predicate TablesCover(v: View, v': View, p0: nat, n: nat) {
    Covers(v.mid.Keys, v'.mid.Keys, p0, n, MID_SPAN) && Covers(v.leaf.Keys, v'.leaf.Keys, p0, n, LEAF_SPAN)
  }

  lemma PageCost(v: View, v1: View, v2: View, p0: nat, n: nat)
    requires TablesCover(v, v1, p0, n)
    requires v2.mid.Keys == v1.mid.Keys + {(p0 + n) / 512 / 512} && v2.leaf.Keys == v1.leaf.Keys + {(p0 + n) / 512}
    ensures TablesCover(v, v2, p0, n + 1)
    ensures Cost(v, p0, n + 1) == Cost(v, p0, n) + Needed(v1, p0 + n)
  {
    assert (p0 + n) / 512 / 512 == (p0 + n) / MID_SPAN;
    CoverStep(v.mid.Keys, v1.mid.Keys, p0, n, MID_SPAN);
    CoverStep(v.leaf.Keys, v1.leaf.Keys, p0, n, LEAF_SPAN);
  }

  lemma CostAtFailure(v: View, v1: View, p0: nat, n: nat, n': nat)
    requires TablesCover(v, v1, p0, n) && n < n'
    ensures Cost(v, p0, n') >= Cost(v, p0, n) + Needed(v1, p0 + n)
  {
    assert (p0 + n) / 512 / 512 == (p0 + n) / MID_SPAN;
    CoverStep(v.mid.Keys, v1.mid.Keys, p0, n, MID_SPAN);
    CoverStep(v.leaf.Keys, v1.leaf.Keys, p0, n, LEAF_SPAN);
    MissingUnderGrows(v.mid.Keys, p0, n + 1, n', MID_SPAN);
    MissingUnderGrows(v.leaf.Keys, p0, n + 1, n', LEAF_SPAN);
  }

  lemma CoverAtFailure(v: View, v1: View, v2: View, p0: nat, n: nat, n': nat)
    requires TablesCover(v, v1, p0, n) && n < n'
    requires v2.mid.Keys <= v1.mid.Keys + {(p0 + n) / 512 / 512} && v2.leaf.Keys == v1.leaf.Keys
    ensures Covers(v.leaf.Keys, v2.leaf.Keys, p0, n, LEAF_SPAN)
    ensures WithinCover(v.mid.Keys, v2.mid.Keys, p0, n', MID_SPAN)
    ensures v1.mid.Keys <= v2.mid.Keys ==> v.mid.Keys <= v2.mid.Keys
  {
    assert (p0 + n) / 512 / 512 == (p0 + n) / MID_SPAN;
    SlotsOrdered(p0, p0 + n, MID_SPAN);
    SlotsOrdered(p0 + n, p0 + n' - 1, MID_SPAN);
    if n > 0 { SlotsOrdered(p0 + n - 1, p0 + n' - 1, MID_SPAN); }
  }

  /** The flat map with pages `[p0, p0 + n)` sent to consecutive frames from `phys`. */
  ghost function MapPages(pages: map<nat, Word>, p0: nat, n: nat, phys: nat, flags: Word): map<nat, Word>
    requires phys + PAGE_SIZE * n <= PA_LIMIT
  {
    if n == 0 then pages else
      MapPages(pages, p0, n - 1, phys, flags)[p0 + n - 1 := PageDescriptor(phys + PAGE_SIZE * (n - 1), flags)]
  }

  lemma {:induction false} MapPagesAt(pages: map<nat, Word>, p0: nat, n: nat, phys: nat, flags: Word, p: nat)
    requires phys + PAGE_SIZE * n <= PA_LIMIT
    ensures var r := MapPages(pages, p0, n, phys, flags);
            if p0 <= p < p0 + n
            then p in r && r[p] == PageDescriptor(phys + PAGE_SIZE * (p - p0), flags)
            else (p in r <==> p in pages) && (p in r ==> r[p] == pages[p])
  {
    if n > 0 { MapPagesAt(pages, p0, n - 1, phys, flags, p); }
  }

  lemma MapPagesNext(pages: map<nat, Word>, p0: nat, n: nat, phys: nat, flags: Word)
    requires phys + PAGE_SIZE * (n + 1) <= PA_LIMIT
    ensures MapPages(pages, p0, n + 1, phys, flags) ==
            MapPages(pages, p0, n, phys, flags)[p0 + n := PageDescriptor(phys + PAGE_SIZE * n, flags)]
  {
  }

  /** Caching during one iteration adds only entries of the original or of the new flat map. */
  lemma CachedMapStep(t0: map<nat, nat>, t1: map<nat, nat>, t2: map<nat, nat>, pages: map<nat, Word>,
                      p0: nat, n: nat, phys: nat, flags: Word)
    requires phys + PAGE_SIZE * (n + 1) <= PA_LIMIT
    requires Cached(t0, t1, pages, MapPages(pages, p0, n, phys, flags))
    requires Cached(t1, t2, MapPages(pages, p0, n, phys, flags), MapPages(pages, p0, n + 1, phys, flags))
    ensures Cached(t0, t2, pages, MapPages(pages, p0, n + 1, phys, flags))
  {
    forall p: nat, a: nat | EntryAgrees(MapPages(pages, p0, n, phys, flags), p, a)
      ensures EntryAgrees(pages, p, a) || EntryAgrees(MapPages(pages, p0, n + 1, phys, flags), p, a)
    {
      MapPagesAt(pages, p0, n, phys, flags, p);
    }
  }

  /** If every cached entry was current before, then after the invalidations every cached entry is current. */
  lemma MapCoherent(t0: map<nat, nat>, t1: map<nat, nat>, t2: map<nat, nat>, pages: map<nat, Word>,
                    p0: nat, n: nat, phys: nat, flags: Word)
    requires phys + PAGE_SIZE * n <= PA_LIMIT
    requires Cached(t0, t1, pages, MapPages(pages, p0, n, phys, flags))
    requires Invalidated(t1, t2, MapPages(pages, p0, n, phys, flags), p0, n)
    ensures Cached(t0, t2, pages, MapPages(pages, p0, n, phys, flags))
    ensures Coherent(t0, pages) ==> Coherent(t2, MapPages(pages, p0, n, phys, flags))
  {
    forall p: nat, a: nat | EntryAgrees(pages, p, a) && !(p0 <= p < p0 + n)
      ensures EntryAgrees(MapPages(pages, p0, n, phys, flags), p, a)
    {
      MapPagesAt(pages, p0, n, phys, flags, p);
    }
  }

  /** The address a walk must give after `n` pages from `va` were sent to `phys`. */
  ghost function Remapped(before: Word, virt: Word, va: Word, phys: Word, n: nat): nat {
    var v := virt % VA_SIZE;
    if va <= v < va + PAGE_SIZE * n then phys + (v - va) else before
  }

  lemma PageInRange(va: Word, virt: Word, n: nat)
    requires va % PAGE_SIZE == 0
    ensures var p, p0, v, off := PageOf(virt), va / PAGE_SIZE, virt % VA_SIZE, virt % PAGE_SIZE;
            && (va <= v < va + PAGE_SIZE * n <==> p0 <= p < p0 + n)
            && (p0 <= p ==> v - va == PAGE_SIZE * (p - p0) + off)
  {
    assert virt % VA_SIZE == PAGE_SIZE * PageOf(virt) + virt % PAGE_SIZE;
  }

  lemma MapWalks(m: Memory, m': Memory, l1: Table, v: View, v': View, role: map<Table, Role>, role': map<Table, Role>,
                 va: Word, phys: Word, n: nat, flags: Word, virt: Word)
    requires Tree(m, l1, v, role) && Tree(m', l1, v', role')
    requires va % PAGE_SIZE == 0 && phys % PAGE_SIZE == 0 && And(flags, ADDR_MASK) == 0
    requires phys + PAGE_SIZE * n <= PA_LIMIT
    requires v'.pages == MapPages(v.pages, va / PAGE_SIZE, n, phys, flags)
    ensures Walk(m', l1, virt) == Remapped(Walk(m, l1, virt), virt, va, phys, n)
  {
    hide And, Or, Tree, Walk, MapPages, PageOf;
    WalkIsLookup(m, l1, v, role, virt);
    WalkIsLookup(m', l1, v', role', virt);
    var p, p0 := PageOf(virt), va / PAGE_SIZE;
    MapPagesAt(v.pages, p0, n, phys, flags, p);
    PageInRange(va, virt, n);
    if p0 <= p < p0 + n {
      PageDescriptorNames(phys + PAGE_SIZE * (p - p0), flags);
    }
  }

  /** On words: after `n` pages from `va` were sent to `phys`, the third-level word of each page of the range holds its
      address and the bits of `flags`; the word that any other address leads to is as before. */
  lemma MapWords(m: Memory, m': Memory, l1: Table, v: View, v': View, role: map<Table, Role>, role': map<Table, Role>,
                 va: Word, phys: Word, n: nat, flags: Word, virt: Word)
    requires Tree(m, l1, v, role) && Tree(m', l1, v', role')
    requires va % PAGE_SIZE == 0 && phys % PAGE_SIZE == 0 && And(flags, ADDR_MASK) == 0
    requires phys + PAGE_SIZE * n <= PA_LIMIT
    requires v'.pages == MapPages(v.pages, va / PAGE_SIZE, n, phys, flags)
    ensures var a := virt % 0x80_0000_0000;
            if va <= a < va + 4096 * n
            then Maps(LeafWord(m', l1, virt), phys + (a - va) / 4096 * 4096, flags)
            else LeafWord(m', l1, virt) == LeafWord(m, l1, virt)
  {
    hide And, Or, Tree, LeafWord, MapPages, PageOf, Maps, PageDescriptor;
    LeafWordIs(m, l1, v, role, virt);
    LeafWordIs(m', l1, v', role', virt);
    var p, p0 := PageOf(virt), va / PAGE_SIZE;
    MapPagesAt(v.pages, p0, n, phys, flags, p);
    PageInRange(va, virt, n);
    if p0 <= p < p0 + n {
      PageDescriptorNames(phys + PAGE_SIZE * (p - p0), flags);
    }
  }

  /** Both for every address. */
  lemma MapEffect(m: Memory, m': Memory, l1: Table, v: View, v': View, role: map<Table, Role>, role': map<Table, Role>,
                  va: Word, phys: Word, n: nat, flags: Word)
    requires Tree(m, l1, v, role) && Tree(m', l1, v', role')
    requires va % PAGE_SIZE == 0 && phys % PAGE_SIZE == 0 && And(flags, ADDR_MASK) == 0
    requires phys + PAGE_SIZE * n <= PA_LIMIT
    requires v'.pages == MapPages(v.pages, va / PAGE_SIZE, n, phys, flags)
    ensures forall virt: Word ::
              var a := virt % 0x80_0000_0000;
              Walk(m', l1, virt) == if va <= a < va + 4096 * n then phys + (a - va) else Walk(m, l1, virt)
    ensures forall virt: Word ::
              var a := virt % 0x80_0000_0000;
              if va <= a < va + 4096 * n then Maps(LeafWord(m', l1, virt), phys + (a - va) / 4096 * 4096, flags)
              else LeafWord(m', l1, virt) == LeafWord(m, l1, virt)
  {
    hide And, Tree, LeafWord, Walk, MapPages, Maps;
    forall virt: Word
      ensures var a := virt % 0x80_0000_0000;
              Walk(m', l1, virt) == if va <= a < va + 4096 * n then phys + (a - va) else Walk(m, l1, virt)
      ensures var a := virt % 0x80_0000_0000;
              if va <= a < va + 4096 * n then Maps(LeafWord(m', l1, virt), phys + (a - va) / 4096 * 4096, flags)
              else LeafWord(m', l1, virt) == LeafWord(m, l1, virt)
    {
      MapWalks(m, m', l1, v, v', role, role', va, phys, n, flags, virt);
      MapWords(m, m', l1, v, v', role, role', va, phys, n, flags, virt);
    }
  }

  /** `role'` only adds tables to `role`. */
  ghost predicate MoreTables(role: map<Table, Role>, role': map<Table, Role>) {
    && (forall t :: t in role ==> t in role' && role'[t] == role[t])
    && (forall t :: t in role' && role'[t].Data? ==> t in role)
  }

  lemma MoreTablesTwice(r0: map<Table, Role>, r1: map<Table, Role>, r2: map<Table, Role>)
    requires MoreTables(r0, r1) && MoreTables(r1, r2)
    ensures MoreTables(r0, r2)
  {
  }

  /** Effect of one successful iteration of `map` on the view. */
  ghost predicate PageDone(v: View, v': View, p: nat, d: Word) {
    && v'.pages == v.pages[p := d]
    && v'.mid.Keys == v.mid.Keys + {p / 512 / 512}
    && v'.leaf.Keys == v.leaf.Keys + {p / 512}
  }

  /** Effect of the iteration that runs out of frames: at most a second-level table was added. */
  ghost predicate PageFailed(v: View, v': View, p: nat) {
    && v'.pages == v.pages
    && v.mid.Keys <= v'.mid.Keys <= v.mid.Keys + {p / 512 / 512}
    && v'.leaf.Keys == v.leaf.Keys
    && p / 512 !in v'.leaf
  }

  /** State of `map` after `n` pages: the view, the roles and the cache against those at entry. */
  ghost predicate Progress(v: View, v': View, role: map<Table, Role>, role': map<Table, Role>,
                           t: map<nat, nat>, t': map<nat, nat>, p0: nat, n: nat, phys: nat, flags: Word)
    requires phys + PAGE_SIZE * n <= PA_LIMIT
  {
    && MoreTables(role, role')
    && v'.pages == MapPages(v.pages, p0, n, phys, flags)
    && TablesCover(v, v', p0, n)
    && Cached(t, t', v.pages, v'.pages)
  }

  /** The same when `map` gives up at page `p0 + n` of `p0 + goal`. */
  ghost predicate Stopped(v: View, v': View, role: map<Table, Role>, role': map<Table, Role>,
                          t: map<nat, nat>, t': map<nat, nat>, p0: nat, n: nat, goal: nat, phys: nat, flags: Word)
    requires phys + PAGE_SIZE * n <= PA_LIMIT
  {
    && MoreTables(role, role')
    && v'.pages == MapPages(v.pages, p0, n, phys, flags)
    && Covers(v.leaf.Keys, v'.leaf.Keys, p0, n, LEAF_SPAN)
    && WithinCover(v.mid.Keys, v'.mid.Keys, p0, goal, MID_SPAN)
    && v.mid.Keys <= v'.mid.Keys
    && !HasTables(v', p0 + n)
    && Cached(t, t', v.pages, v'.pages)
  }

  lemma ProgressStarts(v: View, role: map<Table, Role>, t: map<nat, nat>, p0: nat, phys: nat, flags: Word)
    requires phys <= PA_LIMIT
    ensures Progress(v, v, role, role, t, t, p0, 0, phys, flags) && Cost(v, p0, 0) == 0
  {
  }

  lemma ProgressNext(v0: View, v1: View, v2: View, r0: map<Table, Role>, r1: map<Table, Role>, r2: map<Table, Role>,
                     t0: map<nat, nat>, t1: map<nat, nat>, t2: map<nat, nat>, p0: nat, n: nat, phys: nat, flags: Word)
    requires phys + PAGE_SIZE * (n + 1) <= PA_LIMIT
    requires Progress(v0, v1, r0, r1, t0, t1, p0, n, phys, flags)
    requires PageDone(v1, v2, p0 + n, PageDescriptor(phys + PAGE_SIZE * n, flags))
    requires MoreTables(r1, r2) && Cached(t1, t2, v1.pages, v2.pages)
    ensures Progress(v0, v2, r0, r2, t0, t2, p0, n + 1, phys, flags)
    ensures Cost(v0, p0, n + 1) == Cost(v0, p0, n) + Needed(v1, p0 + n)
  {
    hide Or, Cached, MoreTables, TablesCover, MapPages, PageDescriptor, Cost, Needed;
    MoreTablesTwice(r0, r1, r2);
    PageCost(v0, v1, v2, p0, n);
    MapPagesNext(v0.pages, p0, n, phys, flags);
    CachedMapStep(t0, t1, t2, v0.pages, p0, n, phys, flags);
  }

  lemma ProgressStops(v0: View, v1: View, v2: View, r0: map<Table, Role>, r1: map<Table, Role>, r2: map<Table, Role>,
                      t0: map<nat, nat>, t1: map<nat, nat>, t2: map<nat, nat>,
                      p0: nat, n: nat, goal: nat, phys: nat, flags: Word)
    requires phys + PAGE_SIZE * goal <= PA_LIMIT && n < goal
    requires Progress(v0, v1, r0, r1, t0, t1, p0, n, phys, flags)
    requires PageFailed(v1, v2, p0 + n) && MoreTables(r1, r2) && Cached(t1, t2, v1.pages, v2.pages)
    ensures Stopped(v0, v2, r0, r2, t0, t2, p0, n, goal, phys, flags)
    ensures Cost(v0, p0, goal) >= Cost(v0, p0, n) + Needed(v1, p0 + n)
  {
    hide Cached, MoreTables, TablesCover, MapPages, Cost, Needed;
    MoreTablesTwice(r0, r1, r2);
    CostAtFailure(v0, v1, p0, n, goal);
    CoverAtFailure(v0, v1, v2, p0, n, goal);
    CachedTwice(t0, t1, t2, v0.pages, v2.pages) by {
      assert Cached(t1, t2, v0.pages, v2.pages) by { CachedWider(t1, t2, v0.pages, v2.pages); }
    }
  }

  lemma CachedWider(t: map<nat, nat>, t': map<nat, nat>, pages: map<nat, Word>, pages': map<nat, Word>)
    requires Cached(t, t', pages', pages')
    ensures Cached(t, t', pages, pages')
  {
  }

  // ---- What `unmap` leaves behind ----

  /** The flat map without pages `[p0, p0 + n)`. */
  ghost function UnmapPages(pages: map<nat, Word>, p0: nat, n: nat): map<nat, Word> {
    map p | p in pages && !(p0 <= p < p0 + n) :: pages[p]
  }

  ghost predicate EmptyRegion(pages: map<nat, Word>, r: nat) {
    forall p :: p in pages ==> p / LEAF_SPAN != r
  }

  /** Third-level tables that pages `[p0, p0 + n)` fall in and that hold no page any more: their frames
      are released although their second-level slots still name them. */
  ghost function Released(v: View, role: map<Table, Role>, p0: nat, n: nat): set<Table> {
    set t | t in role && role[t].Leaf? && Touched(p0, n, LEAF_SPAN, role[t].r) && EmptyRegion(v.pages, role[t].r)
  }

  /** A third-level table is all zero exactly when its region has no page. */
  lemma ZeroMeansEmpty(m: Memory, l1: Table, v: View, role: map<Table, Role>, r: nat)
    requires Tree(m, l1, v, role) && r in v.leaf
    ensures ZeroTable(m, v.leaf[r]) <==> EmptyRegion(v.pages, r)
  {
    var t := v.leaf[r];
    assert LeafHolds(m, t, r, v.pages);
    if EmptyRegion(v.pages, r) {
      forall k: nat | k < 512 ensures Slot(m, t, k) == 0 {
        assert Slot(m, t, k) == Descriptor(v.pages, 512 * r + k);
        assert (512 * r + k) / LEAF_SPAN == r;
      }
    }
    if ZeroTable(m, t) {
      forall p | p in v.pages ensures p / LEAF_SPAN != r {
        if p / LEAF_SPAN == r { LeafSlot(m, t, v.pages, p); }
      }
    }
  }

  /** A second-level table that still names a third-level table is not empty. */
  lemma ParentNotZero(m: Memory, l1: Table, v: View, role: map<Table, Role>, r: nat)
    requires Tree(m, l1, v, role) && r in v.leaf
    ensures r / 512 in v.mid && !ZeroTable(m, v.mid[r / 512])
  {
    var t := v.mid[r / 512];
    assert MidHolds(m, t, r / 512, v.leaf);
    assert 512 * (r / 512) + r % 512 == r;
    assert Slot(m, t, r % 512) == Link(v.leaf, r);
  }

  lemma ReleasedNext(v: View, role: map<Table, Role>, m: Memory, l1: Table, p0: nat, n: nat)
    requires Tree(m, l1, v, role) && (p0 + n) / LEAF_SPAN in v.leaf
    ensures var v' := v.(pages := v.pages - {p0 + n});
            var t := v.leaf[(p0 + n) / LEAF_SPAN];
            Released(v', role, p0, n + 1) ==
              Released(v, role, p0, n) + if EmptyRegion(v'.pages, (p0 + n) / LEAF_SPAN) then {t} else {}
  {
    var v' := v.(pages := v.pages - {p0 + n});
    var r := (p0 + n) / LEAF_SPAN;
    SlotsOrdered(p0, p0 + n, LEAF_SPAN);
    if n > 0 { NextSlot(p0 + n, LEAF_SPAN); SlotsOrdered(p0, p0 + n - 1, LEAF_SPAN); }
    forall q | q != r ensures EmptyRegion(v'.pages, q) == EmptyRegion(v.pages, q) {
      if EmptyRegion(v'.pages, q) {
        forall p | p in v.pages ensures p / LEAF_SPAN != q {
          assert p == p0 + n || p in v'.pages;
        }
      }
    }
    forall q ensures Touched(p0, n + 1, LEAF_SPAN, q) == (q == r || Touched(p0, n, LEAF_SPAN, q)) {}
    assert EmptyRegion(v.pages, r) ==> EmptyRegion(v'.pages, r);
  }

  lemma LeafInRole(m: Memory, l1: Table, v: View, role: map<Table, Role>, r: nat)
    requires Tree(m, l1, v, role) && r in v.leaf
    ensures v.leaf[r] in role
  {
  }

  lemma CachedSmaller(t0: map<nat, nat>, t1: map<nat, nat>, t2: map<nat, nat>, pages: map<nat, Word>, p: nat)
    requires Cached(t0, t1, pages, pages) && Cached(t1, t2, pages - {p}, pages - {p})
    ensures Cached(t0, t2, pages, pages)
  {
  }

  lemma FreeKeepsTree(m: Memory, g: Geometry, l1: Table, v: View, role: map<Table, Role>, freed: set<Table>, t: Table)
    requires GoodBitmap(m, g) && Tree(m, l1, v, role) && t in role
    requires (forall t :: t in role ==> IsFrame(g, t)) && Accounted(m, g, role.Keys - freed)
    ensures var m' := FreeStep(m, g, t);
            && |m'| == RAM_WORDS && GoodBitmap(m', g) && Tree(m', l1, v, role)
            && Accounted(m', g, role.Keys - (freed + {t}))
  {
    var f := FrameOf(g, t);
    if IsUsed(m, g, f) {
      SetFreeRemovesFrame(m, g, f);
      forall u | u in role ensures SameTable(m, SetFree(m, g, f), u) { SetFreeKeepsTables(m, g, f, u); }
      TreeFrame(m, SetFree(m, g, f), l1, v, role);
      forall j: nat | j < g.total
        ensures IsUsed(SetFree(m, g, f), g, j) == (j != f && IsUsed(m, g, j))
      {
        SetFreeBit(m, g, f, j);
      }
    }
  }

  ghost predicate AllMapped(v: View, p0: nat, n: nat) {
    forall p: nat :: p0 <= p < p0 + n ==> HasTables(v, p)
  }

  ghost predicate HasTables(v: View, p: nat) {
    p / LEAF_SPAN in v.leaf
  }

  /** The address a walk must give after `n` pages from `va` were removed. */
  ghost function Unmapped(before: Word, virt: Word, va: Word, n: nat): Word {
    var v := virt % VA_SIZE;
    if va <= v < va + PAGE_SIZE * n then NO_ADDRESS else before
  }

  lemma UnmapWalks(m: Memory, m': Memory, l1: Table, v: View, v': View, role: map<Table, Role>,
                   va: Word, n: nat, virt: Word)
    requires Tree(m, l1, v, role) && Tree(m', l1, v', role) && va % PAGE_SIZE == 0
    requires v'.pages == UnmapPages(v.pages, va / PAGE_SIZE, n)
    ensures Walk(m', l1, virt) == Unmapped(Walk(m, l1, virt), virt, va, n)
  {
    hide And, Or, Tree, Walk;
    WalkIsLookup(m, l1, v, role, virt);
    WalkIsLookup(m', l1, v', role, virt);
    PageInRange(va, virt, n);
  }

  lemma UnmapWords(m: Memory, m': Memory, l1: Table, v: View, v': View, role: map<Table, Role>,
                   va: Word, n: nat, virt: Word)
    requires Tree(m, l1, v, role) && Tree(m', l1, v', role) && va % PAGE_SIZE == 0
    requires v'.pages == UnmapPages(v.pages, va / PAGE_SIZE, n)
    ensures LeafWord(m', l1, virt) ==
            if va <= virt % 0x80_0000_0000 < va + 4096 * n then 0 else LeafWord(m, l1, virt)
  {
    hide And, Or, Tree, LeafWord;
    LeafWordIs(m, l1, v, role, virt);
    LeafWordIs(m', l1, v', role, virt);
    PageInRange(va, virt, n);
  }

  lemma UnmapNothing(tlb: map<nat, nat>, v: View, role: map<Table, Role>, p0: nat)
    ensures UnmapPages(v.pages, p0, 0) == v.pages && Released(v, role, p0, 0) == {}
    ensures Cached(tlb, tlb, v.pages, v.pages)
  {
  }

  lemma UnmapNext(t0: map<nat, nat>, t1: map<nat, nat>, t2: map<nat, nat>, pages: map<nat, Word>, p0: nat, n: nat)
    requires Cached(t0, t1, pages, pages)
    requires Cached(t1, t2, UnmapPages(pages, p0, n), UnmapPages(pages, p0, n))
    ensures Cached(t0, t2, pages, pages)
    ensures UnmapPages(pages, p0, n + 1) == UnmapPages(pages, p0, n) - {p0 + n}
  {
  }

  lemma DataKeepsTree(m: Memory, l1: Table, v: View, role: map<Table, Role>, f: Table, k: nat)
    requires Tree(m, l1, v, role) && f !in role
    ensures Tree(m, l1, v, role[f := Data(k)])
  {
  }

  lemma RolesAreFrames(m: Memory, g: Geometry, frames: set<Table>)
    requires GoodBitmap(m, g) && Accounted(m, g, frames)
    ensures forall t :: t in frames ==> IsFrame(g, t)
    ensures frames - {} == frames
  {
  }

  lemma ReleasedInRole(v: View, role: map<Table, Role>, p0: nat, n: nat)
    ensures Released(v, role, p0, n) <= role.Keys
  {
  }

  /** Region `r` still holds a page once pages `[p0, p0 + n)` are gone. */
  ghost predicate KeepsPage(pages: map<nat, Word>, p0: nat, n: nat, r: nat) {
    exists p :: p in pages && p / LEAF_SPAN == r && !(p0 <= p < p0 + n)
  }

  /** What a caller of `unmap` can check beforehand: no table is released exactly when every 2 MiB region that the
      range touches maps some page outside the range. */
  lemma ReleasesNothing(l1: Table, v: View, role: map<Table, Role>, p0: nat, n: nat)
    requires Owned(l1, v, role) && AllMapped(v, p0, n)
    ensures Released(v.(pages := UnmapPages(v.pages, p0, n)), role, p0, n) == {} <==>
            forall r: nat :: Touched(p0, n, LEAF_SPAN, r) ==> KeepsPage(v.pages, p0, n, r)
  {
    var v' := v.(pages := UnmapPages(v.pages, p0, n));
    var freed := Released(v', role, p0, n);
    forall r: nat | Touched(p0, n, LEAF_SPAN, r)
      ensures r in v.leaf && (v.leaf[r] in freed <==> !KeepsPage(v.pages, p0, n, r))
    {
      var p := if p0 < LEAF_SPAN * r then LEAF_SPAN * r else p0;
      assert p0 <= p < p0 + n && p / LEAF_SPAN == r;
      assert HasTables(v, p);
      if !EmptyRegion(v'.pages, r) {
        var q :| q in v'.pages && q / LEAF_SPAN == r;
        assert q in v.pages;
      } else {
        assert forall q :: q in v.pages && !(p0 <= q < p0 + n) ==> q in v'.pages;
      }
    }
    if freed != {} {
      var t :| t in freed;
      assert Touched(p0, n, LEAF_SPAN, role[t].r);
    }
  }

  /** Ownership fails after `unmap` on the simplest input: unmapping the only page of a region releases its
      third-level table, whose role and whose second-level link both remain. */
  lemma LonePageIsReleased(l1: Table, v: View, role: map<Table, Role>, p: nat)
    requires Shape(v) && Owned(l1, v, role) && p in v.pages
    requires forall q :: q in v.pages && q / LEAF_SPAN == p / LEAF_SPAN ==> q == p
    ensures p / LEAF_SPAN in v.leaf
    ensures Released(v.(pages := UnmapPages(v.pages, p, 1)), role, p, 1) == {v.leaf[p / LEAF_SPAN]}
  {
    var v' := v.(pages := UnmapPages(v.pages, p, 1));
    var t := v.leaf[p / LEAF_SPAN];
    forall q | q in v'.pages ensures q / LEAF_SPAN != p / LEAF_SPAN { assert q in v.pages; }
    assert EmptyRegion(v'.pages, p / LEAF_SPAN);
    forall t' | t' in Released(v', role, p, 1) ensures t' == t {}
  }

  /** Releasing frames that keep a role breaks the account, however few. */
  lemma ReleasedBreaksAccount(m: Memory, g: Geometry, role: map<Table, Role>, freed: set<Table>)
    requires GoodBitmap(m, g) && freed <= role.Keys
    requires (forall t :: t in role ==> IsFrame(g, t)) && Accounted(m, g, role.Keys - freed)
    ensures Accounted(m, g, role.Keys) <==> freed == {}
  {
    if freed == {} {
      assert role.Keys - freed == role.Keys;
    } else {
      var t :| t in freed;
      assert FrameAddr(g, FrameOf(g, t)) == t;
    }
  }

  lemma UnmapCoherent(t0: map<nat, nat>, t1: map<nat, nat>, t2: map<nat, nat>, pages: map<nat, Word>, p0: nat, n: nat)
    requires Cached(t0, t1, pages, pages) && Invalidated(t1, t2, UnmapPages(pages, p0, n), p0, n)
    ensures Coherent(t0, pages) ==> Coherent(t2, UnmapPages(pages, p0, n))
    ensures Cached(t0, t2, pages, pages)
  {
  }

  // ---- Lost ownership, whatever the roles ----

  /** Some tree of tables with some assignment of roles matches memory and the bitmap. */
  ghost predicate Ownable(m: Memory, g: Geometry, l1: Table)
    requires GoodBitmap(m, g)
  {
    exists v: View, role: map<Table, Role> :: Tree(m, l1, v, role) && Accounted(m, g, role.Keys)
  }

  /** Slot `i` of the first-level table and slot `j` below it are links, and the frame they lead to is marked free. */
  ghost predicate LinkedFree(m: Memory, g: Geometry, l1: Table, i: nat, j: nat, t: Table)
    requires GoodBitmap(m, g)
  {
    && i < 512 && j < 512 && Slot(m, l1, i) % 4 == 3 && IsTable(And(Slot(m, l1, i), ADDR_MASK))
    && var d := Slot(m, And(Slot(m, l1, i), ADDR_MASK), j);
       d % 4 == 3 && And(d, ADDR_MASK) == t && IsFrame(g, t) && !IsUsed(m, g, FrameOf(g, t))
  }

  lemma LinkedMustBeUsed(m: Memory, g: Geometry, l1: Table, i: nat, j: nat, t: Table,
                         v: View, role: map<Table, Role>)
    requires GoodBitmap(m, g) && LinkedFree(m, g, l1, i, j, t)
    ensures !(Tree(m, l1, v, role) && Accounted(m, g, role.Keys))
  {
    hide And, Slot, IsUsed, Represents, Shape;
    if Tree(m, l1, v, role) && Accounted(m, g, role.Keys) {
      SlotNamesRole(m, l1, v, role, l1, i);
      SlotNamesRole(m, l1, v, role, And(Slot(m, l1, i), ADDR_MASK), j);
      UsedFrame(m, g, role.Keys, t);
    }
  }

  /** A released third-level table is lost: on the words of memory it is linked and free, and no other assignment of
      roles repairs that. */
  lemma ReleasedIsLost(m: Memory, g: Geometry, l1: Table, v: View, role: map<Table, Role>, freed: set<Table>, t: Table)
    requires GoodBitmap(m, g) && Tree(m, l1, v, role) && t in freed && freed <= role.Keys && role[t].Leaf?
    requires (forall t :: t in role ==> IsFrame(g, t)) && Accounted(m, g, role.Keys - freed)
    ensures LinkedFree(m, g, l1, role[t].r / 512, role[t].r % 512, t) && !Ownable(m, g, l1)
  {
    hide And, Slot, IsUsed, Link, LeafHolds;
    var r := role[t].r;
    var mid := v.mid[r / 512];
    assert 512 * (r / 512) + r % 512 == r;
    LinkedSlot(v.mid, r / 512);
    LinkedSlot(v.leaf, r);
    assert Slot(m, l1, r / 512) == Link(v.mid, r / 512);
    assert MidHolds(m, mid, r / 512, v.leaf);
    assert Slot(m, mid, r % 512) == Link(v.leaf, r);
    assert FrameAddr(g, FrameOf(g, t)) == t;
    forall v': View, role': map<Table, Role> ensures !(Tree(m, l1, v', role') && Accounted(m, g, role'.Keys)) {
      LinkedMustBeUsed(m, g, l1, r / 512, r % 512, t, v', role');
    }
  }

  lemma LinkedSlot(tables: map<nat, Table>, k: nat)
    requires k in tables
    ensures Link(tables, k) % 4 == 3 && And(Link(tables, k), ADDR_MASK) == tables[k]
  {
    hide And;
    LinkDecodes(tables, k);
    LowTwoBits(Link(tables, k));
  }

  /** After `unmap`: every released table is lost, and memory can still be owned exactly when there is none. */
  lemma OwnableUnlessReleased(m: Memory, g: Geometry, l1: Table, v: View, role: map<Table, Role>, p0: nat, n: nat)
    requires GoodBitmap(m, g) && Tree(m, l1, v, role) && (forall t :: t in role ==> IsFrame(g, t))
    requires Accounted(m, g, role.Keys - Released(v, role, p0, n))
    ensures Ownable(m, g, l1) <==> Released(v, role, p0, n) == {}
    ensures forall t :: t in Released(v, role, p0, n) ==>
              t in role && role[t].Leaf? && LinkedFree(m, g, l1, role[t].r / 512, role[t].r % 512, t)
  {
    hide Tree, Accounted, IsUsed, GoodBitmap, LinkedFree, EmptyRegion, Touched;
    var freed := Released(v, role, p0, n);
    forall t | t in freed
      ensures t in role && role[t].Leaf? && LinkedFree(m, g, l1, role[t].r / 512, role[t].r % 512, t)
      ensures !Ownable(m, g, l1)
    {
      ReleasedIsLost(m, g, l1, v, role, freed, t);
    }
    ReleasedBreaksAccount(m, g, role, freed);
  }

  class PageTables {
    const pmm: Allocator
    var l1Table: Table
    ghost var tlb: map<nat, nat>
    ghost var view: View
    ghost var role: map<Table, Role>
    ghost var data: nat

    constructor (pmm: Allocator)
      ensures this.pmm == pmm
    {
      this.pmm := pmm;
      l1Table := 0;
    }

    ghost function Mem(): Memory
      requires pmm.Valid()
      reads this, pmm, pmm.ram
    {
      pmm.ram[..]
    }

    ghost predicate Valid()
      reads this, pmm, pmm.ram
    {
      && pmm.Valid()
      && Tree(Mem(), l1Table, view, role)
      && Accounted(Mem(), pmm.Geo(), role.Keys)
      && Counted(view, role, data)
    }

    /** Frames the allocator can still hand out. */
    ghost function Spare(): int
      reads this, pmm
    {
      pmm.totalFrames - |role|
    }

    lemma SpareNatural()
      requires Valid()
      ensures 0 <= Spare() <= pmm.totalFrames
    {
      RolesCountUsed(Mem(), pmm.Geo(), role.Keys);
      FullWhenNoneFree(Mem(), pmm.Geo());
      var used := UsedFrames(Mem(), pmm.Geo());
      if used != Below(pmm.totalFrames) { CardinalityOfProperSubset(used, Below(pmm.totalFrames)); }
    }

    /** Store one descriptor; the hardware may refill its cache right after. */
    method Store(table: Table, index: nat, d: Word)
      requires pmm.Valid() && IsFrame(pmm.Geo(), table) && index < 512
      modifies pmm.ram, `tlb
      ensures pmm.Valid() && Mem() == Put(old(Mem()), table, index, d)
      ensures SameBitmap(old(Mem()), Mem(), pmm.Geo())
      ensures Refilled(old(tlb), tlb, Mem(), l1Table)
    {
      PutKeepsBitmap(Mem(), pmm.Geo(), table, index, d);
      pmm.ram[table / 8 + index] := d;
      Refill();
    }

    ghost method Refill()
      requires pmm.Valid()
      modifies `tlb
      ensures Refilled(old(tlb), tlb, Mem(), l1Table)
    {
      assert Refilled(tlb, tlb, Mem(), l1Table);
      var next :| Refilled(tlb, next, Mem(), l1Table);
      tlb := next;
    }

    /** `translate`: the software walk. */
    method Translate(virt: Word) returns (pa: Word)
      requires Valid()
      ensures pa == Walk(Mem(), l1Table, virt)
      ensures pa == Lookup(view, virt)
    {
      hide And, Or, Tree;
      WalkIsLookup(Mem(), l1Table, view, role, virt);
      WalkStaysInTree(Mem(), l1Table, view, role, virt);
      var d1 := pmm.ram[l1Table / 8 + L1Index(virt)];
      if And(d1, 3) != 3 { return NO_ADDRESS; }
      var l2 := And(d1, ADDR_MASK);
      var d2 := pmm.ram[l2 / 8 + L2Index(virt)];
      if And(d2, 3) != 3 { return NO_ADDRESS; }
      var l3 := And(d2, ADDR_MASK);
      var d3 := pmm.ram[l3 / 8 + L3Index(virt)];
      if And(d3, 3) != 3 { return NO_ADDRESS; }
      LeafAddressFits(d3, virt);
      pa := Or(And(d3, ADDR_MASK), And(virt, 0xFFF));
    }

    /** Zero a fresh frame before it is linked: no translation changes at any of the 512 stores. */
    method ZeroFrame(f: Table)
      requires pmm.Valid() && Tree(Mem(), l1Table, view, role) && IsFrame(pmm.Geo(), f) && f !in role
      modifies pmm.ram, `tlb
      ensures pmm.Valid() && Tree(Mem(), l1Table, view, role) && ZeroTable(Mem(), f)
      ensures SameBitmap(old(Mem()), Mem(), pmm.Geo())
      ensures Cached(old(tlb), tlb, view.pages, view.pages)
    {
      hide Tree, Walk, IsUsed;
      for i := 0 to 512
        invariant pmm.Valid() && Tree(Mem(), l1Table, view, role)
        invariant forall j: nat :: j < i ==> Slot(Mem(), f, j) == 0
        invariant SameBitmap(old(Mem()), Mem(), pmm.Geo())
        invariant Cached(old(tlb), tlb, view.pages, view.pages)
      {
        ghost var m, before := Mem(), tlb;
        Store(f, i, 0);
        PutOutside(m, l1Table, view, role, f, i, 0);
        RefillFromTree(before, tlb, Mem(), l1Table, view, role);
        CachedTwice(old(tlb), before, tlb, view.pages, view.pages);
        forall j: nat | j < i + 1 ensures Slot(Mem(), f, j) == 0 { PutSlot(m, f, i, 0, f, j); }
      }
    }

    /** One frame from the allocator, not yet given a role; 0 exactly when none is left. */
    method TakeFrame() returns (f: Word)
      requires Valid()
      modifies pmm.ram
      ensures pmm.Valid() && Tree(Mem(), l1Table, view, role)
      ensures f == 0 <==> Spare() == 0
      ensures f == 0 ==> Valid() && Mem() == old(Mem())
      ensures f != 0 ==> IsTable(f) && IsFrame(pmm.Geo(), f) && f !in role
                         && Accounted(Mem(), pmm.Geo(), role.Keys + {f})
    {
      AllocKeepsTree(Mem(), pmm.Geo(), l1Table, view, role);
      f := pmm.AllocFrame();
    }

    /** `_get_or_alloc_table`: the table below one slot, made on demand; 0 when no frame is left. */
    method GetOrAllocTable(table: Table, index: nat, ghost place: Place) returns (child: Word)
      requires Valid() && index < 512 && IsPlace(view, l1Table, place, table, index)
      modifies pmm.ram, `tlb, `view, `role
      ensures Valid()
      ensures child == 0 <==> !Present(old(view), place) && old(Spare()) == 0
      ensures child == 0 || Present(old(view), place) ==> view == old(view) && role == old(role)
      ensures child != 0 ==> IsTable(child) && Present(view, place) && ChildAt(view, place) == child
      ensures child != 0 ==> Grew(old(view), view, place) && MoreTables(old(role), role)
      ensures child != 0 ==> Spare() == old(Spare()) - if Present(old(view), place) then 0 else 1
      ensures Cached(old(tlb), tlb, view.pages, view.pages)
    {
      ChildIsFrame(Mem(), pmm.Geo(), l1Table, view, role, place, table, index);
      SlotDecodes(Mem(), l1Table, view, role, place, table, index);
      hide And, Or, Walk, Tree, Accounted, IsUsed, IsPlace;
      var entry := pmm.ram[table / 8 + index];
      if And(entry, 1) != 0 {
        PresentGrew(view, place);
        return And(entry, ADDR_MASK);
      }
      child := MakeTable(table, index, place);
    }

    /** The allocating half: take a frame, zero it, and only then link it. */
    method MakeTable(table: Table, index: nat, ghost place: Place) returns (child: Word)
      requires Valid() && index < 512 && IsPlace(view, l1Table, place, table, index)
      requires !Present(view, place) && IsFrame(pmm.Geo(), table)
      modifies pmm.ram, `tlb, `view, `role
      ensures Valid()
      ensures child == 0 <==> old(Spare()) == 0
      ensures child == 0 ==> view == old(view) && role == old(role)
      ensures child != 0 ==> IsTable(child) && Present(view, place) && ChildAt(view, place) == child
      ensures child != 0 ==> Grew(old(view), view, place) && MoreTables(old(role), role)
      ensures child != 0 ==> Spare() == old(Spare()) - 1
      ensures Cached(old(tlb), tlb, view.pages, view.pages)
    {
      hide And, Or, Walk, Tree, Accounted, IsUsed, IsPlace, Grew, MoreTables;
      child := TakeFrame();
      if child == 0 { return; }
      ghost var m := Mem();
      ZeroFrame(child);
      AccountedSame(m, Mem(), pmm.Geo(), role.Keys + {child});
      ghost var t := tlb;
      LinkFrame(table, index, child, place);
      CachedTwice(old(tlb), t, tlb, view.pages, view.pages);
    }

    /** Link a zeroed frame with `table[index] = child | 0b11`. */
    method LinkFrame(table: Table, index: nat, child: Table, ghost place: Place)
      requires pmm.Valid() && Tree(Mem(), l1Table, view, role) && Counted(view, role, data)
      requires index < 512 && IsPlace(view, l1Table, place, table, index) && !Present(view, place)
      requires IsFrame(pmm.Geo(), table) && IsFrame(pmm.Geo(), child) && child !in role && ZeroTable(Mem(), child)
      requires Accounted(Mem(), pmm.Geo(), role.Keys + {child})
      modifies pmm.ram, `tlb, `view, `role
      ensures Valid()
      ensures view == WithTable(old(view), place, child) && role == old(role)[child := RoleAt(place)]
      ensures Grew(old(view), view, place) && MoreTables(old(role), role) && Spare() == old(Spare()) - 1
      ensures Cached(old(tlb), tlb, view.pages, view.pages)
    {
      hide And, Or, Tree, Walk, IsUsed;
      TableDescriptor(child);
      LinkTable(Mem(), l1Table, view, role, place, table, index, child, Or(child, 3));
      Store(table, index, Or(child, 3));
      AccountedSame(old(Mem()), Mem(), pmm.Geo(), role.Keys + {child});
      view := WithTable(view, place, child);
      role := role[child := RoleAt(place)];
      assert role.Keys == old(role).Keys + {child};
      RefillFromTree(old(tlb), tlb, Mem(), l1Table, view, role);
    }

    /** The third-level table for `va`, made on demand with its parent; 0 when the frames run out. */
    method TablesFor(va: Word) returns (l3Table: Word)
      requires Valid() && va < PAGE_SIZE * VA_PAGES
      modifies pmm.ram, `tlb, `view, `role
      ensures Valid() && MoreTables(old(role), role) && view.pages == old(view).pages
      ensures l3Table != 0 <==> Needed(old(view), va / PAGE_SIZE) <= old(Spare())
      ensures Spare() == if l3Table != 0 then old(Spare()) - Needed(old(view), va / PAGE_SIZE) else 0
      ensures var p := va / PAGE_SIZE;
              if l3Table != 0 then
                && view.mid.Keys == old(view).mid.Keys + {p / 512 / 512}
                && view.leaf.Keys == old(view).leaf.Keys + {p / 512}
                && l3Table == view.leaf[p / 512]
              else
                && old(view).mid.Keys <= view.mid.Keys <= old(view).mid.Keys + {p / 512 / 512}
                && view.leaf.Keys == old(view).leaf.Keys
      ensures Cached(old(tlb), tlb, view.pages, view.pages)
    {
      hide And, Or, Tree, Accounted, IsUsed, GoodBitmap, L1Index, L2Index, L3Index, Cached, Counted;
      SpareNatural();
      ghost var p := va / PAGE_SIZE;
      IndicesOfPage(va);
      assert PageOf(va) == p;
      LeafHasMid(Mem(), l1Table, view, role, p / 512);
      l3Table := GetOrAllocTable(l1Table, L1Index(va), First(p / 512 / 512));
      if l3Table == 0 { return; }
      ghost var t1 := tlb;
      l3Table := GetOrAllocTable(l3Table, L2Index(va), Second(p / 512));
      CachedTwice(old(tlb), t1, tlb, view.pages, view.pages);
    }

    /** One iteration of `map`: find or make both tables, then write the page descriptor. */
    method MapPage(va: Word, phys: Word, flags: Word) returns (ok: bool)
      requires Valid() && va % PAGE_SIZE == 0 && va < PAGE_SIZE * VA_PAGES
      requires PageDescriptor(phys, flags) % 4 == 3
      modifies pmm.ram, `tlb, `view, `role
      ensures Valid() && MoreTables(old(role), role)
      ensures ok <==> Needed(old(view), va / PAGE_SIZE) <= old(Spare())
      ensures Spare() == if ok then old(Spare()) - Needed(old(view), va / PAGE_SIZE) else 0
      ensures if ok then PageDone(old(view), view, va / PAGE_SIZE, PageDescriptor(phys, flags))
              else PageFailed(old(view), view, va / PAGE_SIZE)
      ensures Cached(old(tlb), tlb, old(view).pages, view.pages)
    {
      hide And, Or, Tree, Accounted, IsUsed, GoodBitmap;
      SpareNatural();
      LeafHasMid(Mem(), l1Table, view, role, va / PAGE_SIZE / 512);
      IndicesOfPage(va);
      assert PageOf(va) == va / PAGE_SIZE;
      var l3Table := TablesFor(va);
      if l3Table == 0 { return false; }
      ghost var t, m := tlb, Mem();
      LeafIsFrame(m, pmm.Geo(), l1Table, view, role, va / PAGE_SIZE / 512);
      WriteLeaf(l3Table, L3Index(va), va / PAGE_SIZE, PageDescriptor(phys, flags));
      AccountedSame(m, Mem(), pmm.Geo(), role.Keys);
      CachedThen(old(tlb), t, tlb, old(view).pages, view.pages);
      ok := true;
    }

    /** `l3_table[index] = d` */
    method WriteLeaf(table: Table, index: nat, ghost p: nat, d: Word)
      requires pmm.Valid() && Tree(Mem(), l1Table, view, role)
      requires p < VA_PAGES && p / 512 in view.leaf && table == view.leaf[p / 512] && index == p % 512
      requires IsFrame(pmm.Geo(), table) && (d == 0 || d % 4 == 3)
      modifies pmm.ram, `tlb, `view
      ensures pmm.Valid() && Tree(Mem(), l1Table, view, role) && SameBitmap(old(Mem()), Mem(), pmm.Geo())
      ensures view == Stored(old(view), p, d)
      ensures Cached(old(tlb), tlb, view.pages, view.pages)
    {
      hide Walk, Tree, IsUsed;
      StorePage(Mem(), l1Table, view, role, p, d);
      Store(table, index, d);
      view := Stored(view, p, d);
      RefillFromTree(old(tlb), tlb, Mem(), l1Table, view, role);
    }

    /** `map`: send `size / PAGE_SIZE` pages from `va` to consecutive frames from `phys`.
        `done` pages were mapped; it falls short exactly when the frames run out. */
    method Map(va: Word, phys: Word, size: Word, flags: Word) returns (done: nat)
      requires Valid() && va % 4096 == 0 && phys % 4096 == 0
      requires va + size <= 0x80_0000_0000 && phys + size <= 0x1_0000_0000_0000
      requires And(flags, 0x0000_FFFF_FFFF_F000) == 0
      modifies pmm.ram, `tlb, `view, `role
      ensures Valid() && MoreTables(old(role), role)
      ensures done <= size / PAGE_SIZE
      ensures done == size / PAGE_SIZE <==> Cost(old(view), va / PAGE_SIZE, size / PAGE_SIZE) <= old(Spare())
      ensures view.pages == MapPages(old(view).pages, va / PAGE_SIZE, done, phys, flags)
      ensures done == size / PAGE_SIZE ==>
                && TablesCover(old(view), view, va / PAGE_SIZE, done)
                && Spare() == old(Spare()) - Cost(old(view), va / PAGE_SIZE, done)
      ensures done < size / PAGE_SIZE ==> Spare() == 0 && !HasTables(view, va / PAGE_SIZE + done)
      ensures Covers(old(view).leaf.Keys, view.leaf.Keys, va / PAGE_SIZE, done, LEAF_SPAN)
      ensures WithinCover(old(view).mid.Keys, view.mid.Keys, va / PAGE_SIZE, size / PAGE_SIZE, MID_SPAN)
      ensures old(view).mid.Keys <= view.mid.Keys
      ensures Cached(old(tlb), tlb, old(view).pages, view.pages)
      ensures done == size / PAGE_SIZE && old(Coherent(tlb, view.pages)) ==> Coherent(tlb, view.pages)
      ensures forall virt: Word ::
                var a := virt % 0x80_0000_0000;
                Walk(Mem(), l1Table, virt) ==
                if va <= a < va + 4096 * done then phys + (a - va) else Walk(old(Mem()), l1Table, virt)
      ensures forall virt: Word ::
                var a := virt % 0x80_0000_0000;
                if va <= a < va + 4096 * done
                then Maps(LeafWord(Mem(), l1Table, virt), phys + (a - va) / 4096 * 4096, flags)
                else LeafWord(Mem(), l1Table, virt) == LeafWord(old(Mem()), l1Table, virt)
    {
      hide And, Or, Tree, Accounted, IsUsed, GoodBitmap, MapPages, Cost, Cached, MoreTables, Coherent, Touched, Walk,
           LeafWord, Maps;
      var numPages := size / PAGE_SIZE;
      done := WritePages(va, phys, numPages, flags);
      MapEffect(old(Mem()), Mem(), l1Table, old(view), view, old(role), role, va, phys, done, flags);
      if done < numPages { return; }
      ghost var t := tlb;
      InvalidatePages(va, numPages);
      MapCoherent(old(tlb), t, tlb, old(view).pages, va / PAGE_SIZE, numPages, phys, flags);
    }

    /** The descriptor-writing loop of `map`. */
    method WritePages(va: Word, phys: Word, numPages: nat, flags: Word) returns (done: nat)
      requires Valid() && va % PAGE_SIZE == 0 && phys % PAGE_SIZE == 0
      requires va + PAGE_SIZE * numPages <= PAGE_SIZE * VA_PAGES && phys + PAGE_SIZE * numPages <= PA_LIMIT
      requires And(flags, ADDR_MASK) == 0
      modifies pmm.ram, `tlb, `view, `role
      ensures Valid() && done <= numPages
      ensures done == numPages <==> Cost(old(view), va / PAGE_SIZE, numPages) <= old(Spare())
      ensures Spare() == if done == numPages then old(Spare()) - Cost(old(view), va / PAGE_SIZE, done) else 0
      ensures var p0 := va / PAGE_SIZE;
              if done == numPages
              then Progress(old(view), view, old(role), role, old(tlb), tlb, p0, done, phys, flags)
              else Stopped(old(view), view, old(role), role, old(tlb), tlb, p0, done, numPages, phys, flags)
    {
      hide And, Or, Tree, Accounted, IsUsed, GoodBitmap, Progress, Stopped, PageDone, PageFailed, Cost, Needed,
           Cached, MoreTables;
      ghost var p0 := va / PAGE_SIZE;
      ProgressStarts(view, role, tlb, p0, phys, flags);
      SpareNatural();
      done := 0;
      while done < numPages
        invariant done <= numPages && Valid()
        invariant Progress(old(view), view, old(role), role, old(tlb), tlb, p0, done, phys, flags)
        invariant Spare() == old(Spare()) - Cost(old(view), p0, done) >= 0
      {
        ghost var v, r, t := view, role, tlb;
        PageDescriptorNames(phys + done * PAGE_SIZE, flags);
        var ok := MapPage(va + done * PAGE_SIZE, phys + done * PAGE_SIZE, flags);
        assert (va + done * PAGE_SIZE) / PAGE_SIZE == p0 + done;
        SpareNatural();
        if !ok {
          ProgressStops(old(view), v, view, old(role), r, role, old(tlb), t, tlb, p0, done, numPages, phys, flags);
          return;
        }
        ProgressNext(old(view), v, view, old(role), r, role, old(tlb), t, tlb, p0, done, phys, flags);
        done := done + 1;
      }
    }

    /** One `tlbi` per page; the hardware may refill in between. */
    method InvalidatePages(va: Word, numPages: nat)
      requires pmm.Valid() && Tree(Mem(), l1Table, view, role) && va % PAGE_SIZE == 0
      modifies `tlb
      ensures Invalidated(old(tlb), tlb, view.pages, va / PAGE_SIZE, numPages)
    {
      ghost var p0 := va / PAGE_SIZE;
      var i := 0;
      while i < numPages
        invariant 0 <= i <= numPages
        invariant Invalidated(old(tlb), tlb, view.pages, p0, i)
      {
        ghost var t := tlb;
        InvalidatePage(p0 + i);
        InvalidatedNext(old(tlb), t, tlb, view.pages, p0, i);
        i := i + 1;
      }
    }

    /** `tlbi vaae1is` for one page. */
    ghost method InvalidatePage(p: nat)
      requires pmm.Valid() && Tree(Mem(), l1Table, view, role)
      modifies `tlb
      ensures Cached(old(tlb) - {p}, tlb, view.pages, view.pages)
    {
      hide Tree, Walk, Cached;
      ghost var t := tlb - {p};
      tlb := t;
      Refill();
      RefillFromTree(t, tlb, Mem(), l1Table, view, role);
    }

    /** `_table_is_empty` */
    method TableIsEmpty(table: Table) returns (empty: bool)
      requires pmm.Valid()
      ensures empty == ZeroTable(Mem(), table)
    {
      for i := 0 to 512
        invariant forall j: nat :: j < i ==> Slot(Mem(), table, j) == 0
      {
        if pmm.ram[table / 8 + i] != 0 {
          assert Slot(Mem(), table, i) != 0;
          return false;
        }
      }
      return true;
    }

    /** The state inside `unmap`: the tree is intact, the frames in `freed` are no longer marked used. */
    ghost predicate Unmapping(freed: set<Table>)
      reads this, pmm, pmm.ram
    {
      && pmm.Valid()
      && Tree(Mem(), l1Table, view, role)
      && (forall t :: t in role ==> IsFrame(pmm.Geo(), t))
      && Accounted(Mem(), pmm.Geo(), role.Keys - freed)
    }

    /** Release a table's frame; a second release has no effect. */
    method ReleaseTable(t: Table, ghost freed: set<Table>)
      requires Unmapping(freed) && t in role
      modifies pmm.ram
      ensures Unmapping(freed + {t})
    {
      var g := pmm.Geo();
      FreeKeepsTree(Mem(), g, l1Table, view, role, freed, t);
      pmm.FreeFrame(t);
    }

    /** One iteration of `unmap`; false at the first page whose tables are missing. */
    method UnmapPage(va: Word, ghost freed: set<Table>) returns (ok: bool)
      requires Unmapping(freed) && va % PAGE_SIZE == 0 && va < VA_SIZE
      modifies pmm.ram, `tlb, `view
      ensures var r := va / PAGE_SIZE / LEAF_SPAN;
              ok <==> r in old(view).leaf
      ensures var r := va / PAGE_SIZE / LEAF_SPAN;
              if ok then
                && view == old(view).(pages := old(view).pages - {va / PAGE_SIZE})
                && Unmapping(freed + if EmptyRegion(view.pages, r) then {view.leaf[r]} else {})
              else view == old(view) && Unmapping(freed)
      ensures Cached(old(tlb), tlb, old(view).pages, old(view).pages)
    {
      hide And, Or, Tree, Walk, Accounted, GoodBitmap;
      ghost var p := va / PAGE_SIZE;
      IndicesOfPage(va);
      assert PageOf(va) == p;
      WalkStaysInTree(Mem(), l1Table, view, role, va);
      LeafHasMid(Mem(), l1Table, view, role, p / 512);
      var d1 := pmm.ram[l1Table / 8 + L1Index(va)];
      if And(d1, 3) != 3 { return false; }
      var l2Table := And(d1, ADDR_MASK);
      var d2 := pmm.ram[l2Table / 8 + L2Index(va)];
      if And(d2, 3) != 3 { return false; }
      var l3Table := And(d2, ADDR_MASK);
      ClearLeaf(l3Table, L3Index(va), p, freed);
      var l2Empty := TableIsEmpty(l2Table);
      ParentNotZero(Mem(), l1Table, view, role, p / 512);
      if l2Empty {
        assert false;   // the slot just followed is still linked: the second-level table is never released
      }
      ok := true;
    }

    /** Zero one third-level slot and release the table's frame if nothing is left in it. */
    method ClearLeaf(l3Table: Table, index: nat, ghost p: nat, ghost freed: set<Table>)
      requires Unmapping(freed) && p < VA_PAGES && p / 512 in view.leaf && l3Table == view.leaf[p / 512]
      requires index == p % 512
      modifies pmm.ram, `tlb, `view
      ensures view == old(view).(pages := old(view).pages - {p})
      ensures Unmapping(freed + if EmptyRegion(view.pages, p / 512) then {l3Table} else {})
      ensures Cached(old(tlb), tlb, old(view).pages, old(view).pages)
    {
      hide And, Or, Tree, Walk, Accounted, IsUsed, SameBitmap, EmptyRegion;
      ghost var m := Mem();
      LeafInRole(m, l1Table, view, role, p / 512);
      WriteLeaf(l3Table, index, p, 0);
      AccountedSame(m, Mem(), pmm.Geo(), role.Keys - freed);
      CachedSmaller(old(tlb), old(tlb), tlb, old(view).pages, p);
      ZeroMeansEmpty(Mem(), l1Table, view, role, p / 512);
      var empty := TableIsEmpty(l3Table);
      assert freed + {} == freed;
      if empty {
        ghost var t, m' := tlb, Mem();
        WriteLeaf(l3Table, index, p, 0);
        AccountedSame(m', Mem(), pmm.Geo(), role.Keys - freed);
        CachedSmaller(old(tlb), t, tlb, old(view).pages, p);
        ReleaseTable(l3Table, freed);
      }
    }

    /** `unmap` as written.  `done` pages were removed; it stops at the first page without tables.  Emptied
        third-level tables are released but stay linked, so the frames keep exactly their roles, and the
        allocator agrees with them, only when no table was emptied. */
    method Unmap(va: Word, size: Word) returns (done: nat)
      requires Valid() && va % 4096 == 0 && va + size <= 0x80_0000_0000
      modifies pmm.ram, `tlb, `view
      ensures done <= size / PAGE_SIZE
      ensures AllMapped(old(view), va / PAGE_SIZE, done)
      ensures done < size / PAGE_SIZE ==> !HasTables(old(view), va / PAGE_SIZE + done)
      ensures view == old(view).(pages := UnmapPages(old(view).pages, va / PAGE_SIZE, done))
      ensures Unmapping(Released(view, role, va / PAGE_SIZE, done))
      ensures Valid() <==> Released(view, role, va / PAGE_SIZE, done) == {}
      ensures forall virt: Word ::
                Walk(Mem(), l1Table, virt) ==
                if va <= virt % 0x80_0000_0000 < va + 4096 * done then 0xFFFF_FFFF_FFFF_FFFF
                else Walk(old(Mem()), l1Table, virt)
      ensures forall virt: Word ::
                LeafWord(Mem(), l1Table, virt) ==
                if va <= virt % 0x80_0000_0000 < va + 4096 * done then 0 else LeafWord(old(Mem()), l1Table, virt)
      ensures Ownable(Mem(), pmm.Geo(), l1Table) <==> Released(view, role, va / PAGE_SIZE, done) == {}
      ensures forall t :: t in Released(view, role, va / PAGE_SIZE, done) ==>
                && t in role && role[t].Leaf?
                && LinkedFree(Mem(), pmm.Geo(), l1Table, role[t].r / 512, role[t].r % 512, t)
      ensures Cached(old(tlb), tlb, old(view).pages, old(view).pages)
      ensures done == size / PAGE_SIZE && old(Coherent(tlb, view.pages)) ==> Coherent(tlb, view.pages)
    {
      hide And, Or, Tree, Walk, Accounted, IsUsed, GoodBitmap, UnmapPages, Released, Cached, Coherent, EmptyRegion,
           Ownable, LinkedFree, LeafWord;
      done := ClearPages(va, size / PAGE_SIZE);
      OwnableUnlessReleased(Mem(), pmm.Geo(), l1Table, view, role, va / PAGE_SIZE, done);
      ReleasedInRole(view, role, va / PAGE_SIZE, done);
      ReleasedBreaksAccount(Mem(), pmm.Geo(), role, Released(view, role, va / PAGE_SIZE, done));
      forall virt: Word
        ensures Walk(Mem(), l1Table, virt) ==
                if va <= virt % 0x80_0000_0000 < va + 4096 * done then 0xFFFF_FFFF_FFFF_FFFF
                else Walk(old(Mem()), l1Table, virt)
        ensures LeafWord(Mem(), l1Table, virt) ==
                if va <= virt % 0x80_0000_0000 < va + 4096 * done then 0 else LeafWord(old(Mem()), l1Table, virt)
      {
        UnmapWalks(old(Mem()), Mem(), l1Table, old(view), view, role, va, done, virt);
        UnmapWords(old(Mem()), Mem(), l1Table, old(view), view, role, va, done, virt);
      }
      if done < size / PAGE_SIZE { return; }
      ghost var t := tlb;
      InvalidatePages(va, done);
      UnmapCoherent(old(tlb), t, tlb, old(view).pages, va / PAGE_SIZE, done);
    }

    /** The clearing loop of `unmap`. */
    method ClearPages(va: Word, numPages: nat) returns (done: nat)
      requires Valid() && va % PAGE_SIZE == 0 && va + PAGE_SIZE * numPages <= VA_SIZE
      modifies pmm.ram, `tlb, `view
      ensures done <= numPages
      ensures AllMapped(old(view), va / PAGE_SIZE, done)
      ensures done < numPages ==> !HasTables(old(view), va / PAGE_SIZE + done)
      ensures view == old(view).(pages := UnmapPages(old(view).pages, va / PAGE_SIZE, done))
      ensures Unmapping(Released(view, role, va / PAGE_SIZE, done))
      ensures Cached(old(tlb), tlb, old(view).pages, old(view).pages)
    {
      hide And, Or, Tree, Walk, Accounted, IsUsed, GoodBitmap, UnmapPages, Released, Cached, EmptyRegion;
      ghost var p0 := va / PAGE_SIZE;
      UnmapNothing(tlb, view, role, p0);
      RolesAreFrames(Mem(), pmm.Geo(), role.Keys);
      done := 0;
      while done < numPages
        invariant 0 <= done <= numPages
        invariant AllMapped(old(view), p0, done)
        invariant view == old(view).(pages := UnmapPages(old(view).pages, p0, done))
        invariant Unmapping(Released(view, role, p0, done))
        invariant Cached(old(tlb), tlb, old(view).pages, old(view).pages)
      {
        ghost var v, t, m := view, tlb, Mem();
        assert (va + done * PAGE_SIZE) / PAGE_SIZE == p0 + done;
        var ok := UnmapPage(va + done * PAGE_SIZE, Released(view, role, p0, done));
        UnmapNext(old(tlb), t, tlb, old(view).pages, p0, done);
        if !ok { return; }
        ReleasedNext(v, role, m, l1Table, p0, done);
        done := done + 1;
      }
    }

    /** `alloc_frame` for a page of data rather than a table. */
    method TakeDataFrame(ghost k: nat) returns (pa: Word)
      requires Valid()
      modifies pmm.ram, `role, `data
      ensures Valid()
      ensures pa == 0 <==> old(Spare()) == 0
      ensures pa == 0 ==> role == old(role) && data == old(data) && Mem() == old(Mem())
      ensures pa != 0 ==>
                && IsTable(pa) && pa !in old(role)
                && role == old(role)[pa as Table := Data(k)] && data == old(data) + 1
                && Spare() == old(Spare()) - 1
      ensures forall virt: Word :: LeafWord(Mem(), l1Table, virt) == LeafWord(old(Mem()), l1Table, virt)
    {
      hide And, Or, Tree, LeafWord, Accounted, IsUsed, GoodBitmap;
      ghost var r := role;
      pa := TakeFrame();
      if pa != 0 {
        role := role[pa as Table := Data(k)];
        data := data + 1;
        assert role.Keys == r.Keys + {pa};
        DataKeepsTree(Mem(), l1Table, view, r, pa, k);
      }
      forall virt: Word ensures LeafWord(Mem(), l1Table, virt) == LeafWord(old(Mem()), l1Table, virt) {
        LeafWordIs(old(Mem()), l1Table, view, r, virt);
        LeafWordIs(Mem(), l1Table, view, role, virt);
      }
    }
  }
}
