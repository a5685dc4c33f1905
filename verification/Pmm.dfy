/** The physical memory manager: a flat bitmap over 4 KiB frames, stored in the memory it manages. */
module Pmm {
  import opened Bits

  const PAGE_SIZE: nat := 4096
  const PHYS_MEM_END: nat := 0x3F80_0000
  const RAM_WORDS: nat := PHYS_MEM_END / 8

  // ---- round_up ----

  /** `(value + align - 1) & ~(align - 1)` for `align == 2^k`. */
  function RoundUp(value: Word, k: nat): Word
    requires value + Pow2(k) <= TWO64
  {
    And(value + Pow2(k) - 1, Not(Pow2(k) - 1))
  }

  /** The result is the least multiple of the alignment that is not below the value. */
  lemma RoundUpIsLeastMultiple(value: Word, k: nat)
    requires value + Pow2(k) <= TWO64
    ensures var r := RoundUp(value, k);
            r % Pow2(k) == 0 && value <= r < value + Pow2(k)
  {
    var x := value + Pow2(k) - 1;
    ClearLow(x, k);
    LowHigh(x, k);
    LowIsRemainder(x, k);
    RemainderIs(High(x, k) * Pow2(k), Pow2(k), High(x, k), 0);
  }

  lemma RoundUpToPage(value: Word)
    requires value + PAGE_SIZE <= TWO64
    ensures Pow2(12) == PAGE_SIZE
    ensures RoundUp(value, 12) == (value + 4095) / 4096 * 4096
  {
    Pow2Values();
    RoundUpIsLeastMultiple(value, 12);
    LeastPage(value, RoundUp(value, 12));
  }

  lemma LeastPage(value: nat, r: nat)
    requires r % PAGE_SIZE == 0 && value <= r < value + PAGE_SIZE
    ensures r == (value + 4095) / 4096 * 4096
  {
  }

  // ---- The bitmap as a value ----

  /** Where the bitmap lies and which frames it tracks. */
  datatype Geometry = Geometry(bitmapAddr: nat, start: nat, total: nat)

  /** Words of the bitmap that `alloc_frame` scans. */
  function BitmapWords(g: Geometry): nat {
    (g.total + 63) / 64
  }

  /** The bitmap lies below the managed frames, which end exactly at `PHYS_MEM_END`. */
  ghost predicate GoodGeometry(g: Geometry) {
    && g.bitmapAddr % PAGE_SIZE == 0 && g.start % PAGE_SIZE == 0
    && g.bitmapAddr + 8 * BitmapWords(g) <= g.start
    && g.start + PAGE_SIZE * g.total == PHYS_MEM_END
  }

  function FrameAddr(g: Geometry, f: nat): nat {
    g.start + PAGE_SIZE * f
  }

  function WordIndex(g: Geometry, f: nat): nat {
    g.bitmapAddr / 8 + f / 64
  }

  predicate IsUsed(m: seq<Word>, g: Geometry, f: nat)
    requires |m| == RAM_WORDS && GoodGeometry(g) && f < 64 * BitmapWords(g)
  {
    Bit(m[WordIndex(g, f)], f % 64)
  }

  /** Bits past the last frame are set, so that no scan can hand them out. */
  ghost predicate Padded(m: seq<Word>, g: Geometry)
    requires |m| == RAM_WORDS && GoodGeometry(g)
  {
    forall f: nat :: g.total <= f < 64 * BitmapWords(g) ==> IsUsed(m, g, f)
  }

  ghost predicate GoodBitmap(m: seq<Word>, g: Geometry) {
    |m| == RAM_WORDS && GoodGeometry(g) && Padded(m, g)
  }

  /** The frames handed out and not yet released. */
  ghost function UsedFrames(m: seq<Word>, g: Geometry): set<nat>
    requires GoodBitmap(m, g)
  {
    set f: nat | f < g.total && IsUsed(m, g, f)
  }

  function SetUsed(m: seq<Word>, g: Geometry, f: nat): (m': seq<Word>)
    requires |m| == RAM_WORDS && GoodGeometry(g) && f < g.total
    ensures |m'| == |m|
  {
    OrWithPow2(m[WordIndex(g, f)], f % 64);
    m[WordIndex(g, f) := Or(m[WordIndex(g, f)], Pow2(f % 64))]
  }

  function SetFree(m: seq<Word>, g: Geometry, f: nat): (m': seq<Word>)
    requires |m| == RAM_WORDS && GoodGeometry(g) && f < g.total
    ensures |m'| == |m|
  {
    OrWithPow2(0, f % 64);
    m[WordIndex(g, f) := And(m[WordIndex(g, f)], Not(Pow2(f % 64)))]
  }

  lemma {:induction false} Pow2Grows(k: nat, w: nat)
    requires k <= w
    ensures Pow2(k) <= Pow2(w)
    decreases w
  {
    if k < w { Pow2Grows(k, w - 1); }
  }

  lemma OrWithPow2(x: Word, k: nat)
    requires k < 64
    ensures Pow2(k) < TWO64 && Or(x, Pow2(k)) < TWO64
  {
    Pow2Values();
    Pow2Grows(k, 63);
    assert Pow2(64) == 2 * Pow2(63);
    OrBound(x, Pow2(k), 64);
  }

  // ---- What one bit update does to the set of used frames ----

  lemma SetUsedBit(m: seq<Word>, g: Geometry, f: nat, j: nat)
    requires |m| == RAM_WORDS && GoodGeometry(g) && f < g.total && j < 64 * BitmapWords(g)
    ensures IsUsed(SetUsed(m, g, f), g, j) == (j == f || IsUsed(m, g, j))
  {
    if WordIndex(g, j) == WordIndex(g, f) {
      OrBit(m[WordIndex(g, f)], Pow2(f % 64), j % 64);
      Pow2Bit(f % 64, j % 64);
    }
  }

  lemma SetFreeBit(m: seq<Word>, g: Geometry, f: nat, j: nat)
    requires |m| == RAM_WORDS && GoodGeometry(g) && f < g.total && j < 64 * BitmapWords(g)
    ensures IsUsed(SetFree(m, g, f), g, j) == (j != f && IsUsed(m, g, j))
  {
    if WordIndex(g, j) == WordIndex(g, f) {
      OrWithPow2(0, f % 64);
      AndBit(m[WordIndex(g, f)], Not(Pow2(f % 64)), j % 64);
      NotBit(Pow2(f % 64), j % 64);
      Pow2Bit(f % 64, j % 64);
    }
  }

  lemma SetUsedAddsFrame(m: seq<Word>, g: Geometry, f: nat)
    requires GoodBitmap(m, g) && f < g.total
    ensures GoodBitmap(SetUsed(m, g, f), g)
    ensures UsedFrames(SetUsed(m, g, f), g) == UsedFrames(m, g) + {f}
  {
    forall j: nat | j < 64 * BitmapWords(g)
      ensures IsUsed(SetUsed(m, g, f), g, j) == (j == f || IsUsed(m, g, j))
    {
      SetUsedBit(m, g, f, j);
    }
  }

  lemma SetFreeRemovesFrame(m: seq<Word>, g: Geometry, f: nat)
    requires GoodBitmap(m, g) && f < g.total
    ensures GoodBitmap(SetFree(m, g, f), g)
    ensures UsedFrames(SetFree(m, g, f), g) == UsedFrames(m, g) - {f}
  {
    forall j: nat | j < 64 * BitmapWords(g)
      ensures IsUsed(SetFree(m, g, f), g, j) == (j != f && IsUsed(m, g, j))
    {
      SetFreeBit(m, g, f, j);
    }
  }

  /** Releasing a frame right after taking it restores the memory word for word. */
  lemma FreeUndoesAlloc(m: seq<Word>, g: Geometry, f: nat)
    requires |m| == RAM_WORDS && GoodGeometry(g) && f < g.total && !IsUsed(m, g, f)
    ensures SetFree(SetUsed(m, g, f), g, f) == m
  {
    var w, b := m[WordIndex(g, f)], f % 64;
    OrWithPow2(w, b);
    var w' := And(Or(w, Pow2(b)), Not(Pow2(b)));
    forall k: nat ensures Bit(w', k) == Bit(w, k) {
      AndBit(Or(w, Pow2(b)), Not(Pow2(b)), k);
      OrBit(w, Pow2(b), k); NotBit(Pow2(b), k); Pow2Bit(b, k);
      NotBit(Not(w), k);
    }
    SameBits(w', w);
  }

  // ---- Geometry chosen at boot ----

  /** Frames between the first page boundary past the kernel image and the end of memory. */
  function BootFrames(kernelEnd: nat): nat
    requires kernelEnd <= PHYS_MEM_END
  {
    (PHYS_MEM_END - BitmapBase(kernelEnd)) / PAGE_SIZE
  }

  /** Address of the bitmap: the first page boundary at or past the kernel image. */
  function BitmapBase(kernelEnd: nat): nat {
    (kernelEnd + 4095) / 4096 * 4096
  }

  /** Words zeroed at boot: one bit for every boot frame. */
  function BootWords(kernelEnd: nat): nat
    requires kernelEnd <= PHYS_MEM_END
  {
    (BootFrames(kernelEnd) + 63) / 64
  }

  function BootStart(kernelEnd: nat): nat
    requires kernelEnd <= PHYS_MEM_END
  {
    (BitmapBase(kernelEnd) + 8 * BootWords(kernelEnd) + 4095) / 4096 * 4096
  }

  /** Whole pages the bitmap takes. */
  function BootPages(kernelEnd: nat): nat
    requires kernelEnd <= PHYS_MEM_END
  {
    (BootWords(kernelEnd) + 511) / 512
  }

  /** The bitmap's pages come out of the boot frames. */
  lemma BootStartIs(kernelEnd: nat)
    requires kernelEnd <= PHYS_MEM_END
    ensures BootStart(kernelEnd) == BitmapBase(kernelEnd) + PAGE_SIZE * BootPages(kernelEnd)
    ensures BootPages(kernelEnd) <= BootFrames(kernelEnd)
    ensures BitmapBase(kernelEnd) + PAGE_SIZE * BootFrames(kernelEnd) == PHYS_MEM_END
  {
    var q := BitmapBase(kernelEnd) / 4096;
    assert BitmapBase(kernelEnd) == 4096 * q;
  }

  function BootGeometry(kernelEnd: nat): Geometry
    requires kernelEnd <= PHYS_MEM_END
  {
    BootStartIs(kernelEnd);
    Geometry(BitmapBase(kernelEnd), BootStart(kernelEnd), (PHYS_MEM_END - BootStart(kernelEnd)) / PAGE_SIZE)
  }

  /** For every kernel end inside memory: the bitmap starts at the first page boundary past the image, covers every
      tracked frame and does not overlap them; the frames start at the next boundary past it and fill the rest of
      memory, and none of them has address zero. */
  lemma BootGeometryIsGood(kernelEnd: nat)
    requires kernelEnd <= PHYS_MEM_END
    ensures var g := BootGeometry(kernelEnd);
            && GoodGeometry(g)
            && BitmapWords(g) <= BootWords(kernelEnd)
            && g.bitmapAddr + 8 * BootWords(kernelEnd) <= g.start
            && kernelEnd <= g.bitmapAddr < kernelEnd + 4096
            && g.start < g.bitmapAddr + ((0x3F80_0000 - g.bitmapAddr) / 4096 + 63) / 64 * 8 + 4096
            && g.start + 4096 * g.total == 0x3F80_0000
            && (g.total > 0 ==> g.start > 0)
  {
    BootStartIs(kernelEnd);
    var g := BootGeometry(kernelEnd);
    assert g.total == BootFrames(kernelEnd) - BootPages(kernelEnd);
  }

  // ---- The allocator as a machine on values ----

  /** Lowest free frame at or above `f`, or the number of frames when there is none. */
  function FirstFree(m: seq<Word>, g: Geometry, f: nat): (r: nat)
    requires GoodBitmap(m, g) && f <= g.total
    ensures f <= r <= g.total
    ensures r < g.total ==> !IsUsed(m, g, r)
    ensures forall j: nat :: f <= j < r ==> IsUsed(m, g, j)
    decreases g.total - f
  {
    if f == g.total || !IsUsed(m, g, f) then f else FirstFree(m, g, f + 1)
  }

  /** One allocation: the returned address and the new memory. */
  function AllocStep(m: seq<Word>, g: Geometry): (r: (nat, seq<Word>))
    requires GoodBitmap(m, g)
  {
    var f := FirstFree(m, g, 0);
    if f == g.total then (0, m) else (FrameAddr(g, f), SetUsed(m, g, f))
  }

  /** The frame at `addr`, if `addr` is the base of a tracked frame. */
  predicate IsFrame(g: Geometry, addr: nat) {
    g.start <= addr < PHYS_MEM_END && addr % PAGE_SIZE == 0
  }

  function FrameOf(g: Geometry, addr: nat): (f: nat)
    requires GoodGeometry(g) && IsFrame(g, addr)
    ensures f < g.total && FrameAddr(g, f) == addr
  {
    (addr - g.start) / PAGE_SIZE
  }

  /** One release: only a used frame's bit changes. */
  function FreeStep(m: seq<Word>, g: Geometry, addr: nat): seq<Word>
    requires GoodBitmap(m, g)
  {
    if IsFrame(g, addr) && IsUsed(m, g, FrameOf(g, addr)) then SetFree(m, g, FrameOf(g, addr)) else m
  }

  /** A release removes one frame from the used set, and changes nothing unless the address is that of a used one. */
  lemma FreeReleasesOne(m: seq<Word>, g: Geometry, addr: nat)
    requires GoodBitmap(m, g)
    ensures var m', used := FreeStep(m, g, addr), UsedFrames(m, g);
            && GoodBitmap(m', g)
            && UsedFrames(m', g) == (if IsFrame(g, addr) then used - {FrameOf(g, addr)} else used)
            && (IsFrame(g, addr) && FrameOf(g, addr) in used ==> |UsedFrames(m', g)| == |used| - 1)
            && (!(IsFrame(g, addr) && FrameOf(g, addr) in used) ==> m' == m)
  {
    if IsFrame(g, addr) {
      var f := FrameOf(g, addr);
      SetFreeRemovesFrame(m, g, f);
      assert f in UsedFrames(m, g) <==> IsUsed(m, g, f);
    }
  }

  /** A word with a zero bit yields the lowest free frame of the whole bitmap. */
  lemma FreeBitInWord(m: seq<Word>, g: Geometry, i: nat, k: nat)
    requires GoodBitmap(m, g) && i < BitmapWords(g)
    requires forall j: nat :: j < 64 * i ==> IsUsed(m, g, j)
    requires m[g.bitmapAddr / 8 + i] != ALL_ONES && k == Ctz(Not(m[g.bitmapAddr / 8 + i]))
    ensures k < 64 && 64 * i + k < g.total && FirstFree(m, g, 0) == 64 * i + k
  {
    var w := m[g.bitmapAddr / 8 + i];
    NotBit(w, k);
    BitInWord(m, g, i, k);
    assert !IsUsed(m, g, 64 * i + k);
    forall j: nat | 64 * i <= j < 64 * i + k ensures IsUsed(m, g, j) {
      NotBit(w, j - 64 * i);
      BitInWord(m, g, i, j - 64 * i);
    }
  }

  lemma BitInWord(m: seq<Word>, g: Geometry, i: nat, k: nat)
    requires |m| == RAM_WORDS && GoodGeometry(g) && i < BitmapWords(g) && k < 64
    ensures IsUsed(m, g, 64 * i + k) == Bit(m[g.bitmapAddr / 8 + i], k)
  {
    assert (64 * i + k) / 64 == i && (64 * i + k) % 64 == k;
  }

  lemma FullWord(m: seq<Word>, g: Geometry, i: nat)
    requires |m| == RAM_WORDS && GoodGeometry(g) && i < BitmapWords(g)
    requires m[g.bitmapAddr / 8 + i] == ALL_ONES
    ensures forall j: nat :: 64 * i <= j < 64 * i + 64 ==> IsUsed(m, g, j)
  {
    forall j: nat | 64 * i <= j < 64 * i + 64 ensures IsUsed(m, g, j) {
      NotBit(ALL_ONES, j - 64 * i);
      BitZero(j - 64 * i);
      BitInWord(m, g, i, j - 64 * i);
    }
  }

  /** `w & (1 << k)` is non-zero exactly when digit `k` is set. */
  lemma {:induction false} MaskTestsBit(w: nat, k: nat)
    ensures And(w, Pow2(k)) != 0 <==> Bit(w, k)
  {
    if k > 0 {
      MaskTestsBit(w / 2, k - 1);
      if w == 0 { BitZero(k); }
    } else if w > 0 {
      AndStep(w, 1);
    }
  }

  /** `~((1 << n) - 1)` has exactly the digits from `n` up. */
  lemma HighMaskBit(n: nat, k: nat)
    requires n < 64 && k < 64 && Pow2(n) <= TWO64
    ensures Bit(Not(Pow2(n) - 1), k) == (k >= n)
  {
    NotBit(Pow2(n) - 1, k);
    BitZero(k);
    ComplementBit(0, n, k);
  }

  class Allocator {
    const ram: array<Word>
    var bitmapAddr: nat
    var physMemStart: nat
    var totalFrames: nat

    ghost function Geo(): Geometry
      reads this
    {
      Geometry(bitmapAddr, physMemStart, totalFrames)
    }

    ghost predicate Valid()
      reads this, ram
    {
      GoodBitmap(ram[..], Geo()) && (totalFrames > 0 ==> physMemStart > 0)
    }

    ghost function Used(): set<nat>
      requires Valid()
      reads this, ram
    {
      UsedFrames(ram[..], Geo())
    }

    constructor (ram: array<Word>)
      ensures this.ram == ram
    {
      this.ram := ram;
    }

    /** `pmm_init`: place the bitmap past the kernel image and mark every frame free. */
    method PmmInit(kernelEnd: nat)
      requires ram.Length == RAM_WORDS && kernelEnd <= PHYS_MEM_END
      modifies this, ram
      ensures Valid() && Geo() == BootGeometry(kernelEnd) && Used() == {}
      ensures forall k :: 0 <= k < RAM_WORDS && !(bitmapAddr / 8 <= k < physMemStart / 8) ==> ram[k] == old(ram[k])
    {
      SetGeometry(kernelEnd);
      BootGeometryIsGood(kernelEnd);
      var managedBytes := PHYS_MEM_END - bitmapAddr;
      var bitmapBytes := (managedBytes / PAGE_SIZE + 63) / 64 * 8;
      ClearWords(bitmapAddr / 8, bitmapBytes / 8);
      PadLastWord();
    }

    /** The address arithmetic of `pmm_init`. */
    method SetGeometry(kernelEnd: nat)
      requires kernelEnd <= PHYS_MEM_END
      modifies this
      ensures Geo() == BootGeometry(kernelEnd)
    {
      hide And, Not, RoundUp, Pow2;
      BootStartIs(kernelEnd);
      RoundUpToPage(kernelEnd);
      bitmapAddr := RoundUp(kernelEnd, 12);
      var managedBytes := PHYS_MEM_END - bitmapAddr;
      var maxFrames := managedBytes / PAGE_SIZE;
      assert maxFrames == BootFrames(kernelEnd);
      var bitmapBytes := (maxFrames + 63) / 64 * 8;
      RoundUpToPage(bitmapAddr + bitmapBytes);
      physMemStart := RoundUp(bitmapAddr + bitmapBytes, 12);
      assert physMemStart == BootStart(kernelEnd);
      totalFrames := (PHYS_MEM_END - physMemStart) / PAGE_SIZE;
    }

    method ClearWords(b: nat, n: nat)
      requires b + n <= ram.Length
      modifies ram
      ensures forall k :: 0 <= k < ram.Length ==> ram[k] == if b <= k < b + n then 0 else old(ram[k])
    {
      for i := 0 to n
        invariant forall k :: 0 <= k < ram.Length ==> ram[k] == if b <= k < b + i then 0 else old(ram[k])
      {
        ram[b + i] := 0;
      }
    }

    /** The tail of the last bitmap word does not stand for frames: mark it used. */
    method PadLastWord()
      requires ram.Length == RAM_WORDS && GoodGeometry(Geo())
      requires totalFrames > 0 ==> physMemStart > 0
      requires forall k :: bitmapAddr / 8 <= k < bitmapAddr / 8 + BitmapWords(Geo()) ==> ram[k] == 0
      modifies ram
      ensures Valid() && Used() == {}
      ensures forall k :: 0 <= k < RAM_WORDS && !(bitmapAddr / 8 <= k < physMemStart / 8) ==> ram[k] == old(ram[k])
    {
      var lastWord, validBits := totalFrames / 64, totalFrames % 64;
      if validBits != 0 {
        OrWithPow2(0, validBits);
        var mask := Not(Pow2(validBits) - 1);
        assert ram[bitmapAddr / 8 + lastWord] == 0;
        ram[bitmapAddr / 8 + lastWord] := Or(ram[bitmapAddr / 8 + lastWord], mask);
      }
      PaddingOnly(ram[..], Geo());
    }

    /** `alloc_frame`: take the lowest free frame; address 0 when there is none. */
    method AllocFrame() returns (addr: Word)
      requires Valid()
      modifies ram
      ensures Valid()
      ensures (addr, ram[..]) == AllocStep(old(ram[..]), Geo())
    {
      var i, words := 0, (totalFrames + 63) / 64;
      ghost var m, g := ram[..], Geo();
      while i < words
        invariant 0 <= i <= words && ram[..] == m
        invariant forall j: nat :: j < 64 * i ==> IsUsed(m, g, j)
      {
        var k := bitmapAddr / 8 + i;
        if ram[k] != ALL_ONES {
          var bitIndex := Ctz(Not(ram[k]));
          FreeBitInWord(m, g, i, bitIndex);
          addr := TakeFrame(i, bitIndex);
          return;
        }
        FullWord(m, g, i);
        i := i + 1;
      }
      assert FirstFree(m, g, 0) == totalFrames;
      return 0;
    }

    /** Mark the frame behind bit `bitIndex` of bitmap word `i` and return its address. */
    method TakeFrame(i: nat, bitIndex: nat) returns (addr: Word)
      requires Valid() && bitIndex < 64 && i * 64 + bitIndex < totalFrames
      modifies ram
      ensures Valid()
      ensures addr == FrameAddr(Geo(), i * 64 + bitIndex)
      ensures ram[..] == SetUsed(old(ram[..]), Geo(), i * 64 + bitIndex)
    {
      hide And, Or, Bit, Not, Pow2, Padded, IsUsed;
      var k := bitmapAddr / 8 + i;
      var idx := i * 64 + bitIndex;
      OrWithPow2(ram[k], bitIndex);
      SetUsedAddsFrame(ram[..], Geo(), idx);
      ram[k] := Or(ram[k], Pow2(bitIndex));
      addr := physMemStart + idx * PAGE_SIZE;
    }

    /** `free_frame`: release a tracked frame; any other address is ignored. */
    method FreeFrame(addr: Word)
      requires Valid()
      modifies ram
      ensures Valid()
      ensures ram[..] == FreeStep(old(ram[..]), Geo(), addr)
      ensures Used() == if IsFrame(Geo(), addr) then old(Used()) - {FrameOf(Geo(), addr)} else old(Used())
    {
      FreeReleasesOne(ram[..], Geo(), addr);
      if addr < physMemStart || addr >= PHYS_MEM_END { return; }
      if addr % PAGE_SIZE != 0 { return; }
      var frameIndex := (addr - physMemStart) / PAGE_SIZE;
      if frameIndex >= totalFrames { return; }
      var k, bitIndex := bitmapAddr / 8 + frameIndex / 64, frameIndex % 64;
      OrWithPow2(0, bitIndex);
      MaskTestsBit(ram[k], bitIndex);
      if And(ram[k], Pow2(bitIndex)) != 0 {
        SetFreeRemovesFrame(ram[..], Geo(), frameIndex);
        ram[k] := And(ram[k], Not(Pow2(bitIndex)));
      }
    }
  }

  /** A bitmap whose words are zero except for the padding mask has only its padding bits set. */
  lemma PaddingOnly(m: seq<Word>, g: Geometry)
    requires |m| == RAM_WORDS && GoodGeometry(g)
    requires forall k :: g.bitmapAddr / 8 <= k < g.bitmapAddr / 8 + g.total / 64 ==> m[k] == 0
    requires g.total % 64 != 0 ==>
               Pow2(g.total % 64) <= TWO64 &&
               m[g.bitmapAddr / 8 + g.total / 64] == Not(Pow2(g.total % 64) - 1)
    ensures GoodBitmap(m, g) && UsedFrames(m, g) == {}
  {
    forall f: nat | f < 64 * BitmapWords(g)
      ensures IsUsed(m, g, f) == (g.total <= f)
    {
      if f / 64 == g.total / 64 {
        HighMaskBit(g.total % 64, f % 64);
      } else {
        assert m[g.bitmapAddr / 8 + f / 64] == 0;
        BitZero(f % 64);
      }
    }
  }

  // ---- The allocator as a set of outstanding frames, over whole runs ----

  /** `alloc_frame` hands out the lowest-address free frame, and 0 exactly when every frame is used. */
  lemma AllocTakesLowest(m: seq<Word>, g: Geometry)
    requires GoodBitmap(m, g) && (g.total > 0 ==> g.start > 0)
    ensures var (addr, m') := AllocStep(m, g);
            && GoodBitmap(m', g)
            && (addr == 0 <==> |UsedFrames(m, g)| == g.total)
            && (addr == 0 ==> m' == m)
            && (addr != 0 ==>
                  && IsFrame(g, addr) && FrameOf(g, addr) !in UsedFrames(m, g)
                  && UsedFrames(m', g) == UsedFrames(m, g) + {FrameOf(g, addr)}
                  && |UsedFrames(m', g)| == |UsedFrames(m, g)| + 1
                  && FreeStep(m', g, addr) == m
                  && forall f: nat :: f < FrameOf(g, addr) ==> f in UsedFrames(m, g))
  {
    hide And, Or, Pow2, Not, Bit, SetUsed, SetFree, Padded, IsUsed;
    var f := FirstFree(m, g, 0);
    FullWhenNoneFree(m, g);
    if f < g.total {
      SetUsedAddsFrame(m, g, f);
      FreeUndoesAlloc(m, g, f);
      SetUsedBit(m, g, f, f);
      assert FrameOf(g, FrameAddr(g, f)) == f;
    }
  }

  /** The bit that stands for the frame at `addr`: frame 0 is bit 0 of the first bitmap word, and a word holds 64. */
  predicate FrameBit(m: seq<Word>, g: Geometry, addr: nat)
    requires |m| == RAM_WORDS && g.start <= addr && g.bitmapAddr / 8 + (addr - g.start) / 4096 / 64 < RAM_WORDS
  {
    Bit(m[g.bitmapAddr / 8 + (addr - g.start) / 4096 / 64], (addr - g.start) / 4096 % 64)
  }

  /** A page address between the first frame and the end of memory. */
  predicate Tracked(g: Geometry, addr: nat) {
    g.start <= addr < 0x3F80_0000 && addr % 4096 == 0
  }

  lemma TrackedWord(m: seq<Word>, g: Geometry, addr: nat)
    requires GoodBitmap(m, g) && Tracked(g, addr)
    ensures var f := (addr - g.start) / 4096;
            && f < g.total && f == FrameOf(g, addr) && WordIndex(g, f) == g.bitmapAddr / 8 + f / 64 < RAM_WORDS
            && FrameBit(m, g, addr) == IsUsed(m, g, f)
  {
  }

  /** On the words of memory: the frame handed out is the one with the lowest address whose bit is clear, its bit is
      set, and no other bit of any word changes. */
  lemma AllocOnWords(m: seq<Word>, g: Geometry)
    requires GoodBitmap(m, g) && (g.total > 0 ==> g.start > 0)
    ensures var (addr, m') := AllocStep(m, g);
            && |m'| == RAM_WORDS
            && (forall a: nat :: Tracked(g, a) && (addr == 0 || a < addr) ==>
                  g.bitmapAddr / 8 + (a - g.start) / 4096 / 64 < RAM_WORDS && FrameBit(m, g, a))
            && (addr == 0 ==> m' == m)
            && (addr != 0 ==>
                  && Tracked(g, addr) && g.bitmapAddr / 8 + (addr - g.start) / 4096 / 64 < RAM_WORDS
                  && !FrameBit(m, g, addr)
                  && forall j: nat, k: nat :: j < RAM_WORDS ==>
                       Bit(m'[j], k) ==
                       (Bit(m[j], k)
                        || (j == g.bitmapAddr / 8 + (addr - g.start) / 4096 / 64 && k == (addr - g.start) / 4096 % 64)))
  {
    hide And, Or, Bit, Pow2, FrameBit;
    var (addr, m') := AllocStep(m, g);
    var f := FirstFree(m, g, 0);
    forall a: nat | Tracked(g, a) && (addr == 0 || a < addr)
      ensures g.bitmapAddr / 8 + (a - g.start) / 4096 / 64 < RAM_WORDS && FrameBit(m, g, a)
    {
      TrackedWord(m, g, a);
    }
    if addr != 0 {
      assert (addr - g.start) / 4096 == f;
      TrackedWord(m, g, addr);
      forall j: nat, k: nat | j < RAM_WORDS
        ensures Bit(m'[j], k) == (Bit(m[j], k) || (j == g.bitmapAddr / 8 + f / 64 && k == f % 64))
      {
        OrBit(m[j], Pow2(f % 64), k);
        Pow2Bit(f % 64, k);
      }
    }
  }

  /** ... and a release clears the bit of a tracked address, and no other. */
  lemma FreeOnWords(m: seq<Word>, g: Geometry, addr: nat)
    requires GoodBitmap(m, g)
    ensures var m' := FreeStep(m, g, addr);
            && |m'| == RAM_WORDS
            && forall j: nat, k: nat :: j < RAM_WORDS ==>
                 Bit(m'[j], k) ==
                 (Bit(m[j], k)
                  && !(Tracked(g, addr) && j == g.bitmapAddr / 8 + (addr - g.start) / 4096 / 64
                       && k == (addr - g.start) / 4096 % 64))
  {
    hide And, Or, Bit, Pow2, Not, Padded;
    var m' := FreeStep(m, g, addr);
    if Tracked(g, addr) {
      var f := (addr - g.start) / 4096;
      TrackedWord(m, g, addr);
      forall j: nat, k: nat | j < RAM_WORDS
        ensures Bit(m'[j], k) == (Bit(m[j], k) && !(j == g.bitmapAddr / 8 + f / 64 && k == f % 64))
      {
        OrWithPow2(0, f % 64);
        AndBit(m[j], Not(Pow2(f % 64)), k);
        NotBit(Pow2(f % 64), k);
        Pow2Bit(f % 64, k);
        BitsOfWord(m[j], k);
      }
    }
  }

  lemma BitsOfWord(x: Word, k: nat)
    ensures k >= 64 ==> !Bit(x, k)
  {
    Pow2Values();
    if k >= 64 { NoHighDigits(x, 64, k); }
  }

  lemma FullWhenNoneFree(m: seq<Word>, g: Geometry)
    requires GoodBitmap(m, g)
    ensures FirstFree(m, g, 0) == g.total <==> |UsedFrames(m, g)| == g.total
  {
    var f, used := FirstFree(m, g, 0), UsedFrames(m, g);
    assert used <= Below(g.total);
    if f == g.total {
      assert used == Below(g.total);
    } else {
      assert f in Below(g.total) && f !in used;
      CardinalityOfProperSubset(used, Below(g.total));
    }
  }

  function Below(n: nat): (s: set<nat>)
    ensures |s| == n && forall j: nat :: j in s <==> j < n
  {
    if n == 0 then {} else Below(n - 1) + {n - 1}
  }

  lemma CardinalityOfProperSubset<T>(a: set<T>, b: set<T>)
    requires a < b
    ensures |a| < |b|
  {
    assert b == a + (b - a);
  }

  datatype Request = Alloc | Free(addr: nat)

  /** Run `reqs` and keep a ledger of the addresses handed out and not yet given back. */
  ghost function Run(m: seq<Word>, g: Geometry, ledger: multiset<nat>, reqs: seq<Request>)
    : (r: (seq<Word>, multiset<nat>))
    requires GoodBitmap(m, g)
    decreases |reqs|
  {
    if reqs == [] then (m, ledger) else
      StepsKeepBitmap(m, g, reqs[0]);
      match reqs[0]
      case Alloc =>
        var (addr, m') := AllocStep(m, g);
        Run(m', g, if addr == 0 then ledger else ledger + multiset{addr}, reqs[1..])
      case Free(addr) =>
        Run(FreeStep(m, g, addr), g, ledger - multiset{addr}, reqs[1..])
  }

  lemma StepsKeepBitmap(m: seq<Word>, g: Geometry, req: Request)
    requires GoodBitmap(m, g)
    ensures GoodBitmap(AllocStep(m, g).1, g)
    ensures req.Free? ==> GoodBitmap(FreeStep(m, g, req.addr), g)
  {
    var f := FirstFree(m, g, 0);
    if f < g.total { SetUsedAddsFrame(m, g, f); }
    if req.Free? && IsFrame(g, req.addr) { SetFreeRemovesFrame(m, g, FrameOf(g, req.addr)); }
  }

  /** The ledger says exactly what the bitmap says, each frame once. */
  ghost predicate Agrees(m: seq<Word>, g: Geometry, ledger: multiset<nat>)
    requires GoodBitmap(m, g)
  {
    forall addr :: ledger[addr] == if IsFrame(g, addr) && IsUsed(m, g, FrameOf(g, addr)) then 1 else 0
  }

  /** Over every run of allocations and releases, whatever addresses are released, no frame is handed out
      twice without being given back and the set bits are the outstanding frames. */
  lemma {:induction false} RunNeverHandsOutTwice(m: seq<Word>, g: Geometry, ledger: multiset<nat>, reqs: seq<Request>)
    requires GoodBitmap(m, g) && (g.total > 0 ==> g.start > 0) && Agrees(m, g, ledger)
    ensures var (m', ledger') := Run(m, g, ledger, reqs);
            GoodBitmap(m', g) && Agrees(m', g, ledger')
    decreases |reqs|
  {
    if reqs != [] {
      StepsKeepBitmap(m, g, reqs[0]);
      match reqs[0]
      case Alloc =>
        AllocAgrees(m, g, ledger);
        var (addr, m') := AllocStep(m, g);
        RunNeverHandsOutTwice(m', g, if addr == 0 then ledger else ledger + multiset{addr}, reqs[1..]);
      case Free(addr) =>
        FreeAgrees(m, g, ledger, addr);
        RunNeverHandsOutTwice(FreeStep(m, g, addr), g, ledger - multiset{addr}, reqs[1..]);
    }
  }

  lemma AllocAgrees(m: seq<Word>, g: Geometry, ledger: multiset<nat>)
    requires GoodBitmap(m, g) && (g.total > 0 ==> g.start > 0) && Agrees(m, g, ledger)
    ensures var (addr, m') := AllocStep(m, g);
            GoodBitmap(m', g) && Agrees(m', g, if addr == 0 then ledger else ledger + multiset{addr})
  {
    hide SetUsed, IsUsed, Padded, Bit;
    var f := FirstFree(m, g, 0);
    if f < g.total {
      SetUsedAddsFrame(m, g, f);
      assert IsFrame(g, FrameAddr(g, f)) && FrameOf(g, FrameAddr(g, f)) == f;
      forall x | IsFrame(g, x)
        ensures IsUsed(SetUsed(m, g, f), g, FrameOf(g, x)) == (x == FrameAddr(g, f) || IsUsed(m, g, FrameOf(g, x)))
      {
        SetUsedBit(m, g, f, FrameOf(g, x));
      }
    }
  }

  lemma FreeAgrees(m: seq<Word>, g: Geometry, ledger: multiset<nat>, addr: nat)
    requires GoodBitmap(m, g) && Agrees(m, g, ledger)
    ensures GoodBitmap(FreeStep(m, g, addr), g) && Agrees(FreeStep(m, g, addr), g, ledger - multiset{addr})
  {
    hide SetFree, IsUsed, Padded, Bit;
    if IsFrame(g, addr) && IsUsed(m, g, FrameOf(g, addr)) {
      var f := FrameOf(g, addr);
      SetFreeRemovesFrame(m, g, f);
      forall x | IsFrame(g, x)
        ensures IsUsed(SetFree(m, g, f), g, FrameOf(g, x)) == (x != addr && IsUsed(m, g, FrameOf(g, x)))
      {
        SetFreeBit(m, g, f, FrameOf(g, x));
      }
    }
  }
}
