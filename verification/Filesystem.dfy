/** The ramfs over kernel memory: every operation against the store it stands for. */
module Filesystem {
  import opened CStrings
  import opened Store
  import opened Disk
  import Bits
  import H = HeapAlloc

  /** Records and blocks lie in the heap window below the bump pointer, and none overlaps another. */
  ghost predicate Placed(records: set<Ptr>, blocks: set<Ptr>, bump: nat) {
    && (forall p :: p in records ==> H.HEAP_BASE <= p && p + INODE_SIZE <= bump)
    && (forall b :: b in blocks ==> H.HEAP_BASE <= b && b + BLOCK_SIZE <= bump)
    && (forall p, q :: p in records && q in records && p < q ==> p + INODE_SIZE <= q)
    && (forall a, b :: a in blocks && b in blocks && a < b ==> a + BLOCK_SIZE <= b)
    && (forall p, b :: p in records && b in blocks ==> p + INODE_SIZE <= b || b + BLOCK_SIZE <= p)
  }

  /** The heap has been used for these records and blocks only, and every page of it translates. */
  ghost predicate HeapFits(heap: H.HeapState, inodes: map<Ptr, Inode>, blocks: map<Ptr, Block>, n: nat) {
    && H.GoodHeap(heap) && heap.backed && (n > 0 ==> heap.need == 0)
    && Placed(inodes.Keys, blocks.Keys, heap.bump)
    && H.HEAP_BASE + 48 * n <= heap.bump
  }

  /** An allocation at the bump pointer is a new address: it overlaps nothing. */
  lemma FitsWithRecord(heap: H.HeapState, heap': H.HeapState, inodes: map<Ptr, Inode>, blocks: map<Ptr, Block>, n: nat,
                       nd: Inode)
    requires HeapFits(heap, inodes, blocks, n)
    requires H.GoodHeap(heap') && heap'.backed && heap'.need == 0 && heap'.bump == heap.bump + H.Aligned(INODE_SIZE)
    ensures HeapFits(heap', inodes[heap.bump := nd], blocks, n + 1)
  {
    assert inodes[heap.bump := nd].Keys == inodes.Keys + {heap.bump};
  }

  lemma FitsWithBlock(heap: H.HeapState, heap': H.HeapState, inodes: map<Ptr, Inode>, blocks: map<Ptr, Block>, n: nat,
                      inodes': map<Ptr, Inode>, blocks': map<Ptr, Block>)
    requires HeapFits(heap, inodes, blocks, n)
    requires inodes'.Keys == inodes.Keys && blocks'.Keys == blocks.Keys + {heap.bump}
    requires H.GoodHeap(heap') && heap'.backed && heap'.need == 0 && heap'.bump == heap.bump + H.Aligned(BLOCK_SIZE)
    ensures HeapFits(heap', inodes', blocks', n)
  {
  }

  lemma BumpIsNew(heap: H.HeapState, inodes: map<Ptr, Inode>, blocks: map<Ptr, Block>, n: nat)
    requires HeapFits(heap, inodes, blocks, n)
    ensures heap.bump != 0 && heap.bump !in inodes && heap.bump !in blocks
  {
  }

  lemma KmallocFits(heap: H.HeapState, inodes: map<Ptr, Inode>, blocks: map<Ptr, Block>, n: nat, size: nat)
    requires HeapFits(heap, inodes, blocks, n)
    requires heap.need == 0 || heap.spare == 0 || heap.spare > heap.need
    ensures var (r, heap') := H.KmallocStep(heap, size);
            r.Allocated? ==>
              && r.addr == heap.bump && 0 < r.addr && heap'.bump == heap.bump + H.Aligned(size)
              && H.GoodHeap(heap') && heap'.backed && (heap.need == 0 || size > 0 ==> heap'.need == 0)
  {
    H.KmallocExact(heap, size);
    H.PagesReach(heap, heap.bump);
  }

  /** Heap requests of `fs_create`: the record and, when the parent's last block is full, one block. */
  function CreateRequests(s: Store, parent: nat, name: Text): seq<nat> {
    if !CanCreate(s, parent, name) then []
    else if |s[parent - 1].entries| % PER_BLOCK == 0 then [INODE_SIZE, BLOCK_SIZE]
    else [INODE_SIZE]
  }

  /** Inode numbers stay far below 2^64: every one has a 48-byte record in a 1 MiB heap. */
  lemma SmallInode(heap: H.HeapState, inodes: map<Ptr, Inode>, blocks: map<Ptr, Block>, n: nat)
    requires HeapFits(heap, inodes, blocks, n)
    ensures n < Pow256(INO_SIZE)
  {
    assert n < 0x1_0000;
    assert Pow256(2) == 0x1_0000;
    assert Pow256(4) == 0x1_0000 * Pow256(2);
    assert Pow256(6) >= Pow256(4);
    assert Pow256(8) >= Pow256(6);
  }

  lemma HeapReady(heap: H.HeapState, inodes: map<Ptr, Inode>, blocks: map<Ptr, Block>, n: nat)
    requires HeapFits(heap, inodes, blocks, n) && n > 0
    ensures heap.need == 0
  {
  }

  lemma FitsStill(heap: H.HeapState, inodes: map<Ptr, Inode>, inodes': map<Ptr, Inode>,
                  blocks: map<Ptr, Block>, blocks': map<Ptr, Block>, n: nat)
    requires HeapFits(heap, inodes, blocks, n) && inodes'.Keys == inodes.Keys && blocks'.Keys == blocks.Keys
    ensures HeapFits(heap, inodes', blocks', n)
  {
  }

  lemma CopyIsEntryPut(blocks: map<Ptr, Block>, c: seq<Ptr>, i: nat, b: Ptr, d: Payload, e: Entry)
    requires Distinct(c) && i / PER_BLOCK < |c| && b == c[i / PER_BLOCK] && b in blocks
    requires EntryIn(d, i % PER_BLOCK) == e
    requires forall q: nat :: q < PER_BLOCK && q != i % PER_BLOCK ==> EntryIn(d, q) == EntryIn(blocks[b].data, q)
    ensures EntryPut(blocks, PutData(blocks, b, d), c, i, d, e)
  {
    hide EntryIn;
    PutIsEntryPut(blocks, PutData(blocks, b, d), c, i, e);
  }

  /** A node as its record and chain hold it. */
  lemma NodeView(inodes: map<Ptr, Inode>, blocks: map<Ptr, Block>, head: Ptr, l: Layout, k: nat)
    requires Linked(inodes, blocks, head, l) && AllSized(inodes, blocks, l) && k < |l.ptrs|
    ensures |l.chains| == |l.ptrs| && l.ptrs[k] in inodes && RecordAt(inodes, l.ptrs[k]) == inodes[l.ptrs[k]]
    ensures var node, nd, c := Abstract(inodes, blocks, l)[k], inodes[l.ptrs[k]], l.chains[k];
            && (node.Dir? <==> nd.kind == 2) && (node.File? <==> nd.kind == 1)
            && Chain(blocks, nd.firstBlock, c) && Sized(nd, c, blocks)
            && (nd.kind == 2 ==> node.entries == Entries(blocks, c, nd.size))
            && (nd.kind == 1 ==> node.content == Content(blocks, c, nd.size))
            && (node.Special? ==> node.kind == nd.kind && nd.size == 0)
  {
    hide Chain, Entries, Content;
    NodeAt(inodes, blocks, head, l, k);
    hide Sized;
  }

  lemma EntriesAt(blocks: map<Ptr, Block>, c: seq<Ptr>, n: nat, i: nat)
    requires i < n
    ensures i < |Entries(blocks, c, n)| && Entries(blocks, c, n)[i] == EntryAt(blocks, c, i)
  {
  }

  lemma ContentBytes(blocks: map<Ptr, Block>, c: seq<Ptr>, n: nat)
    ensures |Content(blocks, c, n)| == n
    ensures forall o: nat :: o < n ==> Content(blocks, c, n)[o] == ByteAt(blocks, c, o)
  {
  }

  function Min(a: nat, b: nat): nat {
    if a < b then a else b
  }

  // ---- Blocks a write asks for ----

  function Requests(n: nat): seq<nat> {
    seq(n, _ => BLOCK_SIZE)
  }

  /** Blocks that a chain of `count` lacks to hold `end` bytes. */
  function BlocksMissing(count: nat, end: nat): nat {
    var total := BlocksFor(end);
    if total <= count then 0 else total - count
  }

  lemma {:induction false} RunInParts(h: H.HeapState, a: seq<nat>, b: seq<nat>)
    ensures H.RunHeap(h, a + b) ==
            match H.RunHeap(h, a)
            case Panicked => H.Panicked
            case Survived(h') => H.RunHeap(h', b)
    decreases |a|
  {
    hide H.KmallocStep;
    if a == [] {
      assert a + b == b;
    } else {
      assert (a + b)[1..] == a[1..] + b;
      var (r, h') := H.KmallocStep(h, a[0]);
      if r.Allocated? { RunInParts(h', a[1..], b); }
    }
  }

  lemma NoRequests(h: H.HeapState)
    ensures H.RunHeap(h, Requests(0)) == H.Survived(h)
  {
  }

  lemma OneMoreRequest(h0: H.HeapState, h: H.HeapState, n: nat)
    requires H.RunHeap(h0, Requests(n)) == H.Survived(h)
    ensures H.RunHeap(h0, Requests(n + 1)) ==
            if H.KmallocStep(h, BLOCK_SIZE).0.Halted? then H.Panicked else H.Survived(H.KmallocStep(h, BLOCK_SIZE).1)
  {
    hide H.KmallocStep, H.RunHeap;
    assert Requests(n + 1) == Requests(n) + [BLOCK_SIZE];
    RunInParts(h0, Requests(n), [BLOCK_SIZE]);
    RunRequests(h, BLOCK_SIZE, 0);
  }

  lemma FewerRequests(n: nat, m: nat)
    requires n <= m
    ensures Requests(n) <= Requests(m)
  {
  }

  lemma PanicPersists(h: H.HeapState, a: seq<nat>, b: seq<nat>)
    requires a <= b && H.RunHeap(h, a).Panicked?
    ensures H.RunHeap(h, b).Panicked?
  {
    hide H.RunHeap;
    assert b == a + b[|a|..];
    RunInParts(h, a, b[|a|..]);
  }

  /** Heap requests of `fs_write`: one block for each that the content lacks to reach the end of the write. */
  function WriteRequests(s: Store, ino: nat, offset: nat, len: nat): seq<nat> {
    if IsFile(s, ino) then Requests(BlocksMissing(BlocksFor(|s[ino - 1].content|), offset + len)) else []
  }

  lemma NothingRequested(h: H.HeapState)
    ensures H.RunHeap(h, []) == H.Survived(h)
  {
  }

  /** A file that has exactly the blocks it needs has them again after a write. */
  lemma BlocksAfterWrite(size: nat, end: nat)
    ensures BlocksFor(size) + BlocksMissing(BlocksFor(size), end) == BlocksFor(if end > size then end else size)
  {
  }

  lemma StillMissing(count: nat, added: nat, end: nat)
    requires end > DATA_SIZE * (count + added)
    ensures added + 1 <= BlocksMissing(count, end)
  {
  }

  lemma NoneMissing(count: nat, added: nat, end: nat)
    requires end <= DATA_SIZE * (count + added) && (added == 0 || DATA_SIZE * (count + added - 1) < end)
    ensures added == BlocksMissing(count, end)
  {
  }

  lemma IndexWithin(offset: nat, len: nat, n: nat)
    requires offset + len <= DATA_SIZE * n
    ensures offset / DATA_SIZE <= n
  {
  }

  lemma NothingStored(blocks: map<Ptr, Block>, c: seq<Ptr>, offset: nat, bytes: seq<byte>)
    ensures Stored(blocks, blocks, c, offset, bytes, 0)
  {
  }

  lemma AllInMemory(blocks: map<Ptr, Block>, first: Ptr, c: seq<Ptr>)
    requires Chain(blocks, first, c)
    ensures forall x :: 0 <= x < |c| ==> c[x] in blocks
  {
  }

  lemma PutKeys(blocks: map<Ptr, Block>, b: Ptr, d: Payload)
    requires b in blocks
    ensures PutData(blocks, b, d).Keys == blocks.Keys
  {
  }

  lemma SetSizeKeys(inodes: map<Ptr, Inode>, p: Ptr, n: nat)
    requires p in inodes
    ensures SetSize(inodes, p, n).Keys == inodes.Keys
  {
  }

  lemma SameSizeNothing(inodes: map<Ptr, Inode>, p: Ptr)
    requires p in inodes
    ensures SetSize(inodes, p, inodes[p].size) == inodes
  {
  }

  lemma UpdateThenAppend(s: Store, x: Node, k: nat, d: Node)
    requires k < |s|
    ensures (s + [x])[k := d] == s[k := d] + [x] && (s + [x])[k] == s[k]
  {
  }

  lemma DirNodeIs(inodes: map<Ptr, Inode>, blocks: map<Ptr, Block>, head: Ptr, l: Layout, k: nat)
    requires Linked(inodes, blocks, head, l) && k < |l.ptrs| && RecordAt(inodes, l.ptrs[k]).kind == 2
    ensures Abstract(inodes, blocks, l)[k] == Dir(Entries(blocks, l.chains[k], RecordAt(inodes, l.ptrs[k]).size))
  {
  }

  class FileSystem {
    var heap: H.HeapState
    var inodes: map<Ptr, Inode>
    var blocks: map<Ptr, Block>
    var inodeListHead: Ptr
    var nextIno: nat
    ghost var lay: Layout

    constructor (heap: H.HeapState)
      ensures this.heap == heap && inodes == map[] && blocks == map[] && inodeListHead == 0 && nextIno == 1
      ensures lay == Layout([], [])
    {
      this.heap := heap;
      inodes, blocks, inodeListHead, nextIno := map[], map[], 0, 1;
      lay := Layout([], []);
    }

    ghost predicate Valid()
      reads this
      ensures Valid() ==> |lay.chains| == |lay.ptrs|
    {
      SoundExcept(-1)
    }

    /** Everything is in order, except that node `x` may have more blocks than it needs. */
    ghost predicate SoundExcept(x: int)
      reads this
      ensures SoundExcept(x) ==> |lay.chains| == |lay.ptrs|
    {
      && |lay.chains| == |lay.ptrs|
      && Linked(inodes, blocks, inodeListHead, lay) && AllSized(inodes, blocks, lay)
      && TightExcept(inodes, lay, x)
      && nextIno == |lay.ptrs| + 1
      && HeapFits(heap, inodes, blocks, |lay.ptrs|)
    }

    ghost function Abs(): Store
      requires |lay.chains| == |lay.ptrs|
      reads this
    {
      Abstract(inodes, blocks, lay)
    }

    method Kmalloc(size: nat) returns (p: Ptr, halted: bool)
      modifies `heap
      ensures halted <==> H.KmallocStep(old(heap), size).0.Halted?
      ensures halted ==> heap == old(heap)
      ensures !halted ==> heap == H.KmallocStep(old(heap), size).1 && p == H.KmallocStep(old(heap), size).0.addr
    {
      var (r, next) := H.KmallocStep(heap, size);
      match r
      case Halted => return 0, true;
      case Allocated(addr) =>
        heap := next;
        return addr, false;
    }

    /** `find_inode`: the record of an inode number, or null. */
    method FindInode(ino: nat) returns (p: Ptr)
      requires Valid()
      ensures p == if Listed(Abs(), ino) then lay.ptrs[ino - 1] else 0
      ensures p != 0 <==> Listed(Abs(), ino)
      ensures p != 0 ==> p in inodes && inodes[p].ino == ino
    {
      hide ChainsOf, Apart, AllSized, NodeOf, TightExcept, HeapFits, Abstract;
      p := inodeListHead;
      ghost var k := |lay.ptrs|;
      while p != 0
        invariant 0 <= k <= |lay.ptrs| && p == Newest(lay.ptrs, k)
        invariant ino <= k || ino > |lay.ptrs|
        decreases k
      {
        if inodes[p].ino == ino { return; }
        p := inodes[p].next;
        k := k - 1;
      }
    }

    /** Follow `n` links of a chain; false when a link had to be taken past its end. */
    method Advance(first: Ptr, n: nat, ghost c: seq<Ptr>) returns (ok: bool, p: Ptr)
      requires Chain(blocks, first, c)
      ensures ok <==> n <= |c|
      ensures ok ==> p == At(c, n)
    {
      p := first;
      for i := 0 to n
        invariant i <= |c| && p == At(c, i)
      {
        if p == 0 { return false, 0; }
        p := blocks[p].next;
      }
      ok := true;
    }

    /** The last block of a non-empty chain. */
    method LastBlock(first: Ptr, ghost c: seq<Ptr>) returns (curr: Ptr)
      requires Chain(blocks, first, c) && first != 0
      ensures c != [] && curr == c[|c| - 1] && curr in blocks
    {
      curr := first;
      ghost var j := 0;
      while blocks[curr].next != 0
        invariant 0 <= j < |c| && curr == c[j] && curr in blocks
        decreases |c| - j
      {
        curr := blocks[curr].next;
        j := j + 1;
      }
    }

    /** `kmalloc(BLOCK_SIZE)`: the block comes into view with what its memory already holds; nothing is stored. */
    method KmallocBlock() returns (b: Ptr, halted: bool)
      modifies `heap, `blocks
      ensures halted <==> H.KmallocStep(old(heap), BLOCK_SIZE).0.Halted?
      ensures halted ==> heap == old(heap) && blocks == old(blocks)
      ensures !halted ==>
                && heap == H.KmallocStep(old(heap), BLOCK_SIZE).1 && b == H.KmallocStep(old(heap), BLOCK_SIZE).0.addr
                && blocks == old(blocks)[b := UntouchedBlock()]
    {
      b, halted := Kmalloc(BLOCK_SIZE);
      if halted { return; }
      blocks := blocks[b := UntouchedBlock()];
    }

    /** `append_block`: one untouched block at the end of an inode's chain. */
    method AppendBlock(p: Ptr, ghost k: nat) returns (halted: bool)
      requires SoundExcept(k) && k < |lay.ptrs| && p == lay.ptrs[k]
      modifies this
      ensures halted <==> H.KmallocStep(old(heap), BLOCK_SIZE).0.Halted?
      ensures !halted ==>
                && SoundExcept(k) && Abs() == old(Abs())
                && heap == H.KmallocStep(old(heap), BLOCK_SIZE).1
                && lay == Appended(old(lay), k, old(heap).bump)
                && nextIno == old(nextIno)
                && inodes.Keys == old(inodes).Keys && p in inodes
                && inodes[p] == old(inodes)[p].(firstBlock := inodes[p].firstBlock)
    {
      hide Linked, AllSized, NodeOf, HeapFits, TightExcept, H.KmallocStep;
      BumpIsNew(heap, inodes, blocks, |lay.ptrs|);
      HeapReady(heap, inodes, blocks, |lay.ptrs|);
      KmallocFits(heap, inodes, blocks, |lay.ptrs|, BLOCK_SIZE);
      RecordIn(inodes, blocks, inodeListHead, lay, k);
      ghost var c, b0 := lay.chains[k], heap.bump;
      AppendKeepsStore(inodes, blocks, inodeListHead, lay, k, b0);
      TightAppended(inodes, lay, k, b0);
      var b, stop;
      if inodes[p].firstBlock == 0 {
        ChainEnds(blocks, inodes[p].firstBlock, c, 0);
        b, stop := KmallocBlock();
        if stop { return true; }
        inodes := inodes[p := inodes[p].(firstBlock := b)];
      } else {
        var curr := LastBlock(inodes[p].firstBlock, c);
        b, stop := KmallocBlock();
        if stop { return true; }
        blocks := blocks[curr := blocks[curr].(next := b)];
      }
      FitsWithBlock(old(heap), heap, old(inodes), old(blocks), |lay.ptrs|, inodes, blocks);
      lay := Appended(lay, k, b);
      halted := false;
    }

    /** A record for the next inode number, at the head of the list. */
    method AddRecord(kind: byte) returns (ino: nat, halted: bool)
      requires Valid() && (heap.need == 0 || heap.spare == 0 || heap.spare > heap.need)
      modifies this
      ensures halted <==> H.KmallocStep(old(heap), INODE_SIZE).0.Halted?
      ensures !halted ==>
                && Valid() && Abs() == old(Abs()) + [NewNode(kind)] && ino == |Abs()|
                && heap == H.KmallocStep(old(heap), INODE_SIZE).1
                && lay == WithRecord(old(lay), old(heap).bump)
                && blocks == old(blocks)
                && (forall q :: q in old(inodes) ==> q in inodes && inodes[q] == old(inodes)[q])
    {
      hide Linked, AllSized, NodeOf, HeapFits, TightExcept, H.KmallocStep;
      BumpIsNew(heap, inodes, blocks, |lay.ptrs|);
      KmallocFits(heap, inodes, blocks, |lay.ptrs|, INODE_SIZE);
      NewRecordEffect(inodes, blocks, inodeListHead, lay, heap.bump, kind);
      ghost var nd := Inode(nextIno, kind, 0, 0, inodeListHead);
      TightWithRecord(inodes, blocks, inodeListHead, lay, heap.bump, nd);
      var p, stop := Kmalloc(INODE_SIZE);
      if stop { return 0, true; }
      FitsWithRecord(old(heap), heap, inodes, blocks, |lay.ptrs|, nd);
      ino := nextIno;
      nextIno := nextIno + 1;
      inodes := inodes[p := Inode(ino, kind, 0, 0, inodeListHead)];
      inodeListHead := p;
      lay := WithRecord(lay, p);
      halted := false;
    }

    /** `fs_init`: the root directory is inode 1. */
    method FsInit() returns (halted: bool)
      requires inodes == map[] && blocks == map[] && inodeListHead == 0 && nextIno == 1 && lay == Layout([], [])
      requires H.GoodHeap(heap) && heap.backed && (heap.need == 0 || heap.spare == 0 || heap.spare > heap.need)
      modifies this
      ensures halted <==> H.KmallocStep(old(heap), 40).0.Halted?
      ensures !halted ==> Valid() && Abs() == [Dir([])] && Graph(Abs()) && heap == H.KmallocStep(old(heap), 40).1
    {
      FreshStoreIsGood();
      assert HeapFits(heap, inodes, blocks, 0);
      var root, stop := AddRecord(2);
      halted := stop;
    }

    /** `dirent_at`: block and slot of entry `idx`, or the null block past the last entry. */
    method DirentAt(p: Ptr, idx: nat, ghost c: seq<Ptr>) returns (b: Ptr, slot: nat)
      requires p in inodes && inodes[p].kind == 2
      requires Chain(blocks, inodes[p].firstBlock, c) && Sized(inodes[p], c, blocks)
      ensures slot == idx % PER_BLOCK
      ensures idx >= inodes[p].size ==> b == 0
      ensures idx < inodes[p].size ==>
                && idx / PER_BLOCK < |c| && b == c[idx / PER_BLOCK] && b != 0 && b in blocks
                && EntryAt(blocks, c, idx) == EntryIn(blocks[b].data, slot)
    {
      slot := idx % PER_BLOCK;
      if idx >= inodes[p].size { return 0, slot; }
      EntryPlace(inodes[p], c, blocks, inodes[p].firstBlock, idx);
      var ok, curr := Advance(inodes[p].firstBlock, idx / PER_BLOCK, c);
      b := curr;
    }

    /** The inner loop of `fs_lookup`: the inode named by `path[start..end]` in a directory. */
    method SearchDir(p: Ptr, path: Text, start: nat, end: nat, ghost c: seq<Ptr>) returns (found: bool, ino: nat)
      requires p in inodes && inodes[p].kind == 2
      requires Chain(blocks, inodes[p].firstBlock, c) && Sized(inodes[p], c, blocks)
      requires forall i :: 0 <= i < inodes[p].size ==> |EntryAt(blocks, c, i).name| < MAX_SIZE
      requires start <= end <= |path|
      ensures var es := Entries(blocks, c, inodes[p].size);
              var j := Find(es, path[start..end], 0);
              && (found <==> j < |es|)
              && (found ==> ino == es[j].ino)
    {
      hide EntryIn, Sized, Chain, EntryAt, Find;
      ghost var es := Entries(blocks, c, inodes[p].size);
      var j := 0;
      while j < inodes[p].size
        invariant 0 <= j <= inodes[p].size
        invariant forall i :: 0 <= i < j ==> es[i].name != path[start..end]
      {
        var b, slot := DirentAt(p, j, c);
        var matches := EntryNameMatches(b, slot, path, start, end);
        assert es[j] == EntryAt(blocks, c, j);
        if matches {
          FindIs(es, path[start..end], j);
          return true, DirentIno(b, slot);
        }
        j := j + 1;
      }
      FindIs(es, path[start..end], j);
      return false, 0;
    }

    /** `fs_lookup`.  The walk stays inside the list: no record pointer it follows is null. */
    method FsLookup(path: Text) returns (ino: nat)
      requires Valid() && (Abs() == [] || Graph(Abs()))
      ensures ino == Lookup(Abs(), path)
    {
      hide Linked, AllSized, NodeOf, Walk, Sized, Chain, Segments, Ends, Apart, Content, Entries, Find, HeapFits,
           TightExcept, Abstract, Graph;
      if CharAt(path, 0) == NUL { return INVALID_INO; }
      var ends := new nat[MAX_SEGMENTS];
      var n := ParsePath(path, ends, MAX_SEGMENTS);
      SegmentsExist(path);
      if n == 0 { return ROOT_INO; }
      var curr := FindInode(ROOT_INO);
      if curr == 0 { return INVALID_INO; }
      ghost var s, at := Abs(), ROOT_INO;
      ghost var names := Take(Segments(path, 0), MAX_SEGMENTS);
      var start := 1;
      for i := 0 to n
        invariant Listed(s, at) && curr == lay.ptrs[at - 1] && |names| == n
        invariant ends[..n] == Take(Ends(path, 0), MAX_SEGMENTS)
        invariant start == if i == 0 then 1 else ends[i - 1] + 1
        invariant Walk(s, ROOT_INO, names) == Walk(s, at, names[i..])
      {
        DirectoryView(inodes, blocks, inodeListHead, lay, at - 1);
        WalkStep(s, at, names, i);
        if inodes[curr].kind != 2 { return INVALID_INO; }
        EndsDelimit(path, 0, i);
        var found, child := SearchDir(curr, path, start, ends[i], lay.chains[at - 1]);
        if !found { return INVALID_INO; }
        at := child;
        curr := FindInode(child);
        start := ends[i] + 1;
      }
      WalkDone(s, at, names);
      RecordIn(inodes, blocks, inodeListHead, lay, at - 1);
      return inodes[curr].ino;
    }

    /** `d->inode_id` */
    function DirentIno(b: Ptr, slot: nat): (ino: nat)
      requires b in blocks && slot < PER_BLOCK
      reads this
      ensures ino == EntryIn(blocks[b].data, slot).ino
    {
      FromBytes(blocks[b].data[DIRENT_SIZE * slot..DIRENT_SIZE * slot + INO_SIZE])
    }

    /** `name_matches(path, start, end, d->name)` */
    method EntryNameMatches(b: Ptr, slot: nat, path: Text, start: nat, end: nat) returns (r: bool)
      requires b in blocks && slot < PER_BLOCK && start <= end <= |path|
      requires |EntryIn(blocks[b].data, slot).name| < MAX_SIZE
      ensures r <==> path[start..end] == EntryIn(blocks[b].data, slot).name
    {
      var base := DIRENT_SIZE * slot;
      r := NameMatches(path, start, end, blocks[b].data[base + INO_SIZE..base + DIRENT_SIZE]);
    }

    /** Fill one directory slot: the inode number, the characters of the name, the terminator. */
    method WriteDirent(b: Ptr, slot: nat, ino: nat, name: Text)
      requires b in blocks && slot < PER_BLOCK && |name| < MAX_SIZE && ino < Pow256(INO_SIZE)
      modifies `blocks
      ensures b in blocks && blocks == PutData(old(blocks), b, blocks[b].data)
      ensures EntryIn(blocks[b].data, slot) == Entry(name, ino)
      ensures forall q: nat :: q < PER_BLOCK && q != slot ==>
                EntryIn(blocks[b].data, q) == EntryIn(old(blocks)[b].data, q)
    {
      hide FromBytes, ToBytes, CString, EntryIn, Splice;
      var base := DIRENT_SIZE * slot;
      ghost var d0 := blocks[b].data;
      blocks := PutData(blocks, b, Splice(blocks[b].data, base, ToBytes(ino, INO_SIZE)));
      var i := 0;
      while CharAt(name, i) != NUL
        invariant 0 <= i <= |name| && b in blocks && blocks == PutData(old(blocks), b, blocks[b].data)
        invariant forall x :: 0 <= x < DATA_SIZE ==>
                    blocks[b].data[x] == DirentByte(d0, base, ToBytes(ino, INO_SIZE), name[..i], x)
        decreases |name| - i
      {
        blocks := PutData(blocks, b, Splice(blocks[b].data, base + INO_SIZE + i, [name[i]]));
        i := i + 1;
      }
      blocks := PutData(blocks, b, Splice(blocks[b].data, base + INO_SIZE + i, [NUL]));
      assert name[..i] == name;
      DirentWritten(d0, blocks[b].data, slot, ino, name);
    }

    /** The duplicate check of `fs_create`: is there an entry called `name`? */
    method HasEntry(p: Ptr, name: Text, ghost c: seq<Ptr>) returns (found: bool)
      requires p in inodes && inodes[p].kind == 2
      requires Chain(blocks, inodes[p].firstBlock, c) && Sized(inodes[p], c, blocks)
      ensures var es := Entries(blocks, c, inodes[p].size);
              found <==> Find(es, name, 0) < |es|
    {
      hide EntryIn, Sized, Chain, EntryAt, Find;
      ghost var es := Entries(blocks, c, inodes[p].size);
      for i := 0 to inodes[p].size
        invariant forall j :: 0 <= j < i ==> es[j].name != name
      {
        var b, slot := DirentAt(p, i, c);
        assert es[i] == EntryAt(blocks, c, i);
        var same := NameMatchesSingle(DirentName(b, slot), name);
        if same {
          FindIs(es, name, i);
          return true;
        }
      }
      FindIs(es, name, |es|);
      return false;
    }

    /** The string in `d->name`. */
    function DirentName(b: Ptr, slot: nat): (name: Text)
      requires b in blocks && slot < PER_BLOCK
      reads this
      ensures name == EntryIn(blocks[b].data, slot).name
    {
      CString(blocks[b].data[DIRENT_SIZE * slot + INO_SIZE..DIRENT_SIZE * slot + DIRENT_SIZE])
    }

    /** Count one more entry in a directory with room and write it into the tail slot. */
    method AddEntry(p: Ptr, ino: nat, name: Text, ghost k: nat)
      requires Valid() && k < |lay.ptrs| && p == lay.ptrs[k] && RecordAt(inodes, p).kind == 2
      requires RecordAt(inodes, p).size < PER_BLOCK * |lay.chains[k]|
      requires |name| < MAX_SIZE && ino < Pow256(INO_SIZE)
      modifies `inodes, `blocks
      ensures Valid()
      ensures Abs() ==
              old(Abs())[k := Dir(old(Entries(blocks, lay.chains[k], RecordAt(inodes, p).size)) + [Entry(name, ino)])]
    {
      hide Linked, AllSized, NodeOf, EntryIn, EntryPut, Entries, Pow256, HeapFits, Abstract, Chain, Distinct,
           RecordAt, PutData, SetSize, EntryAt, Sized, TightExcept;
      RecordIn(inodes, blocks, inodeListHead, lay, k);
      FileBlocks(inodes, lay, k);
      TightDirectory(inodes, lay, k, inodes[p].size + 1);
      ghost var c, n := lay.chains[k], inodes[p].size;
      var blockIndex, slot := inodes[p].size / PER_BLOCK, inodes[p].size % PER_BLOCK;
      IndexInChain(n, PER_BLOCK, |c|);
      var ok, b := Advance(inodes[p].firstBlock, blockIndex, c);
      ChainEnds(blocks, inodes[p].firstBlock, c, blockIndex);
      ChainDistinct(inodes, blocks, inodeListHead, lay, k);
      inodes := SetSize(inodes, p, inodes[p].size + 1);
      WriteDirent(b, slot, ino, name);
      PutIsEntryPut(old(blocks), blocks, c, n, Entry(name, ino));
      AddEntryEffect(old(inodes), old(blocks), inodeListHead, lay, k, c, blockIndex, blocks[b].data, Entry(name, ino));
      SetSizeKeys(old(inodes), p, n + 1);
      PutKeys(old(blocks), b, blocks[b].data);
      FitsStill(heap, old(inodes), inodes, old(blocks), blocks, |lay.ptrs|);
    }

    /** The checks of `fs_create`: the parent's record, or null if nothing may be created. */
    method CheckCreate(parentIno: nat, name: Text) returns (parent: Ptr)
      requires Valid() && Graph(Abs())
      ensures parent != 0 <==> CanCreate(Abs(), parentIno, name)
      ensures parent != 0 ==>
                && Listed(Abs(), parentIno) && parent == lay.ptrs[parentIno - 1]
                && RecordAt(inodes, parent).kind == 2 && parent in inodes
                && Abs()[parentIno - 1] ==
                  Dir(Entries(blocks, lay.chains[parentIno - 1], RecordAt(inodes, parent).size))
    {
      hide Linked, AllSized, NodeOf, EntryIn, Sized, Chain, Entries, Graph, HeapFits, Abstract;
      parent := FindInode(parentIno);
      if parent == 0 { return 0; }
      ghost var k := parentIno - 1;
      DirectoryView(inodes, blocks, inodeListHead, lay, k);
      if inodes[parent].kind != 2 { return 0; }
      if |name| >= MAX_SIZE || CharAt(name, 0) == NUL { return 0; }
      var duplicate := HasEntry(parent, name, lay.chains[k]);
      if duplicate { return 0; }
    }

    /** `fs_create`.  A new inode even if the parent then needs a block: running out of heap halts the kernel. */
    method FsCreate(parentIno: nat, name: Text, kind: byte) returns (ino: nat, halted: bool)
      requires Valid() && Graph(Abs())
      modifies this
      ensures H.RunHeap(old(heap), CreateRequests(old(Abs()), parentIno, name)) ==
              if halted then H.Panicked else H.Survived(heap)
      ensures !halted ==> Valid() && (ino, Abs()) == Create(old(Abs()), parentIno, name, kind) && Graph(Abs())
    {
      hide Linked, AllSized, NodeOf, EntryIn, Entries, Graph, HeapFits, H.KmallocStep, H.RunHeap, Abstract;
      RunRequests(heap, INODE_SIZE, BLOCK_SIZE);
      var parent := CheckCreate(parentIno, name);
      if parent == 0 { return INVALID_INO, false; }
      ghost var k, s, h := parentIno - 1, Abs(), heap;
      HeapReady(heap, inodes, blocks, |lay.ptrs|);
      CreateKeepsGraph(s, parentIno, name, kind);
      EntriesLength(blocks, lay.chains[k], inodes[parent].size);
      var stop;
      ino, stop := AddRecord(kind);
      if stop { return INVALID_INO, true; }
      RunRequests(heap, BLOCK_SIZE, 0);
      stop := MakeRoom(parent, k);
      if stop { return INVALID_INO, true; }
      SmallInode(heap, inodes, blocks, |lay.ptrs|);
      DirNodeIs(inodes, blocks, inodeListHead, lay, k);
      ghost var es := s[k].entries + [Entry(name, ino)];
      AddEntry(parent, ino, name, k);
      UpdateThenAppend(s, NewNode(kind), k, Dir(es));
      halted := false;
    }

    /** One more block when the last one is full; the tail slot then exists. */
    method MakeRoom(p: Ptr, ghost k: nat) returns (halted: bool)
      requires Valid() && k < |lay.ptrs| && p == lay.ptrs[k] && RecordAt(inodes, p).kind == 2
      modifies this
      ensures halted ==>
                RecordAt(old(inodes), p).size % PER_BLOCK == 0 && H.KmallocStep(old(heap), BLOCK_SIZE).0.Halted?
      ensures !halted ==>
                && Valid() && Abs() == old(Abs()) && |lay.ptrs| == |old(lay).ptrs| && lay.ptrs == old(lay).ptrs
                && RecordAt(inodes, p).kind == 2 && RecordAt(inodes, p).size == RecordAt(old(inodes), p).size
                && RecordAt(inodes, p).size < PER_BLOCK * |lay.chains[k]|
                && (if RecordAt(old(inodes), p).size % PER_BLOCK == 0
                    then
                      && H.KmallocStep(old(heap), BLOCK_SIZE).0.Allocated?
                      && heap == H.KmallocStep(old(heap), BLOCK_SIZE).1
                    else heap == old(heap))
    {
      hide Linked, AllSized, NodeOf, EntryIn, HeapFits, TightExcept;
      RecordIn(inodes, blocks, inodeListHead, lay, k);
      SizedDir(inodes, blocks, inodeListHead, lay, k);
      FileBlocks(inodes, lay, k);
      halted := false;
      if inodes[p].size % PER_BLOCK == 0 {
        halted := AppendBlock(p, k);
        if !halted { TightDirectory(inodes, lay, k, 0); }
      }
    }

    /** The search loop of `fs_unlink`: the first entry called `name`, or else the last one looked at. */
    method FindDirent(p: Ptr, name: Text, ghost c: seq<Ptr>) returns (b: Ptr, slot: nat, ghost at: nat)
      requires p in inodes && inodes[p].kind == 2 && inodes[p].size > 0
      requires Chain(blocks, inodes[p].firstBlock, c) && Sized(inodes[p], c, blocks)
      ensures at < inodes[p].size && at / PER_BLOCK < |c| && slot == at % PER_BLOCK
      ensures b == c[at / PER_BLOCK] && b in blocks && EntryAt(blocks, c, at) == EntryIn(blocks[b].data, slot)
      ensures var es := Entries(blocks, c, inodes[p].size);
              if Find(es, name, 0) < |es| then at == Find(es, name, 0) else es[at].name != name
    {
      hide EntryIn, Sized, Chain, EntryAt, Find;
      ghost var es := Entries(blocks, c, inodes[p].size);
      b, slot, at := 0, 0, 0;
      var i := 0;
      while i < inodes[p].size
        invariant 0 <= i <= inodes[p].size
        invariant forall j :: 0 <= j < i ==> es[j].name != name
        invariant i > 0 ==>
                    && at == i - 1 && at / PER_BLOCK < |c| && slot == at % PER_BLOCK
                    && b == c[at / PER_BLOCK] && b in blocks && EntryAt(blocks, c, at) == EntryIn(blocks[b].data, slot)
      {
        b, slot := DirentAt(p, i, c);
        at := i;
        assert es[i] == EntryAt(blocks, c, i);
        var same := NameMatchesSingle(DirentName(b, slot), name);
        if same {
          FindIs(es, name, i);
          return;
        }
        i := i + 1;
      }
      FindIs(es, name, |es|);
    }

    /** Remove entry `at`, found at `(b, slot)`: shrink, after copying the last entry over it unless it is the last. */
    method RemoveEntry(p: Ptr, b: Ptr, slot: nat, ghost at: nat, ghost k: nat)
      requires Valid() && k < |lay.ptrs| && p == lay.ptrs[k] && RecordAt(inodes, p).kind == 2
      requires at < RecordAt(inodes, p).size && at / PER_BLOCK < |lay.chains[k]|
      requires b == lay.chains[k][at / PER_BLOCK] && b in blocks && slot == at % PER_BLOCK
      modifies `inodes, `blocks
      ensures Valid()
      ensures var es := Entries(old(blocks), lay.chains[k], RecordAt(old(inodes), p).size);
              at < |es| && Abs() == old(Abs())[k := Dir(RemoveAt(es, at))]
    {
      hide Linked, AllSized, NodeOf, EntryIn, EntryPut, Entries, HeapFits, Abstract, Chain, Distinct,
           RecordAt, PutData, SetSize, EntryAt, Sized, Splice, RemoveAt, TightExcept;
      RecordIn(inodes, blocks, inodeListHead, lay, k);
      FileBlocks(inodes, lay, k);
      TightDirectory(inodes, lay, k, inodes[p].size - 1);
      SizedDir(inodes, blocks, inodeListHead, lay, k);
      NodeAt(inodes, blocks, inodeListHead, lay, k);
      ChainDistinct(inodes, blocks, inodeListHead, lay, k);
      ghost var c, n := lay.chains[k], inodes[p].size;
      EntriesLength(blocks, c, n);
      var lastB, lastSlot := DirentAt(p, inodes[p].size - 1, c);
      SlotIsEntry(c, at, n - 1);
      if b == lastB && slot == lastSlot {
        DropEntryEffect(inodes, blocks, inodeListHead, lay, k, c);
        SetSizeKeys(inodes, p, n - 1);
        FitsStill(heap, inodes, SetSize(inodes, p, n - 1), blocks, blocks, |lay.ptrs|);
        inodes := SetSize(inodes, p, inodes[p].size - 1);
        return;
      }
      CopiedSlot(blocks[b].data, slot, blocks[lastB].data, lastSlot);
      var copy := Splice(blocks[b].data, DIRENT_SIZE * slot,
                         blocks[lastB].data[DIRENT_SIZE * lastSlot..DIRENT_SIZE * lastSlot + DIRENT_SIZE]);
      CopyIsEntryPut(blocks, c, at, b, copy, EntryAt(blocks, c, n - 1));
      SwapEntryEffect(inodes, blocks, inodeListHead, lay, k, c, at, at / PER_BLOCK, copy);
      SetSizeKeys(inodes, p, n - 1);
      PutKeys(blocks, b, copy);
      FitsStill(heap, inodes, SetSize(inodes, p, n - 1), blocks, PutData(blocks, b, copy), |lay.ptrs|);
      blocks := PutData(blocks, b, copy);
      inodes := SetSize(inodes, p, inodes[p].size - 1);
    }

    /** `fs_unlink`: 0, or -1 with everything unchanged. */
    method FsUnlink(parentIno: nat, name: Text) returns (r: int)
      requires Valid()
      modifies `inodes, `blocks
      ensures r == 0 || r == -1
      ensures Valid() && (r == 0, Abs()) == Unlink(old(Abs()), parentIno, name)
      ensures old(Graph(Abs())) ==> Graph(Abs())
    {
      hide Linked, AllSized, NodeOf, EntryIn, Entries, HeapFits, Abstract, Chain, Sized, EntryAt, Graph, Find,
           RemoveAt, RecordAt;
      ghost var s := Abs();
      if Graph(s) { UnlinkKeepsGraph(s, parentIno, name); }
      var parent := FindInode(parentIno);
      if parent == 0 { return -1; }
      ghost var k := parentIno - 1;
      NodeView(inodes, blocks, inodeListHead, lay, k);
      EntriesLength(blocks, lay.chains[k], inodes[parent].size);
      if inodes[parent].kind != 2 || inodes[parent].size == 0 {
        return -1;
      }
      var b, slot, at := FindDirent(parent, name, lay.chains[k]);
      EntriesAt(blocks, lay.chains[k], inodes[parent].size, at);
      var same := NameMatchesSingle(DirentName(b, slot), name);
      if !same { return -1; }
      var subject := FindInode(DirentIno(b, slot));
      if subject == 0 { return -1; }
      NodeView(inodes, blocks, inodeListHead, lay, DirentIno(b, slot) - 1);
      EntriesLength(blocks, lay.chains[DirentIno(b, slot) - 1], inodes[subject].size);
      if inodes[subject].kind == 2 && inodes[subject].size != 0 { return -1; }
      RemoveEntry(parent, b, slot, at, k);
      r := 0;
    }

    /** The copy loop of `fs_read`: `len` bytes of the chain from `offset` into the buffer, block by block. */
    method CopyOut(start: Ptr, offset: nat, len: nat, buf: array<byte>, ghost first: Ptr, ghost c: seq<Ptr>)
      requires Chain(blocks, first, c) && start == At(c, offset / DATA_SIZE)
      requires offset + len <= DATA_SIZE * |c| && len <= buf.Length
      modifies buf
      ensures forall x: nat :: x < buf.Length ==>
                buf[x] == if x < len then ByteAt(blocks, c, offset + x) else old(buf[x])
    {
      hide ByteAt, Chain;
      var curr, copied, blockOffset := start, 0, offset % DATA_SIZE;
      ghost var j := offset / DATA_SIZE;
      while copied < len
        invariant 0 <= copied <= len && 0 <= blockOffset < DATA_SIZE && 0 <= j && curr == At(c, j)
        invariant copied < len ==> offset + copied == DATA_SIZE * j + blockOffset
        invariant forall x: nat :: x < buf.Length ==>
                    buf[x] == if x < copied then ByteAt(blocks, c, offset + x) else old(buf[x])
      {
        ChainEnds(blocks, first, c, j);
        var chunk := Min(len - copied, DATA_SIZE - blockOffset);
        CopyChunk(curr, blockOffset, copied, chunk, buf);
        forall y: nat | blockOffset <= y < blockOffset + chunk
          ensures ByteAt(blocks, c, DATA_SIZE * j + y) == blocks[curr].data[y]
        {
          ByteOfBlock(blocks, c, j, y);
        }
        copied := copied + chunk;
        blockOffset := 0;
        curr := blocks[curr].next;
        j := j + 1;
      }
    }

    method CopyChunk(b: Ptr, at: nat, copied: nat, chunk: nat, buf: array<byte>)
      requires b in blocks && at + chunk <= DATA_SIZE && copied + chunk <= buf.Length
      modifies buf
      ensures forall x: nat :: x < buf.Length ==>
                buf[x] == if copied <= x < copied + chunk then blocks[b].data[at + x - copied] else old(buf[x])
    {
      for i := 0 to chunk
        invariant forall x: nat :: x < buf.Length ==>
                    buf[x] == if copied <= x < copied + i then blocks[b].data[at + x - copied] else old(buf[x])
      {
        buf[copied + i] := blocks[b].data[at + i];
      }
    }

    /** `fs_read`: -1 for no buffer, no such file, or a start block past the blocks that hold the content; otherwise
        the number of bytes copied, 0 from the end of the file on. */
    method FsRead(ino: nat, offset: nat, len: nat, buf: array?<byte>) returns (r: int)
      requires Valid() && (buf != null ==> len <= buf.Length) && offset + len < Bits.TWO64
      modifies buf
      ensures r == -1 <==>
                buf == null || !IsFile(Abs(), ino) || offset / 4088 > (|Abs()[ino - 1].content| + 4087) / 4088
      ensures r != -1 ==>
                var content := Abs()[ino - 1].content;
                && r == (if offset >= |content| then 0
                         else if offset + len <= |content| then len
                         else |content| - offset)
                && (forall x: nat :: x < buf.Length ==> buf[x] == if x < r then content[offset + x] else old(buf[x]))
      ensures r == -1 && buf != null ==> forall x: nat :: x < buf.Length ==> buf[x] == old(buf[x])
    {
      hide Linked, AllSized, NodeOf, HeapFits, Abstract, Chain, RecordAt, ByteAt, Content, TightExcept;
      if buf == null { return -1; }
      var blockIndex := offset / DATA_SIZE;
      var subject := FindInode(ino);
      if subject == 0 { return -1; }
      ghost var k := ino - 1;
      NodeView(inodes, blocks, inodeListHead, lay, k);
      if inodes[subject].kind != 1 { return -1; }
      ghost var c, n := lay.chains[k], inodes[subject].size;
      ContentBytes(blocks, c, n);
      FileBlocks(inodes, lay, k);
      var ok, curr := Advance(inodes[subject].firstBlock, blockIndex, c);
      if !ok { return -1; }
      if offset >= inodes[subject].size { return 0; }
      var count := len;
      if offset + len > inodes[subject].size {
        count := inodes[subject].size - offset;
      }
      CopyOut(curr, offset, count, buf, inodes[subject].firstBlock, c);
      r := count;
    }

    /** The counting loop of `fs_write`: blocks in a chain. */
    method CountBlocks(first: Ptr, ghost c: seq<Ptr>) returns (n: nat)
      requires Chain(blocks, first, c)
      ensures n == |c|
    {
      n := 0;
      var p := first;
      while p != 0
        invariant n <= |c| && p == At(c, n)
        decreases |c| - n
      {
        n := n + 1;
        p := blocks[p].next;
      }
    }

    /** The growth loop of `fs_write`: append blocks until the chain covers `end` bytes. */
    method GrowChain(p: Ptr, end: nat, count: nat, ghost k: nat) returns (halted: bool)
      requires SoundExcept(k) && k < |lay.ptrs| && p == lay.ptrs[k] && count == |lay.chains[k]|
      modifies this
      ensures H.RunHeap(old(heap), Requests(BlocksMissing(count, end))) ==
              if halted then H.Panicked else H.Survived(heap)
      ensures !halted ==>
                && SoundExcept(k) && Abs() == old(Abs()) && lay.ptrs == old(lay).ptrs
                && end <= DATA_SIZE * |lay.chains[k]|
                && |lay.chains[k]| == count + BlocksMissing(count, end)
                && p in inodes && p in old(inodes) && inodes[p] == old(inodes)[p].(firstBlock := inodes[p].firstBlock)
    {
      hide Linked, AllSized, NodeOf, HeapFits, Abstract, RecordAt, TightExcept, H.RunHeap, H.KmallocStep, Requests,
           BlocksMissing;
      RecordIn(inodes, blocks, inodeListHead, lay, k);
      NoRequests(heap);
      var added, remaining := 0, DATA_SIZE * count;
      while end > remaining
        invariant SoundExcept(k) && Abs() == old(Abs()) && lay.ptrs == old(lay).ptrs
        invariant 0 <= added && |lay.chains[k]| == count + added && remaining == DATA_SIZE * (count + added)
        invariant p in inodes && inodes[p] == old(inodes)[p].(firstBlock := inodes[p].firstBlock)
        invariant H.RunHeap(old(heap), Requests(added)) == H.Survived(heap)
        invariant added == 0 || DATA_SIZE * (count + added - 1) < end
        decreases end - remaining
      {
        OneMoreRequest(old(heap), heap, added);
        var stop := AppendBlock(p, k);
        if stop {
          StillMissing(count, added, end);
          FewerRequests(added + 1, BlocksMissing(count, end));
          PanicPersists(old(heap), Requests(added + 1), Requests(BlocksMissing(count, end)));
          return true;
        }
        added := added + 1;
        remaining := DATA_SIZE * (count + added);
      }
      NoneMissing(count, added, end);
      halted := false;
    }

    /** The copy loop of `fs_write`: `len` bytes of the buffer into the chain from `offset`, block by block. */
    method CopyIn(start: Ptr, offset: nat, src: array<byte>, len: nat, ghost first: Ptr, ghost k: nat)
      requires |lay.chains| == |lay.ptrs| && k < |lay.ptrs|
      requires Linked(inodes, blocks, inodeListHead, lay) && Chain(blocks, first, lay.chains[k])
      requires start == At(lay.chains[k], offset / DATA_SIZE) && len <= src.Length
      requires offset + len <= DATA_SIZE * |lay.chains[k]|
      modifies `blocks
      ensures Linked(inodes, blocks, inodeListHead, lay) && blocks.Keys == old(blocks).Keys
      ensures OnlyNode(inodes, inodes, old(blocks), blocks, lay, lay, k)
      ensures Stored(old(blocks), blocks, lay.chains[k], offset, src[..len], len)
    {
      hide ByteAt, Linked, Stored, OnlyNode, PutData, Chain, ChunkIn;
      ghost var c, bytes := lay.chains[k], src[..len];
      ChainDistinct(inodes, blocks, inodeListHead, lay, k);
      OnlyNodeItself(inodes, blocks, lay, k);
      NothingStored(blocks, c, offset, bytes);
      var curr, written, blockOffset := start, 0, offset % DATA_SIZE;
      ghost var j := offset / DATA_SIZE;
      ghost var f := first;
      while written < len
        invariant 0 <= written <= len && 0 <= blockOffset < DATA_SIZE && 0 <= j && curr == At(c, j)
        invariant src[..len] == bytes
        invariant written < len ==> offset + written == DATA_SIZE * j + blockOffset
        invariant Linked(inodes, blocks, inodeListHead, lay) && Chain(blocks, f, c) && blocks.Keys == old(blocks).Keys
        invariant OnlyNode(inodes, inodes, old(blocks), blocks, lay, lay, k)
        invariant Stored(old(blocks), blocks, c, offset, bytes, written)
      {
        ChainEnds(blocks, f, c, j);
        AllInMemory(blocks, f, c);
        var chunk := Min(len - written, DATA_SIZE - blockOffset);
        ghost var bs := blocks;
        WriteChunk(curr, blockOffset, src, written, chunk, bytes);
        StoredMore(old(blocks), bs, c, offset, bytes, written, chunk, j, blockOffset, blocks[curr].data);
        PutDataEffect(inodes, bs, inodeListHead, lay, k, j, blocks[curr].data);
        OnlyNodeTwice(inodes, old(blocks), bs, blocks, lay, k);
        PutKeys(bs, curr, blocks[curr].data);
        f := RecordAt(inodes, lay.ptrs[k]).firstBlock;
        RecordIn(inodes, blocks, inodeListHead, lay, k);
        ChainEnds(blocks, f, c, j);
        written := written + chunk;
        blockOffset := 0;
        curr := blocks[curr].next;
        j := j + 1;
      }
    }

    method WriteChunk(b: Ptr, at: nat, src: array<byte>, written: nat, chunk: nat, ghost bytes: seq<byte>)
      requires b in blocks && at + chunk <= DATA_SIZE && written + chunk <= |bytes| <= src.Length
      requires bytes == src[..|bytes|]
      modifies `blocks
      ensures b in blocks && blocks == PutData(old(blocks), b, blocks[b].data)
      ensures ChunkIn(old(blocks)[b].data, blocks[b].data, at, bytes, written, chunk)
    {
      hide Splice;
      for i := 0 to chunk
        invariant b in blocks && blocks == PutData(old(blocks), b, blocks[b].data)
        invariant ChunkIn(old(blocks)[b].data, blocks[b].data, at, bytes, written, i)
      {
        blocks := PutData(blocks, b, Splice(blocks[b].data, at + i, [src[written + i]]));
      }
    }

    /** `fs_write`: -1 with nothing changed for no buffer or no such file; otherwise all `len` bytes are written.
        It halts exactly when the heap cannot supply the blocks that the content lacks. */
    method FsWrite(ino: nat, offset: nat, len: nat, buf: array?<byte>) returns (r: int, halted: bool)
      requires Valid() && (buf != null ==> len <= buf.Length) && offset + len < Bits.TWO64
      modifies this
      ensures r == -1 <==> !halted && (buf == null || !IsFile(old(Abs()), ino))
      ensures r == -1 ==> Valid() && Abs() == old(Abs()) && heap == old(heap)
      ensures halted ==> buf != null && IsFile(old(Abs()), ino)
      ensures H.RunHeap(old(heap), if buf == null then [] else WriteRequests(old(Abs()), ino, offset, len)) ==
              if halted then H.Panicked else H.Survived(heap)
      ensures buf != null && IsFile(old(Abs()), ino) && !halted ==>
                r == len && Valid() && Abs() == Write(old(Abs()), ino, offset, buf[..len])
      ensures !halted && old(Graph(Abs())) ==> Graph(Abs())
    {
      hide Linked, AllSized, NodeOf, HeapFits, Abstract, RecordAt, ByteAt, Content, Graph, Chain, Sized, OnlyNode,
           Stored, TightExcept, BlocksFor, H.RunHeap, Requests, BlocksMissing, Overwrite, SetSize;
      ghost var s := Abs();
      NothingRequested(heap);
      if buf == null { return -1, false; }
      if Graph(s) { WriteKeepsGraph(s, ino, offset, buf[..len]); }
      var subject := FindInode(ino);
      if subject == 0 { return -1, false; }
      ghost var k := ino - 1;
      NodeView(inodes, blocks, inodeListHead, lay, k);
      if inodes[subject].kind != 1 { return -1, false; }
      FileBlocks(inodes, lay, k);
      ContentBytes(blocks, lay.chains[k], inodes[subject].size);
      var blockIndex := offset / DATA_SIZE;
      var count := CountBlocks(inodes[subject].firstBlock, lay.chains[k]);
      halted := GrowChain(subject, offset + len, count, k);
      if halted { return 0, true; }
      NodeView(inodes, blocks, inodeListHead, lay, k);
      ghost var c, nd := lay.chains[k], inodes[subject];
      IndexWithin(offset, len, |c|);
      var ok, curr := Advance(inodes[subject].firstBlock, blockIndex, c);
      assert ok;   // the chain now covers the start block: the walk cannot fail
      ghost var bs := blocks;
      CopyIn(curr, offset, buf, len, inodes[subject].firstBlock, k);
      ghost var n := if offset + len > nd.size then offset + len else nd.size;
      WriteEffect(inodes, SetSize(inodes, subject, n), bs, blocks, inodeListHead, lay, k, c, nd, offset, buf[..len]);
      SameSizeNothing(inodes, subject);
      BlocksAfterWrite(nd.size, offset + len);
      TightFile(inodes, blocks, inodeListHead, lay, k, n);
      FitsStill(heap, inodes, SetSize(inodes, subject, n), bs, blocks, |lay.ptrs|) by {
        SetSizeKeys(inodes, subject, n);
      }
      if offset + len > inodes[subject].size {
        inodes := SetSize(inodes, subject, offset + len);
      }
      r := len;
    }

    /** `fs_stat`: each output is filled if asked for. */
    method FsStat(ino: nat, sizeOut: array?<nat>, kindOut: array?<byte>) returns (r: int)
      requires Valid() && (sizeOut != null ==> sizeOut.Length == 1) && (kindOut != null ==> kindOut.Length == 1)
      modifies sizeOut, kindOut
      ensures r == if Listed(Abs(), ino) then 0 else -1
      ensures sizeOut != null ==>
                sizeOut[0] ==
                if r != 0 then old(sizeOut[0])
                else match Abs()[ino - 1]
                     case File(content) => |content|
                     case Dir(entries) => |entries|
                     case Special(_) => 0
      ensures kindOut != null ==>
                kindOut[0] ==
                if r != 0 then old(kindOut[0])
                else match Abs()[ino - 1]
                     case File(_) => 1
                     case Dir(_) => 2
                     case Special(kind) => kind
      ensures Listed(Abs(), ino) && Abs()[ino - 1].Special? ==> Abs()[ino - 1].kind !in {1, 2}
    {
      hide Linked, AllSized, NodeOf, HeapFits, TightExcept, Abstract, Chain, Sized, Entries, Content;
      var n := FindInode(ino);
      if n == 0 { return -1; }
      NodeView(inodes, blocks, inodeListHead, lay, ino - 1);
      EntriesLength(blocks, lay.chains[ino - 1], inodes[n].size);
      ContentBytes(blocks, lay.chains[ino - 1], inodes[n].size);
      if sizeOut != null { sizeOut[0] := inodes[n].size; }
      if kindOut != null { kindOut[0] := inodes[n].kind; }
      r := 0;
    }
  }

  /** Heap requests of one call, and of a run of calls: a function of the abstract store alone. */
  function CallRequests(s: Store, op: Op): seq<nat> {
    match op
    case OpCreate(parent, name, kind) => CreateRequests(s, parent, name)
    case OpUnlink(parent, name) => []
    case OpWrite(ino, offset, bytes) => WriteRequests(s, ino, offset, |bytes|)
  }

  function RunCallRequests(s: Store, ops: seq<Op>): seq<nat>
    decreases |ops|
  {
    if ops == [] then [] else CallRequests(s, ops[0]) + RunCallRequests(Apply(s, ops[0]), ops[1..])
  }

  // ---- What directories and files cost ----

  /** Create these names in one directory. */
  function CreateAll(parent: nat, names: seq<Text>, kind: byte): seq<Op> {
    seq(|names|, i requires 0 <= i < |names| => OpCreate(parent, names[i], kind))
  }

  /** A new name in a directory of `e` entries asks for an inode and, at a multiple of 15, for a block. */
  lemma CreateAsks(s: Store, parent: nat, name: Text)
    requires Graph(s) && IsDir(s, parent) && 1 <= |name| <= 254 && Binding(s, parent, name) == 0
    ensures CreateRequests(s, parent, name) == if |s[parent - 1].entries| % 15 == 0 then [40, 4096] else [40]
    ensures H.Total(CreateRequests(s, parent, name)) ==
            48 + if |s[parent - 1].entries| % 15 == 0 then 4096 else 0
  {
    hide Graph, CanCreate, H.Total;
    CreateAddsOneBinding(s, parent, name, 1);
    CanCreateIs(s, parent, name);
    TotalOfTwo(40, 4096);
  }

  lemma CanCreateIs(s: Store, parent: nat, name: Text)
    ensures CanCreate(s, parent, name) <==> Create(s, parent, name, 1).0 != 0
  {
  }

  lemma TotalOfTwo(a: nat, b: nat)
    ensures H.Total([a]) == H.Aligned(a) && H.Total([a, b]) == H.Aligned(a) + H.Aligned(b)
  {
    assert [a][1..] == [] && [a, b][1..] == [b] && [b][1..] == [];
    assert H.Total([b]) == H.Aligned(b) + H.Total([]);
  }

  /** Creating `n` new names in a directory of `e` entries takes 48 bytes each and a 4 KiB block for every 15 entries
      begun. */
  lemma {:induction false} DirectoryCost(s: Store, parent: nat, names: seq<Text>, kind: byte)
    requires Graph(s) && IsDir(s, parent)
    requires forall i :: 0 <= i < |names| ==> 1 <= |names[i]| <= 254 && Binding(s, parent, names[i]) == 0
    requires forall i, j :: 0 <= i < j < |names| ==> names[i] != names[j]
    ensures var e, n := |s[parent - 1].entries|, |names|;
            H.Total(RunCallRequests(s, CreateAll(parent, names, kind))) ==
            48 * n + 4096 * ((e + n + 14) / 15 - (e + 14) / 15)
    decreases |names|
  {
    hide Graph, Create, CreateRequests, H.Total, Binding, CreateAll;
    CreateAllStep(s, parent, names, kind);
    if names != [] {
      var s' := Create(s, parent, names[0], kind).1;
      CreateAddsOneBinding(s, parent, names[0], kind);
      CreateKeepsGraph(s, parent, names[0], kind);
      CreateAsks(s, parent, names[0]);
      OneMoreEntry(|s[parent - 1].entries|);
      DirectoryCost(s', parent, names[1..], kind);
    }
  }

  lemma CreateAllStep(s: Store, parent: nat, names: seq<Text>, kind: byte)
    ensures H.Total(RunCallRequests(s, CreateAll(parent, names, kind))) ==
            if names == [] then 0 else
              H.Total(CreateRequests(s, parent, names[0])) +
              H.Total(RunCallRequests(Create(s, parent, names[0], kind).1, CreateAll(parent, names[1..], kind)))
  {
    hide Create, CreateRequests;
    if names != [] {
      var ops := CreateAll(parent, names, kind);
      assert ops[1..] == CreateAll(parent, names[1..], kind);
      H.TotalInParts(CallRequests(s, ops[0]), RunCallRequests(Apply(s, ops[0]), ops[1..]));
    }
  }

  lemma OneMoreEntry(e: nat)
    ensures (e + 1 + 14) / 15 == (e + 14) / 15 + if e % 15 == 0 then 1 else 0
  {
  }

  lemma NoTotal()
    ensures H.Total([]) == 0
  {
  }

  lemma {:induction false} TotalOfBlocks(n: nat)
    ensures H.Total(Requests(n)) == 4096 * n
  {
    if n > 0 {
      TotalOfBlocks(n - 1);
      assert Requests(n)[1..] == Requests(n - 1);
    }
  }

  /** A write takes a 4 KiB block for every 4088 bytes begun past those the file has. */
  lemma WriteCost(s: Store, ino: nat, offset: nat, len: nat)
    ensures H.Total(WriteRequests(s, ino, offset, len)) ==
            if !IsFile(s, ino) then 0 else
              var size := |s[ino - 1].content|;
              var end := if offset + len > size then offset + len else size;
              4096 * ((end + 4087) / 4088 - (size + 4087) / 4088)
  {
    hide H.Total, Requests;
    NoTotal();
    if IsFile(s, ino) { TotalOfBlocks(BlocksMissing(BlocksFor(|s[ino - 1].content|), offset + len)); }
  }

  /** Any sequence of calls from any good state.  Kernel memory stands for the abstract run and every call returns
      what the run says; the kernel halts exactly when the heap cannot serve the requests of the run, and what
      returned before that is a prefix of the results. */
  method RunCalls(fs: FileSystem, ops: seq<Op>) returns (halted: bool, results: seq<int>)
    requires fs.Valid() && Graph(fs.Abs())
    requires forall i :: 0 <= i < |ops| && ops[i].OpWrite? ==> ops[i].offset + |ops[i].bytes| < Bits.TWO64
    modifies fs
    ensures H.RunHeap(old(fs.heap), RunCallRequests(old(fs.Abs()), ops)) ==
            if halted then H.Panicked else H.Survived(fs.heap)
    ensures if halted then results < Outcomes(old(fs.Abs()), ops) else results == Outcomes(old(fs.Abs()), ops)
    ensures !halted ==> fs.Valid() && fs.Abs() == ApplyAll(old(fs.Abs()), ops) && Graph(fs.Abs())
    decreases |ops|
  {
    hide FileSystem.Valid, FileSystem.Abs, Graph, Apply, Outcome, H.RunHeap, CallRequests;
    NothingRequested(fs.heap);
    if ops == [] { return false, []; }
    RunInParts(fs.heap, CallRequests(fs.Abs(), ops[0]), RunCallRequests(Apply(fs.Abs(), ops[0]), ops[1..]));
    var stop, first := Call(fs, ops[0]);
    if stop { return true, []; }
    var rest;
    halted, rest := RunCalls(fs, ops[1..]);
    results := [first] + rest;
  }

  method Call(fs: FileSystem, op: Op) returns (halted: bool, r: int)
    requires fs.Valid() && Graph(fs.Abs()) && (op.OpWrite? ==> op.offset + |op.bytes| < Bits.TWO64)
    modifies fs
    ensures H.RunHeap(old(fs.heap), CallRequests(old(fs.Abs()), op)) ==
            if halted then H.Panicked else H.Survived(fs.heap)
    ensures !halted ==> r == Outcome(old(fs.Abs()), op)
    ensures !halted ==> fs.Valid() && fs.Abs() == Apply(old(fs.Abs()), op) && Graph(fs.Abs())
  {
    hide FileSystem.Valid, FileSystem.Abs, Graph, CanCreate, CanUnlink, Overwrite, H.RunHeap, CreateRequests,
         WriteRequests;
    NothingRequested(fs.heap);
    match op
    case OpCreate(parent, name, kind) =>
      var ino;
      ino, halted := fs.FsCreate(parent, name, kind);
      r := ino;
    case OpUnlink(parent, name) =>
      r := fs.FsUnlink(parent, name);
      halted := false;
    case OpWrite(ino, offset, bytes) =>
      var buf := new byte[|bytes|](i requires 0 <= i < |bytes| => bytes[i]);
      assert buf[..|bytes|] == bytes;
      r, halted := fs.FsWrite(ino, offset, |bytes|, buf);
  }

  /** `name_matches`: `path[start..end]` against the string in a 256-byte name buffer. */
  method NameMatches(path: Text, start: nat, end: nat, name: seq<byte>) returns (r: bool)
    requires start <= end <= |path| && |CString(name)| < |name|
    ensures r <==> path[start..end] == CString(name)
  {
    var s := CString(name);
    for i := 0 to end - start
      invariant i <= |s| && forall j :: 0 <= j < i ==> path[start + j] == s[j]
    {
      assert i < |s| ==> s[i] == name[i];
      if path[start + i] != name[i] {
        assert i < |s| ==> path[start..end][i] != s[i];
        return false;
      }
    }
    r := name[end - start] == NUL;
    assert end - start < |s| ==> s[end - start] != NUL && s[end - start] == name[end - start];
    assert end - start == |s| ==> path[start..end] == s;
  }

  /** `parse_path`: the end of each segment, at most `maxSegments` of them; none for the bare root. */
  method ParsePath(path: Text, ends: array<nat>, maxSegments: nat) returns (count: nat)
    requires maxSegments <= ends.Length
    modifies ends
    ensures count <= maxSegments
    ensures path == [SLASH] ==> count == 0
    ensures path != [SLASH] ==> ends[..count] == Take(Ends(path, 0), maxSegments)
  {
    count := 0;
    if |path| == 1 && path[0] == SLASH { return; }
    hide Ends, Take, SegmentEnd;
    if path != [] { EndsStep(path, 0); } else { NoEnds(); }
    var i := 0;
    ghost var found: seq<nat> := [];
    while CharAt(path, i) != NUL && count < maxSegments
      invariant 0 <= i <= |path| && |found| == count <= maxSegments
      invariant ends[..count] == found
      invariant Ends(path, 0) == found + Ends(path, i)
      decreases |path| - i
    {
      EndsStep(path, i);
      i := ScanSegment(path, i + 1);
      EndsGrow(Ends(path, 0), found, i, Ends(path, i));
      ends[count] := i;
      assert ends[..count + 1] == ends[..count] + [i];
      found := found + [i];
      count := count + 1;
    }
    TakeIs(Ends(path, 0), found, Ends(path, i), maxSegments);
  }

  lemma EndsGrow(all: seq<nat>, found: seq<nat>, e: nat, rest: seq<nat>)
    ensures found + ([e] + rest) == (found + [e]) + rest
  {
  }

  lemma NoEnds()
    ensures Ends([], 0) == []
  {
  }

  /** Scan to the next slash or the end of the string. */
  method ScanSegment(path: Text, from: nat) returns (i: nat)
    requires from <= |path|
    ensures i == SegmentEnd(path, from)
  {
    i := from;
    while CharAt(path, i) != NUL && CharAt(path, i) != SLASH
      invariant from <= i <= |path| && SegmentEnd(path, from) == SegmentEnd(path, i)
      decreases |path| - i
    {
      i := i + 1;
    }
  }

  /** `name_matches_single`: equality of two strings. */
  method NameMatchesSingle(a: Text, b: Text) returns (r: bool)
    ensures r <==> a == b
  {
    if |a| != |b| { return false; }
    var i := 0;
    while CharAt(a, i) != NUL || CharAt(b, i) != NUL
      invariant 0 <= i <= |a| && a[..i] == b[..i]
      decreases |a| - i
    {
      if CharAt(a, i) != CharAt(b, i) { return false; }
      i := i + 1;
    }
    r := true;
  }

  lemma RecordIn(inodes: map<Ptr, Inode>, blocks: map<Ptr, Block>, head: Ptr, l: Layout, k: nat)
    requires Linked(inodes, blocks, head, l) && k < |l.ptrs|
    ensures l.ptrs[k] != 0 && l.ptrs[k] in inodes && inodes[l.ptrs[k]].ino == k + 1
    ensures RecordAt(inodes, l.ptrs[k]) == inodes[l.ptrs[k]]
    ensures |l.chains| == |l.ptrs| && Chain(blocks, inodes[l.ptrs[k]].firstBlock, l.chains[k])
  {
  }

  /** A directory node as its record and chain hold it. */
  lemma DirectoryView(inodes: map<Ptr, Inode>, blocks: map<Ptr, Block>, head: Ptr, l: Layout, k: nat)
    requires Linked(inodes, blocks, head, l) && AllSized(inodes, blocks, l) && k < |l.ptrs|
    requires Graph(Abstract(inodes, blocks, l))
    ensures |l.chains| == |l.ptrs| && l.ptrs[k] in inodes
    ensures var s, nd, c := Abstract(inodes, blocks, l), inodes[l.ptrs[k]], l.chains[k];
            && (s[k].Dir? <==> nd.kind == 2)
            && Chain(blocks, nd.firstBlock, c) && Sized(nd, c, blocks)
            && (nd.kind == 2 ==>
                  && s[k].entries == Entries(blocks, c, nd.size)
                  && (forall i :: 0 <= i < nd.size ==> EntryAt(blocks, c, i) == s[k].entries[i])
                  && (forall i :: 0 <= i < nd.size ==> |EntryAt(blocks, c, i).name| < MAX_SIZE)
                  && (forall i :: 0 <= i < |s[k].entries| ==> Listed(s, s[k].entries[i].ino)))
  {
    hide EntryAt, Chain, Sized, Content, OneParent;
    NodeAt(inodes, blocks, head, l, k);
    var s, nd := Abstract(inodes, blocks, l), inodes[l.ptrs[k]];
    if nd.kind == 2 {
      assert GoodEntries(s[k].entries, k, |s|);
      forall i | 0 <= i < nd.size ensures EntryAt(blocks, l.chains[k], i) == s[k].entries[i] {}
    }
  }

  /** Byte `x` while a dirent at `base` is being written. */
  function DirentByte(d: Payload, base: nat, ino: seq<byte>, name: seq<byte>, x: nat): byte
    requires x < DATA_SIZE
  {
    if base <= x < base + |ino| then ino[x - base]
    else if base + |ino| <= x < base + |ino| + |name| then name[x - base - |ino|]
    else d[x]
  }

  lemma DirentWritten(d: Payload, d': Payload, slot: nat, ino: nat, name: Text)
    requires slot < PER_BLOCK && |name| < MAX_SIZE && ino < Pow256(INO_SIZE)
    requires forall x :: 0 <= x < DATA_SIZE ==>
               d'[x] == DirentByte(d, DIRENT_SIZE * slot, ToBytes(ino, INO_SIZE), name + [NUL], x)
    ensures EntryIn(d', slot) == Entry(name, ino)
    ensures forall q: nat :: q < PER_BLOCK && q != slot ==> EntryIn(d', q) == EntryIn(d, q)
  {
    hide ToBytes, FromBytes, CString;
    var base := DIRENT_SIZE * slot;
    assert d'[base..base + INO_SIZE] == ToBytes(ino, INO_SIZE);
    BytesRoundTrip(ino, INO_SIZE);
    var buf := d'[base + INO_SIZE..base + DIRENT_SIZE];
    assert buf[..|name|] == name;
    CStringIs(buf, name);
    forall q: nat | q < PER_BLOCK && q != slot ensures EntryIn(d', q) == EntryIn(d, q) {
      hide EntryIn;
      OtherSlotSame(d, d', slot, q);
    }
  }

  lemma SizedDir(inodes: map<Ptr, Inode>, blocks: map<Ptr, Block>, head: Ptr, l: Layout, k: nat)
    requires Linked(inodes, blocks, head, l) && AllSized(inodes, blocks, l) && k < |l.ptrs|
    requires RecordAt(inodes, l.ptrs[k]).kind == 2
    ensures RecordAt(inodes, l.ptrs[k]).size <= PER_BLOCK * |l.chains[k]|
  {
    assert Sized(RecordAt(inodes, l.ptrs[k]), l.chains[k], blocks);
  }

  lemma RunRequests(heap: H.HeapState, a: nat, b: nat)
    ensures H.RunHeap(heap, []) == H.Survived(heap)
    ensures H.RunHeap(heap, [a]) ==
            if H.KmallocStep(heap, a).0.Halted? then H.Panicked else H.Survived(H.KmallocStep(heap, a).1)
    ensures H.RunHeap(heap, [a, b]) ==
            if H.KmallocStep(heap, a).0.Halted? then H.Panicked else H.RunHeap(H.KmallocStep(heap, a).1, [b])
  {
    hide H.KmallocStep;
    assert [a][1..] == [] && [a, b][1..] == [b];
  }

  lemma SegmentsExist(p: Text)
    ensures |Take(Ends(p, 0), MAX_SEGMENTS)| == |Take(Segments(p, 0), MAX_SEGMENTS)|
    ensures p != [] ==> Take(Ends(p, 0), MAX_SEGMENTS) != []
  {
    if p != [] { EndsDelimit(p, 0, 0); }
  }

  lemma WalkStep(s: Store, at: nat, names: seq<Text>, i: nat)
    requires i < |names|
    ensures Walk(s, at, names[i..]) ==
            if !IsDir(s, at) || Find(s[at - 1].entries, names[i], 0) == |s[at - 1].entries| then INVALID_INO
            else Walk(s, s[at - 1].entries[Find(s[at - 1].entries, names[i], 0)].ino, names[i + 1..])
  {
    assert names[i..][1..] == names[i + 1..];
  }

  lemma WalkDone(s: Store, at: nat, names: seq<Text>)
    ensures Walk(s, at, names[|names|..]) == at
  {
  }

  /** Position `j` of a chain is null exactly past its end. */
  lemma ChainEnds(blocks: map<Ptr, Block>, first: Ptr, c: seq<Ptr>, j: nat)
    requires Chain(blocks, first, c)
    ensures At(c, j) == 0 <==> j >= |c|
    ensures j < |c| ==> c[j] in blocks && blocks[c[j]].next == At(c, j + 1)
  {
  }
}
