/** How nodes are laid out in kernel memory: inode records, chains of 4 KiB blocks, packed directory entries. */
module Disk {
  import opened CStrings
  import opened Store

  const BLOCK_SIZE: nat := 4096
  const DATA_SIZE: nat := 4088                 // payload after the 8-byte link pointer
  const DIRENT_SIZE: nat := 264                // 8-byte inode number, 256-byte name
  const INO_SIZE: nat := 8
  const PER_BLOCK: nat := 15                   // entries that fit in one payload
  const INODE_SIZE: nat := 40

  /** A heap address; 0 is the null pointer. */
  type Ptr = nat

  type Payload = d: seq<byte> | |d| == DATA_SIZE ghost witness Zeros(DATA_SIZE)

  datatype Block = Block(next: Ptr, data: Payload)

  datatype Inode = Inode(ino: nat, kind: byte, size: nat, firstBlock: Ptr, next: Ptr)

  /** An entry is an 8-byte number and a 256-byte name, and a payload, a block without its link, holds all the entries
      that fit. */
  lemma BlockLayout()
    ensures DIRENT_SIZE == 8 + 256 && DATA_SIZE + 8 == BLOCK_SIZE == 4096
    ensures PER_BLOCK * DIRENT_SIZE <= DATA_SIZE < (PER_BLOCK + 1) * DIRENT_SIZE
  {
  }

  /** The one assumption about the heap: memory that `kmalloc` hands out for the first time holds zeros, so that a
      block no store has touched has a null link and a zero payload. */
  function UntouchedBlock(): Block {
    Block(0, Zeros(DATA_SIZE))
  }

  // ---- Directory entries inside a payload ----

  /** Little-endian value of some bytes. */
  function FromBytes(b: seq<byte>): nat {
    if b == [] then 0 else b[0] + 256 * FromBytes(b[1..])
  }

  function ToBytes(n: nat, k: nat): (b: seq<byte>)
    ensures |b| == k
  {
    if k == 0 then [] else [n % 256] + ToBytes(n / 256, k - 1)
  }

  lemma {:induction false} BytesRoundTrip(n: nat, k: nat)
    requires n < Pow256(k)
    ensures FromBytes(ToBytes(n, k)) == n
  {
    if k > 0 { BytesRoundTrip(n / 256, k - 1); }
  }

  function Pow256(k: nat): nat {
    if k == 0 then 1 else 256 * Pow256(k - 1)
  }

  /** Entry in slot `slot` of a directory block. */
  function EntryIn(d: Payload, slot: nat): Entry
    requires slot < PER_BLOCK
  {
    var base := DIRENT_SIZE * slot;
    Entry(CString(d[base + INO_SIZE..base + DIRENT_SIZE]), FromBytes(d[base..base + INO_SIZE]))
  }

  /** Overwrite the bytes of `d` from `offset`. */
  function Splice(d: Payload, offset: nat, bytes: seq<byte>): (r: Payload)
    requires offset + |bytes| <= DATA_SIZE
    ensures forall i :: 0 <= i < DATA_SIZE ==>
              r[i] == if offset <= i < offset + |bytes| then bytes[i - offset] else d[i]
  {
    d[..offset] + bytes + d[offset + |bytes|..]
  }

  /** An entry depends on its own 264 bytes only. */
  lemma EntryDependsOnSlot(d: Payload, i: nat, d': Payload, j: nat)
    requires i < PER_BLOCK && j < PER_BLOCK
    requires d[DIRENT_SIZE * i..DIRENT_SIZE * i + DIRENT_SIZE] == d'[DIRENT_SIZE * j..DIRENT_SIZE * j + DIRENT_SIZE]
    ensures EntryIn(d, i) == EntryIn(d', j)
  {
    var a, b := d[DIRENT_SIZE * i..DIRENT_SIZE * i + DIRENT_SIZE], d'[DIRENT_SIZE * j..DIRENT_SIZE * j + DIRENT_SIZE];
    assert a[..INO_SIZE] == d[DIRENT_SIZE * i..DIRENT_SIZE * i + INO_SIZE];
    assert b[..INO_SIZE] == d'[DIRENT_SIZE * j..DIRENT_SIZE * j + INO_SIZE];
    assert a[INO_SIZE..] == d[DIRENT_SIZE * i + INO_SIZE..DIRENT_SIZE * i + DIRENT_SIZE];
    assert b[INO_SIZE..] == d'[DIRENT_SIZE * j + INO_SIZE..DIRENT_SIZE * j + DIRENT_SIZE];
  }

  /** Bytes of slot `i` are not bytes of slot `j`. */
  lemma OtherSlotSame(d: Payload, d': Payload, i: nat, j: nat)
    requires i < PER_BLOCK && j < PER_BLOCK && i != j
    requires forall x :: 0 <= x < DATA_SIZE && !(DIRENT_SIZE * i <= x < DIRENT_SIZE * i + DIRENT_SIZE) ==> d'[x] == d[x]
    ensures EntryIn(d', j) == EntryIn(d, j)
  {
    assert d[DIRENT_SIZE * j..DIRENT_SIZE * j + DIRENT_SIZE] == d'[DIRENT_SIZE * j..DIRENT_SIZE * j + DIRENT_SIZE];
    EntryDependsOnSlot(d', j, d, j);
  }

  // ---- Chains ----

  function At(c: seq<Ptr>, j: nat): Ptr {
    if j < |c| then c[j] else 0
  }

  ghost predicate Chain(blocks: map<Ptr, Block>, first: Ptr, c: seq<Ptr>) {
    && first == At(c, 0)
    && forall j: nat :: j < |c| ==> c[j] != 0 && c[j] in blocks && blocks[c[j]].next == At(c, j + 1)
  }

  function DataOf(blocks: map<Ptr, Block>, p: Ptr): Payload {
    if p in blocks then blocks[p].data else Zeros(DATA_SIZE)
  }

  /** Byte `o` of the chain's payload. */
  function ByteAt(blocks: map<Ptr, Block>, c: seq<Ptr>, o: nat): byte {
    DataOf(blocks, At(c, o / DATA_SIZE))[o % DATA_SIZE]
  }

  /** Directory entry `i` of the chain. */
  function EntryAt(blocks: map<Ptr, Block>, c: seq<Ptr>, i: nat): Entry {
    EntryIn(DataOf(blocks, At(c, i / PER_BLOCK)), i % PER_BLOCK)
  }

  function Content(blocks: map<Ptr, Block>, c: seq<Ptr>, n: nat): seq<byte> {
    seq(n, o requires 0 <= o < n => ByteAt(blocks, c, o))
  }

  function Entries(blocks: map<Ptr, Block>, c: seq<Ptr>, n: nat): seq<Entry> {
    seq(n, i requires 0 <= i < n => EntryAt(blocks, c, i))
  }

  /** The node an inode record and its chain stand for. */
  function NodeOf(nd: Inode, c: seq<Ptr>, blocks: map<Ptr, Block>): Node {
    if nd.kind == 1 then File(Content(blocks, c, nd.size))
    else if nd.kind == 2 then Dir(Entries(blocks, c, nd.size))
    else Special(nd.kind)
  }

  /** Capacity covers the size, and a file's bytes past its size are zero. */
  ghost predicate Sized(nd: Inode, c: seq<Ptr>, blocks: map<Ptr, Block>) {
    && (nd.kind == 1 ==>
          && nd.size <= DATA_SIZE * |c|
          && forall o: nat :: nd.size <= o < DATA_SIZE * |c| ==> ByteAt(blocks, c, o) == 0)
    && (nd.kind == 2 ==> nd.size <= PER_BLOCK * |c|)
    && (nd.kind != 1 && nd.kind != 2 ==> nd.size == 0)
  }

  ghost predicate SameData(blocks: map<Ptr, Block>, blocks': map<Ptr, Block>, c: seq<Ptr>) {
    forall j: nat :: j < |c| ==> DataOf(blocks', c[j]) == DataOf(blocks, c[j])
  }

  lemma FileFrame(nd: Inode, c: seq<Ptr>, blocks: map<Ptr, Block>, blocks': map<Ptr, Block>)
    requires SameData(blocks, blocks', c) && nd.size <= DATA_SIZE * |c|
    ensures Content(blocks', c, nd.size) == Content(blocks, c, nd.size)
    ensures forall o: nat :: o < DATA_SIZE * |c| ==> ByteAt(blocks', c, o) == ByteAt(blocks, c, o)
  {
    forall o: nat | o < DATA_SIZE * |c| ensures ByteAt(blocks', c, o) == ByteAt(blocks, c, o) {
      IndexInChain(o, DATA_SIZE, |c|);
    }
  }

  lemma DirFrame(nd: Inode, c: seq<Ptr>, blocks: map<Ptr, Block>, blocks': map<Ptr, Block>)
    requires SameData(blocks, blocks', c) && nd.size <= PER_BLOCK * |c|
    ensures Entries(blocks', c, nd.size) == Entries(blocks, c, nd.size)
  {
    hide EntryIn, DataOf;
    forall i: nat | i < nd.size ensures EntryAt(blocks', c, i) == EntryAt(blocks, c, i) {
      IndexInChain(i, PER_BLOCK, |c|);
    }
  }

  lemma IndexInChain(o: nat, unit: nat, n: nat)
    requires (unit == DATA_SIZE || unit == PER_BLOCK) && o < unit * n
    ensures o / unit < n
  {
  }

  /** No block occurs twice in one chain. */
  ghost predicate Distinct(c: seq<Ptr>) {
    forall x: nat, y: nat :: x < |c| && y < |c| && c[x] == c[y] ==> x == y
  }

  /** A node depends on its record and on the payload of its own chain. */
  lemma NodeFrame(nd: Inode, c: seq<Ptr>, blocks: map<Ptr, Block>, blocks': map<Ptr, Block>)
    requires SameData(blocks, blocks', c) && Sized(nd, c, blocks)
    ensures NodeOf(nd, c, blocks') == NodeOf(nd, c, blocks) && Sized(nd, c, blocks')
  {
    hide Content, Entries, ByteAt, EntryAt, SameData;
    if nd.kind == 1 { FileFrame(nd, c, blocks, blocks'); }
    if nd.kind == 2 { DirFrame(nd, c, blocks, blocks'); }
  }

  // ---- All records and chains ----

  /** Record address and block chain of each inode, in order of inode number. */
  datatype Layout = Layout(ptrs: seq<Ptr>, chains: seq<seq<Ptr>>)

  const NO_INODE: Inode := Inode(0, 0, 0, 0, 0)

  function RecordAt(inodes: map<Ptr, Inode>, p: Ptr): Inode {
    if p in inodes then inodes[p] else NO_INODE
  }

  /** The list from `head` holds one record per inode number, newest first. */
  ghost predicate ListOf(inodes: map<Ptr, Inode>, head: Ptr, ptrs: seq<Ptr>) {
    && head == Newest(ptrs, |ptrs|)
    && forall k :: 0 <= k < |ptrs| ==>
         ptrs[k] != 0 && ptrs[k] in inodes && inodes[ptrs[k]].ino == k + 1 && inodes[ptrs[k]].next == Newest(ptrs, k)
  }

  /** The record listed before `k` others were added. */
  function Newest(ptrs: seq<Ptr>, k: nat): Ptr
    requires k <= |ptrs|
  {
    if k == 0 then 0 else ptrs[k - 1]
  }

  /** No block belongs to two places. */
  ghost predicate Apart(chains: seq<seq<Ptr>>) {
    forall k1: nat, j1: nat, k2: nat, j2: nat ::
      k1 < |chains| && j1 < |chains[k1]| && k2 < |chains| && j2 < |chains[k2]| && chains[k1][j1] == chains[k2][j2]
      ==> k1 == k2 && j1 == j2
  }

  ghost predicate ChainsOf(inodes: map<Ptr, Inode>, blocks: map<Ptr, Block>, l: Layout) {
    && |l.chains| == |l.ptrs|
    && forall k :: 0 <= k < |l.ptrs| ==> Chain(blocks, RecordAt(inodes, l.ptrs[k]).firstBlock, l.chains[k])
  }

  ghost predicate Linked(inodes: map<Ptr, Inode>, blocks: map<Ptr, Block>, head: Ptr, l: Layout) {
    ListOf(inodes, head, l.ptrs) && ChainsOf(inodes, blocks, l) && Apart(l.chains)
  }

  ghost predicate AllSized(inodes: map<Ptr, Inode>, blocks: map<Ptr, Block>, l: Layout)
    requires |l.chains| == |l.ptrs|
  {
    forall k :: 0 <= k < |l.ptrs| ==> Sized(RecordAt(inodes, l.ptrs[k]), l.chains[k], blocks)
  }

  /** Blocks that hold `n` bytes. */
  function BlocksFor(n: nat): nat {
    (n + 4087) / 4088
  }

  /** Every regular file, except perhaps node `x`, has exactly the blocks its size needs. */
  ghost predicate TightExcept(inodes: map<Ptr, Inode>, l: Layout, x: int)
    requires |l.chains| == |l.ptrs|
  {
    forall k :: 0 <= k < |l.ptrs| && k != x && RecordAt(inodes, l.ptrs[k]).kind == 1 ==>
      |l.chains[k]| == BlocksFor(RecordAt(inodes, l.ptrs[k]).size)
  }

  /** The store that kernel memory stands for. */
  ghost function Abstract(inodes: map<Ptr, Inode>, blocks: map<Ptr, Block>, l: Layout): (s: Store)
    requires |l.chains| == |l.ptrs|
    ensures |s| == |l.ptrs|
  {
    seq(|l.ptrs|, k requires 0 <= k < |l.ptrs| => NodeOf(RecordAt(inodes, l.ptrs[k]), l.chains[k], blocks))
  }

  /** Everything outside node `k` is as before. */
  ghost predicate OnlyNode(inodes: map<Ptr, Inode>, inodes': map<Ptr, Inode>, blocks: map<Ptr, Block>,
                           blocks': map<Ptr, Block>, l: Layout, l': Layout, k: nat)
  {
    && l'.ptrs == l.ptrs && |l.chains| == |l'.chains| == |l.ptrs| && k < |l.ptrs|
    && forall i :: 0 <= i < |l.ptrs| && i != k ==>
         && l'.chains[i] == l.chains[i]
         && RecordAt(inodes', l.ptrs[i]) == RecordAt(inodes, l.ptrs[i])
         && SameData(blocks, blocks', l.chains[i])
  }

  /** A change confined to one node changes one node of the store. */
  lemma OneNodeChanges(inodes: map<Ptr, Inode>, inodes': map<Ptr, Inode>, blocks: map<Ptr, Block>,
                       blocks': map<Ptr, Block>, l: Layout, l': Layout, k: nat)
    requires OnlyNode(inodes, inodes', blocks, blocks', l, l', k)
    requires forall i :: 0 <= i < |l.ptrs| && i != k ==> Sized(RecordAt(inodes, l.ptrs[i]), l.chains[i], blocks)
    ensures Abstract(inodes', blocks', l') ==
            Abstract(inodes, blocks, l)[k := NodeOf(RecordAt(inodes', l.ptrs[k]), l'.chains[k], blocks')]
    ensures Sized(RecordAt(inodes', l.ptrs[k]), l'.chains[k], blocks') ==> AllSized(inodes', blocks', l')
  {
    hide NodeOf, Sized, SameData, RecordAt;
    forall i | 0 <= i < |l.ptrs| && i != k
      ensures NodeOf(RecordAt(inodes', l.ptrs[i]), l'.chains[i], blocks') ==
              NodeOf(RecordAt(inodes, l.ptrs[i]), l.chains[i], blocks)
      ensures Sized(RecordAt(inodes', l.ptrs[i]), l'.chains[i], blocks')
    {
      NodeFrame(RecordAt(inodes, l.ptrs[i]), l.chains[i], blocks, blocks');
    }
  }

  // ---- The four kinds of store the filesystem makes ----

  function PutData(blocks: map<Ptr, Block>, b: Ptr, d: Payload): map<Ptr, Block>
    requires b in blocks
  {
    blocks[b := blocks[b].(data := d)]
  }

  /** Payload written to block `j` of chain `k`. */
  lemma PutDataEffect(inodes: map<Ptr, Inode>, blocks: map<Ptr, Block>, head: Ptr, l: Layout, k: nat, j: nat,
                      d: Payload)
    requires Linked(inodes, blocks, head, l) && k < |l.ptrs| && j < |l.chains[k]|
    ensures var blocks' := PutData(blocks, l.chains[k][j], d);
            && Linked(inodes, blocks', head, l)
            && OnlyNode(inodes, inodes, blocks, blocks', l, l, k)
            && (forall x: nat :: x < |l.chains[k]| ==>
                  DataOf(blocks', l.chains[k][x]) == if x == j then d else DataOf(blocks, l.chains[k][x]))
  {
    var b := l.chains[k][j];
    var blocks' := PutData(blocks, b, d);
    forall i | 0 <= i < |l.ptrs| ensures Chain(blocks', RecordAt(inodes, l.ptrs[i]).firstBlock, l.chains[i]) {
      assert Chain(blocks, RecordAt(inodes, l.ptrs[i]).firstBlock, l.chains[i]);
    }
    forall i | 0 <= i < |l.ptrs| && i != k ensures SameData(blocks, blocks', l.chains[i]) {}
  }

  function SetSize(inodes: map<Ptr, Inode>, p: Ptr, n: nat): map<Ptr, Inode>
    requires p in inodes
  {
    inodes[p := inodes[p].(size := n)]
  }

  lemma PointersDistinct(inodes: map<Ptr, Inode>, head: Ptr, ptrs: seq<Ptr>, i: nat, j: nat)
    requires ListOf(inodes, head, ptrs) && i < |ptrs| && j < |ptrs| && ptrs[i] == ptrs[j]
    ensures i == j
  {
    assert inodes[ptrs[i]].ino == i + 1 && inodes[ptrs[j]].ino == j + 1;
  }

  /** The size field of record `k`. */
  lemma SetSizeEffect(inodes: map<Ptr, Inode>, blocks: map<Ptr, Block>, head: Ptr, l: Layout, k: nat, n: nat)
    requires Linked(inodes, blocks, head, l) && k < |l.ptrs|
    ensures var inodes' := SetSize(inodes, l.ptrs[k], n);
            && Linked(inodes', blocks, head, l)
            && OnlyNode(inodes, inodes', blocks, blocks, l, l, k)
            && RecordAt(inodes', l.ptrs[k]) == RecordAt(inodes, l.ptrs[k]).(size := n)
  {
    var inodes' := SetSize(inodes, l.ptrs[k], n);
    forall i | 0 <= i < |l.ptrs| && i != k ensures RecordAt(inodes', l.ptrs[i]) == RecordAt(inodes, l.ptrs[i]) {}
    forall i | 0 <= i < |l.ptrs| ensures Chain(blocks, RecordAt(inodes', l.ptrs[i]).firstBlock, l.chains[i]) {
      assert Chain(blocks, RecordAt(inodes, l.ptrs[i]).firstBlock, l.chains[i]);
    }
  }

  /** A fresh block linked at the end of a chain: at the record if the chain is empty, else at its last block. */
  function LinkInodes(inodes: map<Ptr, Inode>, p: Ptr, c: seq<Ptr>, b: Ptr): map<Ptr, Inode>
    requires p in inodes
  {
    if c == [] then inodes[p := inodes[p].(firstBlock := b)] else inodes
  }

  function LinkBlocks(blocks: map<Ptr, Block>, c: seq<Ptr>, b: Ptr): map<Ptr, Block>
    requires forall x :: x in c ==> x in blocks
  {
    var added := blocks[b := UntouchedBlock()];
    if c == [] then added else added[c[|c| - 1] := blocks[c[|c| - 1]].(next := b)]
  }

  function Appended(l: Layout, k: nat, b: Ptr): Layout
    requires k < |l.chains|
  {
    l.(chains := l.chains[k := l.chains[k] + [b]])
  }

  lemma AppendLinks(inodes: map<Ptr, Inode>, blocks: map<Ptr, Block>, head: Ptr, l: Layout, k: nat, b: Ptr)
    requires Linked(inodes, blocks, head, l) && k < |l.ptrs| && b != 0 && b !in blocks
    ensures forall x :: x in l.chains[k] ==> x in blocks
    ensures Linked(LinkInodes(inodes, l.ptrs[k], l.chains[k], b), LinkBlocks(blocks, l.chains[k], b), head,
                   Appended(l, k, b))
  {
    var c := l.chains[k];
    assert Chain(blocks, RecordAt(inodes, l.ptrs[k]).firstBlock, c);
    var inodes', blocks', l' := LinkInodes(inodes, l.ptrs[k], c, b), LinkBlocks(blocks, c, b), Appended(l, k, b);
    forall i | 0 <= i < |l.ptrs| && l.ptrs[i] == l.ptrs[k]
      ensures i == k
    {
      PointersDistinct(inodes, head, l.ptrs, i, k);
    }
    forall i | 0 <= i < |l.ptrs| ensures Chain(blocks', RecordAt(inodes', l.ptrs[i]).firstBlock, l'.chains[i]) {
      assert Chain(blocks, RecordAt(inodes, l.ptrs[i]).firstBlock, l.chains[i]);
      if i == k {
        ChainExtended(blocks, RecordAt(inodes, l.ptrs[k]).firstBlock, c, b);
      } else {
        ChainKept(blocks, RecordAt(inodes, l.ptrs[i]).firstBlock, l.chains[i], c, b);
      }
    }
    AppendApart(blocks, inodes, l, k, b);
  }

  lemma ChainExtended(blocks: map<Ptr, Block>, first: Ptr, c: seq<Ptr>, b: Ptr)
    requires Chain(blocks, first, c) && b != 0 && b !in blocks && (forall x :: x in c ==> x in blocks)
    requires forall j :: 0 <= j < |c| - 1 ==> c[j] != c[|c| - 1]
    ensures Chain(LinkBlocks(blocks, c, b), if c == [] then b else first, c + [b])
  {
  }

  lemma ChainKept(blocks: map<Ptr, Block>, first: Ptr, other: seq<Ptr>, c: seq<Ptr>, b: Ptr)
    requires Chain(blocks, first, other) && b !in blocks && (forall x :: x in c ==> x in blocks)
    requires c != [] ==> forall j :: 0 <= j < |other| ==> other[j] != c[|c| - 1]
    ensures Chain(LinkBlocks(blocks, c, b), first, other)
  {
  }

  lemma AppendApart(blocks: map<Ptr, Block>, inodes: map<Ptr, Inode>, l: Layout, k: nat, b: Ptr)
    requires ChainsOf(inodes, blocks, l) && Apart(l.chains) && k < |l.chains| && b !in blocks
    ensures Apart(Appended(l, k, b).chains)
  {
    forall i: nat, j: nat | i < |l.chains| && j < |l.chains[i]| ensures l.chains[i][j] in blocks {
      assert Chain(blocks, RecordAt(inodes, l.ptrs[i]).firstBlock, l.chains[i]);
    }
  }

  /** Appending a zeroed block changes no node: the store is the same, only the capacity grows. */
  lemma AppendKeepsStore(inodes: map<Ptr, Inode>, blocks: map<Ptr, Block>, head: Ptr, l: Layout, k: nat, b: Ptr)
    requires Linked(inodes, blocks, head, l) && AllSized(inodes, blocks, l) && k < |l.ptrs| && b != 0 && b !in blocks
    ensures forall x :: x in l.chains[k] ==> x in blocks
    ensures var inodes', blocks' := LinkInodes(inodes, l.ptrs[k], l.chains[k], b), LinkBlocks(blocks, l.chains[k], b);
            var l' := Appended(l, k, b);
            && Linked(inodes', blocks', head, l') && AllSized(inodes', blocks', l')
            && Abstract(inodes', blocks', l') == Abstract(inodes, blocks, l)
  {
    AppendLinks(inodes, blocks, head, l, k, b);
    var c := l.chains[k];
    var inodes', blocks', l' := LinkInodes(inodes, l.ptrs[k], c, b), LinkBlocks(blocks, c, b), Appended(l, k, b);
    AppendFrame(inodes, blocks, head, l, k, b);
    OneNodeChanges(inodes, inodes', blocks, blocks', l, l', k);
    GrownNode(RecordAt(inodes, l.ptrs[k]), RecordAt(inodes', l.ptrs[k]), c, b, blocks, blocks');
  }

  lemma AppendFrame(inodes: map<Ptr, Inode>, blocks: map<Ptr, Block>, head: Ptr, l: Layout, k: nat, b: Ptr)
    requires Linked(inodes, blocks, head, l) && k < |l.ptrs| && b !in blocks
    requires forall x :: x in l.chains[k] ==> x in blocks
    ensures var inodes', blocks' := LinkInodes(inodes, l.ptrs[k], l.chains[k], b), LinkBlocks(blocks, l.chains[k], b);
            var l' := Appended(l, k, b);
            && OnlyNode(inodes, inodes', blocks, blocks', l, l', k)
            && SameData(blocks, blocks', l.chains[k]) && DataOf(blocks', b) == Zeros(DATA_SIZE)
            && RecordAt(inodes', l.ptrs[k]) ==
              RecordAt(inodes, l.ptrs[k]).(firstBlock := RecordAt(inodes', l.ptrs[k]).firstBlock)
  {
    var c := l.chains[k];
    var inodes', blocks' := LinkInodes(inodes, l.ptrs[k], c, b), LinkBlocks(blocks, c, b);
    forall i | 0 <= i < |l.ptrs| && l.ptrs[i] == l.ptrs[k]
      ensures i == k
    {
      PointersDistinct(inodes, head, l.ptrs, i, k);
    }
    forall x | x in blocks ensures DataOf(blocks', x) == DataOf(blocks, x) {}
    forall i | 0 <= i < |l.ptrs| ensures SameData(blocks, blocks', l.chains[i]) {
      assert Chain(blocks, RecordAt(inodes, l.ptrs[i]).firstBlock, l.chains[i]);
    }
  }

  lemma GrownByte(c: seq<Ptr>, b: Ptr, blocks: map<Ptr, Block>, blocks': map<Ptr, Block>, o: nat)
    requires SameData(blocks, blocks', c) && DataOf(blocks', b) == Zeros(DATA_SIZE) && o < DATA_SIZE * (|c| + 1)
    ensures ByteAt(blocks', c + [b], o) == if o < DATA_SIZE * |c| then ByteAt(blocks, c, o) else 0
  {
    hide DataOf;
    var j := o / DATA_SIZE;
    IndexInChain(o, DATA_SIZE, |c| + 1);
    if o < DATA_SIZE * |c| {
      IndexInChain(o, DATA_SIZE, |c|);
      assert At(c + [b], j) == c[j];
    } else {
      assert j == |c|;
      assert At(c + [b], j) == b;
    }
  }

  lemma GrownEntry(c: seq<Ptr>, b: Ptr, blocks: map<Ptr, Block>, blocks': map<Ptr, Block>, i: nat)
    requires SameData(blocks, blocks', c) && i < PER_BLOCK * |c|
    ensures EntryAt(blocks', c + [b], i) == EntryAt(blocks, c, i)
  {
    hide DataOf, EntryIn;
    IndexInChain(i, PER_BLOCK, |c|);
    assert At(c + [b], i / PER_BLOCK) == c[i / PER_BLOCK];
  }

  /** One more zero block behind a node changes neither its content nor its discipline. */
  lemma GrownNode(nd: Inode, nd': Inode, c: seq<Ptr>, b: Ptr, blocks: map<Ptr, Block>, blocks': map<Ptr, Block>)
    requires Sized(nd, c, blocks) && SameData(blocks, blocks', c) && DataOf(blocks', b) == Zeros(DATA_SIZE)
    requires nd' == nd.(firstBlock := nd'.firstBlock)
    ensures NodeOf(nd', c + [b], blocks') == NodeOf(nd, c, blocks) && Sized(nd', c + [b], blocks')
  {
    hide ByteAt, EntryAt, DataOf, SameData;
    assert |c + [b]| == |c| + 1;
    if nd.kind == 1 {
      forall o: nat | o < DATA_SIZE * (|c| + 1)
        ensures ByteAt(blocks', c + [b], o) == if o < DATA_SIZE * |c| then ByteAt(blocks, c, o) else 0
      {
        GrownByte(c, b, blocks, blocks', o);
      }
      assert Content(blocks', c + [b], nd.size) == Content(blocks, c, nd.size);
    }
    if nd.kind == 2 {
      forall i: nat | i < nd.size ensures EntryAt(blocks', c + [b], i) == EntryAt(blocks, c, i) {
        GrownEntry(c, b, blocks, blocks', i);
      }
      assert Entries(blocks', c + [b], nd.size) == Entries(blocks, c, nd.size);
    }
  }

  function WithRecord(l: Layout, p: Ptr): Layout {
    Layout(l.ptrs + [p], l.chains + [[]])
  }

  // ---- Files have exactly the blocks they need ----

  lemma TightWithRecord(inodes: map<Ptr, Inode>, blocks: map<Ptr, Block>, head: Ptr, l: Layout, p: Ptr, nd: Inode)
    requires Linked(inodes, blocks, head, l) && TightExcept(inodes, l, -1) && p !in inodes && nd.size == 0
    ensures TightExcept(inodes[p := nd], WithRecord(l, p), -1)
  {
    hide Chain, Apart;
    var l' := WithRecord(l, p);
    forall k | 0 <= k < |l'.ptrs| && RecordAt(inodes[p := nd], l'.ptrs[k]).kind == 1
      ensures |l'.chains[k]| == BlocksFor(RecordAt(inodes[p := nd], l'.ptrs[k]).size)
    {
      if k < |l.ptrs| { assert l.ptrs[k] in inodes; }
    }
  }

  lemma TightAppended(inodes: map<Ptr, Inode>, l: Layout, k: nat, b: Ptr)
    requires |l.chains| == |l.ptrs| && k < |l.ptrs| && l.ptrs[k] in inodes && TightExcept(inodes, l, k)
    ensures TightExcept(LinkInodes(inodes, l.ptrs[k], l.chains[k], b), Appended(l, k, b), k)
  {
  }

  /** A directory may have more blocks than it needs. */
  lemma TightDirectory(inodes: map<Ptr, Inode>, l: Layout, k: nat, n: nat)
    requires |l.chains| == |l.ptrs| && k < |l.ptrs| && l.ptrs[k] in inodes && inodes[l.ptrs[k]].kind == 2
    ensures TightExcept(inodes, l, k) ==>
              TightExcept(inodes, l, -1) && TightExcept(SetSize(inodes, l.ptrs[k], n), l, -1)
  {
  }

  lemma TightFile(inodes: map<Ptr, Inode>, blocks: map<Ptr, Block>, head: Ptr, l: Layout, k: nat, n: nat)
    requires Linked(inodes, blocks, head, l) && |l.chains| == |l.ptrs| && k < |l.ptrs| && l.ptrs[k] in inodes
    requires TightExcept(inodes, l, k) && |l.chains[k]| == BlocksFor(n)
    ensures TightExcept(SetSize(inodes, l.ptrs[k], n), l, -1)
  {
    hide Chain, Apart;
    forall i | 0 <= i < |l.ptrs| && l.ptrs[i] == l.ptrs[k]
      ensures i == k
    {
      PointersDistinct(inodes, head, l.ptrs, i, k);
    }
  }

  lemma FileBlocks(inodes: map<Ptr, Inode>, l: Layout, k: nat)
    requires |l.chains| == |l.ptrs| && k < |l.ptrs| && TightExcept(inodes, l, -1)
    ensures RecordAt(inodes, l.ptrs[k]).kind == 1 ==> |l.chains[k]| == BlocksFor(RecordAt(inodes, l.ptrs[k]).size)
    ensures TightExcept(inodes, l, k)
  {
  }

  lemma NewRecordListed(inodes: map<Ptr, Inode>, head: Ptr, ptrs: seq<Ptr>, p: Ptr, kind: byte)
    requires ListOf(inodes, head, ptrs) && p != 0 && p !in inodes
    ensures ListOf(inodes[p := Inode(|ptrs| + 1, kind, 0, 0, head)], p, ptrs + [p])
    ensures forall k :: 0 <= k < |ptrs| ==> ptrs[k] != p
  {
  }

  lemma NewRecordLinks(inodes: map<Ptr, Inode>, blocks: map<Ptr, Block>, head: Ptr, l: Layout, p: Ptr, kind: byte)
    requires Linked(inodes, blocks, head, l) && p != 0 && p !in inodes
    ensures Linked(inodes[p := Inode(|l.ptrs| + 1, kind, 0, 0, head)], blocks, p, WithRecord(l, p))
  {
    hide Chain;
    var inodes', l' := inodes[p := Inode(|l.ptrs| + 1, kind, 0, 0, head)], WithRecord(l, p);
    NewRecordListed(inodes, head, l.ptrs, p, kind);
    hide ListOf;
    forall i | 0 <= i < |l'.ptrs| ensures Chain(blocks, RecordAt(inodes', l'.ptrs[i]).firstBlock, l'.chains[i]) {
      if i < |l.ptrs| {
        assert Chain(blocks, RecordAt(inodes, l.ptrs[i]).firstBlock, l.chains[i]);
      } else {
        EmptyChain(blocks);
      }
    }
    ApartWithEmpty(l.chains);
  }

  lemma EmptyChain(blocks: map<Ptr, Block>)
    ensures Chain(blocks, 0, [])
  {
  }

  lemma ApartWithEmpty(chains: seq<seq<Ptr>>)
    requires Apart(chains)
    ensures Apart(chains + [[]])
  {
  }

  lemma EmptyNode(blocks: map<Ptr, Block>, ino: nat, kind: byte, next: Ptr)
    ensures NodeOf(Inode(ino, kind, 0, 0, next), [], blocks) == NewNode(kind)
    ensures Sized(Inode(ino, kind, 0, 0, next), [], blocks)
  {
    assert Content(blocks, [], 0) == [] && Entries(blocks, [], 0) == [];
  }

  /** A new record at the head of the list is a new empty node and changes no other. */
  lemma NewRecordEffect(inodes: map<Ptr, Inode>, blocks: map<Ptr, Block>, head: Ptr, l: Layout, p: Ptr, kind: byte)
    requires Linked(inodes, blocks, head, l) && AllSized(inodes, blocks, l) && p != 0 && p !in inodes
    ensures var inodes', l' := inodes[p := Inode(|l.ptrs| + 1, kind, 0, 0, head)], WithRecord(l, p);
            && Linked(inodes', blocks, p, l') && AllSized(inodes', blocks, l')
            && Abstract(inodes', blocks, l') == Abstract(inodes, blocks, l) + [NewNode(kind)]
  {
    NewRecordLinks(inodes, blocks, head, l, p, kind);
    hide NodeOf, Sized, ChainsOf, Apart, NewNode;
    var inodes', l' := inodes[p := Inode(|l.ptrs| + 1, kind, 0, 0, head)], WithRecord(l, p);
    forall i | 0 <= i < |l.ptrs|
      ensures RecordAt(inodes', l'.ptrs[i]) == RecordAt(inodes, l.ptrs[i]) && l'.chains[i] == l.chains[i] {}
    EmptyNode(blocks, |l.ptrs| + 1, kind, head);
    assert l'.ptrs[|l.ptrs|] == p && l'.chains[|l.ptrs|] == [];
  }

  // ---- Nodes of each kind ----

  lemma NodeAt(inodes: map<Ptr, Inode>, blocks: map<Ptr, Block>, head: Ptr, l: Layout, k: nat)
    requires Linked(inodes, blocks, head, l) && k < |l.ptrs|
    ensures l.ptrs[k] in inodes
    ensures Abstract(inodes, blocks, l)[k] == NodeOf(inodes[l.ptrs[k]], l.chains[k], blocks)
    ensures AllSized(inodes, blocks, l) ==> Sized(inodes[l.ptrs[k]], l.chains[k], blocks)
  {
  }

  /** Where entry `i` lies, and that its block exists. */
  lemma EntryPlace(nd: Inode, c: seq<Ptr>, blocks: map<Ptr, Block>, first: Ptr, i: nat)
    requires Sized(nd, c, blocks) && nd.kind == 2 && i < nd.size && Chain(blocks, first, c)
    ensures i / PER_BLOCK < |c| && At(c, i / PER_BLOCK) == c[i / PER_BLOCK] && c[i / PER_BLOCK] in blocks
    ensures EntryAt(blocks, c, i) == EntryIn(blocks[c[i / PER_BLOCK]].data, i % PER_BLOCK)
  {
    IndexInChain(i, PER_BLOCK, |c|);
  }

  // ---- Directory updates ----

  /** One payload of the chain now holds `e` in one slot and is otherwise as before. */
  ghost predicate EntryPut(blocks: map<Ptr, Block>, blocks': map<Ptr, Block>, c: seq<Ptr>, i: nat, d: Payload,
                           e: Entry)
  {
    && i / PER_BLOCK < |c|
    && (forall x: nat :: x < |c| ==> DataOf(blocks', c[x]) == if x == i / PER_BLOCK then d else DataOf(blocks, c[x]))
    && EntryIn(d, i % PER_BLOCK) == e
    && (forall q: nat :: q < PER_BLOCK && q != i % PER_BLOCK ==>
          EntryIn(d, q) == EntryIn(DataOf(blocks, c[i / PER_BLOCK]), q))
  }

  lemma EntryPutAt(blocks: map<Ptr, Block>, blocks': map<Ptr, Block>, c: seq<Ptr>, i: nat, d: Payload, e: Entry, q: nat)
    requires EntryPut(blocks, blocks', c, i, d, e) && q < PER_BLOCK * |c|
    ensures EntryAt(blocks', c, q) == if q == i then e else EntryAt(blocks, c, q)
  {
    hide EntryIn, DataOf;
    IndexInChain(q, PER_BLOCK, |c|);
    assert At(c, q / PER_BLOCK) == c[q / PER_BLOCK];
    if q / PER_BLOCK == i / PER_BLOCK && q != i { assert q % PER_BLOCK != i % PER_BLOCK; }
  }

  /** Storing entry `n` of a directory and counting it appends it. */
  lemma AddedEntry(nd: Inode, c: seq<Ptr>, blocks: map<Ptr, Block>, blocks': map<Ptr, Block>, d: Payload, e: Entry)
    requires nd.kind == 2 && nd.size < PER_BLOCK * |c| && EntryPut(blocks, blocks', c, nd.size, d, e)
    ensures NodeOf(nd.(size := nd.size + 1), c, blocks') == Dir(Entries(blocks, c, nd.size) + [e])
    ensures Sized(nd.(size := nd.size + 1), c, blocks')
  {
    hide EntryAt, EntryPut;
    var n := nd.size;
    forall q: nat | q < n + 1 ensures EntryAt(blocks', c, q) == if q == n then e else EntryAt(blocks, c, q) {
      EntryPutAt(blocks, blocks', c, n, d, e, q);
    }
    assert Entries(blocks', c, n + 1) == Entries(blocks, c, n) + [e];
  }

  /** Storing the last entry in slot `i` and shrinking removes entry `i`. */
  lemma SwappedEntry(nd: Inode, c: seq<Ptr>, blocks: map<Ptr, Block>, blocks': map<Ptr, Block>, i: nat, d: Payload)
    requires nd.kind == 2 && i < nd.size <= PER_BLOCK * |c|
    requires EntryPut(blocks, blocks', c, i, d, EntryAt(blocks, c, nd.size - 1))
    ensures NodeOf(nd.(size := nd.size - 1), c, blocks') == Dir(RemoveAt(Entries(blocks, c, nd.size), i))
    ensures Sized(nd.(size := nd.size - 1), c, blocks')
  {
    hide EntryAt, EntryPut;
    var n := nd.size;
    var e := EntryAt(blocks, c, n - 1);
    forall q: nat | q < n ensures EntryAt(blocks', c, q) == if q == i then e else EntryAt(blocks, c, q) {
      EntryPutAt(blocks, blocks', c, i, d, e, q);
    }
    assert Entries(blocks', c, n - 1) == RemoveAt(Entries(blocks, c, n), i);
  }

  /** Shrinking removes the last entry. */
  lemma DroppedEntry(nd: Inode, c: seq<Ptr>, blocks: map<Ptr, Block>)
    requires nd.kind == 2 && 0 < nd.size <= PER_BLOCK * |c|
    ensures NodeOf(nd.(size := nd.size - 1), c, blocks) == Dir(RemoveAt(Entries(blocks, c, nd.size), nd.size - 1))
    ensures Sized(nd.(size := nd.size - 1), c, blocks)
  {
    hide EntryAt;
    var n := nd.size;
    assert Entries(blocks, c, n - 1) == RemoveAt(Entries(blocks, c, n), n - 1);
  }

  /** A store to one payload together with a new size changes one node. */
  lemma NodeStore(inodes: map<Ptr, Inode>, blocks: map<Ptr, Block>, head: Ptr, l: Layout, k: nat, j: nat, d: Payload,
                  n: nat)
    requires Linked(inodes, blocks, head, l) && AllSized(inodes, blocks, l) && k < |l.ptrs| && j < |l.chains[k]|
    requires Sized(RecordAt(inodes, l.ptrs[k]).(size := n), l.chains[k], PutData(blocks, l.chains[k][j], d))
    ensures var inodes', blocks' := SetSize(inodes, l.ptrs[k], n), PutData(blocks, l.chains[k][j], d);
            && Linked(inodes', blocks', head, l) && AllSized(inodes', blocks', l)
            && Abstract(inodes', blocks', l) ==
               Abstract(inodes, blocks, l)[k := NodeOf(RecordAt(inodes, l.ptrs[k]).(size := n), l.chains[k], blocks')]
  {
    var inodes', blocks' := SetSize(inodes, l.ptrs[k], n), PutData(blocks, l.chains[k][j], d);
    SetSizeEffect(inodes, blocks, head, l, k, n);
    PutDataEffect(inodes', blocks, head, l, k, j, d);
    hide Sized, NodeOf, SameData;
    OneNodeChanges(inodes, inodes', blocks, blocks', l, l, k);
  }

  /** A new size alone. */
  lemma SizeStore(inodes: map<Ptr, Inode>, blocks: map<Ptr, Block>, head: Ptr, l: Layout, k: nat, n: nat)
    requires Linked(inodes, blocks, head, l) && AllSized(inodes, blocks, l) && k < |l.ptrs|
    requires Sized(RecordAt(inodes, l.ptrs[k]).(size := n), l.chains[k], blocks)
    ensures var inodes' := SetSize(inodes, l.ptrs[k], n);
            && Linked(inodes', blocks, head, l) && AllSized(inodes', blocks, l)
            && Abstract(inodes', blocks, l) ==
               Abstract(inodes, blocks, l)[k := NodeOf(RecordAt(inodes, l.ptrs[k]).(size := n), l.chains[k], blocks)]
  {
    SetSizeEffect(inodes, blocks, head, l, k, n);
    hide Sized, NodeOf;
    OneNodeChanges(inodes, SetSize(inodes, l.ptrs[k], n), blocks, blocks, l, l, k);
  }

  lemma ChainDistinct(inodes: map<Ptr, Inode>, blocks: map<Ptr, Block>, head: Ptr, l: Layout, k: nat)
    requires Linked(inodes, blocks, head, l) && k < |l.chains|
    ensures Distinct(l.chains[k])
  {
  }

  /** Rewriting one slot of one block of a directory. */
  lemma PutIsEntryPut(blocks: map<Ptr, Block>, blocks': map<Ptr, Block>, c: seq<Ptr>, i: nat, e: Entry)
    requires Distinct(c) && i / PER_BLOCK < |c|
    requires c[i / PER_BLOCK] in blocks && c[i / PER_BLOCK] in blocks'
    requires blocks' == PutData(blocks, c[i / PER_BLOCK], blocks'[c[i / PER_BLOCK]].data)
    requires EntryIn(blocks'[c[i / PER_BLOCK]].data, i % PER_BLOCK) == e
    requires forall q: nat :: q < PER_BLOCK && q != i % PER_BLOCK ==>
               EntryIn(blocks'[c[i / PER_BLOCK]].data, q) == EntryIn(blocks[c[i / PER_BLOCK]].data, q)
    ensures EntryPut(blocks, blocks', c, i, blocks'[c[i / PER_BLOCK]].data, e)
  {
    hide EntryIn;
  }

  /** An entry written to the tail slot of directory `k` and counted. */
  lemma AddEntryEffect(inodes: map<Ptr, Inode>, blocks: map<Ptr, Block>, head: Ptr, l: Layout, k: nat,
                       c: seq<Ptr>, j: nat, d: Payload, e: Entry)
    requires |l.chains| == |l.ptrs| && k < |l.ptrs| && c == l.chains[k]
    requires Linked(inodes, blocks, head, l) && AllSized(inodes, blocks, l)
    requires RecordAt(inodes, l.ptrs[k]).kind == 2 && RecordAt(inodes, l.ptrs[k]).size < PER_BLOCK * |c|
    requires j == RecordAt(inodes, l.ptrs[k]).size / PER_BLOCK && j < |c| && c[j] in blocks && l.ptrs[k] in inodes
    requires EntryPut(blocks, PutData(blocks, c[j], d), c, RecordAt(inodes, l.ptrs[k]).size, d, e)
    ensures var n := RecordAt(inodes, l.ptrs[k]).size;
            var inodes', blocks' := SetSize(inodes, l.ptrs[k], n + 1), PutData(blocks, c[j], d);
            && Linked(inodes', blocks', head, l) && AllSized(inodes', blocks', l)
            && Abstract(inodes', blocks', l) == Abstract(inodes, blocks, l)[k := Dir(Entries(blocks, c, n) + [e])]
  {
    hide EntryPut, Entries, NodeOf, Sized, Linked, AllSized, Abstract, RecordAt, PutData, SetSize;
    var nd := RecordAt(inodes, l.ptrs[k]);
    AddedEntry(nd, c, blocks, PutData(blocks, c[j], d), d, e);
    NodeStore(inodes, blocks, head, l, k, j, d, nd.size + 1);
  }

  /** The last entry copied over entry `i` of directory `k`, and the count lowered. */
  lemma SwapEntryEffect(inodes: map<Ptr, Inode>, blocks: map<Ptr, Block>, head: Ptr, l: Layout, k: nat,
                        c: seq<Ptr>, i: nat, j: nat, d: Payload)
    requires |l.chains| == |l.ptrs| && k < |l.ptrs| && c == l.chains[k]
    requires Linked(inodes, blocks, head, l) && AllSized(inodes, blocks, l)
    requires RecordAt(inodes, l.ptrs[k]).kind == 2 && i < RecordAt(inodes, l.ptrs[k]).size <= PER_BLOCK * |c|
    requires j == i / PER_BLOCK && j < |c| && c[j] in blocks && l.ptrs[k] in inodes
    requires EntryPut(blocks, PutData(blocks, c[j], d), c, i, d,
                      EntryAt(blocks, c, RecordAt(inodes, l.ptrs[k]).size - 1))
    ensures var n := RecordAt(inodes, l.ptrs[k]).size;
            var inodes', blocks' := SetSize(inodes, l.ptrs[k], n - 1), PutData(blocks, c[j], d);
            && Linked(inodes', blocks', head, l) && AllSized(inodes', blocks', l) && |Entries(blocks, c, n)| == n
            && Abstract(inodes', blocks', l) ==
              Abstract(inodes, blocks, l)[k := Dir(RemoveAt(Entries(blocks, c, n), i))]
  {
    hide EntryPut, Entries, NodeOf, Sized, Linked, AllSized, Abstract, RecordAt, PutData, SetSize, EntryAt, RemoveAt;
    var nd := RecordAt(inodes, l.ptrs[k]);
    EntriesLength(blocks, c, nd.size);
    SwappedEntry(nd, c, blocks, PutData(blocks, c[j], d), i, d);
    NodeStore(inodes, blocks, head, l, k, j, d, nd.size - 1);
  }

  lemma EntriesLength(blocks: map<Ptr, Block>, c: seq<Ptr>, n: nat)
    ensures |Entries(blocks, c, n)| == n
  {
  }

  /** Only the count of directory `k` lowered. */
  lemma DropEntryEffect(inodes: map<Ptr, Inode>, blocks: map<Ptr, Block>, head: Ptr, l: Layout, k: nat, c: seq<Ptr>)
    requires |l.chains| == |l.ptrs| && k < |l.ptrs| && c == l.chains[k] && l.ptrs[k] in inodes
    requires Linked(inodes, blocks, head, l) && AllSized(inodes, blocks, l)
    requires RecordAt(inodes, l.ptrs[k]).kind == 2 && 0 < RecordAt(inodes, l.ptrs[k]).size <= PER_BLOCK * |c|
    ensures var n := RecordAt(inodes, l.ptrs[k]).size;
            var inodes' := SetSize(inodes, l.ptrs[k], n - 1);
            && Linked(inodes', blocks, head, l) && AllSized(inodes', blocks, l) && |Entries(blocks, c, n)| == n
            && Abstract(inodes', blocks, l) ==
              Abstract(inodes, blocks, l)[k := Dir(RemoveAt(Entries(blocks, c, n), n - 1))]
  {
    EntriesLength(blocks, c, RecordAt(inodes, l.ptrs[k]).size);
    hide Entries, NodeOf, Sized, Linked, AllSized, Abstract, RecordAt, SetSize, RemoveAt;
    var nd := RecordAt(inodes, l.ptrs[k]);
    DroppedEntry(nd, c, blocks);
    SizeStore(inodes, blocks, head, l, k, nd.size - 1);
  }

  /** Two entries share a slot of a chain only if they are the same entry. */
  lemma SlotIsEntry(c: seq<Ptr>, i: nat, j: nat)
    requires Distinct(c) && i / PER_BLOCK < |c| && j / PER_BLOCK < |c|
    ensures c[i / PER_BLOCK] == c[j / PER_BLOCK] && i % PER_BLOCK == j % PER_BLOCK <==> i == j
  {
  }

  /** `*subject = *last`: the 264 bytes of one slot copied over another. */
  lemma CopiedSlot(d: Payload, slot: nat, src: Payload, from: nat)
    requires slot < PER_BLOCK && from < PER_BLOCK
    ensures var d' := Splice(d, DIRENT_SIZE * slot, src[DIRENT_SIZE * from..DIRENT_SIZE * from + DIRENT_SIZE]);
            && EntryIn(d', slot) == EntryIn(src, from)
            && (forall q: nat :: q < PER_BLOCK && q != slot ==> EntryIn(d', q) == EntryIn(d, q))
  {
    hide EntryIn;
    var bytes := src[DIRENT_SIZE * from..DIRENT_SIZE * from + DIRENT_SIZE];
    var d' := Splice(d, DIRENT_SIZE * slot, bytes);
    assert d'[DIRENT_SIZE * slot..DIRENT_SIZE * slot + DIRENT_SIZE] == bytes;
    EntryDependsOnSlot(d', slot, src, from);
    forall q: nat | q < PER_BLOCK && q != slot ensures EntryIn(d', q) == EntryIn(d, q) {
      OtherSlotSame(d, d', slot, q);
    }
  }

  // ---- File updates ----

  /** Byte `y` of block `j` is byte `DATA_SIZE * j + y` of the chain. */
  lemma ByteOfBlock(blocks: map<Ptr, Block>, c: seq<Ptr>, j: nat, y: nat)
    requires j < |c| && c[j] in blocks && y < DATA_SIZE
    ensures ByteAt(blocks, c, DATA_SIZE * j + y) == blocks[c[j]].data[y]
  {
    BlockOfByte(j, y);
  }

  lemma BlockOfByte(j: nat, y: nat)
    requires y < DATA_SIZE
    ensures (DATA_SIZE * j + y) / DATA_SIZE == j && (DATA_SIZE * j + y) % DATA_SIZE == y
  {
  }

  /** The chain after bytes `src[..n]` were stored at `offset`. */
  ghost predicate Stored(blocks: map<Ptr, Block>, blocks': map<Ptr, Block>, c: seq<Ptr>, offset: nat, src: seq<byte>,
                         n: nat)
    requires n <= |src|
  {
    forall o: nat :: o < DATA_SIZE * |c| ==>
      ByteAt(blocks', c, o) == if offset <= o < offset + n then src[o - offset] else ByteAt(blocks, c, o)
  }

  /** One block's payload with `chunk` bytes of `src` from `n` stored at `at`. */
  ghost predicate ChunkIn(d: Payload, d': Payload, at: nat, src: seq<byte>, n: nat, chunk: nat)
    requires n + chunk <= |src|
  {
    forall y: nat :: y < DATA_SIZE ==> d'[y] == if at <= y < at + chunk then src[n + y - at] else d[y]
  }

  /** Storing one more chunk extends the stored range. */
  lemma StoredMore(blocks0: map<Ptr, Block>, blocks: map<Ptr, Block>, c: seq<Ptr>, offset: nat, src: seq<byte>,
                   n: nat, chunk: nat, j: nat, at: nat, d: Payload)
    requires n + chunk <= |src| && Stored(blocks0, blocks, c, offset, src, n)
    requires Distinct(c) && j < |c| && (forall x :: 0 <= x < |c| ==> c[x] in blocks)
    requires offset + n == DATA_SIZE * j + at && at + chunk <= DATA_SIZE
    requires ChunkIn(blocks[c[j]].data, d, at, src, n, chunk)
    ensures Stored(blocks0, PutData(blocks, c[j], d), c, offset, src, n + chunk)
  {
    var blocks' := PutData(blocks, c[j], d);
    forall o: nat | o < DATA_SIZE * |c|
      ensures ByteAt(blocks', c, o) ==
              if offset <= o < offset + n + chunk then src[o - offset] else ByteAt(blocks0, c, o)
    {
      hide PutData;
      ByteAfterPut(blocks, c, j, d, o);
      var y := o % DATA_SIZE;
      assert o == DATA_SIZE * (o / DATA_SIZE) + y;
      if o / DATA_SIZE == j { ByteOfBlock(blocks, c, j, y); }
    }
  }

  lemma ByteAfterPut(blocks: map<Ptr, Block>, c: seq<Ptr>, j: nat, d: Payload, o: nat)
    requires Distinct(c) && j < |c| && c[j] in blocks && o < DATA_SIZE * |c|
    ensures ByteAt(PutData(blocks, c[j], d), c, o) ==
            if o / DATA_SIZE == j then d[o % DATA_SIZE] else ByteAt(blocks, c, o)
  {
    IndexInChain(o, DATA_SIZE, |c|);
    assert At(c, o / DATA_SIZE) == c[o / DATA_SIZE];
  }

  /** What a completed write means for the file: zero-extension and splice, with the tail still zero. */
  lemma WrittenFile(nd: Inode, c: seq<Ptr>, blocks: map<Ptr, Block>, blocks': map<Ptr, Block>, offset: nat,
                    src: seq<byte>)
    requires nd.kind == 1 && Sized(nd, c, blocks) && offset + |src| <= DATA_SIZE * |c|
    requires Stored(blocks, blocks', c, offset, src, |src|)
    ensures var nd' := nd.(size := if offset + |src| > nd.size then offset + |src| else nd.size);
            && NodeOf(nd', c, blocks') == File(Overwrite(Content(blocks, c, nd.size), offset, src))
            && Sized(nd', c, blocks')
  {
    hide ByteAt, Overwrite;
    var old_ := Content(blocks, c, nd.size);
    var n' := if offset + |src| > nd.size then offset + |src| else nd.size;
    OverwriteAt(old_, offset, src);
    forall i: nat | i < n' ensures ByteAt(blocks', c, i) == Overwrite(old_, offset, src)[i] {}
    assert Content(blocks', c, n') == Overwrite(old_, offset, src);
  }

  lemma OnlyNodeTwice(inodes: map<Ptr, Inode>, b0: map<Ptr, Block>, b1: map<Ptr, Block>, b2: map<Ptr, Block>,
                      l: Layout, k: nat)
    requires OnlyNode(inodes, inodes, b0, b1, l, l, k) && OnlyNode(inodes, inodes, b1, b2, l, l, k)
    ensures OnlyNode(inodes, inodes, b0, b2, l, l, k)
  {
  }

  lemma OnlyNodeItself(inodes: map<Ptr, Inode>, blocks: map<Ptr, Block>, l: Layout, k: nat)
    requires |l.chains| == |l.ptrs| && k < |l.ptrs|
    ensures OnlyNode(inodes, inodes, blocks, blocks, l, l, k)
  {
  }

  /** A completed write changes one node of the store. */
  lemma WriteEffect(inodes: map<Ptr, Inode>, inodes': map<Ptr, Inode>,
                    blocks: map<Ptr, Block>, blocks': map<Ptr, Block>,
                    head: Ptr, l: Layout, k: nat, c: seq<Ptr>, nd: Inode, offset: nat, src: seq<byte>)
    requires |l.chains| == |l.ptrs| && k < |l.ptrs| && c == l.chains[k] && l.ptrs[k] in inodes
    requires nd == inodes[l.ptrs[k]]
    requires Linked(inodes, blocks', head, l) && AllSized(inodes, blocks, l)
    requires nd.kind == 1 && Sized(nd, c, blocks) && offset + |src| <= DATA_SIZE * |c|
    requires OnlyNode(inodes, inodes, blocks, blocks', l, l, k) && Stored(blocks, blocks', c, offset, src, |src|)
    requires inodes' == SetSize(inodes, l.ptrs[k], if offset + |src| > nd.size then offset + |src| else nd.size)
    ensures Linked(inodes', blocks', head, l) && AllSized(inodes', blocks', l)
    ensures Abstract(inodes', blocks', l) ==
            Abstract(inodes, blocks, l)[k := File(Overwrite(Content(blocks, c, nd.size), offset, src))]
  {
    hide NodeOf, Stored, Content, Overwrite, Sized, SameData;
    WrittenFile(nd, c, blocks, blocks', offset, src);
    SetSizeEffect(inodes, blocks', head, l, k, if offset + |src| > nd.size then offset + |src| else nd.size);
    OneNodeChanges(inodes, inodes', blocks, blocks', l, l, k);
  }
}
