/** The shell over the ramfs: the line buffer split in place, paths built in fixed buffers, the built-in commands. */
module Shell {
  import opened CStrings
  import opened Store
  import opened Disk
  import opened Filesystem
  import opened ShellSpec
  import Bits
  import H = HeapAlloc

  const MAX_LINE: nat := 256

  /** `slen` on a buffer that holds a terminator. */
  method Slen(buf: array<byte>) returns (n: nat)
    requires |CString(buf[..])| < buf.Length
    ensures n == |CString(buf[..])|
  {
    ghost var s := CString(buf[..]);
    n := 0;
    Terminator(buf[..], n);
    while buf[n] != NUL
      invariant n <= |s| && (buf[n] == NUL <==> n == |s|)
      decreases |s| - n
    {
      n := n + 1;
      Terminator(buf[..], n);
    }
  }

  lemma Terminator(buf: seq<byte>, n: nat)
    requires n <= |CString(buf)| < |buf|
    ensures buf[n] == NUL <==> n == |CString(buf)|
  {
  }

  /** `scpy(dst + at, src)`: the characters and the terminator, nothing else. */
  method Scpy(dst: array<byte>, at: nat, src: Text)
    requires at + |src| < dst.Length
    modifies dst
    ensures dst[..at] == old(dst[..at])
    ensures dst[at..at + |src|] == src && dst[at + |src|] == NUL
    ensures forall x :: at + |src| < x < dst.Length ==> dst[x] == old(dst[x])
  {
    var i := 0;
    while CharAt(src, i) != NUL
      invariant 0 <= i <= |src|
      invariant forall x :: 0 <= x < dst.Length && !(at <= x < at + i) ==> dst[x] == old(dst[x])
      invariant forall x :: 0 <= x < i ==> dst[at + x] == src[x]
      decreases |src| - i
    {
      dst[at + i] := src[i];
      i := i + 1;
    }
    dst[at + i] := NUL;
  }

  /** After `scpy` at the end of the string already there, the buffer holds the concatenation. */
  lemma Concatenated(buf: seq<byte>, a: Text, b: Text)
    requires |a| + |b| < |buf| && buf[..|a|] == a && buf[|a|..|a| + |b|] == b && buf[|a| + |b|] == NUL
    ensures CString(buf) == a + b
  {
    assert buf[..|a| + |b|] == a + b;
    CStringIs(buf, a + b);
  }

  /** The shared code of `resolve_path` and `cmd_cd`: extend the path in `dst` by a separator, if it lacks one,
      and a relative argument. */
  method Extend(dst: array<byte>, arg: Text)
    requires var cwd := CString(dst[..]);
             cwd != [] && CharAt(arg, 0) != SLASH && |FullPath(cwd, arg)| < dst.Length
    modifies dst
    ensures |CString(dst[..])| < dst.Length && CString(dst[..]) == FullPath(old(CString(dst[..])), arg)
  {
    hide CString, WithSeparator;
    ghost var base := WithSeparator(CString(dst[..]));
    var clen := Separate(dst);
    Scpy(dst, clen, arg);
    Concatenated(dst[..], base, arg);
  }

  /** Put a separator after the string in `dst` unless it ends in one, and return the new length. */
  method Separate(dst: array<byte>) returns (clen: nat)
    requires CString(dst[..]) != [] && |WithSeparator(CString(dst[..]))| < dst.Length
    modifies dst
    ensures clen == |WithSeparator(old(CString(dst[..])))| < dst.Length
    ensures dst[..clen] == WithSeparator(old(CString(dst[..])))
  {
    hide CString;
    ghost var cwd := CString(dst[..]);
    clen := Slen(dst);
    assert dst[..clen] == cwd;
    if dst[clen - 1] != SLASH {
      dst[clen], dst[clen + 1] := SLASH, NUL;
      clen := clen + 1;
      assert dst[..clen] == cwd + [SLASH];
    }
  }

  // ---- Splitting the line in place ----

  /** `line` holds the string `w` from `pos`. */
  ghost predicate StringAt(line: seq<byte>, pos: nat, w: Text) {
    pos + |w| < |line| && line[pos..pos + |w|] == w && line[pos + |w|] == NUL
  }

  method SkipBlanks(line: array<byte>, from: nat, ghost t: Text) returns (p: nat)
    requires from <= |t| < line.Length && line[from..|t| + 1] == (t + [NUL])[from..]
    ensures p == SkipSpaces(t, from)
  {
    p := from;
    while line[p] == SPACE
      invariant from <= p <= |t| && SkipSpaces(t, from) == SkipSpaces(t, p)
      decreases |t| - p
    {
      assert line[p] == line[from..|t| + 1][p - from] == (t + [NUL])[p];
      p := p + 1;
    }
    assert line[p] == line[from..|t| + 1][p - from] == (t + [NUL])[p];
  }

  method SkipWord(line: array<byte>, from: nat, ghost t: Text) returns (p: nat)
    requires from <= |t| < line.Length && line[from..|t| + 1] == (t + [NUL])[from..]
    ensures p == TokenEnd(t, from)
  {
    p := from;
    assert line[p] == line[from..|t| + 1][p - from] == (t + [NUL])[p];
    while line[p] != NUL && line[p] != SPACE
      invariant from <= p <= |t| && TokenEnd(t, from) == TokenEnd(t, p) && line[p] == (t + [NUL])[p]
      decreases |t| - p
    {
      p := p + 1;
      assert line[p] == line[from..|t| + 1][p - from];
    }
  }

  /** One step of `parse_args` at the start of a word: scan it and turn the separator after it into a terminator. */
  method CutWord(line: array<byte>, from: nat, ghost t: Text) returns (p: nat)
    requires from < |t| < line.Length && line[from..|t| + 1] == (t + [NUL])[from..] && t[from] != SPACE
    modifies line
    ensures from < p <= |t| && line[p..|t| + 1] == (t + [NUL])[p..]
    ensures var e := TokenEnd(t, from);
            && StringAt(line[..], from, WordAt(t, from)) && Tokens(t, e) == Tokens(t, p) && (e < p || p == |t|)
    ensures forall x :: 0 <= x < from ==> line[x] == old(line[x])
    ensures |t| < line.Length && line[|t|] == NUL
  {
    hide Tokens;
    p := SkipWord(line, from, t);
    assert p < |t| ==> t[p] == SPACE && line[from..|t| + 1][p - from] == t[p];
    assert line[from..|t| + 1][p - from] == line[p] && line[from..|t| + 1][|t| - from] == line[|t|];
    assert line[from..p] == line[from..|t| + 1][..p - from] == t[from..p];
    if line[p] != NUL {
      TokensAfterSpace(t, p);
      line[p] := NUL;
      p := p + 1;
    }
  }

  ghost predicate Split(line: seq<byte>, t: Text, p: nat, argv: seq<nat>, found: seq<Text>) {
    && p <= |t| < |line| && line[p..|t| + 1] == (t + [NUL])[p..] && |argv| == |found|
    && forall k :: 0 <= k < |found| ==> StringAt(line, argv[k], found[k]) && (argv[k] + |found[k]| < p || p == |t|)
  }

  lemma SplitMore(line: seq<byte>, line': seq<byte>, t: Text, p: nat, start: nat, p': nat, argv: seq<nat>,
                  found: seq<Text>)
    requires Split(line, t, p, argv, found) && p <= start < |t| && start < p' <= |t| && |line'| == |line|
    requires line'[p'..|t| + 1] == (t + [NUL])[p'..]
    requires forall x :: 0 <= x < start ==> line'[x] == line[x]
    requires var e := TokenEnd(t, start); StringAt(line', start, WordAt(t, start)) && (e < p' || p' == |t|)
    ensures Split(line', t, p', argv + [start], found + [WordAt(t, start)])
  {
    forall k | 0 <= k < |found| ensures StringAt(line', argv[k], found[k]) && argv[k] + |found[k]| < p' {
      var e := argv[k] + |found[k]|;
      assert StringAt(line, argv[k], found[k]) && e < p;
      assert line'[argv[k]..e] == line[argv[k]..e];
      assert line'[e] == line[e];
    }
  }

  lemma SplitSkips(line: seq<byte>, t: Text, p: nat, p': nat, argv: seq<nat>, found: seq<Text>)
    requires Split(line, t, p, argv, found) && p <= p' <= |t|
    ensures Split(line, t, p', argv, found) && |t| < |line| && line[p'] == (t + [NUL])[p']
    ensures line[p'..|t| + 1] == (t + [NUL])[p'..]
  {
    assert line[p'..|t| + 1] == line[p..|t| + 1][p' - p..];
    assert line[p'] == line[p'..|t| + 1][0];
  }

  lemma WholeLine(line: seq<byte>, t: Text)
    requires |t| < |line| && line[..|t|] == t && line[|t|] == NUL
    ensures line[0..|t| + 1] == (t + [NUL])[0..] && line[0] == (t + [NUL])[0]
  {
    forall x | 0 <= x < |t| + 1 ensures line[x] == (t + [NUL])[x] {
      if x < |t| { assert line[..|t|][x] == t[x]; }
    }
  }

  lemma SplitStart(line: seq<byte>, t: Text)
    requires |t| < |line| && t == CString(line)
    ensures Split(line, t, 0, [], []) && line[0] == (t + [NUL])[0]
  {
    hide CString, StringAt;
    WholeLine(line, t);
  }

  lemma SplitDone(line: seq<byte>, t: Text, p: nat, argv: seq<nat>, found: seq<Text>)
    requires Split(line, t, p, argv, found)
    ensures |argv| == |found| && forall k :: 0 <= k < |found| ==> StringAt(line, argv[k], found[k])
  {
  }

  /** `parse_args`: separators become terminators, and `argv` points at the first `maxArgs` tokens. */
  method ParseArgs(line: array<byte>, argv: array<nat>, maxArgs: nat) returns (argc: nat)
    requires |CString(line[..])| < line.Length && maxArgs <= argv.Length
    modifies line, argv
    ensures var words := Take(Tokens(old(CString(line[..])), 0), maxArgs);
            && argc == |words|
            && forall k :: 0 <= k < argc ==> StringAt(line[..], argv[k], words[k])
  {
    hide Tokens, SkipSpaces, TokenEnd, WordAt, StringAt, Split, CString;
    ghost var t := CString(line[..]);
    ghost var found: seq<Text> := [];
    var p := 0;
    argc := 0;
    NoTokens(t);
    SplitStart(line[..], t);
    assert argv[..argc] == [];
    while line[p] != NUL && argc < maxArgs
      invariant 0 <= p <= |t| && |found| == argc <= maxArgs && Split(line[..], t, p, argv[..argc], found)
      invariant |t| < line.Length && line[p] == (t + [NUL])[p] && line[p..|t| + 1] == (t + [NUL])[p..]
      invariant Tokens(t, 0) == found + Tokens(t, p)
      decreases |t| - p
    {
      TokensStep(t, p);
      ghost var from := p;
      SplitSkips(line[..], t, p, SkipSpaces(t, p), argv[..argc], found);
      p := SkipBlanks(line, p, t);
      if line[p] == NUL { break; }
      ghost var before, start := line[..], p;
      argv[argc] := p;
      p := CutWord(line, p, t);
      SplitMore(before, line[..], t, from, start, p, argv[..argc], found);
      assert argv[..argc + 1] == argv[..argc] + [start];
      argc := argc + 1;
      found := found + [WordAt(t, start)];
      SplitSkips(line[..], t, p, p, argv[..argc], found);
    }
    TakeIs(Tokens(t, 0), found, Tokens(t, p), maxArgs);
    SplitDone(line[..], t, p, argv[..argc], found);
  }

  /** The inner loop of `join_args`: the characters of one word, without a terminator. */
  method CopyWord(dst: array<byte>, at: nat, word: Text) returns (pos: nat)
    requires at + |word| < dst.Length
    modifies dst
    ensures pos == at + |word| && dst[..pos] == old(dst[..at]) + word
  {
    pos := at;
    var j := 0;
    while CharAt(word, j) != NUL
      invariant 0 <= j <= |word| && pos == at + j
      invariant dst[..pos] == old(dst[..at]) + word[..j]
      decreases |word| - j
    {
      dst[pos] := word[j];
      pos, j := pos + 1, j + 1;
    }
  }

  /** `join_args`: the arguments from `start` on, one space between neighbours. */
  method JoinArgs(dst: array<byte>, argv: seq<Text>, start: nat)
    requires start <= |argv| && |JoinWords(argv[start..])| < dst.Length
    modifies dst
    ensures |CString(dst[..])| < dst.Length && CString(dst[..]) == JoinWords(argv[start..])
  {
    hide JoinWords, CString;
    var pos := 0;
    JoinNothing();
    assert argv[start..start] == [];
    for i := start to |argv|
      invariant pos == |JoinWords(argv[start..i])| < dst.Length && dst[..pos] == JoinWords(argv[start..i])
    {
      JoinNext(argv, start, i);
      ghost var so := dst[..pos];
      if i > start {
        dst[pos] := SPACE;
        pos := pos + 1;
        assert dst[..pos] == so + [SPACE];
      }
      pos := CopyWord(dst, pos, argv[i]);
    }
    assert argv[start..|argv|] == argv[start..];
    dst[pos] := NUL;
    CStringIs(dst[..], JoinWords(argv[start..]));
  }

  lemma JoinNext(argv: seq<Text>, start: nat, i: nat)
    requires start <= i < |argv|
    ensures JoinWords(argv[start..i + 1]) ==
            if i == start then argv[i] else JoinWords(argv[start..i]) + [SPACE] + argv[i]
    ensures |JoinWords(argv[start..i + 1])| <= |JoinWords(argv[start..])|
  {
    hide JoinWords;
    assert argv[start..i + 1] == argv[start..i] + [argv[i]];
    assert argv[start..] == argv[start..i + 1] + argv[i + 1..];
    JoinSnoc(argv[start..i], argv[i]);
    JoinGrows(argv[start..i + 1], argv[i + 1..]);
  }

  lemma JoinNothing()
    ensures JoinWords([]) == []
  {
  }

  /** A read that starts inside or at the end of a file starts within the blocks it has. */
  lemma ReadStartsInside(size: nat, offset: nat)
    requires offset <= size
    ensures offset / DATA_SIZE <= BlocksFor(size)
  {
  }

  lemma {:induction false} FewBelow(c: set<Ptr>, limit: nat)
    requires forall p :: p in c ==> p < limit
    ensures |c| <= limit
    decreases limit
  {
    if limit == 0 {
      assert c == {};
    } else {
      FewBelow(c - {limit - 1}, limit - 1);
    }
  }

  ghost function Elements(c: seq<Ptr>): (s: set<Ptr>)
    requires Distinct(c)
    ensures forall p :: p in s <==> p in c
    ensures |s| == |c|
  {
    if c == [] then {} else
      var front := c[..|c| - 1];
      assert c == front + [c[|c| - 1]];
      assert c[|c| - 1] !in front;
      Elements(front) + {c[|c| - 1]}
  }

  /** Blocks are distinct heap addresses, so no file comes near 2^64 bytes. */
  lemma FilesAreSmall(fs: FileSystem, ino: nat)
    requires fs.Valid() && IsFile(fs.Abs(), ino)
    ensures |fs.Abs()[ino - 1].content| < Bits.TWO64 - CHUNK
  {
    hide Linked, AllSized, NodeOf, Abstract, Chain, Content, Distinct;
    var c := fs.lay.chains[ino - 1];
    NodeView(fs.inodes, fs.blocks, fs.inodeListHead, fs.lay, ino - 1);
    ContentBytes(fs.blocks, c, fs.inodes[fs.lay.ptrs[ino - 1]].size);
    AllInMemory(fs.blocks, fs.inodes[fs.lay.ptrs[ino - 1]].firstBlock, c);
    ChainDistinct(fs.inodes, fs.blocks, fs.inodeListHead, fs.lay, ino - 1);
    FewBelow(Elements(c), fs.heap.bump);
    assert |c| <= fs.heap.bump <= H.HEAP_LIMIT;
  }

  lemma CatStep(content: seq<byte>, chunk: seq<byte>)
    requires content != [] && |chunk| == Min(CHUNK, |content|) && chunk == content[..|chunk|]
    ensures CatOutput(content) == CString(chunk) + CatOutput(content[|chunk|..])
  {
    hide CString, CatOutput;
    CatUnfold(content);
    CatNothing();
    if |content| <= CHUNK { assert chunk == content && content[|chunk|..] == []; }
  }

  lemma CatMore(content: seq<byte>, offset: nat, chunk: seq<byte>, out: seq<byte>)
    requires offset < |content| && |chunk| == Min(CHUNK, |content| - offset)
    requires chunk == content[offset..offset + |chunk|]
    requires CatOutput(content) == out + CatOutput(content[offset..])
    ensures CatOutput(content) == (out + CString(chunk)) + CatOutput(content[offset + |chunk|..])
  {
    hide CString, CatOutput;
    assert chunk == content[offset..][..|chunk|];
    assert content[offset..][|chunk|..] == content[offset + |chunk|..];
    CatStep(content[offset..], chunk);
  }

  /** Terminate the `n` bytes read and print them: the string they hold. */
  method PutString(buf: array<byte>, n: nat) returns (printed: seq<byte>)
    requires n < buf.Length
    modifies buf
    ensures printed == CString(old(buf[..n]))
  {
    hide CString;
    buf[n] := NUL;
    assert buf[..][..n] == old(buf[..n]);
    Printed(buf[..], n);
    printed := CString(buf[..]);
  }

  /** A terminator put after the bytes read bounds what is printed. */
  lemma Printed(buf: seq<byte>, n: nat)
    requires n < |buf| && buf[n] == NUL
    ensures CString(buf) == CString(buf[..n])
  {
    var s := CString(buf[..n]);
    assert buf[..|s|] == s;
    CStringIs(buf, s);
  }

  // ---- What commands ask of the heap ----

  /** Heap requests of a command, and of a run of commands from a state. */
  function CommandRequests(st: State, cmd: Command): seq<nat> {
    match cmd
    case Mkdir(name) => if CharAt(name, 0) == SLASH then [] else CreateRequests(st.store, st.cwdIno, name)
    case Touch(name) => if CharAt(name, 0) == SLASH then [] else CreateRequests(st.store, st.cwdIno, name)
    case WriteFile(file, text) =>
      WriteRequests(st.store, Lookup(st.store, FullPath(st.cwdPath, file)), 0, |text|)
    case _ => []
  }

  function ScriptRequests(st: State, cmds: seq<Command>): seq<nat>
    decreases |cmds|
  {
    if cmds == [] then [] else
      var last := |cmds| - 1;
      ScriptRequests(st, cmds[..last]) + CommandRequests(Run(st, cmds[..last]), cmds[last])
  }

  lemma RequestsSnoc(st: State, cmds: seq<Command>, cmd: Command)
    ensures ScriptRequests(st, cmds + [cmd]) == ScriptRequests(st, cmds) + CommandRequests(Run(st, cmds), cmd)
  {
    hide CommandRequests, Run;
    assert (cmds + [cmd])[..|cmds|] == cmds;
  }

  lemma {:induction false} RequestsGrow(st: State, cmds: seq<Command>, more: seq<Command>)
    ensures ScriptRequests(st, cmds) <= ScriptRequests(st, cmds + more)
    decreases |more|
  {
    hide ScriptRequests, CommandRequests, Run;
    if more == [] {
      assert cmds + more == cmds;
    } else {
      RequestsSnoc(st, cmds, more[0]);
      RequestsGrow(st, cmds + [more[0]], more[1..]);
      assert cmds + [more[0]] + more[1..] == cmds + more;
    }
  }

  lemma {:induction false} RequestsFitBlocks(st: State, cmds: seq<Command>)
    ensures forall i :: 0 <= i < |ScriptRequests(st, cmds)| ==> ScriptRequests(st, cmds)[i] <= BLOCK_SIZE
    decreases |cmds|
  {
    hide Run, CanCreate, Lookup, FullPath, BlocksMissing, BlocksFor;
    if cmds != [] {
      var last := |cmds| - 1;
      RequestsFitBlocks(st, cmds[..last]);
    }
  }

  /** The most that one command takes from the heap: an inode and a block. */
  const COMMAND_BYTES: nat := 4144

  lemma CreateIsSmall(s: Store, parent: nat, name: Text)
    ensures H.Total(CreateRequests(s, parent, name)) <= COMMAND_BYTES
  {
    hide CanCreate;
    assert [INODE_SIZE, BLOCK_SIZE][1..] == [BLOCK_SIZE] && [INODE_SIZE][1..] == [] && [BLOCK_SIZE][1..] == [];
    assert H.Total([BLOCK_SIZE]) == H.Aligned(BLOCK_SIZE) + H.Total([]) == 4096;
  }

  lemma WriteIsSmall(s: Store, ino: nat, len: nat)
    requires len < MAX_LINE
    ensures H.Total(WriteRequests(s, ino, 0, len)) <= COMMAND_BYTES
  {
    if IsFile(s, ino) {
      var n := BlocksMissing(BlocksFor(|s[ino - 1].content|), len);
      assert n <= 1;
      if n == 1 {
        assert Requests(1)[1..] == [];
        assert H.Total([]) == 0;
      }
    }
  }

  ghost predicate ShortText(cmd: Command) {
    cmd.WriteFile? ==> |cmd.text| < MAX_LINE
  }

  lemma CommandIsSmall(st: State, cmd: Command)
    requires ShortText(cmd)
    ensures H.Total(CommandRequests(st, cmd)) <= if Allocates(cmd) then COMMAND_BYTES else 0
  {
    hide CreateRequests, WriteRequests, Lookup, FullPath;
    match cmd
    case Mkdir(name) => CreateIsSmall(st.store, st.cwdIno, name);
    case Touch(name) => CreateIsSmall(st.store, st.cwdIno, name);
    case WriteFile(file, text) => WriteIsSmall(st.store, Lookup(st.store, FullPath(st.cwdPath, file)), |text|);
    case _ =>
  }

  /** A run asks for at most 4144 bytes for each command that may allocate. */
  lemma {:induction false} ScriptIsSmall(st: State, cmds: seq<Command>)
    requires forall k :: 0 <= k < |cmds| ==> ShortText(cmds[k])
    ensures H.Total(ScriptRequests(st, cmds)) <= COMMAND_BYTES * Allocating(cmds)
    decreases |cmds|
  {
    hide CommandRequests, Run, ShortText;
    if cmds != [] {
      var last := |cmds| - 1;
      ScriptIsSmall(st, cmds[..last]);
      CommandIsSmall(Run(st, cmds[..last]), cmds[last]);
      H.TotalInParts(ScriptRequests(st, cmds[..last]), CommandRequests(Run(st, cmds[..last]), cmds[last]));
    }
  }

  /** What the lines of a script print, line by line. */
  function ScriptOutput(st: State, lines: seq<Text>): seq<seq<byte>> {
    seq(|lines|, i requires 0 <= i < |lines| => Shown(Run(st, Script(lines[..i])), Arguments(lines[i])))
  }

  class Shell {
    const fs: FileSystem
    const cwdPath: array<byte>
    var cwdIno: nat

    constructor (fs: FileSystem)
      requires fs.Valid() && fs.Abs() == [Dir([])]
      ensures this.fs == fs && fresh(cwdPath) && Valid() && Now() == BOOT_STATE
    {
      this.fs := fs;
      var buf := new byte[MAX_PATH](i => NUL);
      cwdPath := buf;
      cwdIno := ROOT_INO;
      new;
      cwdPath[0] := SLASH;
      CStringIs(cwdPath[..], [SLASH]);
      BootState();
    }

    ghost predicate Valid()
      reads this, fs, cwdPath
    {
      && fs.Valid() && cwdPath.Length == MAX_PATH && |CString(cwdPath[..])| < MAX_PATH
      && CwdAgrees(Now())
    }

    /** What the shell and the filesystem stand for. */
    ghost function Now(): State
      requires fs.Valid()
      reads this, fs, cwdPath
    {
      State(fs.Abs(), cwdIno, CString(cwdPath[..]))
    }

    /** `resolve_path` */
    method ResolvePath(arg: Text) returns (ino: nat)
      requires Valid() && |FullPath(Now().cwdPath, arg)| < MAX_PATH
      ensures ino == Lookup(fs.Abs(), FullPath(Now().cwdPath, arg))
    {
      hide Lookup, Graph, FileSystem.Valid, FileSystem.Abs;
      if CharAt(arg, 0) == SLASH {
        ino := fs.FsLookup(arg);
        return;
      }
      var full := new byte[MAX_PATH];
      Scpy(full, 0, CString(cwdPath[..]));
      CStringIs(full[..], CString(cwdPath[..]));
      Extend(full, arg);
      ino := fs.FsLookup(CString(full[..]));
    }

    /** `cd`: refuses what is missing or not a directory, and otherwise moves both pieces of state together. */
    method CmdCd(argv: seq<Text>) returns (ok: bool)
      requires Valid() && (|argv| >= 2 ==> PathFits(Now(), Cd(argv[1])))
      modifies this, cwdPath
      ensures Valid() && Now() == if |argv| < 2 then old(Now()) else Step(old(Now()), Cd(argv[1]))
      ensures ok <==> |argv| >= 2 && IsDir(fs.Abs(), Lookup(fs.Abs(), FullPath(old(Now()).cwdPath, argv[1])))
    {
      hide Lookup, Graph, FileSystem.Valid, FileSystem.Abs, CString, FullPath;
      if |argv| < 2 { return false; }
      StepKeepsCwd(Now(), Cd(argv[1]));
      var target := argv[1];
      var ino := ResolvePath(target);
      if ino == INVALID_INO { return false; }
      var kind := new byte[1](_ => 0);
      var r := fs.FsStat(ino, null, kind);
      if kind[0] != 2 { return false; }
      cwdIno := ino;
      Remember(target);
      ok := true;
    }

    /** The last step of `cd`: the string form of the new directory. */
    method Remember(target: Text)
      requires cwdPath.Length == MAX_PATH && |CString(cwdPath[..])| < MAX_PATH
      requires CString(cwdPath[..]) != [] && |FullPath(CString(cwdPath[..]), target)| < MAX_PATH
      modifies cwdPath
      ensures |CString(cwdPath[..])| < MAX_PATH && CString(cwdPath[..]) == FullPath(old(CString(cwdPath[..])), target)
    {
      if CharAt(target, 0) == SLASH {
        Scpy(cwdPath, 0, target);
        CStringIs(cwdPath[..], target);
      } else {
        Extend(cwdPath, target);
      }
    }

    /** `mkdir` (kind 2) and `touch` (kind 1) */
    method CmdCreate(argv: seq<Text>, kind: byte) returns (ok: bool, halted: bool)
      requires Valid() && (kind == 1 || kind == 2)
      modifies fs
      ensures halted ==> |argv| >= 2
      ensures var cmd := if |argv| < 2 then Nothing else if kind == 2 then Mkdir(argv[1]) else Touch(argv[1]);
              H.RunHeap(old(fs.heap), CommandRequests(old(Now()), cmd)) ==
              if halted then H.Panicked else H.Survived(fs.heap)
      ensures !halted ==>
                && Valid()
                && Now() == (if |argv| < 2 then old(Now())
                             else Step(old(Now()), if kind == 2 then Mkdir(argv[1]) else Touch(argv[1])))
                && (ok <==> |argv| >= 2 && CharAt(argv[1], 0) != SLASH && CanCreate(old(fs.Abs()), cwdIno, argv[1]))
    {
      hide Lookup, Graph, FileSystem.Valid, FileSystem.Abs, H.RunHeap, CreateRequests, CanCreate, CString;
      NothingRequested(fs.heap);
      if |argv| < 2 { return false, false; }
      StepKeepsCwd(Now(), if kind == 2 then Mkdir(argv[1]) else Touch(argv[1]));
      if CharAt(argv[1], 0) == SLASH { return false, false; }
      var ino;
      ino, halted := fs.FsCreate(cwdIno, argv[1], kind);
      ok := ino != INVALID_INO;
    }

    /** `rm` */
    method CmdRm(argv: seq<Text>) returns (ok: bool)
      requires Valid()
      modifies fs`inodes, fs`blocks
      ensures Valid() && Now() == if |argv| < 2 then old(Now()) else Step(old(Now()), Rm(argv[1]))
      ensures ok <==> |argv| >= 2 && CharAt(argv[1], 0) != SLASH && CanUnlink(old(fs.Abs()), cwdIno, argv[1])
    {
      hide Lookup, Graph, FileSystem.Valid, FileSystem.Abs, CanUnlink, CString;
      if |argv| < 2 { return false; }
      StepKeepsCwd(Now(), Rm(argv[1]));
      if CharAt(argv[1], 0) == SLASH { return false; }
      var r := fs.FsUnlink(cwdIno, argv[1]);
      ok := r == 0;
    }

    /** `write`: the joined words over the start of the file. */
    method CmdWrite(argv: seq<Text>) returns (ok: bool, halted: bool)
      requires Valid() && (|argv| >= 3 ==> PathFits(Now(), WriteFile(argv[1], [])) && |JoinWords(argv[2..])| < MAX_LINE)
      modifies fs
      ensures var cmd := if |argv| < 3 then Nothing else WriteFile(argv[1], JoinWords(argv[2..]));
              H.RunHeap(old(fs.heap), CommandRequests(old(Now()), cmd)) ==
              if halted then H.Panicked else H.Survived(fs.heap)
      ensures halted ==>
                |argv| >= 3 && IsFile(old(fs.Abs()), Lookup(old(fs.Abs()), FullPath(old(Now()).cwdPath, argv[1])))
      ensures !halted ==>
                && Valid()
                && Now() == (if |argv| < 3 then old(Now())
                             else Step(old(Now()), WriteFile(argv[1], JoinWords(argv[2..]))))
                && (ok <==>
                      && |argv| >= 3
                      && IsFile(old(fs.Abs()), Lookup(old(fs.Abs()), FullPath(old(Now()).cwdPath, argv[1]))))
    {
      hide Lookup, Graph, FileSystem.Valid, FileSystem.Abs, H.RunHeap, Requests, BlocksMissing,
           Overwrite, JoinWords, CString, FullPath;
      NothingRequested(fs.heap);
      if |argv| < 3 { return false, false; }
      StepKeepsCwd(Now(), WriteFile(argv[1], JoinWords(argv[2..])));
      var ino := ResolvePath(argv[1]);
      if ino == INVALID_INO { return false, false; }
      var text := new byte[MAX_LINE];
      JoinArgs(text, argv, 2);
      var len := Slen(text);
      assert text[..len] == JoinWords(argv[2..]);
      var r;
      r, halted := fs.FsWrite(ino, 0, len, text);
      ok := r >= 0;
    }

    /** The content `cat` would read: nothing unless the inode is a regular file. */
    ghost function FileContent(ino: nat): seq<byte>
      requires fs.Valid()
      reads this, fs
    {
      if IsFile(fs.Abs(), ino) then fs.Abs()[ino - 1].content else []
    }

    /** One read of `cat`. */
    method ReadNext(ino: nat, offset: nat, buf: array<byte>) returns (n: int)
      requires fs.Valid() && offset <= |FileContent(ino)| && offset < Bits.TWO64 - CHUNK && buf.Length == CHUNK + 1
      modifies buf
      ensures n == -1 <==> !IsFile(fs.Abs(), ino)
      ensures n >= 0 ==>
                n == Min(CHUNK, |FileContent(ino)| - offset) && buf[..n] == FileContent(ino)[offset..offset + n]
      ensures n >= -1
    {
      hide Graph, Linked, AllSized, HeapFits, Abstract;
      ReadStartsInside(|FileContent(ino)|, offset);
      n := fs.FsRead(ino, offset, CHUNK, buf);
    }

    /** The streaming loop of `cat`: chunk after chunk up to the end of the file, or a read error at once. */
    method Stream(ino: nat) returns (ok: bool, out: seq<byte>)
      requires fs.Valid() && |FileContent(ino)| < Bits.TWO64 - CHUNK
      ensures ok <==> IsFile(fs.Abs(), ino)
      ensures out == CatOutput(FileContent(ino))
    {
      hide FileSystem.Valid, FileSystem.Abs, CatOutput, CString;
      ghost var content := FileContent(ino);
      var buf := new byte[CHUNK + 1];
      var offset := 0;
      out := [];
      CatNothing();
      assert content[0..] == content;
      var n := ReadNext(ino, offset, buf);
      while n > 0
        invariant fs.Valid() && FileContent(ino) == content && offset <= |content| && n >= -1
        invariant n == -1 <==> !IsFile(fs.Abs(), ino)
        invariant n >= 0 ==> n == Min(CHUNK, |content| - offset) && buf[..n] == content[offset..offset + n]
        invariant CatOutput(content) == out + CatOutput(content[offset..])
        decreases |content| - offset
      {
        CatMore(content, offset, buf[..n], out);
        var printed := PutString(buf, n);
        out := out + printed;
        offset := offset + n;
        n := ReadNext(ino, offset, buf);
      }
      assert content[offset..] == [];
      ok := n >= 0;
    }

    /** `cat`: found, no read error, and what was printed. */
    method CmdCat(argv: seq<Text>) returns (found: bool, ok: bool, out: seq<byte>)
      requires Valid() && (|argv| >= 2 ==> |FullPath(Now().cwdPath, argv[1])| < MAX_PATH)
      ensures found <==> CatTarget(Now(), argv) != INVALID_INO
      ensures ok <==> IsFile(fs.Abs(), CatTarget(Now(), argv))
      ensures out == CatOutput(FileContent(CatTarget(Now(), argv)))
    {
      hide Lookup, Graph, FileSystem.Valid, FileSystem.Abs, CatOutput, CString, FullPath;
      CatNothing();
      if |argv| < 2 { return false, false, []; }
      var ino := ResolvePath(argv[1]);
      if ino == INVALID_INO { return false, false, []; }
      if IsFile(fs.Abs(), ino) { FilesAreSmall(fs, ino); }
      ok, out := Stream(ino);
      found := true;
    }

    /** One line of `shell_run`: split it, compare the first word with the command names, run the command. */
    method Execute(line: array<byte>) returns (halted: bool, out: seq<byte>)
      requires Valid() && line != cwdPath && line.Length == MAX_LINE && |CString(line[..])| < MAX_LINE
      requires LineFits(Now(), Arguments(CString(line[..])))
      modifies this, fs, cwdPath, line
      ensures var cmd := CommandOf(Arguments(old(CString(line[..]))));
              && (!halted ==> Valid() && Now() == Step(old(Now()), cmd))
              && (halted ==> Allocates(cmd))
              && H.RunHeap(old(fs.heap), CommandRequests(old(Now()), cmd)) ==
                 if halted then H.Panicked else H.Survived(fs.heap)
      ensures out == Shown(old(Now()), Arguments(old(CString(line[..]))))
    {
      hide Lookup, Graph, FileSystem.Valid, FileSystem.Abs, Tokens, Shown, CString, CommandOf, FullPath, Step,
           JoinWords, LineFits, StringAt, CommandRequests, H.RunHeap;
      ghost var t := CString(line[..]);
      var argv := new nat[MAX_ARGS];
      var argc := ParseArgs(line, argv, MAX_ARGS);
      var args := ReadArgs(line, argv, argc, Arguments(t));
      CommandsFit(t);
      halted, out := Dispatch(args);
    }

    /** The chain of comparisons in `shell_run`. */
    method Dispatch(args: seq<Text>) returns (halted: bool, out: seq<byte>)
      requires Valid() && LineFits(Now(), args) && (|args| >= 2 ==> |JoinWords(args[2..])| < MAX_LINE)
      modifies this, fs, cwdPath
      ensures !halted ==> Valid() && Now() == Step(old(Now()), CommandOf(args))
      ensures halted ==> Allocates(CommandOf(args))
      ensures H.RunHeap(old(fs.heap), CommandRequests(old(Now()), CommandOf(args))) ==
              if halted then H.Panicked else H.Survived(fs.heap)
      ensures out == Shown(old(Now()), args)
    {
      hide Lookup, Graph, FileSystem.Valid, FileSystem.Abs, CatOutput, CString, FullPath, JoinWords,
           CreateRequests, WriteRequests, CanCreate, CanUnlink, H.RunHeap;
      NothingRequested(fs.heap);
      CatNothing();
      halted, out := false, [];
      if |args| == 0 { return; }
      var named, ok;
      named := Same(args[0], CD);
      if named {
        ok := CmdCd(args);
        return;
      }
      named := Same(args[0], MKDIR);
      if named {
        ok, halted := CmdCreate(args, 2);
        return;
      }
      named := Same(args[0], TOUCH);
      if named {
        ok, halted := CmdCreate(args, 1);
        return;
      }
      named := Same(args[0], CAT);
      if named {
        named, ok, out := CmdCat(args);
        return;
      }
      named := Same(args[0], WRITE);
      if named {
        ok, halted := CmdWrite(args);
        return;
      }
      named := Same(args[0], RM);
      if named {
        ok := CmdRm(args);
        return;
      }
    }

    /** `shell_run` on a script of lines as `read_line` delivers them.  The shell follows the abstract machine and
        prints what it says, line by line; it halts exactly when the heap cannot serve the requests of the run, which
        cannot happen while there is room for 4144 bytes per command that may allocate. */
    method ShellRun(lines: seq<Text>) returns (halted: bool, outs: seq<seq<byte>>)
      requires Valid() && forall i :: 0 <= i < |lines| ==> |lines[i]| < 256
      requires forall i :: 0 <= i < |lines| ==> LineFits(Run(Now(), Script(lines[..i])), Arguments(lines[i]))
      modifies this, fs, cwdPath
      ensures H.RunHeap(old(fs.heap), ScriptRequests(old(Now()), Script(lines))) ==
              if halted then H.Panicked else H.Survived(fs.heap)
      ensures !halted ==> Valid() && Now() == Run(old(Now()), Script(lines)) && outs == ScriptOutput(old(Now()), lines)
      ensures halted ==> outs < ScriptOutput(old(Now()), lines)
      ensures H.Roomy(old(fs.heap), COMMAND_BYTES * Allocating(Script(lines))) ==> !halted
    {
      hide LineFits, Arguments, Step, Run, CommandOf, CString, Graph, FileSystem.Valid, FileSystem.Abs, Allocating,
           Script, H.Roomy, H.RunHeap, ScriptRequests, CommandRequests, Shown, ScriptOutput;
      ghost var st := Now();
      RunNothing(st, fs.heap);
      ScriptSurvives(st, lines, fs.heap);
      assert lines[..0] == [];
      outs := [];
      for i := 0 to |lines|
        invariant Valid() && Now() == Run(st, Script(lines[..i])) && outs == ScriptOutput(st, lines[..i])
        invariant H.RunHeap(old(fs.heap), ScriptRequests(st, Script(lines[..i]))) == H.Survived(fs.heap)
      {
        var line := new byte[MAX_LINE];
        Scpy(line, 0, lines[i]);
        CStringIs(line[..], lines[i]);
        LineAdded(st, lines, i, old(fs.heap), fs.heap);
        OutputPrefix(st, lines, i);
        var out;
        halted, out := Execute(line);
        if halted { return true, outs; }
        outs := outs + [out];
      }
      assert lines[..|lines|] == lines;
      halted := false;
    }
  }

  lemma RunNothing(st: State, h: H.HeapState)
    ensures Script([]) == [] && Run(st, []) == st && ScriptOutput(st, []) == []
    ensures H.RunHeap(h, ScriptRequests(st, [])) == H.Survived(h)
  {
  }

  /** One more line: the run, the output and the requests each grow by that line's. */
  lemma LineAdded(st: State, lines: seq<Text>, i: nat, h0: H.HeapState, h: H.HeapState)
    requires i < |lines| && H.RunHeap(h0, ScriptRequests(st, Script(lines[..i]))) == H.Survived(h)
    ensures var mid, cmd := Run(st, Script(lines[..i])), CommandOf(Arguments(lines[i]));
            && Run(st, Script(lines[..i + 1])) == Step(mid, cmd)
            && ScriptOutput(st, lines[..i + 1]) == ScriptOutput(st, lines[..i]) + [Shown(mid, Arguments(lines[i]))]
            && H.RunHeap(h0, ScriptRequests(st, Script(lines[..i + 1]))) == H.RunHeap(h, CommandRequests(mid, cmd))
            && (H.RunHeap(h, CommandRequests(mid, cmd)).Panicked? ==>
                  H.RunHeap(h0, ScriptRequests(st, Script(lines))).Panicked?)
  {
    hide Arguments, Step, Run, CommandOf, H.RunHeap, ScriptRequests, CommandRequests, Shown, Script, ScriptOutput;
    var cmd := CommandOf(Arguments(lines[i]));
    assert lines[..i + 1] == lines[..i] + [lines[i]];
    ScriptSnoc(lines[..i], lines[i]);
    RunSnoc(st, Script(lines[..i]), cmd);
    OutputSnoc(st, lines, i);
    RequestsSnoc(st, Script(lines[..i]), cmd);
    RunInParts(h0, ScriptRequests(st, Script(lines[..i])), CommandRequests(Run(st, Script(lines[..i])), cmd));
    ScriptParts(lines, i + 1);
    RequestsGrow(st, Script(lines[..i + 1]), Script(lines[i + 1..]));
    if H.RunHeap(h0, ScriptRequests(st, Script(lines[..i + 1]))).Panicked? {
      PanicPersists(h0, ScriptRequests(st, Script(lines[..i + 1])), ScriptRequests(st, Script(lines)));
    }
  }

  lemma OutputSnoc(st: State, lines: seq<Text>, i: nat)
    requires i < |lines|
    ensures ScriptOutput(st, lines[..i + 1]) ==
            ScriptOutput(st, lines[..i]) + [Shown(Run(st, Script(lines[..i])), Arguments(lines[i]))]
  {
    hide Shown, Run, Script, Arguments;
    forall j | 0 <= j <= i ensures lines[..i + 1][..j] == lines[..j] && (j < i ==> lines[..i][..j] == lines[..j]) {}
  }

  lemma OutputPrefix(st: State, lines: seq<Text>, i: nat)
    requires i < |lines|
    ensures ScriptOutput(st, lines[..i]) < ScriptOutput(st, lines)
  {
    hide Shown, Run, Script, Arguments;
    forall j | 0 <= j < i ensures lines[..i][..j] == lines[..j] {}
  }

  lemma ScriptParts(lines: seq<Text>, i: nat)
    requires i <= |lines|
    ensures Script(lines) == Script(lines[..i]) + Script(lines[i..])
  {
    hide CommandOf, Arguments;
  }

  /** With room for every command that may allocate, the requests of a script of short lines are all served. */
  lemma ScriptSurvives(st: State, lines: seq<Text>, h: H.HeapState)
    requires forall i :: 0 <= i < |lines| ==> |lines[i]| < MAX_LINE
    ensures H.Roomy(h, COMMAND_BYTES * Allocating(Script(lines))) ==>
              H.RunHeap(h, ScriptRequests(st, Script(lines))).Survived?
  {
    hide H.Roomy, H.RunHeap, ScriptRequests, Allocating, Arguments, JoinWords;
    var cmds := Script(lines);
    forall k | 0 <= k < |cmds| ensures ShortText(cmds[k]) { CommandsFit(lines[k]); }
    ScriptIsSmall(st, cmds);
    if H.Roomy(h, COMMAND_BYTES * Allocating(cmds)) {
      H.RoomyRun(h, ScriptRequests(st, cmds), COMMAND_BYTES * Allocating(cmds));
    }
  }

  lemma ScriptSnoc(lines: seq<Text>, line: Text)
    ensures Script(lines + [line]) == Script(lines) + [CommandOf(Arguments(line))]
  {
  }

  /** The strings that `argv` points at. */
  method ReadArgs(line: array<byte>, argv: array<nat>, argc: nat, ghost words: seq<Text>) returns (args: seq<Text>)
    requires argc <= argv.Length && argc == |words|
    requires forall k :: 0 <= k < argc ==> StringAt(line[..], argv[k], words[k])
    ensures args == words
  {
    hide CString;
    args := [];
    for k := 0 to argc
      invariant args == words[..k]
    {
      assert StringAt(line[..], argv[k], words[k]);
      assert line[argv[k]..][..|words[k]|] == words[k];
      CStringIs(line[argv[k]..], words[k]);
      args := args + [CString(line[argv[k]..])];
    }
  }

  /** `seq`: equality of two strings. */
  method Same(a: Text, b: Text) returns (r: bool)
    ensures r <==> a == b
  {
    var i := 0;
    while i < |a| && i < |b| && a[i] == b[i]
      invariant 0 <= i <= |a| && i <= |b| && a[..i] == b[..i]
    {
      i := i + 1;
    }
    r := CharAt(a, i) == CharAt(b, i);
    assert i < |a| && i < |b| ==> a[i] != b[i];
  }
}
