/** The shell as a machine on values: tokens of a line, commands, and the current directory. */
module ShellSpec {
  import opened CStrings
  import opened Store

  // ---- Splitting a line ----

  const MAX_ARGS: nat := 16

  function SkipSpaces(t: Text, i: nat): (j: nat)
    requires i <= |t|
    ensures i <= j <= |t|
    ensures forall x :: i <= x < j ==> t[x] == SPACE
    ensures j < |t| ==> t[j] != SPACE
    decreases |t| - i
  {
    if i < |t| && t[i] == SPACE then SkipSpaces(t, i + 1) else i
  }

  function TokenEnd(t: Text, i: nat): (j: nat)
    requires i <= |t|
    ensures i <= j <= |t|
    ensures forall x :: i <= x < j ==> t[x] != SPACE
    ensures j < |t| ==> t[j] == SPACE
    decreases |t| - i
  {
    if i < |t| && t[i] != SPACE then TokenEnd(t, i + 1) else i
  }

  function WordAt(t: Text, i: nat): Text
    requires i <= |t|
  {
    t[i..TokenEnd(t, i)]
  }

  /** The maximal space-free pieces of the line from position `i`. */
  function Tokens(t: Text, i: nat): seq<Text>
    requires i <= |t|
    decreases |t| - i
  {
    var j := SkipSpaces(t, i);
    if j == |t| then [] else
      [WordAt(t, j)] + Tokens(t, TokenEnd(t, j))
  }

  predicate IsWord(w: Text) {
    w != [] && forall x :: 0 <= x < |w| ==> w[x] != SPACE
  }

  /** Tokens are non-empty and contain no space. */
  lemma {:induction false} TokensAreWords(t: Text, i: nat)
    requires i <= |t|
    ensures forall k :: 0 <= k < |Tokens(t, i)| ==> IsWord(Tokens(t, i)[k])
    decreases |t| - i
  {
    var j := SkipSpaces(t, i);
    if j < |t| { TokensAreWords(t, TokenEnd(t, j)); }
  }

  /** The words with one space between neighbours. */
  function JoinWords(words: seq<Text>): Text {
    if words == [] then [] else if |words| == 1 then words[0] else words[0] + [SPACE] + JoinWords(words[1..])
  }

  /** Built from the front, as `join_args` builds it. */
  lemma {:induction false} JoinSnoc(words: seq<Text>, w: Text)
    ensures JoinWords(words + [w]) == if words == [] then w else JoinWords(words) + [SPACE] + w
    decreases |words|
  {
    if words != [] {
      assert (words + [w])[1..] == words[1..] + [w];
      JoinSnoc(words[1..], w);
    }
  }

  lemma JoinGrowsByOne(words: seq<Text>, w: Text)
    ensures |JoinWords(words)| <= |JoinWords(words + [w])|
  {
    JoinSnoc(words, w);
  }

  lemma {:induction false} JoinGrows(words: seq<Text>, more: seq<Text>)
    ensures |JoinWords(words)| <= |JoinWords(words + more)|
    decreases |more|
  {
    hide JoinWords;
    if more == [] {
      assert words + more == words;
    } else {
      var next, rest := words + [more[0]], more[1..];
      JoinGrowsByOne(words, more[0]);
      JoinGrows(next, rest);
      assert next + rest == words + more;
    }
  }

  lemma TokensStep(t: Text, i: nat)
    requires i <= |t|
    ensures if SkipSpaces(t, i) == |t| then Tokens(t, i) == [] else
              var j := SkipSpaces(t, i);
              var e := TokenEnd(t, j);
              j < e && Tokens(t, i) == [WordAt(t, j)] + Tokens(t, e)
  {
  }

  /** Any run of the tokens of a line, joined, is no longer than the line. */
  lemma {:induction false} JoinedFits(t: Text, i: nat, start: nat, end: nat)
    requires i <= |t| && start <= end <= |Tokens(t, i)|
    ensures |JoinWords(Tokens(t, i)[start..end])| <= |t| - i
    decreases |t| - i
  {
    hide Tokens;
    TokensStep(t, i);
    if start < end {
      var ts, j := Tokens(t, i), SkipSpaces(t, i);
      var e := TokenEnd(t, j);
      var rest := Tokens(t, e);
      if start > 0 {
        assert ts[start..end] == rest[start - 1..end - 1];
        JoinedFits(t, e, start - 1, end - 1);
      } else if end == 1 {
        assert ts[start..end] == [WordAt(t, j)];
      } else {
        assert ts[start..end] == [WordAt(t, j)] + rest[0..end - 1];
        NoTokens(t);
        TokensAfterSpace(t, e);
        JoinedFits(t, e + 1, 0, end - 1);
      }
    }
  }

  lemma TokensAfterSpace(t: Text, e: nat)
    requires e < |t| && t[e] == SPACE
    ensures Tokens(t, e) == Tokens(t, e + 1)
  {
    assert SkipSpaces(t, e) == SkipSpaces(t, e + 1);
  }

  lemma FirstToken(pre: Text, w: Text, rest: Text)
    requires IsWord(w) && (rest != [] ==> rest[0] == SPACE)
    ensures Tokens(pre + w + rest, |pre|) == [w] + Tokens(pre + w + rest, |pre + w|)
  {
    var t := pre + w + rest;
    assert forall x :: |pre| <= x < |pre + w| ==> t[x] == w[x - |pre|];
    assert SkipSpaces(t, |pre|) == |pre|;
    TokenEndIs(t, |pre|, |pre + w|);
    assert WordAt(t, |pre|) == w;
  }

  lemma NoTokens(t: Text)
    ensures Tokens(t, |t|) == []
  {
  }

  /** Splitting the joined words gives the words back, from any offset. */
  lemma {:induction false} TokensOfJoined(words: seq<Text>, pre: Text)
    requires forall k :: 0 <= k < |words| ==> IsWord(words[k])
    ensures Tokens(pre + JoinWords(words), |pre|) == words
    decreases |words|
  {
    hide Tokens, IsWord;
    var t := pre + JoinWords(words);
    NoTokens(t);
    if |words| == 1 {
      FirstToken(pre, words[0], []);
      assert t == pre + words[0] + [];
    } else if words != [] {
      var w, rest := words[0], [SPACE] + JoinWords(words[1..]);
      var pre' := pre + w + [SPACE];
      FirstToken(pre, w, rest);
      assert t == pre + w + rest == pre' + JoinWords(words[1..]);
      TokensAfterSpace(t, |pre + w|);
      TokensOfJoined(words[1..], pre');
    }
  }

  lemma {:induction false} TokenEndIs(t: Text, i: nat, e: nat)
    requires i <= e <= |t| && (forall x :: i <= x < e ==> t[x] != SPACE) && (e < |t| ==> t[e] == SPACE)
    ensures TokenEnd(t, i) == e
    decreases e - i
  {
    if i < e { TokenEndIs(t, i + 1, e); }
  }

  lemma {:induction false} SkipSpacesIs(t: Text, i: nat, j: nat)
    requires i <= j <= |t| && (forall x :: i <= x < j ==> t[x] == SPACE) && (j < |t| ==> t[j] != SPACE)
    ensures SkipSpaces(t, i) == j
    decreases j - i
  {
    if i < j { SkipSpacesIs(t, i + 1, j); }
  }

  lemma {:induction false} ScanOfTail(t: Text, i: nat)
    requires 0 < i <= |t|
    ensures SkipSpaces(t, i) == SkipSpaces(t[1..], i - 1) + 1 && TokenEnd(t, i) == TokenEnd(t[1..], i - 1) + 1
    decreases |t| - i
  {
    if i < |t| { ScanOfTail(t, i + 1); }
  }

  /** Splitting sees only what is to the right of its position. */
  lemma {:induction false} TokensOfTail(t: Text, i: nat)
    requires 0 < i <= |t|
    ensures Tokens(t, i) == Tokens(t[1..], i - 1)
    decreases |t| - i
  {
    hide Tokens, SkipSpaces, TokenEnd;
    var j := SkipSpaces(t, i);
    ScanOfTail(t, i);
    TokensStep(t, i);
    TokensStep(t[1..], i - 1);
    if j < |t| {
      ScanOfTail(t, j);
      assert WordAt(t, j) == WordAt(t[1..], j - 1);
      TokensOfTail(t, TokenEnd(t, j));
    }
  }

  lemma {:induction false} TokensOfRest(t: Text, i: nat)
    requires i <= |t|
    ensures Tokens(t, i) == Tokens(t[i..], 0)
    decreases i
  {
    hide Tokens;
    if i > 0 {
      TokensOfTail(t, i);
      TokensOfRest(t[1..], i - 1);
      assert t[1..][i - 1..] == t[i..];
    } else {
      assert t[0..] == t;
    }
  }

  /** A space separates: whatever stands on its two sides is split on its own, so that further spaces, also at either
      end of the line, make no difference. */
  lemma {:induction false} TokensSplit(a: Text, b: Text, i: nat)
    requires i <= |a|
    ensures Tokens(a + [32] + b, i) == Tokens(a, i) + Tokens(b, 0)
    decreases |a| - i
  {
    hide Tokens;
    var t, j := a + [32] + b, SkipSpaces(a, i);
    assert forall x :: 0 <= x < |a| ==> t[x] == a[x];
    TokensStep(a, i);
    if j < |a| {
      var e := TokenEnd(a, j);
      SkipSpacesIs(t, i, j);
      TokenEndIs(t, j, e);
      TokensStep(t, i);
      assert WordAt(t, j) == WordAt(a, j);
      TokensSplit(a, b, e);
    } else {
      AllSpaces(t, i, |a| + 1);
      TokensOfRest(t, |a| + 1);
      assert t[|a| + 1..] == b;
    }
  }

  lemma {:induction false} AllSpaces(t: Text, i: nat, j: nat)
    requires i <= j <= |t| && forall x :: i <= x < j ==> t[x] == SPACE
    ensures Tokens(t, i) == Tokens(t, j)
    decreases j - i
  {
    hide Tokens;
    if i < j {
      TokensAfterSpace(t, i);
      AllSpaces(t, i + 1, j);
    }
  }

  // ---- Commands ----

  function WithSeparator(cwd: Text): Text {
    if cwd != [] && cwd[|cwd| - 1] == SLASH then cwd else cwd + [SLASH]
  }

  /** Where `resolve_path` looks: an absolute argument itself, a relative one below the current path. */
  function FullPath(cwd: Text, arg: Text): Text {
    if CharAt(arg, 0) == SLASH then arg else WithSeparator(cwd) + arg
  }

  datatype Command = Cd(target: Text) | Mkdir(name: Text) | Touch(name: Text) | Rm(name: Text)
                   | WriteFile(file: Text, text: Text) | Nothing

  datatype State = State(store: Store, cwdIno: nat, cwdPath: Text)

  function Step(st: State, cmd: Command): State {
    match cmd
    case Nothing => st
    case Cd(target) =>
      var full := FullPath(st.cwdPath, target);
      var ino := Lookup(st.store, full);
      if IsDir(st.store, ino) then st.(cwdIno := ino, cwdPath := full) else st
    case Mkdir(name) => if CharAt(name, 0) == SLASH then st else st.(store := Create(st.store, st.cwdIno, name, 2).1)
    case Touch(name) => if CharAt(name, 0) == SLASH then st else st.(store := Create(st.store, st.cwdIno, name, 1).1)
    case Rm(name) => if CharAt(name, 0) == SLASH then st else st.(store := Unlink(st.store, st.cwdIno, name).1)
    case WriteFile(file, text) =>
      st.(store := Write(st.store, Lookup(st.store, FullPath(st.cwdPath, file)), 0, text))
  }

  const CD: Text := [99, 100]
  const MKDIR: Text := [109, 107, 100, 105, 114]
  const TOUCH: Text := [116, 111, 117, 99, 104]
  const RM: Text := [114, 109]
  const WRITE: Text := [119, 114, 105, 116, 101]
  const CAT: Text := [99, 97, 116]

  /** The state-changing command that the tokens of a line ask for. */
  function CommandOf(args: seq<Text>): Command {
    if |args| < 2 then Nothing
    else if args[0] == CD then Cd(args[1])
    else if args[0] == MKDIR then Mkdir(args[1])
    else if args[0] == TOUCH then Touch(args[1])
    else if args[0] == RM then Rm(args[1])
    else if args[0] == WRITE && |args| >= 3 then WriteFile(args[1], JoinWords(args[2..]))
    else Nothing
  }

  /** The arguments of a typed line: its first 16 tokens. */
  function Arguments(line: Text): seq<Text> {
    Take(Tokens(line, 0), MAX_ARGS)
  }

  const MAX_PATH: nat := 512

  /** Every path the command makes the shell build fits its 512-byte buffers. */
  predicate PathFits(st: State, cmd: Command) {
    match cmd
    case Cd(target) => |FullPath(st.cwdPath, target)| < 512
    case WriteFile(file, _) => |FullPath(st.cwdPath, file)| < 512
    case _ => true
  }

  /** ... and so does the path of a `cat`, the one reading command modelled. */
  predicate LineFits(st: State, args: seq<Text>) {
    && PathFits(st, CommandOf(args))
    && (|args| >= 2 && args[0] == CAT ==> |FullPath(st.cwdPath, args[1])| < 512)
  }

  lemma CommandsFit(t: Text)
    ensures |Arguments(t)| >= 2 ==> |JoinWords(Arguments(t)[2..])| <= |t|
  {
    hide Tokens, JoinWords;
    var args, ts := Arguments(t), Tokens(t, 0);
    if |args| >= 2 {
      assert args[2..] == ts[2..|args|];
      JoinedFits(t, 0, 2, |args|);
    }
  }

  /** The two pieces of state agree: the path string resolves to the inode number, which is a directory. */
  ghost predicate CwdAgrees(st: State) {
    && Graph(st.store)
    && CharAt(st.cwdPath, 0) == SLASH
    && Lookup(st.store, st.cwdPath) == st.cwdIno
    && IsDir(st.store, st.cwdIno)
  }

  /** Removing an entry of the current directory cannot cut the path that leads to it. */
  lemma RmKeepsCwd(st: State, name: Text)
    requires CwdAgrees(st)
    ensures CwdAgrees(st.(store := Unlink(st.store, st.cwdIno, name).1))
  {
    var s := st.store;
    UnlinkKeepsGraph(s, st.cwdIno, name);
    if CanUnlink(s, st.cwdIno, name) && st.cwdPath != [SLASH] {
      var names := Take(Segments(st.cwdPath, 0), MAX_SEGMENTS);
      PathToDirAvoidsIt(s, ROOT_INO, names, st.cwdIno, name);
      UnlinkCutsOnly(s, st.cwdIno, name, ROOT_INO, names);
    }
  }

  lemma CreateKeepsCwd(st: State, name: Text, kind: byte)
    requires CwdAgrees(st)
    ensures CwdAgrees(st.(store := Create(st.store, st.cwdIno, name, kind).1))
  {
    CreateKeepsGraph(st.store, st.cwdIno, name, kind);
    CreateKeepsLookups(st.store, st.cwdIno, name, kind, st.cwdPath);
  }

  lemma WriteKeepsCwd(st: State, ino: nat, bytes: seq<byte>)
    requires CwdAgrees(st)
    ensures CwdAgrees(st.(store := Write(st.store, ino, 0, bytes)))
  {
    WriteKeepsGraph(st.store, ino, 0, bytes);
    if st.cwdPath != [SLASH] {
      WriteKeepsWalks(st.store, ino, 0, bytes, ROOT_INO, Take(Segments(st.cwdPath, 0), MAX_SEGMENTS));
    }
  }

  lemma StepKeepsCwd(st: State, cmd: Command)
    requires CwdAgrees(st)
    ensures CwdAgrees(Step(st, cmd))
  {
    hide Lookup, Graph, Create, Unlink, Write;
    match cmd
    case Nothing =>
    case Cd(target) =>
    case Mkdir(name) => CreateKeepsCwd(st, name, 2);
    case Touch(name) => CreateKeepsCwd(st, name, 1);
    case Rm(name) => RmKeepsCwd(st, name);
    case WriteFile(file, text) => WriteKeepsCwd(st, Lookup(st.store, FullPath(st.cwdPath, file)), text);
  }

  function Run(st: State, cmds: seq<Command>): State
    decreases |cmds|
  {
    if cmds == [] then st else Run(Step(st, cmds[0]), cmds[1..])
  }

  /** After any sequence of commands from boot the path string and the inode number still agree. */
  lemma {:induction false} RunKeepsCwd(st: State, cmds: seq<Command>)
    requires CwdAgrees(st)
    ensures CwdAgrees(Run(st, cmds))
    decreases |cmds|
  {
    if cmds != [] {
      StepKeepsCwd(st, cmds[0]);
      RunKeepsCwd(Step(st, cmds[0]), cmds[1..]);
    }
  }

  lemma {:induction false} RunSnoc(st: State, cmds: seq<Command>, cmd: Command)
    ensures Run(st, cmds + [cmd]) == Step(Run(st, cmds), cmd)
    decreases |cmds|
  {
    hide Step;
    if cmds == [] {
      assert Run(Step(st, cmd), []) == Step(st, cmd);
    } else {
      assert (cmds + [cmd])[1..] == cmds[1..] + [cmd];
      RunSnoc(Step(st, cmds[0]), cmds[1..], cmd);
    }
  }

  /** The commands of a script of typed lines. */
  function Script(lines: seq<Text>): seq<Command> {
    seq(|lines|, i requires 0 <= i < |lines| => CommandOf(Arguments(lines[i])))
  }

  /** Commands that may ask for kernel heap. */
  predicate Allocates(cmd: Command) {
    cmd.Mkdir? || cmd.Touch? || cmd.WriteFile?
  }

  function Allocating(cmds: seq<Command>): nat
    decreases |cmds|
  {
    if cmds == [] then 0 else
      var last := |cmds| - 1;
      Allocating(cmds[..last]) + if Allocates(cmds[last]) then 1 else 0
  }

  /** An empty root directory, which is the current directory. */
  const BOOT_STATE: State := State([Dir([])], ROOT_INO, [SLASH])

  lemma BootState()
    ensures CwdAgrees(BOOT_STATE)
  {
    FreshStoreIsGood();
  }

  // ---- Going down ----

  lemma {:induction false} JoinExtends(names: seq<Text>, name: Text)
    ensures Join(names + [name]) == Join(names) + [SLASH] + name
    decreases |names|
  {
    if names == [] {
      assert names + [name] == [name] && Join([name][1..]) == [];
    } else {
      assert (names + [name])[1..] == names[1..] + [name];
      JoinExtends(names[1..], name);
    }
  }

  /** The relative path of one component extends the path of the current directory by it. */
  lemma FullPathExtends(names: seq<Text>, name: Text)
    requires Components(names) && SlashFree(name) && name != []
    ensures FullPath(PathTo(names), name) == PathTo(names + [name])
  {
    JoinExtends(names, name);
    if names != [] {
      var front, last := names[..|names| - 1], names[|names| - 1];
      assert names == front + [last] && SlashFree(last) && last != [];
      JoinExtends(front, last);
    }
  }

  /** `mkdir name` and `cd name` with an unbound name end in the new, empty directory one level down. */
  lemma GoDown(st: State, names: seq<Text>, name: Text)
    requires CwdAgrees(st) && st.cwdPath == PathTo(names) && Components(names) && |names| < 16
    requires SlashFree(name) && 1 <= |name| <= 254 && Binding(st.store, st.cwdIno, name) == 0
    ensures var down := Step(Step(st, Mkdir(name)), Cd(name));
            && CwdAgrees(down) && down.cwdPath == PathTo(names + [name])
            && down.cwdIno == |st.store| + 1 == |down.store| && down.store[down.cwdIno - 1] == Dir([])
  {
    hide Graph, Lookup, Find, Walk, Segments;
    var made := Step(st, Mkdir(name));
    StepKeepsCwd(st, Mkdir(name));
    CreateAddsOneBinding(st.store, st.cwdIno, name, 2);
    CreateLookupRoundTrip(st.store, names, name, 2);
    FullPathExtends(names, name);
    StepKeepsCwd(made, Cd(name));
  }

  /** `touch name` with an unbound name makes an empty file there, and leaves the current directory where it is. */
  lemma TouchMakesFile(st: State, names: seq<Text>, name: Text)
    requires CwdAgrees(st) && st.cwdPath == PathTo(names) && Components(names) && |names| < 16
    requires SlashFree(name) && 1 <= |name| <= 254 && Binding(st.store, st.cwdIno, name) == 0
    ensures var made := Step(st, Touch(name));
            && CwdAgrees(made) && made.cwdPath == st.cwdPath && made.cwdIno == st.cwdIno
            && Lookup(made.store, PathTo(names + [name])) == |st.store| + 1 == |made.store|
            && made.store[|st.store|] == File([])
  {
    hide Graph, Lookup, Find, Walk, Segments;
    StepKeepsCwd(st, Touch(name));
    CreateAddsOneBinding(st.store, st.cwdIno, name, 1);
    CreateLookupRoundTrip(st.store, names, name, 1);
  }

  /** What `mkdir` and `touch` make of any name: the empty directory or file it is then bound to, and no change else;
      nothing for a name that starts with a slash, is bound, or has not 1 to 254 characters. */
  lemma CreateCommands(st: State, name: Text, dir: bool)
    requires CwdAgrees(st)
    ensures var after := Step(st, if dir then Mkdir(name) else Touch(name));
            if !(1 <= |name| <= 254) || name[0] == 47 || Binding(st.store, st.cwdIno, name) != 0 then after == st else
              && CwdAgrees(after) && after.cwdPath == st.cwdPath && after.cwdIno == st.cwdIno
              && |after.store| == |st.store| + 1
              && after.store[|st.store|] == (if dir then Dir([]) else File([]))
              && (forall k :: 0 <= k < |st.store| && k != st.cwdIno - 1 ==> after.store[k] == st.store[k])
              && (forall d: nat, n: Text ::
                    Binding(after.store, d, n) ==
                    if d == st.cwdIno && n == name then |st.store| + 1 else Binding(st.store, d, n))
  {
    hide Graph, Lookup, Create, Binding;
    StepKeepsCwd(st, if dir then Mkdir(name) else Touch(name));
    CreateAddsOneBinding(st.store, st.cwdIno, name, if dir then 2 else 1);
  }

  /** What `rm` makes of any name. */
  lemma RmCommand(st: State, name: Text)
    requires CwdAgrees(st)
    ensures var after, child := Step(st, Rm(name)), Binding(st.store, st.cwdIno, name);
            if || (name != [] && name[0] == 47) || child == 0
               || (IsDir(st.store, child) && st.store[child - 1].entries != [])
            then after == st else
              && CwdAgrees(after) && after.cwdPath == st.cwdPath && after.cwdIno == st.cwdIno
              && |after.store| == |st.store|
              && (forall k :: 0 <= k < |st.store| && k != st.cwdIno - 1 ==> after.store[k] == st.store[k])
              && (forall d: nat, n: Text ::
                    Binding(after.store, d, n) ==
                    if d == st.cwdIno && n == name then 0 else Binding(st.store, d, n))
  {
    hide Graph, Lookup, Unlink, Binding;
    StepKeepsCwd(st, Rm(name));
    UnlinkRemovesOneBinding(st.store, st.cwdIno, name);
  }

  /** A removed name resolves no more. */
  lemma RmUnbinds(st: State, names: seq<Text>, name: Text)
    requires CwdAgrees(st) && st.cwdPath == PathTo(names) && Components(names) && |names| < 16
    requires SlashFree(name) && name != []
    ensures var after, child := Step(st, Rm(name)), Binding(st.store, st.cwdIno, name);
            Lookup(after.store, PathTo(names + [name])) ==
            if IsDir(st.store, child) && st.store[child - 1].entries != [] then child else 0
  {
    hide Graph, Lookup, Find, Walk, Segments, Step;
    RmCommand(st, name);
    StepKeepsCwd(st, Rm(name));
    LookupSteps(Step(st, Rm(name)).store, names, name);
  }

  /** A name so long that `mkdir` and `cd` just fit the line buffer. */
  function LongName(): Text {
    seq(249, _ => 97)
  }

  /** Two rounds of `mkdir` and `cd` with it, and one more `cd`. */
  function DeepScript(): seq<Text> {
    var n := LongName();
    [JoinWords([MKDIR, n]), JoinWords([CD, n]), JoinWords([MKDIR, n]), JoinWords([CD, n]), JoinWords([CD, n])]
  }

  lemma TwoWords(verb: Text, name: Text)
    requires IsWord(verb) && IsWord(name)
    ensures Arguments(JoinWords([verb, name])) == [verb, name]
    ensures |JoinWords([verb, name])| == |verb| + 1 + |name|
  {
    hide Tokens;
    TokensOfJoined([verb, name], []);
    assert [] + JoinWords([verb, name]) == JoinWords([verb, name]);
    assert [verb, name][1..] == [name];
  }

  lemma LongPaths()
    ensures var n := LongName();
            && IsWord(n) && SlashFree(n) && GoodName(n) && |n| == 249
            && |FullPath(PathTo([n, n]), n)| == 750
  {
    var n := LongName();
    FullPathExtends([n, n], n);
    assert [n, n] + [n] == [n, n, n];
    JoinExtends([n, n], n);
    JoinExtends([n], n);
    JoinExtends([], n);
    assert [n] + [n] == [n, n] && [] + [n] == [n];
  }

  /** After the four lines the current path has 500 characters. */
  lemma DeepState(st: State)
    requires var n := LongName(); st == Run(BOOT_STATE, [Mkdir(n), Cd(n), Mkdir(n), Cd(n)])
    ensures st.cwdPath == PathTo([LongName(), LongName()])
  {
    hide Step, CwdAgrees, FullPath, LongName;
    var n := LongName();
    LongPaths();
    BootState();
    RunFour(BOOT_STATE, Mkdir(n), Cd(n));
    var one := Step(Step(BOOT_STATE, Mkdir(n)), Cd(n));
    GoDown(BOOT_STATE, [], n);
    assert [] + [n] == [n] && [n] + [n] == [n, n];
    GoDown(one, [n], n);
  }

  /** Lines that each fit the line buffer can make the shell build a path that does not fit its path buffers: the
      fifth of these asks for 750 characters. */
  lemma PathsCanOverflow()
    ensures forall i :: 0 <= i < |DeepScript()| ==> |DeepScript()[i]| < 256
    ensures !LineFits(Run(BOOT_STATE, Script(DeepScript()[..4])), Arguments(DeepScript()[4]))
  {
    hide Run, JoinWords, FullPath, LongName, PathTo, Arguments, IsWord;
    var n, lines := LongName(), DeepScript();
    LongPaths();
    VerbsAreWords();
    TwoWords(MKDIR, n);
    TwoWords(CD, n);
    assert Script(lines[..4]) == [Mkdir(n), Cd(n), Mkdir(n), Cd(n)];
    DeepState(Run(BOOT_STATE, Script(lines[..4])));
  }

  lemma VerbsAreWords()
    ensures IsWord(MKDIR) && IsWord(CD)
  {
  }

  lemma RunFour(st: State, a: Command, b: Command)
    ensures Run(st, [a, b, a, b]) == Step(Step(Step(Step(st, a), b), a), b)
  {
    hide Step;
    assert [a, b, a, b] == [a, b, a] + [b] && [a, b, a] == [a, b] + [a] && [a, b] == [a] + [b] && [a] == [] + [a];
    RunSnoc(st, [a, b, a], b);
    RunSnoc(st, [a, b], a);
    RunSnoc(st, [a], b);
    RunSnoc(st, [], a);
  }

  // ---- Streaming a file ----

  const CHUNK: nat := 127

  /** What `cat` prints: each 127-byte read up to its first terminator. */
  function CatOutput(content: seq<byte>): seq<byte>
    decreases |content|
  {
    if content == [] then []
    else if |content| <= CHUNK then CString(content)
    else CString(content[..CHUNK]) + CatOutput(content[CHUNK..])
  }

  lemma CatUnfold(content: seq<byte>)
    requires content != []
    ensures CatOutput(content) ==
            if |content| <= CHUNK then CString(content) else CString(content[..CHUNK]) + CatOutput(content[CHUNK..])
  {
    hide CString;
  }

  lemma CatNothing()
    ensures CatOutput([]) == []
  {
  }

  /** The inode that `cat` reads, or `INVALID_INO`. */
  function CatTarget(st: State, args: seq<Text>): nat {
    if |args| < 2 then INVALID_INO else Lookup(st.store, FullPath(st.cwdPath, args[1]))
  }

  /** The file content that a line prints: that of the file a `cat` names, if it resolves to one. */
  function Shown(st: State, args: seq<Text>): seq<byte> {
    if |args| < 2 || args[0] != CAT then [] else
      var ino := CatTarget(st, args);
      if IsFile(st.store, ino) then CatOutput(st.store[ino - 1].content) else []
  }

  predicate NoTerminator(s: seq<byte>) {
    forall i :: 0 <= i < |s| ==> s[i] != NUL
  }

  lemma {:induction false} CStringOfText(s: seq<byte>)
    requires NoTerminator(s)
    ensures CString(s) == s
  {
    if s != [] { CStringOfText(s[1..]); }
  }

  /** Whatever is printed holds no terminator. */
  lemma {:induction false} CatPrintsNoTerminator(content: seq<byte>)
    ensures NoTerminator(CatOutput(content))
    decreases |content|
  {
    hide CString;
    if |content| > CHUNK { CatPrintsNoTerminator(content[CHUNK..]); }
  }

  lemma {:induction false} CatPrintsText(content: seq<byte>)
    requires NoTerminator(content)
    ensures CatOutput(content) == content
    decreases |content|
  {
    if |content| <= CHUNK {
      CStringOfText(content);
    } else {
      CStringOfText(content[..CHUNK]);
      CatPrintsText(content[CHUNK..]);
      assert content == content[..CHUNK] + content[CHUNK..];
    }
  }

  /** Content is printed whole exactly when it holds no terminator. */
  lemma CatPrintsWhole(content: seq<byte>)
    ensures CatOutput(content) == content <==> NoTerminator(content)
  {
    hide CatOutput;
    CatPrintsNoTerminator(content);
    if NoTerminator(content) { CatPrintsText(content); }
  }

  /** The first terminator hides the rest of the 127 bytes it was read with, and nothing else. */
  lemma TerminatorHides(text: Text, rest: seq<byte>)
    requires |text| <= 126
    ensures CatOutput(text + [0] + rest) ==
            text + if |text| + |rest| <= 126 then [] else CatOutput(rest[126 - |text|..])
  {
    hide CatOutput, CString;
    var content := text + [0] + rest;
    CatUnfold(content);
    var head := if |content| <= CHUNK then content else content[..CHUNK];
    assert head[..|text|] == text && head[|text|] == 0;
    CStringIs(head, text);
    if |content| > CHUNK { AfterChunk(text, rest); }
  }

  lemma AfterChunk(text: Text, rest: seq<byte>)
    requires |text| <= 126 < |text| + |rest|
    ensures (text + [0] + rest)[CHUNK..] == rest[126 - |text|..]
  {
  }

  /** What a write of `n` bytes at the start leaves of the old content. */
  function Tail(before: seq<byte>, n: nat): seq<byte> {
    if n < |before| then before[n..] else []
  }

  /** Writing a text over a file and printing it shows the text and the old tail exactly when the tail holds no
      terminator. */
  lemma WriteThenCat(before: seq<byte>, text: Text)
    ensures CatOutput(Overwrite(before, 0, text)) == text + Tail(before, |text|) <==> NoTerminator(Tail(before, |text|))
  {
    hide CatOutput;
    var r, tail := Overwrite(before, 0, text), Tail(before, |text|);
    OverwriteAt(before, 0, text);
    assert r == text + tail;
    CatPrintsWhole(r);
    assert forall i :: 0 <= i < |tail| ==> tail[i] == r[|text| + i];
  }

  /** `write f words` and then `cat f`, for any file the name resolves to. */
  lemma WriteThenCatLine(st: State, file: Text, text: Text)
    requires IsFile(st.store, Lookup(st.store, FullPath(st.cwdPath, file)))
    ensures var before := st.store[Lookup(st.store, FullPath(st.cwdPath, file)) - 1].content;
            Shown(Step(st, WriteFile(file, text)), [CAT, file]) == text + Tail(before, |text|) <==>
            NoTerminator(Tail(before, |text|))
  {
    hide CatOutput, Overwrite, FullPath, Walk, Segments, Tail, NoTerminator;
    var full := FullPath(st.cwdPath, file);
    var ino := Lookup(st.store, full);
    WriteThenCat(st.store[ino - 1].content, text);
    WriteKeepsWalks(st.store, ino, 0, text, ROOT_INO, Take(Segments(full, 0), MAX_SEGMENTS));
  }

  // ---- Arguments that are paths ----

  lemma {:induction false} JoinTwo(a: seq<Text>, b: seq<Text>)
    ensures Join(a + b) == Join(a) + Join(b)
    decreases |a|
  {
    if a == [] {
      assert a + b == b;
    } else {
      assert (a + b)[1..] == a[1..] + b;
      JoinTwo(a[1..], b);
    }
  }

  /** The argument `b/c` for the components `b`, `c`. */
  function Relative(rel: seq<Text>): Text
    requires rel != []
  {
    Join(rel)[1..]
  }

  lemma RelativeJoins(names: seq<Text>, rel: seq<Text>)
    requires Components(names) && Components(rel) && rel != []
    ensures FullPath(PathTo(names), Relative(rel)) == PathTo(names + rel)
  {
    hide Join;
    JoinTwo(names, rel);
    JoinCons(rel[0], rel[1..]);
    assert [rel[0]] + rel[1..] == rel;
    assert Relative(rel)[0] == rel[0][0] != SLASH;
    if names == [] {
      assert names + rel == rel;
    } else {
      LastOfPath(names);
      assert Join(names) + Join(rel) == Join(names) + [SLASH] + Relative(rel);
    }
  }

  lemma LastOfPath(names: seq<Text>)
    requires Components(names) && names != []
    ensures Join(names) != [] && Join(names)[|Join(names)| - 1] != SLASH
  {
    var front, last := names[..|names| - 1], names[|names| - 1];
    assert names == front + [last] && SlashFree(last) && last != [];
    JoinExtends(front, last);
  }

  /** The content that `cat` prints for an inode. */
  function ShownFile(s: Store, ino: nat): seq<byte> {
    if IsFile(s, ino) then CatOutput(s[ino - 1].content) else []
  }

  /** What the three commands that take a path do with the inode it leads to. */
  lemma PathCommands(st: State, arg: Text, full: Text, ino: nat, text: Text)
    requires FullPath(st.cwdPath, arg) == full && Lookup(st.store, full) == ino
    ensures Step(st, Cd(arg)) == if IsDir(st.store, ino) then State(st.store, ino, full) else st
    ensures Step(st, WriteFile(arg, text)) == State(Write(st.store, ino, 0, text), st.cwdIno, st.cwdPath)
    ensures Shown(st, [Ascii("cat"), arg]) == ShownFile(st.store, ino)
  {
    hide Lookup, FullPath, CatOutput, Write;
    CatIs();
  }

  /** Any argument of theirs: taken as it stands if it starts with a slash, and otherwise after the current path and one
      slash. */
  lemma ArgumentPaths(st: State, arg: Text, text: Text)
    requires st.cwdPath != []
    ensures var full := if arg != [] && arg[0] == 47 then arg
                        else if st.cwdPath[|st.cwdPath| - 1] == 47 then st.cwdPath + arg
                        else st.cwdPath + [47] + arg;
            var ino := Lookup(st.store, full);
            && Step(st, Cd(arg)) == (if IsDir(st.store, ino) then State(st.store, ino, full) else st)
            && Step(st, WriteFile(arg, text)) == State(Write(st.store, ino, 0, text), st.cwdIno, st.cwdPath)
            && Shown(st, [Ascii("cat"), arg]) == ShownFile(st.store, ino)
  {
    hide Lookup, CatOutput, Write;
    PathCommands(st, arg, FullPath(st.cwdPath, arg), Lookup(st.store, FullPath(st.cwdPath, arg)), text);
  }

  lemma AbsoluteFull(cwd: Text, names: seq<Text>)
    ensures FullPath(cwd, PathTo(names)) == PathTo(names)
  {
    if names != [] { assert PathTo(names)[0] == SLASH; }
  }

  /** An absolute path, whatever the current directory: `cd` moves there exactly if it leads to a directory, `write`
      changes and `cat` prints the file it leads to. */
  lemma AbsolutePaths(st: State, names: seq<Text>, text: Text)
    requires st.store != [] && Components(names) && |names| <= 16
    ensures var ino := Walk(st.store, 1, names);
            && Step(st, Cd(PathTo(names))) ==
               (if IsDir(st.store, ino) then State(st.store, ino, PathTo(names)) else st)
            && Step(st, WriteFile(PathTo(names), text)) ==
               State(Write(st.store, ino, 0, text), st.cwdIno, st.cwdPath)
            && Shown(st, [Ascii("cat"), PathTo(names)]) == ShownFile(st.store, ino)
  {
    hide Walk, Lookup, FullPath, PathTo, Step, Shown, ShownFile, Write, Components;
    LookupJoined(st.store, names);
    AbsoluteFull(st.cwdPath, names);
    PathCommands(st, PathTo(names), PathTo(names), Walk(st.store, 1, names), text);
  }

  /** A relative path: the same, from the current directory. */
  lemma RelativePaths(st: State, names: seq<Text>, rel: seq<Text>, text: Text)
    requires CwdAgrees(st) && st.cwdPath == PathTo(names)
    requires Components(names) && Components(rel) && rel != [] && |names| + |rel| <= 16
    ensures var ino := Walk(st.store, st.cwdIno, rel);
            && Step(st, Cd(Relative(rel))) ==
               (if IsDir(st.store, ino) then State(st.store, ino, PathTo(names + rel)) else st)
            && Step(st, WriteFile(Relative(rel), text)) ==
               State(Write(st.store, ino, 0, text), st.cwdIno, st.cwdPath)
            && Shown(st, [Ascii("cat"), Relative(rel)]) == ShownFile(st.store, ino)
  {
    hide Walk, Lookup, FullPath, PathTo, Step, Shown, ShownFile, Write, Relative;
    LookupJoined(st.store, names);
    assert Components(names + rel);
    LookupJoined(st.store, names + rel);
    WalkAppend(st.store, 1, names, rel);
    RelativeJoins(names, rel);
    PathCommands(st, Relative(rel), PathTo(names + rel), Walk(st.store, st.cwdIno, rel), text);
  }

  lemma CatIs()
    ensures Ascii("cat") == CAT
  {
  }

  // ---- Shell files hold text ----

  lemma NothingHasNone()
    ensures NoTerminator([])
  {
  }

  ghost predicate TextFiles(s: Store) {
    forall k :: 0 <= k < |s| && s[k].File? ==> NoTerminator(s[k].content)
  }

  lemma StepKeepsText(st: State, cmd: Command)
    requires TextFiles(st.store)
    ensures TextFiles(Step(st, cmd).store)
  {
    hide Lookup, FullPath, Create, Unlink, Write, TextFiles;
    match cmd
    case Nothing =>
    case Cd(target) =>
    case Mkdir(name) => CreateKeepsText(st.store, st.cwdIno, name, 2);
    case Touch(name) => CreateKeepsText(st.store, st.cwdIno, name, 1);
    case Rm(name) => UnlinkKeepsText(st.store, st.cwdIno, name);
    case WriteFile(file, text) => WriteKeepsText(st.store, Lookup(st.store, FullPath(st.cwdPath, file)), text);
  }

  lemma CreateKeepsText(s: Store, parent: nat, name: Text, kind: byte)
    requires TextFiles(s)
    ensures TextFiles(Create(s, parent, name, kind).1)
  {
    hide Find, GoodName, NoTerminator;
    NothingHasNone();
    var s' := Create(s, parent, name, kind).1;
    forall k | 0 <= k < |s'| && s'[k].File? ensures NoTerminator(s'[k].content) {
      if CanCreate(s, parent, name) && k < |s| { assert k != parent - 1 && s'[k] == s[k]; }
    }
  }

  lemma UnlinkKeepsText(s: Store, parent: nat, name: Text)
    requires TextFiles(s)
    ensures TextFiles(Unlink(s, parent, name).1)
  {
    hide RemoveAt, NoTerminator;
  }

  lemma WriteKeepsText(s: Store, ino: nat, text: Text)
    requires TextFiles(s)
    ensures TextFiles(Write(s, ino, 0, text))
  {
    hide Overwrite, NoTerminator;
    if IsFile(s, ino) { OverwriteKeepsText(s[ino - 1].content, text); }
  }

  lemma OverwriteKeepsText(before: seq<byte>, text: Text)
    requires NoTerminator(before)
    ensures NoTerminator(Overwrite(before, 0, text))
  {
    hide Overwrite;
    var r := Overwrite(before, 0, text);
    OverwriteAt(before, 0, text);
    forall i | 0 <= i < |r| ensures r[i] != NUL {
      assert r[i] == if i < |text| then text[i] else before[i];
    }
  }

  lemma {:induction false} RunKeepsText(st: State, cmds: seq<Command>)
    requires TextFiles(st.store)
    ensures TextFiles(Run(st, cmds).store)
    decreases |cmds|
  {
    hide Step;
    if cmds != [] {
      StepKeepsText(st, cmds[0]);
      RunKeepsText(Step(st, cmds[0]), cmds[1..]);
    }
  }

  /** After any commands from boot: `cat f` prints the file whole, and `write f words; cat f` prints the words followed
      by the old tail. */
  lemma FilesPrintFromBoot(cmds: seq<Command>, file: Text, text: Text)
    requires var st := Run(BOOT_STATE, cmds); IsFile(st.store, Lookup(st.store, FullPath(st.cwdPath, file)))
    ensures var st := Run(BOOT_STATE, cmds);
            var content := st.store[Lookup(st.store, FullPath(st.cwdPath, file)) - 1].content;
            && Shown(st, [CAT, file]) == content
            && Shown(Step(st, WriteFile(file, text)), [CAT, file]) == text + Tail(content, |text|)
  {
    hide Run, Step, Lookup, FullPath, CatOutput;
    var st := Run(BOOT_STATE, cmds);
    RunKeepsText(BOOT_STATE, cmds);
    CatPrintsWhole(st.store[Lookup(st.store, FullPath(st.cwdPath, file)) - 1].content);
    WriteThenCatLine(st, file, text);
  }

  /** `touch name`, `write name text`, `cat name`: the file holds and `cat` shows exactly the text, from there by its
      name and from anywhere by its absolute path. */
  lemma TouchWriteCat(st: State, names: seq<Text>, name: Text, text: Text)
    requires CwdAgrees(st) && st.cwdPath == PathTo(names) && Components(names) && |names| < 16
    requires SlashFree(name) && 1 <= |name| <= 254 && Binding(st.store, st.cwdIno, name) == 0
    ensures var after := Step(Step(st, Touch(name)), WriteFile(name, text));
            && CwdAgrees(after) && after.cwdPath == st.cwdPath
            && |after.store| == |st.store| + 1 && after.store[|st.store|] == File(text)
            && Lookup(after.store, PathTo(names + [name])) == |st.store| + 1
            && Shown(after, [Ascii("cat"), name]) == text
            && (forall st': State :: st'.store == after.store ==>
                  Shown(st', [Ascii("cat"), PathTo(names + [name])]) == text)
  {
    hide Graph, Lookup, Walk, Segments, FullPath, CatOutput, Overwrite, Step, Shown, Binding, PathTo, CwdAgrees;
    var made := Step(st, Touch(name));
    TouchMakesFile(st, names, name);
    var ino := |st.store| + 1;
    FullPathExtends(names, name);
    PathCommands(made, name, PathTo(names + [name]), ino, text);
    StepKeepsCwd(made, WriteFile(name, text));
    var after := Step(made, WriteFile(name, text));
    WriteAt(made.store, ino, 0, text);
    assert after.store[ino - 1].content == text;
    WriteKeepsLookup(made.store, ino, text, PathTo(names + [name]));
    CatPrintsText(text);
    PathCommands(after, name, PathTo(names + [name]), ino, text);
    forall st': State | st'.store == after.store ensures Shown(st', [Ascii("cat"), PathTo(names + [name])]) == text {
      AbsoluteFull(st'.cwdPath, names + [name]);
      PathCommands(st', PathTo(names + [name]), PathTo(names + [name]), ino, text);
    }
  }

  lemma WriteKeepsLookup(s: Store, ino: nat, text: Text, p: Text)
    ensures Lookup(Write(s, ino, 0, text), p) == Lookup(s, p)
  {
    hide Overwrite, Walk, Segments;
    if p != [] && p != [SLASH] {
      WriteKeepsWalks(s, ino, 0, text, ROOT_INO, Take(Segments(p, 0), MAX_SEGMENTS));
    }
  }

  // ---- Lines as they are typed ----

  lemma Verbs()
    ensures CD == Ascii("cd") && MKDIR == Ascii("mkdir") && TOUCH == Ascii("touch") && RM == Ascii("rm")
    ensures WRITE == Ascii("write") && CAT == Ascii("cat")
  {
  }

  /** What a line does: the verb is its first word, a path or name the second, only 16 words count, and `write` takes
      the rest of them with single spaces. */
  lemma LineMeans(line: Text)
    ensures var ws := Tokens(line, 0);
            var words := if |ws| <= 16 then ws else ws[..16];
            && Arguments(line) == words
            && CommandOf(words) ==
               if |words| < 2 then Nothing
               else if words[0] == Ascii("cd") then Cd(words[1])
               else if words[0] == Ascii("mkdir") then Mkdir(words[1])
               else if words[0] == Ascii("touch") then Touch(words[1])
               else if words[0] == Ascii("rm") then Rm(words[1])
               else if words[0] == Ascii("write") && |words| >= 3 then WriteFile(words[1], JoinWords(words[2..]))
               else Nothing
  {
    hide Tokens, JoinWords, IsWord, Ascii;
    Verbs();
  }

  /** What a line shows of a file: a `cat` line the file that its second word names, any other line nothing. */
  lemma LineShows(st: State, line: Text)
    ensures var words := Arguments(line);
            Shown(st, words) ==
            if |words| >= 2 && words[0] == Ascii("cat") then Shown(st, [Ascii("cat"), words[1]]) else []
  {
    hide Arguments, Lookup, FullPath, CatOutput;
    CatIs();
  }

  /** A line that fits the line buffer fits the path buffers where the current path has at most 255 characters. */
  lemma ShortPathsFit(st: State, line: Text)
    requires |line| < 256 && |st.cwdPath| <= 255
    ensures LineFits(st, Arguments(line))
  {
    hide Tokens, JoinWords;
    var args, ts := Arguments(line), Tokens(line, 0);
    if |args| >= 2 {
      JoinedFits(line, 0, 1, 2);
      assert ts[1..2] == [args[1]];
      JoinOne(args[1]);
      PathLength(st.cwdPath, args[1]);
    }
  }

  lemma JoinOne(w: Text)
    ensures JoinWords([w]) == w
  {
  }

  lemma PathLength(cwd: Text, arg: Text)
    ensures |FullPath(cwd, arg)| <= |cwd| + 1 + |arg|
  {
  }

  lemma TwoWordLine(line: Text, verb: Text, arg: Text)
    requires IsWord(verb) && IsWord(arg) && line == verb + [32] + arg
    ensures Arguments(line) == [verb, arg]
  {
    hide Arguments, IsWord;
    TwoWords(verb, arg);
    assert [verb, arg][1..] == [arg];
  }

  /** A session typed at boot. */
  function SessionLines(): seq<Text> {
    [Ascii("mkdir a"), Ascii("cd a"), Ascii("touch f"), Ascii("write f hello world"), Ascii("cd /")]
  }

  lemma SessionScript()
    ensures Script(SessionLines()) ==
            [Mkdir(Ascii("a")), Cd(Ascii("a")), Touch(Ascii("f")), WriteFile(Ascii("f"), Ascii("hello world")),
             Cd(Ascii("/"))]
    ensures Arguments(Ascii("cat /a/f")) == [Ascii("cat"), Ascii("/a/f")]
  {
    hide Arguments, JoinWords;
    Verbs();
    TwoWordLine(Ascii("mkdir a"), Ascii("mkdir"), Ascii("a"));
    TwoWordLine(Ascii("cd a"), Ascii("cd"), Ascii("a"));
    TwoWordLine(Ascii("touch f"), Ascii("touch"), Ascii("f"));
    TwoWordLine(Ascii("cd /"), Ascii("cd"), Ascii("/"));
    TwoWordLine(Ascii("cat /a/f"), Ascii("cat"), Ascii("/a/f"));
    WriteLine();
  }

  lemma WriteLine()
    ensures CommandOf(Arguments(Ascii("write f hello world"))) == WriteFile(Ascii("f"), Ascii("hello world"))
  {
    hide Arguments, CommandOf, JoinWords, Ascii, IsWord;
    var w, f, h, d := Ascii("write"), Ascii("f"), Ascii("hello"), Ascii("world");
    FourWords(w, f, h, d);
    WriteWords();
    Spelled();
    Verbs();
    TokensOfJoined([w, f, h, d], []);
    assert [] + JoinWords([w, f, h, d]) == JoinWords([w, f, h, d]);
    LineMeans(JoinWords([w, f, h, d]));
  }

  lemma WriteWords()
    ensures IsWord(Ascii("write")) && IsWord(Ascii("f")) && IsWord(Ascii("hello")) && IsWord(Ascii("world"))
    ensures Ascii("write") !in {Ascii("cd"), Ascii("mkdir"), Ascii("touch"), Ascii("rm")}
  {
    assert Ascii("write")[0] == 119 && Ascii("cd")[0] == 99 && Ascii("mkdir")[0] == 109;
    assert Ascii("touch")[0] == 116 && Ascii("rm")[0] == 114;
  }

  lemma Spelled()
    ensures Ascii("hello") + [32] + Ascii("world") == Ascii("hello world")
    ensures Ascii("write") + [32] + Ascii("f") + [32] + Ascii("hello") + [32] + Ascii("world") ==
            Ascii("write f hello world")
  {
  }

  lemma FourWords(w: Text, f: Text, h: Text, d: Text)
    ensures JoinWords([w, f, h, d]) == w + [32] + f + [32] + h + [32] + d
    ensures [w, f, h, d][2..] == [h, d] && JoinWords([h, d]) == h + [32] + d
  {
    hide JoinWords;
    assert [w, f, h, d] == [w, f, h] + [d] && [w, f, h] == [w, f] + [h] && [w, f] == [w] + [f] && [w] == [] + [w];
    assert [h, d] == [h] + [d] && [h] == [] + [h];
    JoinSnoc([w, f, h], d); JoinSnoc([w, f], h); JoinSnoc([w], f); JoinSnoc([], w);
    JoinSnoc([h], d); JoinSnoc([], h);
  }

  lemma RunFive(st: State, a: Command, b: Command, c: Command, d: Command, e: Command)
    ensures Run(st, [a, b, c, d, e]) == Step(Step(Step(Step(Step(st, a), b), c), d), e)
  {
    hide Step;
    assert [a, b, c, d, e] == [a, b, c, d] + [e] && [a, b, c, d] == [a, b, c] + [d];
    assert [a, b, c] == [a, b] + [c] && [a, b] == [a] + [b] && [a] == [] + [a];
    RunSnoc(st, [a, b, c, d], e); RunSnoc(st, [a, b, c], d); RunSnoc(st, [a, b], c); RunSnoc(st, [a], b);
    RunSnoc(st, [], a);
  }

  /** The same commands with any names: a directory, a file in it, and back to the root. */
  lemma SessionRun(dir: Text, name: Text, text: Text, st: State)
    requires SlashFree(dir) && 1 <= |dir| <= 254 && SlashFree(name) && 1 <= |name| <= 254
    requires st == Run(BOOT_STATE, [Mkdir(dir), Cd(dir), Touch(name), WriteFile(name, text), Cd([47])])
    ensures st.cwdPath == [47] && st.cwdIno == 1 && |st.store| == 3 && st.store[2] == File(text)
    ensures Shown(st, [Ascii("cat"), [47] + dir + [47] + name]) == text
  {
    hide Step, Shown, CwdAgrees, Lookup, Walk, Run, FullPath;
    RunFive(BOOT_STATE, Mkdir(dir), Cd(dir), Touch(name), WriteFile(name, text), Cd([47]));
    BootState();
    GoDown(BOOT_STATE, [], dir);
    assert [] + [dir] == [dir] && [dir] + [name] == [dir, name];
    var down := Step(Step(BOOT_STATE, Mkdir(dir)), Cd(dir));
    TouchWriteCat(down, [dir], name, text);
    var after := Step(Step(down, Touch(name)), WriteFile(name, text));
    TwoComponents(dir, name);
    AbsoluteFull(after.cwdPath, []);
    LookupSteps(after.store, [], dir);
    PathCommands(after, [47], [47], 1, []);
    RootIsDir(after);
  }

  lemma TwoComponents(dir: Text, name: Text)
    ensures PathTo([dir, name]) == [47] + dir + [47] + name
  {
    hide Join;
    assert [dir] + [name] == [dir, name] && [name] + [] == [name];
    JoinCons(dir, [name]);
    JoinCons(name, []);
  }

  lemma RootIsDir(st: State)
    requires CwdAgrees(st)
    ensures IsDir(st.store, 1)
  {
    hide Lookup;
  }

  /** Directory, file and text are where the session put them: typed at the root, `cat /a/f` shows the text. */
  lemma Session()
    ensures var st := Run(BOOT_STATE, Script(SessionLines()));
            && st.cwdPath == Ascii("/") && st.cwdIno == 1
            && |st.store| == 3 && st.store[2] == File(Ascii("hello world"))
            && Shown(st, Arguments(Ascii("cat /a/f"))) == Ascii("hello world")
  {
    hide Run, Shown, Script, Arguments, SessionLines;
    SessionScript();
    assert Ascii("/") == [47];
    assert [47] + Ascii("a") + [47] + Ascii("f") == Ascii("/a/f");
    SessionRun(Ascii("a"), Ascii("f"), Ascii("hello world"), Run(BOOT_STATE, Script(SessionLines())));
  }
}
