/** The filesystem as a value: numbered nodes, directories of named entries, and path resolution. */
module Store {
  import opened CStrings

  const ROOT_INO: nat := 1
  const INVALID_INO: nat := 0
  const MAX_SIZE: nat := 255
  const MAX_SEGMENTS: nat := 16

  datatype Entry = Entry(name: Text, ino: nat)

  /** `Special` is an inode whose type byte is neither 1 (file) nor 2 (directory). */
  datatype Node = File(content: seq<byte>) | Dir(entries: seq<Entry>) | Special(kind: byte)

  /** Inode number `k` is at index `k - 1`. */
  type Store = seq<Node>

  predicate Listed(s: Store, ino: nat) {
    1 <= ino <= |s|
  }

  predicate IsDir(s: Store, ino: nat) {
    Listed(s, ino) && s[ino - 1].Dir?
  }

  /** Index of the first entry called `name` at or after `i`, or the number of entries. */
  function Find(es: seq<Entry>, name: Text, i: nat): (r: nat)
    requires i <= |es|
    ensures i <= r <= |es|
    ensures r < |es| ==> es[r].name == name
    ensures forall j :: i <= j < r ==> es[j].name != name
    decreases |es| - i
  {
    if i == |es| || es[i].name == name then i else Find(es, name, i + 1)
  }

  lemma FindIs(es: seq<Entry>, name: Text, j: nat)
    requires j <= |es| && (forall i :: 0 <= i < j ==> es[i].name != name) && (j < |es| ==> es[j].name == name)
    ensures Find(es, name, 0) == j
  {
  }

  // ---- Operations ----

  function NewNode(kind: byte): Node {
    if kind == 1 then File([]) else if kind == 2 then Dir([]) else Special(kind)
  }

  predicate GoodName(name: Text) {
    name != [] && |name| < MAX_SIZE
  }

  predicate CanCreate(s: Store, parent: nat, name: Text) {
    IsDir(s, parent) && GoodName(name) && Find(s[parent - 1].entries, name, 0) == |s[parent - 1].entries|
  }

  /** `fs_create`: the new inode number, or `INVALID_INO` with the store unchanged. */
  function Create(s: Store, parent: nat, name: Text, kind: byte): (nat, Store) {
    if !CanCreate(s, parent, name) then (INVALID_INO, s) else
      var ino := |s| + 1;
      (ino, s[parent - 1 := Dir(s[parent - 1].entries + [Entry(name, ino)])] + [NewNode(kind)])
  }

  /** Swap-last removal. */
  function RemoveAt(es: seq<Entry>, i: nat): seq<Entry>
    requires i < |es|
  {
    es[i := es[|es| - 1]][..|es| - 1]
  }

  predicate CanUnlink(s: Store, parent: nat, name: Text) {
    IsDir(s, parent) &&
    var es := s[parent - 1].entries;
    var i := Find(es, name, 0);
    i < |es| && Listed(s, es[i].ino) && !(s[es[i].ino - 1].Dir? && s[es[i].ino - 1].entries != [])
  }

  /** `fs_unlink`: success, or failure with the store unchanged. */
  function Unlink(s: Store, parent: nat, name: Text): (bool, Store) {
    if !CanUnlink(s, parent, name) then (false, s) else
      var es := s[parent - 1].entries;
      (true, s[parent - 1 := Dir(RemoveAt(es, Find(es, name, 0)))])
  }

  function Zeros(n: nat): seq<byte> {
    seq(n, _ => 0)
  }

  /** Zero-extend to cover the written range, then splice the bytes in. */
  function Overwrite(content: seq<byte>, offset: nat, bytes: seq<byte>): seq<byte> {
    var e := offset + |bytes|;
    var base := if e > |content| then content + Zeros(e - |content|) else content;
    base[..offset] + bytes + base[e..]
  }

  /** Byte by byte: the written range, the old content around it, and zeros in a gap. */
  lemma OverwriteAt(content: seq<byte>, offset: nat, bytes: seq<byte>)
    ensures var r := Overwrite(content, offset, bytes);
            && |r| == (if offset + |bytes| > |content| then offset + |bytes| else |content|)
            && forall i :: 0 <= i < |r| ==>
                 r[i] == if offset <= i < offset + |bytes| then bytes[i - offset]
                         else if i < |content| then content[i] else 0
  {
  }

  predicate IsFile(s: Store, ino: nat) {
    Listed(s, ino) && s[ino - 1].File?
  }

  /** `fs_write` on a regular file. */
  function Write(s: Store, ino: nat, offset: nat, bytes: seq<byte>): Store {
    if IsFile(s, ino) then s[ino - 1 := File(Overwrite(s[ino - 1].content, offset, bytes))] else s
  }

  /** A write changes the content of that one file, byte by byte as it says, and of nothing that is not a file. */
  lemma WriteAt(s: Store, ino: nat, offset: nat, bytes: seq<byte>)
    ensures var s' := Write(s, ino, offset, bytes);
            && |s'| == |s| && (forall k :: 0 <= k < |s| && k != ino - 1 ==> s'[k] == s[k])
            && (!IsFile(s, ino) ==> s' == s)
            && (IsFile(s, ino) ==>
                  && s'[ino - 1].File?
                  && var old_, new_ := s[ino - 1].content, s'[ino - 1].content;
                     && |new_| == (if offset + |bytes| > |old_| then offset + |bytes| else |old_|)
                     && forall i :: 0 <= i < |new_| ==>
                          new_[i] == if offset <= i < offset + |bytes| then bytes[i - offset]
                                     else if i < |old_| then old_[i] else 0)
  {
    hide Overwrite;
    if IsFile(s, ino) { OverwriteAt(s[ino - 1].content, offset, bytes); }
  }

  // ---- Path resolution ----

  /** First position at or after `i` that holds a slash or ends the path. */
  function SegmentEnd(p: Text, i: nat): (e: nat)
    requires i <= |p|
    ensures i <= e <= |p|
    ensures forall j :: i <= j < e ==> p[j] != SLASH
    ensures e < |p| ==> p[e] == SLASH
    decreases |p| - i
  {
    if i == |p| || p[i] == SLASH then i else SegmentEnd(p, i + 1)
  }

  /** Segments of the path from position `i`, whose character there (the slash) is skipped. */
  function Segments(p: Text, i: nat): seq<Text>
    requires i <= |p|
    decreases |p| - i
  {
    if i == |p| then [] else
      var e := SegmentEnd(p, i + 1);
      [p[i + 1..e]] + Segments(p, e)
  }

  /** End position of each of those segments. */
  function Ends(p: Text, i: nat): seq<nat>
    requires i <= |p|
    decreases |p| - i
  {
    if i == |p| then [] else [SegmentEnd(p, i + 1)] + Ends(p, SegmentEnd(p, i + 1))
  }

  /** The ends delimit the segments: each starts one past the previous end. */
  lemma {:induction false} EndsDelimit(p: Text, i: nat, j: nat)
    requires i <= |p| && j < |Ends(p, i)|
    ensures |Ends(p, i)| == |Segments(p, i)|
    ensures var start := (if j == 0 then i else Ends(p, i)[j - 1]) + 1;
            start <= Ends(p, i)[j] <= |p| && Segments(p, i)[j] == p[start..Ends(p, i)[j]]
    decreases |p| - i
  {
    var e := SegmentEnd(p, i + 1);
    if j > 0 {
      EndsDelimit(p, e, j - 1);
    } else if e < |p| {
      EndsDelimit(p, e, 0);
    }
  }

  lemma EndsStep(p: Text, i: nat)
    requires i < |p|
    ensures Ends(p, i) == [SegmentEnd(p, i + 1)] + Ends(p, SegmentEnd(p, i + 1)) && Ends(p, |p|) == []
  {
  }

  lemma TakeIs<T>(all: seq<T>, pre: seq<T>, rest: seq<T>, n: nat)
    requires all == pre + rest && |pre| <= n && (rest == [] || |pre| == n)
    ensures Take(all, n) == pre
  {
  }

  function Take<T>(xs: seq<T>, n: nat): seq<T> {
    if |xs| <= n then xs else xs[..n]
  }

  /** Follow `names` from inode `ino`; `INVALID_INO` when a name is missing or a non-directory is crossed. */
  function Walk(s: Store, ino: nat, names: seq<Text>): nat
    decreases |names|
  {
    if names == [] then ino
    else if !IsDir(s, ino) then INVALID_INO
    else
      var es := s[ino - 1].entries;
      var j := Find(es, names[0], 0);
      if j == |es| then INVALID_INO else Walk(s, es[j].ino, names[1..])
  }

  /** `fs_lookup`: only the first 16 segments count. */
  function Lookup(s: Store, p: Text): nat {
    if p == [] then INVALID_INO
    else if p == [SLASH] then ROOT_INO
    else if s == [] then INVALID_INO
    else Walk(s, ROOT_INO, Take(Segments(p, 0), MAX_SEGMENTS))
  }

  // ---- The shape every run keeps ----

  /** Number that entry `i` of node `k` names, or 0. */
  function Child(s: Store, k: nat, i: nat): nat {
    if k < |s| && s[k].Dir? && i < |s[k].entries| then s[k].entries[i].ino else 0
  }

  ghost predicate GoodEntries(es: seq<Entry>, k: nat, n: nat) {
    && (forall i :: 0 <= i < |es| ==> GoodName(es[i].name) && k + 1 < es[i].ino <= n)
    && (forall i, j :: 0 <= i < j < |es| ==> es[i].name != es[j].name)
  }

  /** Every entry names a listed inode with a larger number than its directory, names within a directory are
      distinct and legal, and no inode has two entries in the whole store: the directories form a forest. */
  ghost predicate Graph(s: Store) {
    && s != [] && s[0].Dir?
    && (forall k :: 0 <= k < |s| && s[k].Dir? ==> GoodEntries(s[k].entries, k, |s|))
    && OneParent(s)
  }

  ghost predicate OneParent(s: Store) {
    forall k1: nat, i1: nat, k2: nat, i2: nat ::
      Child(s, k1, i1) != 0 && Child(s, k1, i1) == Child(s, k2, i2) ==> k1 == k2 && i1 == i2
  }

  lemma CreateKeepsGraph(s: Store, parent: nat, name: Text, kind: byte)
    requires Graph(s)
    ensures Graph(Create(s, parent, name, kind).1)
  {
    if CanCreate(s, parent, name) {
      var s' := Create(s, parent, name, kind).1;
      var es := s[parent - 1].entries;
      var ino := |s| + 1;
      forall k | 0 <= k < |s'| && s'[k].Dir? ensures GoodEntries(s'[k].entries, k, |s'|) {
        if k < |s| { assert GoodEntries(s[k].entries, k, |s|); }
      }
      forall k: nat, i: nat ensures Child(s', k, i) == if k == parent - 1 && i == |es| then ino else Child(s, k, i) {}
      forall k: nat, i: nat ensures Child(s, k, i) < ino {
        if Child(s, k, i) != 0 { assert GoodEntries(s[k].entries, k, |s|); }
      }
    }
  }

  lemma RemovalKeepsEntries(es: seq<Entry>, k: nat, n: nat, i: nat)
    requires GoodEntries(es, k, n) && i < |es|
    ensures GoodEntries(RemoveAt(es, i), k, n)
  {
  }

  lemma UnlinkKeepsParents(s: Store, parent: nat, name: Text)
    requires OneParent(s) && CanUnlink(s, parent, name)
    ensures OneParent(Unlink(s, parent, name).1)
  {
    var s' := Unlink(s, parent, name).1;
    var es := s[parent - 1].entries;
    var i0 := Find(es, name, 0);
    forall k1: nat, i1: nat, k2: nat, i2: nat
      | Child(s', k1, i1) != 0 && Child(s', k1, i1) == Child(s', k2, i2)
      ensures k1 == k2 && i1 == i2
    {
      var j1 := if k1 == parent - 1 && i1 == i0 then |es| - 1 else i1;
      var j2 := if k2 == parent - 1 && i2 == i0 then |es| - 1 else i2;
      assert Child(s, k1, j1) == Child(s, k2, j2) == Child(s', k1, i1);
    }
  }

  lemma UnlinkKeepsGraph(s: Store, parent: nat, name: Text)
    requires Graph(s)
    ensures Graph(Unlink(s, parent, name).1)
  {
    hide OneParent, GoodEntries, RemoveAt;
    if CanUnlink(s, parent, name) {
      var s' := Unlink(s, parent, name).1;
      var es := s[parent - 1].entries;
      UnlinkKeepsParents(s, parent, name);
      forall k | 0 <= k < |s'| && s'[k].Dir? ensures GoodEntries(s'[k].entries, k, |s'|) {
        assert GoodEntries(s[k].entries, k, |s|);
        if k == parent - 1 { RemovalKeepsEntries(es, k, |s|, Find(es, name, 0)); }
      }
    }
  }

  lemma WriteKeepsGraph(s: Store, ino: nat, offset: nat, bytes: seq<byte>)
    requires Graph(s)
    ensures Graph(Write(s, ino, offset, bytes))
  {
    var s' := Write(s, ino, offset, bytes);
    forall k | 0 <= k < |s'| && s'[k].Dir? ensures GoodEntries(s'[k].entries, k, |s'|) {
      assert GoodEntries(s[k].entries, k, |s|);
    }
    forall k: nat, i: nat ensures Child(s', k, i) == Child(s, k, i) {}
  }

  // ---- What resolution sees of the operations ----

  lemma {:induction false} WalkAppend(s: Store, ino: nat, a: seq<Text>, b: seq<Text>)
    requires Walk(s, ino, a) != INVALID_INO
    ensures Walk(s, ino, a + b) == Walk(s, Walk(s, ino, a), b)
    decreases |a|
  {
    if a == [] {
      assert a + b == b;
    } else {
      var es := s[ino - 1].entries;
      WalkAppend(s, es[Find(es, a[0], 0)].ino, a[1..], b);
      assert (a + b)[1..] == a[1..] + b;
    }
  }

  /** In a forest every step goes to a larger inode number. */
  lemma {:induction false} WalkAscends(s: Store, ino: nat, names: seq<Text>)
    requires Graph(s) && Listed(s, ino) && Walk(s, ino, names) != INVALID_INO
    ensures ino <= Walk(s, ino, names) <= |s|
    ensures names != [] ==> ino < Walk(s, ino, names)
    decreases |names|
  {
    if names != [] {
      var es := s[ino - 1].entries;
      assert GoodEntries(es, ino - 1, |s|);
      WalkAscends(s, es[Find(es, names[0], 0)].ino, names[1..]);
    }
  }

  lemma FindInLonger(es: seq<Entry>, e: Entry, name: Text)
    ensures Find(es + [e], name, 0) ==
            if Find(es, name, 0) < |es| then Find(es, name, 0)
            else if e.name == name then |es| else |es| + 1
  {
    var es' := es + [e];
    var r, r' := Find(es, name, 0), Find(es', name, 0);
    assert r < |es| ==> es'[r] == es[r];
    assert r' < |es| ==> es'[r'] == es[r'];
    assert es'[|es|] == e;
  }

  /** Whatever resolved before a creation resolves to the same inode after it. */
  lemma {:induction false} CreateKeepsWalks(s: Store, parent: nat, name: Text, kind: byte, ino: nat, names: seq<Text>)
    requires Graph(s) && Listed(s, ino) && Walk(s, ino, names) != INVALID_INO
    ensures Walk(Create(s, parent, name, kind).1, ino, names) == Walk(s, ino, names)
    decreases |names|
  {
    if names != [] && CanCreate(s, parent, name) {
      var es := s[ino - 1].entries;
      assert GoodEntries(es, ino - 1, |s|);
      FindInLonger(es, Entry(name, |s| + 1), names[0]);
      CreateKeepsWalks(s, parent, name, kind, es[Find(es, names[0], 0)].ino, names[1..]);
    }
  }

  /** A successful creation makes the new name resolve to the new inode, below every path to the parent. */
  lemma CreateResolves(s: Store, parent: nat, name: Text, kind: byte, names: seq<Text>)
    requires Graph(s) && CanCreate(s, parent, name) && Walk(s, ROOT_INO, names) == parent
    ensures var (ino, s') := Create(s, parent, name, kind);
            ino != INVALID_INO && Walk(s', ROOT_INO, names + [name]) == ino
  {
    var (ino, s') := Create(s, parent, name, kind);
    CreateKeepsWalks(s, parent, name, kind, ROOT_INO, names);
    WalkAppend(s', ROOT_INO, names, [name]);
    var es := s[parent - 1].entries;
    FindInLonger(es, Entry(name, ino), name);
    assert Walk(s', ino, []) == ino;
  }

  /** The walk for `names` uses the entry `name` of directory `parent`. */
  predicate Traverses(s: Store, ino: nat, names: seq<Text>, parent: nat, name: Text)
    decreases |names|
  {
    names != [] && IsDir(s, ino) &&
    var es := s[ino - 1].entries;
    var j := Find(es, names[0], 0);
    ((ino == parent && names[0] == name)
     || (j < |es| && Traverses(s, es[j].ino, names[1..], parent, name)))
  }

  /** With distinct names, finding a name finds its only position. */
  lemma FindUnique(es: seq<Entry>, k: nat, n: nat, i: nat)
    requires GoodEntries(es, k, n) && i < |es|
    ensures Find(es, es[i].name, 0) == i
  {
  }

  lemma FindAfterRemoval(es: seq<Entry>, k: nat, n: nat, i: nat, name: Text)
    requires GoodEntries(es, k, n) && i < |es| && GoodEntries(RemoveAt(es, i), k, n)
    ensures var r := RemoveAt(es, i);
            && (name == es[i].name ==> Find(r, name, 0) == |r|)
            && (name != es[i].name && Find(es, name, 0) == |es| ==> Find(r, name, 0) == |r|)
            && (name != es[i].name && Find(es, name, 0) < |es| ==>
                  Find(r, name, 0) < |r| && r[Find(r, name, 0)] == es[Find(es, name, 0)])
  {
    var r := RemoveAt(es, i);
    var j := Find(es, name, 0);
    forall q | 0 <= q < |r| ensures r[q] == es[if q == i then |es| - 1 else q] {}
    if name != es[i].name && j < |es| {
      var q := if j == |es| - 1 then i else j;
      assert r[q] == es[j];
      FindUnique(r, k, n, q);
    }
  }

  /** Removing one name cuts exactly the paths through it: they stop resolving and all others keep their result. */
  lemma {:induction false} UnlinkCutsOnly(s: Store, parent: nat, name: Text, ino: nat, names: seq<Text>)
    requires Graph(s) && CanUnlink(s, parent, name) && Listed(s, ino)
    ensures var s' := Unlink(s, parent, name).1;
            Walk(s', ino, names) ==
              if Traverses(s, ino, names, parent, name) then INVALID_INO else Walk(s, ino, names)
    decreases |names|
  {
    var s' := Unlink(s, parent, name).1;
    UnlinkKeepsGraph(s, parent, name);
    if names != [] && IsDir(s, ino) {
      var es := s[ino - 1].entries;
      assert GoodEntries(es, ino - 1, |s|);
      var j := Find(es, names[0], 0);
      if ino == parent {
        assert GoodEntries(s'[ino - 1].entries, ino - 1, |s|);
        FindAfterRemoval(es, ino - 1, |s|, Find(es, name, 0), names[0]);
      }
      if j < |es| { UnlinkCutsOnly(s, parent, name, es[j].ino, names[1..]); }
    }
  }

  /** The path that leads to a directory does not use that directory's own entries. */
  lemma {:induction false} PathToDirAvoidsIt(s: Store, ino: nat, names: seq<Text>, parent: nat, name: Text)
    requires Graph(s) && Listed(s, ino) && Walk(s, ino, names) == parent && parent != INVALID_INO
    ensures !Traverses(s, ino, names, parent, name)
    decreases |names|
  {
    if names != [] {
      WalkAscends(s, ino, names);
      var es := s[ino - 1].entries;
      assert GoodEntries(es, ino - 1, |s|);
      PathToDirAvoidsIt(s, es[Find(es, names[0], 0)].ino, names[1..], parent, name);
    }
  }

  /** Resolution depends on the directories only. */
  lemma {:induction false} WriteKeepsWalks(s: Store, file: nat, offset: nat, bytes: seq<byte>, ino: nat,
                                           names: seq<Text>)
    ensures Walk(Write(s, file, offset, bytes), ino, names) == Walk(s, ino, names)
    decreases |names|
  {
    if names != [] && IsDir(s, ino) {
      var es := s[ino - 1].entries;
      var j := Find(es, names[0], 0);
      if j < |es| { WriteKeepsWalks(s, file, offset, bytes, es[j].ino, names[1..]); }
    }
  }

  // ---- Directories as finite maps ----

  /** The inode that `name` is bound to in a directory, or `INVALID_INO`. */
  function Binding(s: Store, dir: nat, name: Text): nat {
    if IsDir(s, dir) && Find(s[dir - 1].entries, name, 0) < |s[dir - 1].entries|
    then s[dir - 1].entries[Find(s[dir - 1].entries, name, 0)].ino
    else INVALID_INO
  }

  /** Creation succeeds exactly for an unbound name of 1 to 254 characters in a directory; it then adds one binding, to
      an inode number never used before and a new empty node of the kind asked for, and changes no other binding and no
      other node. */
  lemma CreateAddsOneBinding(s: Store, parent: nat, name: Text, kind: byte)
    requires Graph(s)
    ensures var (ino, s') := Create(s, parent, name, kind);
            && (ino != 0 <==> IsDir(s, parent) && 1 <= |name| <= 254 && Binding(s, parent, name) == 0)
            && (ino == 0 ==> s' == s)
            && (ino != 0 ==>
                  && ino == |s| + 1 == |s'|
                  && s'[ino - 1] == (if kind == 1 then File([]) else if kind == 2 then Dir([]) else Special(kind))
                  && s'[parent - 1] == Dir(s[parent - 1].entries + [Entry(name, ino)])
                  && (forall k :: 0 <= k < |s| && k != parent - 1 ==> s'[k] == s[k])
                  && (forall d: nat, n: Text ::
                        Binding(s', d, n) == if d == parent && n == name then ino else Binding(s, d, n)))
  {
    var (ino, s') := Create(s, parent, name, kind);
    if IsDir(s, parent) { assert GoodEntries(s[parent - 1].entries, parent - 1, |s|); }
    if ino != INVALID_INO {
      forall d: nat, n: Text ensures Binding(s', d, n) == if d == parent && n == name then ino else Binding(s, d, n) {
        if d == parent { FindInLonger(s[parent - 1].entries, Entry(name, ino), n); }
      }
    }
  }

  /** Removal succeeds exactly for a bound name whose inode is not a non-empty directory; it then removes that
      one binding, moves the last entry into its place, and changes no other binding and no other node. */
  lemma UnlinkRemovesOneBinding(s: Store, parent: nat, name: Text)
    requires Graph(s)
    ensures var (ok, s') := Unlink(s, parent, name);
            var child := Binding(s, parent, name);
            && (ok <==> child != 0 && !(IsDir(s, child) && s[child - 1].entries != []))
            && (!ok ==> s' == s)
            && (ok ==>
                  && |s'| == |s| && IsDir(s, parent) && s'[parent - 1].Dir?
                  && (var es, es' := s[parent - 1].entries, s'[parent - 1].entries;
                      && |es'| == |es| - 1
                      && forall q :: 0 <= q < |es'| ==> es'[q] == if es[q].name == name then es[|es| - 1] else es[q])
                  && (forall k :: 0 <= k < |s| && k != parent - 1 ==> s'[k] == s[k])
                  && (forall d: nat, n: Text ::
                        Binding(s', d, n) == if d == parent && n == name then 0 else Binding(s, d, n)))
  {
    var (ok, s') := Unlink(s, parent, name);
    if IsDir(s, parent) { assert GoodEntries(s[parent - 1].entries, parent - 1, |s|); }
    if ok {
      var es := s[parent - 1].entries;
      UnlinkKeepsGraph(s, parent, name);
      assert GoodEntries(s'[parent - 1].entries, parent - 1, |s|);
      forall d: nat, n: Text
        ensures Binding(s', d, n) == if d == parent && n == name then INVALID_INO else Binding(s, d, n)
      {
        if d == parent { FindAfterRemoval(es, parent - 1, |s|, Find(es, name, 0), n); }
      }
    }
  }

  // ---- Runs ----

  datatype Op = OpCreate(parent: nat, name: Text, kind: byte) | OpUnlink(parent: nat, name: Text)
              | OpWrite(ino: nat, offset: nat, bytes: seq<byte>)

  function Apply(s: Store, op: Op): Store {
    match op
    case OpCreate(parent, name, kind) => Create(s, parent, name, kind).1
    case OpUnlink(parent, name) => Unlink(s, parent, name).1
    case OpWrite(ino, offset, bytes) => Write(s, ino, offset, bytes)
  }

  /** What the call returns: the new inode number, 0 or -1, the number of bytes written or -1. */
  function Outcome(s: Store, op: Op): int {
    match op
    case OpCreate(parent, name, kind) => Create(s, parent, name, kind).0
    case OpUnlink(parent, name) => if Unlink(s, parent, name).0 then 0 else -1
    case OpWrite(ino, offset, bytes) => if IsFile(s, ino) then |bytes| else -1
  }

  function Outcomes(s: Store, ops: seq<Op>): seq<int>
    decreases |ops|
  {
    if ops == [] then [] else [Outcome(s, ops[0])] + Outcomes(Apply(s, ops[0]), ops[1..])
  }

  function ApplyAll(s: Store, ops: seq<Op>): Store
    decreases |ops|
  {
    if ops == [] then s else ApplyAll(Apply(s, ops[0]), ops[1..])
  }

  ghost predicate KindsKept(s: Store, s': Store) {
    |s'| >= |s| && forall k :: 0 <= k < |s| ==> (s'[k].Dir? <==> s[k].Dir?) && (s'[k].File? <==> s[k].File?)
  }

  lemma ApplyKeepsGraph(s: Store, op: Op)
    requires Graph(s)
    ensures Graph(Apply(s, op)) && KindsKept(s, Apply(s, op))
  {
    match op
    case OpCreate(parent, name, kind) => CreateKeepsGraph(s, parent, name, kind);
    case OpUnlink(parent, name) => UnlinkKeepsGraph(s, parent, name);
    case OpWrite(ino, offset, bytes) => WriteKeepsGraph(s, ino, offset, bytes);
  }

  /** After any run from the freshly initialised store the directories form a forest, and no inode number
      ever changes its kind. */
  lemma {:induction false} RunsKeepGraph(s: Store, ops: seq<Op>)
    requires Graph(s)
    ensures Graph(ApplyAll(s, ops)) && KindsKept(s, ApplyAll(s, ops))
    decreases |ops|
  {
    hide Apply, Graph;
    if ops != [] {
      ApplyKeepsGraph(s, ops[0]);
      RunsKeepGraph(Apply(s, ops[0]), ops[1..]);
    }
  }

  /** Calls take effect and return one after the other: a run is its first part followed by the rest from there. */
  lemma {:induction false} RunsInOrder(s: Store, a: seq<Op>, b: seq<Op>)
    ensures ApplyAll(s, a + b) == ApplyAll(ApplyAll(s, a), b)
    ensures Outcomes(s, a + b) == Outcomes(s, a) + Outcomes(ApplyAll(s, a), b)
    decreases |a|
  {
    hide Apply, Outcome;
    if a == [] {
      assert a + b == b;
    } else {
      assert (a + b)[1..] == a[1..] + b && (a + b)[0] == a[0];
      RunsInOrder(Apply(s, a[0]), a[1..], b);
    }
  }

  /** A run of one call: creation and removal as on the store, a write as it says; the number created or 0, success as 0
      and failure as -1, the number of bytes written or -1. */
  lemma RunOfOne(s: Store, parent: nat, name: Text, kind: byte, offset: nat, bytes: seq<byte>)
    ensures var (ino, s') := Create(s, parent, name, kind);
            ApplyAll(s, [OpCreate(parent, name, kind)]) == s' && Outcomes(s, [OpCreate(parent, name, kind)]) == [ino]
    ensures var (ok, s') := Unlink(s, parent, name);
            && ApplyAll(s, [OpUnlink(parent, name)]) == s'
            && Outcomes(s, [OpUnlink(parent, name)]) == [if ok then 0 else -1]
    ensures ApplyAll(s, [OpWrite(parent, offset, bytes)]) == Write(s, parent, offset, bytes)
    ensures Outcomes(s, [OpWrite(parent, offset, bytes)]) == [if IsFile(s, parent) then |bytes| else -1]
  {
    hide Create, Unlink, Write;
    FirstOfRun(s, OpCreate(parent, name, kind));
    FirstOfRun(s, OpUnlink(parent, name));
    FirstOfRun(s, OpWrite(parent, offset, bytes));
  }

  lemma FirstOfRun(s: Store, op: Op)
    ensures ApplyAll(s, [op]) == Apply(s, op) && Outcomes(s, [op]) == [Outcome(s, op)]
  {
    hide Apply, Outcome;
    assert [op][1..] == [];
    assert ApplyAll(Apply(s, op), []) == Apply(s, op) && Outcomes(Apply(s, op), []) == [];
  }

  lemma FreshStoreIsGood()
    ensures Graph([Dir([])])
  {
    forall k: nat, i: nat ensures Child([Dir([])], k, i) == 0 {}
  }

  // ---- Paths and their segments ----

  predicate SlashFree(name: Text) {
    forall i :: 0 <= i < |name| ==> name[i] != SLASH
  }

  /** `/a/b/c` for the components `a`, `b`, `c`. */
  function Join(names: seq<Text>): Text {
    if names == [] then [] else [SLASH] + names[0] + Join(names[1..])
  }

  lemma {:induction false} SegmentEndIs(p: Text, i: nat, e: nat)
    requires i <= e <= |p| && (forall j :: i <= j < e ==> p[j] != SLASH) && (e < |p| ==> p[e] == SLASH)
    ensures SegmentEnd(p, i) == e
    decreases e - i
  {
    if i < e { SegmentEndIs(p, i + 1, e); }
  }

  lemma FirstSegment(pre: Text, name: Text, rest: Text)
    requires SlashFree(name) && (rest != [] ==> rest[0] == SLASH)
    ensures Segments(pre + [SLASH] + name + rest, |pre|) ==
            [name] + Segments(pre + [SLASH] + name + rest, |pre + [SLASH] + name|)
  {
    var p := pre + [SLASH] + name + rest;
    var i, e := |pre| + 1, |pre + [SLASH] + name|;
    assert forall j :: i <= j < e ==> p[j] == name[j - i];
    SegmentEndIs(p, i, e);
    assert p[i..e] == name;
  }

  lemma NoSegments(p: Text)
    ensures Segments(p, |p|) == []
  {
  }

  /** Parsing a joined path gives its components back, from any offset. */
  lemma {:induction false} SegmentsOfJoin(pre: Text, names: seq<Text>)
    requires forall k :: 0 <= k < |names| ==> SlashFree(names[k])
    ensures Segments(pre + Join(names), |pre|) == names
    decreases |names|
  {
    hide Segments, SlashFree;
    var p := pre + Join(names);
    NoSegments(p);
    if names != [] {
      var pre' := pre + [SLASH] + names[0];
      FirstSegment(pre, names[0], Join(names[1..]));
      assert p == pre' + Join(names[1..]);
      SegmentsOfJoin(pre', names[1..]);
    }
  }

  /** The absolute path of a component list; the root is a single slash. */
  function PathTo(names: seq<Text>): Text {
    if names == [] then [SLASH] else Join(names)
  }

  ghost predicate Components(names: seq<Text>) {
    forall k :: 0 <= k < |names| ==> SlashFree(names[k]) && names[k] != []
  }

  lemma SegmentsStep(p: Text, i: nat)
    requires i < |p|
    ensures var e := SegmentEnd(p, i + 1);
            Segments(p, i) == [p[i + 1..e]] + Segments(p, e) && Segments(p, |p|) == []
  {
  }

  lemma JoinCons(name: Text, rest: seq<Text>)
    ensures Join([name] + rest) == [47] + name + Join(rest) && Join([]) == []
  {
    assert ([name] + rest)[1..] == rest;
  }

  /** Joining the segments gives the path back, except that its first character is taken for a slash. */
  lemma {:induction false} JoinOfSegments(p: Text, i: nat)
    requires i < |p|
    ensures Join(Segments(p, i)) == [47] + p[i + 1..] && Segments(p, i) != []
    decreases |p| - i
  {
    hide Segments, Join;
    var e := SegmentEnd(p, i + 1);
    SegmentsStep(p, i);
    JoinCons(p[i + 1..e], Segments(p, e));
    if e < |p| {
      JoinOfSegments(p, e);
      assert p[i + 1..] == p[i + 1..e] + ([47] + p[e + 1..]);
    } else {
      assert p[i + 1..] == p[i + 1..e];
    }
  }

  /** So the segments of a path are the only slash-free components that join to it. */
  lemma SegmentsAre(p: Text, names: seq<Text>)
    requires p != [] && (forall k :: 0 <= k < |names| ==> SlashFree(names[k])) && Join(names) == [47] + p[1..]
    ensures Segments(p, 0) == names
  {
    hide Segments, Join;
    SegmentsOfJoin([], names);
    assert [] + Join(names) == Join(names);
    JoinOfSegments(p, 0);
    SegmentsSlashFree(p, 0);
    SegmentsOfJoin([], Segments(p, 0));
    assert [] + Join(Segments(p, 0)) == Join(Segments(p, 0));
  }

  /** The components that a lookup follows. */
  function First16(names: seq<Text>): seq<Text> {
    if |names| <= 16 then names else names[..16]
  }

  /** Looking up any path but the bare root walks its first 16 components from the root, empty ones included. */
  lemma LookupAny(s: Store, p: Text, names: seq<Text>)
    requires s != [] && p != [] && p != [47]
    requires (forall k :: 0 <= k < |names| ==> SlashFree(names[k])) && Join(names) == [47] + p[1..]
    ensures Lookup(s, p) == Walk(s, 1, First16(names))
  {
    hide Walk, Segments;
    SegmentsAre(p, names);
  }

  /** Looking up a joined path walks its components from the root, but no more than 16 of them. */
  lemma LookupJoined(s: Store, names: seq<Text>)
    requires s != [] && Components(names)
    ensures Lookup(s, PathTo(names)) == Walk(s, 1, First16(names))
  {
    hide Segments;
    if names != [] {
      var p := Join(names);
      assert p == [SLASH] + names[0] + Join(names[1..]);
      assert [47] + p[1..] == p;
      LookupAny(s, p, names);
    }
  }

  /** One more component is one more step: what the name is bound to in the directory reached so far. */
  lemma {:induction false} WalkOneMore(s: Store, ino: nat, names: seq<Text>, name: Text)
    ensures Walk(s, ino, names + [name]) == Binding(s, Walk(s, ino, names), name)
    decreases |names|
  {
    if names == [] {
      assert names + [name] == [name] && [name][1..] == [];
      assert forall k: nat :: Walk(s, k, []) == k;
    } else if IsDir(s, ino) {
      assert (names + [name])[1..] == names[1..] + [name];
      var es := s[ino - 1].entries;
      var j := Find(es, names[0], 0);
      if j < |es| { WalkOneMore(s, es[j].ino, names[1..], name); }
    }
  }

  /** Lookup in full: the root is inode 1, one more component is one more step down, and nothing past the sixteenth
      component counts. */
  lemma LookupSteps(s: Store, names: seq<Text>, name: Text)
    requires Components(names) && SlashFree(name) && name != []
    ensures Lookup(s, []) == 0 && Lookup(s, [47]) == 1
    ensures |names| < 16 ==> Lookup(s, PathTo(names + [name])) == Binding(s, Lookup(s, PathTo(names)), name)
    ensures |names| >= 16 ==> Lookup(s, PathTo(names + [name])) == Lookup(s, PathTo(names))
  {
    hide Walk;
    if s != [] {
      LookupJoined(s, names);
      LookupJoined(s, names + [name]);
      if |names| < 16 { WalkOneMore(s, 1, names, name); } else { assert (names + [name])[..16] == names[..16]; }
    } else {
      PathNotRoot(names, name);
      if names != [] { PathNotRoot(names[..|names| - 1], names[|names| - 1]); }
    }
  }

  lemma PathNotRoot(names: seq<Text>, name: Text)
    requires name != []
    ensures |PathTo(names + [name])| > 1
  {
    assert (names + [name])[0] == if names == [] then name else names[0];
    if names != [] { JoinLonger(names + [name]); }
  }

  lemma {:induction false} JoinLonger(names: seq<Text>)
    ensures |Join(names)| >= |names|
  {
    if names != [] { JoinLonger(names[1..]); }
  }

  /** Create, look up, parse: if a path of at most 15 components resolves to a directory, creating a
      slash-free name there makes the extended path resolve to the new inode. */
  lemma CreateLookupRoundTrip(s: Store, names: seq<Text>, name: Text, kind: byte)
    requires Graph(s) && |names| <= 15 && Components(names)
    requires SlashFree(name) && Create(s, Lookup(s, PathTo(names)), name, kind).0 != INVALID_INO
    ensures var (ino, s') := Create(s, Lookup(s, PathTo(names)), name, kind);
            Lookup(s', PathTo(names + [name])) == ino
  {
    LookupJoined(s, names);
    var d := Lookup(s, PathTo(names));
    var (ino, s') := Create(s, d, name, kind);
    CreateResolves(s, d, name, kind, names);
    LookupJoined(s', names + [name]);
  }

  /** A created name that contains a slash can never be looked up, by any path. */
  lemma SlashNameNeverResolves(s: Store, parent: nat, name: Text, kind: byte, p: Text)
    requires Graph(s) && CanCreate(s, parent, name) && !SlashFree(name)
    ensures var (ino, s') := Create(s, parent, name, kind);
            Lookup(s', p) != ino
  {
    SegmentsSlashFree(p, 0);
    NewInodeNotReached(s, parent, name, kind, ROOT_INO, Take(Segments(p, 0), MAX_SEGMENTS));
  }

  lemma {:induction false} SegmentsSlashFree(p: Text, i: nat)
    requires i <= |p|
    ensures forall k :: 0 <= k < |Segments(p, i)| ==> SlashFree(Segments(p, i)[k])
    decreases |p| - i
  {
    if i < |p| {
      var e := SegmentEnd(p, i + 1);
      SegmentsSlashFree(p, e);
      assert SlashFree(p[i + 1..e]);
    }
  }

  lemma {:induction false} NewInodeNotReached(s: Store, parent: nat, name: Text, kind: byte, ino: nat, names: seq<Text>)
    requires Graph(s) && CanCreate(s, parent, name) && !SlashFree(name) && Listed(s, ino)
    requires forall k :: 0 <= k < |names| ==> SlashFree(names[k])
    ensures Walk(Create(s, parent, name, kind).1, ino, names) != |s| + 1
    decreases |names|
  {
    var s' := Create(s, parent, name, kind).1;
    if names != [] && IsDir(s', ino) {
      var es := s[ino - 1].entries;
      assert GoodEntries(es, ino - 1, |s|);
      FindInLonger(es, Entry(name, |s| + 1), names[0]);
      if Find(es, names[0], 0) < |es| {
        NewInodeNotReached(s, parent, name, kind, es[Find(es, names[0], 0)].ino, names[1..]);
      }
    }
  }

  /** ... and every path that resolved before keeps its result, of whatever shape it is. */
  lemma CreateKeepsLookups(s: Store, parent: nat, name: Text, kind: byte, p: Text)
    requires Graph(s) && Lookup(s, p) != INVALID_INO
    ensures Lookup(Create(s, parent, name, kind).1, p) == Lookup(s, p)
  {
    if p != [SLASH] {
      CreateKeepsWalks(s, parent, name, kind, ROOT_INO, Take(Segments(p, 0), MAX_SEGMENTS));
    }
  }
}
