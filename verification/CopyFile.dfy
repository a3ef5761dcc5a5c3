/** cmd_copy_file_path of src/commands/cp.c over the RAM disk. */
module CopyFile {
  import opened Bytes
  import opened CStrings
  import opened FsTree
  import opened FsPath
  import opened RamDisk
  import opened Wrappers

  const TMP_LEN: nat := 256

  // ---------------------------------------------------------------- splitting a destination path

  function TrimEnd(s: string): string {
    if s == "" || s[|s| - 1] != ' ' then s else TrimEnd(s[..|s| - 1])
  }

  /** The path without surrounding blanks, cut to the work buffer. */
  function Trimmed(path: string): string {
    var s := SkipSpaces(path);
    TrimEnd(s[..Min(|s|, TMP_LEN - 1)])
  }

  /** The first half of split_parent_and_name: the work copy of the path. */
  method TrimPath(path: CString) returns (tmp: CString)
    ensures tmp == Trimmed(path)
  {
    var p := 0;
    assert path[0..] == path;
    while At(path, p) == ' '
      invariant p <= |path| && SkipSpaces(path) == SkipSpaces(path[p..])
      decreases |path| - p
    {
      p := p + 1;
    }
    ghost var start, s := p, path[p..];
    var copy := "";
    while At(path, p) != '\0' && |copy| + 1 < TMP_LEN
      invariant start <= p <= |path| && |copy| == p - start < TMP_LEN && copy == path[start..p]
      decreases |path| - p
    {
      NulAtEnd(path, p);
      copy := copy + [At(path, p)];
      p := p + 1;
    }
    NulAtEnd(path, p);
    assert copy == s[..Min(|s|, TMP_LEN - 1)];
    var n: nat := |copy|;
    assert copy[..n] == copy;
    while n > 0 && copy[n - 1] == ' '
      invariant n <= |copy| && TrimEnd(copy) == TrimEnd(copy[..n])
    {
      assert copy[..n][..n - 1] == copy[..n - 1];
      n := n - 1;
    }
    assert forall i :: 0 <= i < n ==> copy[i] == path[start + i] && path[start + i] in path;
    tmp := copy[..n];
  }

  /** The search loop of split_parent_and_name. */
  method AfterLastSlash(tmp: string) returns (split: nat)
    ensures split <= |tmp| && (split > 0 ==> tmp[split - 1] == '/') && forall i :: split <= i < |tmp| ==> tmp[i] != '/'
  {
    split := 0;
    for i := 0 to |tmp|
      invariant split <= i && (split == 0 || tmp[split - 1] == '/')
      invariant forall j :: split <= j < i ==> tmp[j] != '/'
    {
      if tmp[i] == '/' { split := i + 1; }
    }
  }

  /** Where the part behind the last slash begins. */
  function AfterSlash(w: string): (k: nat)
    ensures k <= |w| && (k > 0 ==> w[k - 1] == '/') && forall i :: k <= i < |w| ==> w[i] != '/'
  {
    if w == "" || w[|w| - 1] == '/' then |w| else AfterSlash(w[..|w| - 1])
  }

  lemma AfterSlashUnique(w: string, k: nat)
    requires k <= |w| && (k > 0 ==> w[k - 1] == '/') && forall i :: k <= i < |w| ==> w[i] != '/'
    ensures k == AfterSlash(w)
  {
  }

  /** The trimmed path names something to create. */
  predicate Splits(w: string) {
    AfterSlash(w) < |w|
  }

  function LastPart(w: string): string {
    w[AfterSlash(w)..]
  }

  function ParentPath(w: string): string {
    var k := AfterSlash(w);
    if k == 0 then "." else if k == 1 then "/" else w[..k - 1]
  }

  /** The last part, cut to what a node's name can hold. */
  function ChildName(w: string): string {
    LastPart(w)[..Min(|LastPart(w)|, NAME_LEN - 1)]
  }

  /** split_parent_and_name: everything before the last slash, and the name after it cut to what a node can hold. */
  method SplitParentAndName(path: CString) returns (ok: bool, parent: CString, name: CString)
    ensures ok <==> Splits(Trimmed(path))
    ensures ok ==> parent == ParentPath(Trimmed(path)) && name == ChildName(Trimmed(path)) && name != ""
  {
    var tmp := TrimPath(path);
    hide Trimmed;
    var n := |tmp|;
    if n == 0 { return false, "", ""; }
    var split := AfterLastSlash(tmp);
    AfterSlashUnique(tmp, split);
    if split == n { return false, "", ""; }
    assert forall i :: 0 <= i < n ==> tmp[i] in tmp;
    parent := if split == 0 then "." else if split == 1 then "/" else tmp[..split - 1];
    name := tmp[split..Min(n, split + NAME_LEN - 1)];
    assert name == ChildName(tmp);
    ok := true;
  }

  lemma TrimmedNoNul(path: CString)
    ensures '\0' !in Trimmed(path) && '\0' !in ParentPath(Trimmed(path)) && '\0' !in ChildName(Trimmed(path))
  {
    var s := SkipSpaces(path);
    TrimEndPart(s[..Min(|s|, TMP_LEN - 1)]);
  }

  lemma {:induction false} TrimEndPart(s: string)
    ensures TrimEnd(s) <= s && (TrimEnd(s) != "" ==> TrimEnd(s)[|TrimEnd(s)| - 1] != ' ')
    ensures forall i :: |TrimEnd(s)| <= i < |s| ==> s[i] == ' '
    decreases |s|
  {
    if s != "" && s[|s| - 1] == ' ' { TrimEndPart(s[..|s| - 1]); }
  }

  // ---------------------------------------------------------------- copying

  /** Where a path leads does not depend on file sizes and offsets. */
  lemma {:induction false} RewrittenKeepsWalk(t: Table, kids: seq<seq<nat>>, depth: seq<nat>, n: nat, off: nat, size: nat,
                                              cur: nat, tokens: seq<string>)
    requires Tree(t, kids, depth) && n < NODES && Used(t, cur)
    ensures Tree(Rewritten(t, n, off, size), kids, depth)
    ensures Walk(Rewritten(t, n, off, size), kids, depth, cur, tokens) == Walk(t, kids, depth, cur, tokens)
    decreases |tokens|
  {
    hide Chains, Children, Rooted, SiblingsDiffer, Walk, Lookup;
    var t' := Rewritten(t, n, off, size);
    RewrittenKeepsTree(t, kids, depth, n, off, size);
    if tokens == [] {
      WalkNowhere(t, kids, depth, cur);
      WalkNowhere(t', kids, depth, cur);
    } else {
      assert tokens == [tokens[0]] + tokens[1..];
      RewrittenKeepsLookup(t, n, off, size, kids[cur], tokens[0]);
      WalkOne(t, kids, depth, cur, tokens[0], tokens[1..]);
      WalkOne(t', kids, depth, cur, tokens[0], tokens[1..]);
      match StepTo(t, kids, cur, tokens[0])
      case None =>
      case Some(next) => RewrittenKeepsWalk(t, kids, depth, n, off, size, next, tokens[1..]);
    }
  }

  lemma {:induction false} RewrittenKeepsLookup(t: Table, n: nat, off: nat, size: nat, l: seq<nat>, token: string)
    requires Shaped(t) && n < NODES
    ensures Lookup(Rewritten(t, n, off, size), l, token) == Lookup(t, l, token)
    decreases |l|
  {
    if l != [] { RewrittenKeepsLookup(t, n, off, size, l[1..], token); }
  }

  lemma RewrittenKeepsResolve(t: Table, kids: seq<seq<nat>>, depth: seq<nat>, n: nat, off: nat, size: nat, cwd: nat, path: string)
    requires Tree(t, kids, depth) && n < NODES && Used(t, cwd)
    ensures Tree(Rewritten(t, n, off, size), kids, depth)
    ensures Resolve(Rewritten(t, n, off, size), kids, depth, cwd, path) == Resolve(t, kids, depth, cwd, path)
  {
    RewrittenKeepsWalk(t, kids, depth, n, off, size, if path != "" && path[0] == '/' then 0 else cwd, Tokens(path));
  }

  /** A disk as paths see it: the tables, their tree, and the current directory. */
  datatype View = View(t: Table, kids: seq<seq<nat>>, depth: seq<nat>, cwd: nat)

  predicate Sound(v: View) {
    Tree(v.t, v.kids, v.depth) && Used(v.t, v.cwd)
  }

  ghost function ViewOf(fs: Disk): View
    reads fs, fs.Tables()
  {
    View(fs.Tab(), fs.kids, fs.depth, fs.cwd)
  }

  lemma ViewIsSound(fs: Disk)
    requires fs.Valid()
    ensures Sound(ViewOf(fs))
  {
  }

  function Find(v: View, path: string): Option<nat>
    requires Sound(v)
  {
    Resolve(v.t, v.kids, v.depth, v.cwd, path)
  }

  lemma FindIsUsed(v: View, path: string)
    requires Sound(v)
    ensures Find(v, path).Some? ==> Used(v.t, Find(v, path).value)
  {
  }

  /** The file a path leads to. */
  function FileAt(v: View, path: string): Option<nat>
    requires Sound(v)
  {
    FindIsUsed(v, path);
    match Find(v, path)
    case None => None
    case Some(n) => if v.t.kind[n] == File then Some(n) else None
  }

  /** A file to be created: its directory, its slot and its name. */
  datatype Creation = Creation(parent: nat, slot: nat, token: string)

  /** A file made in a directory, if it is one, has no child of that name, and a slot is free. */
  function Makes(v: View, p: nat, name: CString): Option<Creation>
    requires Shaped(v.t) && |v.kids| == NODES && p < NODES
  {
    var token, slot := TokenOf(name), FreeSlot(v.t, 1);
    if v.t.kind[p] != Dir || Lookup(v.t, v.kids[p], token) != 0 || slot == 0 then None
    else Some(Creation(p, slot, token))
  }

  /** What is created for a destination that does not resolve, if anything can be. */
  function Creates(v: View, dst: CString): (c: Option<Creation>)
    requires Sound(v)
  {
    var w := Trimmed(dst);
    TrimmedNoNul(dst);
    FindIsUsed(v, ParentPath(w));
    if !Splits(w) then None
    else
      match Find(v, ParentPath(w))
      case None => None
      case Some(p) => Makes(v, p, ChildName(w))
  }

  predicate CanMake(v: View, c: Creation) {
    Sound(v) && CanAdd(v.t, v.kids, v.depth, c.slot, c.parent, File, c.token)
  }

  lemma MakesCanMake(v: View, p: nat, name: CString)
    requires Sound(v) && p < NODES && name != ""
    ensures Makes(v, p, name).Some? ==> CanMake(v, Makes(v, p, name).value)
  {
    if Makes(v, p, name).Some? {
      var c := Makes(v, p, name).value;
      StoredName(name);
      forall m | 0 < m < NODES && v.t.kind[m] != Free && v.t.parent[m] == c.parent ensures v.t.name[m] != c.token {
        ChildByName(v.t, v.kids, v.depth, c.parent, c.token, m);
      }
    }
  }

  lemma CreatesCanMake(v: View, dst: CString)
    requires Sound(v)
    ensures Creates(v, dst).Some? ==> CanMake(v, Creates(v, dst).value)
  {
    hide Trimmed, AfterSlash, Makes, CanMake;
    TrimmedNoNul(dst);
    FindIsUsed(v, ParentPath(Trimmed(dst)));
    if Creates(v, dst).Some? {
      MakesCanMake(v, Find(v, ParentPath(Trimmed(dst))).value, ChildName(Trimmed(dst)));
    }
  }

  function WithFile(v: View, c: Creation): (w: View)
    requires CanMake(v, c)
    ensures Sound(w) && w.cwd == v.cwd
  {
    AddKeepsTree(v.t, v.kids, v.depth, c.slot, c.parent, File, c.token);
    View(Added(v.t, c.slot, c.parent, File, c.token), v.kids[c.parent := [c.slot] + v.kids[c.parent]],
         v.depth[c.slot := v.depth[c.parent] + 1], v.cwd)
  }

  // ---------------------------------------------------------------- what a copy comes to

  /** A disk with the contents of its files and the end of its used data. */
  datatype Store = Store(v: View, files: map<nat, seq<byte>>, free: nat)

  ghost predicate Good(s: Store) {
    Sound(s.v) && forall n: nat :: n in s.files <==> n < NODES && s.v.t.kind[n] == File
  }

  ghost function StoreOf(fs: Disk): Store
    requires fs.Valid()
    reads fs, fs.Tables(), fs.pool
  {
    Store(ViewOf(fs), fs.Files(), fs.dataFree)
  }

  lemma StoreIsGood(fs: Disk)
    requires fs.Valid()
    ensures Good(StoreOf(fs))
  {
    hide Tree, Regions, FilesOf, InPool;
    ViewIsSound(fs);
    TreeShape(fs.Tab(), fs.kids, fs.depth, fs.dataFree);
    forall n: nat ensures n in fs.Files() <==> n < NODES && fs.Tab().kind[n] == File {
      FileFacts(fs.Tab(), fs.pool[..], fs.dataFree, n);
    }
  }

  function MakeFile(s: Store, c: Creation): Store
    requires CanMake(s.v, c)
  {
    Store(WithFile(s.v, c), s.files[c.slot := []], s.free)
  }

  lemma MakeKeepsGood(s: Store, c: Creation)
    requires Good(s) && CanMake(s.v, c)
    ensures Good(MakeFile(s, c)) && c.slot !in s.files
  {
    AddKeepsTree(s.v.t, s.v.kids, s.v.depth, c.slot, c.parent, File, c.token);
  }

  /** What is made before the bytes are copied: nothing unless the source is a file and the destination does not resolve. */
  function NewFile(v: View, src: CString, dst: CString): (c: Option<Creation>)
    requires Sound(v)
    ensures c.Some? ==> CanMake(v, c.value)
  {
    CreatesCanMake(v, dst);
    if FileAt(v, src).None? || Find(v, dst).Some? then None else Creates(v, dst)
  }

  ghost function Prepared(s: Store, src: CString, dst: CString): (r: Store)
    requires Good(s)
    ensures Good(r)
  {
    if NewFile(s.v, src, dst).None? then s
    else
      MakeKeepsGood(s, NewFile(s.v, src, dst).value);
      MakeFile(s, NewFile(s.v, src, dst).value)
  }

  /** Success, the file read, the file written, and the disk afterwards. */
  datatype Outcome = Failed(after: Store) | Copied(from: nat, to: nat, after: Store)

  /** The bytes are copied if they fit. */
  function Finished(s: Store, from: nat, to: nat): Outcome
    requires Shaped(s.v.t) && from in s.files && to < NODES
  {
    var data := s.files[from];
    if s.free + |data| > DATA_CAP then Failed(s)
    else Copied(from, to, Store(s.v.(t := Rewritten(s.v.t, to, s.free, |data|)), s.files[to := data], s.free + |data|))
  }

  /** A copy succeeds exactly if the source is a file, the destination leads to a file once one has been made where need
      be, and the bytes still fit.  Then the destination holds what the source held; every other file holds what it held
      before, and the tables are the old ones with the new file, if one was made, and with the destination's new place and
      size, if bytes were copied. */
  ghost function Copy(s: Store, src: CString, dst: CString): Outcome
    requires Good(s)
  {
    var made := Prepared(s, src, dst);
    FileNode(s, src);
    FileNode(made, dst);
    match (FileAt(s.v, src), FileAt(made.v, dst))
    case (Some(from), Some(to)) => Finished(made, from, to)
    case _ => Failed(made)
  }

  lemma FileNode(s: Store, path: string)
    requires Good(s)
    ensures Shaped(s.v.t) && (Find(s.v, path).Some? ==> Find(s.v, path).value < NODES)
    ensures FileAt(s.v, path) == if Find(s.v, path).Some? && Find(s.v, path).value in s.files then Find(s.v, path) else None
  {
    FindIsUsed(s.v, path);
  }

  /** The outcome, branch by branch. */
  lemma CopyStages(s: Store, src: CString, dst: CString)
    requires Good(s)
    ensures FileAt(s.v, src).Some? ==> FileAt(s.v, src).value in s.files
    ensures FileAt(s.v, src).None? || (Find(s.v, dst).Some? && FileAt(s.v, dst).None?) ==> Copy(s, src, dst) == Failed(s)
    ensures FileAt(s.v, src).Some? && FileAt(s.v, dst).Some? ==>
              && FileAt(s.v, dst).value < NODES && Shaped(s.v.t)
              && Copy(s, src, dst) == Finished(s, FileAt(s.v, src).value, FileAt(s.v, dst).value)
    ensures FileAt(s.v, src).Some? && Find(s.v, dst).None? && Creates(s.v, dst).None? ==> Copy(s, src, dst) == Failed(s)
    ensures FileAt(s.v, src).Some? && Find(s.v, dst).None? && Creates(s.v, dst).Some? ==>
              CanMake(s.v, Creates(s.v, dst).value) && Good(MakeFile(s, Creates(s.v, dst).value))
    ensures FileAt(s.v, src).Some? && Find(s.v, dst).None? && Creates(s.v, dst).Some? ==>
              var made := MakeFile(s, Creates(s.v, dst).value);
              && FileAt(s.v, src).value in made.files && made.files[FileAt(s.v, src).value] == s.files[FileAt(s.v, src).value]
              && Shaped(made.v.t) && (FileAt(made.v, dst).Some? ==> FileAt(made.v, dst).value < NODES)
              && Copy(s, src, dst) ==
                 if FileAt(made.v, dst).None? then Failed(made)
                 else Finished(made, FileAt(s.v, src).value, FileAt(made.v, dst).value)
  {
    hide Resolve, Creates, Chains, Children, Rooted, SiblingsDiffer, Added, CanMake, WithFile, FileAt, Find;
    FileNode(s, src);
    FileNode(s, dst);
    CreatesCanMake(s.v, dst);
    FileNode(Prepared(s, src, dst), dst);
    if NewFile(s.v, src, dst).Some? { MakeKeepsGood(s, NewFile(s.v, src, dst).value); }
  }

  // ---------------------------------------------------------------- the command

  /** cmd_copy_file_path */
  method CopyFilePath(fs: Disk, src: CString, dst: CString) returns (ok: bool, bytes: nat, ghost o: Outcome)
    requires fs.Valid()
    modifies fs, fs.Tables(), fs.pool
    ensures fs.Valid() && Good(old(StoreOf(fs)))
    ensures o == Copy(old(StoreOf(fs)), src, dst)
    ensures ok == o.Copied? && StoreOf(fs) == o.after
    ensures ok ==> o.from in old(StoreOf(fs)).files && bytes == |old(StoreOf(fs)).files[o.from]|
  {
    hide Tree, Resolve, Creates, CanMake, MakeFile, Rewritten, Good, Sound, Find, FileAt, Copy, StoreOf, Disk.Valid;
    bytes := 0;
    StoreIsGood(fs);
    ghost var s0 := StoreOf(fs);
    o := Copy(s0, src, dst);
    CopyStages(s0, src, dst);
    FileNode(s0, dst);
    var found, s := FileOf(fs, src);
    if !found { return false, 0, o; }
    var d;
    found, d := Resolved(fs, dst);
    if found {
      found := IsFileNode(fs, d);
    } else {
      found, d := CreateFor(fs, dst);
    }
    if !found { return false, 0, o; }
    ok, bytes := CopyBytes(fs, s, d);
  }

  /** resolve_allow_root */
  method Resolved(fs: Disk, path: CString) returns (ok: bool, n: nat)
    requires fs.Valid()
    ensures Good(StoreOf(fs)) && Find(StoreOf(fs).v, path) == if ok then Some(n) else None
  {
    hide Tree, Regions, FilesOf, InPool, Resolve, Disk.Valid;
    StoreIsGood(fs);
    ok, n := fs.ResolvePath(path);
  }

  method IsFileNode(fs: Disk, n: nat) returns (b: bool)
    requires fs.Valid()
    ensures b <==> n in StoreOf(fs).files
  {
    b := fs.IsFile(n);
  }

  /** resolve_allow_root and fs_is_file */
  method FileOf(fs: Disk, path: CString) returns (ok: bool, n: nat)
    requires fs.Valid()
    ensures Good(StoreOf(fs)) && FileAt(StoreOf(fs).v, path) == if ok then Some(n) else None
    ensures ok ==> n in StoreOf(fs).files
  {
    hide Tree, Regions, FilesOf, InPool, Good, Find, FileAt;
    ok, n := Resolved(fs, path);
    FileNode(StoreOf(fs), path);
    if ok { ok := IsFileNode(fs, n); }
  }

  /** The end of cmd_copy_file_path: the source is read and the destination written. */
  method CopyBytes(fs: Disk, s: nat, d: nat) returns (ok: bool, bytes: nat)
    requires fs.Valid() && s in StoreOf(fs).files && d in StoreOf(fs).files
    modifies fs`dataFree, fs.size, fs.off, fs.pool
    ensures fs.Valid() && bytes == |old(StoreOf(fs)).files[s]| && Shaped(old(StoreOf(fs)).v.t) && d < NODES
    ensures var o := Finished(old(StoreOf(fs)), s, d); ok == o.Copied? && StoreOf(fs) == o.after
  {
    hide Tree, Regions, FilesOf, InPool, Rewritten;
    FileSize(fs, s);
    FileSize(fs, d);
    var buf := new byte[DATA_CAP];
    var n := fs.Read(s, buf, DATA_CAP);
    bytes := n;
    assert buf[..][..n] == buf[..n] == old(fs.Files())[s];
    ok := fs.Write(d, buf[..], n);
  }

  lemma FileSize(fs: Disk, n: nat)
    requires fs.Valid() && n in fs.Files()
    ensures |fs.Files()[n]| <= DATA_CAP && Shaped(fs.Tab()) && n < NODES
  {
    FileFacts(fs.Tab(), fs.pool[..], fs.dataFree, n);
  }

  /** The branch of cmd_copy_file_path for a destination that does not resolve yet. */
  method CreateFor(fs: Disk, dst: CString) returns (ok: bool, d: nat)
    requires fs.Valid()
    modifies fs`kids, fs`depth, fs.Tables()
    ensures fs.Valid() && Good(old(StoreOf(fs))) && Good(StoreOf(fs))
    ensures var c := Creates(old(StoreOf(fs)).v, dst);
            && (c.None? ==> !ok && StoreOf(fs) == old(StoreOf(fs)))
            && (c.Some? ==>
                  && CanMake(old(StoreOf(fs)).v, c.value) && StoreOf(fs) == MakeFile(old(StoreOf(fs)), c.value)
                  && FileAt(StoreOf(fs).v, dst) == if ok then Some(d) else None)
    ensures ok ==> d in StoreOf(fs).files
  {
    hide Tree, Resolve, CanMake, MakeFile, Good, Sound, Find, FileAt, StoreOf, Disk.Valid, Trimmed, AfterSlash, TokenOf;
    hide FreeSlot, Lookup, LastPart, ParentPath, ChildName;
    d := 0;
    StoreIsGood(fs);
    ghost var s0 := StoreOf(fs);
    var found, parentPath, name := SplitParentAndName(dst);
    CreatesBy(s0, dst);
    if !found { return false, 0; }
    var parent;
    found, parent := Resolved(fs, parentPath);
    if !found { return false, 0; }
    found := MakeAt(fs, parent, name);
    if !found { return false, 0; }
    ok, d := FileOf(fs, dst);
  }

  /** Creates by its parts. */
  lemma CreatesBy(s: Store, dst: CString)
    requires Good(s)
    ensures Shaped(s.v.t) && |s.v.kids| == NODES
    ensures '\0' !in ParentPath(Trimmed(dst)) && '\0' !in ChildName(Trimmed(dst))
    ensures var w := Trimmed(dst);
            if !Splits(w) || Find(s.v, ParentPath(w)).None? then Creates(s.v, dst) == None
            else
              var p := Find(s.v, ParentPath(w)).value;
              p < NODES && Creates(s.v, dst) == Makes(s.v, p, ChildName(w))
  {
    hide Trimmed, AfterSlash, Resolve, Chains, Children, Rooted, SiblingsDiffer;
    TrimmedNoNul(dst);
    FindIsUsed(s.v, ParentPath(Trimmed(dst)));
  }

  /** fs_is_dir and fs_create_file */
  method MakeAt(fs: Disk, parent: nat, name: CString) returns (ok: bool)
    requires fs.Valid() && parent < NODES && name != ""
    modifies fs`kids, fs`depth, fs.Tables()
    ensures fs.Valid() && Shaped(old(StoreOf(fs)).v.t) && |old(StoreOf(fs)).v.kids| == NODES
    ensures var c := Makes(old(StoreOf(fs)).v, parent, name);
            && ok == c.Some?
            && (c.None? ==> StoreOf(fs) == old(StoreOf(fs)))
            && (c.Some? ==> CanMake(old(StoreOf(fs)).v, c.value) && StoreOf(fs) == MakeFile(old(StoreOf(fs)), c.value))
  {
    hide Tree, Regions, FilesOf, InPool, FreeSlot, Lookup, Added, TokenOf, CanAdd;
    ViewIsSound(fs);
    TreeShape(fs.Tab(), fs.kids, fs.depth, fs.dataFree);
    MakesCanMake(ViewOf(fs), parent, name);
    var found := fs.IsDir(parent);
    if !found { return false; }
    ok := fs.Create(parent, name, File);
  }
}
