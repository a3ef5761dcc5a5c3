/** The RAM disk of src/lib/ramdisk.c in place: parallel node tables, a bump-allocated data pool, the current directory. */
module RamDisk {
  import opened Bytes
  import opened CStrings
  import opened FsTree
  import opened FsPath
  import opened FsWalk
  import opened Wrappers

  const DATA_CAP: nat := 8192

  // ---------------------------------------------------------------- file contents as values

  /** Every file's bytes lie in the first `free` bytes of the pool. */
  predicate InPool(t: Table, free: nat)
    requires Shaped(t)
  {
    forall n :: 0 <= n < NODES && t.kind[n] == File ==> t.off[n] + t.size[n] <= free
  }

  predicate Apart(t: Table, m: nat, n: nat)
    requires Shaped(t) && m < NODES && n < NODES
  {
    t.off[m] + t.size[m] <= t.off[n] || t.off[n] + t.size[n] <= t.off[m]
  }

  /** No two files share a byte. */
  predicate NoSharing(t: Table)
    requires Shaped(t)
  {
    forall m, n :: 0 <= m < n < NODES && t.kind[m] == File && t.kind[n] == File && t.size[m] > 0 && t.size[n] > 0 ==>
      Apart(t, m, n)
  }

  predicate Regions(t: Table, free: nat)
    requires Shaped(t)
  {
    free <= DATA_CAP && InPool(t, free) && NoSharing(t)
  }

  /** The contents of every file. */
  function FilesOf(t: Table, pool: seq<byte>): map<nat, seq<byte>>
    requires Shaped(t) && InPool(t, |pool|)
  {
    map n | 0 <= n < NODES && t.kind[n] == File :: Piece(pool, t.off[n], t.size[n])
  }

  function Piece(pool: seq<byte>, off: nat, size: nat): (s: seq<byte>)
    requires off + size <= |pool|
    ensures |s| == size
  {
    pool[off..off + size]
  }

  lemma StoredName(name: CString)
    requires name != ""
    ensures GoodName(TokenOf(name)) && TokenOf(TokenOf(name)) == TokenOf(name)
  {
    var cut := name[..Min(|name|, NAME_LEN - 1)];
    forall i | 0 <= i < |cut| ensures Lower(cut)[i] != '\0' && LowerChar(Lower(cut)[i]) == Lower(cut)[i] {
      assert cut[i] in name;
    }
    LowerFixed(Lower(cut));
    assert Lower(cut)[..|cut|] == Lower(cut);
  }

  lemma AddKeepsRegions(t: Table, free: nat, n: nat, p: nat, kind: Kind, name: string)
    requires Shaped(t) && Regions(t, free)
    requires 0 < n < NODES && t.kind[n] == Free && p < NODES && kind != Free
    ensures Shaped(Added(t, n, p, kind, name)) && Regions(Added(t, n, p, kind, name), free)
  {
    var t' := Added(t, n, p, kind, name);
    forall x, y | 0 <= x < y < NODES && t'.kind[x] == File && t'.kind[y] == File && t'.size[x] > 0 && t'.size[y] > 0
      ensures Apart(t', x, y)
    {
      assert x != n && y != n && Apart(t, x, y);
    }
  }

  lemma AddKeepsFiles(t: Table, pool: seq<byte>, n: nat, p: nat, kind: Kind, name: string)
    requires Shaped(t) && InPool(t, |pool|) && p < NODES && n < NODES && t.kind[n] == Free && kind != Free && n != 0
    ensures var t' := Added(t, n, p, kind, name);
            && Shaped(t') && InPool(t', |pool|)
            && FilesOf(t', pool) == if kind == File then FilesOf(t, pool)[n := []] else FilesOf(t, pool)
  {
    assert pool[0..0] == [];
  }

  /** Everything that linking a node into the tables keeps and changes. */
  lemma AddFacts(t: Table, kids: seq<seq<nat>>, depth: seq<nat>, pool: seq<byte>, free: nat,
                 n: nat, p: nat, kind: Kind, name: string)
    requires Tree(t, kids, depth) && Regions(t, free) && |pool| == DATA_CAP
    requires 0 < n < NODES && t.kind[n] == Free && p < NODES && t.kind[p] == Dir && kind != Free
    requires GoodName(name) && Lookup(t, kids[p], name) == 0
    ensures |kids| == |depth| == NODES && n != p
    ensures var t' := Added(t, n, p, kind, name);
            && Shaped(t') && t'.kind == t.kind[n := kind]
            && Tree(t', kids[p := [n] + kids[p]], depth[n := depth[p] + 1]) && Regions(t', free)
            && InPool(t', DATA_CAP) && InPool(t, DATA_CAP)
            && FilesOf(t', pool) == if kind == File then FilesOf(t, pool)[n := []] else FilesOf(t, pool)
  {
    forall m | 0 < m < NODES && t.kind[m] != Free && t.parent[m] == p ensures t.name[m] != name {
      ChildByName(t, kids, depth, p, name, m);
    }
    AddKeepsTree(t, kids, depth, n, p, kind, name);
    AddKeepsRegions(t, free, n, p, kind, name);
    AddKeepsFiles(t, pool, n, p, kind, name);
  }

  lemma TreeShape(t: Table, kids: seq<seq<nat>>, depth: seq<nat>, free: nat)
    requires Tree(t, kids, depth) && Regions(t, free)
    ensures Shaped(t) && |kids| == |depth| == NODES && InPool(t, DATA_CAP)
  {
  }

  /** Everything that deleting keeps and changes; the tree survives exactly below the root. */
  lemma DeletedFacts(t: Table, kids: seq<seq<nat>>, depth: seq<nat>, pool: seq<byte>, free: nat, n: nat)
    requires Tree(t, kids, depth) && Regions(t, free) && |pool| == DATA_CAP && Deletable(t, n)
    ensures |kids| == |depth| == NODES && t.parent[n] < NODES
    ensures var t' := Deleted(t, kids, n);
            && Shaped(t') && t'.kind == t.kind[n := Free] && Regions(t', free)
            && InPool(t', DATA_CAP) && InPool(t, DATA_CAP)
            && FilesOf(t', pool) == FilesOf(t, pool) - {n}
    ensures t.parent[n] != 0 ==>
              Tree(Deleted(t, kids, n), kids[t.parent[n] := Without(kids[t.parent[n]], n)], depth)
    ensures t.parent[n] == 0 ==> forall kids', depth' :: !Tree(Deleted(t, kids, n), kids', depth')
  {
    TreeParents(t, kids, depth);
    if t.parent[n] == 0 {
      forall kids', depth' ensures !Tree(Deleted(t, kids, n), kids', depth') {
        DeleteUnderRootBreaks(t, kids, depth, n, kids', depth');
      }
    } else {
      DeleteFacts(t, kids, depth, n);
      DeleteKeepsTree(t, kids, depth, n);
    }
    FreeKeepsRegions(t, Deleted(t, kids, n), pool, free, n);
  }

  lemma FreeKeepsRegions(t: Table, t': Table, pool: seq<byte>, free: nat, n: nat)
    requires Shaped(t) && Shaped(t') && Regions(t, free) && |pool| == DATA_CAP && n < NODES
    requires t'.kind == t.kind[n := Free] && t'.size == t.size && t'.off == t.off
    ensures Regions(t', free) && InPool(t', DATA_CAP) && InPool(t, DATA_CAP)
    ensures FilesOf(t', pool) == FilesOf(t, pool) - {n}
  {
    forall x, y | 0 <= x < y < NODES && t'.kind[x] == File && t'.kind[y] == File && t'.size[x] > 0 && t'.size[y] > 0
      ensures Apart(t', x, y)
    {
      assert Apart(t, x, y);
    }
  }

  lemma FileFacts(t: Table, pool: seq<byte>, free: nat, n: nat)
    requires Shaped(t) && Regions(t, free) && |pool| == DATA_CAP
    ensures InPool(t, DATA_CAP)
    ensures n in FilesOf(t, pool) <==> n < NODES && t.kind[n] == File
    ensures n in FilesOf(t, pool) ==>
              t.off[n] + t.size[n] <= DATA_CAP && FilesOf(t, pool)[n] == pool[t.off[n]..t.off[n] + t.size[n]]
  {
  }

  lemma WriteFacts(t: Table, kids: seq<seq<nat>>, depth: seq<nat>, pool: seq<byte>, free: nat, n: nat, data: seq<byte>)
    requires Tree(t, kids, depth) && Regions(t, free) && |pool| == DATA_CAP
    requires n < NODES && t.kind[n] == File && free + |data| <= DATA_CAP
    ensures var t', pool' := Rewritten(t, n, free, |data|), pool[..free] + data + pool[free + |data|..];
            && Shaped(t') && t'.kind == t.kind && Tree(t', kids, depth) && Regions(t', free + |data|)
            && InPool(t, DATA_CAP) && InPool(t', DATA_CAP)
            && FilesOf(t', pool') == FilesOf(t, pool)[n := data]
  {
    var t' := Rewritten(t, n, free, |data|);
    WriteKeepsRegions(t, free, n, |data|);
    WriteChangesOneFile(t, pool, free, n, data, pool[..free] + data + pool[free + |data|..]);
    RewrittenKeepsTree(t, kids, depth, n, free, |data|);
  }

  lemma RewrittenKeepsTree(t: Table, kids: seq<seq<nat>>, depth: seq<nat>, n: nat, off: nat, size: nat)
    requires Tree(t, kids, depth) && n < NODES
    ensures Tree(Rewritten(t, n, off, size), kids, depth)
  {
    var t' := Rewritten(t, n, off, size);
    assert forall d, i :: 0 <= d < NODES && 0 <= i < |kids[d]| ==> ChildOf(t, d, kids[d][i]) && ChildOf(t', d, kids[d][i]);
    assert forall m :: 0 < m < NODES && t.kind[m] != Free ==> Placed(t, kids, depth, m) && Placed(t', kids, depth, m);
  }

  lemma WalkNowhere(t: Table, kids: seq<seq<nat>>, depth: seq<nat>, cur: nat)
    requires Tree(t, kids, depth) && Used(t, cur)
    ensures Walk(t, kids, depth, cur, []) == Some(cur)
  {
  }

  /** The buffer holds `text`, cut to what fits before the terminating NUL. */
  predicate HoldsText(buf: array<char>, bufSize: nat, text: string)
    requires 0 < bufSize <= buf.Length
    reads buf
  {
    var k := Min(|text|, bufSize - 1);
    buf[..k] == text[..k] && buf[k] == '\0'
  }

  /** The copy loops of fs_build_path: append `s` or, when the buffer ends first, close it with NUL. */
  method AppendText(buf: array<char>, bufSize: nat, start: nat, s: CString, ghost sofar: string, ghost path: string)
    returns (room: bool, pos: nat)
    requires 0 < bufSize <= buf.Length && start == |sofar| <= bufSize && buf[..start] == sofar
    requires sofar + s <= path && |s| < NAME_LEN
    modifies buf
    ensures room ==> pos == |sofar + s| <= bufSize && buf[..pos] == sofar + s
    ensures !room ==> HoldsText(buf, bufSize, path)
  {
    pos := start;
    var j := 0;
    while j < NAME_LEN && At(s, j) != '\0'
      invariant j <= |s| && pos == start + j <= bufSize && buf[..pos] == sofar + s[..j]
      decreases |s| - j
    {
      if pos + 1 >= bufSize {
        assert buf[..bufSize - 1] == path[..bufSize - 1];
        buf[bufSize - 1] := '\0';
        return false, pos;
      }
      buf[pos] := s[j];
      pos := pos + 1;
      j := j + 1;
      assert sofar + s[..j] == (sofar + s[..j - 1]) + [s[j - 1]];
    }
    NulAtEnd(s, j);
    assert s[..j] == s;
    return true, pos;
  }

  /** One round of the second loop of fs_build_path: a name and, unless it is the last, a slash. */
  method AppendName(buf: array<char>, bufSize: nat, start: nat, s: CString, slash: bool, ghost sofar: string, ghost path: string)
    returns (room: bool, pos: nat)
    requires 0 < bufSize <= buf.Length && start == |sofar| <= bufSize && buf[..start] == sofar
    requires sofar + s + (if slash then "/" else "") <= path && |s| < NAME_LEN
    modifies buf
    ensures room ==> pos == |sofar + s + (if slash then "/" else "")| <= bufSize
    ensures room ==> buf[..pos] == sofar + s + (if slash then "/" else "")
    ensures !room ==> HoldsText(buf, bufSize, path)
  {
    assert sofar + s <= path;
    room, pos := AppendText(buf, bufSize, start, s, sofar, path);
    if room && slash {
      room, pos := AppendText(buf, bufSize, pos, "/", sofar + s, path);
    }
    assert sofar + s + "" == sofar + s;
  }

  lemma PathNames(t: Table, kids: seq<seq<nat>>, depth: seq<nat>, n: nat)
    requires Tree(t, kids, depth) && Used(t, n)
    ensures var nodes := PathNodes(t, kids, depth, n);
            && PathString(t, kids, depth, n) == Spelled(Names(t, nodes))
            && |Names(t, nodes)| == |nodes|
            && forall i :: 0 <= i < |nodes| ==> GoodName(t.name[nodes[i]]) && Names(t, nodes)[i] == t.name[nodes[i]]
  {
    TreeParents(t, kids, depth);
  }

  /** One line of the tree listing. */
  datatype Line = Line(indent: nat, name: string, dir: bool)

  /** The lines are those of the nodes met, indented by how far below level `level` they are. */
  predicate Listed(t: Table, depth: seq<nat>, met: seq<nat>, lines: seq<Line>, level: nat, indent: nat)
    requires Shaped(t) && |depth| == NODES
  {
    |lines| == |met| && forall i :: 0 <= i < |met| ==>
      met[i] < NODES && level <= depth[met[i]] &&
      lines[i] == Line(indent + depth[met[i]] - level, t.name[met[i]], t.kind[met[i]] == Dir)
  }

  lemma ListedNothing(t: Table, depth: seq<nat>, level: nat, indent: nat)
    requires Shaped(t) && |depth| == NODES
    ensures Listed(t, depth, [], [], level, indent)
  {
  }

  lemma ListedMore(t: Table, depth: seq<nat>, met: seq<nat>, lines: seq<Line>, level: nat, indent: nat,
                   child: nat, line: Line, under: seq<nat>, sub: seq<Line>)
    requires Shaped(t) && |depth| == NODES
    requires Listed(t, depth, met, lines, level, indent) && Listed(t, depth, under, sub, level + 1, indent + 1)
    requires child < NODES && depth[child] == level && line == Line(indent, t.name[child], t.kind[child] == Dir)
    ensures Listed(t, depth, met + [child] + under, lines + [line] + sub, level, indent)
  {
  }

  lemma SplitAround(a: seq<nat>, c: nat, b: seq<nat>, rest: seq<nat>)
    ensures a + ([c] + b + rest) == (a + [c] + b) + rest
  {
  }

  lemma ChainOf(t: Table, kids: seq<seq<nat>>, depth: seq<nat>, d: nat)
    requires Tree(t, kids, depth) && d < NODES
    ensures ListAt(t.next, t.first[d], kids[d]) && (t.kind[d] != Dir ==> kids[d] == [])
  {
  }

  /** The i-th child of a list, or 0 behind its end. */
  function KidAt(l: seq<nat>, i: nat): nat {
    if i < |l| then l[i] else 0
  }

  /** A table of node numbers, sizes or offsets before anything is stored in it. */
  method ZeroTable() returns (a: array<nat>)
    ensures fresh(a) && a.Length == NODES
    ensures a[..] == EmptyTable().parent == EmptyTable().first == EmptyTable().next == EmptyTable().size == EmptyTable().off
  {
    a := new nat[NODES](_ => 0);
    assert a[..] == EmptyTable().parent;
  }

  method KindTable() returns (a: array<Kind>)
    ensures fresh(a) && a.Length == NODES && a[..] == EmptyTable().kind
  {
    a := new Kind[NODES](i => if i == 0 then Dir else Free);
  }

  method NameTable() returns (a: array<string>)
    ensures fresh(a) && a.Length == NODES && a[..] == EmptyTable().name
  {
    a := new string[NODES](_ => "");
  }

  lemma EmptyRegions(pool: seq<byte>)
    requires |pool| == DATA_CAP
    ensures Shaped(EmptyTable()) && Regions(EmptyTable(), 0) && FilesOf(EmptyTable(), pool) == map[]
  {
  }

  function Rewritten(t: Table, n: nat, off: nat, size: nat): Table
    requires Shaped(t) && n < NODES
  {
    t.(off := t.off[n := off], size := t.size[n := size])
  }

  lemma WriteKeepsRegions(t: Table, free: nat, n: nat, size: nat)
    requires Shaped(t) && Regions(t, free) && n < NODES && t.kind[n] == File && free + size <= DATA_CAP
    ensures Regions(Rewritten(t, n, free, size), free + size)
  {
    var t' := Rewritten(t, n, free, size);
    forall x, y | 0 <= x < y < NODES && t'.kind[x] == File && t'.kind[y] == File && t'.size[x] > 0 && t'.size[y] > 0
      ensures Apart(t', x, y)
    {
      if x != n && y != n { assert Apart(t, x, y); }
    }
  }

  lemma WriteChangesOneFile(t: Table, pool: seq<byte>, free: nat, n: nat, data: seq<byte>, pool': seq<byte>)
    requires Shaped(t) && InPool(t, free) && n < NODES && t.kind[n] == File && free + |data| <= |pool| == |pool'|
    requires pool'[..free] == pool[..free] && pool'[free..free + |data|] == data
    ensures var t' := Rewritten(t, n, free, |data|);
            && InPool(t, |pool|) && InPool(t', |pool'|)
            && FilesOf(t', pool') == FilesOf(t, pool)[n := data]
  {
    hide Piece;
    var t' := Rewritten(t, n, free, |data|);
    forall m | 0 <= m < NODES && t.kind[m] == File && m != n
      ensures Piece(pool', t.off[m], t.size[m]) == Piece(pool, t.off[m], t.size[m])
    {
      PieceKept(pool, pool', free, t.off[m], t.size[m]);
    }
    PieceIs(pool', free, data);
    assert FilesOf(t', pool').Keys == FilesOf(t, pool)[n := data].Keys;
  }

  lemma PieceKept(pool: seq<byte>, pool': seq<byte>, free: nat, off: nat, size: nat)
    requires off + size <= free <= |pool| && free <= |pool'| && pool'[..free] == pool[..free]
    ensures Piece(pool', off, size) == Piece(pool, off, size)
  {
    var a, b := off, off + size;
    assert pool'[a..b] == pool'[..free][a..b] && pool[a..b] == pool[..free][a..b];
  }

  lemma PieceIs(pool: seq<byte>, off: nat, data: seq<byte>)
    requires off + |data| <= |pool| && pool[off..off + |data|] == data
    ensures Piece(pool, off, |data|) == data
  {
  }

  // ---------------------------------------------------------------- the disk

  class Disk {
    const kind: array<Kind>
    const parent: array<nat>
    const first: array<nat>
    const next: array<nat>
    const size: array<nat>
    const off: array<nat>
    const name: array<string>
    const pool: array<byte>
    var dataFree: nat
    var cwd: nat
    ghost var kids: seq<seq<nat>>
    ghost var depth: seq<nat>

    ghost function Tables(): set<object> {
      {kind, parent, first, next, size, off, name}
    }

    ghost function Tab(): Table
      reads kind, parent, first, next, size, off, name
    {
      Table(kind[..], parent[..], first[..], next[..], size[..], off[..], name[..])
    }

    ghost predicate Layout() {
      && kind.Length == parent.Length == first.Length == next.Length == size.Length == off.Length == name.Length == NODES
      && pool.Length == DATA_CAP
      && parent != first && parent != next && parent != size && parent != off
      && first != next && first != size && first != off && next != size && next != off && size != off
    }

    ghost predicate Valid()
      reads this, Tables()
    {
      && Layout()
      && Tree(Tab(), kids, depth)
      && cwd < NODES && kind[cwd] == Dir
      && Regions(Tab(), dataFree)
    }

    /** What every file holds. */
    ghost function Files(): map<nat, seq<byte>>
      requires Valid()
      reads this, Tables(), pool
    {
      FilesOf(Tab(), pool[..])
    }

    /** ramdisk_init up to the creation of the standard directories. */
    constructor ()
      ensures Valid()
      ensures Tab() == EmptyTable() && Files() == map[] && cwd == 0 && dataFree == 0
      ensures kids == NoKids() && depth == NoDepth()
      ensures fresh(kind) && fresh(parent) && fresh(first) && fresh(next) && fresh(size) && fresh(off) && fresh(name)
      ensures fresh(pool)
    {
      hide Tree, Regions, FilesOf, InPool, EmptyTable;
      var kinds := KindTable();
      var parents := ZeroTable();
      var firsts := ZeroTable();
      var nexts := ZeroTable();
      var sizes := ZeroTable();
      var offs := ZeroTable();
      var names := NameTable();
      kind, parent, first, next, size, off, name := kinds, parents, firsts, nexts, sizes, offs, names;
      pool := new byte[DATA_CAP](_ => 0);
      dataFree, cwd := 0, 0;
      kids, depth := NoKids(), NoDepth();
      new;
      EmptyIsTree();
      EmptyRegions(pool[..]);
    }

    /** fs_alloc_node */
    method AllocNode() returns (n: nat)
      requires Layout() && Shaped(Tab())
      ensures n == FreeSlot(Tab(), 1)
    {
      n := 1;
      while n < NODES
        invariant 1 <= n <= NODES
        invariant FreeSlot(Tab(), 1) == FreeSlot(Tab(), n)
      {
        if kind[n] == Free { return; }
        n := n + 1;
      }
      return 0;
    }

    /** fs_find_child */
    method FindChild(p: nat, token: string) returns (n: nat)
      requires Layout() && Tree(Tab(), kids, depth) && p < NODES
      ensures n == Lookup(Tab(), kids[p], token)
    {
      n := first[p];
      ghost var rest: seq<nat> := kids[p];
      assert forall i :: 0 <= i < |kids[p]| ==> ChildOf(Tab(), p, kids[p][i]);
      while n != 0
        invariant ListAt(next[..], n, rest)
        invariant forall i :: 0 <= i < |rest| ==> rest[i] < NODES
        invariant Lookup(Tab(), kids[p], token) == Lookup(Tab(), rest, token)
        decreases |rest|
      {
        if kind[n] != Free && name[n] == token { return; }
        n := next[n];
        rest := rest[1..];
      }
    }

    /** fs_mkdir_child (`k` is Dir) and fs_create_file (`k` is File): the same code but for the kind stored. */
    method Create(p: nat, newName: CString, k: Kind) returns (ok: bool)
      requires Valid() && k != Free
      modifies this`kids, this`depth, Tables()
      ensures Valid()
      ensures ok <==>
        && p < NODES && old(kind[p]) == Dir && newName != ""
        && Lookup(old(Tab()), old(kids)[p], TokenOf(newName)) == 0
        && FreeSlot(old(Tab()), 1) != 0
      ensures !ok ==> Tab() == old(Tab()) && Files() == old(Files()) && kids == old(kids) && depth == old(depth)
      ensures ok ==>
        var n := FreeSlot(old(Tab()), 1);
        && n !in old(Files())
        && Tab() == Added(old(Tab()), n, p, k, TokenOf(newName))
        && kids == old(kids)[p := [n] + old(kids)[p]] && depth == old(depth)[n := old(depth)[p] + 1]
        && Files() == if k == File then old(Files())[n := []] else old(Files())
    {
      hide Tree, Regions, InPool, NoSharing, FilesOf, Lookup, FreeSlot, Added;
      TreeShape(Tab(), kids, depth, dataFree);
      if p >= NODES || kind[p] != Dir { return false; }
      var token := TokenOf(newName);
      if token == "" { return false; }
      StoredName(newName);
      var found := FindChild(p, token);
      if found != 0 { return false; }
      var n := AllocNode();
      if n == 0 { return false; }
      Link(n, p, token, k);
      return true;
    }

    /** The table updates that put node `n` in front of the children of `p`. */
    method Link(n: nat, p: nat, token: string, k: Kind)
      requires Valid() && 0 < n < NODES && kind[n] == Free && p < NODES && kind[p] == Dir && k != Free
      requires GoodName(token) && TokenOf(token) == token
      requires Lookup(Tab(), kids[p], token) == 0
      modifies this`kids, this`depth, Tables()
      ensures Valid()
      ensures n !in old(Files())
      ensures Tab() == Added(old(Tab()), n, p, k, token)
      ensures kids == old(kids)[p := [n] + old(kids)[p]] && depth == old(depth)[n := old(depth)[p] + 1]
      ensures Files() == if k == File then old(Files())[n := []] else old(Files())
    {
      hide Tree, Regions, InPool, NoSharing, FilesOf, Lookup, Added;
      AddFacts(Tab(), kids, depth, pool[..], dataFree, n, p, k, token);
      FileFacts(Tab(), pool[..], dataFree, n);
      StoreNode(n, p, token, k);
      depth, kids := depth[n := depth[p] + 1], kids[p := [n] + kids[p]];
    }

    /** The stores themselves. */
    method StoreNode(n: nat, p: nat, token: string, k: Kind)
      requires Layout() && Shaped(Tab()) && n < NODES && p < NODES && n != p
      modifies Tables()
      ensures Tab() == Added(old(Tab()), n, p, k, TokenOf(token))
    {
      kind[n] := k;
      parent[n] := p;
      first[n] := 0;
      next[n] := first[p];
      first[p] := n;
      size[n] := 0;
      off[n] := 0;
      name[n] := TokenOf(token);
    }

    /** fs_delete: the files keep their contents; the tree survives unless the node is a child of the root or the
        current directory. */
    method Delete(node: nat) returns (ok: bool)
      requires Valid()
      modifies this`kids, Tables()
      ensures ok <==> Deletable(old(Tab()), node)
      ensures !ok ==> Tab() == old(Tab()) && kids == old(kids)
      ensures ok ==>
        && Shaped(Tab()) && InPool(Tab(), DATA_CAP) && FilesOf(Tab(), pool[..]) == old(Files()) - {node}
        && old(parent[node]) < NODES == old(|kids|) && Tab() == Deleted(old(Tab()), old(kids), node)
      ensures Valid() <==> !ok || (old(parent[node]) != 0 && node != cwd)
    {
      hide Tree, Regions, InPool, NoSharing, FilesOf, Deleted;
      TreeShape(Tab(), kids, depth, dataFree);
      if node == 0 || node >= NODES || kind[node] == Free { return false; }
      if kind[node] == Dir && first[node] != 0 { return false; }
      DeletedFacts(Tab(), kids, depth, pool[..], dataFree, node);
      Unlink(node);
      if old(parent[node]) != 0 {
        kids := kids[old(parent[node]) := Without(kids[old(parent[node])], node)];
      }
      return true;
    }

    /** The stores of fs_delete. */
    method Unlink(node: nat)
      requires Layout() && Tree(Tab(), kids, depth) && Deletable(Tab(), node) && parent[node] < NODES == |kids|
      modifies Tables()
      ensures Tab() == Deleted(old(Tab()), kids, node)
    {
      var p := parent[node];
      if p != 0 {
        var cur := first[p];
        if cur == node {
          first[p] := next[node];
        } else {
          ghost var rest: seq<nat> := kids[p];
          while cur != 0 && next[cur] != node
            invariant Tab() == old(Tab()) && ListAt(next[..], cur, rest)
            invariant Unlinked(next[..], kids[p], node) == Unlinked(next[..], rest, node)
            decreases |rest|
          {
            cur := next[cur];
            rest := rest[1..];
          }
          if cur != 0 { next[cur] := next[node]; }
        }
      }
      kind[node] := Free;
    }

    /** fs_is_file */
    method IsFile(node: nat) returns (b: bool)
      requires Valid()
      ensures b <==> node in Files()
      ensures b ==> |Files()[node]| <= DATA_CAP
    {
      hide Tree, Regions, InPool, NoSharing, FilesOf;
      TreeShape(Tab(), kids, depth, dataFree);
      FileFacts(Tab(), pool[..], dataFree, node);
      b := node < NODES && kind[node] == File;
    }

    /** fs_is_dir */
    method IsDir(node: nat) returns (b: bool)
      requires Valid()
      ensures b <==> node < NODES && kind[node] == Dir
    {
      b := node < NODES && kind[node] == Dir;
    }

    /** fs_cwd_set */
    method SetCwd(node: nat)
      requires Valid()
      modifies this`cwd
      ensures Valid()
      ensures cwd == if node < NODES && kind[node] == Dir then node else old(cwd)
    {
      if node < NODES && kind[node] == Dir { cwd := node; }
    }

    /** fs_read: as many of the file's bytes as the caller asks for. */
    method Read(node: nat, buf: array<byte>, count: int) returns (n: int)
      requires Valid() && buf != pool && count <= buf.Length
      modifies buf
      ensures n == if node !in Files() then -1 else if count < |Files()[node]| then count else |Files()[node]|
      ensures node in Files() && 0 <= n ==> buf[..n] == Files()[node][..n]
      ensures forall i :: n <= i < buf.Length && 0 <= i ==> buf[i] == old(buf[i])
    {
      hide Tree, Regions, InPool, NoSharing, FilesOf;
      TreeShape(Tab(), kids, depth, dataFree);
      FileFacts(Tab(), pool[..], dataFree, node);
      if node >= NODES || kind[node] != File { return -1; }
      var actual: int := size[node];
      if count < actual { actual := count; }
      if actual > 0 {
        var from := off[node];
        forall i | 0 <= i < actual { buf[i] := pool[from + i]; }
      }
      assert Tab() == old(Tab()) && pool[..] == old(pool[..]);
      return actual;
    }

    /** fs_write: the file holds exactly these bytes afterwards and every other file what it held before. */
    method Write(node: nat, buf: seq<byte>, count: int) returns (ok: bool)
      requires Valid() && count <= |buf|
      modifies this`dataFree, size, off, pool
      ensures Valid()
      ensures ok <==> node in old(Files()) && 0 <= count && old(dataFree) + count <= DATA_CAP
      ensures ok ==> Files() == old(Files())[node := buf[..count]] && dataFree == old(dataFree) + count
      ensures ok ==> node < NODES && Shaped(old(Tab())) && Tab() == Rewritten(old(Tab()), node, old(dataFree), count)
      ensures !ok ==> Tab() == old(Tab()) && Files() == old(Files()) && dataFree == old(dataFree)
    {
      hide Tree, Regions, InPool, NoSharing, FilesOf, Rewritten;
      TreeShape(Tab(), kids, depth, dataFree);
      FileFacts(Tab(), pool[..], dataFree, node);
      if node >= NODES || kind[node] != File || count < 0 { return false; }
      if dataFree + count > DATA_CAP { return false; }
      WriteFacts(Tab(), kids, depth, pool[..], dataFree, node, buf[..count]);
      StoreFile(node, buf, count);
      return true;
    }

    /** The stores of fs_write. */
    method StoreFile(node: nat, buf: seq<byte>, count: nat)
      requires Layout() && Shaped(Tab()) && node < NODES && count <= |buf| && dataFree + count <= DATA_CAP
      modifies this`dataFree, size, off, pool
      ensures Tab() == Rewritten(old(Tab()), node, old(dataFree), count) && dataFree == old(dataFree) + count
      ensures pool[..] == old(pool[..])[..old(dataFree)] + buf[..count] + old(pool[..])[old(dataFree) + count..]
    {
      off[node] := dataFree;
      size[node] := count;
      if count > 0 {
        var free := dataFree;
        forall i | 0 <= i < count { pool[free + i] := buf[i]; }
        dataFree := dataFree + count;
      }
    }

    // -------------------------------------------------------------- paths

    /** fs_resolve_checked */
    method ResolvePath(path: CString) returns (ok: bool, node: nat)
      requires Valid()
      ensures match Resolve(Tab(), kids, depth, cwd, path)
              case None => !ok
              case Some(n) => ok && node == n
    {
      hide Tree, Regions, StepTo, Walk, Tokens, Lookup;
      TreeShape(Tab(), kids, depth, dataFree);
      if path == "" { return true, cwd; }
      var p := 0;
      if path[0] == '/' {
        node := 0;
        p := 1;
        TokensSkip(path, 0);
      } else {
        node := cwd;
      }
      ghost var start := node;
      assert path[0..] == path;
      while true
        invariant p <= |path| && Used(Tab(), node)
        invariant Walk(Tab(), kids, depth, start, Tokens(path)) == Walk(Tab(), kids, depth, node, Tokens(path[p..]))
        decreases |path| - p
      {
        var more, token, p' := NextToken(path, p);
        if !more {
          WalkNowhere(Tab(), kids, depth, node);
          break;
        }
        WalkOne(Tab(), kids, depth, node, token, Tokens(path[p'..]));
        p := p';
        ok, node := Follow(node, token);
        if !ok { return false, 0; }
        while At(path, p) == '/'
          invariant p' <= p <= |path| && Tokens(path[p..]) == Tokens(path[p'..])
          decreases |path| - p
        {
          TokensSkip(path, p);
          p := p + 1;
        }
        NulAtEnd(path, p);
        if At(path, p) == '\0' {
          NoTokens(path[p..]);
          WalkNowhere(Tab(), kids, depth, node);
          break;
        }
      }
      return true, node;
    }

    /** One token of fs_resolve_checked. */
    method Follow(cur: nat, token: string) returns (ok: bool, node: nat)
      requires Valid() && Used(Tab(), cur)
      requires |kids| == NODES && forall n :: 0 < n < NODES && Tab().kind[n] != Free ==> Tab().parent[n] < NODES
      ensures match StepTo(Tab(), kids, cur, token)
              case None => !ok
              case Some(n) => ok && node == n
    {
      hide Tree, Regions, Lookup;
      node := cur;
      if token == "." {
      } else if token == ".." {
        if node != 0 { node := parent[node]; }
      } else {
        var child := FindChild(node, token);
        if child == 0 { return false, 0; }
        node := child;
      }
      return true, node;
    }

    /** fs_build_path: the node's path, cut to the buffer, and NUL terminated. */
    method BuildPath(node: nat, buf: array<char>, bufSize: nat)
      requires Valid() && (node < NODES ==> Used(Tab(), node)) && bufSize <= buf.Length
      modifies buf
      ensures bufSize > 0 && node < NODES ==> HoldsText(buf, bufSize, PathString(Tab(), kids, depth, node))
      ensures bufSize > 0 && node >= NODES ==> HoldsText(buf, bufSize, "")
      ensures bufSize == 0 ==> buf[..] == old(buf[..])
    {
      hide Tree, Regions, PathNodes, Spelled, Names, PathString;
      TreeShape(Tab(), kids, depth, dataFree);
      if bufSize == 0 { return; }
      if node >= NODES {
        buf[0] := '\0';
        return;
      }
      var stack := new nat[NODES];
      var count := StackUp(node, stack);
      PathNames(Tab(), kids, depth, node);
      ghost var nodes := PathNodes(Tab(), kids, depth, node);
      WriteOut(stack, count, buf, bufSize, nodes, Names(Tab(), nodes));
      assert Tab() == old(Tab());
    }

    /** The second loop of fs_build_path: the names from the top of the stack down. */
    method WriteOut(stack: array<nat>, count: nat, buf: array<char>, bufSize: nat,
                    ghost nodes: seq<nat>, ghost names: seq<string>)
      requires name.Length == NODES && 0 < bufSize <= buf.Length
      requires count == |nodes| + 1 == |names| + 1 <= stack.Length
      requires forall i :: 0 <= i < count ==> stack[i] == Up(nodes, i)
      requires forall i :: 0 <= i < |nodes| ==> 0 < nodes[i] < NODES && names[i] == name[nodes[i]] && GoodName(names[i])
      modifies buf
      ensures HoldsText(buf, bufSize, Spelled(names))
    {
      hide SoFar, Spelled;
      SoFarStarts(names);
      buf[0] := '/';
      var pos := 1;
      var i := count;
      while i > 0
        invariant 0 <= i <= count && pos == |SoFar(names, i)| <= bufSize && buf[..pos] == SoFar(names, i)
      {
        var n := stack[i - 1];
        if n != 0 {
          assert i <= |names| && n == nodes[|names| - i];
          SoFarStep(names, i);
          var room;
          room, pos := AppendName(buf, bufSize, pos, name[n], i > 1, SoFar(names, i), Spelled(names));
          if !room { return; }
        }
        i := i - 1;
      }
      SoFarEnds(names);
      if pos >= bufSize { pos := bufSize - 1; }
      buf[pos] := '\0';
    }

    /** The first loop of fs_build_path: the node and its ancestors, root last. */
    method StackUp(node: nat, stack: array<nat>) returns (count: nat)
      requires Valid() && Used(Tab(), node) && stack.Length == NODES
      requires stack != parent && stack != first && stack != next && stack != size && stack != off
      modifies stack
      ensures count == |PathNodes(Tab(), kids, depth, node)| + 1 <= NODES
      ensures forall i :: 0 <= i < count ==> stack[i] == Up(PathNodes(Tab(), kids, depth, node), i)
    {
      hide Tree, Regions, PathNodes;
      UpIsParent(Tab(), kids, depth, node);
      ghost var nodes := PathNodes(Tab(), kids, depth, node);
      count := 0;
      var cur := node;
      while true
        invariant count <= |nodes| < NODES && cur == Up(nodes, count)
        invariant forall i :: 0 <= i < count ==> stack[i] == Up(nodes, i)
        decreases |nodes| - count
      {
        stack[count] := cur;
        count := count + 1;
        if cur == 0 { break; }
        cur := parent[cur];
        if count >= NODES { break; }
      }
    }

    // -------------------------------------------------------------- listing

    /** fs_list_begin: an iterator at the first child, if there is one. */
    method ListBegin(dir: nat) returns (more: bool, iter: nat)
      requires Valid()
      ensures more <==> dir < NODES && kids[dir] != []
      ensures dir < NODES ==> iter == KidAt(kids[dir], 0)
    {
      if dir < NODES { ChainOf(Tab(), kids, depth, dir); }
      if dir >= NODES || kind[dir] != Dir { return false, 0; }
      iter := first[dir];
      more := iter != 0;
    }

    /** fs_list_next: one step of an iterator that stands at the `i`-th child of `d`, or behind the last. */
    method ListNext(at: nat, ghost d: nat, ghost i: nat) returns (more: bool, child: nat, iter: nat)
      requires Valid() && d < NODES && i <= |kids[d]| && at == KidAt(kids[d], i)
      ensures more <==> i < |kids[d]|
      ensures more ==> child == kids[d][i] && iter == KidAt(kids[d], i + 1)
      ensures !more ==> iter == at
    {
      ChainOf(Tab(), kids, depth, d);
      ListSuffix(next[..], first[d], kids[d], i);
      if at == 0 { return false, 0, 0; }
      ListSuffix(next[..], first[d], kids[d], i + 1);
      return true, at, next[at];
    }

    /** The part of tree_recursive that descends into a child. */
    method ListChild(child: nat, indent: nat) returns (lines: seq<Line>)
      requires Valid() && Used(Tab(), child)
      ensures AtLevel(Tab(), depth, kids[child], depth[child] + 1)
      ensures Listed(Tab(), depth, Below(Tab(), kids, depth, kids[child], depth[child] + 1), lines, depth[child] + 1, indent)
      decreases if depth[child] <= NODES then NODES - depth[child] else 0, 1
    {
      hide Tree, Regions, Below, AtLevel, Listed;
      TreeShape(Tab(), kids, depth, dataFree);
      if kind[child] == Dir {
        lines := ListTree(child, indent);
      } else {
        KidsLevel(Tab(), kids, depth, child);
        ChainOf(Tab(), kids, depth, child);
        BelowFirst(Tab(), kids, depth, kids[child], depth[child] + 1);
        ListedNothing(Tab(), depth, depth[child] + 1, indent);
        lines := [];
      }
    }

    /** tree_recursive: one line for every node below `node`, parents first, indented by depth. */
    method ListTree(node: nat, indent: nat) returns (lines: seq<Line>)
      requires Valid() && Used(Tab(), node)
      ensures AtLevel(Tab(), depth, kids[node], depth[node] + 1)
      ensures Listed(Tab(), depth, Below(Tab(), kids, depth, kids[node], depth[node] + 1), lines, depth[node] + 1, indent)
      decreases if depth[node] <= NODES then NODES - depth[node] else 0, 0
    {
      hide Tree, Regions, Below, AtLevel, Listed, Listing, KidAt;
      TreeShape(Tab(), kids, depth, dataFree);
      KidsLevel(Tab(), kids, depth, node);
      lines := [];
      ghost var met: seq<nat>, i: nat := [], 0;
      ListingStart(Tab(), kids, depth, node, indent);
      var more, iter := ListBegin(node);
      if !more {
        ListingEnd(Tab(), kids, depth, node, met, lines, indent);
        return;
      }
      while true
        invariant i <= |kids[node]| && iter == KidAt(kids[node], i)
        invariant Listing(Tab(), kids, depth, node, i, met, lines, indent)
        decreases |kids[node]| - i
      {
        if i == |kids[node]| { ListingEnd(Tab(), kids, depth, node, met, lines, indent); }
        var child;
        more, child, iter := ListNext(iter, node, i);
        if !more { break; }
        ChildFacts(Tab(), kids, depth, node, i);
        var sub := ListChild(child, indent + 1);
        ListingStep(Tab(), kids, depth, node, i, met, lines, indent, sub);
        lines := lines + [Line(indent, name[child], kind[child] == Dir)] + sub;
        met, i := met + [child] + Below(Tab(), kids, depth, kids[child], depth[child] + 1), i + 1;
      }
    }
  }

  /** The lines written before position `i` of the children of `node`: those of the nodes `met`, which together with what
      is below the children still to come are all below `node`. */
  ghost predicate Listing(t: Table, kids: seq<seq<nat>>, depth: seq<nat>, node: nat, i: nat, met: seq<nat>,
                          lines: seq<Line>, indent: nat)
    requires Shaped(t) && |kids| == |depth| == NODES && node < NODES && i <= |kids[node]|
  {
    var level, l := depth[node] + 1, kids[node];
    && Tree(t, kids, depth) && AtLevel(t, depth, l, level) && AtLevel(t, depth, l[i..], level)
    && met + Below(t, kids, depth, l[i..], level) == Below(t, kids, depth, l, level)
    && Listed(t, depth, met, lines, level, indent)
  }

  lemma ListingStart(t: Table, kids: seq<seq<nat>>, depth: seq<nat>, node: nat, indent: nat)
    requires Tree(t, kids, depth) && node < NODES
    ensures Listing(t, kids, depth, node, 0, [], [], indent)
  {
    hide Below;
    KidsLevel(t, kids, depth, node);
    assert kids[node][0..] == kids[node];
    NothingMet(Below(t, kids, depth, kids[node], depth[node] + 1));
  }

  lemma ChildFacts(t: Table, kids: seq<seq<nat>>, depth: seq<nat>, node: nat, i: nat)
    requires Tree(t, kids, depth) && node < NODES && i < |kids[node]|
    ensures Used(t, kids[node][i]) && depth[kids[node][i]] == depth[node] + 1 && depth[kids[node][i]] < NODES
  {
    KidsLevel(t, kids, depth, node);
    KidsLevel(t, kids, depth, kids[node][i]);
  }

  lemma ListingStep(t: Table, kids: seq<seq<nat>>, depth: seq<nat>, node: nat, i: nat, met: seq<nat>, lines: seq<Line>,
                    indent: nat, sub: seq<Line>)
    requires Tree(t, kids, depth) && Shaped(t) && |kids| == |depth| == NODES && node < NODES && i < |kids[node]|
    requires Listing(t, kids, depth, node, i, met, lines, indent)
    requires kids[node][i] < NODES && AtLevel(t, depth, kids[kids[node][i]], depth[kids[node][i]] + 1)
    requires Listed(t, depth, Below(t, kids, depth, kids[kids[node][i]], depth[kids[node][i]] + 1), sub,
                    depth[kids[node][i]] + 1, indent + 1)
    ensures var child := kids[node][i];
            Listing(t, kids, depth, node, i + 1,
                    met + [child] + Below(t, kids, depth, kids[child], depth[child] + 1),
                    lines + [Line(indent, t.name[child], t.kind[child] == Dir)] + sub, indent)
  {
    hide Tree, Below, AtLevel, Listed;
    var child, level, rest := kids[node][i], depth[node] + 1, kids[node][i..];
    ChildFacts(t, kids, depth, node, i);
    assert rest[0] == child && rest[1..] == kids[node][i + 1..];
    BelowFirst(t, kids, depth, rest, level);
    var under := Below(t, kids, depth, kids[child], level + 1);
    ListedMore(t, depth, met, lines, level, indent, child, Line(indent, t.name[child], t.kind[child] == Dir), under, sub);
    SplitAround(met, child, under, Below(t, kids, depth, rest[1..], level));
  }

  lemma ListingEnd(t: Table, kids: seq<seq<nat>>, depth: seq<nat>, node: nat, met: seq<nat>, lines: seq<Line>, indent: nat)
    requires Shaped(t) && |kids| == |depth| == NODES && node < NODES
    requires Listing(t, kids, depth, node, |kids[node]|, met, lines, indent)
    ensures Tree(t, kids, depth) && AtLevel(t, depth, kids[node], depth[node] + 1)
    ensures Listed(t, depth, Below(t, kids, depth, kids[node], depth[node] + 1), lines, depth[node] + 1, indent)
  {
    hide Tree, AtLevel, Listed;
    var none := kids[node][|kids[node]|..];
    BelowFirst(t, kids, depth, none, depth[node] + 1);
    NothingMet(met);
  }

  lemma NothingMet(s: seq<nat>)
    ensures [] + s == s && s + [] == s
  {
  }

  /** Creation in an empty root of a name that no path can spell, as `mkdir "a/b"` or a name with a blank comes to: the
      disk is as it should be, and the node on it is one that no absolute path finds. */
  method UnreachableExample(newName: CString, k: Kind) returns (fs: Disk, ok: bool)
    requires newName != "" && !TokenLike(TokenOf(newName)) && k != Free
    ensures fs.Valid() && ok && Used(fs.Tab(), 1) && fs.Tab().name[1] == TokenOf(newName) && fs.Tab().kind[1] == k
    ensures forall path: string :: path != "" && path[0] == '/' ==>
      Resolve(fs.Tab(), fs.kids, fs.depth, fs.cwd, path) != Some(1)
  {
    hide Chains, Children, Rooted, SiblingsDiffer, TokenOf, TokenLike, Regions, Spellable, Resolve, FilesOf, InPool, Disk.Layout;
    fs := new Disk();
    ghost var t, kids, depth := fs.Tab(), fs.kids, fs.depth;
    StoredName(newName);
    EmptyTakes(TokenOf(newName), k);
    AddedUnspellable(t, kids, depth, 1, 0, k, TokenOf(newName));
    ok := fs.Create(0, newName, k);
    forall path: string | path != "" && path[0] == '/'
      ensures Resolve(fs.Tab(), fs.kids, fs.depth, fs.cwd, path) != Some(1)
    {
      UnspellableUnreachable(fs.Tab(), fs.kids, fs.depth, fs.cwd, path, 1);
    }
  }

  lemma EmptyTakes(token: string, k: Kind)
    requires GoodName(token) && k != Free
    ensures var kids, depth := NoKids(), NoDepth();
            && CanAdd(EmptyTable(), kids, depth, 1, 0, k, token)
            && Lookup(EmptyTable(), kids[0], token) == 0 && FreeSlot(EmptyTable(), 1) == 1
  {
    EmptyIsTree();
  }

  /** A name with a slash is such a name. */
  lemma SlashIsUnspellable(name: string, i: nat)
    requires i < |name| && i < NAME_LEN - 1 && IsSep(name[i])
    ensures !TokenLike(TokenOf(name))
  {
    assert IsSep(TokenOf(name)[i]);
  }

  /** `mkdir a/b` as an instance. */
  method SlashExample() returns (fs: Disk, ok: bool)
    ensures fs.Valid() && ok && Used(fs.Tab(), 1) && fs.Tab().kind[1] == Dir
    ensures forall path: string :: path != "" && path[0] == '/' ==>
      Resolve(fs.Tab(), fs.kids, fs.depth, fs.cwd, path) != Some(1)
  {
    hide TokenOf, TokenLike, Disk.Valid, Resolve, Used;
    var name := "a/b";
    assert name[1] == '/';
    SlashIsUnspellable(name, 1);
    fs, ok := UnreachableExample(name, Dir);
  }
}
