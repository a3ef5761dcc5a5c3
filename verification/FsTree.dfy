/** The directory tree of src/lib/ramdisk.c as values: 64 slots in parallel tables, each directory's children
    chained through `next` from `first`, slot 0 the root. */
module FsTree {
  import opened CStrings

  const NODES: nat := 64
  const NAME_LEN: nat := 12

  datatype Kind = Free | Dir | File

  /** The node tables of the ram disk. */
  datatype Table = Table(kind: seq<Kind>, parent: seq<nat>, first: seq<nat>, next: seq<nat>,
                         size: seq<nat>, off: seq<nat>, name: seq<string>)

  predicate Shaped(t: Table) {
    && |t.kind| == |t.parent| == |t.first| == |t.next| == |t.size| == |t.off| == |t.name| == NODES
    && t.kind[0] == Dir
  }

  predicate Used(t: Table, n: nat)
    requires Shaped(t)
  {
    n < NODES && t.kind[n] != Free
  }

  /** A name as the creating functions store it. */
  predicate GoodName(s: string) {
    1 <= |s| < NAME_LEN && IsLower(s) && '\0' !in s
  }

  /** The chain of `next` links from `head` visits exactly the nodes `l` and ends. */
  predicate ListAt(next: seq<nat>, head: nat, l: seq<nat>)
    decreases |l|
  {
    if l == [] then head == 0
    else head == l[0] && 0 < head < |next| && ListAt(next, next[head], l[1..])
  }

  predicate ChildOf(t: Table, d: nat, n: nat)
    requires Shaped(t)
  {
    0 < n < NODES && t.kind[n] != Free && t.parent[n] == d
  }

  /** Every directory's links spell out its list of children. */
  predicate Chains(t: Table, kids: seq<seq<nat>>)
    requires Shaped(t) && |kids| == NODES
  {
    forall d :: 0 <= d < NODES ==> ListAt(t.next, t.first[d], kids[d])
  }

  /** Only directories have children, and listed children are nodes in use that name this parent. */
  predicate Children(t: Table, kids: seq<seq<nat>>)
    requires Shaped(t) && |kids| == NODES
  {
    && (forall d :: 0 <= d < NODES && t.kind[d] != Dir ==> kids[d] == [])
    && (forall d, i :: 0 <= d < NODES && 0 <= i < |kids[d]| ==> ChildOf(t, d, kids[d][i]))
  }

  /** Node `n` is listed under its parent, a directory one level up, and is properly named. */
  predicate Placed(t: Table, kids: seq<seq<nat>>, depth: seq<nat>, n: nat)
    requires Shaped(t) && |kids| == |depth| == NODES && n < NODES
  {
    var p := t.parent[n];
    p < NODES && t.kind[p] == Dir && n in kids[p] && depth[n] == depth[p] + 1 && GoodName(t.name[n])
  }

  predicate Rooted(t: Table, kids: seq<seq<nat>>, depth: seq<nat>)
    requires Shaped(t) && |kids| == |depth| == NODES
  {
    depth[0] == 0 && forall n :: 0 < n < NODES && t.kind[n] != Free ==> Placed(t, kids, depth, n)
  }

  predicate SiblingsDiffer(t: Table)
    requires Shaped(t)
  {
    forall m, n :: 0 < m < n < NODES && t.kind[m] != Free && t.kind[n] != Free && t.parent[m] == t.parent[n] ==>
      t.name[m] != t.name[n]
  }

  /** The tree invariant.  `kids` lists each directory's children in link order, `depth` the distance from the root. */
  predicate Tree(t: Table, kids: seq<seq<nat>>, depth: seq<nat>) {
    && Shaped(t) && |kids| == |depth| == NODES
    && Chains(t, kids) && Children(t, kids) && Rooted(t, kids, depth) && SiblingsDiffer(t)
  }

  /** The tables right after initialisation: the root directory and nothing else. */
  function EmptyTable(): Table {
    Table(seq(NODES, i => if i == 0 then Dir else Free), seq(NODES, _ => 0), seq(NODES, _ => 0), seq(NODES, _ => 0),
          seq(NODES, _ => 0), seq(NODES, _ => 0), seq(NODES, _ => ""))
  }

  function NoKids(): seq<seq<nat>> {
    seq(NODES, _ => [])
  }

  function NoDepth(): seq<nat> {
    seq(NODES, _ => 0)
  }

  lemma EmptyIsTree()
    ensures Tree(EmptyTable(), NoKids(), NoDepth())
  {
  }

  // ---------------------------------------------------------------- chains

  lemma {:induction false} ListUnique(next: seq<nat>, head: nat, a: seq<nat>, b: seq<nat>)
    requires ListAt(next, head, a) && ListAt(next, head, b)
    ensures a == b
    decreases |a|
  {
    if a != [] && b != [] {
      ListUnique(next, next[head], a[1..], b[1..]);
    }
  }

  lemma {:induction false} ListFrame(next: seq<nat>, next': seq<nat>, head: nat, l: seq<nat>)
    requires ListAt(next, head, l) && |next'| == |next|
    requires forall n :: n in l && n < |next| ==> next'[n] == next[n]
    ensures ListAt(next', head, l)
    decreases |l|
  {
    if l != [] { ListFrame(next, next', next[head], l[1..]); }
  }

  /** The suffix of a chain from position `i` is the chain from its `i`-th node. */
  lemma {:induction false} ListSuffix(next: seq<nat>, head: nat, l: seq<nat>, i: nat)
    requires ListAt(next, head, l) && i <= |l|
    ensures ListAt(next, if i < |l| then l[i] else 0, l[i..])
    ensures 0 < i ==> l[i - 1] < |next| && next[l[i - 1]] == if i < |l| then l[i] else 0
    decreases i
  {
    if i > 0 {
      ListSuffix(next, head, l, i - 1);
      assert l[i - 1..][1..] == l[i..];
    }
  }

  /** A chain that ends never meets a node twice. */
  lemma ListDistinct(next: seq<nat>, head: nat, l: seq<nat>, i: nat, j: nat)
    requires ListAt(next, head, l) && i < j < |l|
    ensures l[i] != l[j]
  {
    if l[i] == l[j] {
      ListSuffix(next, head, l, i);
      ListSuffix(next, head, l, j);
      ListUnique(next, l[i], l[i..], l[j..]);
    }
  }

  // ---------------------------------------------------------------- looking up and allocating

  /** fs_find_child along a child list: the first node with this name, or 0. */
  function Lookup(t: Table, l: seq<nat>, token: string): (n: nat)
    requires Shaped(t)
    ensures n < NODES
    decreases |l|
  {
    if l == [] then 0
    else if l[0] < NODES && t.kind[l[0]] != Free && t.name[l[0]] == token then l[0]
    else Lookup(t, l[1..], token)
  }

  lemma {:induction false} LookupFinds(t: Table, l: seq<nat>, token: string)
    requires Shaped(t) && forall i :: 0 <= i < |l| ==> 0 < l[i] < NODES && t.kind[l[i]] != Free
    ensures var n := Lookup(t, l, token);
            if n == 0 then forall m :: m in l ==> t.name[m] != token else n in l && t.name[n] == token
    decreases |l|
  {
    if l != [] {
      LookupFinds(t, l[1..], token);
    }
  }

  /** In a tree, looking a name up under `d` finds exactly the child of that name. */
  lemma ChildByName(t: Table, kids: seq<seq<nat>>, depth: seq<nat>, d: nat, token: string, n: nat)
    requires Tree(t, kids, depth) && d < NODES
    ensures forall i :: 0 <= i < |kids[d]| ==> 0 < kids[d][i] < NODES && t.kind[kids[d][i]] != Free
    ensures n != 0 ==>
              (Lookup(t, kids[d], token) == n <==> Used(t, n) && t.parent[n] == d && t.name[n] == token)
  {
    assert forall i :: 0 <= i < |kids[d]| ==> ChildOf(t, d, kids[d][i]);
    LookupFinds(t, kids[d], token);
  }

  /** fs_alloc_node: the lowest free slot above the root, or 0. */
  function FreeSlot(t: Table, from: nat): (n: nat)
    requires Shaped(t) && 0 < from <= NODES
    ensures n != 0 ==> from <= n < NODES && t.kind[n] == Free && forall i :: from <= i < n ==> t.kind[i] != Free
    ensures n == 0 ==> forall i :: from <= i < NODES ==> t.kind[i] != Free
    decreases NODES - from
  {
    if from == NODES then 0 else if t.kind[from] == Free then from else FreeSlot(t, from + 1)
  }

  // ---------------------------------------------------------------- creating

  /** The tables after a new node is linked in front of its parent's children. */
  function Added(t: Table, n: nat, p: nat, kind: Kind, name: string): Table
    requires Shaped(t) && n < NODES && p < NODES
  {
    Table(t.kind[n := kind], t.parent[n := p], t.first[n := 0][p := n], t.next[n := t.first[p]],
          t.size[n := 0], t.off[n := 0], t.name[n := name])
  }

  predicate CanAdd(t: Table, kids: seq<seq<nat>>, depth: seq<nat>, n: nat, p: nat, kind: Kind, name: string) {
    && Tree(t, kids, depth)
    && 0 < n < NODES && t.kind[n] == Free && p < NODES && t.kind[p] == Dir && kind != Free
    && GoodName(name) && forall m :: 0 < m < NODES && t.kind[m] != Free && t.parent[m] == p ==> t.name[m] != name
  }

  lemma AddKeepsChains(t: Table, kids: seq<seq<nat>>, depth: seq<nat>, n: nat, p: nat, kind: Kind, name: string)
    requires CanAdd(t, kids, depth, n, p, kind, name)
    ensures Chains(Added(t, n, p, kind, name), kids[p := [n] + kids[p]])
  {
    hide Rooted, SiblingsDiffer, Lookup;
    var t', kids' := Added(t, n, p, kind, name), kids[p := [n] + kids[p]];
    forall d | 0 <= d < NODES ensures ListAt(t'.next, t'.first[d], kids'[d]) {
      assert forall i :: 0 <= i < |kids[d]| ==> ChildOf(t, d, kids[d][i]);
      ListFrame(t.next, t'.next, t.first[d], kids[d]);
      if d == p {
        assert ([n] + kids[p])[1..] == kids[p];
      }
    }
  }

  lemma AddKeepsChildren(t: Table, kids: seq<seq<nat>>, depth: seq<nat>, n: nat, p: nat, kind: Kind, name: string)
    requires CanAdd(t, kids, depth, n, p, kind, name)
    ensures Children(Added(t, n, p, kind, name), kids[p := [n] + kids[p]])
  {
    hide Chains, Rooted, SiblingsDiffer;
    var t', kids' := Added(t, n, p, kind, name), kids[p := [n] + kids[p]];
    forall d, i | 0 <= d < NODES && 0 <= i < |kids'[d]| ensures ChildOf(t', d, kids'[d][i]) {
      if d != p || i > 0 {
        assert ChildOf(t, d, kids[d][if d == p then i - 1 else i]);
      }
    }
  }

  lemma AddKeepsSiblings(t: Table, kids: seq<seq<nat>>, depth: seq<nat>, n: nat, p: nat, kind: Kind, name: string)
    requires CanAdd(t, kids, depth, n, p, kind, name)
    ensures SiblingsDiffer(Added(t, n, p, kind, name))
  {
    hide Chains, Children, Rooted;
  }

  lemma AddKeepsTree(t: Table, kids: seq<seq<nat>>, depth: seq<nat>, n: nat, p: nat, kind: Kind, name: string)
    requires CanAdd(t, kids, depth, n, p, kind, name)
    ensures Tree(Added(t, n, p, kind, name), kids[p := [n] + kids[p]], depth[n := depth[p] + 1])
  {
    hide Chains, Children, SiblingsDiffer;
    AddKeepsSiblings(t, kids, depth, n, p, kind, name);
    AddKeepsChains(t, kids, depth, n, p, kind, name);
    AddKeepsChildren(t, kids, depth, n, p, kind, name);
    var t', kids', depth' := Added(t, n, p, kind, name), kids[p := [n] + kids[p]], depth[n := depth[p] + 1];
    forall m | 0 < m < NODES && t'.kind[m] != Free ensures Placed(t', kids', depth', m) {
      if m != n { assert Placed(t, kids, depth, m) && t.parent[m] != n; }
    }
  }

  // ---------------------------------------------------------------- deleting

  /** The chain with node `n` bypassed, starting at `cur`. */
  function Unlinked(next: seq<nat>, l: seq<nat>, n: nat): seq<nat>
    requires n < |next|
  {
    if l == [] then next
    else if l[0] < |next| && next[l[0]] == n then next[l[0] := next[n]]
    else Unlinked(next, l[1..], n)
  }

  predicate Deletable(t: Table, n: nat)
    requires Shaped(t)
  {
    0 < n < NODES && t.kind[n] != Free && !(t.kind[n] == Dir && t.first[n] != 0)
  }

  /** What can be deleted: a node in use other than the root that is the parent of no node in use. */
  lemma DeletableMeaning(t: Table, kids: seq<seq<nat>>, depth: seq<nat>, n: nat)
    requires Tree(t, kids, depth)
    ensures Deletable(t, n) <==>
            && 0 < n < NODES && t.kind[n] != Free
            && !exists m :: 0 < m < NODES && t.kind[m] != Free && t.parent[m] == n
  {
    hide SiblingsDiffer;
    if 0 < n < NODES && t.kind[n] == Dir && t.first[n] != 0 {
      assert ChildOf(t, n, kids[n][0]);
    }
    forall m | 0 < m < NODES && t.kind[m] != Free && t.parent[m] == n ensures !Deletable(t, n) {
      assert Placed(t, kids, depth, m);
    }
  }

  /** fs_delete as written: a node whose parent is the root is not taken out of the root's child list. */
  function Deleted(t: Table, kids: seq<seq<nat>>, n: nat): Table
    requires Shaped(t) && Deletable(t, n) && t.parent[n] < NODES == |kids|
  {
    var p := t.parent[n];
    var freed := t.(kind := t.kind[n := Free]);
    if p == 0 then freed
    else if t.first[p] == n then freed.(first := t.first[p := t.next[n]])
    else freed.(next := Unlinked(t.next, kids[p], n))
  }

  function Without(l: seq<nat>, n: nat): seq<nat> {
    if l == [] then [] else if l[0] == n then l[1..] else [l[0]] + Without(l[1..], n)
  }

  lemma {:induction false} UnlinkList(next: seq<nat>, head: nat, l: seq<nat>, n: nat)
    requires ListAt(next, head, l) && n in l && head != n
    ensures forall i :: 0 <= i < |l| ==> l[i] < |next|
    ensures n < |next| && |Unlinked(next, l, n)| == |next|
    ensures ListAt(Unlinked(next, l, n), head, Without(l, n))
    ensures forall m :: 0 <= m < |next| && m !in l ==> Unlinked(next, l, n)[m] == next[m]
    ensures Unlinked(next, l, n)[n] == next[n]
    decreases |l|
  {
    ListBounds(next, head, l);
    var rest := l[1..];
    if next[head] == n {
      assert rest[0] == n;
      var next' := next[head := next[n]];
      ListNotIn(next, head, l);
      assert rest[1..] == l[2..];
      ListSuffix(next, head, l, 2);
      ListFrame(next, next', next[n], l[2..]);
      assert Without(l, n) == [head] + l[2..];
      assert ([head] + l[2..])[1..] == l[2..];
    } else {
      UnlinkList(next, next[head], rest, n);
      var next' := Unlinked(next, rest, n);
      ListNotIn(next, head, l);
      assert next'[head] == next[head];
      assert ([head] + Without(rest, n))[1..] == Without(rest, n);
    }
  }

  lemma {:induction false} ListBounds(next: seq<nat>, head: nat, l: seq<nat>)
    requires ListAt(next, head, l)
    ensures forall i :: 0 <= i < |l| ==> 0 < l[i] < |next|
    decreases |l|
  {
    if l != [] { ListBounds(next, next[head], l[1..]); }
  }

  lemma ListNotIn(next: seq<nat>, head: nat, l: seq<nat>)
    requires ListAt(next, head, l) && l != []
    ensures head !in l[1..]
  {
    if head in l[1..] {
      var j :| 0 <= j < |l[1..]| && l[1..][j] == head;
      ListDistinct(next, head, l, 0, j + 1);
    }
  }

  lemma {:induction false} WithoutMembers(next: seq<nat>, head: nat, l: seq<nat>, n: nat)
    requires ListAt(next, head, l)
    ensures forall m :: m in Without(l, n) <==> m in l && m != n
    decreases |l|
  {
    if l != [] {
      ListNotIn(next, head, l);
      WithoutMembers(next, next[head], l[1..], n);
    }
  }

  predicate CanDelete(t: Table, kids: seq<seq<nat>>, depth: seq<nat>, n: nat) {
    Tree(t, kids, depth) && Deletable(t, n) && t.parent[n] != 0
  }

  /** Where a node to be deleted stands. */
  lemma DeletePlace(t: Table, kids: seq<seq<nat>>, depth: seq<nat>, n: nat)
    requires CanDelete(t, kids, depth, n)
    ensures var p := t.parent[n];
            && p < NODES && t.kind[p] == Dir && p != n && n in kids[p] && kids[n] == []
            && (forall i :: 0 <= i < |kids[p]| ==> ChildOf(t, p, kids[p][i]))
  {
    hide SiblingsDiffer;
    assert Placed(t, kids, depth, n);
  }

  /** What deleting touches: the slot is freed and only the links of the parent's list change. */
  lemma DeleteFacts(t: Table, kids: seq<seq<nat>>, depth: seq<nat>, n: nat)
    requires CanDelete(t, kids, depth, n)
    ensures var p := t.parent[n];
            && p < NODES && t.kind[p] == Dir && p != n && n in kids[p] && kids[n] == []
            && (forall i :: 0 <= i < |kids[p]| ==> ChildOf(t, p, kids[p][i]))
    ensures var t' := Deleted(t, kids, n);
            && Shaped(t') && t'.kind == t.kind[n := Free] && t'.parent == t.parent && t'.name == t.name
            && t'.size == t.size && t'.off == t.off
            && (forall d :: 0 <= d < NODES && d != t.parent[n] ==> t'.first[d] == t.first[d])
            && (forall m :: 0 <= m < NODES && m !in kids[t.parent[n]] ==> t'.next[m] == t.next[m])
            && ListAt(t'.next, t'.first[t.parent[n]], Without(kids[t.parent[n]], n))
  {
    hide Children, Rooted, SiblingsDiffer;
    DeletePlace(t, kids, depth, n);
    var p := t.parent[n];
    if t.first[p] != n {
      UnlinkList(t.next, t.first[p], kids[p], n);
    } else {
      assert Without(kids[p], n) == kids[p][1..];
    }
  }

  lemma DeleteKeepsChains(t: Table, kids: seq<seq<nat>>, depth: seq<nat>, n: nat)
    requires CanDelete(t, kids, depth, n)
    ensures t.parent[n] < NODES
    ensures Shaped(Deleted(t, kids, n)) && Chains(Deleted(t, kids, n), kids[t.parent[n] := Without(kids[t.parent[n]], n)])
  {
    DeleteFacts(t, kids, depth, n);
    hide Rooted, SiblingsDiffer, Deleted;
    var p := t.parent[n];
    var t', kids' := Deleted(t, kids, n), kids[p := Without(kids[p], n)];
    forall d | 0 <= d < NODES ensures ListAt(t'.next, t'.first[d], kids'[d]) {
      if d != p {
        assert forall i :: 0 <= i < |kids[d]| ==> ChildOf(t, d, kids[d][i]);
        ListFrame(t.next, t'.next, t.first[d], kids[d]);
      }
    }
  }

  lemma DeleteKeepsChildren(t: Table, kids: seq<seq<nat>>, depth: seq<nat>, n: nat)
    requires CanDelete(t, kids, depth, n)
    ensures t.parent[n] < NODES
    ensures Shaped(Deleted(t, kids, n)) && Children(Deleted(t, kids, n), kids[t.parent[n] := Without(kids[t.parent[n]], n)])
  {
    DeleteFacts(t, kids, depth, n);
    var p := t.parent[n];
    WithoutMembers(t.next, t.first[p], kids[p], n);
    hide Rooted, SiblingsDiffer, Deleted, Chains, Without;
    FreeKeepsChildren(t, Deleted(t, kids, n), kids, n, Without(kids[p], n));
  }

  lemma FreeKeepsChildren(t: Table, t': Table, kids: seq<seq<nat>>, n: nat, l: seq<nat>)
    requires Shaped(t) && Shaped(t') && |kids| == NODES && Children(t, kids) && 0 < n < NODES
    requires t'.kind == t.kind[n := Free] && t'.parent == t.parent
    requires t.parent[n] < NODES && t.kind[t.parent[n]] == Dir && t.parent[n] != n && kids[n] == []
    requires forall m :: m in l ==> m in kids[t.parent[n]] && m != n
    ensures Children(t', kids[t.parent[n] := l])
  {
    var p := t.parent[n];
    forall i | 0 <= i < |l| ensures ChildOf(t', p, l[i]) {
      assert l[i] in l;
      var j :| 0 <= j < |kids[p]| && kids[p][j] == l[i];
      assert ChildOf(t, p, kids[p][j]);
    }
    forall d, i | 0 <= d < NODES && d != p && 0 <= i < |kids[d]| ensures ChildOf(t', d, kids[d][i]) {
      assert ChildOf(t, d, kids[d][i]);
    }
  }

  lemma FreeKeepsSiblings(t: Table, t': Table, n: nat)
    requires Shaped(t) && Shaped(t') && SiblingsDiffer(t) && n < NODES
    requires t'.kind == t.kind[n := Free] && t'.parent == t.parent && t'.name == t.name
    ensures SiblingsDiffer(t')
  {
  }

  lemma FreeKeepsRooted(t: Table, t': Table, kids: seq<seq<nat>>, depth: seq<nat>, n: nat, l: seq<nat>)
    requires Shaped(t) && Shaped(t') && |kids| == |depth| == NODES && Rooted(t, kids, depth)
    requires 0 < n < NODES && t.parent[n] < NODES && kids[n] == []
    requires t'.kind == t.kind[n := Free] && t'.parent == t.parent && t'.name == t.name
    requires forall m :: m in kids[t.parent[n]] && m != n ==> m in l
    ensures Rooted(t', kids[t.parent[n] := l], depth)
  {
    forall m | 0 < m < NODES && t'.kind[m] != Free ensures Placed(t', kids[t.parent[n] := l], depth, m) {
      assert Placed(t, kids, depth, m);
    }
  }

  /** Deleting below the root keeps the tree. */
  lemma DeleteKeepsTree(t: Table, kids: seq<seq<nat>>, depth: seq<nat>, n: nat)
    requires CanDelete(t, kids, depth, n)
    ensures t.parent[n] < NODES
    ensures Tree(Deleted(t, kids, n), kids[t.parent[n] := Without(kids[t.parent[n]], n)], depth)
  {
    DeleteFacts(t, kids, depth, n);
    DeleteKeepsChains(t, kids, depth, n);
    DeleteKeepsChildren(t, kids, depth, n);
    var p := t.parent[n];
    WithoutMembers(t.next, t.first[p], kids[p], n);
    hide Chains, Children, Deleted, Without, Rooted, SiblingsDiffer;
    FreeKeepsRooted(t, Deleted(t, kids, n), kids, depth, n, Without(kids[p], n));
    FreeKeepsSiblings(t, Deleted(t, kids, n), n);
  }

  /** Deleting a child of the root leaves a freed slot in the root's child list: the tables are no tree any more,
      however one reads them. */
  lemma DeleteUnderRootBreaks(t: Table, kids: seq<seq<nat>>, depth: seq<nat>, n: nat,
                              kids': seq<seq<nat>>, depth': seq<nat>)
    requires Tree(t, kids, depth) && Deletable(t, n) && t.parent[n] == 0
    ensures !Tree(Deleted(t, kids, n), kids', depth')
  {
    ListBounds(t.next, t.first[0], kids[0]);
    assert Placed(t, kids, depth, n);
    if Tree(Deleted(t, kids, n), kids', depth') {
      ListUnique(t.next, t.first[0], kids[0], kids'[0]);
    }
  }

  /** A concrete run that shows the damage: make a directory in an empty root, delete it, make another.  The freed slot
      is still first in the root's list, is taken again, and ends up linked to itself. */
  lemma RootDeleteThenCreateLoops()
    ensures var one := Added(EmptyTable(), 1, 0, Dir, "a");
            var two := Added(Deleted(one, seq(NODES, i => if i == 0 then [1] else []), 1), 1, 0, Dir, "b");
            && Deletable(one, 1) && FreeSlot(Deleted(one, seq(NODES, i => if i == 0 then [1] else []), 1), 1) == 1
            && two.first[0] == 1 && two.next[1] == 1
  {
  }
}
