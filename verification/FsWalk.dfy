/** The recursive listing of src/commands/tree.c: it terminates and meets every descendant exactly once. */
module FsWalk {
  import opened FsTree
  import opened FsPath

  predicate AtLevel(t: Table, depth: seq<nat>, l: seq<nat>, level: nat)
    requires Shaped(t) && |depth| == NODES
  {
    forall i :: 0 <= i < |l| ==> 0 < l[i] < NODES && t.kind[l[i]] != Free && depth[l[i]] == level
  }

  lemma KidsLevel(t: Table, kids: seq<seq<nat>>, depth: seq<nat>, n: nat)
    requires Tree(t, kids, depth) && n < NODES
    ensures AtLevel(t, depth, kids[n], depth[n] + 1)
    ensures Used(t, n) ==> depth[n] < NODES
  {
    forall i | 0 <= i < |kids[n]|
      ensures 0 < kids[n][i] < NODES && t.kind[kids[n][i]] != Free && depth[kids[n][i]] == depth[n] + 1
    {
      assert ChildOf(t, n, kids[n][i]);
      assert Placed(t, kids, depth, kids[n][i]);
    }
    if Used(t, n) { DepthBound(t, kids, depth, n); }
  }

  /** The nodes met when walking the sibling list `l` and, depth first, everything below it. */
  function Below(t: Table, kids: seq<seq<nat>>, depth: seq<nat>, l: seq<nat>, level: nat): seq<nat>
    requires Tree(t, kids, depth) && AtLevel(t, depth, l, level)
    decreases if level <= NODES then NODES - level else 0, |l|
  {
    if l == [] then []
    else
      KidsLevel(t, kids, depth, l[0]);
      [l[0]] + Below(t, kids, depth, kids[l[0]], level + 1) + Below(t, kids, depth, l[1..], level)
  }

  /** Two ancestors of a node at the same depth are the same node. */
  lemma {:induction false} AncestorUnique(t: Table, kids: seq<seq<nat>>, depth: seq<nat>, x: nat, a: nat, b: nat)
    requires Tree(t, kids, depth) && Used(t, x)
    requires a in Ancestors(t, kids, depth, x) && b in Ancestors(t, kids, depth, x)
    requires a < NODES && b < NODES && depth[a] == depth[b]
    ensures a == b
    decreases depth[x]
  {
    if x != 0 {
      assert Placed(t, kids, depth, x);
      AncestorCount(t, kids, depth, t.parent[x]);
      if a != x && b != x { AncestorUnique(t, kids, depth, t.parent[x], a, b); }
    }
  }

  /** The way up passes from a node to its parent. */
  lemma {:induction false} ParentIsAncestor(t: Table, kids: seq<seq<nat>>, depth: seq<nat>, x: nat, a: nat)
    requires Tree(t, kids, depth) && Used(t, x) && a in Ancestors(t, kids, depth, x) && 0 < a < NODES
    ensures t.parent[a] in Ancestors(t, kids, depth, x)
    decreases depth[x]
  {
    if x != 0 {
      assert Placed(t, kids, depth, x);
      if a == x {
        assert t.parent[x] in Ancestors(t, kids, depth, t.parent[x]);
      } else {
        ParentIsAncestor(t, kids, depth, t.parent[x], a);
      }
    }
  }

  /** Below a proper ancestor there is a child of it that is an ancestor too. */
  lemma {:induction false} ChildOnTheWay(t: Table, kids: seq<seq<nat>>, depth: seq<nat>, x: nat, a: nat) returns (c: nat)
    requires Tree(t, kids, depth) && Used(t, x) && a in Ancestors(t, kids, depth, x) && a != x && a < NODES
    ensures c in Ancestors(t, kids, depth, x) && c in kids[a]
    decreases depth[x]
  {
    assert Placed(t, kids, depth, x);
    if t.parent[x] == a {
      c := x;
    } else {
      c := ChildOnTheWay(t, kids, depth, t.parent[x], a);
    }
  }

  predicate Distinct(l: seq<nat>) {
    forall i, j :: 0 <= i < j < |l| ==> l[i] != l[j]
  }

  lemma KidsDistinct(t: Table, kids: seq<seq<nat>>, depth: seq<nat>, n: nat)
    requires Tree(t, kids, depth) && n < NODES
    ensures Distinct(kids[n])
  {
    forall i, j | 0 <= i < j < |kids[n]| ensures kids[n][i] != kids[n][j] {
      ListDistinct(t.next, t.first[n], kids[n], i, j);
    }
  }

  predicate Meets(l: seq<nat>, up: set<nat>) {
    exists c :: c in l && c in up
  }

  function Hit(b: bool): nat {
    if b then 1 else 0
  }

  /** How often `x` is met: once when one of the listed nodes is on its way to the root, else never. */
  lemma {:induction false} BelowCount(t: Table, kids: seq<seq<nat>>, depth: seq<nat>, l: seq<nat>, level: nat, x: nat)
    requires Tree(t, kids, depth) && AtLevel(t, depth, l, level) && Distinct(l) && Used(t, x)
    ensures Occurs(Below(t, kids, depth, l, level), x) == Hit(Meets(l, Ancestors(t, kids, depth, x)))
    decreases if level <= NODES then NODES - level else 0, |l|
  {
    hide Chains, Children, Rooted, SiblingsDiffer, Ancestors, Meets, Occurs, Distinct;
    DistinctTail(l);
    if l == [] {
      OccursNowhere(x);
      assert !Meets(l, Ancestors(t, kids, depth, x)) by { MeetsNone(Ancestors(t, kids, depth, x)); }
    } else {
      var c := l[0];
      KidsLevel(t, kids, depth, c);
      KidsDistinct(t, kids, depth, c);
      BelowCount(t, kids, depth, kids[c], level + 1, x);
      BelowCount(t, kids, depth, l[1..], level, x);
      CountFirst(t, kids, depth, l, level, x);
      OccursAppend(c, Below(t, kids, depth, kids[c], level + 1), Below(t, kids, depth, l[1..], level), x);
    }
  }

  lemma MeetsNone(up: set<nat>)
    ensures !Meets([], up)
  {
  }

  function Occurs(s: seq<nat>, x: nat): nat {
    multiset(s)[x]
  }

  lemma OccursAppend(c: nat, a: seq<nat>, b: seq<nat>, x: nat)
    ensures Occurs([c] + a + b, x) == Hit(c == x) + Occurs(a, x) + Occurs(b, x)
  {
  }

  lemma OccursNowhere(x: nat)
    ensures Occurs([], x) == 0
  {
  }

  lemma DistinctTail(l: seq<nat>)
    requires Distinct(l)
    ensures l != [] ==> Distinct(l[1..])
  {
  }

  lemma CountFirst(t: Table, kids: seq<seq<nat>>, depth: seq<nat>, l: seq<nat>, level: nat, x: nat)
    requires Tree(t, kids, depth) && AtLevel(t, depth, l, level) && Distinct(l) && Used(t, x) && l != []
    ensures var up := Ancestors(t, kids, depth, x);
            Hit(Meets(l, up)) == Hit(l[0] == x) + Hit(Meets(kids[l[0]], up)) + Hit(Meets(l[1..], up))
  {
    hide Chains, Children, Rooted, SiblingsDiffer, Ancestors;
    var up, a := Ancestors(t, kids, depth, x), l[0];
    if a in up {
      RestMissed(t, kids, depth, l, level, x);
    }
    KidsMeet(t, kids, depth, a, x);
    assert Meets(l, up) <==> a in up || Meets(l[1..], up) by {
      assert l == [a] + l[1..];
    }
  }

  lemma RestMissed(t: Table, kids: seq<seq<nat>>, depth: seq<nat>, l: seq<nat>, level: nat, x: nat)
    requires Tree(t, kids, depth) && AtLevel(t, depth, l, level) && Distinct(l) && Used(t, x) && l != []
    requires l[0] in Ancestors(t, kids, depth, x)
    ensures !Meets(l[1..], Ancestors(t, kids, depth, x))
  {
    forall c | c in l[1..] ensures c !in Ancestors(t, kids, depth, x) {
      if c in Ancestors(t, kids, depth, x) { AncestorUnique(t, kids, depth, x, l[0], c); }
    }
  }

  /** A child of `a` lies on the way up from `x` exactly when `x` is properly below `a`. */
  lemma KidsMeet(t: Table, kids: seq<seq<nat>>, depth: seq<nat>, a: nat, x: nat)
    requires Tree(t, kids, depth) && Used(t, a) && Used(t, x)
    ensures Meets(kids[a], Ancestors(t, kids, depth, x)) <==> a in Ancestors(t, kids, depth, x) && a != x
    ensures x in Ancestors(t, kids, depth, x)
  {
    var up := Ancestors(t, kids, depth, x);
    AncestorCount(t, kids, depth, x);
    KidsLevel(t, kids, depth, a);
    if a in up && a != x { var c := ChildOnTheWay(t, kids, depth, x, a); }
    forall i | 0 <= i < |kids[a]| && kids[a][i] in up ensures a in up && a != x {
      assert ChildOf(t, a, kids[a][i]);
      ParentIsAncestor(t, kids, depth, x, kids[a][i]);
    }
  }

  /** Only nodes in use are met. */
  lemma {:induction false} BelowUsed(t: Table, kids: seq<seq<nat>>, depth: seq<nat>, l: seq<nat>, level: nat, x: nat)
    requires Tree(t, kids, depth) && AtLevel(t, depth, l, level)
    ensures Occurs(Below(t, kids, depth, l, level), x) > 0 ==> 0 < x && Used(t, x)
    decreases if level <= NODES then NODES - level else 0, |l|
  {
    hide Chains, Children, Rooted, SiblingsDiffer, Below, Occurs;
    BelowFirst(t, kids, depth, l, level);
    if l == [] {
      OccursNowhere(x);
    } else {
      KidsLevel(t, kids, depth, l[0]);
      var under, rest := Below(t, kids, depth, kids[l[0]], level + 1), Below(t, kids, depth, l[1..], level);
      OccursAppend(l[0], under, rest, x);
      BelowUsed(t, kids, depth, kids[l[0]], level + 1, x);
      BelowUsed(t, kids, depth, l[1..], level, x);
    }
  }

  /** The listing below `n` meets each proper descendant of `n` exactly once and nothing else. */
  lemma EachDescendantOnce(t: Table, kids: seq<seq<nat>>, depth: seq<nat>, n: nat, x: nat)
    requires Tree(t, kids, depth) && Used(t, n)
    ensures AtLevel(t, depth, kids[n], depth[n] + 1)
    ensures Occurs(Below(t, kids, depth, kids[n], depth[n] + 1), x) ==
            if Used(t, x) && x != n && n in Ancestors(t, kids, depth, x) then 1 else 0
  {
    hide Chains, Children, Rooted, SiblingsDiffer, Ancestors, Meets, Below;
    KidsLevel(t, kids, depth, n);
    KidsDistinct(t, kids, depth, n);
    BelowUsed(t, kids, depth, kids[n], depth[n] + 1, x);
    if Used(t, x) {
      BelowCount(t, kids, depth, kids[n], depth[n] + 1, x);
      KidsMeet(t, kids, depth, n, x);
    }
  }

  lemma BelowFirst(t: Table, kids: seq<seq<nat>>, depth: seq<nat>, l: seq<nat>, level: nat)
    requires Tree(t, kids, depth) && AtLevel(t, depth, l, level)
    ensures l == [] ==> Below(t, kids, depth, l, level) == []
    ensures l != [] ==>
              && |kids| == NODES && AtLevel(t, depth, kids[l[0]], level + 1) && AtLevel(t, depth, l[1..], level)
              && Below(t, kids, depth, l, level) ==
                 [l[0]] + Below(t, kids, depth, kids[l[0]], level + 1) + Below(t, kids, depth, l[1..], level)
              && (t.kind[l[0]] != Dir ==> kids[l[0]] == [])
  {
    if l != [] { KidsLevel(t, kids, depth, l[0]); }
  }
}
