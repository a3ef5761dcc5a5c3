/** Paths of src/lib/ramdisk.c: splitting a path into tokens, walking the tree along them, and writing the path of
    a node.  The main theorem says for which nodes the two are inverse to each other. */
module FsPath {
  import opened CStrings
  import opened FsTree
  import opened Wrappers

  // ---------------------------------------------------------------- tokens

  predicate IsSep(c: char) {
    c == ' ' || c == '/'
  }

  function SkipSeps(s: string): (r: string)
    ensures |r| <= |s| && (r == "" || !IsSep(r[0]))
  {
    if s == "" || !IsSep(s[0]) then s else SkipSeps(s[1..])
  }

  /** Length of the word at the start of `s`. */
  function WordLen(s: string): (n: nat)
    ensures n <= |s| && (n < |s| ==> IsSep(s[n])) && forall i :: 0 <= i < n ==> !IsSep(s[i])
  {
    if s == "" || IsSep(s[0]) then 0 else 1 + WordLen(s[1..])
  }

  /** A word as a token: lower case and cut to the longest name a node can have. */
  function TokenOf(word: string): string {
    Lower(word[..Min(|word|, NAME_LEN - 1)])
  }

  function Tokens(s: string): seq<string>
    decreases |s|
  {
    var r := SkipSeps(s);
    if r == "" then []
    else [TokenOf(r[..WordLen(r)])] + Tokens(r[WordLen(r)..])
  }

  /** fs_next_token: advances past separators and one word; the token is that word. */
  method NextToken(path: CString, start: nat) returns (ok: bool, token: string, p: nat)
    requires start <= |path|
    ensures start <= p <= |path| && (ok ==> start < p)
    ensures Tokens(path[start..]) == if ok then [token] + Tokens(path[p..]) else []
  {
    hide Tokens, WordLen, SkipSeps;
    p := start;
    while At(path, p) == ' ' || At(path, p) == '/'
      invariant start <= p <= |path| && Tokens(path[start..]) == Tokens(path[p..])
      decreases |path| - p
    {
      TokensSkip(path, p);
      p := p + 1;
    }
    NulAtEnd(path, p);
    if At(path, p) == '\0' {
      NoTokens(path[p..]);
      return false, "", p;
    }
    ghost var word := p;
    token := "";
    while At(path, p) != '\0' && At(path, p) != ' ' && At(path, p) != '/' && |token| < NAME_LEN - 1
      invariant word <= p <= |path| && |token| == p - word <= NAME_LEN - 1
      invariant forall i :: word <= i < p ==> !IsSep(path[i])
      invariant forall i :: 0 <= i < |token| ==> token[i] == LowerChar(path[word + i])
      decreases |path| - p
    {
      token := token + [LowerChar(At(path, p))];
      p := p + 1;
    }
    NulAtEnd(path, p);
    while At(path, p) != '\0' && At(path, p) != ' ' && At(path, p) != '/'
      invariant word + |token| <= p <= |path|
      invariant forall i :: word <= i < p ==> !IsSep(path[i])
      invariant |token| < NAME_LEN - 1 ==> p == word + |token| && (p == |path| || IsSep(path[p]))
      decreases |path| - p
    {
      p := p + 1;
    }
    NulAtEnd(path, p);
    TokenAt(path, word, p, token);
    return true, token, p;
  }

  lemma NoTokens(s: string)
    requires s == ""
    ensures Tokens(s) == []
  {
  }

  lemma TokensSkip(path: string, p: nat)
    requires p < |path| && IsSep(path[p])
    ensures Tokens(path[p..]) == Tokens(path[p + 1..])
  {
    assert path[p..][1..] == path[p + 1..];
    assert SkipSeps(path[p..]) == SkipSeps(path[p + 1..]);
  }

  lemma NulAtEnd(path: CString, p: nat)
    requires p <= |path|
    ensures At(path, p) == '\0' <==> p == |path|
  {
    assert p < |path| ==> path[p] in path;
  }

  lemma {:induction false} WordLenUnique(s: string, n: nat)
    requires n <= |s| && (n == |s| || IsSep(s[n])) && forall i :: 0 <= i < n ==> !IsSep(s[i])
    ensures WordLen(s) == n
    decreases n
  {
    if n > 0 { WordLenUnique(s[1..], n - 1); }
  }

  lemma TokenAt(path: string, word: nat, p: nat, token: string)
    requires word < p <= |path| && |token| <= p - word && |token| <= NAME_LEN - 1
    requires (p == |path| || IsSep(path[p])) && forall i :: word <= i < p ==> !IsSep(path[i])
    requires forall i :: 0 <= i < |token| ==> token[i] == LowerChar(path[word + i])
    requires |token| < NAME_LEN - 1 ==> p == word + |token|
    ensures Tokens(path[word..]) == [token] + Tokens(path[p..])
  {
    var r := path[word..];
    WordLenUnique(r, p - word);
    assert SkipSeps(r) == r && r[p - word..] == path[p..];
    var cut := r[..p - word][..Min(p - word, NAME_LEN - 1)];
    assert |cut| == |token|;
    forall i | 0 <= i < |token| ensures Lower(cut)[i] == token[i] {
      assert cut[i] == path[word + i];
    }
    assert token == Lower(cut) == TokenOf(r[..p - word]);
  }

  /** A separator between two texts separates their tokens. */
  lemma {:induction false} TokensSplit(a: string, sep: char, b: string)
    requires IsSep(sep)
    ensures Tokens(a + [sep] + b) == Tokens(a) + Tokens(b)
    decreases |a|
  {
    hide Tokens, TokenOf, SkipSeps;
    var s := a + [sep] + b;
    if a == "" {
      NoTokens(a);
      assert s == [sep] + b;
      TokensSep(sep, b);
    } else if IsSep(a[0]) {
      assert a == [a[0]] + a[1..] && s == [a[0]] + (a[1..] + [sep] + b);
      TokensSep(a[0], a[1..]);
      TokensSep(a[0], a[1..] + [sep] + b);
      TokensSplit(a[1..], sep, b);
    } else {
      var word, rest := a[..WordLen(a)], a[WordLen(a)..];
      assert s == word + (rest + [sep] + b) && a == word + rest;
      TokensWord(word, rest + [sep] + b);
      TokensWord(word, rest);
      TokensSplit(rest, sep, b);
      assert [TokenOf(word)] + (Tokens(rest) + Tokens(b)) == [TokenOf(word)] + Tokens(rest) + Tokens(b);
    }
  }

  lemma TokensSep(sep: char, s: string)
    requires IsSep(sep)
    ensures Tokens([sep] + s) == Tokens(s)
  {
    assert ([sep] + s)[0..] == [sep] + s && ([sep] + s)[1..] == s;
    TokensSkip([sep] + s, 0);
  }

  /** A word at the start is the first token. */
  lemma TokensWord(word: string, rest: string)
    requires word != "" && forall i :: 0 <= i < |word| ==> !IsSep(word[i])
    requires rest == "" || IsSep(rest[0])
    ensures Tokens(word + rest) == [TokenOf(word)] + Tokens(rest)
  {
    var s := word + rest;
    WordLenUnique(s, |word|);
    assert SkipSeps(s) == s && s[..|word|] == word && s[|word|..] == rest;
  }

  /** A name that a path can spell. */
  predicate TokenLike(s: string) {
    s != "." && s != ".." && forall i :: 0 <= i < |s| ==> !IsSep(s[i])
  }

  lemma LowerFixed(s: string)
    requires IsLower(s)
    ensures Lower(s) == s
  {
  }

  lemma LowerKeepsSeps(s: string)
    requires forall i :: 0 <= i < |s| ==> !IsSep(s[i])
    ensures forall i :: 0 <= i < |s| ==> !IsSep(Lower(s)[i])
  {
  }

  lemma {:induction false} TokensHaveNoSeps(s: string, i: nat)
    requires i < |Tokens(s)|
    ensures forall k :: 0 <= k < |Tokens(s)[i]| ==> !IsSep(Tokens(s)[i][k])
    decreases |s|
  {
    var r := SkipSeps(s);
    if i == 0 {
      LowerKeepsSeps(r[..Min(WordLen(r), NAME_LEN - 1)]);
      assert r[..WordLen(r)][..Min(WordLen(r), NAME_LEN - 1)] == r[..Min(WordLen(r), NAME_LEN - 1)];
    } else {
      TokensHaveNoSeps(r[WordLen(r)..], i - 1);
    }
  }

  // ---------------------------------------------------------------- walking

  function StepTo(t: Table, kids: seq<seq<nat>>, cur: nat, token: string): (r: Option<nat>)
    requires Shaped(t) && |kids| == NODES && cur < NODES
    requires forall n :: 0 < n < NODES && t.kind[n] != Free ==> t.parent[n] < NODES
    requires t.kind[cur] != Free
    ensures r.Some? ==> r.value < NODES
  {
    if token == "." then Some(cur)
    else if token == ".." then Some(if cur == 0 then 0 else t.parent[cur])
    else
      var child := Lookup(t, kids[cur], token);
      if child == 0 then None else Some(child)
  }

  /** Where the tokens lead from `cur`. */
  function Walk(t: Table, kids: seq<seq<nat>>, depth: seq<nat>, cur: nat, tokens: seq<string>): (r: Option<nat>)
    requires Tree(t, kids, depth) && Used(t, cur)
    ensures r.Some? ==> Used(t, r.value)
    decreases |tokens|
  {
    if tokens == [] then Some(cur)
    else
      TreeParents(t, kids, depth);
      match StepTo(t, kids, cur, tokens[0])
      case None => None
      case Some(next) =>
        StepUsed(t, kids, depth, cur, tokens[0]);
        Walk(t, kids, depth, next, tokens[1..])
  }

  lemma TreeParents(t: Table, kids: seq<seq<nat>>, depth: seq<nat>)
    requires Tree(t, kids, depth)
    ensures forall n :: 0 < n < NODES && t.kind[n] != Free ==> t.parent[n] < NODES && t.kind[t.parent[n]] == Dir
    ensures forall n :: 0 < n < NODES && t.kind[n] != Free ==> Placed(t, kids, depth, n)
  {
    assert forall n :: 0 < n < NODES && t.kind[n] != Free ==> Placed(t, kids, depth, n);
  }

  lemma StepUsed(t: Table, kids: seq<seq<nat>>, depth: seq<nat>, cur: nat, token: string)
    requires Tree(t, kids, depth) && Used(t, cur)
    requires forall n :: 0 < n < NODES && t.kind[n] != Free ==> t.parent[n] < NODES
    ensures StepTo(t, kids, cur, token).Some? ==> Used(t, StepTo(t, kids, cur, token).value)
  {
    TreeParents(t, kids, depth);
    ChildByName(t, kids, depth, cur, token, 0);
    assert forall i :: 0 <= i < |kids[cur]| ==> ChildOf(t, cur, kids[cur][i]);
    LookupFinds(t, kids[cur], token);
  }

  /** fs_resolve_checked */
  function Resolve(t: Table, kids: seq<seq<nat>>, depth: seq<nat>, cwd: nat, path: string): Option<nat>
    requires Tree(t, kids, depth) && Used(t, cwd)
  {
    if path == "" then Some(cwd)
    else Walk(t, kids, depth, if path[0] == '/' then 0 else cwd, Tokens(path))
  }

  lemma {:induction false} WalkAppend(t: Table, kids: seq<seq<nat>>, depth: seq<nat>, cur: nat, a: seq<string>, b: seq<string>)
    requires Tree(t, kids, depth) && Used(t, cur)
    ensures Walk(t, kids, depth, cur, a + b) ==
            match Walk(t, kids, depth, cur, a)
            case None => None
            case Some(next) => Walk(t, kids, depth, next, b)
    decreases |a|
  {
    if a == [] {
      assert a + b == b;
    } else {
      assert (a + b)[1..] == a[1..] + b;
      TreeParents(t, kids, depth);
      StepUsed(t, kids, depth, cur, a[0]);
      match StepTo(t, kids, cur, a[0])
      case None =>
      case Some(next) => WalkAppend(t, kids, depth, next, a[1..], b);
    }
  }

  lemma WalkOne(t: Table, kids: seq<seq<nat>>, depth: seq<nat>, cur: nat, token: string, rest: seq<string>)
    requires Tree(t, kids, depth) && Used(t, cur)
    ensures |kids| == NODES && forall n :: 0 < n < NODES && t.kind[n] != Free ==> t.parent[n] < NODES
    ensures match StepTo(t, kids, cur, token)
            case None => Walk(t, kids, depth, cur, [token] + rest) == None
            case Some(next) => Used(t, next) && Walk(t, kids, depth, cur, [token] + rest) == Walk(t, kids, depth, next, rest)
  {
    TreeParents(t, kids, depth);
    StepUsed(t, kids, depth, cur, token);
    assert ([token] + rest)[1..] == rest;
  }

  // ---------------------------------------------------------------- the path of a node

  /** The nodes from below the root down to `n`. */
  function PathNodes(t: Table, kids: seq<seq<nat>>, depth: seq<nat>, n: nat): (r: seq<nat>)
    requires Tree(t, kids, depth) && Used(t, n)
    ensures |r| == depth[n]
    ensures forall i :: 0 <= i < |r| ==> 0 < r[i] < NODES && t.kind[r[i]] != Free
    decreases depth[n]
  {
    if n == 0 then []
    else
      assert Placed(t, kids, depth, n);
      PathNodes(t, kids, depth, t.parent[n]) + [n]
  }

  function Names(t: Table, nodes: seq<nat>): (r: seq<string>)
    requires Shaped(t) && forall i :: 0 <= i < |nodes| ==> nodes[i] < NODES
    ensures |r| == |nodes| && forall i :: 0 <= i < |nodes| ==> r[i] == t.name[nodes[i]]
  {
    seq(|nodes|, i requires 0 <= i < |nodes| => t.name[nodes[i]])
  }

  function Joined(names: seq<string>): string {
    if names == [] then "" else "/" + names[0] + Joined(names[1..])
  }

  /** The absolute path of a node, as fs_build_path spells it. */
  function PathString(t: Table, kids: seq<seq<nat>>, depth: seq<nat>, n: nat): string
    requires Tree(t, kids, depth) && Used(t, n)
  {
    Spelled(Names(t, PathNodes(t, kids, depth, n)))
  }

  /** The `i`-th step up from the end of a path of nodes; 0 is the root. */
  function Up(nodes: seq<nat>, i: nat): nat {
    if i < |nodes| then nodes[|nodes| - 1 - i] else 0
  }

  predicate ParentOnPath(t: Table, nodes: seq<nat>, i: nat)
    requires Shaped(t) && i < |nodes| && nodes[i] < NODES
  {
    t.parent[nodes[i]] == if i == 0 then 0 else nodes[i - 1]
  }

  lemma {:induction false} ParentsOnPath(t: Table, kids: seq<seq<nat>>, depth: seq<nat>, n: nat)
    requires Tree(t, kids, depth) && Used(t, n)
    ensures var nodes := PathNodes(t, kids, depth, n);
            && (n == 0 <==> nodes == [])
            && (n != 0 ==> nodes[|nodes| - 1] == n)
            && forall i :: 0 <= i < |nodes| ==> nodes[i] < NODES && ParentOnPath(t, nodes, i)
    decreases depth[n]
  {
    hide Chains, Children, Rooted, SiblingsDiffer;
    if n != 0 {
      TreeParents(t, kids, depth);
      var above := PathNodes(t, kids, depth, t.parent[n]);
      ParentsOnPath(t, kids, depth, t.parent[n]);
      var nodes := PathNodes(t, kids, depth, n);
      assert nodes == above + [n];
      forall i | 0 <= i < |nodes| ensures nodes[i] < NODES && ParentOnPath(t, nodes, i) {
        if i < |above| { assert nodes[i] == above[i] && ParentOnPath(t, above, i); }
      }
    }
  }

  lemma UpIsParent(t: Table, kids: seq<seq<nat>>, depth: seq<nat>, n: nat)
    requires Tree(t, kids, depth) && Used(t, n)
    ensures var nodes := PathNodes(t, kids, depth, n);
            && Up(nodes, 0) == n && |nodes| < NODES
            && forall i :: 0 <= i < |nodes| ==> 0 < Up(nodes, i) < NODES && t.parent[Up(nodes, i)] == Up(nodes, i + 1)
  {
    hide Chains, Children, Rooted, SiblingsDiffer, PathNodes, Up, ParentOnPath;
    ParentsOnPath(t, kids, depth, n);
    DepthBound(t, kids, depth, n);
    var nodes := PathNodes(t, kids, depth, n);
    UpStart(nodes);
    forall i | 0 <= i < |nodes|
      ensures 0 < Up(nodes, i) < NODES && t.parent[Up(nodes, i)] == Up(nodes, i + 1)
    {
      UpStep(t, nodes, i);
    }
  }

  lemma UpStart(nodes: seq<nat>)
    ensures Up(nodes, 0) == if nodes == [] then 0 else nodes[|nodes| - 1]
  {
  }

  lemma UpStep(t: Table, nodes: seq<nat>, i: nat)
    requires Shaped(t) && i < |nodes| && 0 < nodes[|nodes| - 1 - i] < NODES && ParentOnPath(t, nodes, |nodes| - 1 - i)
    ensures 0 < Up(nodes, i) < NODES && t.parent[Up(nodes, i)] == Up(nodes, i + 1)
  {
  }

  /** What fs_build_path has written when `m` of the names are out and others follow. */
  function Begun(names: seq<string>, m: nat): string
    requires m <= |names|
  {
    Joined(names[..m]) + "/"
  }

  lemma JoinedAt(names: seq<string>, m: nat)
    requires m < |names|
    ensures Joined(names[..m + 1]) == Begun(names, m) + names[m]
    ensures Joined(names) == Begun(names, m) + names[m] + Joined(names[m + 1..])
    ensures m + 1 < |names| ==> |Joined(names[m + 1..])| > 0 && Joined(names[m + 1..])[0] == '/'
  {
    var a, word, rest := Joined(names[..m]), names[m], names[m + 1..];
    JoinedCons(word, []);
    JoinedCons(word, rest);
    assert names[..m + 1] == names[..m] + [word] && names == names[..m] + ([word] + rest);
    JoinedAppend(names[..m], [word]);
    JoinedAppend(names[..m], [word] + rest);
    Regroup(a, word, "");
    Regroup(a, word, Joined(rest));
  }

  lemma JoinedCons(word: string, rest: seq<string>)
    ensures Joined([word] + rest) == "/" + word + Joined(rest)
    ensures rest != [] ==> Joined(rest) != "" && Joined(rest)[0] == '/'
    ensures [word] + [] == [word] && Joined([]) == ""
  {
    assert ([word] + rest)[1..] == rest;
  }

  lemma Regroup(a: string, word: string, rest: string)
    ensures a + ("/" + word + rest) == a + "/" + word + rest
    ensures a + "/" + word + "" == a + "/" + word
  {
  }

  lemma BegunGrows(names: seq<string>, m: nat)
    requires m < |names|
    ensures Begun(names, m) + names[m] <= Joined(names)
    ensures m + 1 < |names| ==> Begun(names, m) + names[m] + "/" == Begun(names, m + 1) <= Joined(names)
    ensures m + 1 == |names| ==> Begun(names, m) + names[m] == Joined(names)
  {
    hide Joined;
    JoinedAt(names, m);
    if m + 1 == |names| { assert names[..m + 1] == names; }
  }

  function Spelled(names: seq<string>): string {
    if names == [] then "/" else Joined(names)
  }

  /** What fs_build_path has written when `left` entries are still on its stack, the root's included. */
  function SoFar(names: seq<string>, left: nat): string {
    if left == 0 then Spelled(names)
    else if left <= |names| then Begun(names, |names| - left)
    else "/"
  }

  lemma SoFarStarts(names: seq<string>)
    ensures SoFar(names, |names| + 1) == SoFar(names, |names|) == "/" <= Spelled(names)
  {
    assert Begun(names, 0) == "/" by { assert names[..0] == []; }
    if names != [] { BegunGrows(names, 0); }
  }

  lemma SoFarEnds(names: seq<string>)
    ensures SoFar(names, 0) == Spelled(names)
  {
  }

  /** One round adds a name and, but for the last, a slash; nothing written is ever wrong. */
  lemma SoFarStep(names: seq<string>, left: nat)
    requires 0 < left <= |names|
    ensures SoFar(names, left) + names[|names| - left] + (if left > 1 then "/" else "") == SoFar(names, left - 1)
    ensures SoFar(names, left - 1) <= Spelled(names)
  {
    hide Joined;
    BegunGrows(names, |names| - left);
    assert SoFar(names, left) + names[|names| - left] + "" == SoFar(names, left) + names[|names| - left];
  }

  /** Every directory on the way to `n`, and `n` itself, has a name that a path can spell. */
  predicate Spellable(t: Table, kids: seq<seq<nat>>, depth: seq<nat>, n: nat)
    requires Tree(t, kids, depth) && Used(t, n)
    decreases depth[n]
  {
    n == 0 || (assert Placed(t, kids, depth, n); TokenLike(t.name[n]) && Spellable(t, kids, depth, t.parent[n]))
  }

  lemma {:induction false} JoinedAppend(a: seq<string>, b: seq<string>)
    ensures Joined(a + b) == Joined(a) + Joined(b)
    decreases |a|
  {
    if a == [] {
      assert a + b == b;
    } else {
      assert (a + b)[1..] == a[1..] + b;
      JoinedAppend(a[1..], b);
    }
  }

  predicate Plain(names: seq<string>) {
    forall i :: 0 <= i < |names| ==> GoodName(names[i]) && TokenLike(names[i])
  }

  lemma PlainToken(word: string)
    requires Plain([word])
    ensures TokenOf(word) == word && word != "" && forall i :: 0 <= i < |word| ==> !IsSep(word[i])
  {
    assert [word][0] == word && word[..|word|] == word;
    LowerFixed(word);
  }

  /** Splitting a joined path gives the names back. */
  lemma {:induction false} TokensOfJoined(names: seq<string>)
    requires Plain(names)
    ensures Tokens(Joined(names)) == names
    decreases |names|
  {
    hide Tokens, TokenOf, WordLen, GoodName;
    if names == [] {
      NoTokens("");
    } else {
      var word, rest := names[0], Joined(names[1..]);
      var s := "/" + word + rest;
      assert rest == "" || rest[0] == '/';
      assert s == ['/'] + (word + rest);
      TokensSep('/', word + rest);
      PlainToken(word);
      TokensWord(word, rest);
      TokensOfJoined(names[1..]);
    }
  }

  lemma WalkToChild(t: Table, kids: seq<seq<nat>>, depth: seq<nat>, n: nat)
    requires Tree(t, kids, depth) && 0 < n && Used(t, n) && TokenLike(t.name[n])
    ensures Placed(t, kids, depth, n) && Walk(t, kids, depth, t.parent[n], [t.name[n]]) == Some(n)
  {
    TreeParents(t, kids, depth);
    ChildByName(t, kids, depth, t.parent[n], t.name[n], n);
  }

  lemma NamesAppend(t: Table, nodes: seq<nat>, n: nat)
    requires Shaped(t) && n < NODES && forall i :: 0 <= i < |nodes| ==> nodes[i] < NODES
    ensures Names(t, nodes + [n]) == Names(t, nodes) + [t.name[n]]
  {
  }

  lemma {:induction false} SpellableNames(t: Table, kids: seq<seq<nat>>, depth: seq<nat>, n: nat)
    requires Tree(t, kids, depth) && Used(t, n) && Spellable(t, kids, depth, n)
    ensures Plain(Names(t, PathNodes(t, kids, depth, n)))
    decreases depth[n]
  {
    if n != 0 {
      assert Placed(t, kids, depth, n);
      hide Chains, Children, SiblingsDiffer, Rooted, Names, GoodName, TokenLike;
      SpellableNames(t, kids, depth, t.parent[n]);
      NamesAppend(t, PathNodes(t, kids, depth, t.parent[n]), n);
    } else {
      assert Names(t, []) == [];
    }
  }

  lemma {:induction false} WalkPath(t: Table, kids: seq<seq<nat>>, depth: seq<nat>, n: nat)
    requires Tree(t, kids, depth) && Used(t, n) && Spellable(t, kids, depth, n)
    ensures Walk(t, kids, depth, 0, Names(t, PathNodes(t, kids, depth, n))) == Some(n)
    decreases depth[n]
  {
    if n != 0 {
      WalkToChild(t, kids, depth, n);
      hide Chains, Children, SiblingsDiffer, Rooted, Names, Walk, StepTo;
      WalkPath(t, kids, depth, t.parent[n]);
      var above := PathNodes(t, kids, depth, t.parent[n]);
      NamesAppend(t, above, n);
      WalkAppend(t, kids, depth, 0, Names(t, above), [t.name[n]]);
    } else {
      assert Names(t, []) == [];
    }
  }

  /** Whatever can be reached from a spellable node along tokens without separators is spellable. */
  lemma {:induction false} WalkStaysSpellable(t: Table, kids: seq<seq<nat>>, depth: seq<nat>, cur: nat, tokens: seq<string>)
    requires Tree(t, kids, depth) && Used(t, cur) && Spellable(t, kids, depth, cur)
    requires forall i, k :: 0 <= i < |tokens| && 0 <= k < |tokens[i]| ==> !IsSep(tokens[i][k])
    ensures var r := Walk(t, kids, depth, cur, tokens); r.Some? ==> Spellable(t, kids, depth, r.value)
    decreases |tokens|
  {
    if tokens != [] {
      TreeParents(t, kids, depth);
      StepUsed(t, kids, depth, cur, tokens[0]);
      match StepTo(t, kids, cur, tokens[0])
      case None =>
      case Some(next) =>
        if tokens[0] != "." && tokens[0] != ".." {
          ChildByName(t, kids, depth, cur, tokens[0], next);
        }
        assert forall k :: 0 <= k < |tokens[0]| ==> !IsSep(tokens[0][k]);
        assert Spellable(t, kids, depth, next);
        WalkStaysSpellable(t, kids, depth, next, tokens[1..]);
    }
  }

  /** Resolving the path of a node gives the node back exactly when every name on it can be spelled in a path;
      creation does not check that. */
  lemma ResolveInvertsPath(t: Table, kids: seq<seq<nat>>, depth: seq<nat>, cwd: nat, n: nat)
    requires Tree(t, kids, depth) && Used(t, cwd) && Used(t, n)
    ensures Resolve(t, kids, depth, cwd, PathString(t, kids, depth, n)) == Some(n) <==> Spellable(t, kids, depth, n)
  {
    var path := PathString(t, kids, depth, n);
    if n == 0 {
      assert Tokens("/") == [];
    } else {
      assert Placed(t, kids, depth, n);
      assert path[0] == '/';
      if Spellable(t, kids, depth, n) {
        WalkPath(t, kids, depth, n);
        SpellableNames(t, kids, depth, n);
        TokensOfJoined(Names(t, PathNodes(t, kids, depth, n)));
      } else {
        UnspellableUnreachable(t, kids, depth, cwd, path, n);
      }
    }
  }

  /** No absolute path at all leads to a node with an unspellable name on its way. */
  lemma UnspellableUnreachable(t: Table, kids: seq<seq<nat>>, depth: seq<nat>, cwd: nat, path: string, n: nat)
    requires Tree(t, kids, depth) && Used(t, cwd) && Used(t, n) && !Spellable(t, kids, depth, n)
    requires path != "" && path[0] == '/'
    ensures Resolve(t, kids, depth, cwd, path) != Some(n)
  {
    forall i, k | 0 <= i < |Tokens(path)| && 0 <= k < |Tokens(path)[i]| ensures !IsSep(Tokens(path)[i][k]) {
      TokensHaveNoSeps(path, i);
    }
    WalkStaysSpellable(t, kids, depth, 0, Tokens(path));
  }

  /** Creation makes such nodes: one added under a name that is not token-like is out of reach for good. */
  lemma AddedUnspellable(t: Table, kids: seq<seq<nat>>, depth: seq<nat>, n: nat, p: nat, kind: Kind, name: string)
    requires CanAdd(t, kids, depth, n, p, kind, name) && !TokenLike(name)
    ensures var t', kids', depth' := Added(t, n, p, kind, name), kids[p := [n] + kids[p]], depth[n := depth[p] + 1];
            Tree(t', kids', depth') && Used(t', n) && !Spellable(t', kids', depth', n)
  {
    AddKeepsTree(t, kids, depth, n, p, kind, name);
  }

  // ---------------------------------------------------------------- depth

  function Ancestors(t: Table, kids: seq<seq<nat>>, depth: seq<nat>, n: nat): (r: set<nat>)
    requires Tree(t, kids, depth) && Used(t, n)
    decreases depth[n]
  {
    if n == 0 then {0}
    else
      assert Placed(t, kids, depth, n);
      {n} + Ancestors(t, kids, depth, t.parent[n])
  }

  lemma {:induction false} AncestorCount(t: Table, kids: seq<seq<nat>>, depth: seq<nat>, n: nat)
    requires Tree(t, kids, depth) && Used(t, n)
    ensures |Ancestors(t, kids, depth, n)| == depth[n] + 1
    ensures forall a :: a in Ancestors(t, kids, depth, n) ==> a < NODES && depth[a] <= depth[n]
    decreases depth[n]
  {
    if n != 0 {
      assert Placed(t, kids, depth, n);
      AncestorCount(t, kids, depth, t.parent[n]);
    }
  }

  lemma {:induction false} CountBelow(n: nat, s: set<nat>)
    requires forall a :: a in s ==> a < n
    ensures |s| <= n
    decreases n
  {
    if n == 0 {
      assert s == {};
    } else {
      CountBelow(n - 1, s - {n - 1});
      assert s <= (s - {n - 1}) + {n - 1};
    }
  }

  /** Pigeonhole: the way to the root never exceeds the ancestor stack of fs_build_path. */
  lemma DepthBound(t: Table, kids: seq<seq<nat>>, depth: seq<nat>, n: nat)
    requires Tree(t, kids, depth) && Used(t, n)
    ensures depth[n] < NODES
  {
    AncestorCount(t, kids, depth, n);
    CountBelow(NODES, Ancestors(t, kids, depth, n));
  }
}
