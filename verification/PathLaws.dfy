/** What the paths of src/lib/ramdisk.c mean, character by character: ".", "..", "/", blanks, and names. */
module PathLaws {
  import opened CStrings
  import opened FsTree
  import opened FsPath
  import opened Wrappers

  lemma OneToken(word: string)
    requires word != "" && forall i :: 0 <= i < |word| ==> word[i] != ' ' && word[i] != '/'
    ensures Tokens(word) == [TokenOf(word)]
  {
    hide Tokens, TokenOf;
    assert word + "" == word;
    TokensWord(word, "");
    NoTokens("");
  }

  lemma DotTokens()
    ensures Tokens("") == [] && Tokens(".") == ["."] && Tokens("..") == [".."]
  {
    hide Tokens;
    NoTokens("");
    OneToken(".");
    OneToken("..");
    var dot, dots := ".", "..";
    assert dot[..1] == dot && dots[..2] == dots;
    LowerFixed(dot);
    LowerFixed(dots);
  }

  /** "." and nothing at all stay, ".." goes to the parent, and from the root nowhere; "/" is the root. */
  lemma DotsLead(t: Table, kids: seq<seq<nat>>, depth: seq<nat>, n: nat)
    requires Tree(t, kids, depth) && Used(t, n)
    ensures Resolve(t, kids, depth, n, "") == Resolve(t, kids, depth, n, ".") == Some(n)
    ensures Resolve(t, kids, depth, n, "..") == Some(if n == 0 then 0 else t.parent[n])
    ensures Resolve(t, kids, depth, n, "/") == Some(0)
  {
    hide Tokens, Chains, Children, Rooted, SiblingsDiffer;
    DotTokens();
    assert ['/'] + "" == "/";
    TokensSep('/', "");
    assert ["."][1..] == [] && [".."][1..] == [];
  }

  /** A slash or a blank goes on from where the part before it leads; in front of a path a slash goes to the root. */
  lemma PartsLead(t: Table, kids: seq<seq<nat>>, depth: seq<nat>, cwd: nat, a: string, b: string)
    requires Tree(t, kids, depth) && Used(t, cwd) && (b == "" || b[0] != '/')
    ensures Resolve(t, kids, depth, cwd, "/" + b) == Resolve(t, kids, depth, 0, b)
    ensures a != "" ==>
              Resolve(t, kids, depth, cwd, a + "/" + b) == Resolve(t, kids, depth, cwd, a + " " + b) ==
              match Resolve(t, kids, depth, cwd, a)
              case None => None
              case Some(n) => Resolve(t, kids, depth, n, b)
  {
    hide Tokens, Chains, Children, Rooted, SiblingsDiffer, Walk;
    FromHere(t, kids, depth, 0, b);
    assert "/" + b == ['/'] + b;
    TokensSep('/', b);
    if a != "" {
      TokensSplit(a, '/', b);
      TokensSplit(a, ' ', b);
      var start := if a[0] == '/' then 0 else cwd;
      WalkAppend(t, kids, depth, start, Tokens(a), Tokens(b));
      var end := Walk(t, kids, depth, start, Tokens(a));
      if end.Some? { FromHere(t, kids, depth, end.value, b); }
    }
  }

  /** A relative path is the walk along its tokens. */
  lemma FromHere(t: Table, kids: seq<seq<nat>>, depth: seq<nat>, n: nat, b: string)
    requires Tree(t, kids, depth) && Used(t, n) && (b == "" || b[0] != '/')
    ensures Resolve(t, kids, depth, n, b) == Walk(t, kids, depth, n, Tokens(b))
  {
    hide Tokens, Chains, Children, Rooted, SiblingsDiffer, Walk;
    NoTokens("");
    if b == "" { DotsEmpty(t, kids, depth, n); }
  }

  lemma DotsEmpty(t: Table, kids: seq<seq<nat>>, depth: seq<nat>, n: nat)
    requires Tree(t, kids, depth) && Used(t, n)
    ensures Walk(t, kids, depth, n, []) == Some(n)
  {
  }

  /** `name` is `word` cut to 11 characters, capital letters made small. */
  predicate Spells(word: string, name: string) {
    && |name| == (if |word| > 11 then 11 else |word|)
    && forall i :: 0 <= i < |name| ==>
         name[i] == if 'A' <= word[i] <= 'Z' then (word[i] as int + 32) as char else word[i]
  }

  /** A word that names something: neither a separator in it nor "." nor "..". */
  predicate IsWord(word: string) {
    word != "" && word != "." && word != ".." && forall i :: 0 <= i < |word| ==> word[i] != ' ' && word[i] != '/'
  }

  /** A word leads from a directory to exactly its child whose name it spells. */
  lemma NamesLead(t: Table, kids: seq<seq<nat>>, depth: seq<nat>, n: nat, word: string, m: nat)
    requires Tree(t, kids, depth) && Used(t, n) && IsWord(word)
    ensures Resolve(t, kids, depth, n, word) == Some(m) <==>
              m != 0 && Used(t, m) && t.parent[m] == n && Spells(word, t.name[m])
  {
    hide Tokens, TokenOf, Chains, Children, Rooted, SiblingsDiffer, Lookup, Walk, Resolve, Spells;
    OneToken(word);
    TokenSpells(word);
    FromHere(t, kids, depth, n, word);
    OneStep(t, kids, depth, n, TokenOf(word));
    ChildByName(t, kids, depth, n, TokenOf(word), m);
    if m != 0 && Used(t, m) { SpellsOne(word, TokenOf(word), t.name[m]); }
  }

  lemma OneStep(t: Table, kids: seq<seq<nat>>, depth: seq<nat>, n: nat, token: string)
    requires Tree(t, kids, depth) && Used(t, n) && token != "." && token != ".."
    ensures |kids| == NODES
    ensures var child := Lookup(t, kids[n], token);
            Walk(t, kids, depth, n, [token]) == if child == 0 then None else Some(child)
  {
    assert [token][1..] == [];
  }

  lemma TokenSpells(word: string)
    ensures Spells(word, TokenOf(word))
    ensures TokenOf(word) == "." ==> word == "."
    ensures TokenOf(word) == ".." ==> word == ".."
  {
    var cut, low := word[..Min(|word|, NAME_LEN - 1)], TokenOf(word);
    assert |low| == |cut|;
    if low == "." || low == ".." {
      assert forall i :: 0 <= i < |word| ==> LowerChar(word[i]) == low[i] == '.';
      assert forall i :: 0 <= i < |word| ==> word[i] == '.';
    }
  }

  lemma SpellsOne(word: string, a: string, b: string)
    requires Spells(word, a)
    ensures Spells(word, b) <==> a == b
  {
  }

  /** "/.." behind the path written for a node leads to its parent. */
  lemma UpFromPath(t: Table, kids: seq<seq<nat>>, depth: seq<nat>, cwd: nat, n: nat)
    requires Tree(t, kids, depth) && Used(t, cwd) && Used(t, n) && n != 0 && Spellable(t, kids, depth, n)
    ensures Resolve(t, kids, depth, cwd, PathString(t, kids, depth, n) + "/..") == Some(t.parent[n])
  {
    hide Tokens, Chains, Children, Rooted, SiblingsDiffer, Walk, Spellable, Resolve;
    var path := PathString(t, kids, depth, n);
    ResolveInvertsPath(t, kids, depth, cwd, n);
    PartsLead(t, kids, depth, cwd, path, "..");
    assert path + "/.." == path + "/" + "..";
    DotsLead(t, kids, depth, n);
    PathNotEmpty(t, kids, depth, n);
  }

  lemma PathNotEmpty(t: Table, kids: seq<seq<nat>>, depth: seq<nat>, n: nat)
    requires Tree(t, kids, depth) && Used(t, n)
    ensures PathString(t, kids, depth, n) != ""
  {
  }

  /** The path written for a node: that of its parent, a slash, and its name. */
  lemma PathShape(t: Table, kids: seq<seq<nat>>, depth: seq<nat>, n: nat)
    requires Tree(t, kids, depth) && Used(t, n)
    ensures n == 0 ==> PathString(t, kids, depth, n) == "/"
    ensures n != 0 ==>
              && Used(t, t.parent[n])
              && PathString(t, kids, depth, n) ==
                 (if t.parent[n] == 0 then "" else PathString(t, kids, depth, t.parent[n])) + "/" + t.name[n]
  {
    hide Chains, Children, SiblingsDiffer;
    if n != 0 {
      assert Placed(t, kids, depth, n);
      var above := PathNodes(t, kids, depth, t.parent[n]);
      NamesAppend(t, above, n);
      JoinedAppend(Names(t, above), [t.name[n]]);
      assert Joined([t.name[n]]) == "/" + t.name[n] by { assert [t.name[n]][1..] == []; }
    }
  }

  // ---------------------------------------------------------------- what creating and deleting do to paths

  /** A node is created under a word if no child of the directory spells it; then the word leads to the new node, and
      every other word leads where it led. */
  lemma CreatedIsFound(t: Table, kids: seq<seq<nat>>, depth: seq<nat>, n: nat, p: nat, kind: Kind, word: string,
      other: string)
    requires CanAdd(t, kids, depth, n, p, kind, TokenOf(word)) && IsWord(word) && IsWord(other)
    ensures |kids| == |depth| == NODES
    ensures var t', kids', depth' := Added(t, n, p, kind, TokenOf(word)), kids[p := [n] + kids[p]], depth[n := depth[p] + 1];
            && Tree(t', kids', depth') && Used(t', n) && t'.kind[n] == kind && t'.parent[n] == p && t'.size[n] == 0
            && Resolve(t, kids, depth, p, word) == None
            && Resolve(t', kids', depth', p, word) == Some(n)
            && (!Spells(other, TokenOf(word)) ==> Resolve(t', kids', depth', p, other) == Resolve(t, kids, depth, p, other))
  {
    hide Chains, Children, Rooted, SiblingsDiffer, Resolve, TokenOf, Spells;
    var t', kids', depth' := Added(t, n, p, kind, TokenOf(word)), kids[p := [n] + kids[p]], depth[n := depth[p] + 1];
    AddKeepsTree(t, kids, depth, n, p, kind, TokenOf(word));
    TokenSpells(word);
    NamesLead(t', kids', depth', p, word, n);
    if Resolve(t, kids, depth, p, word).Some? {
      var m := Resolve(t, kids, depth, p, word).value;
      NamesLead(t, kids, depth, p, word, m);
      SpellsOne(word, TokenOf(word), t.name[m]);
    }
    if !Spells(other, TokenOf(word)) {
      if Resolve(t', kids', depth', p, other).Some? {
        var m := Resolve(t', kids', depth', p, other).value;
        NamesLead(t', kids', depth', p, other, m);
        NamesLead(t, kids, depth, p, other, m);
      } else if Resolve(t, kids, depth, p, other).Some? {
        var m := Resolve(t, kids, depth, p, other).value;
        NamesLead(t, kids, depth, p, other, m);
        NamesLead(t', kids', depth', p, other, m);
      }
    }
  }

  /** Below a directory other than the root, a deleted node's name leads nowhere any more, and other words lead where they
      led. */
  lemma DeletedIsLost(t: Table, kids: seq<seq<nat>>, depth: seq<nat>, n: nat, word: string, other: string)
    requires CanDelete(t, kids, depth, n) && IsWord(word) && IsWord(other)
    requires Spells(word, t.name[n]) && !Spells(other, t.name[n])
    ensures |kids| == NODES && t.parent[n] < NODES
    ensures var p := t.parent[n];
            var t', kids' := Deleted(t, kids, n), kids[p := Without(kids[p], n)];
            && Tree(t', kids', depth)
            && Resolve(t, kids, depth, p, word) == Some(n)
            && Resolve(t', kids', depth, p, word) == None
            && Resolve(t', kids', depth, p, other) == Resolve(t, kids, depth, p, other)
  {
    hide Chains, Children, Rooted, Resolve, TokenOf, Spells, Deleted, Without, SiblingsDiffer;
    DeleteFacts(t, kids, depth, n);
    DeleteKeepsTree(t, kids, depth, n);
    var p := t.parent[n];
    var t', kids' := Deleted(t, kids, n), kids[p := Without(kids[p], n)];
    NamesLead(t, kids, depth, p, word, n);
    if Resolve(t', kids', depth, p, word).Some? {
      var m := Resolve(t', kids', depth, p, word).value;
      NamesLead(t', kids', depth, p, word, m);
      NamesLead(t, kids, depth, p, word, m);
      assert false;
    }
    if Resolve(t', kids', depth, p, other).Some? {
      var m := Resolve(t', kids', depth, p, other).value;
      NamesLead(t', kids', depth, p, other, m);
      NamesLead(t, kids, depth, p, other, m);
    } else if Resolve(t, kids, depth, p, other).Some? {
      var m := Resolve(t, kids, depth, p, other).value;
      NamesLead(t, kids, depth, p, other, m);
      NamesLead(t', kids', depth, p, other, m);
    }
  }
}
