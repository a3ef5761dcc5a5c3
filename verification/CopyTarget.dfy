/** Which file `cp` writes when it has made one (src/commands/cp.c): the one it made, unless the path leads elsewhere. */
module CopyTarget {
  import opened CStrings
  import opened FsTree
  import opened FsPath
  import opened RamDisk
  import opened CopyFile
  import opened Wrappers

  function WalkIn(v: View, cur: nat, tokens: seq<string>): Option<nat>
    requires Sound(v) && Used(v.t, cur)
  {
    Walk(v.t, v.kids, v.depth, cur, tokens)
  }

  // ---------------------------------------------------------------- walks over a disk with one file more

  lemma {:induction false} LookupAdded(t: Table, n: nat, p: nat, name: string, l: seq<nat>, token: string)
    requires Shaped(t) && 0 < n < NODES && p < NODES && n !in l
    ensures Lookup(Added(t, n, p, File, name), l, token) == Lookup(t, l, token)
    decreases |l|
  {
    if l != [] { LookupAdded(t, n, p, name, l[1..], token); }
  }

  /** What every directory looks like after the file has been made. */
  lemma MadeFacts(v: View, c: Creation, cur: nat, token: string)
    requires CanMake(v, c) && Used(v.t, cur)
    ensures var w := WithFile(v, c);
            && 0 < c.slot < NODES && c.parent < NODES && cur != c.slot && Used(w.t, cur) && Used(w.t, c.slot)
            && |v.kids| == |w.kids| == NODES && w.t.parent[cur] == v.t.parent[cur] && w.kids[c.slot] == []
            && Lookup(v.t, v.kids[c.parent], c.token) == 0
            && Lookup(w.t, w.kids[cur], token) ==
               if cur == c.parent && token == c.token then c.slot else Lookup(v.t, v.kids[cur], token)
  {
    ChildByName(v.t, v.kids, v.depth, cur, token, 0);
    ChildByName(v.t, v.kids, v.depth, c.parent, c.token, Lookup(v.t, v.kids[c.parent], c.token));
    assert c.slot !in v.kids[cur];
    LookupAdded(v.t, c.slot, c.parent, c.token, v.kids[cur], token);
    if cur == c.parent {
      assert ([c.slot] + v.kids[cur])[1..] == v.kids[cur];
    }
  }

  /** Where one token leads. */
  function StepIn(v: View, cur: nat, token: string): (r: Option<nat>)
    requires Sound(v) && Used(v.t, cur)
    ensures r.Some? ==> Used(v.t, r.value)
  {
    TreeParents(v.t, v.kids, v.depth);
    StepUsed(v.t, v.kids, v.depth, cur, token);
    StepTo(v.t, v.kids, cur, token)
  }

  lemma StepAfter(v: View, c: Creation, cur: nat, token: string)
    requires CanMake(v, c) && Used(v.t, cur)
    ensures Used(WithFile(v, c).t, cur) && Used(WithFile(v, c).t, c.slot)
    ensures StepIn(WithFile(v, c), cur, token) ==
            match StepIn(v, cur, token)
            case Some(next) => Some(next)
            case None => if cur == c.parent && token == c.token then Some(c.slot) else None
  {
    hide Chains, Children, Rooted, SiblingsDiffer, Lookup, WithFile, CanAdd;
    MadeFacts(v, c, cur, token);
  }

  lemma NoStep(v: View, cur: nat)
    requires Sound(v) && Used(v.t, cur)
    ensures WalkIn(v, cur, []) == Some(cur)
  {
  }

  lemma FirstStep(v: View, cur: nat, tokens: seq<string>)
    requires Sound(v) && Used(v.t, cur) && tokens != []
    ensures match StepIn(v, cur, tokens[0])
            case None => WalkIn(v, cur, tokens) == None
            case Some(next) => WalkIn(v, cur, tokens) == WalkIn(v, next, tokens[1..])
  {
    hide Chains, Children, Rooted, SiblingsDiffer, Walk, StepTo;
    assert tokens == [tokens[0]] + tokens[1..];
    WalkOne(v.t, v.kids, v.depth, cur, tokens[0], tokens[1..]);
  }

  /** Walks that got somewhere get there still. */
  lemma {:induction false} WalkKept(v: View, c: Creation, cur: nat, tokens: seq<string>)
    requires CanMake(v, c) && Used(v.t, cur)
    ensures Used(WithFile(v, c).t, cur)
    ensures WalkIn(v, cur, tokens).Some? ==> WalkIn(WithFile(v, c), cur, tokens) == WalkIn(v, cur, tokens)
    decreases |tokens|
  {
    hide Sound, Used, WalkIn, WithFile, CanAdd, StepIn;
    var w := WithFile(v, c);
    if tokens == [] {
      StepAfter(v, c, cur, ".");
      NoStep(v, cur);
      NoStep(w, cur);
    } else {
      StepAfter(v, c, cur, tokens[0]);
      FirstStep(v, cur, tokens);
      FirstStep(w, cur, tokens);
      var next := StepIn(v, cur, tokens[0]);
      if next.Some? { WalkKept(v, c, next.value, tokens[1..]); }
    }
  }

  predicate NeverUp(tokens: seq<string>) {
    forall i :: 0 <= i < |tokens| ==> tokens[i] != ".."
  }

  /** From a file there is no way but up. */
  lemma {:induction false} StaysAtFile(v: View, c: Creation, tokens: seq<string>)
    requires CanMake(v, c) && NeverUp(tokens)
    ensures Used(WithFile(v, c).t, c.slot)
    ensures WalkIn(WithFile(v, c), c.slot, tokens).Some? ==> WalkIn(WithFile(v, c), c.slot, tokens) == Some(c.slot)
    decreases |tokens|
  {
    hide Sound, Used, WalkIn, WithFile, CanAdd, StepIn;
    var w := WithFile(v, c);
    StepAtFile(v, c, if tokens == [] then "." else tokens[0]);
    if tokens == [] {
      NoStep(w, c.slot);
    } else {
      FirstStep(w, c.slot, tokens);
      StaysAtFile(v, c, tokens[1..]);
    }
  }

  lemma StepAtFile(v: View, c: Creation, token: string)
    requires CanMake(v, c) && token != ".."
    ensures Used(WithFile(v, c).t, c.slot)
    ensures StepIn(WithFile(v, c), c.slot, token) == if token == "." then Some(c.slot) else None
  {
    hide Chains, Children, Rooted, SiblingsDiffer, WithFile, CanAdd;
    MadeFacts(v, c, v.cwd, ".");
  }

  /** A walk that gets somewhere only since the file was made has met it, and stays there unless it goes up. */
  lemma {:induction false} NewWalk(v: View, c: Creation, cur: nat, tokens: seq<string>)
    requires CanMake(v, c) && Used(v.t, cur) && NeverUp(tokens)
    ensures Used(WithFile(v, c).t, cur)
    ensures WalkIn(v, cur, tokens).None? && WalkIn(WithFile(v, c), cur, tokens).Some? ==>
              WalkIn(WithFile(v, c), cur, tokens) == Some(c.slot)
    decreases |tokens|
  {
    hide Sound, Used, WalkIn, WithFile, CanAdd, StepIn;
    var w := WithFile(v, c);
    if tokens == [] {
      StepAfter(v, c, cur, ".");
      NoStep(v, cur);
    } else {
      StepAfter(v, c, cur, tokens[0]);
      FirstStep(v, cur, tokens);
      FirstStep(w, cur, tokens);
      var next := StepIn(v, cur, tokens[0]);
      if next.Some? {
        NewWalk(v, c, next.value, tokens[1..]);
      } else {
        StaysAtFile(v, c, tokens[1..]);
      }
    }
  }

  predicate HasSep(s: string) {
    exists i :: 0 <= i < |s| && IsSep(s[i])
  }

  /** No walk along tokens meets a file whose name has a separator in it. */
  lemma {:induction false} WalkMisses(v: View, c: Creation, cur: nat, tokens: seq<string>)
    requires CanMake(v, c) && Used(v.t, cur) && HasSep(c.token)
    requires forall i :: 0 <= i < |tokens| ==> !HasSep(tokens[i])
    ensures Used(WithFile(v, c).t, cur) && WalkIn(WithFile(v, c), cur, tokens) == WalkIn(v, cur, tokens)
    decreases |tokens|
  {
    hide Sound, Used, WalkIn, WithFile, CanAdd, StepIn, HasSep;
    var w := WithFile(v, c);
    if tokens == [] {
      StepAfter(v, c, cur, ".");
      NoStep(v, cur);
      NoStep(w, cur);
    } else {
      StepAfter(v, c, cur, tokens[0]);
      FirstStep(v, cur, tokens);
      FirstStep(w, cur, tokens);
      var next := StepIn(v, cur, tokens[0]);
      if next.Some? { WalkMisses(v, c, next.value, tokens[1..]); }
    }
  }

  // ---------------------------------------------------------------- the tokens of a destination

  lemma {:induction false} TokensSkipped(s: string)
    ensures Tokens(SkipSpaces(s)) == Tokens(s)
    decreases |s|
  {
    hide Tokens;
    if s != "" && s[0] == ' ' {
      assert s == [' '] + s[1..];
      TokensSep(' ', s[1..]);
      TokensSkipped(s[1..]);
    }
  }

  lemma {:induction false} TokensTrimmedEnd(s: string)
    ensures Tokens(TrimEnd(s)) == Tokens(s)
    decreases |s|
  {
    hide Tokens;
    if s != "" && s[|s| - 1] == ' ' {
      var t := s[..|s| - 1];
      assert s == t + [' '] + "";
      TokensSplit(t, ' ', "");
      NoTokens("");
      TokensTrimmedEnd(t);
    }
  }

  /** Everything before the last slash. */
  function Before(w: string): string {
    var k := AfterSlash(w);
    if k == 0 then "" else w[..k - 1]
  }

  lemma TokensAtSlash(w: string)
    ensures Tokens(w) == Tokens(Before(w)) + Tokens(LastPart(w))
  {
    hide Tokens, AfterSlash;
    var k := AfterSlash(w);
    if k == 0 {
      NoTokens("");
      assert w[0..] == w;
    } else {
      assert w == w[..k - 1] + [w[k - 1]] + w[k..];
      TokensSplit(w[..k - 1], w[k - 1], w[k..]);
    }
  }

  lemma LowerSep(s: string)
    ensures HasSep(Lower(s)) <==> HasSep(s)
  {
    if HasSep(s) {
      var i :| 0 <= i < |s| && IsSep(s[i]);
      assert IsSep(Lower(s)[i]);
    }
    if HasSep(Lower(s)) {
      var i :| 0 <= i < |s| && IsSep(Lower(s)[i]);
      assert IsSep(s[i]);
    }
  }

  /** A last part that starts with a full name, or is one, has that name as its first token. */
  lemma NameIsFirstToken(last: string)
    requires last != "" && !HasSep(last[..Min(|last|, NAME_LEN - 1)])
    ensures var child := last[..Min(|last|, NAME_LEN - 1)];
            && Tokens(last) != [] && Tokens(last)[0] == TokenOf(child) && !HasSep(TokenOf(child))
            && (|child| < NAME_LEN - 1 ==> Tokens(last) == [TokenOf(child)])
    ensures !HasSep(last) ==> Tokens(last) == [TokenOf(last)]
  {
    hide Tokens, HasSep;
    var child, n := last[..Min(|last|, NAME_LEN - 1)], WordLen(last);
    NoSepBefore(last, |child|);
    assert last == last[..n] + last[n..] && last[..n][..Min(n, NAME_LEN - 1)] == child;
    assert child[..|child|] == child;
    TokensWord(last[..n], last[n..]);
    LowerSep(child);
    NoTokens("");
    if |child| < NAME_LEN - 1 { assert n == |last| && last[n..] == ""; }
    if !HasSep(last) {
      assert last[..|last|] == last;
      NoSepBefore(last, |last|);
      assert n == |last| && last[n..] == "";
    }
  }

  lemma NoSepBefore(s: string, k: nat)
    requires k <= |s| && !HasSep(s[..k])
    ensures WordLen(s) >= k
  {
  }

  // ---------------------------------------------------------------- which file is written

  /** The destination fits the work buffer, and without its leading blanks it is not an absolute path. */
  predicate Straight(dst: string) {
    && |SkipSpaces(dst)| < TMP_LEN
    && (dst != "" && dst[0] == ' ' && Trimmed(dst) != "" ==> Trimmed(dst)[0] != '/')
  }

  /** A path as split for creation leads where the whole path leads. */
  lemma StraightFind(v: View, dst: CString)
    requires Sound(v) && Straight(dst) && Splits(Trimmed(dst))
    ensures var w := Trimmed(dst); var from := if w[0] == '/' then 0 else v.cwd;
            && Used(v.t, from) && Find(v, ParentPath(w)) == WalkIn(v, from, Tokens(Before(w)))
            && Find(v, dst) == WalkIn(v, from, Tokens(Before(w)) + Tokens(LastPart(w)))
  {
    hide Chains, Children, Rooted, SiblingsDiffer, Tokens, Walk;
    var w := Trimmed(dst);
    TokensOfTrimmed(dst);
    TokensAtSlash(w);
    SameStart(dst);
    ParentTokens(v, w);
  }

  lemma TokensOfTrimmed(dst: string)
    requires |SkipSpaces(dst)| < TMP_LEN
    ensures Tokens(dst) == Tokens(Trimmed(dst))
  {
    hide Tokens, TrimEnd, SkipSpaces;
    var s := SkipSpaces(dst);
    assert s[..Min(|s|, TMP_LEN - 1)] == s;
    TokensSkipped(dst);
    TokensTrimmedEnd(s);
  }

  lemma SameStart(dst: string)
    requires Straight(dst) && Trimmed(dst) != ""
    ensures dst != "" && (dst[0] == '/' <==> Trimmed(dst)[0] == '/')
  {
    var s := SkipSpaces(dst);
    assert s[..Min(|s|, TMP_LEN - 1)] == s;
    TrimEndPart(s);
  }

  lemma DotToken()
    ensures Tokens(".") == ["."]
  {
    var dot := ".";
    assert dot[..1] == dot && Lower(dot) == [LowerChar('.')] == dot;
    assert dot + "" == dot;
    TokensWord(dot, "");
    NoTokens("");
  }

  lemma ParentTokens(v: View, w: string)
    requires Sound(v) && Splits(w)
    ensures var from := if w[0] == '/' then 0 else v.cwd;
            Used(v.t, from) && Find(v, ParentPath(w)) == WalkIn(v, from, Tokens(Before(w)))
  {
    var k := AfterSlash(w);
    var from := if w[0] == '/' then 0 else v.cwd;
    NoTokens("");
    NoStep(v, from);
    if k == 0 {
      DotToken();
      FirstStep(v, v.cwd, ["."]);
      assert ["."][1..] == [];
    } else if k == 1 {
      assert ['/'] + "" == "/";
      TokensSep('/', "");
    } else {
      assert w[..k - 1][0] == w[0];
    }
  }

  /** The file made for a straight destination is met first on the way to it; what is left of the last part leads on. */
  lemma StraightTarget(v: View, dst: CString)
    requires Sound(v)
    ensures Straight(dst) && Find(v, dst).None? && Creates(v, dst).Some? && !HasSep(ChildName(Trimmed(dst))) ==>
            var c := Creates(v, dst).value;
            && CanMake(v, c) && Tokens(LastPart(Trimmed(dst))) != [] && Used(WithFile(v, c).t, c.slot)
            && Find(WithFile(v, c), dst) == WalkIn(WithFile(v, c), c.slot, Tokens(LastPart(Trimmed(dst)))[1..])
  {
    hide Chains, Children, Rooted, SiblingsDiffer, Tokens, Walk, WithFile, CanAdd, Trimmed, AfterSlash, StepIn, Resolve, Straight;
    if !Straight(dst) || Find(v, dst).Some? || Creates(v, dst).None? || HasSep(ChildName(Trimmed(dst))) { return; }
    var w, last := Trimmed(dst), LastPart(Trimmed(dst));
    CreatesParts(v, dst);
    CreatesCanMake(v, dst);
    var c := Creates(v, dst).value;
    var z, from, before, rest := WithFile(v, c), if w[0] == '/' then 0 else v.cwd, Tokens(Before(w)), Tokens(last);
    StraightFind(v, dst);
    StraightFind(z, dst);
    NameIsFirstToken(last);
    JoinWalk(v, from, before, rest);
    WalkKept(v, c, from, before);
    JoinWalk(z, from, before, rest);
    StepAfter(v, c, c.parent, c.token);
    FirstStep(v, c.parent, rest);
    FirstStep(z, c.parent, rest);
    OneToken(v, c, rest);
  }

  /** Only "." and ".." lead anywhere where no child of that name is; both are too short for more to follow. */
  lemma OneToken(v: View, c: Creation, rest: seq<string>)
    requires CanMake(v, c) && rest != [] && rest[0] == c.token && Used(v.t, c.parent)
    requires |c.token| < NAME_LEN - 1 ==> |rest| == 1
    ensures StepIn(v, c.parent, c.token).Some? ==> WalkIn(v, c.parent, rest).Some?
  {
    hide Chains, Children, Rooted, SiblingsDiffer, Walk;
    MadeFacts(v, c, c.parent, c.token);
    FirstStep(v, c.parent, rest);
    if StepIn(v, c.parent, c.token).Some? {
      NoStep(v, StepIn(v, c.parent, c.token).value);
      assert rest[1..] == [];
    }
  }

  lemma JoinWalk(v: View, cur: nat, a: seq<string>, b: seq<string>)
    requires Sound(v) && Used(v.t, cur)
    ensures WalkIn(v, cur, a + b) == if WalkIn(v, cur, a).None? then None else WalkIn(v, WalkIn(v, cur, a).value, b)
  {
    WalkAppend(v.t, v.kids, v.depth, cur, a, b);
  }

  lemma CreatesParts(v: View, dst: CString)
    requires Sound(v) && Creates(v, dst).Some?
    ensures var w, c := Trimmed(dst), Creates(v, dst).value;
            && Splits(w) && LastPart(w) != "" && Find(v, ParentPath(w)) == Some(c.parent) && Used(v.t, c.parent)
            && c.token == TokenOf(ChildName(w)) && |c.token| == |ChildName(w)|
  {
    hide Trimmed, AfterSlash, Resolve, Chains, Children, Rooted, SiblingsDiffer;
    FindIsUsed(v, ParentPath(Trimmed(dst)));
  }

  /** A destination whose last part has no blank is made and written. */
  lemma PlainDestination(s: Store, src: CString, dst: CString)
    requires Good(s)
    ensures Straight(dst) && !HasSep(LastPart(Trimmed(dst))) && NewFile(s.v, src, dst).Some? ==>
            var c := NewFile(s.v, src, dst).value; var from := FileAt(s.v, src);
            && from.Some? && Good(MakeFile(s, c)) && from.value in MakeFile(s, c).files && c.slot < NODES
            && Shaped(MakeFile(s, c).v.t) && Copy(s, src, dst) == Finished(MakeFile(s, c), from.value, c.slot)
  {
    hide Trimmed, AfterSlash, Resolve, Chains, Children, Rooted, SiblingsDiffer, WithFile, CanAdd, Finished, Copy, Walk, Tokens;
    hide FileAt, Straight, Creates;
    if !Straight(dst) || HasSep(LastPart(Trimmed(dst))) || NewFile(s.v, src, dst).None? { return; }
    var last, c := LastPart(Trimmed(dst)), NewFile(s.v, src, dst).value;
    CreatesParts(s.v, dst);
    NoSepPart(last);
    StraightTarget(s.v, dst);
    NameIsFirstToken(last);
    assert Tokens(last)[1..] == [];
    NoStep(WithFile(s.v, c), c.slot);
    CopyStages(s, src, dst);
    MadeIsFile(s, c, dst);
  }

  lemma MadeIsFile(s: Store, c: Creation, dst: string)
    requires Good(s) && CanMake(s.v, c) && Find(WithFile(s.v, c), dst) == Some(c.slot)
    ensures FileAt(MakeFile(s, c).v, dst) == Some(c.slot)
  {
    hide Resolve, Chains, Children, Rooted, SiblingsDiffer;
    MakeKeepsGood(s, c);
    FileNode(MakeFile(s, c), dst);
  }

  lemma NoSepPart(s: string)
    requires !HasSep(s)
    ensures !HasSep(s[..Min(|s|, NAME_LEN - 1)])
  {
  }

  lemma TokensWithoutSeps(s: string)
    ensures forall i :: 0 <= i < |Tokens(s)| ==> !HasSep(Tokens(s)[i])
  {
    forall i | 0 <= i < |Tokens(s)| ensures !HasSep(Tokens(s)[i]) {
      TokensHaveNoSeps(s, i);
    }
  }

  /** With a blank among its first characters the last part is made in vain: the copy fails, and leaves an empty file that
      no path leads to. */
  lemma BlankNameIsLost(s: Store, src: CString, dst: CString)
    requires Good(s)
    ensures NewFile(s.v, src, dst).Some? && HasSep(ChildName(Trimmed(dst))) ==>
              Copy(s, src, dst) == Failed(MakeFile(s, NewFile(s.v, src, dst).value))
  {
    hide Trimmed, AfterSlash, Chains, Children, Rooted, SiblingsDiffer, WithFile, CanAdd, Finished, Copy, Walk, Tokens, Creates;
    hide HasSep;
    if NewFile(s.v, src, dst).None? || !HasSep(ChildName(Trimmed(dst))) { return; }
    var c := NewFile(s.v, src, dst).value;
    CreatesParts(s.v, dst);
    ShortToken(ChildName(Trimmed(dst)));
    TokensWithoutSeps(dst);
    CopyStages(s, src, dst);
    FindAfter(s.v, c, dst);
    MakeKeepsGood(s, c);
    FileNode(MakeFile(s, c), dst);
  }

  lemma ShortToken(child: string)
    requires |child| < NAME_LEN
    ensures HasSep(TokenOf(child)) <==> HasSep(child)
  {
    assert child[..|child|] == child;
    LowerSep(child);
  }

  lemma FindAfter(v: View, c: Creation, dst: string)
    requires CanMake(v, c) && HasSep(c.token) && forall i :: 0 <= i < |Tokens(dst)| ==> !HasSep(Tokens(dst)[i])
    ensures Find(WithFile(v, c), dst) == Find(v, dst)
  {
    hide Chains, Children, Rooted, SiblingsDiffer, Walk, Tokens, HasSep, CanAdd;
    WalkMisses(v, c, if dst != "" && dst[0] == '/' then 0 else v.cwd, Tokens(dst));
  }

  /** A copy that makes a file and writes another goes up on the way: without ".." in the destination it cannot happen. */
  lemma MadeIsWritten(s: Store, src: CString, dst: CString)
    requires Good(s)
    ensures NewFile(s.v, src, dst).Some? && Copy(s, src, dst).Copied? && NeverUp(Tokens(dst)) ==>
              Copy(s, src, dst).to == NewFile(s.v, src, dst).value.slot
  {
    hide Trimmed, AfterSlash, Chains, Children, Rooted, SiblingsDiffer, WithFile, CanAdd, Copy, Walk, Tokens, Creates;
    hide NeverUp;
    if NewFile(s.v, src, dst).None? || Copy(s, src, dst).Failed? || !NeverUp(Tokens(dst)) { return; }
    var c := NewFile(s.v, src, dst).value;
    CopyStages(s, src, dst);
    NewWalk(s.v, c, if dst != "" && dst[0] == '/' then 0 else s.v.cwd, Tokens(dst));
    MakeKeepsGood(s, c);
    FileNode(MakeFile(s, c), dst);
  }

  // ---------------------------------------------------------------- exactly when the made file is written

  /** On the old disk: the tokens lead from the new file back to it, which is staying there, or going up to its directory
      and from there to its name. */
  predicate LeadsBack(v: View, c: Creation, tokens: seq<string>)
    requires CanMake(v, c)
    decreases |tokens|
  {
    tokens == []
    || (tokens[0] == "." && LeadsBack(v, c, tokens[1..]))
    || (tokens[0] == ".." && Used(v.t, c.parent) && Reaches(v, c, c.parent, tokens[1..]))
  }

  /** The tokens lead from a node of the old disk to the new file: to its directory, then its name, then back to it. */
  predicate Reaches(v: View, c: Creation, cur: nat, tokens: seq<string>)
    requires CanMake(v, c) && Used(v.t, cur)
    decreases |tokens|
  {
    tokens != [] &&
    match StepIn(v, cur, tokens[0])
    case Some(next) => Reaches(v, c, next, tokens[1..])
    case None => cur == c.parent && tokens[0] == c.token && LeadsBack(v, c, tokens[1..])
  }

  lemma {:induction false} LeadsBackMeans(v: View, c: Creation, tokens: seq<string>)
    requires CanMake(v, c)
    ensures Used(WithFile(v, c).t, c.slot)
    ensures WalkIn(WithFile(v, c), c.slot, tokens) == Some(c.slot) <==> LeadsBack(v, c, tokens)
    decreases |tokens|
  {
    hide Sound, Used, WalkIn, WithFile, CanAdd, StepIn, Reaches;
    var z := WithFile(v, c);
    StepAtFile(v, c, ".");
    if tokens == [] {
      NoStep(z, c.slot);
    } else {
      FirstStep(z, c.slot, tokens);
      if tokens[0] == ".." {
        ParentUsed(v, c);
        StepAfter(v, c, c.parent, ".");
        UpFromFile(v, c);
        ReachesMeans(v, c, c.parent, tokens[1..]);
      } else {
        StepAtFile(v, c, tokens[0]);
        LeadsBackMeans(v, c, tokens[1..]);
      }
    }
  }

  lemma ParentUsed(v: View, c: Creation)
    requires CanMake(v, c)
    ensures Used(v.t, c.parent)
  {
  }

  lemma {:induction false} ReachesMeans(v: View, c: Creation, cur: nat, tokens: seq<string>)
    requires CanMake(v, c) && Used(v.t, cur)
    ensures Used(WithFile(v, c).t, cur)
    ensures WalkIn(WithFile(v, c), cur, tokens) == Some(c.slot) <==> Reaches(v, c, cur, tokens)
    decreases |tokens|
  {
    hide Sound, Used, WalkIn, WithFile, CanAdd, StepIn, LeadsBack;
    var z := WithFile(v, c);
    StepAfter(v, c, cur, if tokens == [] then "." else tokens[0]);
    if tokens == [] {
      NoStep(z, cur);
      NotTheSlot(v, c, cur);
    } else {
      FirstStep(z, cur, tokens);
      var next := StepIn(v, cur, tokens[0]);
      if next.Some? {
        ReachesMeans(v, c, next.value, tokens[1..]);
      } else {
        LeadsBackMeans(v, c, tokens[1..]);
      }
    }
  }

  lemma NotTheSlot(v: View, c: Creation, cur: nat)
    requires CanMake(v, c) && Used(v.t, cur)
    ensures cur != c.slot
  {
  }

  /** The tokens of the last part behind the first one, which is the name of the file made. */
  function Rest(dst: string): seq<string> {
    var tokens := Tokens(LastPart(Trimmed(dst)));
    if tokens == [] then [] else tokens[1..]
  }

  /** For a destination that is made, exactly when the file made is the one written: its name has no blank, what is left of
      the last part leads back to it, and the bytes fit. */
  lemma MadeIsWrittenExactly(s: Store, src: CString, dst: CString)
    requires Good(s)
    ensures Straight(dst) && NewFile(s.v, src, dst).Some? ==>
              var c, from := NewFile(s.v, src, dst).value, FileAt(s.v, src);
              && from.Some? && from.value in s.files
              && ((Copy(s, src, dst).Copied? && Copy(s, src, dst).to == c.slot) <==>
                  && !HasSep(ChildName(Trimmed(dst))) && LeadsBack(s.v, c, Rest(dst))
                  && s.free + |s.files[from.value]| <= DATA_CAP)
  {
    hide Trimmed, AfterSlash, Resolve, Chains, Children, Rooted, SiblingsDiffer, WithFile, CanAdd, Copy, Walk, Tokens;
    hide FileAt, Straight, Creates, HasSep, LeadsBack;
    if !Straight(dst) || NewFile(s.v, src, dst).None? { return; }
    var c := NewFile(s.v, src, dst).value;
    CopyStages(s, src, dst);
    if HasSep(ChildName(Trimmed(dst))) {
      BlankNameIsLost(s, src, dst);
    } else {
      StraightTarget(s.v, dst);
      LeadsBackMeans(s.v, c, Rest(dst));
      MakeKeepsGood(s, c);
      FileNode(MakeFile(s, c), dst);
    }
  }

  // ---------------------------------------------------------------- what a copy keeps

  /** The disk a copy leaves. */
  ghost function After(s: Store, src: CString, dst: CString): Store
    requires Good(s)
  {
    Copy(s, src, dst).after
  }

  /** Whatever a copy comes to, paths that led somewhere lead there still, and only the destination's contents change. */
  lemma CopyKeepsTheRest(s: Store, src: CString, dst: CString, path: string)
    requires Good(s)
    ensures Good(After(s, src, dst)) && (Find(s.v, path).Some? ==> Find(After(s, src, dst).v, path) == Find(s.v, path))
    ensures forall n :: n in s.files && (Copy(s, src, dst).Copied? ==> n != Copy(s, src, dst).to) ==>
      n in After(s, src, dst).files && After(s, src, dst).files[n] == s.files[n]
    ensures Copy(s, src, dst).Copied? ==>
              var o := Copy(s, src, dst);
              && o.from in s.files && o.to in o.after.files && o.after.files[o.to] == s.files[o.from]
              && FileAt(s.v, src) == Some(o.from) && FileAt(o.after.v, dst) == Some(o.to)
  {
    hide Resolve, Creates, Chains, Children, Rooted, SiblingsDiffer, Added, CanMake, WithFile, Find, FileAt;
    var made := Prepared(s, src, dst);
    if NewFile(s.v, src, dst).Some? {
      MadeKeepsPaths(s, NewFile(s.v, src, dst).value, path);
      MakeKeepsGood(s, NewFile(s.v, src, dst).value);
    }
    FileNode(s, src);
    FileNode(made, dst);
    if FileAt(s.v, src).Some? && FileAt(made.v, dst).Some? {
      FinishedKeepsPaths(made, FileAt(s.v, src).value, FileAt(made.v, dst).value, path);
      FinishedKeepsPaths(made, FileAt(s.v, src).value, FileAt(made.v, dst).value, dst);
      FileNode(After(s, src, dst), dst);
    }
  }

  lemma MadeKeepsPaths(s: Store, c: Creation, path: string)
    requires Good(s) && CanMake(s.v, c)
    ensures Find(s.v, path).Some? ==> Find(MakeFile(s, c).v, path) == Find(s.v, path)
  {
    hide Chains, Children, Rooted, SiblingsDiffer, Walk, CanAdd, Tokens;
    WalkKept(s.v, c, if path != "" && path[0] == '/' then 0 else s.v.cwd, Tokens(path));
  }

  lemma FinishedKeepsPaths(s: Store, from: nat, to: nat, path: string)
    requires Good(s) && Shaped(s.v.t) && from in s.files && to in s.files && to < NODES
    ensures var o := Finished(s, from, to); Good(o.after) && Find(o.after.v, path) == Find(s.v, path)
  {
    hide Chains, Children, Rooted, SiblingsDiffer, Resolve;
    RewrittenKeepsResolve(s.v.t, s.v.kids, s.v.depth, to, s.free, |s.files[from]|, s.v.cwd, path);
  }

  // ---------------------------------------------------------------- a copy that goes astray

  const ASTRAY: CString := "abcdefghijk .. old"

  lemma AstrayParts()
    ensures Trimmed(ASTRAY) == LastPart(ASTRAY) == ASTRAY && ParentPath(ASTRAY) == "." && Splits(ASTRAY)
    ensures ChildName(ASTRAY) == "abcdefghijk" && Straight(ASTRAY)
  {
    var s := SkipSpaces(ASTRAY);
    assert s == ASTRAY && s[..Min(|s|, TMP_LEN - 1)] == ASTRAY;
    AfterSlashUnique(ASTRAY, 0);
    assert ASTRAY[0..] == ASTRAY && ASTRAY[..11] == "abcdefghijk";
  }

  lemma AstrayTokens()
    ensures Tokens(ASTRAY) == ["abcdefghijk", "..", "old"] && TokenOf("abcdefghijk") == "abcdefghijk"
    ensures !HasSep("abcdefghijk")
  {
    hide Tokens;
    WordToken("abcdefghijk");
    WordToken("..");
    WordToken("old");
    assert ASTRAY == "abcdefghijk" + [' '] + (".." + [' '] + "old");
    TokensSplit("abcdefghijk", ' ', ".." + [' '] + "old");
    TokensSplit("..", ' ', "old");
  }

  lemma WordToken(word: string)
    requires 0 < |word| < NAME_LEN && IsLower(word) && forall i :: 0 <= i < |word| ==> !IsSep(word[i])
    ensures Tokens(word) == [word] && TokenOf(word) == word && !HasSep(word)
  {
    assert word + "" == word && word[..|word|] == word;
    TokensWord(word, "");
    NoTokens("");
    LowerFixed(word);
  }

  /** The current directory holds a file "old" and no "abcdefghijk", a slot is free, and the source fits. */
  ghost predicate Ready(s: Store, src: CString, target: nat) {
    && Good(s) && |s.v.kids| == NODES && s.v.t.kind[s.v.cwd] == Dir && FreeSlot(s.v.t, 1) != 0
    && Lookup(s.v.t, s.v.kids[s.v.cwd], "abcdefghijk") == 0
    && Lookup(s.v.t, s.v.kids[s.v.cwd], "old") == target && target != 0 && s.v.t.kind[target] == File
    && FileAt(s.v, src).Some? && FileAt(s.v, src).value in s.files
    && s.free + |s.files[FileAt(s.v, src).value]| <= DATA_CAP
  }

  /** On such a disk a copy to "abcdefghijk .. old" makes "abcdefghijk" and overwrites "old". */
  lemma CopyGoesAstray(s: Store, src: CString, target: nat)
    requires Ready(s, src, target)
    ensures Copy(s, src, ASTRAY).Copied? && Copy(s, src, ASTRAY).to == target
    ensures NewFile(s.v, src, ASTRAY).Some? && NewFile(s.v, src, ASTRAY).value.slot != target
  {
    hide Chains, Children, Rooted, SiblingsDiffer, Tokens, Walk, CanAdd, Trimmed, AfterSlash, Straight, TokenOf, Lookup;
    hide FreeSlot, WithFile, Copy, StepIn;
    AstrayParts();
    AstrayTokens();
    DotToken();
    var v := s.v;
    FirstStep(v, v.cwd, ["."]);
    NoStep(v, v.cwd);
    DotStays(v, v.cwd);
    assert ["."][1..] == [];
    assert Find(v, ".") == Some(v.cwd);
    var tokens := Tokens(ASTRAY);
    FirstStep(v, v.cwd, tokens);
    NameStep(v, v.cwd, "abcdefghijk");
    assert ASTRAY[0] == 'a';
    assert Find(v, ASTRAY) == None;
    CreatesCanMake(v, ASTRAY);
    var c := Creates(v, ASTRAY).value;
    StraightTarget(v, ASTRAY);
    AstrayWalk(v, c, tokens[1..], target);
    CopyStages(s, src, ASTRAY);
    MakeKeepsGood(s, c);
    FileNode(MakeFile(s, c), ASTRAY);
    OldStays(s, c, target);
  }

  lemma DotStays(v: View, cur: nat)
    requires Sound(v) && Used(v.t, cur)
    ensures StepIn(v, cur, ".") == Some(cur)
  {
  }

  lemma NameStep(v: View, cur: nat, name: string)
    requires Sound(v) && Used(v.t, cur) && name != "." && name != ".."
    ensures |v.kids| == NODES
    ensures StepIn(v, cur, name) == if Lookup(v.t, v.kids[cur], name) == 0 then None else Some(Lookup(v.t, v.kids[cur], name))
  {
  }

  lemma AstrayWalk(v: View, c: Creation, tokens: seq<string>, target: nat)
    requires CanMake(v, c) && c.parent == v.cwd && c.token == "abcdefghijk" && tokens == ["..", "old"]
    requires |v.kids| == NODES && Lookup(v.t, v.kids[v.cwd], "old") == target && target != 0
    ensures Used(WithFile(v, c).t, c.slot) && WalkIn(WithFile(v, c), c.slot, tokens) == Some(target)
  {
    hide Chains, Children, Rooted, SiblingsDiffer, Walk, CanAdd, Lookup, StepIn;
    var z := WithFile(v, c);
    MadeFacts(v, c, v.cwd, "old");
    FirstStep(z, c.slot, tokens);
    UpFromFile(v, c);
    FirstStep(z, v.cwd, tokens[1..]);
    NameStep(z, v.cwd, "old");
    assert tokens[1..][1..] == [];
    NoStep(z, target);
  }

  lemma UpFromFile(v: View, c: Creation)
    requires CanMake(v, c)
    ensures Used(WithFile(v, c).t, c.slot) && StepIn(WithFile(v, c), c.slot, "..") == Some(c.parent)
  {
  }

  lemma OldStays(s: Store, c: Creation, n: nat)
    requires Good(s) && CanMake(s.v, c) && n < NODES && s.v.t.kind[n] == File
    ensures n in MakeFile(s, c).files && n != c.slot
  {
  }

  /** What ramdisk_init starts from. */
  function EmptyStore(): Store {
    Store(View(EmptyTable(), NoKids(), NoDepth(), 0), map[], 0)
  }

  /** The root directory right after initialisation takes a first file. */
  lemma FirstMade(name: CString)
    requires name != ""
    ensures Good(EmptyStore()) && Makes(EmptyStore().v, 0, name) == Some(Creation(0, 1, TokenOf(name)))
    ensures CanMake(EmptyStore().v, Creation(0, 1, TokenOf(name)))
  {
    EmptyIsTree();
    MakesCanMake(EmptyStore().v, 0, name);
  }

  function OneFile(name: CString): (s: Store)
    requires name != ""
  {
    FirstMade(name);
    MakeFile(EmptyStore(), Creation(0, 1, TokenOf(name)))
  }

  /** Then it takes a second one of another name. */
  lemma SecondMade(a: CString, b: CString)
    requires a != "" && b != "" && TokenOf(a) != TokenOf(b)
    ensures Good(OneFile(a)) && OneFile(a).v.kids[..1] == [[1]] && |OneFile(a).v.kids| == NODES
    ensures Makes(OneFile(a).v, 0, b) == Some(Creation(0, 2, TokenOf(b)))
    ensures CanMake(OneFile(a).v, Creation(0, 2, TokenOf(b)))
  {
    hide Chains, Children, Rooted, SiblingsDiffer, TokenOf;
    FirstMade(a);
    MakeKeepsGood(EmptyStore(), Creation(0, 1, TokenOf(a)));
    var v := OneFile(a).v;
    assert v.t.kind[1] == File && v.t.kind[2] == Free && v.t.name[1] == TokenOf(a) && v.kids[0] == [1];
    assert Lookup(v.t, [1][1..], TokenOf(b)) == 0;
    MakesCanMake(v, 0, b);
  }

  function TwoFiles(a: CString, b: CString): (s: Store)
    requires a != "" && b != "" && TokenOf(a) != TokenOf(b)
  {
    SecondMade(a, b);
    MakeFile(OneFile(a), Creation(0, 2, TokenOf(b)))
  }

  /** What the two files look like. */
  lemma TwoFacts(a: CString, b: CString)
    requires a != "" && b != "" && TokenOf(a) != TokenOf(b)
    ensures var s := TwoFiles(a, b);
            && Good(s) && Sound(s.v) && Shaped(s.v.t) && |s.v.kids| == NODES && s.v.kids[0] == [2, 1] && s.v.cwd == 0
            && FreeSlot(s.v.t, 1) == 3 && s.free == 0
            && s.v.t.kind[0] == Dir && s.v.t.kind[1] == File && s.v.t.kind[2] == File
            && s.v.t.name[1] == TokenOf(a) && s.v.t.name[2] == TokenOf(b) && 1 in s.files && s.files[1] == []
  {
    hide Chains, Children, Rooted, SiblingsDiffer, TokenOf;
    FirstMade(a);
    SecondMade(a, b);
    MakeKeepsGood(OneFile(a), Creation(0, 2, TokenOf(b)));
  }

  lemma LookupTwo(t: Table, token: string)
    requires Shaped(t) && t.kind[1] == t.kind[2] == File
    ensures Lookup(t, [2, 1], token) == if t.name[2] == token then 2 else if t.name[1] == token then 1 else 0
  {
    assert [2, 1][1..] == [1] && [1][1..] == [];
  }

  lemma AstrayReady()
    ensures TokenOf("src") == "src" && TokenOf("old") == "old" && Ready(TwoFiles("src", "old"), "src", 2)
  {
    hide Sound, Good, TokenOf, Tokens, WalkIn, StepIn, Lookup, FreeSlot, TwoFiles, Resolve;
    WordToken("src");
    WordToken("old");
    TwoFacts("src", "old");
    var s := TwoFiles("src", "old");
    var v := s.v;
    LookupTwo(v.t, "src");
    LookupTwo(v.t, "old");
    LookupTwo(v.t, "abcdefghijk");
    assert "src"[0] == 's' && "old"[0] == 'o' && "abcdefghijk"[0] == 'a';
    FindInRoot(v, "src", 1);
    FileNode(s, "src");
  }

  lemma FindInRoot(v: View, name: string, n: nat)
    requires Sound(v) && v.cwd == 0 && Lookup(v.t, v.kids[0], name) == n != 0
    requires Tokens(name) == [name] && name != "" && name != "." && name != ".."
    ensures Find(v, name) == Some(n)
  {
    hide Chains, Children, Rooted, SiblingsDiffer, Tokens, Walk, Lookup, StepIn;
    FirstStep(v, 0, [name]);
    NameStep(v, 0, name);
    assert [name][1..] == [];
    NoStep(v, n);
  }

  /** Such a disk can be reached, and the copy goes astray on it. */
  method AstrayExample() returns (fs: Disk, ok: bool, ghost o: Outcome)
    ensures fresh(fs) && fs.Valid() && ok && o.Copied? && o.to == 2 && StoreOf(fs) == o.after
    ensures TokenOf("src") == "src" && TokenOf("old") == "old" && Good(TwoFiles("src", "old"))
    ensures o == Copy(TwoFiles("src", "old"), "src", ASTRAY)
    ensures NewFile(TwoFiles("src", "old").v, "src", ASTRAY).Some?
    ensures NewFile(TwoFiles("src", "old").v, "src", ASTRAY).value.slot != 2
  {
    hide Tree, Regions, FilesOf, InPool, Good, Sound, Find, FileAt, Copy, StoreOf, Disk.Valid, MakeFile, WithFile, TokenOf;
    hide NewFile, Makes, CanMake, EmptyStore, OneFile, TwoFiles, Ready;
    fs := new Disk();
    AstrayReady();
    StartsEmpty(fs);
    FirstMade("src");
    SecondMade("src", "old");
    TwoFacts("src", "old");
    MakesTwo("src", "old");
    CopyGoesAstray(TwoFiles("src", "old"), "src", 2);
    var one := MakeAt(fs, 0, "src");
    var two := MakeAt(fs, 0, "old");
    var n;
    ok, n, o := CopyFilePath(fs, "src", ASTRAY);
  }

  lemma StartsEmpty(fs: Disk)
    requires fs.Valid() && fs.Tab() == EmptyTable() && fs.Files() == map[] && fs.cwd == 0 && fs.dataFree == 0
    requires fs.kids == NoKids() && fs.depth == NoDepth()
    ensures StoreOf(fs) == EmptyStore()
  {
  }

  lemma MakesTwo(a: CString, b: CString)
    requires a != "" && b != "" && TokenOf(a) != TokenOf(b)
    ensures CanMake(EmptyStore().v, Creation(0, 1, TokenOf(a)))
    ensures OneFile(a) == MakeFile(EmptyStore(), Creation(0, 1, TokenOf(a)))
    ensures CanMake(OneFile(a).v, Creation(0, 2, TokenOf(b)))
    ensures TwoFiles(a, b) == MakeFile(OneFile(a), Creation(0, 2, TokenOf(b)))
  {
    FirstMade(a);
    SecondMade(a, b);
  }
}
