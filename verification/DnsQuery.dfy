/** build_dns_query of src/drivers/network.c: which host names it accepts and what it writes (RFC 1035 section 4.1). */
module DnsQuery {
  import opened Bytes
  import opened CStrings
  import opened DnsName
  import opened Wrappers

  const HEADER_LEN: nat := 12

  predicate HostCharOk(c: char) {
    'a' <= c <= 'z' || 'A' <= c <= 'Z' || '0' <= c <= '9' || c == '-'
  }

  /** Splitting at dots, `pieces` and the open piece `cur` having been read already. */
  function Scan(pieces: seq<string>, cur: string, h: string): seq<string>
    decreases |h|
  {
    if h == "" then pieces + [cur]
    else if h[0] == '.' then Scan(pieces + [cur], "", h[1..])
    else Scan(pieces, cur + [h[0]], h[1..])
  }

  /** The pieces of a host name between its dots. */
  function Split(h: string): seq<string> {
    Scan([], "", h)
  }

  function Dotted(pieces: seq<string>): string {
    if pieces == [] then "" else if |pieces| == 1 then pieces[0] else pieces[0] + "." + Dotted(pieces[1..])
  }

  predicate GoodPiece(p: string) {
    1 <= |p| <= 63 && forall i :: 0 <= i < |p| ==> HostCharOk(p[i])
  }

  predicate GoodPieces(pieces: seq<string>) {
    forall i :: 0 <= i < |pieces| ==> GoodPiece(pieces[i])
  }

  /** A host name: dot-separated labels of 1 to 63 letters, digits or hyphens, without a trailing dot. */
  predicate GoodHost(h: string) {
    GoodPieces(Split(h))
  }

  function LowerByte(c: char): byte {
    var b := LowerChar(c) as int;
    if b < 256 then b else 0
  }

  function Ascii(p: string): (r: seq<byte>)
    ensures |r| == |p|
  {
    if p == "" then [] else Ascii(p[..|p| - 1]) + [LowerByte(p[|p| - 1])]
  }

  /** The labels of a query: the pieces in lower case. */
  function LabelsOf(pieces: seq<string>): (r: seq<Label>)
    requires GoodPieces(pieces)
    ensures |r| == |pieces| && GoodLabels(r)
  {
    if pieces == [] then [] else LabelsOf(pieces[..|pieces| - 1]) + [Ascii(pieces[|pieces| - 1])]
  }

  function Header(id: nat): (h: seq<byte>)
    requires id < 0x1_0000
    ensures |h| == HEADER_LEN
  {
    [id / 256, id % 256, 1, 0, 0, 1, 0, 0, 0, 0, 0, 0]
  }

  /** The query message for a list of labels: one question, type A, class IN. */
  function Query(id: nat, labels: seq<Label>): seq<byte>
    requires id < 0x1_0000 && GoodLabels(labels)
  {
    Header(id) + EncLabels(labels) + [0] + [0, 1, 0, 1]
  }

  // ---------------------------------------------------------------- splitting

  /** What has been read stays: the finished pieces, and the open piece as a prefix of the next one. */
  lemma {:induction false} ScanKeeps(pieces: seq<string>, cur: string, h: string)
    ensures var r := Scan(pieces, cur, h);
            |r| > |pieces| && r[..|pieces|] == pieces && cur <= r[|pieces|]
            && (if h == "" || h[0] == '.' then r[|pieces|] == cur else cur + [h[0]] <= r[|pieces|])
    decreases |h|
  {
    if h != "" {
      if h[0] == '.' {
        ScanKeeps(pieces + [cur], "", h[1..]);
        var r := Scan(pieces + [cur], "", h[1..]);
        assert r[..|pieces|] == r[..|pieces| + 1][..|pieces|] && r[|pieces|] == r[..|pieces| + 1][|pieces|];
      } else {
        ScanKeeps(pieces, cur + [h[0]], h[1..]);
      }
    }
  }

  /** What precedes the open piece in the text. */
  function Lead(pieces: seq<string>): string {
    if pieces == [] then "" else pieces[0] + "." + Lead(pieces[1..])
  }

  lemma {:induction false} DottedLast(pieces: seq<string>, last: string)
    ensures Dotted(pieces + [last]) == Lead(pieces) + last
    ensures Lead(pieces + [last]) == Lead(pieces) + last + "."
    decreases |pieces|
  {
    if pieces == [] {
      assert pieces + [last] == [last];
    } else {
      assert (pieces + [last])[1..] == pieces[1..] + [last];
      DottedLast(pieces[1..], last);
    }
  }

  lemma Regroup(lead: string, cur: string, h: string)
    requires h != ""
    ensures h[0] == '.' ==> (lead + cur + ".") + "" + h[1..] == lead + cur + h
    ensures lead + (cur + [h[0]]) + h[1..] == lead + cur + h
  {
  }

  lemma {:induction false} ScanDotted(pieces: seq<string>, cur: string, h: string)
    ensures Dotted(Scan(pieces, cur, h)) == Lead(pieces) + cur + h
    decreases |h|
  {
    hide Dotted, Lead;
    DottedLast(pieces, cur);
    if h == "" {
      assert Lead(pieces) + cur + h == Lead(pieces) + cur;
    } else {
      Regroup(Lead(pieces), cur, h);
      if h[0] == '.' {
        ScanDotted(pieces + [cur], "", h[1..]);
      } else {
        ScanDotted(pieces, cur + [h[0]], h[1..]);
      }
    }
  }

  /** Splitting is undone by writing the dots back. */
  lemma SplitDotted(h: string)
    ensures Dotted(Split(h)) == h
  {
    ScanDotted([], "", h);
    assert Lead([]) + "" + h == h;
  }

  lemma {:induction false} ScanPiece(pieces: seq<string>, cur: string, p: string, rest: string)
    requires '.' !in p
    ensures Scan(pieces, cur, p + rest) == Scan(pieces, cur + p, rest)
    decreases |p|
  {
    if p == "" {
      assert p + rest == rest && cur + p == cur;
    } else {
      assert (p + rest)[0] == p[0] && (p + rest)[1..] == p[1..] + rest;
      assert (cur + [p[0]]) + p[1..] == cur + p;
      ScanPiece(pieces, cur + [p[0]], p[1..], rest);
    }
  }

  lemma ScanWord(pieces: seq<string>, p: string, rest: string)
    requires '.' !in p
    ensures Scan(pieces, "", p) == pieces + [p]
    ensures Scan(pieces, "", p + "." + rest) == Scan(pieces + [p], "", rest)
  {
    assert p + "" == p && "" + p == p;
    ScanPiece(pieces, "", p, "");
    assert ("." + rest)[1..] == rest && p + ("." + rest) == p + "." + rest;
    ScanPiece(pieces, "", p, "." + rest);
  }

  lemma {:induction false} ScanAll(before: seq<string>, pieces: seq<string>)
    requires pieces != [] && GoodPieces(pieces)
    ensures Scan(before, "", Dotted(pieces)) == before + pieces
    decreases |pieces|
  {
    hide Scan;
    assert GoodPiece(pieces[0]);
    assert before + pieces == before + [pieces[0]] + pieces[1..];
    if |pieces| == 1 {
      ScanWord(before, pieces[0], "");
    } else {
      ScanWord(before, pieces[0], Dotted(pieces[1..]));
      ScanAll(before + [pieces[0]], pieces[1..]);
    }
  }

  /** A host name is accepted for what it says: exactly when it is some good labels joined by single dots. */
  lemma GoodHostMeaning(h: string)
    ensures GoodHost(h) <==> exists pieces :: pieces != [] && GoodPieces(pieces) && Dotted(pieces) == h
  {
    ScanKeeps([], "", h);
    SplitDotted(h);
    forall pieces | pieces != [] && GoodPieces(pieces) && Dotted(pieces) == h ensures GoodHost(h) {
      ScanAll([], pieces);
      assert [] + pieces == pieces;
    }
  }

  // ---------------------------------------------------------------- the builder

  /** The message while the label `cur` is being written behind its still empty length byte. */
  function Open(id: nat, pieces: seq<string>, cur: string): seq<byte>
    requires id < 0x1_0000 && GoodPieces(pieces)
  {
    Closed(id, pieces) + [0] + Ascii(cur)
  }

  function Closed(id: nat, pieces: seq<string>): (r: seq<byte>)
    requires id < 0x1_0000 && GoodPieces(pieces)
    ensures HEADER_LEN <= |r|
  {
    Header(id) + EncLabels(LabelsOf(pieces))
  }

  lemma OpenAppend(id: nat, pieces: seq<string>, cur: string, c: char)
    requires id < 0x1_0000 && GoodPieces(pieces)
    ensures Open(id, pieces, cur + [c]) == Open(id, pieces, cur) + [LowerByte(c)]
    ensures Open(id, pieces, "") == Closed(id, pieces) + [0]
    ensures |Open(id, pieces, cur)| == |Closed(id, pieces)| + 1 + |cur|
  {
    assert (cur + [c])[..|cur|] == cur;
  }

  /** Storing the length closes the label. */
  lemma CloseLabel(id: nat, pieces: seq<string>, cur: string)
    requires id < 0x1_0000 && GoodPieces(pieces) && GoodPiece(cur)
    ensures GoodPieces(pieces + [cur])
    ensures Open(id, pieces, cur)[|Closed(id, pieces)| := |cur| as byte] == Closed(id, pieces + [cur])
  {
    var labels, one := LabelsOf(pieces), [Ascii(cur)];
    assert (pieces + [cur])[..|pieces|] == pieces;
    EncAppend(labels, one);
    assert one[1..] == [];
    assert EncLabels(one) == [|cur| as byte] + Ascii(cur);
  }

  /** Where reading stands: the pieces finished, the piece open, and what is left of the host. */
  predicate Reading(h: string, pieces: seq<string>, cur: string, left: string) {
    && Split(h) == Scan(pieces, cur, left)
    && GoodPieces(pieces) && |cur| <= 63 && forall i :: 0 <= i < |cur| ==> HostCharOk(cur[i])
  }

  /** A piece that is empty when it ends, grows past 63 characters or contains anything else spoils the host. */
  lemma Spoiled(h: string, pieces: seq<string>, cur: string, left: string)
    requires Reading(h, pieces, cur, left)
    requires if left == "" || left[0] == '.' then cur == "" else !HostCharOk(left[0]) || |cur| == 63
    ensures !GoodHost(h)
  {
    ScanKeeps(pieces, cur, left);
    var piece := Split(h)[|pieces|];
    if left != "" && left[0] != '.' {
      assert piece[|cur|] == left[0];
    }
  }

  lemma Finished(h: string, pieces: seq<string>, cur: string)
    requires Reading(h, pieces, cur, "")
    ensures Split(h) == pieces + [cur] && GoodPieces(pieces) && (cur != "" ==> GoodPiece(cur))
    ensures GoodHost(h) <==> cur != ""
  {
    if cur != "" {
      assert GoodPiece(cur);
    } else {
      Spoiled(h, pieces, cur, "");
    }
  }

  lemma ReadOn(h: string, pieces: seq<string>, cur: string, left: string)
    requires Reading(h, pieces, cur, left) && left != ""
    ensures GoodPieces(pieces) && (cur != "" ==> GoodPiece(cur))
    ensures left[0] == '.' && cur != "" ==> Reading(h, pieces + [cur], "", left[1..])
    ensures left[0] != '.' && HostCharOk(left[0]) && |cur| < 63 ==> Reading(h, pieces, cur + [left[0]], left[1..])
  {
  }

  method PutByte(out: array<byte>, pos: nat, b: byte)
    requires pos < out.Length
    modifies out
    ensures out[..pos + 1] == old(out[..pos]) + [b]
  {
    out[pos] := b;
    assert out[..pos] == old(out[..pos]);
  }

  method PutHeader(out: array<byte>, id: nat)
    requires id < 0x1_0000 && HEADER_LEN < out.Length
    modifies out
    ensures out[..HEADER_LEN + 1] == Open(id, [], "")
  {
    forall i | 0 <= i < out.Length { out[i] := 0; }
    out[0], out[1] := id / 256, id % 256;
    out[2], out[3] := 1, 0;
    out[4], out[5] := 0, 1;
    ReadStart("", id);
    assert out[..HEADER_LEN] == Header(id);
    OpenAppend(id, [], "", 'a');
    assert out[..HEADER_LEN + 1] == out[..HEADER_LEN] + [0];
  }

  method PutLength(out: array<byte>, at: nat, length: nat, pos: nat, id: nat, ghost pieces: seq<string>,
      ghost cur: string)
    requires id < 0x1_0000 && GoodPieces(pieces) && GoodPiece(cur) && length == |cur|
    requires at == |Closed(id, pieces)| && pos <= out.Length && out[..pos] == Open(id, pieces, cur)
    modifies out
    ensures GoodPieces(pieces + [cur]) && out[..pos] == Closed(id, pieces + [cur])
  {
    OpenAppend(id, pieces, cur, 'a');
    out[at] := length;
    assert out[..pos] == old(out[..pos])[at := length as byte];
    CloseLabel(id, pieces, cur);
  }

  method PutTail(out: array<byte>, pos: nat, id: nat, ghost pieces: seq<string>)
    requires id < 0x1_0000 && GoodPieces(pieces) && pos + 5 <= out.Length && out[..pos] == Closed(id, pieces)
    modifies out
    ensures out[..pos + 5] == Query(id, LabelsOf(pieces))
  {
    PutByte(out, pos, 0);
    PutByte(out, pos + 1, 0);
    PutByte(out, pos + 2, 1);
    PutByte(out, pos + 3, 0);
    PutByte(out, pos + 4, 1);
    assert out[..pos + 5] == Closed(id, pieces) + [0] + [0, 1, 0, 1];
  }

  /** build_dns_query */
  method BuildQuery(host: CString, id: nat, out: array<byte>, outMax: nat) returns (ok: bool, outLen: nat)
    requires id < 0x1_0000 && outMax == out.Length && outMax <= 65530
    modifies out
    ensures ok <==> GoodHost(SkipSpaces(host)) && |SkipSpaces(host)| + 18 <= outMax
    ensures ok ==> outLen == |SkipSpaces(host)| + 18
    ensures ok ==> out[..outLen] == Query(id, LabelsOf(Split(SkipSpaces(host))))
  {
    hide Split, GoodPiece, GoodPieces, GoodHost, Closed, Open, Query, LabelsOf, Reading, SkipSpaces;
    ghost var h := SkipSpaces(host);
    outLen := 0;
    var p := SkipBlanks(host);
    if outMax < 18 || p == |host| {
      ShortHost(h);
      return false, 0;
    }
    PutHeader(out, id);
    ReadStart(h, id);
    var labelLenPos, labelLen, pos := HEADER_LEN, 0, HEADER_LEN + 1;
    ghost var pieces: seq<string>, cur := [], "";
    while p < |host|
      invariant |host| - |h| <= p <= |host| && GoodPieces(pieces) && Reading(h, pieces, cur, host[p..])
      invariant labelLen == |cur| && pos == HEADER_LEN + 1 + (p - (|host| - |h|)) <= outMax
      invariant labelLenPos == |Closed(id, pieces)| && pos == labelLenPos + 1 + labelLen
      invariant out[..pos] == Open(id, pieces, cur)
    {
      var c := host[p];
      ReadOn(h, pieces, cur, host[p..]);
      assert host[p..][1..] == host[p + 1..];
      if c == '.' {
        if labelLen == 0 {
          Spoiled(h, pieces, cur, host[p..]);
          return false, 0;
        }
        PutLength(out, labelLenPos, labelLen, pos, id, pieces, cur);
        pieces, cur := pieces + [cur], "";
        labelLen := 0;
        if p + 1 == |host| {
          Finished(h, pieces, cur);
          return false, 0;
        }
        if pos >= outMax { return false, 0; }
        labelLenPos := pos;
        OpenAppend(id, pieces, "", c);
        PutByte(out, pos, 0);
        pos := pos + 1;
      } else {
        if !HostCharOk(c) || labelLen >= 63 {
          Spoiled(h, pieces, cur, host[p..]);
          return false, 0;
        }
        if pos >= outMax { return false, 0; }
        OpenAppend(id, pieces, cur, c);
        PutByte(out, pos, LowerByte(c));
        pos := pos + 1;
        labelLen := labelLen + 1;
        cur := cur + [c];
      }
      p := p + 1;
    }
    assert host[p..] == "";
    Finished(h, pieces, cur);
    if labelLen == 0 { return false, 0; }
    PutLength(out, labelLenPos, labelLen, pos, id, pieces, cur);
    if pos + 5 > outMax { return false, 0; }
    PutTail(out, pos, id, pieces + [cur]);
    return true, pos + 5;
  }

  lemma ShortHost(h: string)
    ensures GoodHost(h) ==> h != ""
  {
    if h == "" {
      assert !GoodPiece(Split(h)[0]);
    }
  }

  lemma ReadStart(h: string, id: nat)
    requires id < 0x1_0000
    ensures Reading(h, [], "", h) && GoodPieces([]) && Closed(id, []) == Header(id)
  {
    assert LabelsOf([]) == [];
  }

  /** The leading blanks of a host are not part of its name. */
  method SkipBlanks(host: CString) returns (p: nat)
    ensures p <= |host| && host[p..] == SkipSpaces(host)
  {
    p := 0;
    assert host[0..] == host;
    while At(host, p) == ' '
      invariant p <= |host| && SkipSpaces(host) == SkipSpaces(host[p..])
      decreases |host| - p
    {
      p := p + 1;
    }
  }

  // ---------------------------------------------------------------- what was asked can be read back

  predicate LowerLabel(l: Label) {
    forall i :: 0 <= i < |l| ==> 'a' as int <= l[i] <= 'z' as int || '0' as int <= l[i] <= '9' as int || l[i] == '-' as int
  }

  lemma {:induction false} AsciiMeaning(p: string)
    requires forall i :: 0 <= i < |p| ==> HostCharOk(p[i])
    ensures LowerLabel(Ascii(p)) && forall i :: 0 <= i < |p| ==> Ascii(p)[i] == LowerChar(p[i]) as int
    decreases |p|
  {
    if p != "" {
      AsciiMeaning(p[..|p| - 1]);
    }
  }

  lemma {:induction false} LabelsMeaning(pieces: seq<string>, i: nat)
    requires GoodPieces(pieces) && i < |pieces|
    ensures LabelsOf(pieces)[i] == Ascii(pieces[i]) && LowerLabel(LabelsOf(pieces)[i])
    decreases |pieces|
  {
    if i == |pieces| - 1 {
      AsciiMeaning(pieces[i]);
    } else {
      LabelsMeaning(pieces[..|pieces| - 1], i);
    }
  }

  /**
    * A query that is built asks for its host: the QNAME decodes to the host's labels in lower case, and skipping it
    * from offset 12 ends exactly at the four bytes of type and class.
    */
  lemma QueryReadsBack(id: nat, h: string)
    requires id < 0x1_0000 && GoodHost(h)
    ensures var query := Query(id, LabelsOf(Split(h)));
            && Decode(query[HEADER_LEN..]) == Some(LabelsOf(Split(h)))
            && Skip(query, HEADER_LEN) == Some(|query| - 4)
            && query[|query| - 4..] == [0, 1, 0, 1]
    ensures forall i :: 0 <= i < |Split(h)| ==> LabelsOf(Split(h))[i] == Ascii(Split(h)[i])
    ensures Dotted(Split(h)) == h
  {
    hide Split, LabelsOf, GoodPiece;
    var labels := LabelsOf(Split(h));
    var query := Query(id, labels);
    var name := Name(labels, None);
    assert EncName(name) == EncLabels(labels) + [0];
    assert query == Header(id) + EncName(name) + [0, 1, 0, 1];
    SkipEncoded(Header(id), name, [0, 1, 0, 1]);
    assert query[HEADER_LEN..] == EncLabels(labels) + [0] + [0, 1, 0, 1];
    DecodeEncoded(labels, [0, 1, 0, 1]);
    SplitDotted(h);
    forall i | 0 <= i < |Split(h)| ensures labels[i] == Ascii(Split(h)[i]) {
      LabelsMeaning(Split(h), i);
    }
  }
}
