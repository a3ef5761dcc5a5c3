/** The DNS query of src/drivers/network.c byte by byte, from the characters of the host name, and which responses are
    taken for answers to it (RFC 1035 section 4.1). */
module DnsLaws {
  import opened Bytes
  import opened CStrings
  import opened DnsName
  import opened DnsQuery
  import opened DnsReply
  import opened Wrappers

  // ---------------------------------------------------------------- host names

  /** How many characters there are from `i` on up to the next dot or the end. */
  function RunLen(h: string, i: nat): (n: nat)
    ensures i <= |h| ==> i + n <= |h| && (i + n == |h| || h[i + n] == '.') && forall k :: i <= k < i + n ==> h[k] != '.'
    decreases |h| - i
  {
    if i >= |h| || h[i] == '.' then 0 else 1 + RunLen(h, i + 1)
  }

  /** In ASCII. */
  predicate LetterDigitHyphen(c: char) {
    var b := c as int;
    97 <= b <= 122 || 65 <= b <= 90 || 48 <= b <= 57 || b == 45
  }

  /** A dot is followed by 1 to 63 characters up to the next dot or the end. */
  predicate FitsAt(h: string, i: nat)
    requires i < |h|
  {
    if h[i] == '.' then 1 <= RunLen(h, i + 1) <= 63 else LetterDigitHyphen(h[i])
  }

  /** Letters, digits, hyphens and dots, with 1 to 63 characters in front of the first dot, between dots and behind the
      last one. */
  predicate IsHost(h: string) {
    1 <= RunLen(h, 0) <= 63 && forall i :: 0 <= i < |h| ==> FitsAt(h, i)
  }

  lemma {:induction false} RunShift(a: string, h: string, i: nat)
    requires i <= |h|
    ensures RunLen(a + h, |a| + i) == RunLen(h, i)
    ensures i < |h| ==> (FitsAt(a + h, |a| + i) <==> FitsAt(h, i))
    decreases |h| - i
  {
    if i < |h| { RunShift(a, h, i + 1); }
  }

  lemma {:induction false} RunOf(p: string, rest: string, i: nat)
    requires (forall k :: 0 <= k < |p| ==> p[k] != '.') && (rest == "" || rest[0] == '.') && i <= |p|
    ensures RunLen(p + rest, i) == |p| - i
    decreases |p| - i
  {
    if i < |p| { RunOf(p, rest, i + 1); }
  }

  lemma PieceIsRun(p: string, rest: string)
    requires rest == "" || rest[0] == '.'
    ensures GoodPiece(p) ==> RunLen(p + rest, 0) == |p|
    ensures GoodPiece(p) <==> 1 <= |p| <= 63 && forall k :: 0 <= k < |p| ==> LetterDigitHyphen(p[k])
  {
    if GoodPiece(p) { RunOf(p, rest, 0); }
  }

  lemma FitsBehind(a: string, rest: string)
    ensures (forall i :: |a| <= i < |a + rest| ==> FitsAt(a + rest, i)) <==>
            forall i :: 0 <= i < |rest| ==> FitsAt(rest, i)
  {
    hide FitsAt;
    forall i | 0 <= i < |rest| ensures FitsAt(a + rest, |a| + i) <==> FitsAt(rest, i) {
      RunShift(a, rest, i);
    }
    if forall i :: |a| <= i < |a + rest| ==> FitsAt(a + rest, i) {
      forall i | 0 <= i < |rest| ensures FitsAt(rest, i) {
        assert FitsAt(a + rest, |a| + i);
      }
    }
    if forall i :: 0 <= i < |rest| ==> FitsAt(rest, i) {
      forall i | |a| <= i < |a + rest| ensures FitsAt(a + rest, i) {
        assert FitsAt(rest, i - |a|);
      }
    }
  }

  lemma HostGrows(p: string, rest: string)
    requires GoodPiece(p)
    ensures IsHost(p + "." + rest) <==> IsHost(rest)
  {
    hide RunLen, LetterDigitHyphen, HostCharOk;
    var front := p + ".";
    var h := front + rest;
    assert h == p + ("." + rest);
    PieceIsRun(p, "." + rest);
    FitsBehind(front, rest);
    RunShift(front, rest, 0);
    forall i | 0 <= i < |p| ensures FitsAt(h, i) {
      assert h[i] == p[i];
      Allowed(p[i]);
    }
    assert FitsAt(h, |p|) <==> 1 <= RunLen(rest, 0) <= 63;
  }

  lemma Allowed(c: char)
    ensures HostCharOk(c) <==> LetterDigitHyphen(c)
    ensures HostCharOk(c) ==> c != '.'
  {
  }

  lemma OnePiece(p: string)
    requires GoodPiece(p)
    ensures IsHost(p)
  {
    hide LetterDigitHyphen, HostCharOk;
    assert p + "" == p;
    PieceIsRun(p, "");
    forall i | 0 <= i < |p| ensures FitsAt(p, i) { Allowed(p[i]); }
  }

  lemma {:induction false} PiecesMakeHost(pieces: seq<string>)
    requires pieces != [] && GoodPieces(pieces)
    ensures IsHost(Dotted(pieces))
    decreases |pieces|
  {
    hide IsHost, GoodPiece;
    var p := pieces[0];
    assert GoodPiece(p);
    if |pieces| == 1 {
      OnePiece(p);
    } else {
      PiecesMakeHost(pieces[1..]);
      HostGrows(p, Dotted(pieces[1..]));
    }
  }

  /** The part of a host in front of its first dot is good, and the part behind it is a host again. */
  lemma FirstPiece(h: string)
    requires IsHost(h)
    ensures var n := RunLen(h, 0); GoodPiece(h[..n]) && (n < |h| ==> h[n] == '.')
  {
    hide HostCharOk, LetterDigitHyphen;
    var n := RunLen(h, 0);
    forall i | 0 <= i < n ensures HostCharOk(h[..n][i]) {
      assert FitsAt(h, i);
      Allowed(h[i]);
    }
  }

  lemma {:induction false} HostHasPieces(h: string) returns (pieces: seq<string>)
    requires IsHost(h)
    ensures pieces != [] && GoodPieces(pieces) && Dotted(pieces) == h
    decreases |h|
  {
    hide IsHost, GoodPiece;
    FirstPiece(h);
    var n := RunLen(h, 0);
    var p := h[..n];
    if n == |h| {
      pieces := [p];
    } else {
      var rest := h[n + 1..];
      assert h == p + "." + rest;
      HostGrows(p, rest);
      var more := HostHasPieces(rest);
      pieces := [p] + more;
      assert pieces[1..] == more;
    }
  }

  /** Exactly these hosts can be asked for. */
  lemma AcceptedHosts(h: string)
    ensures GoodHost(h) <==> IsHost(h)
  {
    hide IsHost, GoodPieces;
    GoodHostMeaning(h);
    if GoodHost(h) {
      var pieces :| pieces != [] && GoodPieces(pieces) && Dotted(pieces) == h;
      PiecesMakeHost(pieces);
    }
    if IsHost(h) {
      var pieces := HostHasPieces(h);
    }
  }

  // ---------------------------------------------------------------- the query's bytes

  /** Capital letters become small ones: 65 to 90 are moved up by 32. */
  function SmallAscii(c: char): int {
    if 65 <= c as int <= 90 then c as int + 32 else c as int
  }

  /** The QNAME of a host without its last byte: a length in front of the name and in place of every dot, and the
      characters in lower case where they stand. */
  predicate IsWire(w: seq<byte>, h: string) {
    && |w| == |h| + 1
    && w[0] == RunLen(h, 0)
    && forall i :: 0 <= i < |h| ==> w[i + 1] == if h[i] == '.' then RunLen(h, i + 1) else SmallAscii(h[i])
  }

  lemma WireGrows(p: string, rest: string, w: seq<byte>, v: seq<byte>)
    requires GoodPiece(p) && IsWire(v, rest) && w == [|p| as byte] + Ascii(p) + v
    ensures IsWire(w, p + "." + rest)
  {
    hide RunLen, LetterDigitHyphen, Ascii, LowerByte;
    var front := p + ".";
    var h := front + rest;
    assert h == p + ("." + rest);
    PieceIsRun(p, "." + rest);
    SmallPiece(p);
    forall i | 0 <= i < |h|
      ensures w[i + 1] == if h[i] == '.' then RunLen(h, i + 1) else SmallAscii(h[i])
    {
      if i < |p| {
        assert h[i] == p[i];
        Allowed(p[i]);
      } else {
        RunShift(front, rest, i - |p|);
      }
    }
  }

  lemma SmallChar(c: char)
    requires HostCharOk(c)
    ensures LowerChar(c) as int == SmallAscii(c)
  {
    if 'A' <= c <= 'Z' {
      assert c - 'A' + 'a' == (c as int - 65 + 97) as char;
    }
  }

  lemma SmallPiece(p: string)
    requires GoodPiece(p)
    ensures forall i :: 0 <= i < |p| ==> Ascii(p)[i] == SmallAscii(p[i])
  {
    hide HostCharOk, LowerChar, SmallAscii, Ascii;
    AsciiMeaning(p);
    forall i | 0 <= i < |p| ensures Ascii(p)[i] == SmallAscii(p[i]) {
      SmallChar(p[i]);
    }
  }

  lemma WireOfOne(p: string, w: seq<byte>)
    requires GoodPiece(p) && w == [|p| as byte] + Ascii(p)
    ensures IsWire(w, p)
  {
    hide RunLen, Ascii, LowerByte;
    assert p + "" == p;
    PieceIsRun(p, "");
    SmallPiece(p);
    forall i | 0 <= i < |p| ensures p[i] != '.' { Allowed(p[i]); }
  }

  lemma TailLabels(pieces: seq<string>)
    requires pieces != [] && GoodPieces(pieces)
    ensures LabelsOf(pieces)[0] == Ascii(pieces[0]) && LabelsOf(pieces)[1..] == LabelsOf(pieces[1..])
  {
    hide LabelsOf, GoodPiece, Ascii;
    LabelsMeaning(pieces, 0);
    forall i | 0 <= i < |pieces| - 1 ensures LabelsOf(pieces)[i + 1] == LabelsOf(pieces[1..])[i] {
      LabelsMeaning(pieces, i + 1);
      LabelsMeaning(pieces[1..], i);
    }
  }

  lemma {:induction false} PiecesOnWire(pieces: seq<string>)
    requires pieces != [] && GoodPieces(pieces)
    ensures IsWire(EncLabels(LabelsOf(pieces)), Dotted(pieces))
    decreases |pieces|
  {
    hide LabelsOf, GoodPiece, Ascii, IsWire;
    var p := pieces[0];
    TailLabels(pieces);
    assert GoodPiece(p);
    if |pieces| == 1 {
      assert EncLabels(LabelsOf(pieces)) == [|p| as byte] + Ascii(p);
      WireOfOne(p, EncLabels(LabelsOf(pieces)));
    } else {
      PiecesOnWire(pieces[1..]);
      WireGrows(p, Dotted(pieces[1..]), EncLabels(LabelsOf(pieces)), EncLabels(LabelsOf(pieces[1..])));
    }
  }

  /** Blanks in front of a host, character 32, are skipped and nothing else is. */
  lemma LeadingBlanks(h: string)
    ensures SkipSpaces([32 as char] + h) == SkipSpaces(h)
    ensures h == "" || h[0] as int != 32 ==> SkipSpaces(h) == h
  {
    assert ([32 as char] + h)[1..] == h;
  }

  /** Every byte of a query: the number asked under with its high byte first, recursion desired, one question and
      nothing else, the name, type A and class IN. */
  lemma QueryBytes(id: nat, h: string)
    requires id < 0x1_0000 && IsHost(h)
    ensures GoodHost(h)
    ensures var q := Query(id, LabelsOf(Split(h)));
            && |q| == |h| + 18 && q[0] == id / 256 && q[1] == id % 256
            && q[2..12] == [1, 0, 0, 1, 0, 0, 0, 0, 0, 0]
            && IsWire(q[12..|h| + 13], h)
            && q[|h| + 13..] == [0, 0, 1, 0, 1]
  {
    hide IsHost, Split, LabelsOf, GoodPiece, EncLabels, IsWire;
    AcceptedHosts(h);
    SplitDotted(h);
    ShortSplit(h);
    PiecesOnWire(Split(h));
    WireLength(EncLabels(LabelsOf(Split(h))), h);
    QueryParts(id, LabelsOf(Split(h)));
  }

  lemma WireLength(w: seq<byte>, h: string)
    requires IsWire(w, h)
    ensures |w| == |h| + 1
  {
  }

  lemma ShortSplit(h: string)
    ensures Split(h) != []
  {
    ScanKeeps([], "", h);
  }

  lemma QueryParts(id: nat, labels: seq<Label>)
    requires id < 0x1_0000 && GoodLabels(labels)
    ensures var q, n := Query(id, labels), |EncLabels(labels)|;
            && |q| == n + 17 && q[0] == id / 256 && q[1] == id % 256
            && q[2..12] == [1, 0, 0, 1, 0, 0, 0, 0, 0, 0]
            && q[12..n + 12] == EncLabels(labels) && q[n + 12..] == [0, 0, 1, 0, 1]
  {
    hide EncLabels;
  }

  // ---------------------------------------------------------------- the answer

  /** Of the messages long enough to be one, those from port 53 to the asking port that begin with the query's first two
      bytes and have the top bit of the third set are answers. */
  lemma AnswersMatchQuery(d: Datagram, id: nat, port: nat, labels: seq<Label>)
    requires id < 0x1_0000 && GoodLabels(labels) && |d.payload| >= 12
    ensures var q := Query(id, labels);
            Answers(d, id, port) <==>
            && d.srcPort == 53 && d.dstPort == port
            && d.payload[0] == q[0] && d.payload[1] == q[1] && d.payload[2] >= 128
  {
    QueryParts(id, labels);
  }

  /** The answer to a query that repeats its question and gives one address for the name at offset 12. */
  function AddressReply(q: seq<byte>, high: byte, low: byte, counts: seq<byte>, ttl: seq<byte>, ip: seq<byte>,
      rest: seq<byte>): seq<byte>
    requires |q| >= 12
  {
    [q[0], q[1], high, low, 0, 1, 0, 1] + counts + q[12..] + [192, 12, 0, 1, 0, 1] + ttl + [0, 4] + ip + rest
  }

  /** The question and the answer of such a reply, in the terms of RFC 1035. */
  function Asked(labels: seq<Label>): Question {
    Question(Name(labels, None), 1, 1)
  }

  function Given(ttl: seq<byte>, ip: seq<byte>): Record {
    Record(Name([], Some(12)), 1, 1, ttl, ip)
  }

  lemma AskedBytes(labels: seq<Label>)
    requires GoodLabels(labels)
    ensures EncQuestions([Asked(labels)]) == EncLabels(labels) + [0] + [0, 1, 0, 1]
    ensures GoodQuestions([Asked(labels)])
  {
    hide EncLabels, GoodLabels;
    assert [Asked(labels)][1..] == [];
    assert Big16(1) == [0, 1];
    assert EncQuestion(Asked(labels)) == EncLabels(labels) + [0] + [0, 1, 0, 1];
    assert EncQuestions([Asked(labels)]) == EncQuestion(Asked(labels)) + [];
  }

  lemma GivenBytes(ttl: seq<byte>, ip: seq<byte>)
    requires |ttl| == 4 && |ip| == 4
    ensures GoodRecords([Given(ttl, ip)])
    ensures EncRecords([Given(ttl, ip)]) == [192, 12, 0, 1, 0, 1] + ttl + [0, 4] + ip
    ensures FirstOf([Given(ttl, ip)]) == Some(ip)
  {
    assert [Given(ttl, ip)][1..] == [];
    assert GoodName(Name([], Some(12)));
    assert EncName(Name([], Some(12))) == [192, 12];
    assert Big16(1) == [0, 1] && Big16(4) == [0, 4];
  }

  function ReplyTo(id: nat, labels: seq<Label>, high: byte, low: byte, counts: seq<byte>, ttl: seq<byte>,
      ip: seq<byte>, rest: seq<byte>): Response
  {
    Response(id, Be16(high, low), [Asked(labels)], [Given(ttl, ip)], counts, rest)
  }

  lemma ReplyIsResponse(id: nat, labels: seq<Label>, high: byte, low: byte, counts: seq<byte>, ttl: seq<byte>,
      ip: seq<byte>, rest: seq<byte>)
    requires id < 0x1_0000 && GoodLabels(labels) && |counts| == 4 && |ttl| == 4 && |ip| == 4
    ensures var m := ReplyTo(id, labels, high, low, counts, ttl, ip, rest);
            && GoodResponse(m) && FirstOf(m.answers) == Some(ip)
            && EncResponse(m) == AddressReply(Query(id, labels), high, low, counts, ttl, ip, rest)
  {
    hide EncLabels, GoodLabels, EncQuestions, EncRecords, GoodQuestions, GoodRecords, FirstOf;
    AskedBytes(labels);
    GivenBytes(ttl, ip);
    QueryParts(id, labels);
    var m, q := ReplyTo(id, labels, high, low, counts, ttl, ip, rest), Query(id, labels);
    var name := EncLabels(labels) + [0] + [0, 1, 0, 1];
    assert q[12..] == name;
    assert EncHeader(m) == [q[0], q[1], high, low, 0, 1, 0, 1] + counts;
    JoinParts([q[0], q[1], high, low, 0, 1, 0, 1] + counts, name, [192, 12, 0, 1, 0, 1], ttl, [0, 4], ip, rest);
  }

  lemma JoinParts(a: seq<byte>, b: seq<byte>, c: seq<byte>, d: seq<byte>, e: seq<byte>, f: seq<byte>, g: seq<byte>)
    ensures a + b + (c + d + e + f) + g == a + b + c + d + e + f + g
  {
  }

  lemma LowNibble(high: byte, low: byte)
    ensures Be16(high, low) % 16 == low % 16
  {
    assert Be16(high, low) == 16 * (16 * high as int) + low as int;
  }

  /** Such a reply is taken, and resolves to its address, if its RCODE is 0. */
  lemma QueryIsAnswered(id: nat, port: nat, labels: seq<Label>, high: byte, low: byte, counts: seq<byte>,
      ttl: seq<byte>, ip: seq<byte>, rest: seq<byte>)
    requires id < 0x1_0000 && GoodLabels(labels) && |counts| == 4 && |ttl| == 4 && |ip| == 4
    requires high >= 128
    requires |AddressReply(Query(id, labels), high, low, counts, ttl, ip, rest)| <= MAX_MSG
    ensures var d := Datagram(AddressReply(Query(id, labels), high, low, counts, ttl, ip, rest), 53, port);
            Fit([d]) && FirstAnswer([d], id, port) == if low % 16 == 0 then Some(ip) else None
  {
    hide Query, EncResponse, Reported, EncLabels, Answers, FirstOf, ReplyTo, GoodLabels;
    QueryParts(id, labels);
    var payload := AddressReply(Query(id, labels), high, low, counts, ttl, ip, rest);
    ReplyStarts(Query(id, labels), high, low, counts, ttl, ip, rest);
    var d := Datagram(payload, 53, port);
    AnswersMatchQuery(d, id, port, labels);
    ReplyIsResponse(id, labels, high, low, counts, ttl, ip, rest);
    ReplyFlags(id, labels, high, low, counts, ttl, ip, rest);
    ResponseReadsBack(ReplyTo(id, labels, high, low, counts, ttl, ip, rest));
  }

  lemma ReplyFlags(id: nat, labels: seq<Label>, high: byte, low: byte, counts: seq<byte>, ttl: seq<byte>,
      ip: seq<byte>, rest: seq<byte>)
    ensures ReplyTo(id, labels, high, low, counts, ttl, ip, rest).flags % 16 == low % 16
  {
    LowNibble(high, low);
  }

  lemma ReplyStarts(q: seq<byte>, high: byte, low: byte, counts: seq<byte>, ttl: seq<byte>, ip: seq<byte>,
      rest: seq<byte>)
    requires |q| >= 12 && |counts| == 4
    ensures var r := AddressReply(q, high, low, counts, ttl, ip, rest);
            |r| >= 12 && r[0] == q[0] && r[1] == q[1] && r[2] == high
  {
  }
}
