/** handle_dns_payload of src/drivers/network.c and the responses it understands (RFC 1035 sections 4.1.1 to 4.1.4). */
module DnsReply {
  import opened Bytes
  import opened DnsName
  import opened Wrappers

  const DNS_PORT: nat := 53
  const HEADER_LEN: nat := 12

  datatype Question = Question(name: Name, qtype: nat, qclass: nat)

  datatype Record = Record(name: Name, rtype: nat, rclass: nat, ttl: seq<byte>, data: seq<byte>)

  /** A response: its sections up to the answers, and whatever follows them. */
  datatype Response = Response(id: nat, flags: nat, questions: seq<Question>, answers: seq<Record>,
                               otherCounts: seq<byte>, rest: seq<byte>)

  predicate GoodQuestion(q: Question) {
    GoodName(q.name) && q.qtype < 0x1_0000 && q.qclass < 0x1_0000
  }

  predicate GoodRecord(r: Record) {
    GoodName(r.name) && r.rtype < 0x1_0000 && r.rclass < 0x1_0000 && |r.ttl| == 4 && |r.data| < 0x1_0000
  }

  predicate GoodQuestions(qs: seq<Question>) {
    forall i :: 0 <= i < |qs| ==> GoodQuestion(qs[i])
  }

  predicate GoodRecords(rs: seq<Record>) {
    forall i :: 0 <= i < |rs| ==> GoodRecord(rs[i])
  }

  predicate GoodResponse(m: Response) {
    && m.id < 0x1_0000 && m.flags < 0x1_0000 && |m.otherCounts| == 4
    && |m.questions| < 0x1_0000 && |m.answers| < 0x1_0000
    && GoodQuestions(m.questions) && GoodRecords(m.answers)
  }

  function EncQuestion(q: Question): seq<byte>
    requires GoodQuestion(q)
  {
    EncName(q.name) + Big16(q.qtype) + Big16(q.qclass)
  }

  function EncQuestions(qs: seq<Question>): seq<byte>
    requires GoodQuestions(qs)
  {
    if qs == [] then [] else EncQuestion(qs[0]) + EncQuestions(qs[1..])
  }

  /** The ten fixed bytes of a record. */
  function Fixed(r: Record): (b: seq<byte>)
    requires GoodRecord(r)
    ensures |b| == 10 && Be16(b[0], b[1]) == r.rtype && Be16(b[2], b[3]) == r.rclass && Be16(b[8], b[9]) == |r.data|
  {
    Big16(r.rtype) + Big16(r.rclass) + r.ttl + Big16(|r.data|)
  }

  function EncRecords(rs: seq<Record>): seq<byte>
    requires GoodRecords(rs)
  {
    if rs == [] then [] else EncName(rs[0].name) + Fixed(rs[0]) + rs[0].data + EncRecords(rs[1..])
  }

  function EncHeader(m: Response): (b: seq<byte>)
    requires GoodResponse(m)
    ensures |b| == HEADER_LEN && Be16(b[0], b[1]) == m.id && Be16(b[2], b[3]) == m.flags
    ensures Be16(b[4], b[5]) == |m.questions| && Be16(b[6], b[7]) == |m.answers|
  {
    Big16(m.id) + Big16(m.flags) + Big16(|m.questions|) + Big16(|m.answers|) + m.otherCounts
  }

  function EncResponse(m: Response): seq<byte>
    requires GoodResponse(m)
  {
    EncHeader(m) + EncQuestions(m.questions) + EncRecords(m.answers) + m.rest
  }

  // ---------------------------------------------------------------- reading a payload

  function SkipQuestions(msg: seq<byte>, off: nat, n: nat): Option<nat>
    decreases n
  {
    if n == 0 then Some(off)
    else
      match Skip(msg, off)
      case None => None
      case Some(end) => if end + 4 > |msg| then None else SkipQuestions(msg, end + 4, n - 1)
  }

  /** Where a record whose data starts at `at` ends: a 16-bit sum, so an overlong length can lead back. */
  function Past(at: nat, rdlen: nat): nat {
    (at + rdlen) % 0x1_0000
  }

  /** The data of the first of `n` records at `off` that holds an internet address. */
  function FirstAddress(msg: seq<byte>, off: nat, n: nat): (r: Option<seq<byte>>)
    requires |msg| <= MAX_MSG
    ensures r.Some? ==> |r.value| == 4
    decreases n
  {
    if n == 0 then None
    else
      match Skip(msg, off)
      case None => None
      case Some(at) =>
        if at + 10 > |msg| then None
        else
          var rdlen := Be16(msg[at + 8], msg[at + 9]);
          var next := Past(at + 10, rdlen);
          if next > |msg| then None
          else if IsAddress(msg, at) then Some(msg[at + 10..at + 14])
          else FirstAddress(msg, next, n - 1)
  }

  /** The record whose fixed part is at `at` is of type A and class IN and has 4 bytes of data. */
  predicate IsAddress(msg: seq<byte>, at: nat)
    requires at + 10 <= |msg|
  {
    Be16(msg[at], msg[at + 1]) == 1 && Be16(msg[at + 2], msg[at + 3]) == 1 && Be16(msg[at + 8], msg[at + 9]) == 4
  }

  /** The address a message of at least 12 bytes reports. */
  function Reported(msg: seq<byte>): (r: Option<seq<byte>>)
    requires HEADER_LEN <= |msg| <= MAX_MSG
    ensures r.Some? ==> |r.value| == 4
  {
    match SkipQuestions(msg, HEADER_LEN, Be16(msg[4], msg[5]))
    case None => None
    case Some(off) => if Be16(msg[2], msg[3]) % 16 != 0 then None else FirstAddress(msg, off, Be16(msg[6], msg[7]))
  }

  lemma {:induction false} SkipBound(msg: seq<byte>, off: nat)
    ensures Skip(msg, off).Some? ==> off < Skip(msg, off).value <= |msg|
    decreases |msg| - off
  {
    if off < |msg| && 1 <= msg[off] < 64 && off + 1 + msg[off] <= |msg| {
      SkipBound(msg, off + 1 + msg[off]);
    }
  }

  // ---------------------------------------------------------------- well-formed responses

  predicate IsAddressRecord(r: Record) {
    r.rtype == 1 && r.rclass == 1 && |r.data| == 4
  }

  /** The data of the first answer that is an internet address. */
  function FirstOf(rs: seq<Record>): (r: Option<seq<byte>>)
    ensures r.None? <==> forall i :: 0 <= i < |rs| ==> !IsAddressRecord(rs[i])
  {
    if rs == [] then None else if IsAddressRecord(rs[0]) then Some(rs[0].data) else FirstOf(rs[1..])
  }

  /** Skipping one question. */
  lemma QuestionStep(pre: seq<byte>, q: Question, more: seq<byte>, n: nat)
    requires GoodQuestion(q)
    ensures var msg := pre + EncQuestion(q) + more;
            SkipQuestions(msg, |pre|, n + 1) == SkipQuestions(msg, |pre + EncQuestion(q)|, n)
  {
    hide Skip, EncName;
    var name, tail := EncName(q.name), Big16(q.qtype) + Big16(q.qclass);
    assert EncQuestion(q) == name + tail && |tail| == 4;
    Regroup(pre, name, tail, more);
    SkipEncoded(pre, q.name, tail + more);
  }

  lemma Regroup(a: seq<byte>, b: seq<byte>, c: seq<byte>, d: seq<byte>)
    ensures a + (b + c) + d == a + b + (c + d) == a + b + c + d
  {
  }

  lemma {:induction false} SkipEncodedQuestions(pre: seq<byte>, qs: seq<Question>, post: seq<byte>)
    requires GoodQuestions(qs)
    ensures SkipQuestions(pre + EncQuestions(qs) + post, |pre|, |qs|) == Some(|pre| + |EncQuestions(qs)|)
    decreases |qs|
  {
    if qs != [] {
      hide Skip, EncQuestion, SkipQuestions;
      var one, rest := EncQuestion(qs[0]), qs[1..];
      Regroup(pre, one, EncQuestions(rest), post);
      QuestionStep(pre, qs[0], EncQuestions(rest) + post, |rest|);
      SkipEncodedQuestions(pre + one, rest, post);
    }
  }

  lemma RecordFirst(pre: seq<byte>, r: Record, others: seq<byte>, post: seq<byte>)
    requires GoodRecord(r)
    ensures var msg, one := pre + (EncName(r.name) + Fixed(r) + r.data + others) + post, EncName(r.name) + Fixed(r) + r.data;
            && msg == pre + EncName(r.name) + (Fixed(r) + r.data + (others + post))
            && msg == (pre + one) + others + post
  {
  }

  /** What stands behind a record's name. */
  lemma RecordFields(front: seq<byte>, r: Record, post: seq<byte>)
    requires GoodRecord(r)
    ensures var msg, at := front + (Fixed(r) + r.data + post), |front|;
            && at + 10 + |r.data| <= |msg|
            && Be16(msg[at], msg[at + 1]) == r.rtype && Be16(msg[at + 2], msg[at + 3]) == r.rclass
            && Be16(msg[at + 8], msg[at + 9]) == |r.data|
            && msg[at + 10..at + 10 + |r.data|] == r.data
  {
    hide Be16;
    var msg, at := front + (Fixed(r) + r.data + post), |front|;
    assert msg == front + Fixed(r) + r.data + post;
    assert msg[at..at + 10] == Fixed(r);
    assert forall i :: 0 <= i < 10 ==> Fixed(r)[i] == msg[at + i];
  }

  /** Reading one record whose name ends at |front|. */
  lemma RecordStep(front: seq<byte>, r: Record, post: seq<byte>, off: nat, n: nat)
    requires GoodRecord(r) && |front + (Fixed(r) + r.data + post)| <= MAX_MSG
    requires Skip(front + (Fixed(r) + r.data + post), off) == Some(|front|)
    ensures var msg := front + (Fixed(r) + r.data + post);
            && FirstAddress(msg, off, 0) == None
            && FirstAddress(msg, off, n + 1) ==
               if IsAddressRecord(r) then Some(r.data) else FirstAddress(msg, |front| + 10 + |r.data|, n)
  {
    hide Skip, Fixed, Be16;
    RecordFields(front, r, post);
  }

  lemma {:induction false} AnswersReadBack(pre: seq<byte>, rs: seq<Record>, post: seq<byte>)
    requires GoodRecords(rs) && |pre + EncRecords(rs) + post| <= MAX_MSG
    ensures FirstAddress(pre + EncRecords(rs) + post, |pre|, |rs|) == FirstOf(rs)
    decreases |rs|
  {
    if rs != [] {
      AnswerFirst(pre, rs, post);
      AnswersReadBack(pre + (EncName(rs[0].name) + Fixed(rs[0]) + rs[0].data), rs[1..], post);
    }
  }

  lemma AnswerFirst(pre: seq<byte>, rs: seq<Record>, post: seq<byte>)
    requires rs != [] && GoodRecords(rs) && |pre + EncRecords(rs) + post| <= MAX_MSG
    ensures var r, msg := rs[0], pre + EncRecords(rs) + post;
            var front := pre + (EncName(r.name) + Fixed(r) + r.data);
            && msg == front + EncRecords(rs[1..]) + post
            && FirstAddress(msg, |pre|, |rs|) ==
               if IsAddressRecord(r) then Some(r.data) else FirstAddress(msg, |front|, |rs[1..]|)
  {
    hide Skip, EncName, Fixed, FirstAddress, Be16;
    var r, others := rs[0], EncRecords(rs[1..]);
    RecordFirst(pre, r, others, post);
    SkipEncoded(pre, r.name, Fixed(r) + r.data + (others + post));
    RecordStep(pre + EncName(r.name), r, others + post, |pre|, |rs| - 1);
  }

  /**
    * A well-formed response, compressed names and all, is read with the flags and counts written, and reports the data of
    * its first internet address record, and nothing if its RCODE is not 0 or no answer is such a record.
    */
  lemma ResponseReadsBack(m: Response)
    requires GoodResponse(m) && |EncResponse(m)| <= MAX_MSG
    ensures var msg := EncResponse(m);
            && |msg| >= HEADER_LEN && Be16(msg[0], msg[1]) == m.id && Be16(msg[2], msg[3]) == m.flags
            && Be16(msg[4], msg[5]) == |m.questions| && Be16(msg[6], msg[7]) == |m.answers|
    ensures Reported(EncResponse(m)) == if m.flags % 16 == 0 then FirstOf(m.answers) else None
  {
    hide SkipQuestions, FirstAddress, EncQuestions, EncRecords, FirstOf, Be16;
    var msg, head, qs := EncResponse(m), EncHeader(m), EncQuestions(m.questions);
    assert msg == head + qs + (EncRecords(m.answers) + m.rest);
    assert forall i :: 0 <= i < HEADER_LEN ==> msg[i] == head[i];
    SkipEncodedQuestions(head, m.questions, EncRecords(m.answers) + m.rest);
    assert msg == (head + qs) + EncRecords(m.answers) + m.rest;
    AnswersReadBack(head + qs, m.answers, m.rest);
  }

  /** What follows the answers, such as the authority and additional sections, never changes what is reported. */
  lemma RestIrrelevant(m: Response, rest: seq<byte>)
    requires GoodResponse(m) && |EncResponse(m)| <= MAX_MSG && |EncResponse(m.(rest := rest))| <= MAX_MSG
    ensures Reported(EncResponse(m)) == Reported(EncResponse(m.(rest := rest)))
  {
    ResponseReadsBack(m);
    ResponseReadsBack(m.(rest := rest));
  }

  /**
    * The length test adds in 16 bits. It holds for every record that ends inside the message, and also for exactly
    * those overlong ones whose sum comes back to or before the message's end.
    */
  lemma LengthTest(at: nat, rdlen: nat, msgLen: nat)
    requires at <= msgLen <= MAX_MSG && rdlen < 0x1_0000
    ensures Past(at, rdlen) <= msgLen <==> at + rdlen <= msgLen || at + rdlen >= 0x1_0000
    ensures at + rdlen >= 0x1_0000 ==> Past(at, rdlen) < at
  {
  }

  /**
    * So a message can report an address it does not hold as a record: the only record here, of type 5, claims 65535
    * bytes of data, reading goes on at its own length field, and the last bytes of the message are taken for an address.
    */
  lemma OverlongRecordIsReread(msg: seq<byte>)
    requires |msg| == 38 && msg[3] == 0 && msg[4] == 0 && msg[5] == 0 && msg[6] == 0 && msg[7] == 2
    requires msg[12] == 0 && msg[13] == 0 && msg[14] == 5 && msg[21] == 255 && msg[22] == 255
    requires msg[24] == 0 && msg[25] == 1 && msg[26] == 0 && msg[27] == 1 && msg[32] == 0 && msg[33] == 4
    ensures Skip(msg, 12) == Some(13) && Past(23, 0xFFFF) == 22 && Skip(msg, 22) == Some(24)
    ensures Reported(msg) == Some(msg[34..38])
  {
    hide Past;
    FlagsLow(msg[2]);
    assert IsAddress(msg, 24);
    assert SkipQuestions(msg, 12, 0) == Some(12);
    assert Skip(msg, 12) == Some(13) && Skip(msg, 22) == Some(24);
    LeadsBack();
    assert FirstAddress(msg, 22, 1) == Some(msg[34..38]) by { assert Past(34, 4) == 38 by { Ahead(); } }
  }

  lemma LeadsBack()
    ensures Be16(255, 255) == 0xFFFF && Past(23, 0xFFFF) == 22
  {
  }

  lemma Ahead()
    ensures Past(34, 4) == 38
  {
  }

  lemma FlagsLow(high: byte)
    ensures Be16(high, 0) % 16 == 0
  {
    assert 256 * high == 16 * (16 * high);
  }

  /** What the UDP layer hands over. */
  datatype Datagram = Datagram(payload: seq<byte>, srcPort: nat, dstPort: nat)

  /** From port 53 to the asking port, and a response to the question asked unless it is too short to tell. */
  predicate Answers(d: Datagram, id: nat, port: nat) {
    && d.srcPort == DNS_PORT && d.dstPort == port
    && (|d.payload| >= HEADER_LEN ==> Be16(d.payload[0], d.payload[1]) == id && d.payload[2] >= 128)
  }

  predicate Fit(ds: seq<Datagram>) {
    forall i :: 0 <= i < |ds| ==> |ds[i].payload| <= MAX_MSG
  }

  /** What a question gets from the datagrams that arrive after it: the first that answers it decides. */
  function FirstAnswer(ds: seq<Datagram>, id: nat, port: nat): Option<seq<byte>>
    requires Fit(ds)
  {
    if ds == [] then None
    else if Answers(ds[0], id, port) then
      if |ds[0].payload| < HEADER_LEN then None else Reported(ds[0].payload)
    else FirstAnswer(ds[1..], id, port)
  }

  /** The resolver's globals: one question outstanding at a time, and the reply to the last one. */
  class Resolver {
    var waiting: bool
    var reply: bool
    var hasA: bool
    const ip: array<byte>
    var expectedId: nat
    var expectedPort: nat

    ghost predicate Valid()
      reads this
    {
      ip.Length == 4
    }

    constructor ()
      ensures Valid() && fresh(ip) && !waiting
    {
      waiting, reply, hasA := false, false, false;
      expectedId, expectedPort := 0, 0;
      ip := new byte[4](i => 0);
    }

    predicate Ours(d: Datagram)
      reads this
    {
      waiting && Answers(d, expectedId, expectedPort)
    }

    /** handle_dns_payload */
    method Handle(payload: seq<byte>, srcPort: nat, dstPort: nat)
      requires Valid() && |payload| <= MAX_MSG
      modifies this`waiting, this`reply, this`hasA, ip
      ensures Valid()
      ensures !old(Ours(Datagram(payload, srcPort, dstPort))) ==> waiting == old(waiting)
      ensures !old(Ours(Datagram(payload, srcPort, dstPort))) || |payload| < HEADER_LEN ==>
                reply == old(reply) && hasA == old(hasA) && ip[..] == old(ip[..])
      ensures old(Ours(Datagram(payload, srcPort, dstPort))) ==> !waiting
      ensures old(Ours(Datagram(payload, srcPort, dstPort))) && |payload| >= HEADER_LEN ==>
                && reply && hasA == Reported(payload).Some?
                && ip[..] == if hasA then Reported(payload).value else [0, 0, 0, 0]
    {
      if !waiting { return; }
      if srcPort != DNS_PORT { return; }
      if dstPort != expectedPort { return; }
      if |payload| < 12 {
        waiting := false;
        return;
      }
      var id := Be16(payload[0], payload[1]);
      if id != expectedId { return; }
      var flags := Be16(payload[2], payload[3]);
      if flags / 0x8000 == 0 { return; }
      var qdcount := Be16(payload[4], payload[5]);
      var ancount := Be16(payload[6], payload[7]);
      hasA := false;
      forall i | 0 <= i < 4 { ip[i] := 0; }
      assert ip[..] == [0, 0, 0, 0];
      var off := SkipAll(payload, qdcount);
      if off.Some? && flags % 16 == 0 {
        FindAddress(payload, off.value, ancount);
      }
      reply := true;
      waiting := false;
    }

    /** The waiting part of network_dns_resolve_a: ask, then poll while datagrams arrive and none has answered. */
    method Resolve(id: nat, port: nat, ds: seq<Datagram>) returns (answer: Option<seq<byte>>)
      requires Valid() && Fit(ds)
      modifies this, ip
      ensures Valid() && !waiting
      ensures answer == FirstAnswer(ds, id, port)
    {
      hide Answers, Reported;
      waiting, reply, hasA := true, false, false;
      forall i | 0 <= i < 4 { ip[i] := 0; }
      expectedId, expectedPort := id, port;
      var i := 0;
      while i < |ds|
        invariant i <= |ds| && Valid() && waiting && !reply && expectedId == id && expectedPort == port
        invariant FirstAnswer(ds, id, port) == FirstAnswer(ds[i..], id, port)
      {
        Handle(ds[i].payload, ds[i].srcPort, ds[i].dstPort);
        if !waiting {
          if reply && hasA { return Some(ip[..]); }
          break;
        }
        assert ds[i..][1..] == ds[i + 1..];
        i := i + 1;
      }
      waiting := false;
      return None;
    }

    method CopyAddress(payload: seq<byte>, off: nat)
      requires Valid() && off + 4 <= |payload|
      modifies ip
      ensures ip[..] == payload[off..off + 4]
    {
      forall j | 0 <= j < 4 { ip[j] := payload[off + j]; }
    }

    /** The loop over the answers. */
    method FindAddress(payload: seq<byte>, start: nat, ancount: nat)
      requires Valid() && |payload| <= MAX_MSG && start <= |payload| && !hasA && ip[..] == [0, 0, 0, 0]
      modifies this`hasA, ip
      ensures hasA == FirstAddress(payload, start, ancount).Some?
      ensures ip[..] == if hasA then FirstAddress(payload, start, ancount).value else [0, 0, 0, 0]
    {
      hide Skip, Be16, SkipQuestions, Reported;
      var off: nat, i := start, 0;
      while i < ancount
        invariant i <= ancount && off <= |payload|
        invariant !hasA && ip[..] == [0, 0, 0, 0]
        invariant FirstAddress(payload, start, ancount) == FirstAddress(payload, off, ancount - i)
      {
        var ok, end := SkipName(payload, off);
        SkipBound(payload, off);
        if !ok { break; }
        off := end;
        if (off + 10) % 0x1_0000 > |payload| { break; }
        var rtype := Be16(payload[off], payload[off + 1]);
        var class_ := Be16(payload[off + 2], payload[off + 3]);
        var rdlen := Be16(payload[off + 8], payload[off + 9]);
        off := off + 10;
        if (off + rdlen) % 0x1_0000 > |payload| { break; }
        if rtype == 1 && class_ == 1 && rdlen == 4 {
          CopyAddress(payload, off);
          hasA := true;
          break;
        }
        off := (off + rdlen) % 0x1_0000;
        i := i + 1;
      }
    }
  }

  /** The loop over the questions. */
  method SkipAll(payload: seq<byte>, qdcount: nat) returns (r: Option<nat>)
    requires HEADER_LEN <= |payload| <= MAX_MSG
    ensures r == SkipQuestions(payload, HEADER_LEN, qdcount)
    ensures r.Some? ==> r.value <= |payload|
  {
    var off: nat, i := HEADER_LEN, 0;
    while i < qdcount
      invariant i <= qdcount && off <= |payload|
      invariant SkipQuestions(payload, HEADER_LEN, qdcount) == SkipQuestions(payload, off, qdcount - i)
    {
      var ok, end := SkipName(payload, off);
      SkipBound(payload, off);
      if !ok { return None; }
      off := end;
      if (off + 4) % 0x1_0000 > |payload| { return None; }
      off := off + 4;
      i := i + 1;
    }
    return Some(off);
  }
}
