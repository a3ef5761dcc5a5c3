/** Domain names on the wire (RFC 1035 sections 3.1 and 4.1.4) and dns_skip_name of src/drivers/network.c. */
module DnsName {
  import opened Bytes
  import opened Wrappers

  const MAX_MSG: nat := 65472  // largest message for which no 16-bit offset wraps

  type Label = seq<byte>

  /** A name as written in a message: labels, then the root or a compression pointer. */
  datatype Name = Name(labels: seq<Label>, pointer: Option<nat>)

  predicate GoodLabels(labels: seq<Label>) {
    forall i :: 0 <= i < |labels| ==> 1 <= |labels[i]| <= 63
  }

  predicate GoodName(n: Name) {
    GoodLabels(n.labels) && (n.pointer.Some? ==> n.pointer.value < 0x4000)
  }

  function EncLabels(labels: seq<Label>): seq<byte>
    requires GoodLabels(labels)
  {
    if labels == [] then [] else [|labels[0]| as byte] + labels[0] + EncLabels(labels[1..])
  }

  function EncName(n: Name): seq<byte>
    requires GoodName(n)
  {
    EncLabels(n.labels) +
    match n.pointer
    case None => [0]
    case Some(p) => [(192 + p / 256) as byte, (p % 256) as byte]
  }

  /** Where a name that starts at `off` ends, if it is well formed as far as dns_skip_name looks. */
  function Skip(msg: seq<byte>, off: nat): Option<nat>
    decreases |msg| - off
  {
    if off >= |msg| then None
    else
      var len := msg[off];
      if len == 0 then Some(off + 1)
      else if len >= 192 then (if off + 1 >= |msg| then None else Some(off + 2))
      else if len >= 64 then None
      else if off + 1 + len > |msg| then None
      else Skip(msg, off + 1 + len)
  }

  /** dns_skip_name; its guard counter never fires. */
  method SkipName(msg: seq<byte>, start: nat) returns (ok: bool, end: nat)
    requires |msg| <= MAX_MSG
    ensures Skip(msg, start) == if ok then Some(end) else None
  {
    var off := start;
    var guard := 0;
    end := start;
    while off < |msg|
      invariant start <= off && guard <= off - start
      invariant Skip(msg, start) == Skip(msg, off)
    {
      var len: nat := msg[off];
      if len == 0 { return true, off + 1; }
      if len >= 192 {
        if (off + 1) % 0x1_0000 >= |msg| { return false, start; }
        return true, off + 2;
      }
      if len >= 64 { return false, start; }
      off := off + 1;
      if (off + len) % 0x1_0000 > |msg| { return false, start; }
      off := (off + len) % 0x1_0000;
      guard := guard + 1;
      if guard > |msg| { return false, start; }
    }
    return false, start;
  }

  /** Skipping an encoded name lands exactly behind it, wherever it stands. */
  lemma {:induction false} SkipEncoded(pre: seq<byte>, n: Name, post: seq<byte>)
    requires GoodName(n)
    ensures Skip(pre + EncName(n) + post, |pre|) == Some(|pre| + |EncName(n)|)
    decreases |n.labels|
  {
    var msg := pre + EncName(n) + post;
    if n.labels == [] {
      assert msg[|pre|] == EncName(n)[0];
    } else {
      var part, rest := n.labels[0], Name(n.labels[1..], n.pointer);
      var first := [|part| as byte] + part;
      assert EncName(n) == first + EncName(rest);
      assert msg == (pre + first) + EncName(rest) + post;
      assert msg[|pre|] == |part|;
      SkipEncoded(pre + first, rest, post);
    }
  }

  /** And only encoded names are skipped: what was skipped is the encoding of some name. */
  lemma {:induction false} SkippedIsEncoded(msg: seq<byte>, off: nat) returns (n: Name)
    requires Skip(msg, off).Some?
    ensures GoodName(n) && off < Skip(msg, off).value <= |msg| && msg[off..Skip(msg, off).value] == EncName(n)
    decreases |msg| - off
  {
    hide EncName;
    var end, len := Skip(msg, off).value, msg[off];
    if len == 0 {
      n := Name([], None);
      ShortName(len, len);
    } else if len >= 192 {
      n := Name([], Some(256 * (len - 192) as int + msg[off + 1] as int));
      ShortName(len, msg[off + 1]);
    } else {
      var rest := SkippedIsEncoded(msg, off + 1 + len);
      n := Name([msg[off + 1..off + 1 + len]] + rest.labels, rest.pointer);
      OneLabelMore(msg[off + 1..off + 1 + len], rest);
      assert msg[off..end] == [len] + msg[off + 1..off + 1 + len] + msg[off + 1 + len..end];
    }
  }

  lemma OneLabelMore(part: Label, n: Name)
    requires GoodName(n) && 1 <= |part| <= 63
    ensures var m := Name([part] + n.labels, n.pointer);
            GoodName(m) && EncName(m) == [|part| as byte] + part + EncName(n)
  {
    assert ([part] + n.labels)[1..] == n.labels;
  }

  lemma ShortName(a: byte, b: byte)
    ensures EncName(Name([], None)) == [0]
    ensures a >= 192 ==> EncName(Name([], Some(256 * (a - 192) as int + b as int))) == [a, b]
  {
  }

  /** Reads a pointer-free name back. */
  function Decode(msg: seq<byte>): Option<seq<Label>>
    decreases |msg|
  {
    if msg == [] then None
    else if msg[0] == 0 then Some([])
    else if msg[0] >= 64 || |msg| < 1 + msg[0] as int then None
    else
      match Decode(msg[1 + msg[0] as int..])
      case None => None
      case Some(labels) => Some([msg[1..1 + msg[0] as int]] + labels)
  }

  lemma {:induction false} DecodeEncoded(labels: seq<Label>, post: seq<byte>)
    requires GoodLabels(labels)
    ensures Decode(EncLabels(labels) + [0] + post) == Some(labels)
    decreases |labels|
  {
    if labels != [] {
      var part, msg := labels[0], EncLabels(labels) + [0] + post;
      assert msg == [|part| as byte] + part + (EncLabels(labels[1..]) + [0] + post);
      assert msg[1 + |part|..] == EncLabels(labels[1..]) + [0] + post;
      assert msg[1..1 + |part|] == part;
      DecodeEncoded(labels[1..], post);
      assert labels == [part] + labels[1..];
    }
  }

  lemma {:induction false} EncAppend(a: seq<Label>, b: seq<Label>)
    requires GoodLabels(a) && GoodLabels(b)
    ensures GoodLabels(a + b) && EncLabels(a + b) == EncLabels(a) + EncLabels(b)
    decreases |a|
  {
    if a == [] {
      assert a + b == b;
    } else {
      assert (a + b)[1..] == a[1..] + b;
      EncAppend(a[1..], b);
    }
  }
}
