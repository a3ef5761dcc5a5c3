/** The packet builders of src/drivers/network.c: Ethernet, IPv4 (RFC 791) and ICMP or UDP headers written into the
    transmit buffer.  The spec functions lay the headers out as byte sequences with a zero checksum field. */
module Packets {
  import opened Bytes
  import opened Checksum

  const TX_CAP: nat := 1600
  const PROTO_ICMP: byte := 1
  const PROTO_UDP: byte := 17

  function Hi(v: nat): byte { v / 256 % 256 }
  function Lo(v: nat): byte { v % 256 }

  lemma HiLo(v: nat)
    requires v < U16
    ensures Be16(Hi(v), Lo(v)) == v
  {
  }

  function Word(v: nat): (w: seq<byte>)
    ensures |w| == 2
  {
    [Hi(v), Lo(v)]
  }

  /** The message with its checksum written at offset `at`. */
  function Sealed(data: seq<byte>, at: nat): (r: seq<byte>)
    requires at + 2 <= |data|
    ensures |r| == |data|
  {
    data[at := Hi(Check(data))][at + 1 := Lo(Check(data))]
  }

  lemma SealedVerifies(data: seq<byte>, at: nat)
    requires at % 2 == 0 && at + 2 <= |data| && data[at] == 0 && data[at + 1] == 0
    ensures Check(Sealed(data, at)) == 0
  {
    HiLo(Check(data));
    FilledVerifies(data, at, Hi(Check(data)), Lo(Check(data)));
  }

  /** An IPv4 header without options, its checksum field zero. */
  function IpHeader(len: nat, id: nat, proto: byte, src: seq<byte>, dst: seq<byte>): (h: seq<byte>)
    requires |src| == |dst| == 4
    ensures |h| == 20 && h[10] == 0 && h[11] == 0
  {
    [0x45, 0] + Word(len) + Word(id) + Word(0) + [64, proto, 0, 0] + src + dst
  }

  function IcmpMessage(kind: byte, ident: nat, no: nat, payload: seq<byte>): (m: seq<byte>)
    ensures |m| == 8 + |payload| && m[2] == 0 && m[3] == 0
  {
    [kind, 0, 0, 0] + Word(ident) + Word(no) + payload
  }

  function UdpMessage(srcPort: nat, dstPort: nat, payload: seq<byte>): (m: seq<byte>)
    ensures |m| == 8 + |payload|
  {
    Word(srcPort) + Word(dstPort) + Word(8 + |payload|) + Word(0) + payload
  }

  /** The fields of an IPv4 header as RFC 791 section 3.1 places them, whatever its checksum: version 4 with five words,
      no flags and no fragment offset, 64 hops, and the sender's address in front of the receiver's. */
  lemma IpFields(len: nat, id: nat, proto: byte, src: seq<byte>, dst: seq<byte>)
    requires len < U16 && id < U16 && |src| == |dst| == 4
    ensures var h := Sealed(IpHeader(len, id, proto, src, dst), 10);
            && h[0] == 69 && h[1] == 0 && h[2] == len / 256 && h[3] == len % 256
            && h[4] == id / 256 && h[5] == id % 256 && h[6] == 0 && h[7] == 0
            && h[8] == 64 && h[9] == proto && h[12..16] == src && h[16..20] == dst
  {
    hide Check;
  }

  /** The fields of an ICMP echo message (RFC 792) and of a UDP datagram (RFC 768) without a checksum. */
  lemma MessageFields(kind: byte, ident: nat, no: nat, srcPort: nat, dstPort: nat, payload: seq<byte>)
    requires ident < U16 && no < U16 && srcPort < U16 && dstPort < U16 && 8 + |payload| < U16
    ensures var m := Sealed(IcmpMessage(kind, ident, no, payload), 2);
            && m[0] == kind && m[1] == 0 && m[4] == ident / 256 && m[5] == ident % 256
            && m[6] == no / 256 && m[7] == no % 256 && m[8..] == payload
    ensures var u := UdpMessage(srcPort, dstPort, payload);
            && u[0] == srcPort / 256 && u[1] == srcPort % 256 && u[2] == dstPort / 256 && u[3] == dstPort % 256
            && u[4] == (8 + |payload|) / 256 && u[5] == (8 + |payload|) % 256 && u[6] == 0 && u[7] == 0
            && u[8..] == payload
  {
    hide Check;
  }

  /** Appends `s` behind the bytes already in place (memcpy or single stores in the source). */
  method Append(buf: array<byte>, at: nat, s: seq<byte>, ghost sofar: seq<byte>) returns (end: nat)
    requires at == |sofar| && at + |s| <= buf.Length && buf[..at] == sofar
    modifies buf
    ensures end == at + |s| && buf[..end] == sofar + s
  {
    forall i | 0 <= i < |s| { buf[at + i] := s[i]; }
    end := at + |s|;
    assert buf[..at] == sofar && buf[at..end] == s;
    assert buf[..end] == buf[..at] + buf[at..end];
  }

  /** wr16be of checksum16 over a finished message at `from`, into its checksum field. */
  method Seal(buf: array<byte>, from: nat, len: nat, at: nat, ghost sofar: seq<byte>, ghost message: seq<byte>)
    requires from == |sofar| && len == |message| && from + len <= buf.Length && len < U16 && at + 2 <= len
    requires buf[..from + len] == sofar + message
    modifies buf
    ensures buf[..from + len] == sofar + Sealed(message, at)
  {
    assert buf[from..from + len] == buf[..from + len][from..] == message;
    var c := Checksum16(buf, from, len);
    ghost var was := buf[..];
    buf[from + at], buf[from + at + 1] := Hi(c), Lo(c);
    ghost var sealed := Sealed(message, at);
    assert forall i :: 0 <= i < from + len && i != from + at && i != from + at + 1 ==> buf[i] == was[i] == (sofar + message)[i];
    assert forall i :: 0 <= i < from + len ==> buf[i] == (sofar + sealed)[i];
  }

  class Nic {
    const tx: array<byte>
    const mac: seq<byte>
    const ip: seq<byte>
    var ipId: nat

    ghost predicate Valid()
      reads this
    {
      tx.Length == TX_CAP && |mac| == 6 && |ip| == 4 && ipId < U16
    }

    /** The Ethernet and IPv4 headers of both senders. */
    method WriteHeaders(dstMac: seq<byte>, dstIp: seq<byte>, proto: byte, ipLen: nat) returns (end: nat)
      requires Valid() && |dstMac| == 6 && |dstIp| == 4
      modifies tx, this`ipId
      ensures Valid() && end == 34 && ipId == (old(ipId) + 1) % U16
      ensures tx[..end] == dstMac + mac + Word(0x0800) + Sealed(IpHeader(ipLen, old(ipId), proto, ip, dstIp), 10)
    {
      hide Sealed;
      var id := ipId;
      ipId := (ipId + 1) % U16;
      ghost var eth := dstMac + mac + Word(0x0800);
      assert tx[..0] == [];
      end := Append(tx, 0, dstMac + mac + Word(0x0800), []);
      assert [] + eth == eth;
      end := Append(tx, end, IpHeader(ipLen, id, proto, ip, dstIp), eth);
      Seal(tx, 14, 20, 10, eth, IpHeader(ipLen, id, proto, ip, dstIp));
    }

    /** send_icmp_packet up to the hand-over to the card: both checksums verify at the receiver. */
    method BuildIcmp(dstMac: seq<byte>, dstIp: seq<byte>, kind: byte, ident: nat, no: nat, payload: seq<byte>)
      returns (ok: bool, len: nat)
      requires Valid() && |dstMac| == 6 && |dstIp| == 4 && ident < U16 && no < U16 && 42 + |payload| < U16
      modifies tx, this`ipId
      ensures Valid()
      ensures ok <==> 42 + |payload| <= TX_CAP
      ensures !ok ==> ipId == old(ipId) && tx[..] == old(tx[..])
      ensures ok ==>
        && len == 42 + |payload|
        && tx[..len] == dstMac + mac + Word(0x0800) +
             Sealed(IpHeader(28 + |payload|, old(ipId), PROTO_ICMP, ip, dstIp), 10) +
             Sealed(IcmpMessage(kind, ident, no, payload), 2)
        && Check(tx[14..34]) == 0 && Check(tx[34..len]) == 0
    {
      hide Sealed, IpHeader, Check, IcmpMessage, Word;
      var ipLen := (20 + 8 + |payload|) % U16;
      len := (14 + ipLen) % U16;
      if len > TX_CAP { return false, 0; }
      ghost var ipPart := Sealed(IpHeader(ipLen, ipId, PROTO_ICMP, ip, dstIp), 10);
      ghost var icmpPart := IcmpMessage(kind, ident, no, payload);
      SealedVerifies(IpHeader(ipLen, ipId, PROTO_ICMP, ip, dstIp), 10);
      SealedVerifies(icmpPart, 2);
      var end := WriteHeaders(dstMac, dstIp, PROTO_ICMP, ipLen);
      ghost var head := dstMac + mac + Word(0x0800) + ipPart;
      end := Append(tx, end, IcmpMessage(kind, ident, no, payload), head);
      Seal(tx, 34, 8 + |payload|, 2, head, icmpPart);
      Parts(tx, len, dstMac + mac + Word(0x0800), ipPart, Sealed(icmpPart, 2));
      return true, len;
    }

    /** send_udp_packet up to the hand-over to the card. */
    method BuildUdp(dstMac: seq<byte>, dstIp: seq<byte>, srcPort: nat, dstPort: nat, payload: seq<byte>)
      returns (ok: bool, len: nat)
      requires Valid() && |dstMac| == 6 && |dstIp| == 4 && srcPort < U16 && dstPort < U16 && 42 + |payload| < U16
      modifies tx, this`ipId
      ensures Valid()
      ensures ok <==> 42 + |payload| <= TX_CAP
      ensures !ok ==> ipId == old(ipId) && tx[..] == old(tx[..])
      ensures ok ==>
        && len == 42 + |payload|
        && tx[..len] == dstMac + mac + Word(0x0800) +
             Sealed(IpHeader(28 + |payload|, old(ipId), PROTO_UDP, ip, dstIp), 10) +
             UdpMessage(srcPort, dstPort, payload)
        && Check(tx[14..34]) == 0
    {
      hide Sealed, IpHeader, Check, UdpMessage, Word;
      var ipLen := (20 + 8 + |payload|) % U16;
      len := (14 + ipLen) % U16;
      if len > TX_CAP { return false, 0; }
      ghost var ipPart := Sealed(IpHeader(ipLen, ipId, PROTO_UDP, ip, dstIp), 10);
      SealedVerifies(IpHeader(ipLen, ipId, PROTO_UDP, ip, dstIp), 10);
      var end := WriteHeaders(dstMac, dstIp, PROTO_UDP, ipLen);
      ghost var head := dstMac + mac + Word(0x0800) + ipPart;
      end := Append(tx, end, UdpMessage(srcPort, dstPort, payload), head);
      Parts(tx, len, dstMac + mac + Word(0x0800), ipPart, UdpMessage(srcPort, dstPort, payload));
      return true, len;
    }
  }

  /** The parts of a frame in the buffer. */
  lemma Parts(buf: array<byte>, len: nat, eth: seq<byte>, ip: seq<byte>, rest: seq<byte>)
    requires |eth| == 14 && |ip| == 20 && len == 34 + |rest| <= buf.Length && buf[..len] == eth + ip + rest
    ensures buf[14..34] == ip && buf[34..len] == rest
  {
    var frame := eth + ip + rest;
    assert forall i :: 0 <= i < len ==> buf[i] == buf[..len][i] == frame[i];
    assert frame[14..34] == ip && frame[34..] == rest;
  }
}
