/** src/dissect.c: a layered parser of Ethernet frames. */
module Dissect {
  import opened Bytes
  import opened ByteOrder

  const ETH_HDR_LEN: nat := 14
  const IPV4_HDR_MIN: nat := 20
  const TCP_HDR_MIN: nat := 20
  const UDP_HDR_LEN: nat := 8
  const ETHERTYPE_IPV4: nat := 0x0800
  const ETHERTYPE_ARP: nat := 0x0806
  const ETHERTYPE_IPV6: nat := 0x86DD
  const IP_PROTO_ICMP: nat := 1
  const IP_PROTO_TCP: nat := 6
  const IP_PROTO_UDP: nat := 17

  datatype Proto = Unknown | Ethernet | Arp | Ipv4 | Ipv6 | Tcp | Udp | Icmp

  datatype EthInfo = EthInfo(proto: Proto, srcMac: seq<byte>, dstMac: seq<byte>, ethertype: nat)

  /** The addresses are the four bytes as they lie in memory, that is, in network order. */
  datatype Ipv4Info = Ipv4Info(srcIp: seq<byte>, dstIp: seq<byte>, ttl: nat, proto: nat, totalLen: nat)

  datatype TransportInfo = TransportInfo(srcPort: nat, dstPort: nat, seqNo: nat, ack: nat, flags: nat, length: nat)

  /** The payload pointer is given as an offset into the packet; 0 stands for null. */
  datatype Info = Info(
    eth: EthInfo, ip: Ipv4Info, transport: TransportInfo, topProto: Proto, payloadAt: nat, payloadLen: nat)

  const NO_MAC: seq<byte> := [0, 0, 0, 0, 0, 0]
  const NO_IP: seq<byte> := [0, 0, 0, 0]
  const EMPTY := Info(
    EthInfo(Unknown, NO_MAC, NO_MAC, 0), Ipv4Info(NO_IP, NO_IP, 0, 0, 0),
    TransportInfo(0, 0, 0, 0, 0, 0), Unknown, 0, 0)

  // ---------- the layers as functions of the packet ----------

  function EthOf(d: seq<byte>): EthInfo
    requires |d| >= ETH_HDR_LEN
  {
    EthInfo(Ethernet, d[6..12], d[0..6], BE16(d, 12))
  }

  function HdrLen(d: seq<byte>, at: nat): nat
    requires at < |d|
  {
    d[at] as nat % 16 * 4
  }

  function Ipv4Of(d: seq<byte>, at: nat): Ipv4Info
    requires at + IPV4_HDR_MIN <= |d|
  {
    Ipv4Info(d[at + 12..at + 16], d[at + 16..at + 20], d[at + 8] as nat, d[at + 9] as nat, BE16(d, at + 2))
  }

  function Rest(len: nat, hdr: nat): nat { if len > hdr then len - hdr else 0 }

  function WithTransport(info: Info, d: seq<byte>, at: nat, ipProto: nat): Info
    requires at <= |d|
  {
    var len := |d| - at;
    if ipProto == IP_PROTO_TCP && len >= TCP_HDR_MIN then
      var doff := d[at + 12] as nat / 16 * 4;
      info.(transport := TransportInfo(BE16(d, at), BE16(d, at + 2), BE32(d, at + 4), BE32(d, at + 8), d[at + 13] as nat,
                                       info.transport.length),
        payloadAt := at + doff, payloadLen := Rest(len, doff), topProto := Tcp)
    else if ipProto == IP_PROTO_UDP && len >= UDP_HDR_LEN then
      info.(transport := info.transport.(srcPort := BE16(d, at), dstPort := BE16(d, at + 2), length := BE16(d, at + 4)),
        payloadAt := at + UDP_HDR_LEN, payloadLen := Rest(len, UDP_HDR_LEN), topProto := Udp)
    else if ipProto == IP_PROTO_ICMP then info.(topProto := Icmp)
    else info.(topProto := Unknown)
  }

  /** The packet is long enough for the headers that are parsed without question. */
  predicate Dissectable(d: seq<byte>) {
    |d| >= ETH_HDR_LEN &&
    (BE16(d, 12) == ETHERTYPE_IPV4 ==>
      |d| >= ETH_HDR_LEN + IPV4_HDR_MIN && |d| >= ETH_HDR_LEN + HdrLen(d, ETH_HDR_LEN))
  }

  function Dissected(d: seq<byte>): Info
    requires Dissectable(d)
  {
    var info := EMPTY.(eth := EthOf(d));
    if info.eth.ethertype == ETHERTYPE_IPV4 then
      var info := info.(ip := Ipv4Of(d, ETH_HDR_LEN));
      WithTransport(info, d, ETH_HDR_LEN + HdrLen(d, ETH_HDR_LEN), info.ip.proto)
    else info.(topProto := if info.eth.ethertype == ETHERTYPE_ARP then Arp
                           else if info.eth.ethertype == ETHERTYPE_IPV6 then Ipv6 else Unknown)
  }

  // ---------- which protocol is on top ----------

  /** A frame is refused if and only if it is shorter than its Ethernet header, or announces IPv4 and is
      shorter than 20 bytes more or than the header length announced. */
  lemma {:induction false} RefusedIff(d: seq<byte>)
    ensures Dissectable(d) <==>
      |d| >= 14 && (BE16(d, 12) == 0x0800 ==> |d| >= 34 && |d| >= 14 + 4 * (d[14] as nat % 16))
  {
  }

  /** ARP and IPv6 are told by the ethertype, TCP, UDP and ICMP by the protocol of an IPv4 header, the
      first two only when their fixed header is there. Nothing else is known. */
  lemma {:induction false} TopProtoIs(d: seq<byte>)
    requires Dissectable(d)
    ensures Dissected(d).topProto ==
      if BE16(d, 12) == 0x0806 then Arp
      else if BE16(d, 12) == 0x86DD then Ipv6
      else if BE16(d, 12) != 0x0800 then Unknown
      else
        var rest := |d| - 14 - 4 * (d[14] as nat % 16);
        if d[23] == 6 && rest >= 20 then Tcp
        else if d[23] == 17 && rest >= 8 then Udp
        else if d[23] == 1 then Icmp
        else Unknown
  {
  }

  /** Without TCP or UDP nothing is reported of a transport header or a payload, and without IPv4 nothing
      of an IPv4 header. */
  lemma {:induction false} NothingElse(d: seq<byte>)
    requires Dissectable(d)
    ensures Dissected(d).topProto !in {Tcp, Udp} ==>
      Dissected(d).transport == TransportInfo(0, 0, 0, 0, 0, 0) && Dissected(d).payloadAt == Dissected(d).payloadLen == 0
    ensures BE16(d, 12) != 0x0800 ==> Dissected(d).ip == Ipv4Info([0, 0, 0, 0], [0, 0, 0, 0], 0, 0, 0)
  {
  }

  // ---------- where the payload is ----------

  /** Where the transport header of an IPv4 packet starts. */
  function TransportAt(d: seq<byte>): nat
    requires |d| > ETH_HDR_LEN
  {
    ETH_HDR_LEN + HdrLen(d, ETH_HDR_LEN)
  }

  /** The data offset of a TCP header is never checked. The reported payload is inside the packet if
      and only if the data offset does not pass the packet's end, and behind the fixed header if and
      only if the data offset has at least its legal five words; inside, it reaches to the end. */
  lemma {:induction false} PayloadInsideIff(d: seq<byte>)
    requires Dissectable(d) && Dissected(d).topProto == Tcp
    ensures BE16(d, 12) == ETHERTYPE_IPV4 && TransportAt(d) + TCP_HDR_MIN <= |d|
    ensures var info, at := Dissected(d), TransportAt(d); var words := d[at + 12] as nat / 16;
      && (info.payloadAt + info.payloadLen <= |d| <==> at + 4 * words <= |d|)
      && (info.payloadAt <= |d| ==> info.payloadAt + info.payloadLen == |d|)
      && (info.payloadAt >= at + TCP_HDR_MIN <==> words >= 5)
  {
  }

  /** The payload of a UDP datagram always is what follows its header. */
  lemma {:induction false} UdpPayloadInside(d: seq<byte>)
    requires Dissectable(d) && Dissected(d).topProto == Udp
    ensures var info := Dissected(d);
      info.payloadAt == TransportAt(d) + UDP_HDR_LEN && info.payloadAt + info.payloadLen == |d|
  {
  }

  /** A frame of 54 bytes whose data offset is fifteen words: the payload starts 40 bytes too far. */
  lemma {:induction false} PayloadOutside(d: seq<byte>)
    requires d == seq(54, i => if i == 12 then 0x08 else if i == 14 then 0x45 else if i == 23 then 6
                               else if i == 46 then 0xF0 else 0)
    ensures Dissectable(d) && Dissected(d).topProto == Tcp && Dissected(d).payloadAt == |d| + 40
  {
  }

  // ---------- the program ----------

  class PacketInfo {
    var eth: EthInfo
    var ip: Ipv4Info
    var transport: TransportInfo
    var topProto: Proto
    var payloadAt: nat
    var payloadLen: nat

    ghost function View(): Info
      reads this
    {
      Info(eth, ip, transport, topProto, payloadAt, payloadLen)
    }

    constructor ()
      ensures View() == EMPTY
    {
      eth, ip, transport := EMPTY.eth, EMPTY.ip, EMPTY.transport;
      topProto, payloadAt, payloadLen := Unknown, 0, 0;
    }
  }

  method ParseEthernet(d: seq<byte>, out: PacketInfo) returns (r: int)
    modifies out
    ensures if |d| < ETH_HDR_LEN then r == -1 && unchanged(out)
      else r == 0 && out.View() == old(out.View()).(eth := EthOf(d))
  {
    if |d| < ETH_HDR_LEN {
      return -1;
    }
    out.eth := out.eth.(dstMac := d[0..6]);
    out.eth := out.eth.(srcMac := d[6..12]);
    Shifted16Is(d, 12);
    out.eth := out.eth.(ethertype := Shifted16(d, 12));
    out.eth := out.eth.(proto := Ethernet);
    return 0;
  }

  method ParseIpv4(d: seq<byte>, at: nat, out: PacketInfo) returns (r: int)
    requires at <= |d|
    modifies out
    ensures if |d| < at + IPV4_HDR_MIN || |d| < at + HdrLen(d, at) then r == -1 && unchanged(out)
      else r == HdrLen(d, at) && out.View() == old(out.View()).(ip := Ipv4Of(d, at))
  {
    if |d| - at < IPV4_HDR_MIN {
      return -1;
    }
    NibblesAre(d[at]);
    var ihl := LowNibble(d[at]) * 4;
    if |d| - at < ihl {
      return -1;
    }
    out.ip := out.ip.(ttl := d[at + 8] as nat);
    out.ip := out.ip.(proto := d[at + 9] as nat);
    Shifted16Is(d, at + 2);
    out.ip := out.ip.(totalLen := Shifted16(d, at + 2));
    out.ip := out.ip.(srcIp := d[at + 12..at + 16]);
    out.ip := out.ip.(dstIp := d[at + 16..at + 20]);
    return ihl;
  }

  method ParseTransport(d: seq<byte>, at: nat, ipProto: nat, out: PacketInfo)
    requires at <= |d|
    modifies out
    ensures out.View() == WithTransport(old(out.View()), d, at, ipProto)
  {
    var len := |d| - at;
    hide Shifted16, Shifted32, LowNibble, HighNibble;
    if ipProto == IP_PROTO_TCP && len >= TCP_HDR_MIN {
      Shifted16Is(d, at);
      Shifted16Is(d, at + 2);
      Shifted32Is(d, at + 4);
      Shifted32Is(d, at + 8);
      NibblesAre(d[at + 12]);
      out.transport := out.transport.(srcPort := Shifted16(d, at), dstPort := Shifted16(d, at + 2));
      out.transport := out.transport.(seqNo := Shifted32(d, at + 4), ack := Shifted32(d, at + 8));
      out.transport := out.transport.(flags := d[at + 13] as nat);
      var doff := HighNibble(d[at + 12]) * 4;
      out.payloadAt := at + doff;
      out.payloadLen := if len > doff then len - doff else 0;
      out.topProto := Tcp;
    } else if ipProto == IP_PROTO_UDP && len >= UDP_HDR_LEN {
      Shifted16Is(d, at);
      Shifted16Is(d, at + 2);
      Shifted16Is(d, at + 4);
      out.transport := out.transport.(srcPort := Shifted16(d, at), dstPort := Shifted16(d, at + 2));
      out.transport := out.transport.(length := Shifted16(d, at + 4));
      out.payloadAt := at + UDP_HDR_LEN;
      out.payloadLen := if len > UDP_HDR_LEN then len - UDP_HDR_LEN else 0;
      out.topProto := Udp;
    } else if ipProto == IP_PROTO_ICMP {
      out.topProto := Icmp;
    } else {
      out.topProto := Unknown;
    }
  }

  /** A packet is refused only when it is too short, which can be noticed as late as behind the
      Ethernet header; otherwise every field is as its bytes say. */
  method DissectPacket(d: seq<byte>, out: PacketInfo) returns (r: int)
    modifies out
    ensures if Dissectable(d) then r == 0 && out.View() == Dissected(d)
      else r == -1 && if |d| < ETH_HDR_LEN then unchanged(out) else out.View() == EMPTY.(eth := EthOf(d))
  {
    if |d| < ETH_HDR_LEN {
      return -1;
    }
    out.eth, out.ip, out.transport := EMPTY.eth, EMPTY.ip, EMPTY.transport;
    out.topProto, out.payloadAt, out.payloadLen := Unknown, 0, 0;
    r := ParseEthernet(d, out);
    if r < 0 {
      return -1;
    }
    if out.eth.ethertype == ETHERTYPE_IPV4 {
      var ihl := ParseIpv4(d, ETH_HDR_LEN, out);
      if ihl < 0 {
        return -1;
      }
      ParseTransport(d, ETH_HDR_LEN + ihl, out.ip.proto, out);
    } else if out.eth.ethertype == ETHERTYPE_ARP {
      out.topProto := Arp;
    } else if out.eth.ethertype == ETHERTYPE_IPV6 {
      out.topProto := Ipv6;
    } else {
      out.topProto := Unknown;
    }
    return 0;
  }
}
