/** The two header parsers agree, and the dissector undoes an encoder. */
module ParserAgreement {
  import opened Bytes
  import opened ByteOrder
  import opened Dissect
  import D = Decode

  // ---------- the dissector and the decoders agree ----------

  lemma {:induction false} Tail(d: seq<byte>, at: nat, i: nat)
    requires at + i <= |d|
    ensures i + 1 <= |d| - at ==> d[at..][i] == d[at + i]
    ensures i + 2 <= |d| - at ==> BE16(d[at..], i) == BE16(d, at + i)
    ensures i + 4 <= |d| - at ==> BE32(d[at..], i) == BE32(d, at + i)
  {
  }

  /** The dissector shifts and ors bytes of the packet; the decoders do so with bytes of its tail, or
      load words of it and convert them. The numbers are the same. */
  lemma {:induction false} AssemblyAgrees(d: seq<byte>, at: nat, i: nat)
    requires at + i + 4 <= |d|
    ensures Shifted16(d, at + i) == Shifted16(d[at..], i)
    ensures Shifted32(d, at + i) == Ntohl(Loaded32(d[at..], i)) as nat
  {
    hide Shifted16, Shifted32, Loaded32, Ntohl;
    Shifted16Is(d, at + i);
    Shifted16Is(d[at..], i);
    Shifted32Is(d, at + i);
    Shifted32Is(d[at..], i);
    Tail(d, at, i);
  }

  /** The Ethernet decoder succeeds on every dissected frame and gives the dissector's fields. */
  lemma {:induction false} EthernetAgrees(d: seq<byte>)
    requires Dissectable(d)
    ensures |d| >= D.MinLen(D.EthernetHdr)
    ensures var info := Dissected(d); var fs := D.FieldsOf(D.EthernetHdr, d);
      && D.Field("dst_mac", D.Raw(info.eth.dstMac)) in fs
      && D.Field("src_mac", D.Raw(info.eth.srcMac)) in fs
      && D.Field("ethertype", D.U16(info.eth.ethertype)) in fs
  {
  }

  lemma {:induction false} Ipv4FieldsBehind(d: seq<byte>, at: nat)
    requires at + IPV4_HDR_MIN <= |d|
    ensures var fs := D.FieldsOf(D.Ipv4Hdr, d[at..]);
      && |fs| == 8
      && fs[1] == D.Field("ihl", D.U8(d[at] as nat % 16)) && fs[3] == D.Field("tot_len", D.U16(BE16(d, at + 2)))
      && fs[4] == D.Field("ttl", D.U8(d[at + 8] as nat)) && fs[5] == D.Field("protocol", D.U8(d[at + 9] as nat))
      && fs[6] == D.Field("src_ip", D.U32(BE32(d, at + 12))) && fs[7] == D.Field("dst_ip", D.U32(BE32(d, at + 16)))
  {
  }

  /** So does the IPv4 decoder behind the Ethernet header, and it reads the header length the
      dissector advances by; the addresses are the same up to byte order. */
  lemma {:induction false} Ipv4Agrees(d: seq<byte>)
    requires Dissectable(d) && BE16(d, 12) == ETHERTYPE_IPV4
    ensures |d[ETH_HDR_LEN..]| >= D.MinLen(D.Ipv4Hdr)
    ensures var ip := Dissected(d).ip; var fs := D.FieldsOf(D.Ipv4Hdr, d[ETH_HDR_LEN..]);
      && D.Field("tot_len", D.U16(ip.totalLen)) in fs && D.Field("ttl", D.U8(ip.ttl)) in fs
      && D.Field("protocol", D.U8(ip.proto)) in fs
      && D.Field("src_ip", D.U32(BE32(ip.srcIp, 0))) in fs && D.Field("dst_ip", D.U32(BE32(ip.dstIp, 0))) in fs
      && D.Field("ihl", D.U8(HdrLen(d, ETH_HDR_LEN) / 4)) in fs
  {
    var at := ETH_HDR_LEN;
    Ipv4FieldsBehind(d, at);
    GetInside(d, d[at + 12..at + 16], at + 12, 0);
    GetInside(d, d[at + 16..at + 20], at + 16, 0);
    assert Dissected(d).ip == Ipv4Of(d, at) && HdrLen(d, at) / 4 == d[at] as nat % 16;
    var fs := D.FieldsOf(D.Ipv4Hdr, d[at..]);
    hide D.FieldsOf, Dissected, Dissectable, BE16, BE32;
    assert fs[1] in fs && fs[3] in fs && fs[4] in fs && fs[5] in fs && fs[6] in fs && fs[7] in fs;
  }

  /** Whenever the dissector reports TCP or UDP, the transport decoder succeeds where the transport
      header starts and gives the same fields. */
  lemma {:induction false} TransportAgrees(d: seq<byte>)
    requires Dissectable(d) && Dissected(d).topProto in {Tcp, Udp}
    ensures BE16(d, 12) == ETHERTYPE_IPV4
    ensures var info := Dissected(d); var h := if info.topProto == Tcp then D.TcpHdr else D.UdpHdr;
      && |d[TransportAt(d)..]| >= D.MinLen(h)
      && var fs := D.FieldsOf(h, d[TransportAt(d)..]);
      && D.Field("src_port", D.U16(info.transport.srcPort)) in fs
      && D.Field("dst_port", D.U16(info.transport.dstPort)) in fs
      && (info.topProto == Tcp ==>
            && D.Field("seq", D.U32(info.transport.seqNo)) in fs
            && D.Field("ack", D.U32(info.transport.ack)) in fs
            && D.Field("flags", D.U8(info.transport.flags)) in fs)
      && (info.topProto == Udp ==> D.Field("length", D.U16(info.transport.length)) in fs)
  {
    var at := TransportAt(d);
    Tail(d, at, 0);
    Tail(d, at, 2);
    Tail(d, at, 4);
    if Dissected(d).topProto == Tcp {
      Tail(d, at, 8);
      Tail(d, at, 13);
    }
  }

  // ---------- an encoder ----------

  datatype Eth = Eth(dst: seq<byte>, src: seq<byte>, ethertype: nat)

  /** Section 3.1 of RFC 791; `ihl` counts 32-bit words, the options fill the words beyond five. */
  datatype Ip = Ip(
    ihl: nat, tos: byte, totalLen: nat, id: nat, fragment: nat, ttl: byte, proto: byte, checksum: nat,
    src: seq<byte>, dst: seq<byte>, options: seq<byte>)

  /** Section 3.1 of RFC 9293, or the header of RFC 768. */
  datatype Transport =
    | TcpSeg(srcPort: nat, dstPort: nat, seqNo: nat, ack: nat, doff: nat, flags: byte, window: nat,
             checksum: nat, urgent: nat, options: seq<byte>)
    | UdpDgram(srcPort: nat, dstPort: nat, length: nat, checksum: nat)

  predicate LegalEth(e: Eth) { |e.dst| == 6 && |e.src| == 6 && e.ethertype < 0x1_0000 }

  predicate LegalIp(h: Ip) {
    && 5 <= h.ihl <= 15 && |h.options| == 4 * (h.ihl - 5) && |h.src| == |h.dst| == 4
    && h.totalLen < 0x1_0000 && h.id < 0x1_0000 && h.fragment < 0x1_0000 && h.checksum < 0x1_0000
  }

  predicate LegalTransport(t: Transport) {
    && t.srcPort < 0x1_0000 && t.dstPort < 0x1_0000 && t.checksum < 0x1_0000
    && match t
       case TcpSeg(_, _, seqNo, ack, doff, _, window, _, urgent, options) =>
         && 5 <= doff <= 15 && |options| == 4 * (doff - 5)
         && seqNo < 0x1_0000_0000 && ack < 0x1_0000_0000 && window < 0x1_0000 && urgent < 0x1_0000
       case UdpDgram(_, _, length, _) => length < 0x1_0000
  }

  function PutEth(e: Eth): (s: seq<byte>)
    requires LegalEth(e)
    ensures |s| == ETH_HDR_LEN
  {
    e.dst + e.src + Put16(e.ethertype)
  }

  function PutIp(h: Ip): (s: seq<byte>)
    requires LegalIp(h)
    ensures |s| == 4 * h.ihl
  {
    [(0x40 + h.ihl) as byte, h.tos] + Put16(h.totalLen) + Put16(h.id) + Put16(h.fragment)
    + [h.ttl, h.proto] + Put16(h.checksum) + h.src + h.dst + h.options
  }

  function TransportLen(t: Transport): nat { if t.TcpSeg? then 4 * t.doff else UDP_HDR_LEN }

  function PutTransport(t: Transport): (s: seq<byte>)
    requires LegalTransport(t)
    ensures |s| == TransportLen(t)
  {
    match t
    case TcpSeg(sp, dp, seqNo, ack, doff, flags, window, checksum, urgent, options) =>
      Put16(sp) + Put16(dp) + Put32(seqNo) + Put32(ack) + [(doff * 16) as byte, flags]
      + Put16(window) + Put16(checksum) + Put16(urgent) + options
    case UdpDgram(sp, dp, length, checksum) => Put16(sp) + Put16(dp) + Put16(length) + Put16(checksum)
  }

  function Frame(e: Eth, h: Ip, t: Transport, payload: seq<byte>): seq<byte>
    requires LegalEth(e) && LegalIp(h) && LegalTransport(t)
  {
    PutEth(e) + PutIp(h) + PutTransport(t) + payload
  }

  // ---------- each header read back on its own ----------

  lemma {:induction false} EthReadsBack(e: Eth)
    requires LegalEth(e)
    ensures EthOf(PutEth(e)) == EthInfo(Ethernet, e.src, e.dst, e.ethertype)
  {
  }

  lemma {:induction false} IpReadsBack(h: Ip)
    requires LegalIp(h)
    ensures HdrLen(PutIp(h), 0) == 4 * h.ihl
    ensures Ipv4Of(PutIp(h), 0) == Ipv4Info(h.src, h.dst, h.ttl as nat, h.proto as nat, h.totalLen)
  {
  }

  /** What the dissector makes of a transport header followed by its payload. */
  function TransportView(info: Info, t: Transport, at: nat, payload: seq<byte>): Info {
    var ti := info.transport.(srcPort := t.srcPort, dstPort := t.dstPort);
    var ti := if t.TcpSeg? then ti.(seqNo := t.seqNo, ack := t.ack, flags := t.flags as nat) else ti.(length := t.length);
    info.(transport := ti, topProto := if t.TcpSeg? then Tcp else Udp,
          payloadAt := at + TransportLen(t), payloadLen := |payload|)
  }

  lemma {:induction false} TcpReadsBack(t: Transport)
    requires LegalTransport(t) && t.TcpSeg?
    ensures var s := PutTransport(t);
      && BE16(s, 0) == t.srcPort && BE16(s, 2) == t.dstPort && BE32(s, 4) == t.seqNo && BE32(s, 8) == t.ack
      && s[12] as nat / 16 == t.doff && s[13] == t.flags
  {
  }

  lemma {:induction false} UdpReadsBack(t: Transport)
    requires LegalTransport(t) && t.UdpDgram?
    ensures var s := PutTransport(t);
      BE16(s, 0) == t.srcPort && BE16(s, 2) == t.dstPort && BE16(s, 4) == t.length
  {
  }

  lemma {:induction false} TransportReadsBack(info: Info, d: seq<byte>, at: nat, t: Transport, payload: seq<byte>)
    requires LegalTransport(t) && at <= |d| && d[at..] == PutTransport(t) + payload
    ensures WithTransport(info, d, at, if t.TcpSeg? then IP_PROTO_TCP else IP_PROTO_UDP)
      == TransportView(info, t, at, payload)
  {
    var s := PutTransport(t);
    assert d[at..at + |s|] == d[at..][..|s|] == s;
    GetInside(d, s, at, 0);
    GetInside(d, s, at, 2);
    GetInside(d, s, at, 4);
    assert |d| - at == |s| + |payload|;
    if t.TcpSeg? {
      GetInside(d, s, at, 8);
      GetInside(d, s, at, 12);
      GetInside(d, s, at, 13);
      TcpReadsBack(t);
    } else {
      UdpReadsBack(t);
    }
  }

  // ---------- and by the decoders ----------

  lemma {:induction false} EthFieldsReadBack(e: Eth, rest: seq<byte>)
    requires LegalEth(e)
    ensures D.FieldsOf(D.EthernetHdr, PutEth(e) + rest) == [
      D.Field("dst_mac", D.Raw(e.dst)), D.Field("src_mac", D.Raw(e.src)), D.Field("ethertype", D.U16(e.ethertype))]
  {
    var d := PutEth(e) + rest;
    EthReadsBack(e);
    EthInFrame(d, PutEth(e));
  }

  lemma {:induction false} Field16(s: seq<byte>, at: nat, n: nat)
    requires n < 0x1_0000 && at + 2 <= |s| && s[at..at + 2] == Put16(n)
    ensures BE16(s, at) == n
  {
  }

  lemma {:induction false} Field32(s: seq<byte>, at: nat, n: nat)
    requires n < 0x1_0000_0000 && at + 4 <= |s| && s[at..at + 4] == Put32(n)
    ensures BE32(s, at) == n
  {
  }

  /** All eight fields of an encoded IPv4 header, the version among them. */
  lemma {:induction false} IpFieldsReadBack(h: Ip, rest: seq<byte>)
    requires LegalIp(h)
    ensures D.FieldsOf(D.Ipv4Hdr, PutIp(h) + rest) == [
      D.Field("version", D.U8(4)), D.Field("ihl", D.U8(h.ihl)), D.Field("tos", D.U8(h.tos as nat)),
      D.Field("tot_len", D.U16(h.totalLen)), D.Field("ttl", D.U8(h.ttl as nat)), D.Field("protocol", D.U8(h.proto as nat)),
      D.Field("src_ip", D.U32(BE32(h.src, 0))), D.Field("dst_ip", D.U32(BE32(h.dst, 0)))]
  {
    var s, d := PutIp(h), PutIp(h) + rest;
    assert d[0] == (0x40 + h.ihl) as byte && d[1] == h.tos && d[8] == h.ttl && d[9] == h.proto;
    assert d[2..4] == Put16(h.totalLen) && d[12..16] == h.src && d[16..20] == h.dst;
    Field16(d, 2, h.totalLen);
    GetInside(d, h.src, 12, 0);
    GetInside(d, h.dst, 16, 0);
    hide BE16, BE32, Put16;
  }

  /** All six fields of an encoded TCP header, or four of a UDP header. */
  lemma {:induction false} TransportFieldsReadBack(t: Transport, rest: seq<byte>)
    requires LegalTransport(t)
    ensures D.FieldsOf(if t.TcpSeg? then D.TcpHdr else D.UdpHdr, PutTransport(t) + rest) == if t.TcpSeg? then [
      D.Field("src_port", D.U16(t.srcPort)), D.Field("dst_port", D.U16(t.dstPort)),
      D.Field("seq", D.U32(t.seqNo)), D.Field("ack", D.U32(t.ack)),
      D.Field("flags", D.U8(t.flags as nat)), D.Field("window", D.U16(t.window))]
      else [
      D.Field("src_port", D.U16(t.srcPort)), D.Field("dst_port", D.U16(t.dstPort)),
      D.Field("length", D.U16(t.length)), D.Field("checksum", D.U16(t.checksum))]
  {
    var d := PutTransport(t) + rest;
    assert d[0..2] == Put16(t.srcPort) && d[2..4] == Put16(t.dstPort);
    Field16(d, 0, t.srcPort);
    Field16(d, 2, t.dstPort);
    if t.TcpSeg? {
      assert d[4..8] == Put32(t.seqNo) && d[8..12] == Put32(t.ack) && d[13] == t.flags && d[14..16] == Put16(t.window);
      Field32(d, 4, t.seqNo);
      Field32(d, 8, t.ack);
      Field16(d, 14, t.window);
    } else {
      assert d[4..6] == Put16(t.length) && d[6..8] == Put16(t.checksum);
      Field16(d, 4, t.length);
      Field16(d, 6, t.checksum);
    }
    hide BE16, BE32, Put16, Put32;
  }

  // ---------- the whole frame ----------

  /** Dissecting an encoded frame gives back every field and the payload. */
  lemma {:induction false} DissectUndoesEncode(e: Eth, h: Ip, t: Transport, payload: seq<byte>)
    requires LegalEth(e) && LegalIp(h) && LegalTransport(t) && e.ethertype == ETHERTYPE_IPV4
    requires h.proto as nat == if t.TcpSeg? then IP_PROTO_TCP else IP_PROTO_UDP
    ensures var d := Frame(e, h, t, payload);
      && Dissectable(d)
      && var at := ETH_HDR_LEN + 4 * h.ihl;
      && Dissected(d) == TransportView(
           EMPTY.(eth := EthInfo(Ethernet, e.src, e.dst, e.ethertype),
                  ip := Ipv4Info(h.src, h.dst, h.ttl as nat, h.proto as nat, h.totalLen)), t, at, payload)
      && Dissected(d).payloadAt + |payload| == |d| && d[Dissected(d).payloadAt..] == payload
  {
    var d := Frame(e, h, t, payload);
    var at := ETH_HDR_LEN + 4 * h.ihl;
    EthReadsBack(e);
    EthInFrame(d, PutEth(e));
    IpReadsBack(h);
    assert d[ETH_HDR_LEN..at] == PutIp(h);
    IpInFrame(d, PutIp(h), 4 * h.ihl);
    assert d[at..] == PutTransport(t) + payload;
    TransportReadsBack(EMPTY.(eth := EthOf(d), ip := Ipv4Of(d, ETH_HDR_LEN)), d, at, t, payload);
    assert d[at + TransportLen(t)..] == payload;
  }

  lemma {:induction false} EthInFrame(d: seq<byte>, s: seq<byte>)
    requires |s| == ETH_HDR_LEN && s <= d
    ensures EthOf(d) == EthOf(s)
  {
  }

  lemma {:induction false} SliceOfSlice(d: seq<byte>, at: nat, len: nat, i: nat, j: nat)
    requires at + len <= |d| && i <= j <= len
    ensures d[at + i..at + j] == d[at..at + len][i..j]
  {
    var s := d[at..at + len];
    assert forall k :: i <= k < j ==> s[k] == d[at + k];
  }

  lemma {:induction false} IpInFrame(d: seq<byte>, s: seq<byte>, len: nat)
    requires |s| == len >= IPV4_HDR_MIN && |d| >= ETH_HDR_LEN + len && d[ETH_HDR_LEN..ETH_HDR_LEN + len] == s
    ensures Ipv4Of(d, ETH_HDR_LEN) == Ipv4Of(s, 0) && HdrLen(d, ETH_HDR_LEN) == HdrLen(s, 0)
  {
    var at := ETH_HDR_LEN;
    GetInside(d, s, at, 0);
    GetInside(d, s, at, 2);
    GetInside(d, s, at, 8);
    GetInside(d, s, at, 9);
    assert d[at + 12..at + 16] == s[12..16] by { SliceOfSlice(d, at, len, 12, 16); }
    assert d[at + 16..at + 20] == s[16..20] by { SliceOfSlice(d, at, len, 16, 20); }
  }
}
