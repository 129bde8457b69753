/** src/decode.c: decoders of single headers into lists of named fields. */
module Decode {
  import opened Bytes
  import opened ByteOrder

  const MAX_FIELDS: nat := 32

  datatype FieldValue = U8(u8: nat) | U16(u16: nat) | U32(u32: nat) | Raw(bytes: seq<byte>)

  datatype Field = Field(name: string, value: FieldValue)

  datatype Header = EthernetHdr | Ipv4Hdr | TcpHdr | UdpHdr

  function MinLen(h: Header): nat {
    match h case EthernetHdr => 14 case Ipv4Hdr => 20 case TcpHdr => 20 case UdpHdr => 8
  }

  /** The fields of a header that starts the buffer, in the order they are added. */
  function FieldsOf(h: Header, buf: seq<byte>): seq<Field>
    requires |buf| >= MinLen(h)
  {
    match h
    case EthernetHdr => [
      Field("dst_mac", Raw(buf[0..6])), Field("src_mac", Raw(buf[6..12])), Field("ethertype", U16(BE16(buf, 12)))]
    case Ipv4Hdr => [
      Field("version", U8(buf[0] as nat / 16)), Field("ihl", U8(buf[0] as nat % 16)), Field("tos", U8(buf[1] as nat)),
      Field("tot_len", U16(BE16(buf, 2))), Field("ttl", U8(buf[8] as nat)), Field("protocol", U8(buf[9] as nat)),
      Field("src_ip", U32(BE32(buf, 12))), Field("dst_ip", U32(BE32(buf, 16)))]
    case TcpHdr => [
      Field("src_port", U16(BE16(buf, 0))), Field("dst_port", U16(BE16(buf, 2))),
      Field("seq", U32(BE32(buf, 4))), Field("ack", U32(BE32(buf, 8))),
      Field("flags", U8(buf[13] as nat)), Field("window", U16(BE16(buf, 14)))]
    case UdpHdr => [
      Field("src_port", U16(BE16(buf, 0))), Field("dst_port", U16(BE16(buf, 2))),
      Field("length", U16(BE16(buf, 4))), Field("checksum", U16(BE16(buf, 6)))]
  }

  // ---------- the program ----------

  class DecodeResult {
    var protoName: string
    const fields: array<Field>
    var fieldCount: nat
    /** The fields added since the result was last cleared. */
    ghost var added: seq<Field>

    ghost predicate Valid()
      reads `fieldCount, `added, fields
    {
      && fieldCount == |added| <= fields.Length == MAX_FIELDS
      && forall i :: 0 <= i < fieldCount ==> fields[i] == added[i]
    }

    constructor ()
      ensures Valid() && fresh(fields) && added == [] && protoName == ""
    {
      protoName, fieldCount, added := "", 0, [];
      fields := new Field[MAX_FIELDS](_ => Field("", U8(0)));
    }

    /** Appends a field, cut to its width, unless all places are taken. */
    method AddField(name: string, v: FieldValue)
      requires Valid()
      modifies this`fieldCount, this`added, fields
      ensures Valid()
      ensures added == if |old(added)| < 32 then old(added) + [Field(name, Cut(v))] else old(added)
    {
      if fieldCount >= MAX_FIELDS {
        return;
      }
      fields[fieldCount] := Field(name, Cut(v));
      fieldCount := fieldCount + 1;
      added := added + [Field(name, Cut(v))];
    }

    method Clear()
      requires Valid()
      modifies this`protoName, this`fieldCount, this`added
      ensures Valid() && added == [] && protoName == ""
    {
      protoName, fieldCount, added := "", 0, [];
    }
  }

  /** A value as wide as its type. */
  function Cut(v: FieldValue): FieldValue {
    match v
    case U8(n) => U8(n % 0x100)
    case U16(n) => U16(n % 0x1_0000)
    case U32(n) => U32(n % 0x1_0000_0000)
    case Raw(_) => v
  }

  predicate InWidth(v: FieldValue) {
    match v
    case U8(n) => n < 0x100
    case U16(n) => n < 0x1_0000
    case U32(n) => n < 0x1_0000_0000
    case Raw(_) => true
  }

  /** Cutting makes a value as wide as its type: it keeps what fits, and else the low bits. */
  lemma {:induction false} CutIs(v: FieldValue)
    ensures InWidth(Cut(v)) && (InWidth(v) ==> Cut(v) == v)
    ensures v.U8? ==> Cut(v).U8? && (v.u8 - Cut(v).u8) % 256 == 0
    ensures v.U16? ==> Cut(v).U16? && (v.u16 - Cut(v).u16) % 65536 == 0
    ensures v.U32? ==> Cut(v).U32? && (v.u32 - Cut(v).u32) % 4294967296 == 0
  {
  }

  /** The first k fields of the expected list were added. */
  predicate AddedUpTo(added: seq<Field>, fs: seq<Field>, k: nat) {
    k <= |fs| && added == fs[..k]
  }

  lemma {:induction false} AddedIsAll(added: seq<Field>, fs: seq<Field>)
    ensures AddedUpTo([], fs, 0)
    ensures AddedUpTo(added, fs, |fs|) <==> added == fs
  {
  }

  /** Adds field k of the expected list fs, after the ones before it. */
  method AddNext(out: DecodeResult, name: string, v: FieldValue, ghost fs: seq<Field>, ghost k: nat)
    requires out.Valid() && k < |fs| <= MAX_FIELDS && AddedUpTo(out.added, fs, k) && fs[k] == Field(name, v) && InWidth(v)
    modifies out`fieldCount, out`added, out.fields
    ensures out.Valid() && AddedUpTo(out.added, fs, k + 1)
  {
    out.AddField(name, v);
  }

  method DecodeEthernet(buf: seq<byte>, out: DecodeResult) returns (r: int)
    requires out.Valid()
    modifies out, out.fields
    ensures out.Valid()
    ensures |buf| < 14 ==> r == -1 && unchanged(out) && unchanged(out.fields)
    ensures |buf| >= 14 ==>
      r == 0 && out.protoName == "Ethernet" && out.added == FieldsOf(EthernetHdr, buf)
  {
    if |buf| < 14 {
      return -1;
    }
    ghost var fs := FieldsOf(EthernetHdr, buf);
    AddedIsAll(out.added, fs);
    out.Clear();
    out.protoName := "Ethernet";
    AddNext(out, "dst_mac", Raw(buf[0..6]), fs, 0);
    AddNext(out, "src_mac", Raw(buf[6..12]), fs, 1);
    Shifted16Is(buf, 12);
    AddNext(out, "ethertype", U16(Shifted16(buf, 12)), fs, 2);
    AddedIsAll(out.added, fs);
    return 0;
  }

  /** The fields of an IPv4 header up to its length. */
  method AddIpv4Start(buf: seq<byte>, out: DecodeResult, ghost fs: seq<Field>)
    requires out.Valid() && |buf| >= MinLen(Ipv4Hdr) && fs == FieldsOf(Ipv4Hdr, buf) && AddedUpTo(out.added, fs, 0)
    modifies out`fieldCount, out`added, out.fields
    ensures out.Valid() && AddedUpTo(out.added, fs, 4)
  {
    NibblesAre(buf[0]);
    Shifted16Is(buf, 2);
    hide AddedUpTo, DecodeResult.Valid, BE16, BE32, Shifted16, LowNibble, HighNibble;
    AddNext(out, "version", U8(HighNibble(buf[0])), fs, 0);
    AddNext(out, "ihl", U8(LowNibble(buf[0])), fs, 1);
    AddNext(out, "tos", U8(buf[1] as nat), fs, 2);
    AddNext(out, "tot_len", U16(Shifted16(buf, 2)), fs, 3);
  }

  method DecodeIpv4(buf: seq<byte>, out: DecodeResult) returns (r: int)
    requires out.Valid()
    modifies out, out.fields
    ensures out.Valid()
    ensures |buf| < 20 ==> r == -1 && unchanged(out) && unchanged(out.fields)
    ensures |buf| >= 20 ==>
      r == 0 && out.protoName == "IPv4" && out.added == FieldsOf(Ipv4Hdr, buf)
  {
    if |buf| < 20 {
      return -1;
    }
    ghost var fs := FieldsOf(Ipv4Hdr, buf);
    Shifted32Is(buf, 12);
    Shifted32Is(buf, 16);
    hide AddedUpTo, DecodeResult.Valid, BE16, BE32, Loaded32, Ntohl;
    AddedIsAll(out.added, fs);
    out.Clear();
    out.protoName := "IPv4";
    AddIpv4Start(buf, out, fs);
    AddNext(out, "ttl", U8(buf[8] as nat), fs, 4);
    AddNext(out, "protocol", U8(buf[9] as nat), fs, 5);
    AddNext(out, "src_ip", U32(Ntohl(Loaded32(buf, 12)) as nat), fs, 6);
    AddNext(out, "dst_ip", U32(Ntohl(Loaded32(buf, 16)) as nat), fs, 7);
    AddedIsAll(out.added, fs);
    return 0;
  }

  method DecodeTcp(buf: seq<byte>, out: DecodeResult) returns (r: int)
    requires out.Valid()
    modifies out, out.fields
    ensures out.Valid()
    ensures |buf| < 20 ==> r == -1 && unchanged(out) && unchanged(out.fields)
    ensures |buf| >= 20 ==>
      r == 0 && out.protoName == "TCP" && out.added == FieldsOf(TcpHdr, buf)
  {
    if |buf| < 20 {
      return -1;
    }
    ghost var fs := FieldsOf(TcpHdr, buf);
    Shifted16Is(buf, 0);
    Shifted16Is(buf, 2);
    Shifted32Is(buf, 4);
    Shifted32Is(buf, 8);
    Shifted16Is(buf, 14);
    hide AddedUpTo, DecodeResult.Valid, BE16, BE32, Shifted16, Loaded32, Ntohl;
    AddedIsAll(out.added, fs);
    out.Clear();
    out.protoName := "TCP";
    AddNext(out, "src_port", U16(Shifted16(buf, 0)), fs, 0);
    AddNext(out, "dst_port", U16(Shifted16(buf, 2)), fs, 1);
    AddNext(out, "seq", U32(Ntohl(Loaded32(buf, 4)) as nat), fs, 2);
    AddNext(out, "ack", U32(Ntohl(Loaded32(buf, 8)) as nat), fs, 3);
    AddNext(out, "flags", U8(buf[13] as nat), fs, 4);
    AddNext(out, "window", U16(Shifted16(buf, 14)), fs, 5);
    AddedIsAll(out.added, fs);
    return 0;
  }

  method DecodeUdp(buf: seq<byte>, out: DecodeResult) returns (r: int)
    requires out.Valid()
    modifies out, out.fields
    ensures out.Valid()
    ensures |buf| < 8 ==> r == -1 && unchanged(out) && unchanged(out.fields)
    ensures |buf| >= 8 ==>
      r == 0 && out.protoName == "UDP" && out.added == FieldsOf(UdpHdr, buf)
  {
    if |buf| < 8 {
      return -1;
    }
    ghost var fs := FieldsOf(UdpHdr, buf);
    AddedIsAll(out.added, fs);
    out.Clear();
    out.protoName := "UDP";
    Shifted16Is(buf, 0);
    AddNext(out, "src_port", U16(Shifted16(buf, 0)), fs, 0);
    Shifted16Is(buf, 2);
    AddNext(out, "dst_port", U16(Shifted16(buf, 2)), fs, 1);
    Shifted16Is(buf, 4);
    AddNext(out, "length", U16(Shifted16(buf, 4)), fs, 2);
    Shifted16Is(buf, 6);
    AddNext(out, "checksum", U16(Shifted16(buf, 6)), fs, 3);
    AddedIsAll(out.added, fs);
    return 0;
  }
}
