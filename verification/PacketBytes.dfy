/** What the decoders report and what is passed on, told on the bytes of the frame by their
    positions. */
module PacketBytes {
  import opened Base
  import opened PacketContent
  import opened PacketDecode

  /** EtherType 0x0800 in bytes 12 and 13. */
  predicate IsIpv4(b: seq<Byte>) {
    |b| >= 14 && b[12] == 8 && b[13] == 0
  }

  /** TCP or UDP with bytes behind the header. */
  predicate CarriesPayload(b: seq<Byte>) {
    |b| >= 34 && ((b[23] == 6 && |b| > 54) || (b[23] == 17 && |b| > 42))
  }

  /** Two and four bytes in network order. */
  function Two(b: seq<Byte>, i: nat): nat
    requires i + 2 <= |b|
  {
    b[i] as int * 256 + b[i + 1] as int
  }

  function Four(b: seq<Byte>, i: nat): nat
    requires i + 4 <= |b|
  {
    Two(b, i) * 65536 + Two(b, i + 2)
  }

  /** The bytes that have to be there. */
  lemma CompleteIff(b: seq<Byte>)
    ensures Complete(b) <==>
              && 14 <= |b| < 4294967296
              && (b[12] == 8 && b[13] == 0 ==>
                    |b| >= 34 && (b[23] == 6 ==> |b| >= 54) && (b[23] == 17 ==> |b| >= 42))
  {
    if |b| >= 14 { LoadBounds(b, 12); }
  }

  // ----- addresses -----

  predicate Number(d: string, v: int) {
    d != "" && AllDigits(d) && DecimalValue(d) == v && (|d| > 1 ==> d[0] != '0')
  }

  predicate FourNumbers(text: string, a: seq<Byte>, d: seq<string>)
    requires |a| == 4
  {
    && |d| == 4 && text == d[0] + "." + d[1] + "." + d[2] + "." + d[3]
    && Number(d[0], a[0]) && Number(d[1], a[1]) && Number(d[2], a[2]) && Number(d[3], a[3])
  }

  /** The text is four decimal numbers between dots, and they are the address bytes in order. */
  ghost predicate AddressText(text: string, a: seq<Byte>) {
    |a| == 4 && exists d :: FourNumbers(text, a, d)
  }

  lemma DottedReads(a: seq<Byte>)
    requires |a| == 4
    ensures AddressText(Dotted(a), a)
  {
    DigitsAreDecimal(a[0]);
    DigitsAreDecimal(a[1]);
    DigitsAreDecimal(a[2]);
    DigitsAreDecimal(a[3]);
    assert FourNumbers(Dotted(a), a, [Digits(a[0]), Digits(a[1]), Digits(a[2]), Digits(a[3])]);
  }

  lemma {:induction false} SplitAtDot(d: string, x: string, e: string, y: string)
    requires AllDigits(d) && AllDigits(e) && d + "." + x == e + "." + y
    ensures d == e && x == y
  {
    var s, t := d + "." + x, e + "." + y;
    assert s[0] == if d == "" then '.' else d[0];
    assert t[0] == if e == "" then '.' else e[0];
    if d == "" {
      assert x == s[1..] && y == t[1..];
    } else {
      assert s[1..] == d[1..] + "." + x && t[1..] == e[1..] + "." + y;
      SplitAtDot(d[1..], x, e[1..], y);
    }
  }

  /** Such a text belongs to one address only. */
  lemma AddressTextIsUnique(text: string, a: seq<Byte>, b: seq<Byte>)
    requires AddressText(text, a) && AddressText(text, b)
    ensures a == b
  {
    var d :| FourNumbers(text, a, d);
    var e :| FourNumbers(text, b, e);
    FirstTwoSplits(d, e);
    assert d[0] == e[0] && d[1] == e[1] && d[2] == e[2] && d[3] == e[3];
    hide AllDigits, DecimalValue;
    assert a == [a[0], a[1], a[2], a[3]] && b == [b[0], b[1], b[2], b[3]];
  }

  lemma FirstTwoSplits(d: seq<string>, e: seq<string>)
    requires |d| == |e| == 4 && forall i :: 0 <= i < 3 ==> AllDigits(d[i]) && AllDigits(e[i])
    requires d[0] + "." + d[1] + "." + d[2] + "." + d[3] == e[0] + "." + e[1] + "." + e[2] + "." + e[3]
    ensures d[0] == e[0] && d[1] == e[1] && d[2] == e[2] && d[3] == e[3]
  {
    hide AllDigits;
    var x, y := d[1] + "." + (d[2] + "." + d[3]), e[1] + "." + (e[2] + "." + e[3]);
    assert d[0] + "." + d[1] + "." + d[2] + "." + d[3] == d[0] + "." + x;
    assert e[0] + "." + e[1] + "." + e[2] + "." + e[3] == e[0] + "." + y;
    SplitAtDot(d[0], x, e[0], y);
    SplitAtDot(d[1], d[2] + "." + d[3], e[1], e[2] + "." + e[3]);
    SplitAtDot(d[2], d[3], e[2], e[3]);
  }

  // ----- the IP step from a header at `at` -----

  /** What every IPv4 header leads to, whatever it carries. */
  lemma IpStepReports(p: Packet, at: nat)
    requires HeadersFrom(p.src, at)
    ensures var b, f := p.src, IpDecoded(p, at).fields;
            && f.ipId == Two(b, at + 4) && f.ipOffset == Two(b, at + 6) % 8192
            && f.ipSrc == b[at + 12..at + 16] && f.ipDst == b[at + 16..at + 20]
            && AddressText(f.srcIp, b[at + 12..at + 16]) && AddressText(f.dstIp, b[at + 16..at + 20])
            && f.tmSec == p.fields.tmSec && f.tmUsec == p.fields.tmUsec && IpDecoded(p, at).src == b
  {
    hide Load16, Ntohs, Load32, Ntohl, Dotted, AddressText;
    FieldsFromHeader(p, at);
    LoadBounds(p.src, at + 4);
    LoadBounds(p.src, at + 6);
    DottedReads(p.src[at + 12..at + 16]);
    DottedReads(p.src[at + 16..at + 20]);
  }

  /** No branch of the dispatch touches what the IP header gave. */
  lemma FieldsFromHeader(p: Packet, at: nat)
    requires HeadersFrom(p.src, at)
    ensures var b, f := p.src, IpDecoded(p, at).fields;
            && f == f.(ipId := IpFields(p.fields, b, at).ipId, ipOffset := IpFields(p.fields, b, at).ipOffset,
                       ipSrc := b[at + 12..at + 16], ipDst := b[at + 16..at + 20],
                       srcIp := Dotted(b[at + 12..at + 16]), dstIp := Dotted(b[at + 16..at + 20]),
                       tmSec := p.fields.tmSec, tmUsec := p.fields.tmUsec)
            && IpDecoded(p, at).src == b
  {
    hide Load16, Ntohs, Load32, Ntohl, Dotted;
  }

  lemma TcpStepReports(p: Packet, at: nat)
    requires HeadersFrom(p.src, at) && p.src[at + 9] == 6
    ensures var b, d := p.src, IpDecoded(p, at);
            && d.fields.protype == TCP && d.anal == b[at + 40..]
            && d.fields.srcPort == Two(b, at + 20) && d.fields.dstPort == Two(b, at + 22)
            && d.fields.seqNo == Four(b, at + 24) && d.fields.ackNo == Four(b, at + 28)
  {
    hide Load16, Ntohs, Load32, Ntohl, Dotted, Four;
    var b := p.src;
    LoadBounds(b, at + 20);
    LoadBounds(b, at + 22);
    FourIs(b, at + 24);
    FourIs(b, at + 28);
  }

  lemma FourIs(b: seq<Byte>, i: nat)
    requires i + 4 <= |b|
    ensures Load32(b, i) < 0x1_0000_0000 && Ntohl(Load32(b, i)) == Four(b, i)
  {
    LoadBounds(b, i);
    LoadBounds(b, i + 2);
    NtohlReads(b, i);
  }

  lemma UdpStepReports(p: Packet, at: nat)
    requires HeadersFrom(p.src, at) && p.src[at + 9] == 17
    ensures var b, d := p.src, IpDecoded(p, at);
            && d.fields.protype == UDP && d.anal == b[at + 28..]
            && d.fields.srcPort == Two(b, at + 20) && d.fields.dstPort == Two(b, at + 22)
            && d.fields.seqNo == p.fields.seqNo && d.fields.ackNo == p.fields.ackNo
  {
    hide Load16, Ntohs, Load32, Ntohl, Dotted;
    var b := p.src;
    LoadBounds(b, at + 20);
    LoadBounds(b, at + 22);
  }

  /** ICMP, IGMP and every other protocol: payload, ports, numbers and type stay as captured. */
  lemma OtherStepReports(p: Packet, at: nat)
    requires HeadersFrom(p.src, at) && p.src[at + 9] != 6 && p.src[at + 9] != 17
    ensures var d := IpDecoded(p, at);
            && d.anal == p.anal && d.fields.protype == p.fields.protype
            && d.fields.srcPort == p.fields.srcPort && d.fields.dstPort == p.fields.dstPort
            && d.fields.seqNo == p.fields.seqNo && d.fields.ackNo == p.fields.ackNo
  {
    hide Load16, Ntohs, Load32, Ntohl, Dotted;
  }

  // ----- the whole packet -----

  /** Only IPv4 frames are decoded: the IP step from byte 14 on, over the raw bytes with 12 and 13
      exchanged. Nothing but that exchange happens to any other frame. */
  lemma DecodedIs(p: Packet)
    requires Complete(p.src)
    ensures var q := p.(src := p.src[12 := p.src[13]][13 := p.src[12]]);
            if IsIpv4(p.src) then HeadersFrom(q.src, 14) && Decoded(p) == IpDecoded(q, 14) else Decoded(p) == q
  {
    LoadBounds(p.src, 12);
    SwapChangesTwoBytes(p.src);
    var b := p.src;
    assert SwapType(b) == b[12 := b[13]][13 := b[12]];
    hide Load16, Ntohs, SwapType, IpDecoded;
  }

  /** A captured packet is passed on exactly when it is IPv4 and empty packets are wanted or it is
      TCP or UDP with a payload. */
  lemma AcceptedIff(p: Packet, useNull: bool)
    requires Complete(p.src) && p.anal == []
    ensures Accepted(p, useNull) <==> IsIpv4(p.src) && (useNull || CarriesPayload(p.src))
  {
    LoadBounds(p.src, 12);
    DecodedIs(p);
    if IsIpv4(p.src) {
      var b := p.src;
      var q := p.(src := b[12 := b[13]][13 := b[12]]);
      if b[23] == 6 { TcpStepReports(q, 14); }
      else if b[23] == 17 { UdpStepReports(q, 14); }
      else { OtherStepReports(q, 14); }
    }
    hide Load16, Ntohs, Decoded, IpDecoded;
  }

  /** The addresses reported for a frame are those it was sent with. */
  lemma SentAddressesAreReported(f: Frame, tmSec: int, tmUsec: int)
    requires WellFormed(f)
    ensures var p := Packet(Encode(f), [], NO_FIELDS.(tmSec := tmSec, tmUsec := tmUsec));
            && Complete(p.src)
            && AddressText(Decoded(p).fields.srcIp, f.src) && AddressText(Decoded(p).fields.dstIp, f.dst)
  {
    DecodeInvertsEncode(f, tmSec, tmUsec);
    DottedReads(f.src);
    DottedReads(f.dst);
    hide Encode, Decoded, Complete, Dotted, AddressText;
  }
}
