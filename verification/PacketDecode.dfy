/** What decoding means on values: the frame layout as a writer lays it out, and the fields a
    little-endian host reads back through its header structures. */
module PacketDecode {
  import opened Base
  import opened PacketContent

  // ----- host loads and stores -----

  /** A 16-bit field as the host loads it, low byte first. */
  function Load16(b: seq<Byte>, i: nat): nat
    requires i + 2 <= |b|
  {
    b[i] as int + b[i + 1] as int * 0x100
  }

  function Load32(b: seq<Byte>, i: nat): nat
    requires i + 4 <= |b|
  {
    Load16(b, i) + 0x1_0000 * Load16(b, i + 2)
  }

  function Store16(b: seq<Byte>, i: nat, w: nat): seq<Byte>
    requires i + 2 <= |b| && w < 0x1_0000
  {
    b[i := w % 0x100][i + 1 := w / 0x100]
  }

  function Ntohs(w: nat): nat
    requires w < 0x1_0000
  {
    w % 0x100 * 0x100 + w / 0x100
  }

  function Ntohl(d: nat): nat
    requires d < 0x1_0000_0000
  {
    Ntohs(d % 0x1_0000) * 0x1_0000 + Ntohs(d / 0x1_0000)
  }

  /** `a - b` in a 32-bit unsigned field, and its reading as an `int`. */
  function Sub32(a: int, b: int): nat {
    (a - b) % 0x1_0000_0000
  }

  function ToInt(d: nat): int
    requires d < 0x1_0000_0000
  {
    if d < 0x8000_0000 then d else d - 0x1_0000_0000
  }

  /** `inet_ntoa`. */
  function Dotted(a: seq<Byte>): string
    requires |a| == 4
  {
    Digits(a[0]) + "." + Digits(a[1]) + "." + Digits(a[2]) + "." + Digits(a[3])
  }

  /** A dotted address and its terminator fit the 16-byte arrays they are copied into. */
  lemma DottedFits(a: seq<Byte>)
    requires |a| == 4
    ensures |Dotted(a)| + 1 <= 16
  {
    assert Pow10(3) == 1000;
    DigitsLength(a[0], 3);
    DigitsLength(a[1], 3);
    DigitsLength(a[2], 3);
    DigitsLength(a[3], 3);
  }

  // ----- the decoders as functions -----

  const ETH_HEADER_LEN := 14
  const IP_HEADER_LEN := 20
  const TCP_HEADER_LEN := 20
  const UDP_HEADER_LEN := 8

  /** The headers the worker reads are there: the source reads them without looking at lengths. */
  predicate Complete(b: seq<Byte>) {
    && ETH_HEADER_LEN <= |b| < 0x1_0000_0000
    && (Ntohs(Load16(b, 12)) == 0x0800 ==> HeadersFrom(b, 14))
  }

  /** What the IP step reports from a header at `at`. */
  function IpFields(f: Fields, b: seq<Byte>, at: nat): Fields
    requires |b| >= at + IP_HEADER_LEN
  {
    f.(ipId := Ntohs(Load16(b, at + 4)), ipOffset := Ntohs(Load16(b, at + 6)) % 0x2000,
       ipSrc := b[at + 12..at + 16], ipDst := b[at + 16..at + 20],
       srcIp := Dotted(b[at + 12..at + 16]), dstIp := Dotted(b[at + 16..at + 20]))
  }

  function TcpFields(f: Fields, b: seq<Byte>, at: nat): Fields
    requires |b| >= at + TCP_HEADER_LEN
  {
    f.(protype := TCP, srcPort := Ntohs(Load16(b, at)), dstPort := Ntohs(Load16(b, at + 2)),
       seqNo := Ntohl(Load32(b, at + 4)), ackNo := Ntohl(Load32(b, at + 8)))
  }

  function UdpFields(f: Fields, b: seq<Byte>, at: nat): Fields
    requires |b| >= at + UDP_HEADER_LEN
  {
    f.(protype := UDP, srcPort := Ntohs(Load16(b, at)), dstPort := Ntohs(Load16(b, at + 2)))
  }

  /** The headers from `at` on that the IP step will read are there. */
  predicate HeadersFrom(b: seq<Byte>, at: nat) {
    && at + IP_HEADER_LEN <= |b| < 0x1_0000_0000
    && (b[at + 9] == 6 ==> at + IP_HEADER_LEN + TCP_HEADER_LEN <= |b|)
    && (b[at + 9] == 17 ==> at + IP_HEADER_LEN + UDP_HEADER_LEN <= |b|)
  }

  /** What the header's protocol leads to: ports and payload, or nothing. */
  function Dispatched(p: Packet, at: nat): Packet
    requires HeadersFrom(p.src, at)
  {
    var b := p.src;
    if b[at + 9] == 17 then Packet(b, b[at + 28..], UdpFields(p.fields, b, at + 20))
    else if b[at + 9] == 6 then Packet(b, b[at + 40..], TcpFields(p.fields, b, at + 20))
    else p
  }

  /** The whole IP step on a packet whose IP header starts at `at`. */
  function IpDecoded(p: Packet, at: nat): Packet
    requires HeadersFrom(p.src, at)
  {
    Dispatched(p.(fields := IpFields(p.fields, p.src, at)), at)
  }

  /** The worker's first write: the EtherType in host order. */
  function SwapType(b: seq<Byte>): seq<Byte>
    requires |b| >= ETH_HEADER_LEN
  {
    Store16(b, 12, Ntohs(Load16(b, 12)))
  }

  /** A captured packet after the worker's decoding. */
  function Decoded(p: Packet): Packet
    requires Complete(p.src)
  {
    var q := p.(src := SwapType(p.src));
    if Ntohs(Load16(p.src, 12)) == 0x0800 then IpDecoded(q, 14) else q
  }

  /** Whether the worker passes the decoded packet on. */
  predicate Accepted(p: Packet, useNull: bool)
    requires Complete(p.src)
  {
    Ntohs(Load16(p.src, 12)) == 0x0800 && (useNull || |Decoded(p).anal| != 0)
  }

  /** What the worker adds to an output ring of the given length with that many packets waiting. */
  function PassedOn(p: Packet, useNull: bool, waiting: nat, length: int): seq<Packet>
    requires Complete(p.src)
  {
    if Accepted(p, useNull) && waiting < length then [Decoded(p)] else []
  }

  // ----- the frame as its sender lays it out -----

  type Word = x: int | 0 <= x < 0x1_0000
  type DWord = x: int | 0 <= x < 0x1_0000_0000

  datatype Transport =
    | TcpSegment(srcPort: Word, dstPort: Word, seqNo: DWord, ackNo: DWord, reserved: int, flags: Byte,
                 window: Word, sum: Word, urgent: Word)
    | UdpDatagram(srcPort: Word, dstPort: Word, sum: Word)

  /** An Ethernet frame with an option-free IPv4 header (section 3.1 of RFC 791) around an
      option-free TCP header (section 3.1 of RFC 793) or a UDP header (RFC 768). */
  datatype Frame = Frame(
    macs: seq<Byte>, tos: Byte, id: Word, flags: int, offset: int, ttl: Byte, sum: Word,
    src: seq<Byte>, dst: seq<Byte>, l4: Transport, payload: seq<Byte>)

  function Header4Len(t: Transport): nat {
    if t.TcpSegment? then TCP_HEADER_LEN else UDP_HEADER_LEN
  }

  predicate WellFormed(f: Frame) {
    && |f.macs| == 12 && |f.src| == 4 && |f.dst| == 4 && 0 <= f.flags < 8 && 0 <= f.offset < 0x2000
    && IP_HEADER_LEN + Header4Len(f.l4) + |f.payload| < 0x1_0000
    && (f.l4.TcpSegment? ==> 0 <= f.l4.reserved < 16)
  }

  /** Network byte order. */
  function Net16(w: Word): seq<Byte> {
    [w / 0x100, w % 0x100]
  }

  function Net32(d: DWord): seq<Byte> {
    Net16(d / 0x1_0000) + Net16(d % 0x1_0000)
  }

  function EncodeTransport(t: Transport, payloadLen: nat): seq<Byte>
    requires payloadLen + 8 < 0x1_0000 && (t.TcpSegment? ==> 0 <= t.reserved < 16)
  {
    match t
    case TcpSegment(sp, dp, sn, an, reserved, flags, window, sum, urgent) =>
      Net16(sp) + Net16(dp) + Net32(sn) + Net32(an) + [0x50 + reserved, flags]
      + Net16(window) + Net16(sum) + Net16(urgent)
    case UdpDatagram(sp, dp, sum) =>
      Net16(sp) + Net16(dp) + Net16(8 + payloadLen) + Net16(sum)
  }

  function EncodeIp(f: Frame): seq<Byte>
    requires WellFormed(f)
  {
    [0x45, f.tos] + Net16(IP_HEADER_LEN + Header4Len(f.l4) + |f.payload|) + Net16(f.id)
    + Net16(f.flags * 0x2000 + f.offset) + [f.ttl, if f.l4.TcpSegment? then 6 else 17] + Net16(f.sum)
    + f.src + f.dst
  }

  function Encode(f: Frame): seq<Byte>
    requires WellFormed(f)
  {
    f.macs + [8, 0] + EncodeIp(f) + EncodeTransport(f.l4, |f.payload|) + f.payload
  }

  /** The fields a decoder should report for a frame. */
  function Reported(f: Frame, tmSec: int, tmUsec: int): Fields
    requires WellFormed(f)
  {
    NO_FIELDS.(tmSec := tmSec, tmUsec := tmUsec, ipId := f.id, ipOffset := f.offset,
              ipSrc := f.src, ipDst := f.dst, srcIp := Dotted(f.src), dstIp := Dotted(f.dst),
              srcPort := f.l4.srcPort, dstPort := f.l4.dstPort,
              protype := if f.l4.TcpSegment? then TCP else UDP,
              seqNo := if f.l4.TcpSegment? then f.l4.seqNo else 0,
              ackNo := if f.l4.TcpSegment? then f.l4.ackNo else 0)
  }

  // ----- reading back -----

  lemma ReadWord(b: seq<Byte>, i: nat, w: Word)
    requires i + 2 <= |b| && b[i..i + 2] == Net16(w)
    ensures Ntohs(Load16(b, i)) == w
  {
    assert b[i] == b[i..i + 2][0] && b[i + 1] == b[i..i + 2][1];
  }

  lemma HostHalves(lo: Word, hi: Word)
    ensures (lo + 0x1_0000 * hi) % 0x1_0000 == lo && (lo + 0x1_0000 * hi) / 0x1_0000 == hi
  {}

  /** `ntohl` of a loaded field reads its halves in network order. */
  lemma NtohlReads(b: seq<Byte>, i: nat)
    requires i + 4 <= |b|
    ensures Ntohl(Load32(b, i)) == Ntohs(Load16(b, i)) * 0x1_0000 + Ntohs(Load16(b, i + 2))
  {
    LoadBounds(b, i);
    LoadBounds(b, i + 2);
    hide Load16, Ntohs;
    HostHalves(Load16(b, i), Load16(b, i + 2));
  }

  lemma ReadDWord(b: seq<Byte>, i: nat, d: DWord)
    requires i + 4 <= |b| && b[i..i + 4] == Net32(d)
    ensures Ntohl(Load32(b, i)) == d
  {
    var hi, lo := d / 0x1_0000, d % 0x1_0000;
    assert Net32(d) == Net16(hi) + Net16(lo);
    assert |Net16(hi)| == 2;
    NtohlReads(b, i);
    hide *;
    assert b[i..i + 2] == b[i..i + 4][..2];
    assert b[i + 2..i + 4] == b[i..i + 4][2..];
    ReadWord(b, i, hi);
    ReadWord(b, i + 2, lo);
  }

  lemma LoadBounds(b: seq<Byte>, i: nat)
    requires i + 2 <= |b|
    ensures Load16(b, i) < 0x1_0000 && Ntohs(Load16(b, i)) == b[i] as int * 0x100 + b[i + 1] as int
  {}

  /** The EtherType swap touches its own two bytes only, and undoes itself. */
  lemma SwapChangesTwoBytes(b: seq<Byte>)
    requires |b| >= ETH_HEADER_LEN
    ensures |SwapType(b)| == |b| && SwapType(b)[12] == b[13] && SwapType(b)[13] == b[12]
    ensures SwapType(b)[..12] == b[..12] && SwapType(b)[14..] == b[14..]
    ensures SwapType(SwapType(b)) == b
  {
    var w := Ntohs(Load16(b, 12));
    LoadBounds(b, 12);
    assert w % 0x100 == b[13] && w / 0x100 == b[12];
    var c := SwapType(b);
    LoadBounds(c, 12);
    assert SwapType(c) == b;
  }

  // ----- decoding inverts encoding -----

  lemma FieldsOfIp(f: Frame)
    requires WellFormed(f)
    ensures var b := EncodeIp(f);
            && |b| == 20 && b[4..6] == Net16(f.id) && b[6..8] == Net16(f.flags * 0x2000 + f.offset)
            && b[9] == (if f.l4.TcpSegment? then 6 else 17) && b[12..16] == f.src && b[16..20] == f.dst
  {}

  lemma FieldsOfTransport(t: Transport, n: nat)
    requires n + 8 < 0x1_0000 && (t.TcpSegment? ==> 0 <= t.reserved < 16)
    ensures var b := EncodeTransport(t, n);
            && |b| == Header4Len(t) && b[0..2] == Net16(t.srcPort) && b[2..4] == Net16(t.dstPort)
            && (t.TcpSegment? ==> b[4..8] == Net32(t.seqNo) && b[8..12] == Net32(t.ackNo))
  {}

  lemma SubSlice(b: seq<Byte>, i: nat, part: seq<Byte>, k: nat, l: nat)
    requires i + |part| <= |b| && b[i..i + |part|] == part && k <= l <= |part|
    ensures b[i + k..i + l] == part[k..l]
  {
    forall m | 0 <= m < l - k ensures b[i + k..i + l][m] == part[k..l][m] {
      assert b[i..i + |part|][k + m] == b[i + k + m];
    }
  }

  lemma FrameAfterSwap(f: Frame, pad: seq<Byte>)
    requires WellFormed(f)
    ensures var b := Encode(f) + pad;
            && |b| >= ETH_HEADER_LEN && Ntohs(Load16(b, 12)) == 0x0800
            && SwapType(b)[14..] == EncodeIp(f) + EncodeTransport(f.l4, |f.payload|) + (f.payload + pad)
  {
    hide EncodeIp, EncodeTransport;
    var b := Encode(f) + pad;
    assert b[12] == 8 && b[13] == 0;
    assert b[14..] == EncodeIp(f) + EncodeTransport(f.l4, |f.payload|) + (f.payload + pad);
    hide Encode;
    SwapChangesTwoBytes(b);
  }

  /** The parts of a frame at their offsets, after the EtherType swap; what pads the frame lies
      behind the payload. */
  lemma PartsOfFrame(f: Frame, pad: seq<Byte>)
    requires WellFormed(f)
    ensures var b := Encode(f) + pad;
            && |b| == 34 + Header4Len(f.l4) + |f.payload + pad| && Ntohs(Load16(b, 12)) == 0x0800
            && SwapType(b)[14..34] == EncodeIp(f)
            && SwapType(b)[34..34 + Header4Len(f.l4)] == EncodeTransport(f.l4, |f.payload|)
            && SwapType(b)[34 + Header4Len(f.l4)..] == f.payload + pad
  {
    FieldsOfIp(f);
    FieldsOfTransport(f.l4, |f.payload|);
    FrameAfterSwap(f, pad);
    hide EncodeIp, EncodeTransport, Encode, Load16, Ntohs;
    ThreeParts(SwapType(Encode(f) + pad), 14, EncodeIp(f), EncodeTransport(f.l4, |f.payload|), f.payload + pad);
  }

  lemma ThreeParts(s: seq<Byte>, at: nat, p: seq<Byte>, q: seq<Byte>, r: seq<Byte>)
    requires at <= |s| && s[at..] == p + q + r
    ensures |s| == at + |p| + |q| + |r|
    ensures s[at..at + |p|] == p && s[at + |p|..at + |p| + |q|] == q && s[at + |p| + |q|..] == r
  {
    assert s[at..][..|p|] == p;
    assert s[at..][|p|..|p| + |q|] == q;
    assert s[at..][|p| + |q|..] == r;
  }

  /** Masking drops the three flags. */
  lemma MaskedOffset(flags: int, offset: int)
    requires 0 <= flags < 8 && 0 <= offset < 0x2000
    ensures 0 <= flags * 0x2000 + offset < 0x1_0000 && (flags * 0x2000 + offset) % 0x2000 == offset
  {}

  lemma IpWordsDecode(s: seq<Byte>, f: Frame)
    requires WellFormed(f) && |s| >= 34 && s[14..34] == EncodeIp(f)
    ensures Ntohs(Load16(s, 18)) == f.id && Ntohs(Load16(s, 20)) == f.flags * 0x2000 + f.offset
  {
    FieldsOfIp(f);
    var ip := EncodeIp(f);
    hide EncodeIp, Net16, Load16, Ntohs;
    SubSlice(s, 14, ip, 4, 6);
    ReadWord(s, 18, f.id);
    SubSlice(s, 14, ip, 6, 8);
    MaskedOffset(f.flags, f.offset);
    ReadWord(s, 20, f.flags * 0x2000 + f.offset);
  }

  lemma IpPartDecodes(s: seq<Byte>, f: Frame, g: Fields)
    requires WellFormed(f) && |s| >= 34 && s[14..34] == EncodeIp(f)
    ensures IpFields(g, s, 14) == g.(ipId := f.id, ipOffset := f.offset, ipSrc := f.src, ipDst := f.dst,
                                 srcIp := Dotted(f.src), dstIp := Dotted(f.dst))
    ensures s[23] == if f.l4.TcpSegment? then 6 else 17
  {
    FieldsOfIp(f);
    var ip := EncodeIp(f);
    MaskedOffset(f.flags, f.offset);
    IpWordsDecode(s, f);
    hide EncodeIp, Net16, Load16, Ntohs, Dotted;
    SubSlice(s, 14, ip, 12, 16);
    SubSlice(s, 14, ip, 16, 20);
    assert s[23] == s[14..34][9];
  }

  lemma TransportPartDecodes(s: seq<Byte>, t: Transport, n: nat, g: Fields)
    requires n + 8 < 0x1_0000 && (t.TcpSegment? ==> 0 <= t.reserved < 16) && |s| >= 34 + Header4Len(t)
    requires s[34..34 + Header4Len(t)] == EncodeTransport(t, n)
    ensures if t.TcpSegment? then
              TcpFields(g, s, 34) == g.(protype := TCP, srcPort := t.srcPort, dstPort := t.dstPort,
                                    seqNo := t.seqNo, ackNo := t.ackNo)
            else UdpFields(g, s, 34) == g.(protype := UDP, srcPort := t.srcPort, dstPort := t.dstPort)
  {
    FieldsOfTransport(t, n);
    var h := EncodeTransport(t, n);
    hide EncodeTransport, Net16, Net32;
    SubSlice(s, 34, h, 0, 2);
    ReadWord(s, 34, t.srcPort);
    SubSlice(s, 34, h, 2, 4);
    ReadWord(s, 36, t.dstPort);
    if t.TcpSegment? {
      SubSlice(s, 34, h, 4, 8);
      ReadDWord(s, 38, t.seqNo);
      SubSlice(s, 34, h, 8, 12);
      ReadDWord(s, 42, t.ackNo);
    }
  }

  lemma IpStepDecodes(s: seq<Byte>, f: Frame, rest: seq<Byte>, tmSec: int, tmUsec: int)
    requires WellFormed(f) && 34 + Header4Len(f.l4) <= |s| < 0x1_0000_0000 && s[14..34] == EncodeIp(f)
    requires s[34..34 + Header4Len(f.l4)] == EncodeTransport(f.l4, |f.payload|)
    requires s[34 + Header4Len(f.l4)..] == rest
    ensures s[23] == if f.l4.TcpSegment? then 6 else 17
    ensures IpDecoded(Packet(s, [], NO_FIELDS.(tmSec := tmSec, tmUsec := tmUsec)), 14)
            == Packet(s, rest, Reported(f, tmSec, tmUsec))
  {
    hide EncodeIp, EncodeTransport, IpFields, TcpFields, UdpFields, Dotted;
    var g := NO_FIELDS.(tmSec := tmSec, tmUsec := tmUsec);
    IpPartDecodes(s, f, g);
    TransportPartDecodes(s, f.l4, |f.payload|, IpFields(g, s, 14));
  }

  lemma CompleteWhen(f: Frame, b: seq<Byte>)
    requires WellFormed(f) && 34 + Header4Len(f.l4) <= |b| < 0x1_0000_0000
    requires b[23] == if f.l4.TcpSegment? then 6 else 17
    ensures Complete(b)
  {}

  lemma DecodedByIp(p: Packet)
    requires Complete(p.src) && Ntohs(Load16(p.src, 12)) == 0x0800
    ensures Decoded(p) == IpDecoded(Packet(SwapType(p.src), p.anal, p.fields), 14)
  {}

  /** Whatever pads a frame on the wire is taken for payload: no length field is looked at. */
  lemma PaddingBecomesPayload(f: Frame, pad: seq<Byte>, tmSec: int, tmUsec: int)
    requires WellFormed(f) && |Encode(f) + pad| < 0x1_0000_0000
    ensures var b := Encode(f) + pad;
            && Complete(b)
            && Decoded(Packet(b, [], NO_FIELDS.(tmSec := tmSec, tmUsec := tmUsec)))
               == Packet(SwapType(b), f.payload + pad, Reported(f, tmSec, tmUsec))
  {
    var b := Encode(f) + pad;
    var s := SwapType(b);
    PartsOfFrame(f, pad);
    SwapChangesTwoBytes(b);
    hide *;
    assert b[23] == b[14..][9] == s[14..][9] == s[23];
    IpStepDecodes(s, f, f.payload + pad, tmSec, tmUsec);
    CompleteWhen(f, b);
    DecodedByIp(Packet(b, [], NO_FIELDS.(tmSec := tmSec, tmUsec := tmUsec)));
  }

  /** The payload reported is the one sent if and only if the frame is not padded. */
  lemma PayloadIsExactIff(f: Frame, pad: seq<Byte>, tmSec: int, tmUsec: int)
    requires WellFormed(f) && |Encode(f) + pad| < 0x1_0000_0000
    ensures var p := Packet(Encode(f) + pad, [], NO_FIELDS.(tmSec := tmSec, tmUsec := tmUsec));
            Complete(p.src) && (Decoded(p).anal == f.payload <==> pad == [])
  {
    PaddingBecomesPayload(f, pad, tmSec, tmUsec);
    hide *;
    assert |f.payload + pad| == |f.payload| + |pad|;
  }

  /** Decoding a captured frame reports every encoded field and exactly the payload; the raw bytes
      change in the EtherType only, and the lengths add up. */
  lemma DecodeInvertsEncode(f: Frame, tmSec: int, tmUsec: int)
    requires WellFormed(f)
    ensures var b := Encode(f);
            && Complete(b)
            && Decoded(Packet(b, [], NO_FIELDS.(tmSec := tmSec, tmUsec := tmUsec)))
               == Packet(SwapType(b), f.payload, Reported(f, tmSec, tmUsec))
            && |f.payload| + 34 + (if f.l4.TcpSegment? then 20 else 8) == |b|
  {
    PartsOfFrame(f, []);
    assert Encode(f) + [] == Encode(f) && f.payload + [] == f.payload;
    hide Encode, Decoded, Complete, Reported, SwapType;
    PaddingBecomesPayload(f, [], tmSec, tmUsec);
  }

  /** A packet is passed on exactly when its frame carries a payload or empty ones are wanted. */
  lemma FrameAcceptedWhen(f: Frame, tmSec: int, tmUsec: int, useNull: bool)
    requires WellFormed(f)
    ensures var p := Packet(Encode(f), [], NO_FIELDS.(tmSec := tmSec, tmUsec := tmUsec));
            Complete(p.src) && (Accepted(p, useNull) <==> useNull || f.payload != [])
  {
    DecodeInvertsEncode(f, tmSec, tmUsec);
    PartsOfFrame(f, []);
    assert Encode(f) + [] == Encode(f);
    hide Encode, Decoded, Complete, Reported, SwapType;
  }

  // ----- every frame of this shape is an encoded one -----

  /** The bytes of an IPv4 frame without options or padding that carries TCP without options, or
      UDP. */
  predicate IsFrame(b: seq<Byte>) {
    && 42 <= |b| < 14 + 0x1_0000 && b[12..14] == [8, 0] && b[14] == 0x45
    && Ntohs(Load16(b, 16)) == |b| - 14
    && if b[23] == 6 then |b| >= 54 && b[46] / 16 == 5
       else b[23] == 17 && Ntohs(Load16(b, 38)) == |b| - 34
  }

  function Word16(b: seq<Byte>, i: nat): Word
    requires i + 2 <= |b|
  {
    b[i] as int * 0x100 + b[i + 1] as int
  }

  function Word32(b: seq<Byte>, i: nat): DWord
    requires i + 4 <= |b|
  {
    Word16(b, i) as int * 0x1_0000 + Word16(b, i + 2) as int
  }

  function ParseTransport(b: seq<Byte>): Transport
    requires IsFrame(b)
  {
    if b[23] == 6 then
      TcpSegment(Word16(b, 34), Word16(b, 36), Word32(b, 38), Word32(b, 42), b[46] % 16, b[47],
                 Word16(b, 48), Word16(b, 50), Word16(b, 52))
    else UdpDatagram(Word16(b, 34), Word16(b, 36), Word16(b, 40))
  }

  function ParseFrame(b: seq<Byte>): Frame
    requires IsFrame(b)
  {
    var w := Word16(b, 20);
    Frame(b[..12], b[15], Word16(b, 18), w / 0x2000, w % 0x2000, b[22], Word16(b, 24),
          b[26..30], b[30..34], ParseTransport(b), b[if b[23] == 6 then 54 else 42..])
  }

  lemma WordBytes(b: seq<Byte>, i: nat)
    requires i + 2 <= |b|
    ensures Net16(Word16(b, i)) == b[i..i + 2] && Ntohs(Load16(b, i)) == Word16(b, i)
  {
    LoadBounds(b, i);
  }

  lemma DWordBytes(b: seq<Byte>, i: nat)
    requires i + 4 <= |b|
    ensures Net32(Word32(b, i)) == b[i..i + 4]
  {
    WordBytes(b, i);
    WordBytes(b, i + 2);
    assert b[i..i + 4] == b[i..i + 2] + b[i + 2..i + 4];
    assert Word32(b, i) / 0x1_0000 == Word16(b, i) && Word32(b, i) % 0x1_0000 == Word16(b, i + 2);
  }

  lemma ParseIsWellFormed(b: seq<Byte>)
    requires IsFrame(b)
    ensures WellFormed(ParseFrame(b))
    ensures ParseFrame(b).flags * 0x2000 + ParseFrame(b).offset == Word16(b, 20)
  {}

  lemma IpParts(b: seq<Byte>)
    requires |b| >= 34
    ensures b[14..34] == [b[14], b[15]] + b[16..18] + b[18..20] + b[20..22] + [b[22], b[23]] + b[24..26]
                         + b[26..30] + b[30..34]
  {}

  lemma IpBytes(b: seq<Byte>)
    requires IsFrame(b)
    ensures WellFormed(ParseFrame(b)) && EncodeIp(ParseFrame(b)) == b[14..34]
  {
    ParseIsWellFormed(b);
    WordBytes(b, 16);
    WordBytes(b, 18);
    WordBytes(b, 20);
    WordBytes(b, 24);
    IpParts(b);
    hide Word16, Net16, Ntohs, Load16;
  }

  lemma TcpParts(b: seq<Byte>, t: Transport, n: nat)
    requires |b| >= 54 && n + 8 < 0x1_0000 && t.TcpSegment? && 0 <= t.reserved < 16
    requires Net16(t.srcPort) == b[34..36] && Net16(t.dstPort) == b[36..38]
    requires Net32(t.seqNo) == b[38..42] && Net32(t.ackNo) == b[42..46]
    requires 0x50 + t.reserved == b[46] && t.flags == b[47]
    requires Net16(t.window) == b[48..50] && Net16(t.sum) == b[50..52] && Net16(t.urgent) == b[52..54]
    ensures EncodeTransport(t, n) == b[34..54]
  {
    hide Net16, Net32;
    assert b[34..54] == b[34..36] + b[36..38] + b[38..42] + b[42..46] + [b[46], b[47]]
                         + b[48..50] + b[50..52] + b[52..54];
  }

  lemma TcpBytes(b: seq<Byte>)
    requires IsFrame(b) && b[23] == 6
    ensures EncodeTransport(ParseTransport(b), |b| - 54) == b[34..54]
  {
    WordBytes(b, 34);
    WordBytes(b, 36);
    DWordBytes(b, 38);
    DWordBytes(b, 42);
    WordBytes(b, 48);
    WordBytes(b, 50);
    WordBytes(b, 52);
    assert 0x50 + b[46] % 16 == b[46];
    hide Word16, Word32, Net16, Net32, EncodeTransport, Ntohs, Load16;
    TcpParts(b, ParseTransport(b), |b| - 54);
  }

  lemma UdpBytes(b: seq<Byte>)
    requires IsFrame(b) && b[23] == 17
    ensures EncodeTransport(ParseTransport(b), |b| - 42) == b[34..42]
  {
    WordBytes(b, 34);
    WordBytes(b, 36);
    WordBytes(b, 38);
    WordBytes(b, 40);
    hide Word16, Net16, Ntohs, Load16;
    assert b[34..42] == b[34..36] + b[36..38] + b[38..40] + b[40..42];
  }

  /** So the round trip speaks of every such frame on the wire. */
  lemma EveryFrameIsEncoded(b: seq<Byte>)
    requires IsFrame(b)
    ensures WellFormed(ParseFrame(b)) && Encode(ParseFrame(b)) == b
  {
    var f := ParseFrame(b);
    var k := 34 + Header4Len(f.l4);
    IpBytes(b);
    if b[23] == 6 { TcpBytes(b); } else { UdpBytes(b); }
    hide EncodeIp, EncodeTransport, IsFrame;
    assert b == b[..12] + b[12..14] + b[14..34] + b[34..k] + b[k..];
  }
}
