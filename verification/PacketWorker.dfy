/** The decoders and the worker loop's body on packet records and the output ring. */
module PacketWorker {
  import opened Base
  import opened PacketContent
  import opened PacketDecode
  import opened AcQueue
  import PB = PacketBytes

  const FAILURE := 0xffff
  const UNKNOWN := 0xff

  ghost function HeapOf(ac: AnalContent?): set<Allocator> {
    if ac == null then {} else {ac.heap}
  }

  /** A record whose raw buffer is `p`, with nothing analysed yet: the decoders overwrite the
      payload pointer without freeing it. */
  ghost predicate Fresh(ac: AnalContent)
    reads ac, ac.heap, ac.heap.records, ac.heap.live
  {
    ac.heap.Sound() && ac in ac.heap.records && ac.src != null && ac.anal == null && ac.analLen == 0
  }

  /** A copy of `len` bytes of the raw buffer becomes the payload. */
  method CopyPayload(ac: AnalContent, from: nat, len: nat)
    requires Fresh(ac) && from + len <= |ac.src.bytes|
    modifies ac`anal, ac`analLen, ac.heap`live
    ensures ac.heap.Sound() && ac.Value() == old(ac.Value()).(anal := ac.src.bytes[from..from + len])
    ensures ac.heap.records == old(ac.heap.records)
  {
    ac.analLen := len;
    ac.anal := ac.heap.Malloc(ac, ac.src.bytes[from..from + len]);
  }

  /** `CUdpProtoAnal::ProtocolAnalsis`. */
  method UdpProtocolAnalysis(ac: AnalContent?, at: nat, len: int) returns (ret: nat)
    requires ac != null ==> Fresh(ac) && at + UDP_HEADER_LEN + Sub32(len, UDP_HEADER_LEN) <= |ac.src.bytes|
    modifies ac, HeapOf(ac)
    ensures ret == if ac == null then 0xffff else 0
    ensures ac != null ==>
              && ac.heap.Sound() && ac.heap.records == old(ac.heap.records)
              && var p := old(ac.Value()); var from := at + UDP_HEADER_LEN;
                 ac.Value() == Packet(p.src, p.src[from..from + Sub32(len, UDP_HEADER_LEN)],
                                      UdpFields(p.fields, p.src, at))
  {
    if ac == null { return FAILURE; }
    var b := ac.src.bytes;
    CopyPayload(ac, at + UDP_HEADER_LEN, Sub32(len, UDP_HEADER_LEN));
    ac.fields := ac.fields.(protype := UDP, srcPort := Ntohs(Load16(b, at)), dstPort := Ntohs(Load16(b, at + 2)));
    return 0;
  }

  /** `CTcpProtoAnal::ProtocolAnalsis`. */
  method TcpProtocolAnalysis(ac: AnalContent?, at: nat, len: int) returns (ret: nat)
    requires ac != null ==> Fresh(ac) && at + TCP_HEADER_LEN + Sub32(len, TCP_HEADER_LEN) <= |ac.src.bytes|
    modifies ac, HeapOf(ac)
    ensures ret == if ac == null then 0xffff else 0
    ensures ac != null ==>
              && ac.heap.Sound() && ac.heap.records == old(ac.heap.records)
              && var p := old(ac.Value()); var from := at + TCP_HEADER_LEN;
                 ac.Value() == Packet(p.src, p.src[from..from + Sub32(len, TCP_HEADER_LEN)],
                                      TcpFields(p.fields, p.src, at))
  {
    if ac == null { return FAILURE; }
    var b := ac.src.bytes;
    CopyPayload(ac, at + TCP_HEADER_LEN, Sub32(len, TCP_HEADER_LEN));
    ac.fields := ac.fields.(
      protype := TCP, srcPort := Ntohs(Load16(b, at)), dstPort := Ntohs(Load16(b, at + 2)),
      seqNo := Ntohl(Load32(b, at + 4)), ackNo := Ntohl(Load32(b, at + 8)));
    return 0;
  }

  /** Lengths pass through `int` parameters and unsigned differences unharmed while the headers
      are there. */
  lemma LengthLeft(n: nat, at: nat, header: nat)
    requires at + IP_HEADER_LEN + header <= n < 0x1_0000_0000
    ensures var rest := ToInt(Sub32(ToInt(Sub32(n, at)), IP_HEADER_LEN));
            Sub32(rest, header) == n - at - IP_HEADER_LEN - header
  {}

  method StoreIpFields(ac: AnalContent, at: nat)
    requires Fresh(ac) && at + IP_HEADER_LEN <= |ac.src.bytes|
    modifies ac`fields
    ensures Fresh(ac) && ac.Value() == old(ac.Value()).(fields := IpFields(old(ac.fields), ac.src.bytes, at))
  {
    var b := ac.src.bytes;
    ac.fields := ac.fields.(
      ipId := Ntohs(Load16(b, at + 4)), ipOffset := Ntohs(Load16(b, at + 6)) % 0x2000,
      ipSrc := b[at + 12..at + 16], srcIp := Dotted(b[at + 12..at + 16]),
      ipDst := b[at + 16..at + 20], dstIp := Dotted(b[at + 16..at + 20]));
  }

  /** The switch over the IP header's protocol. */
  method Dispatch(ac: AnalContent, at: nat, rest: int)
    requires Fresh(ac) && HeadersFrom(ac.src.bytes, at)
    requires rest == ToInt(Sub32(ToInt(Sub32(|ac.src.bytes|, at)), IP_HEADER_LEN))
    modifies ac, ac.heap
    ensures ac.heap.Sound() && ac.heap.records == old(ac.heap.records)
    ensures ac.Value() == Dispatched(old(ac.Value()), at)
  {
    var b := ac.src.bytes;
    hide Sub32, ToInt, UdpFields, TcpFields, Fresh;
    if b[at + 9] == 17 {
      LengthLeft(|b|, at, UDP_HEADER_LEN);
      var _ := UdpProtocolAnalysis(ac, at + IP_HEADER_LEN, rest);
    } else if b[at + 9] == 6 {
      LengthLeft(|b|, at, TCP_HEADER_LEN);
      var _ := TcpProtocolAnalysis(ac, at + IP_HEADER_LEN, rest);
    }
  }

  /** `CProtocolAnalysis::IpProtoAnal`; `content` is where the IP header starts, if not null. */
  method IpProtocolAnalysis(ac: AnalContent?, content: Option<nat>, len: int) returns (ret: nat)
    requires ac != null && content.Some? ==>
               Fresh(ac) && HeadersFrom(ac.src.bytes, content.value)
               && len == ToInt(Sub32(|ac.src.bytes|, content.value))
    modifies ac, HeapOf(ac)
    ensures ret == if ac == null || content == None then 0xffff else 0
    ensures ac != null && content == None ==> unchanged(ac) && unchanged(ac.heap)
    ensures ac != null && content.Some? ==>
              && ac.heap.Sound() && ac.heap.records == old(ac.heap.records)
              && ac.Value() == IpDecoded(old(ac.Value()), content.value)
              && var b, at := old(ac.src.bytes), content.value;
                 && PB.AddressText(ac.fields.srcIp, b[at + 12..at + 16])
                 && PB.AddressText(ac.fields.dstIp, b[at + 16..at + 20])
  {
    if ac == null { return FAILURE; }
    if content == None { return FAILURE; }
    PB.IpStepReports(ac.Value(), content.value);
    hide PB.AddressText, IpDecoded;
    StoreIpFields(ac, content.value);
    Dispatch(ac, content.value, ToInt(Sub32(len, IP_HEADER_LEN)));
    return 0;
  }

  // ----- the worker loop's body -----

  /** The record is the worker's own: nothing analysed yet, on the ring's heap, and no slot. */
  ghost predicate InHand(ac: AnalContent, out: CACQueue)
    reads ac, ac.heap, ac.heap.records, ac.heap.live
  {
    Fresh(ac) && ac.heap == out.heap && ac !in out.cells
  }

  /** The EtherType is brought into host order inside the raw buffer. */
  method SwapInPlace(ac: AnalContent, out: CACQueue)
    requires InHand(ac, out) && out.SlotsHold() && |ac.src.bytes| >= ETH_HEADER_LEN
    modifies ac.src
    ensures InHand(ac, out) && out.SlotsHold()
    ensures ac.Value() == old(ac.Value()).(src := SwapType(old(ac.src.bytes)))
  {
    var b := ac.src.bytes;
    ac.src.bytes := Store16(b, 12, Ntohs(Load16(b, 12)));
    assert forall r :: r in ac.heap.records ==> old(r.Valid());
    out.OutsideChange(ac);
  }

  /** The IP step, with the ring looked after. */
  method IpStep(ac: AnalContent, out: CACQueue) returns (ret: nat)
    requires InHand(ac, out) && out.SlotsHold() && HeadersFrom(ac.src.bytes, 14)
    modifies ac, ac.heap
    ensures ac.heap.Sound() && ac.heap.records == old(ac.heap.records) && out.SlotsHold()
    ensures ret == 0 && ac.Value() == IpDecoded(old(ac.Value()), 14)
  {
    ret := IpProtocolAnalysis(ac, Some(ETH_HEADER_LEN), ToInt(Sub32(ac.srcLen, ETH_HEADER_LEN)));
    out.OutsideChange(ac);
  }

  /** The worker's switch over the EtherType. */
  method Analyse(ac: AnalContent, out: CACQueue) returns (ret: nat)
    requires InHand(ac, out) && out.Valid() && Complete(ac.src.bytes)
    modifies ac, ac.src, ac.heap
    ensures ac in ac.heap.records && ac.heap.records == old(ac.heap.records) && out.Valid()
    ensures ac.Value() == Decoded(old(ac.Value()))
    ensures ret == if PB.IsIpv4(old(ac.src.bytes)) then 0 else 0xff
  {
    var kind := Ntohs(Load16(ac.src.bytes, 12));
    LoadBounds(ac.src.bytes, 12);
    SwapChangesTwoBytes(ac.src.bytes);
    SwapKeepsHeaders(ac.src.bytes);
    hide CACQueue.SlotsHold, HeadersFrom, IpDecoded, SwapType, Load16, Ntohs;
    SwapInPlace(ac, out);
    if kind == 0x0800 {
      ret := IpStep(ac, out);
    } else {
      ret := UNKNOWN;
    }
  }

  lemma SwapKeepsHeaders(b: seq<Byte>)
    requires |b| >= ETH_HEADER_LEN
    ensures |SwapType(b)| == |b| && (HeadersFrom(b, 14) ==> HeadersFrom(SwapType(b), 14))
  {}

  method Discard(ac: AnalContent, out: CACQueue)
    requires ac in out.heap.records && ac.heap == out.heap && ac !in out.cells && out.Valid()
    modifies ac.heap
    ensures out.Valid() && out.heap.records == old(out.heap.records) - {ac}
  {
    hide CACQueue.SlotsHold;
    Forget(ac, out);
  }

  method Forget(ac: AnalContent, out: CACQueue)
    requires ac in out.heap.records && ac.heap == out.heap && ac !in out.cells && out.SlotsHold()
    modifies ac.heap
    ensures out.SlotsHold() && out.heap.records == old(out.heap.records) - {ac}
  {
    ac.Destroy();
    out.OutsideChange(ac);
  }

  /** A copy of an accepted packet goes to the ring. */
  method Forward(ac: AnalContent, out: CACQueue, ret: nat, useNull: bool)
    requires ac in out.heap.records && ac.heap == out.heap && ac !in out.cells && out.Valid()
    modifies out, out.cells, out.heap`live
    ensures out.Valid()
    ensures out.Waiting() == old(out.Waiting())
              + if ret == 0 && (useNull || |old(ac.Value()).anal| != 0) && |old(out.Waiting())| < out.maxSize
                then [old(ac.Value())] else []
  {
    assert ac.analLen == |ac.Value().anal|;
    hide CACQueue.SlotsHold;
    if ret == 0 {
      if useNull {
        var _ := out.Push(ac);
      } else if ac.analLen != 0 {
        var _ := out.Push(ac);
      }
    }
  }

  /** One turn of the worker loop on the packet it popped: decode it in place, pass a copy on when
      it is accepted and the ring has room, and free it in any case. */
  method Deal(ac: AnalContent?, out: CACQueue, useNull: bool)
    requires out.Valid() && (ac != null ==> InHand(ac, out) && Complete(ac.src.bytes))
    modifies ac, if ac == null then {} else {ac.src}, out, out.cells, out.heap
    ensures out.Valid()
    ensures ac == null ==> out.Waiting() == old(out.Waiting()) && out.heap.records == old(out.heap.records)
    ensures ac != null ==>
              && out.heap.records == old(out.heap.records) - {ac}
              && out.Waiting() == old(out.Waiting())
                                  + PassedOn(old(ac.Value()), useNull, |old(out.Waiting())|, out.maxSize)
    ensures ac != null && !PB.IsIpv4(old(ac.src.bytes)) ==> out.Waiting() == old(out.Waiting())
    ensures ac != null ==>
              var b, waiting := old(ac.src.bytes), |old(out.Waiting())|;
              |out.Waiting()| == waiting
                + if PB.IsIpv4(b) && (useNull || PB.CarriesPayload(b)) && waiting < out.maxSize then 1 else 0
  {
    if ac == null { return; }
    LoadBounds(ac.src.bytes, 12);
    PB.AcceptedIff(ac.Value(), useNull);
    hide CACQueue.SlotsHold, Decoded, PB.CarriesPayload;
    var ret := Analyse(ac, out);
    Forward(ac, out, ret, useNull);
    Discard(ac, out);
  }
}
