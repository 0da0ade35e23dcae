/**
 The headers of `headers.p4`: their fields at the declared widths, and the words they
 travel as.  Sub-byte fields are packed most significant first.
 */
module Headers {
  import opened Bytes
  import opened Options

  const IPV4_DSCP_INT: U6 := 0x20
  const INT_TYPE_HOP_BY_HOP: U8 := 1
  const INT_VERSION: U4 := 1
  const INT_ALL_HEADER_LEN_BYTES := 12

  const ETHERTYPE_IPV4: U16 := 0x800
  const ETHERTYPE_REPORT: U16 := 0xffff
  const PROTOCOL_TCP: U8 := 0x6
  const PROTOCOL_UDP: U8 := 0x11

  datatype Ethernet = Ethernet(dstAddr: U48, srcAddr: U48, etherType: U16) {
    function Words(): (ws: seq<U32>)
      ensures |ws| == 3
    {
      [dstAddr / TWO16, Word2(dstAddr % TWO16, srcAddr / TWO32), srcAddr % TWO32]
    }

    function Encode(): (bs: seq<Byte>)
      ensures |bs| == 14
    {
      ToBytes(Words()) + [etherType / TWO8, etherType % TWO8]
    }

    static function Decode(bs: seq<Byte>): Ethernet
      requires |bs| == 14
    {
      var ws := ToWords(bs[..12]);
      Ethernet(ws[0] * TWO16 + Hi(ws[1]), Lo(ws[1]) * TWO32 + ws[2], bs[12] * TWO8 + bs[13])
    }
  }

  datatype Ipv4 = Ipv4(version: U4, ihl: U4, dscp: U6, ecn: U2, totalLen: U16,
                       id: U16, flags: U3, fragOffset: U13,
                       ttl: U8, protocol: U8, checksum: U16, srcAddr: U32, dstAddr: U32)
  {
    /** `version ++ ihl ++ dscp ++ ecn` */
    function FirstHalf(): U16 {
      (version * 16 + ihl) * TWO8 + dscp * 4 + ecn
    }

    function Words(): (ws: seq<U32>)
      ensures |ws| == 5
    {
      [Word2(FirstHalf(), totalLen),
       Word2(id, flags * 8192 + fragOffset),
       Word2(ttl * TWO8 + protocol, checksum),
       srcAddr,
       dstAddr]
    }

    static function OfWords(ws: seq<U32>): Ipv4
      requires |ws| == 5
    {
      Ipv4(Hi(ws[0]) / TWO8 / 16, Hi(ws[0]) / TWO8 % 16, Hi(ws[0]) % TWO8 / 4, Hi(ws[0]) % 4, Lo(ws[0]),
           Hi(ws[1]), Lo(ws[1]) / 8192, Lo(ws[1]) % 8192,
           Hi(ws[2]) / TWO8, Hi(ws[2]) % TWO8, Lo(ws[2]), ws[3], ws[4])
    }
  }

  datatype Udp = Udp(srcPort: U16, dstPort: U16, len: U16, csum: U16) {
    function Words(): (ws: seq<U32>)
      ensures |ws| == 2
    {
      [Word2(srcPort, dstPort), Word2(len, csum)]
    }

    static function OfWords(ws: seq<U32>): Udp
      requires |ws| == 2
    {
      Udp(Hi(ws[0]), Lo(ws[0]), Hi(ws[1]), Lo(ws[1]))
    }
  }

  /** The UDP header, if there is one, of a datagram grown by `n` bytes. */
  function GrowUdp(udp: Option<Udp>, n: nat): Option<Udp> {
    if udp.Some? then Some(udp.value.(len := Plus16(udp.value.len, n))) else None
  }

  datatype Tcp = Tcp(srcPort: U16, dstPort: U16, seqNum: U32, ackNum: U32,
                     dataOffset: U4, reserved: U3, flags: U9, winSize: U16, csum: U16, urgPoint: U16)
  {
    function Words(): (ws: seq<U32>)
      ensures |ws| == 5
    {
      [Word2(srcPort, dstPort), seqNum, ackNum,
       Word2(dataOffset * 4096 + reserved * 512 + flags, winSize),
       Word2(csum, urgPoint)]
    }

    static function OfWords(ws: seq<U32>): Tcp
      requires |ws| == 5
    {
      Tcp(Hi(ws[0]), Lo(ws[0]), ws[1], ws[2],
          Hi(ws[3]) / 4096, Hi(ws[3]) % 4096 / 512, Hi(ws[3]) % 512, Lo(ws[3]),
          Hi(ws[4]), Lo(ws[4]))
    }
  }

  datatype Shim = Shim(intType: U8, rsvd1: U8, len: U8, dscp: U6, rsvd3: U2) {
    function Words(): (ws: seq<U32>)
      ensures |ws| == 1
    {
      [Word4(intType, rsvd1, len, dscp * 4 + rsvd3)]
    }

    static function OfWords(ws: seq<U32>): Shim
      requires |ws| == 1
    {
      Shim(ByteOf(ws[0], 0), ByteOf(ws[0], 1), ByteOf(ws[0], 2), ByteOf(ws[0], 3) / 4, ByteOf(ws[0], 3) % 4)
    }
  }

  datatype IntHeader = IntHeader(ver: U4, rep: U2, c: U1, e: U1, m: U1, rsvd1: U7, rsvd2: U3,
                                 hopMetadataLen: U5, remainingHopCnt: U8, instructionMask: U16, seqNo: U16)
  {
    function Words(): (ws: seq<U32>)
      ensures |ws| == 2
    {
      [Word4(ver * 16 + rep * 4 + c * 2 + e, m * 128 + rsvd1, rsvd2 * 32 + hopMetadataLen, remainingHopCnt),
       Word2(instructionMask, seqNo)]
    }

    static function OfWords(ws: seq<U32>): IntHeader
      requires |ws| == 2
    {
      var a, b, c, d := ByteOf(ws[0], 0), ByteOf(ws[0], 1), ByteOf(ws[0], 2), ByteOf(ws[0], 3);
      IntHeader(a / 16, a % 16 / 4, a % 4 / 2, a % 2, b / 128, b % 128, c / 32, c % 32, d, Hi(ws[1]), Lo(ws[1]))
    }
  }

  /** `int_port_ids_t` */
  datatype PortIds = PortIds(ingress: U16, egress: U16) {
    function Words(): (ws: seq<U32>)
      ensures |ws| == 1
    {
      [Word2(ingress, egress)]
    }
  }

  /** The two halves of a 64-bit timestamp. */
  datatype Tstamp = Tstamp(h: U32, l: U32) {
    function Words(): (ws: seq<U32>)
      ensures |ws| == 2
    {
      [h, l]
    }

    function Value(): U64 {
      h * TWO32 + l
    }
  }

  /** `influx_t`, the header of a report to the collector. */
  datatype Influx = Influx(srcAddr: U32, dstAddr: U32, ingressPortId: U16, egressPortId: U16,
                           metaLen: U8, resv1: U3, hopMetaLen: U5, rsvd2: U16,
                           ndkTstamp: Tstamp, delay: Tstamp, seqNo: U32)
  {
    function Words(): (ws: seq<U32>)
      ensures |ws| == 9
    {
      [srcAddr, dstAddr, Word2(ingressPortId, egressPortId),
       Word2(metaLen * TWO8 + resv1 * 32 + hopMetaLen, rsvd2),
       ndkTstamp.h, ndkTstamp.l, delay.h, delay.l, seqNo]
    }
  }

  /**
   The header set.  `None` is an invalid header.  The node metadata headers that no action
   of the t4p4s program makes valid (hop latency, queue occupancy, level-2 ports, transmit
   utilisation) are never emitted and have no field here.
   */
  datatype HeaderSet = HeaderSet(
    ethernet: Option<Ethernet>,
    ipv4: Option<Ipv4>,
    udp: Option<Udp>,
    tcp: Option<Tcp>,
    shim: Option<Shim>,
    intHeader: Option<IntHeader>,
    switchId: Option<U32>,
    portIds: Option<PortIds>,
    ingressTs: Option<Tstamp>,
    egressTs: Option<Tstamp>,
    influx: Option<Influx>)

  const NO_HEADERS := HeaderSet(None, None, None, None, None, None, None, None, None, None, None)

  // ---------------------------------------------------------------------------
  // Every header survives the trip to words and back, both ways
  // ---------------------------------------------------------------------------

  lemma {:induction false} EthernetRoundTrip(e: Ethernet)
    ensures Ethernet.Decode(e.Encode()) == e
  {
    hide Word2, Hi, Lo;
    assert e.Encode()[..12] == ToBytes(e.Words());
    WordsSurviveTransport(e.Words());
    HalvesOfWord(e.dstAddr % TWO16, e.srcAddr / TWO32);
  }

  lemma {:induction false} EthernetExact(bs: seq<Byte>)
    requires |bs| == 14
    ensures Ethernet.Decode(bs).Encode() == bs
  {
    hide ToWords, ToBytes;
    var ws := ToWords(bs[..12]);
    BytesSurviveParsing(bs[..12]);
    MacWordsExact(ws[0], ws[1], ws[2]);
    assert Ethernet.Decode(bs).Words() == ws;
    assert bs == bs[..12] + [bs[12], bs[13]];
  }

  lemma {:induction false} MacWordsExact(a: U32, b: U32, c: U32)
    ensures var dst, src := a * TWO16 + Hi(b), Lo(b) * TWO32 + c;
            dst / TWO16 == a && Word2(dst % TWO16, src / TWO32) == b && src % TWO32 == c
  {}

  lemma {:induction false} Ipv4RoundTrip(h: Ipv4)
    ensures Ipv4.OfWords(h.Words()) == h
  {
    hide Word2, Hi, Lo, Ipv4.FirstHalf;
    HalvesOfWord(h.FirstHalf(), h.totalLen);
    HalvesOfWord(h.id, h.flags * 8192 + h.fragOffset);
    HalvesOfWord(h.ttl * TWO8 + h.protocol, h.checksum);
    FirstHalfSplits(h);
    PartsSplit(h);
  }

  lemma FirstHalfSplits(h: Ipv4)
    ensures var x := h.FirstHalf();
            x / TWO8 / 16 == h.version && x / TWO8 % 16 == h.ihl && x % TWO8 / 4 == h.dscp && x % 4 == h.ecn
  {}

  lemma PartsSplit(h: Ipv4)
    ensures var x, y := h.flags * 8192 + h.fragOffset, h.ttl * TWO8 + h.protocol;
            x / 8192 == h.flags && x % 8192 == h.fragOffset && y / TWO8 == h.ttl && y % TWO8 == h.protocol
  {}

  lemma {:induction false} Ipv4Exact(ws: seq<U32>)
    requires |ws| == 5
    ensures Ipv4.OfWords(ws).Words() == ws
  {
    hide Word2, Hi, Lo;
    WordOfItsHalves(ws[0]);
    WordOfItsHalves(ws[1]);
    WordOfItsHalves(ws[2]);
  }

  lemma {:induction false} UdpRoundTrip(h: Udp)
    ensures Udp.OfWords(h.Words()) == h
  {
    HalvesOfWord(h.srcPort, h.dstPort);
    HalvesOfWord(h.len, h.csum);
  }

  lemma {:induction false} UdpExact(ws: seq<U32>)
    requires |ws| == 2
    ensures Udp.OfWords(ws).Words() == ws
  {
    WordOfItsHalves(ws[0]);
    WordOfItsHalves(ws[1]);
  }

  lemma {:induction false} TcpRoundTrip(h: Tcp)
    ensures Tcp.OfWords(h.Words()) == h
  {
    hide Word2, Hi, Lo;
    HalvesOfWord(h.srcPort, h.dstPort);
    HalvesOfWord(h.dataOffset * 4096 + h.reserved * 512 + h.flags, h.winSize);
    HalvesOfWord(h.csum, h.urgPoint);
  }

  lemma {:induction false} TcpExact(ws: seq<U32>)
    requires |ws| == 5
    ensures Tcp.OfWords(ws).Words() == ws
  {
    hide Word2, Hi, Lo;
    WordOfItsHalves(ws[0]);
    WordOfItsHalves(ws[3]);
    WordOfItsHalves(ws[4]);
  }

  lemma {:induction false} ShimRoundTrip(h: Shim)
    ensures Shim.OfWords(h.Words()) == h
  {
    hide Word4, ByteOf;
    BytesOfWord(h.intType, h.rsvd1, h.len, h.dscp * 4 + h.rsvd3);
  }

  lemma {:induction false} ShimExact(ws: seq<U32>)
    requires |ws| == 1
    ensures Shim.OfWords(ws).Words() == ws
  {
    hide Word4, ByteOf;
    WordOfItsBytes(ws[0]);
  }

  lemma {:induction false} IntHeaderRoundTrip(h: IntHeader)
    ensures IntHeader.OfWords(h.Words()) == h
  {
    hide Word4, ByteOf, Word2, Hi, Lo;
    BytesOfWord(h.ver * 16 + h.rep * 4 + h.c * 2 + h.e, h.m * 128 + h.rsvd1,
                h.rsvd2 * 32 + h.hopMetadataLen, h.remainingHopCnt);
    HalvesOfWord(h.instructionMask, h.seqNo);
  }

  lemma {:induction false} IntHeaderExact(ws: seq<U32>)
    requires |ws| == 2
    ensures IntHeader.OfWords(ws).Words() == ws
  {
    hide Word4, ByteOf, Word2, Hi, Lo;
    WordOfItsBytes(ws[0]);
    WordOfItsHalves(ws[1]);
  }
}
