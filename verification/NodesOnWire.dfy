/**
 What each kind of t4p4s node does to the bytes of a packet, without mention of headers: which
 bytes it changes and to what, which it inserts and where, and that it leaves all others alone.
 */
module NodesOnWire {
  import opened Bytes
  import opened Options
  import opened Headers
  import opened Checksum
  import opened Parser
  import opened Dataplane
  import opened Path
  import opened Layouts

  /** The packet as it is, with another IPv4 header checksum. */
  function WithChecksum(bs: seq<Byte>, checksum: U16): (r: seq<Byte>)
    requires |bs| >= 34
    ensures |r| == |bs|
  {
    Put16(bs, 24, checksum)
  }

  // ---------------------------------------------------------------------------
  // Packets a node leaves alone
  // ---------------------------------------------------------------------------

  /** Anything but UDP and TCP over IPv4 leaves any node, source and sink included, as it came. */
  lemma {:induction false} OtherTrafficPasses(hop: Hop, packet: seq<Byte>)
    requires Verdict(packet).None? && !IsL4(packet)
    ensures Process(hop.cfg, packet, hop.md, hop.seqNo) == Some(packet)
  {
    hide ParseEthernet, Verdict, EthernetAt, Ipv4At, Deparse;
    ParserReads(packet);
    DeparseUndoesParse(packet);
  }

  /** Taking two words out of a checksum and putting them back: only the wrong zero is mended. */
  lemma {:induction false} UpdatedAlone(checksum: U16, first: U16, totalLen: U16)
    ensures Updated(checksum, first, totalLen, first, totalLen) ==
            if checksum == 0xffff && first as int + totalLen > 0 then 0 else checksum
  {
    UpdatedResidue(checksum, first, totalLen, first, totalLen);
    if first == 0 && totalLen == 0 {
    } else {
      hide Updated;
      var x := Not16(Updated(checksum, first, totalLen, first, totalLen));
      assert Congruent(x, Not16(checksum));
    }
  }

  /** A node without a part in telemetry: neither source nor sink, and the packet carries none. */
  lemma {:induction false} PlainEffect(hop: Hop, h: HeaderSet)
    requires h.ipv4.Some? && (h.udp.Some? || h.tcp.Some?) && h.intHeader.None? && NothingAdded(h)
    requires !hop.cfg.srcEnable && !hop.cfg.sinkEnable
    ensures var ip := h.ipv4.value;
            Egress(Ingress(hop.cfg, h, hop.md, hop.seqNo), hop.md)
            == h.(ipv4 := Some(ip.(checksum := Updated(ip.checksum, ip.FirstHalf(), ip.totalLen,
                                                       ip.FirstHalf(), ip.totalLen))))
  {
    hide SubFrom, AddTo;
  }

  lemma FirstHalfAt(ip: Ipv4, bs: seq<Byte>, at: nat)
    requires Ipv4At(ip, bs, at)
    ensures ip.FirstHalf() == Be16(bs, at)
  {
    hide WordAt;
  }

  /**
   A UDP or TCP packet without telemetry passes a node that is neither source nor sink byte for
   byte, except that a checksum of 0xffff goes out as 0, the other form of the same value.
   */
  lemma {:induction false} PlainTrafficPasses(hop: Hop, packet: seq<Byte>)
    requires Verdict(packet).None? && IsL4(packet) && !IsMarked(packet)
    requires !hop.cfg.srcEnable && !hop.cfg.sinkEnable
    ensures Process(hop.cfg, packet, hop.md, hop.seqNo) ==
            Some(if Be16(packet, 24) == 0xffff && Be16(packet, 14) as int + Be16(packet, 16) > 0
                 then WithChecksum(packet, 0) else packet)
  {
    hide ParseEthernet, Verdict, Deparse, Ingress, Egress, EthernetAt, UdpAt, TcpAt, Updated, Ipv4.FirstHalf;
    ParserReads(packet);
    DeparseUndoesParse(packet);
    var p := ParseEthernet(packet);
    HeadersWritten(p.hdr, packet);
    var ip := p.hdr.ipv4.value;
    FirstHalfAt(ip, packet, 14);
    PlainEffect(hop, p.hdr);
    UpdatedAlone(ip.checksum, ip.FirstHalf(), ip.totalLen);
    assert Be16(packet, 24) == ip.checksum && Be16(packet, 16) == ip.totalLen;
    if Be16(packet, 24) == 0xffff && Be16(packet, 14) as int + Be16(packet, 16) > 0 {
      ChecksumReplaced(p.hdr, packet, 0);
    }
  }

  // A header is where it was if its bytes are as they were.

  lemma EthernetKept(e: Ethernet, a: seq<Byte>, b: seq<Byte>)
    requires EthernetAt(e, a, 0) && |b| >= 14 && a[..14] == b[..14]
    ensures EthernetAt(e, b, 0)
  {
    SameBytes(a, b, 0, 14);
  }

  lemma UdpKept(u: Udp, a: seq<Byte>, b: seq<Byte>, at: nat)
    requires UdpAt(u, a, at) && at + 8 <= |b| && a[at..at + 8] == b[at..at + 8]
    ensures UdpAt(u, b, at)
  {
    SameBytes(a, b, at, 8);
  }

  lemma TcpKept(t: Tcp, a: seq<Byte>, b: seq<Byte>, at: nat)
    requires TcpAt(t, a, at) && at + 20 <= |b| && a[at..at + 20] == b[at..at + 20]
    ensures TcpAt(t, b, at)
  {
    SameBytes(a, b, at, 20);
  }

  lemma ShimKept(s: Shim, a: seq<Byte>, b: seq<Byte>, at: nat)
    requires ShimAt(s, a, at) && at + 4 <= |b| && a[at..at + 4] == b[at..at + 4]
    ensures ShimAt(s, b, at)
  {
    SameBytes(a, b, at, 4);
  }

  lemma IntHeaderKept(i: IntHeader, a: seq<Byte>, b: seq<Byte>, at: nat)
    requires IntHeaderAt(i, a, at) && at + 8 <= |b| && a[at..at + 8] == b[at..at + 8]
    ensures IntHeaderAt(i, b, at)
  {
    SameBytes(a, b, at, 8);
  }

  lemma ChecksumAt(ip: Ipv4, packet: seq<Byte>, checksum: U16)
    requires Ipv4At(ip, packet, 14)
    ensures Ipv4At(ip.(checksum := checksum), WithChecksum(packet, checksum), 14)
  {}

  /** Headers with another checksum lie where those with the old one did. */
  lemma {:induction false} ChecksumReplacedAt(h: HeaderSet, packet: seq<Byte>, checksum: U16)
    requires HeadersAt(h, packet) && h.ipv4.Some?
    ensures HeadersAt(h.(ipv4 := Some(h.ipv4.value.(checksum := checksum))), WithChecksum(packet, checksum))
    ensures IsMarked(WithChecksum(packet, checksum)) == IsMarked(packet)
    ensures HeadersEnd(WithChecksum(packet, checksum)) == HeadersEnd(packet) >= 34
  {
    hide EthernetAt, Ipv4At, UdpAt, TcpAt, ShimAt, IntHeaderAt;
    Lengths(h, packet);
    var bs := WithChecksum(packet, checksum);
    ChecksumAt(h.ipv4.value, packet, checksum);
    EthernetKept(h.ethernet.value, packet, bs);
    if h.udp.Some? {
      assert UdpAt(h.udp.value, bs, 34) by { UdpKept(h.udp.value, packet, bs, 34); }
    }
    if h.tcp.Some? {
      assert TcpAt(h.tcp.value, bs, 34) by { TcpKept(h.tcp.value, packet, bs, 34); }
    }
    if h.shim.Some? {
      var at := L4End(packet);
      assert ShimAt(h.shim.value, bs, at) by { ShimKept(h.shim.value, packet, bs, at); }
      assert IntHeaderAt(h.intHeader.value, bs, at + 4) by {
        IntHeaderKept(h.intHeader.value, packet, bs, at + 4);
      }
    }
  }

  /** The packet is long enough for its headers. */
  lemma Lengths(h: HeaderSet, packet: seq<Byte>)
    requires HeadersAt(h, packet)
    ensures |packet| >= 14 && (h.ipv4.Some? ==> |packet| >= 34)
    ensures h.udp.Some? ==> |packet| >= 42
    ensures h.tcp.Some? ==> |packet| >= 54
    ensures h.shim.Some? ==> |packet| >= L4End(packet) + 12
  {}

  /** Headers with another checksum, written. */
  lemma {:induction false} ChecksumReplaced(h: HeaderSet, packet: seq<Byte>, checksum: U16)
    requires HeadersAt(h, packet) && h.ipv4.Some? && HeadersEnd(packet) <= |packet|
    ensures var h' := h.(ipv4 := Some(h.ipv4.value.(checksum := checksum)));
            Deparse(h') + packet[HeadersEnd(packet)..] == WithChecksum(packet, checksum)
  {
    hide HeadersEnd, Deparse, EmitParsed, HeadersAt, NothingAdded, WithChecksum;
    var h' := h.(ipv4 := Some(h.ipv4.value.(checksum := checksum)));
    AtLength(h, packet);
    var bs := WithChecksum(packet, checksum);
    ChecksumReplacedAt(h, packet, checksum);
    HeadersWritten(h', bs);
    AtNothingAdded(h', bs);
    NothingToAdd(h');
    ChecksumInFront(packet, checksum, HeadersEnd(packet));
  }

  lemma AtLength(h: HeaderSet, packet: seq<Byte>)
    requires HeadersAt(h, packet) && h.ipv4.Some?
    ensures |packet| >= 34
  {}

  lemma ChecksumInFront(packet: seq<Byte>, checksum: U16, end: nat)
    requires 34 <= end <= |packet|
    ensures var bs := WithChecksum(packet, checksum); bs[..end] + packet[end..] == bs
  {}

  lemma AtNothingAdded(h: HeaderSet, packet: seq<Byte>)
    requires HeadersAt(h, packet)
    ensures NothingAdded(h)
  {}

  // ---------------------------------------------------------------------------
  // A transit node
  // ---------------------------------------------------------------------------

  /** The 24 bytes a node inserts: switch, two ports, two 64-bit times, each in network order. */
  predicate MetadataAt(hop: Hop, bs: seq<Byte>, at: nat) {
    && at + 24 <= |bs|
    && WordAt(bs, at) == hop.cfg.switchId
    && Be16(bs, at + 4) == hop.md.ingressPort && Be16(bs, at + 6) == hop.md.egressPort
    && WordAt(bs, at + 8) == hop.md.ingressTs.h && WordAt(bs, at + 12) == hop.md.ingressTs.l
    && WordAt(bs, at + 16) == hop.md.egressTs.h && WordAt(bs, at + 20) == hop.md.egressTs.l
  }

  lemma {:induction false} MetadataReads(hop: Hop, bs: seq<Byte>, at: nat)
    requires at + 24 <= |bs| && bs[at..at + 24] == ToBytes(MetadataWords(hop))
    ensures MetadataAt(hop, bs, at)
  {
    hide ToBytes, WordAt, Be16, Hi, Lo, Word2;
    var ws := MetadataWords(hop);
    WordAtBytes(ws, 0, bs, at);
    WordAtBytes(ws, 1, bs, at);
    WordAtBytes(ws, 2, bs, at);
    WordAtBytes(ws, 3, bs, at);
    WordAtBytes(ws, 4, bs, at);
    WordAtBytes(ws, 5, bs, at);
    BytesAtWord(bs, at + 4);
    HalvesOfWord(hop.md.ingressPort, hop.md.egressPort);
  }

  /** The packet with `n` more in both its lengths. */
  function Longer(bs: seq<Byte>, n: nat): (r: seq<Byte>)
    requires |bs| >= 42
    ensures |r| == |bs|
  {
    var r := Put16(bs, 16, (Be16(bs, 16) + n) % 0x1_0000);
    if bs[23] == 17 then Put16(r, 38, (Be16(bs, 38) + n) % 0x1_0000) else r
  }

  /** The headers a transit node leaves, the IPv4 header checksum apart. */
  function AfterTransit(bs: seq<Byte>): (r: seq<Byte>)
    requires IsL4(bs) && |bs| >= L4End(bs) + 12
    ensures |r| == |bs|
  {
    var at := L4End(bs);
    Longer(bs, 24)[at + 2 := (bs[at + 2] + 6) % TWO8][at + 7 := (bs[at + 7] + 255) % TWO8]
  }

  lemma LongerIpv4(ip: Ipv4, bs: seq<Byte>, n: nat, b: seq<Byte>, checksum: U16)
    requires Ipv4At(ip, bs, 14) && |bs| >= 42
    requires |b| == |bs| && b[14..24] == Longer(bs, n)[14..24] && b[26..34] == Longer(bs, n)[26..34]
    requires Be16(b, 24) == checksum
    ensures Ipv4At(ip.(totalLen := Plus16(ip.totalLen, n), checksum := checksum), b, 14)
  {
    hide Word4;
    SameBytes(b, Longer(bs, n), 14, 10);
    SameBytes(b, Longer(bs, n), 26, 8);
  }

  lemma LongerUdp(u: Udp, bs: seq<Byte>, n: nat, b: seq<Byte>)
    requires UdpAt(u, bs, 34) && bs[23] == 17
    requires |b| == |bs| && b[34..42] == Longer(bs, n)[34..42]
    ensures UdpAt(u.(len := Plus16(u.len, n)), b, 34)
  {
    SameBytes(b, Longer(bs, n), 34, 8);
  }

  /** The headers `TransitEffect` gives, checksum apart. */
  function TransitHeaders(h: HeaderSet, checksum: U16): HeaderSet
    requires h.ipv4.Some? && h.shim.Some? && h.intHeader.Some?
  {
    var ip, shim, ih := h.ipv4.value, h.shim.value, h.intHeader.value;
    h.(ipv4 := Some(ip.(totalLen := Plus16(ip.totalLen, 24), checksum := checksum)),
       udp := if h.udp.Some? then Some(h.udp.value.(len := Plus16(h.udp.value.len, 24))) else None,
       shim := Some(shim.(len := (shim.len + 6) % TWO8)),
       intHeader := Some(ih.(remainingHopCnt := (ih.remainingHopCnt + 255) % TWO8)))
  }

  /** What a transit node leaves of each header's bytes. */
  lemma TransitSlices(packet: seq<Byte>, checksum: U16)
    requires IsL4(packet) && |packet| >= L4End(packet) + 12
    ensures var b, at := WithChecksum(AfterTransit(packet), checksum), L4End(packet);
            && |b| == |packet| && b[..14] == packet[..14] && Be16(b, 24) == checksum
            && b[14..24] == Longer(packet, 24)[14..24] && b[26..34] == Longer(packet, 24)[26..34]
            && (packet[23] == 17 ==> b[34..42] == Longer(packet, 24)[34..42])
            && (packet[23] == 6 ==> b[34..54] == packet[34..54])
            && b[at..at + 4] == packet[at + 2 := (packet[at + 2] + 6) % TWO8][at..at + 4]
            && b[at + 4..at + 12] == packet[at + 7 := (packet[at + 7] + 255) % TWO8][at + 4..at + 12]
            && Be16(b, 12) == Be16(packet, 12) && b[23] == packet[23] && b[15] == packet[15]
  {
    Get16(AfterTransit(packet), 24, checksum);
  }

  lemma {:induction false} TransitHeadersAt(h: HeaderSet, packet: seq<Byte>, checksum: U16)
    requires HeadersAt(h, packet) && IsMarked(packet)
    ensures |packet| >= L4End(packet) + 12
    ensures h.ipv4.Some? && h.shim.Some? && h.intHeader.Some?
    ensures var b := WithChecksum(AfterTransit(packet), checksum);
            HeadersAt(TransitHeaders(h, checksum), b) && HeadersEnd(b) == HeadersEnd(packet) == L4End(packet) + 12
  {
    hide EthernetAt, Ipv4At, UdpAt, TcpAt, ShimAt, IntHeaderAt, AfterTransit, Longer, WithChecksum;
    Lengths(h, packet);
    var b, at := WithChecksum(AfterTransit(packet), checksum), L4End(packet);
    TransitSlices(packet, checksum);
    EthernetKept(h.ethernet.value, packet, b);
    LongerIpv4(h.ipv4.value, packet, 24, b, checksum);
    if h.udp.Some? {
      LongerUdp(h.udp.value, packet, 24, b);
    }
    if h.tcp.Some? {
      TcpKept(h.tcp.value, packet, b, 34);
    }
    ShimGrown(h.shim.value, packet, b, at);
    HopsCounted(h.intHeader.value, packet, b, at + 4);
  }

  lemma ShimGrown(s: Shim, a: seq<Byte>, b: seq<Byte>, at: nat)
    requires ShimAt(s, a, at) && at + 4 <= |b| && b[at..at + 4] == a[at + 2 := (a[at + 2] + 6) % TWO8][at..at + 4]
    ensures ShimAt(s.(len := (s.len + 6) % TWO8), b, at)
  {
    SameBytes(b, a[at + 2 := (a[at + 2] + 6) % TWO8], at, 4);
  }

  lemma HopsCounted(i: IntHeader, a: seq<Byte>, b: seq<Byte>, at: nat)
    requires IntHeaderAt(i, a, at) && at + 8 <= |b|
    requires b[at..at + 8] == a[at + 3 := (a[at + 3] + 255) % TWO8][at..at + 8]
    ensures IntHeaderAt(i.(remainingHopCnt := (i.remainingHopCnt + 255) % TWO8), b, at)
  {
    SameBytes(b, a[at + 3 := (a[at + 3] + 255) % TWO8], at, 8);
  }

  /**
   A transit node on a packet with telemetry: both lengths, the shim's length, the hop count and
   the IPv4 header checksum change, its metadata stands behind the INT header, and every other
   byte is as it was.
   */
  lemma {:induction false} TransitOnWire(hop: Hop, packet: seq<Byte>)
    requires Verdict(packet).None? && IsMarked(packet) && !hop.cfg.srcEnable && !hop.cfg.sinkEnable
    ensures |packet| >= L4End(packet) + 12
    ensures var r, end := Process(hop.cfg, packet, hop.md, hop.seqNo), L4End(packet) + 12;
            && r.Some? && |r.value| == |packet| + 24
            && r.value[..end] == WithChecksum(AfterTransit(packet), Be16(r.value, 24))[..end]
            && MetadataAt(hop, r.value, end)
            && r.value[end + 24..] == packet[end..]
  {
    hide ParseEthernet, Verdict, Deparse, Ingress, Egress, HeadersAt, EmitParsed, Strip, MetadataAt, AfterTransit;
    hide TransitHeaders, MetadataWords, ToBytes;
    ParserReads(packet);
    DeparseUndoesParse(packet);
    var p := ParseEthernet(packet);
    TransitHeadersAt(p.hdr, packet, 0);
    OneL4(p.hdr, packet);
    var out := Egress(Ingress(hop.cfg, p.hdr, hop.md, hop.seqNo), hop.md);
    var checksum := TransitStripped(hop, p.hdr, packet);
    TransitHeadersAt(p.hdr, packet, checksum);
    var b := WithChecksum(AfterTransit(packet), checksum);
    HeadersWritten(TransitHeaders(p.hdr, checksum), b);
    AddedBytes(hop, out);
    InsertedOnWire(hop, b, packet, L4End(packet) + 12, Deparse(out) + p.payload, checksum);
  }

  lemma OneL4(h: HeaderSet, packet: seq<Byte>)
    requires HeadersAt(h, packet) && IsL4(packet)
    ensures NothingAdded(h) && h.ipv4.Some? && (h.udp.Some? || h.tcp.Some?)
    ensures IsMarked(packet) <==> h.shim.Some?
    ensures h.shim.Some? <==> h.intHeader.Some?
  {}

  lemma TransitStripped(hop: Hop, h: HeaderSet, packet: seq<Byte>) returns (checksum: U16)
    requires h.ipv4.Some? && (h.udp.Some? || h.tcp.Some?) && h.shim.Some? && h.intHeader.Some? && NothingAdded(h)
    requires !hop.cfg.srcEnable && !hop.cfg.sinkEnable
    ensures var out := Egress(Ingress(hop.cfg, h, hop.md, hop.seqNo), hop.md);
            Adds(hop, out) && Strip(out) == TransitHeaders(h, checksum)
  {
    hide Ingress, Egress, Plus16;
    TransitEffect(hop, h);
    checksum := Egress(Ingress(hop.cfg, h, hop.md, hop.seqNo), hop.md).ipv4.value.checksum;
  }

  /** Headers, metadata and payload, one behind the other. */
  lemma InsertedOnWire(hop: Hop, b: seq<Byte>, packet: seq<Byte>, end: nat, out: seq<Byte>, checksum: U16)
    requires 34 <= end <= |b| && end <= |packet| && Be16(b, 24) == checksum
    requires out == b[..end] + ToBytes(MetadataWords(hop)) + packet[end..]
    ensures |out| == |packet| + 24 && out[..end] == b[..end] && Be16(out, 24) == checksum
    ensures MetadataAt(hop, out, end) && out[end + 24..] == packet[end..]
  {
    var m := ToBytes(MetadataWords(hop));
    hide MetadataAt, MetadataWords, ToBytes;
    assert out[end..end + 24] == m;
    MetadataReads(hop, out, end);
    assert out[24] == out[..end][24] && out[25] == out[..end][25];
  }

  // ---------------------------------------------------------------------------
  // A source
  // ---------------------------------------------------------------------------

  /** The packet marked as carrying telemetry: DSCP, lengths greater by `n`, no UDP or TCP checksum. */
  function Marked(bs: seq<Byte>, n: nat): (r: seq<Byte>)
    requires IsL4(bs) && |bs| >= L4End(bs)
    ensures |r| == |bs|
  {
    Put16(Longer(bs, n)[15 := 0x20 * 4 + bs[15] % 4], if bs[23] == 17 then 40 else 50, 0)
  }

  /** The shim and the INT header once `k` nodes have added metadata. */
  function IntBytes(dscp: U6, k: nat, seqNo: U16): (r: seq<Byte>)
    ensures |r| == 12
  {
    [1, 0, (3 + 6 * k) % TWO8, dscp * 4, 0x10, 1, 6, (255 + 255 * k) % TWO8, 0, 0xcc, seqNo / TWO8, seqNo % TWO8]
  }

  /** A plain packet with the headers `k` nodes leave it, the IPv4 header checksum apart. */
  function AfterNodes(bs: seq<Byte>, k: nat, seqNo: U16): (r: seq<Byte>)
    requires IsL4(bs) && |bs| >= L4End(bs)
    ensures |r| == |bs| + 12
  {
    Marked(bs, 12 + 24 * k)[..L4End(bs)] + IntBytes(bs[15] / 4, k, seqNo) + bs[L4End(bs)..]
  }

  /** The headers `SourceEffect` gives, checksum apart. */
  function SourceHeaders(h: HeaderSet, seqNo: U16, checksum: U16): HeaderSet
    requires h.ipv4.Some?
  {
    var ip := h.ipv4.value;
    h.(ipv4 := Some(ip.(dscp := 0x20, totalLen := Plus16(ip.totalLen, 36), checksum := checksum)),
       udp := if h.udp.Some? then Some(h.udp.value.(len := Plus16(h.udp.value.len, 36), csum := 0)) else None,
       tcp := if h.tcp.Some? then Some(h.tcp.value.(csum := 0)) else None,
       shim := Some(Shim(1, 0, 9, ip.dscp, 0)),
       intHeader := Some(IntHeader(1, 0, 0, 0, 0, 1, 0, 6, 254, 0x00cc, seqNo)))
  }

  lemma MarkedIpv4(ip: Ipv4, bs: seq<Byte>, b: seq<Byte>, checksum: U16)
    requires Ipv4At(ip, bs, 14) && IsL4(bs) && |bs| >= L4End(bs)
    requires |b| >= 34 && b[14..24] == Marked(bs, 36)[14..24] && b[26..34] == Marked(bs, 36)[26..34]
    requires Be16(b, 24) == checksum
    ensures Ipv4At(ip.(dscp := 0x20, totalLen := Plus16(ip.totalLen, 36), checksum := checksum), b, 14)
  {
    hide WordAt;
    var m := Marked(bs, 36);
    SameBytes(b, m, 14, 10);
    SameBytes(b, m, 26, 8);
    hide Marked;
    assert m[14] == bs[14] && m[15] == 0x80 + bs[15] % 4 && Be16(m, 16) == Plus16(Be16(bs, 16), 36)
           && m[18..24] == bs[18..24] && m[26..34] == bs[26..34] by {
      MarkedBytes(bs);
    }
    SameBytes(m, bs, 18, 6);
    SameBytes(m, bs, 26, 8);
    SameWordAt(b, bs, 26);
    SameWordAt(b, bs, 30);
  }

  lemma MarkedBytes(bs: seq<Byte>)
    requires IsL4(bs) && |bs| >= L4End(bs)
    ensures var m := Marked(bs, 36);
            && m[14] == bs[14] && m[15] == 0x80 + bs[15] % 4 && Be16(m, 16) == Plus16(Be16(bs, 16), 36)
            && m[18..24] == bs[18..24] && m[26..34] == bs[26..34]
  {}

  lemma SameWordAt(a: seq<Byte>, b: seq<Byte>, at: nat)
    requires at + 4 <= |a| && at + 4 <= |b| && forall i :: at <= i < at + 4 ==> a[i] == b[i]
    ensures WordAt(a, at) == WordAt(b, at)
  {}

  lemma MarkedUdp(u: Udp, bs: seq<Byte>, b: seq<Byte>)
    requires UdpAt(u, bs, 34) && IsL4(bs) && bs[23] == 17
    requires |b| >= 42 && b[34..42] == Marked(bs, 36)[34..42]
    ensures UdpAt(u.(len := Plus16(u.len, 36), csum := 0), b, 34)
  {
    SameBytes(b, Marked(bs, 36), 34, 8);
  }

  lemma MarkedTcp(t: Tcp, bs: seq<Byte>, b: seq<Byte>)
    requires TcpAt(t, bs, 34) && IsL4(bs) && bs[23] == 6
    requires |b| >= 54 && b[34..54] == Marked(bs, 36)[34..54]
    ensures TcpAt(t.(csum := 0), b, 34)
  {
    SameBytes(b, Marked(bs, 36), 34, 20);
  }

  lemma FreshIntAt(dscp: U6, seqNo: U16, b: seq<Byte>, at: nat)
    requires at + 12 <= |b| && b[at..at + 12] == IntBytes(dscp, 1, seqNo)
    ensures ShimAt(Shim(1, 0, 9, dscp, 0), b, at)
    ensures IntHeaderAt(IntHeader(1, 0, 0, 0, 0, 1, 0, 6, 254, 0x00cc, seqNo), b, at + 4)
  {
    var f := b[at..at + 12];
    assert b[at] == f[0] && b[at + 1] == f[1] && b[at + 2] == f[2] && b[at + 3] == f[3];
    assert b[at + 4] == f[4] && b[at + 5] == f[5] && b[at + 6] == f[6] && b[at + 7] == f[7];
    assert b[at + 8] == f[8] && b[at + 9] == f[9] && b[at + 10] == f[10] && b[at + 11] == f[11];
  }

  lemma SourceSlices(packet: seq<Byte>, seqNo: U16, checksum: U16)
    requires IsL4(packet) && |packet| >= L4End(packet)
    ensures var b, at := WithChecksum(AfterNodes(packet, 1, seqNo), checksum), L4End(packet);
            && |b| == |packet| + 12 && b[..14] == packet[..14] && Be16(b, 24) == checksum
            && b[14..24] == Marked(packet, 36)[14..24] && b[26..34] == Marked(packet, 36)[26..34]
            && b[34..at] == Marked(packet, 36)[34..at]
            && b[at..at + 12] == IntBytes(packet[15] / 4, 1, seqNo) && b[at + 12..] == packet[at..]
            && IsMarked(b) && L4End(b) == at && b[23] == packet[23]
  {
    hide IntBytes;
    Get16(AfterNodes(packet, 1, seqNo), 24, checksum);
    var b, m := WithChecksum(AfterNodes(packet, 1, seqNo), checksum), Marked(packet, 36);
    assert b[12] == m[12] == packet[12] && b[13] == m[13] == packet[13];
    assert b[15] == m[15] == 0x80 + packet[15] % 4;
    assert b[23] == m[23] == packet[23];
  }

  lemma {:induction false} SourceHeadersAt(h: HeaderSet, packet: seq<Byte>, seqNo: U16, checksum: U16)
    requires HeadersAt(h, packet) && IsL4(packet) && !IsMarked(packet)
    ensures |packet| >= L4End(packet) && h.ipv4.Some?
    ensures var b := WithChecksum(AfterNodes(packet, 1, seqNo), checksum);
            && HeadersAt(SourceHeaders(h, seqNo, checksum), b) && HeadersEnd(b) == L4End(packet) + 12
            && b[L4End(packet) + 12..] == packet[L4End(packet)..]
  {
    hide EthernetAt, Ipv4At, UdpAt, TcpAt, ShimAt, IntHeaderAt, AfterNodes, Marked, WithChecksum, IntBytes;
    Lengths(h, packet);
    var b, at := WithChecksum(AfterNodes(packet, 1, seqNo), checksum), L4End(packet);
    SourceSlices(packet, seqNo, checksum);
    EthernetKept(h.ethernet.value, packet, b);
    assert Be16(b, 12) == 0x0800;
    MarkedIpv4(h.ipv4.value, packet, b, checksum);
    if h.udp.Some? {
      MarkedUdp(h.udp.value, packet, b);
    }
    if h.tcp.Some? {
      MarkedTcp(h.tcp.value, packet, b);
    }
    DscpAt(h.ipv4.value, packet);
    FreshIntAt(h.ipv4.value.dscp, seqNo, b, at);
  }

  lemma DscpAt(ip: Ipv4, packet: seq<Byte>)
    requires Ipv4At(ip, packet, 14)
    ensures packet[15] / 4 == ip.dscp
  {
    hide WordAt;
  }

  lemma SourceStripped(hop: Hop, h: HeaderSet) returns (checksum: U16)
    requires h.ipv4.Some? && (h.udp.Some? || h.tcp.Some?) && h.shim.None? && h.intHeader.None? && NothingAdded(h)
    requires hop.cfg.srcEnable && !hop.cfg.sinkEnable
    ensures var out := Egress(Ingress(hop.cfg, h, hop.md, hop.seqNo), hop.md);
            Adds(hop, out) && Strip(out) == SourceHeaders(h, hop.seqNo, checksum)
  {
    hide Ingress, Egress, Plus16;
    SourceEffect(hop, h);
    Wrap16Twice(h.ipv4.value.totalLen);
    if h.udp.Some? {
      Wrap16Twice(h.udp.value.len);
    }
    checksum := Egress(Ingress(hop.cfg, h, hop.md, hop.seqNo), hop.md).ipv4.value.checksum;
  }

  /**
   A source on a plain UDP or TCP packet: it marks the packet, saves its DSCP, numbers it, clears
   its UDP or TCP checksum, counts 36 more bytes and inserts them: INT headers, then metadata.
   */
  lemma {:induction false} SourceOnWire(hop: Hop, packet: seq<Byte>)
    requires Verdict(packet).None? && IsL4(packet) && !IsMarked(packet)
    requires hop.cfg.srcEnable && !hop.cfg.sinkEnable
    ensures |packet| >= L4End(packet)
    ensures var r, end := Process(hop.cfg, packet, hop.md, hop.seqNo), L4End(packet);
            && r.Some? && |r.value| == |packet| + 36
            && r.value[..end + 12] == WithChecksum(AfterNodes(packet, 1, hop.seqNo), Be16(r.value, 24))[..end + 12]
            && MetadataAt(hop, r.value, end + 12)
            && r.value[end + 36..] == packet[end..]
  {
    hide ParseEthernet, Verdict, Deparse, Ingress, Egress, HeadersAt, EmitParsed, Strip, MetadataAt, AfterNodes;
    hide SourceHeaders, MetadataWords, ToBytes;
    ParserReads(packet);
    DeparseUndoesParse(packet);
    var p, end := ParseEthernet(packet), L4End(packet);
    SourceHeadersAt(p.hdr, packet, hop.seqNo, 0);
    OneL4(p.hdr, packet);
    var out := Egress(Ingress(hop.cfg, p.hdr, hop.md, hop.seqNo), hop.md);
    var checksum := SourceStripped(hop, p.hdr);
    SourceHeadersAt(p.hdr, packet, hop.seqNo, checksum);
    var b := WithChecksum(AfterNodes(packet, 1, hop.seqNo), checksum);
    HeadersWritten(SourceHeaders(p.hdr, hop.seqNo, checksum), b);
    AddedBytes(hop, out);
    assert Be16(b, 24) == checksum by {
      Get16(AfterNodes(packet, 1, hop.seqNo), 24, checksum);
    }
    InsertedOnWire(hop, b, b, end + 12, Deparse(out) + p.payload, checksum);
  }

  // ---------------------------------------------------------------------------
  // A source that meets a packet with telemetry
  // ---------------------------------------------------------------------------

  /** The INT headers such a source leaves: as fresh, but for the bits no action assigns. */
  function RestartedInt(was: seq<Byte>, seqNo: U16): (r: seq<Byte>)
    requires |was| == 12
    ensures |r| == 12
  {
    [1, was[1], 9, 0x20 * 4 + was[3] % 4, 0x10, was[5] / 128 * 128 + 1, 6, 254, 0, 0xcc, seqNo / TWO8, seqNo % TWO8]
  }

  function AfterRestart(bs: seq<Byte>, seqNo: U16): (r: seq<Byte>)
    requires IsL4(bs) && |bs| >= L4End(bs) + 12
    ensures |r| == |bs|
  {
    var at := L4End(bs);
    Marked(bs, 36)[..at] + RestartedInt(bs[at..at + 12], seqNo) + bs[at + 12..]
  }

  function RestartHeaders(h: HeaderSet, seqNo: U16, checksum: U16): HeaderSet
    requires h.ipv4.Some? && h.shim.Some? && h.intHeader.Some?
  {
    var ip, shim, ih := h.ipv4.value, h.shim.value, h.intHeader.value;
    h.(ipv4 := Some(ip.(dscp := 0x20, totalLen := Plus16(ip.totalLen, 36), checksum := checksum)),
       udp := if h.udp.Some? then Some(h.udp.value.(len := Plus16(h.udp.value.len, 36), csum := 0)) else None,
       tcp := if h.tcp.Some? then Some(h.tcp.value.(csum := 0)) else None,
       shim := Some(shim.(intType := 1, len := 9, dscp := ip.dscp)),
       intHeader := Some(IntHeader(1, 0, 0, 0, ih.m, 1, 0, 6, 254, 0x00cc, seqNo)))
  }

  lemma RestartedAt(s: Shim, i: IntHeader, dscp: U6, seqNo: U16, a: seq<Byte>, b: seq<Byte>, at: nat)
    requires ShimAt(s, a, at) && IntHeaderAt(i, a, at + 4) && dscp == 0x20
    requires at + 12 <= |b| && b[at..at + 12] == RestartedInt(a[at..at + 12], seqNo)
    ensures ShimAt(s.(intType := 1, len := 9, dscp := dscp), b, at)
    ensures IntHeaderAt(IntHeader(1, 0, 0, 0, i.m, 1, 0, 6, 254, 0x00cc, seqNo), b, at + 4)
  {
    var f := b[at..at + 12];
    assert b[at] == f[0] && b[at + 1] == f[1] && b[at + 2] == f[2] && b[at + 3] == f[3];
    assert b[at + 4] == f[4] && b[at + 5] == f[5] && b[at + 6] == f[6] && b[at + 7] == f[7];
    assert b[at + 8] == f[8] && b[at + 9] == f[9] && b[at + 10] == f[10] && b[at + 11] == f[11];
  }

  lemma RestartSlices(packet: seq<Byte>, seqNo: U16, checksum: U16)
    requires IsL4(packet) && |packet| >= L4End(packet) + 12
    ensures var b, at := WithChecksum(AfterRestart(packet, seqNo), checksum), L4End(packet);
            && |b| == |packet| && b[..14] == packet[..14] && Be16(b, 24) == checksum
            && b[14..24] == Marked(packet, 36)[14..24] && b[26..34] == Marked(packet, 36)[26..34]
            && b[34..at] == Marked(packet, 36)[34..at]
            && b[at..at + 12] == RestartedInt(packet[at..at + 12], seqNo) && b[at + 12..] == packet[at + 12..]
            && IsMarked(b) && L4End(b) == at && b[23] == packet[23]
  {
    hide RestartedInt;
    Get16(AfterRestart(packet, seqNo), 24, checksum);
    var b, m := WithChecksum(AfterRestart(packet, seqNo), checksum), Marked(packet, 36);
    assert b[12] == m[12] == packet[12] && b[13] == m[13] == packet[13];
    assert b[15] == m[15] == 0x80 + packet[15] % 4;
    assert b[23] == m[23] == packet[23];
  }

  lemma {:induction false} RestartHeadersAt(h: HeaderSet, packet: seq<Byte>, seqNo: U16, checksum: U16)
    requires HeadersAt(h, packet) && IsMarked(packet)
    ensures |packet| >= L4End(packet) + 12 && h.ipv4.Some? && h.shim.Some? && h.intHeader.Some?
    ensures var b := WithChecksum(AfterRestart(packet, seqNo), checksum);
            HeadersAt(RestartHeaders(h, seqNo, checksum), b) && HeadersEnd(b) == L4End(packet) + 12
  {
    hide EthernetAt, Ipv4At, UdpAt, TcpAt, ShimAt, IntHeaderAt, AfterRestart, Marked, WithChecksum, RestartedInt;
    Lengths(h, packet);
    var b, at := WithChecksum(AfterRestart(packet, seqNo), checksum), L4End(packet);
    RestartSlices(packet, seqNo, checksum);
    EthernetKept(h.ethernet.value, packet, b);
    assert Be16(b, 12) == 0x0800;
    MarkedIpv4(h.ipv4.value, packet, b, checksum);
    if h.udp.Some? {
      MarkedUdp(h.udp.value, packet, b);
    }
    if h.tcp.Some? {
      MarkedTcp(h.tcp.value, packet, b);
    }
    DscpAt(h.ipv4.value, packet);
    RestartedAt(h.shim.value, h.intHeader.value, h.ipv4.value.dscp, seqNo, packet, b, at);
  }

  lemma RestartStripped(hop: Hop, h: HeaderSet) returns (checksum: U16)
    requires h.ipv4.Some? && (h.udp.Some? || h.tcp.Some?) && h.shim.Some? && h.intHeader.Some? && NothingAdded(h)
    requires hop.cfg.srcEnable && !hop.cfg.sinkEnable
    ensures var out := Egress(Ingress(hop.cfg, h, hop.md, hop.seqNo), hop.md);
            Adds(hop, out) && Strip(out) == RestartHeaders(h, hop.seqNo, checksum)
  {
    hide SubFrom, AddTo, Plus16;
    Wrap16Twice(h.ipv4.value.totalLen);
    if h.udp.Some? {
      Wrap16Twice(h.udp.value.len);
    }
    checksum := Egress(Ingress(hop.cfg, h, hop.md, hop.seqNo), hop.md).ipv4.value.checksum;
  }

  /**
   A source on a packet that already carries telemetry starts over.  The shim again announces one
   node, so the metadata of those before is payload from here on; the DSCP saved is that of the
   mark, the original one lost; and both lengths grow by 36 although only 24 bytes are inserted.
   */
  lemma {:induction false} RestartOnWire(hop: Hop, packet: seq<Byte>)
    requires Verdict(packet).None? && IsMarked(packet) && hop.cfg.srcEnable && !hop.cfg.sinkEnable
    ensures |packet| >= L4End(packet) + 12
    ensures var r, end := Process(hop.cfg, packet, hop.md, hop.seqNo), L4End(packet) + 12;
            && r.Some? && |r.value| == |packet| + 24
            && r.value[..end] == WithChecksum(AfterRestart(packet, hop.seqNo), Be16(r.value, 24))[..end]
            && MetadataAt(hop, r.value, end)
            && r.value[end + 24..] == packet[end..]
  {
    hide ParseEthernet, Verdict, Deparse, Ingress, Egress, HeadersAt, EmitParsed, Strip, MetadataAt, AfterRestart;
    hide RestartHeaders, MetadataWords, ToBytes;
    ParserReads(packet);
    DeparseUndoesParse(packet);
    var p, end := ParseEthernet(packet), L4End(packet) + 12;
    RestartHeadersAt(p.hdr, packet, hop.seqNo, 0);
    OneL4(p.hdr, packet);
    var out := Egress(Ingress(hop.cfg, p.hdr, hop.md, hop.seqNo), hop.md);
    var checksum := RestartStripped(hop, p.hdr);
    RestartHeadersAt(p.hdr, packet, hop.seqNo, checksum);
    var b := WithChecksum(AfterRestart(packet, hop.seqNo), checksum);
    HeadersWritten(RestartHeaders(p.hdr, hop.seqNo, checksum), b);
    AddedBytes(hop, out);
    assert Be16(b, 24) == checksum by {
      Get16(AfterRestart(packet, hop.seqNo), 24, checksum);
    }
    InsertedOnWire(hop, b, packet, end, Deparse(out) + p.payload, checksum);
  }

  // ---------------------------------------------------------------------------
  // A sink
  // ---------------------------------------------------------------------------

  /** The shim's length and the metadata length per node, as a sink finds them. */
  function ShimLength(hop: Hop, bs: seq<Byte>): U8
    requires IsMarked(bs) ==> |bs| >= L4End(bs) + 12
  {
    if hop.cfg.srcEnable then 3 else if IsMarked(bs) then bs[L4End(bs) + 2] else 0
  }

  function PerNode(hop: Hop, bs: seq<Byte>): U8
    requires IsMarked(bs) ==> |bs| >= L4End(bs) + 12
  {
    if hop.cfg.srcEnable then 6 else if IsMarked(bs) then bs[L4End(bs) + 6] % 32 else 0
  }

  /** The first 50 bytes of a report: Ethernet, retyped, and the report header. */
  predicate ReportAt(hop: Hop, packet: seq<Byte>, r: seq<Byte>)
    requires IsL4(packet) && |packet| >= L4End(packet)
    requires IsMarked(packet) ==> |packet| >= L4End(packet) + 12
  {
    && |r| >= 50
    && r[..12] == packet[..12] && r[12] == 0xff && r[13] == 0xff
    && r[14..22] == packet[26..34]
    && r[22..26] == packet[34..38]
    && r[26] == (ShimLength(hop, packet) + 253) % TWO8 && r[27] == PerNode(hop, packet)
    && r[28] == 0 && r[29] == 0
    && WordAt(r, 30) == WordAt(r, 38) == hop.md.ingressTs.h
    && WordAt(r, 34) == WordAt(r, 42) == hop.md.ingressTs.l
    && r[46..50] == if packet[23] == 6 then packet[38..42] else [0, 0, 0, 0]
  }

  /** The report header a sink fills, from the headers it parsed. */
  function InfluxOf(hop: Hop, h: HeaderSet): Influx
    requires h.ipv4.Some? && (h.udp.Some? || h.tcp.Some?)
  {
    var shimLen := if hop.cfg.srcEnable then 3 else if h.shim.Some? then h.shim.value.len else 0;
    var perNode := if hop.cfg.srcEnable then 6 else if h.intHeader.Some? then h.intHeader.value.hopMetadataLen else 0;
    Influx(h.ipv4.value.srcAddr, h.ipv4.value.dstAddr,
           if h.tcp.Some? then h.tcp.value.srcPort else h.udp.value.srcPort,
           if h.tcp.Some? then h.tcp.value.dstPort else h.udp.value.dstPort,
           (shimLen + 253) % TWO8, 0, perNode, 0, hop.md.ingressTs, hop.md.ingressTs,
           if h.tcp.Some? then h.tcp.value.seqNum else 0)
  }

  lemma SinkEffect(hop: Hop, h: HeaderSet)
    requires h.ethernet.Some? && h.ipv4.Some? && (h.udp.Some? <==> h.tcp.None?) && NothingAdded(h)
    requires hop.cfg.sinkEnable
    ensures Egress(Ingress(hop.cfg, h, hop.md, hop.seqNo), hop.md)
            == NO_HEADERS.(ethernet := Some(h.ethernet.value.(etherType := 0xffff)), influx := Some(InfluxOf(hop, h)))
  {
    hide SubFrom, AddTo, Plus16;
  }

  /** The words of a report header, read as fields. */
  lemma {:induction false} InfluxReads(i: Influx, r: seq<Byte>)
    requires |r| >= 50 && r[14..50] == ToBytes(i.Words())
    ensures WordAt(r, 14) == i.srcAddr && WordAt(r, 18) == i.dstAddr
    ensures Be16(r, 22) == i.ingressPortId && Be16(r, 24) == i.egressPortId
    ensures r[26] == i.metaLen && r[27] == i.resv1 * 32 + i.hopMetaLen && Be16(r, 28) == i.rsvd2
    ensures WordAt(r, 30) == i.ndkTstamp.h && WordAt(r, 34) == i.ndkTstamp.l
    ensures WordAt(r, 38) == i.delay.h && WordAt(r, 42) == i.delay.l && WordAt(r, 46) == i.seqNo
  {
    hide ToBytes, WordAt, Hi, Lo, Word2;
    var ws := i.Words();
    WordAtBytes(ws, 0, r, 14);
    WordAtBytes(ws, 1, r, 14);
    WordAtBytes(ws, 2, r, 14);
    WordAtBytes(ws, 3, r, 14);
    WordAtBytes(ws, 4, r, 14);
    WordAtBytes(ws, 5, r, 14);
    WordAtBytes(ws, 6, r, 14);
    WordAtBytes(ws, 7, r, 14);
    WordAtBytes(ws, 8, r, 14);
    BytesAtWord(r, 22);
    BytesAtWord(r, 26);
    HalvesOfWord(i.ingressPortId, i.egressPortId);
    HalvesOfWord(i.metaLen * TWO8 + i.resv1 * 32 + i.hopMetaLen, i.rsvd2);
    TwoBytes(r[26], r[27], i.metaLen, i.resv1 * 32 + i.hopMetaLen);
  }

  lemma TwoBytes(a: Byte, b: Byte, c: Byte, d: Byte)
    ensures a * TWO8 + b == c * TWO8 + d <==> a == c && b == d
  {}

  /** The same word in two places is the same four bytes. */
  lemma {:induction false} WordCopied(a: seq<Byte>, i: nat, b: seq<Byte>, j: nat)
    requires i + 4 <= |a| && j + 4 <= |b| && WordAt(a, i) == WordAt(b, j)
    ensures a[i..i + 4] == b[j..j + 4]
  {
    BytesAtWord(a, i);
    BytesAtWord(b, j);
    hide WordAt, ByteOf;
    assert a[i..i + 4] == [a[i], a[i + 1], a[i + 2], a[i + 3]];
    assert b[j..j + 4] == [b[j], b[j + 1], b[j + 2], b[j + 3]];
  }

  lemma HalfCopied(a: seq<Byte>, i: nat, b: seq<Byte>, j: nat)
    requires i + 4 <= |a| && j + 4 <= |b| && Be16(a, i) == Be16(b, j) && Be16(a, i + 2) == Be16(b, j + 2)
    ensures a[i..i + 4] == b[j..j + 4]
  {
    TwoBytes(a[i], a[i + 1], b[j], b[j + 1]);
    TwoBytes(a[i + 2], a[i + 3], b[j + 2], b[j + 3]);
    assert a[i..i + 4] == [a[i], a[i + 1], a[i + 2], a[i + 3]];
    assert b[j..j + 4] == [b[j], b[j + 1], b[j + 2], b[j + 3]];
  }

  lemma {:induction false} Retyped(e: Ethernet, packet: seq<Byte>)
    requires EthernetAt(e, packet, 0)
    ensures e.(etherType := 0xffff).Encode() == packet[..12] + [0xff, 0xff]
  {
    var b := packet[..12] + [0xff, 0xff];
    hide Ethernet.Encode;
    assert Be16(b, 12) == 0xffff;
    EthernetWritten(e.(etherType := 0xffff), b, 0);
    assert b[0..14] == b;
  }

  /** What the packet's bytes say of the fields a sink copies. */
  lemma {:induction false} InfluxFields(hop: Hop, h: HeaderSet, packet: seq<Byte>)
    requires HeadersAt(h, packet) && IsL4(packet)
    ensures |packet| >= L4End(packet) && (IsMarked(packet) ==> |packet| >= L4End(packet) + 12)
    ensures h.ethernet.Some? && h.ipv4.Some? && (h.udp.Some? <==> h.tcp.None?)
    ensures var i := InfluxOf(hop, h);
            && i.srcAddr == WordAt(packet, 26) && i.dstAddr == WordAt(packet, 30)
            && i.ingressPortId == Be16(packet, 34) && i.egressPortId == Be16(packet, 36)
            && i.metaLen == (ShimLength(hop, packet) + 253) % TWO8
            && i.resv1 == 0 && i.hopMetaLen == PerNode(hop, packet) && i.rsvd2 == 0
            && i.ndkTstamp == hop.md.ingressTs && i.delay == hop.md.ingressTs
            && i.seqNo == if packet[23] == 6 then WordAt(packet, 38) else 0
  {
    hide EthernetAt, WordAt, Be16;
  }

  lemma {:induction false} ReportWritten(hop: Hop, h: HeaderSet, packet: seq<Byte>, r: seq<Byte>)
    requires HeadersAt(h, packet) && IsL4(packet) && h.ipv4.Some? && (h.udp.Some? || h.tcp.Some?)
    requires |packet| >= L4End(packet) && (IsMarked(packet) ==> |packet| >= L4End(packet) + 12)
    requires |r| >= 50 && r[..14] == packet[..12] + [0xff, 0xff] && r[14..50] == ToBytes(InfluxOf(hop, h).Words())
    ensures ReportAt(hop, packet, r)
  {
    hide HeadersAt, InfluxOf, ShimLength, PerNode, WordAt, Be16, ToBytes, Influx.Words, ReportAt, IsMarked, L4End;
    InfluxFields(hop, h, packet);
    InfluxReads(InfluxOf(hop, h), r);
    RetypedStart(r, packet);
    FieldsWritten(hop, packet, r);
  }

  /** The fields read back are those of the packet. */
  lemma {:induction false} FieldsWritten(hop: Hop, packet: seq<Byte>, r: seq<Byte>)
    requires IsL4(packet) && |packet| >= L4End(packet) && (IsMarked(packet) ==> |packet| >= L4End(packet) + 12)
    requires |r| >= 50 && r[..12] == packet[..12] && r[12] == 0xff && r[13] == 0xff
    requires WordAt(r, 14) == WordAt(packet, 26) && WordAt(r, 18) == WordAt(packet, 30)
    requires Be16(r, 22) == Be16(packet, 34) && Be16(r, 24) == Be16(packet, 36)
    requires r[26] == (ShimLength(hop, packet) + 253) % TWO8 && r[27] == PerNode(hop, packet) && Be16(r, 28) == 0
    requires WordAt(r, 30) == WordAt(r, 38) == hop.md.ingressTs.h
    requires WordAt(r, 34) == WordAt(r, 42) == hop.md.ingressTs.l
    requires WordAt(r, 46) == if packet[23] == 6 then WordAt(packet, 38) else 0
    ensures ReportAt(hop, packet, r)
  {
    hide ShimLength, PerNode, WordAt, IsMarked;
    AddressesCopied(r, packet);
    HalfCopied(r, 22, packet, 34);
    TwoBytes(r[28], r[29], 0, 0);
    if packet[23] == 6 {
      WordCopied(r, 46, packet, 38);
    } else {
      ZeroWord(r, 46);
    }
  }

  lemma RetypedStart(r: seq<Byte>, packet: seq<Byte>)
    requires |r| >= 14 && |packet| >= 12 && r[..14] == packet[..12] + [0xff, 0xff]
    ensures r[..12] == packet[..12] && r[12] == 0xff && r[13] == 0xff
  {
    assert r[..14][..12] == r[..12] && r[12] == r[..14][12] && r[13] == r[..14][13];
  }

  lemma AddressesCopied(r: seq<Byte>, packet: seq<Byte>)
    requires |r| >= 22 && |packet| >= 34 && WordAt(r, 14) == WordAt(packet, 26) && WordAt(r, 18) == WordAt(packet, 30)
    ensures r[14..22] == packet[26..34]
  {
    hide WordAt;
    WordCopied(r, 14, packet, 26);
    WordCopied(r, 18, packet, 30);
    assert r[14..22] == r[14..18] + r[18..22] && packet[26..34] == packet[26..30] + packet[30..34];
  }

  lemma ZeroWord(r: seq<Byte>, at: nat)
    requires at + 4 <= |r| && WordAt(r, at) == 0
    ensures r[at..at + 4] == [0, 0, 0, 0]
  {}

  /**
   A sink on any UDP or TCP packet, with telemetry or without: what it sends is the report header,
   filled from the packet's own bytes, and everything behind the headers it parsed.
   */
  lemma {:induction false} SinkOnWire(hop: Hop, packet: seq<Byte>)
    requires Verdict(packet).None? && IsL4(packet) && hop.cfg.sinkEnable
    ensures |packet| >= HeadersEnd(packet) >= L4End(packet)
    ensures var r := Process(hop.cfg, packet, hop.md, hop.seqNo);
            r.Some? && ReportAt(hop, packet, r.value) && r.value[50..] == packet[HeadersEnd(packet)..]
  {
    hide ParseEthernet, Verdict, Deparse, Ingress, Egress, EmitParsed, ToBytes, HeadersAt, InfluxOf;
    ParserReads(packet);
    DeparseUndoesParse(packet);
    var p := ParseEthernet(packet);
    HeadersWritten(p.hdr, packet);
    OneL4(p.hdr, packet);
    InfluxFields(hop, p.hdr, packet);
    SinkEffect(hop, p.hdr);
    var e, i := p.hdr.ethernet.value.(etherType := 0xffff), InfluxOf(hop, p.hdr);
    DeparseReport(e, i);
    EthernetThere(p.hdr, packet);
    Retyped(p.hdr.ethernet.value, packet);
    var r := e.Encode() + ToBytes(i.Words()) + p.payload;
    assert r[..14] == e.Encode() && r[14..50] == ToBytes(i.Words()) && r[50..] == p.payload;
    ReportWritten(hop, p.hdr, packet, r);
  }

  lemma EthernetThere(h: HeaderSet, packet: seq<Byte>)
    requires HeadersAt(h, packet)
    ensures h.ethernet.Some? && EthernetAt(h.ethernet.value, packet, 0)
  {}
}
