/**
 Where every field lies on the wire.  What the parser of `parser.p4` makes of a packet is stated
 byte by byte: which bytes it reads each field from, when it rejects the packet, and why.
 */
module Layouts {
  import opened Bytes
  import opened Options
  import opened Headers
  import opened Parser

  // ---------------------------------------------------------------------------
  // One predicate for each header: its fields, in the bytes from `at` on
  // ---------------------------------------------------------------------------

  predicate EthernetAt(e: Ethernet, bs: seq<Byte>, at: nat) {
    && at + 14 <= |bs|
    && e.dstAddr == Be16(bs, at) * TWO32 + WordAt(bs, at + 2)
    && e.srcAddr == Be16(bs, at + 6) * TWO32 + WordAt(bs, at + 8)
    && e.etherType == Be16(bs, at + 12)
  }

  predicate Ipv4At(ip: Ipv4, bs: seq<Byte>, at: nat) {
    && at + 20 <= |bs|
    && bs[at] == ip.version * 16 + ip.ihl && bs[at + 1] == ip.dscp * 4 + ip.ecn
    && Be16(bs, at + 2) == ip.totalLen
    && Be16(bs, at + 4) == ip.id
    && Be16(bs, at + 6) == ip.flags * 0x2000 + ip.fragOffset
    && bs[at + 8] == ip.ttl && bs[at + 9] == ip.protocol
    && Be16(bs, at + 10) == ip.checksum
    && WordAt(bs, at + 12) == ip.srcAddr && WordAt(bs, at + 16) == ip.dstAddr
  }

  predicate UdpAt(u: Udp, bs: seq<Byte>, at: nat) {
    && at + 8 <= |bs|
    && Be16(bs, at) == u.srcPort && Be16(bs, at + 2) == u.dstPort
    && Be16(bs, at + 4) == u.len && Be16(bs, at + 6) == u.csum
  }

  predicate TcpAt(t: Tcp, bs: seq<Byte>, at: nat) {
    && at + 20 <= |bs|
    && Be16(bs, at) == t.srcPort && Be16(bs, at + 2) == t.dstPort
    && WordAt(bs, at + 4) == t.seqNum && WordAt(bs, at + 8) == t.ackNum
    && Be16(bs, at + 12) == t.dataOffset * 0x1000 + t.reserved * 0x200 + t.flags
    && Be16(bs, at + 14) == t.winSize
    && Be16(bs, at + 16) == t.csum && Be16(bs, at + 18) == t.urgPoint
  }

  predicate ShimAt(s: Shim, bs: seq<Byte>, at: nat) {
    && at + 4 <= |bs|
    && bs[at] == s.intType && bs[at + 1] == s.rsvd1 && bs[at + 2] == s.len
    && bs[at + 3] == s.dscp * 4 + s.rsvd3
  }

  predicate IntHeaderAt(i: IntHeader, bs: seq<Byte>, at: nat) {
    && at + 8 <= |bs|
    && bs[at] == i.ver * 16 + i.rep * 4 + i.c * 2 + i.e
    && bs[at + 1] == i.m * 128 + i.rsvd1
    && bs[at + 2] == i.rsvd2 * 32 + i.hopMetadataLen
    && bs[at + 3] == i.remainingHopCnt
    && Be16(bs, at + 4) == i.instructionMask && Be16(bs, at + 6) == i.seqNo
  }

  // ---------------------------------------------------------------------------
  // Each header is read from there
  // ---------------------------------------------------------------------------

  /** Word `i` of a header extracted at `at`. */
  lemma WordOfSlice(bs: seq<Byte>, at: nat, n: nat, i: nat)
    requires at + n <= |bs| && n % 4 == 0 && i < n / 4
    ensures ToWords(bs[at..at + n])[i] == WordAt(bs, at + 4 * i)
  {}

  lemma {:induction false} EthernetReads(bs: seq<Byte>, at: nat)
    requires at + 14 <= |bs|
    ensures EthernetAt(Ethernet.Decode(bs[at..at + 14]), bs, at)
  {
    var e := bs[at..at + 14];
    hide WordAt, Hi, Lo, Word4;
    assert e[..12] == bs[at..at + 12];
    WordOfSlice(bs, at, 12, 0);
    WordOfSlice(bs, at, 12, 1);
    WordOfSlice(bs, at, 12, 2);
    BytesAtWord(bs, at + 4);
    WordOfHalves(bs, at);
    WordOfHalves(bs, at + 2);
  }

  /** A word read as two half-words. */
  lemma WordOfHalves(bs: seq<Byte>, at: nat)
    requires at + 4 <= |bs|
    ensures WordAt(bs, at) == Be16(bs, at) * TWO16 + Be16(bs, at + 2)
  {}

  /** The sub-byte fields of a half-word, put together again. */
  lemma SplitBytes(a: Byte, b: Byte)
    ensures var x := a * TWO8 + b;
            && x / TWO8 / 16 * 16 + x / TWO8 % 16 == a && x % TWO8 / 4 * 4 + x % 4 == b
            && x / TWO8 == a && x % TWO8 == b
  {}

  lemma SplitHalf(x: U16)
    ensures x / 8192 * 0x2000 + x % 8192 == x
  {}

  lemma {:induction false} Ipv4Reads(bs: seq<Byte>, at: nat)
    requires at + 20 <= |bs|
    ensures Ipv4At(Ipv4.OfWords(ToWords(bs[at..at + 20])), bs, at)
  {
    hide WordAt, Hi, Lo, ToWords;
    WordOfSlice(bs, at, 20, 0);
    WordOfSlice(bs, at, 20, 1);
    WordOfSlice(bs, at, 20, 2);
    WordOfSlice(bs, at, 20, 3);
    WordOfSlice(bs, at, 20, 4);
    BytesAtWord(bs, at);
    BytesAtWord(bs, at + 4);
    BytesAtWord(bs, at + 8);
    SplitBytes(bs[at], bs[at + 1]);
    SplitBytes(bs[at + 8], bs[at + 9]);
    SplitHalf(Be16(bs, at + 6));
  }

  lemma {:induction false} UdpReads(bs: seq<Byte>, at: nat)
    requires at + 8 <= |bs|
    ensures UdpAt(Udp.OfWords(ToWords(bs[at..at + 8])), bs, at)
  {
    hide WordAt, Hi, Lo;
    WordOfSlice(bs, at, 8, 0);
    WordOfSlice(bs, at, 8, 1);
    BytesAtWord(bs, at);
    BytesAtWord(bs, at + 4);
  }

  lemma {:induction false} TcpReads(bs: seq<Byte>, at: nat)
    requires at + 20 <= |bs|
    ensures TcpAt(Tcp.OfWords(ToWords(bs[at..at + 20])), bs, at)
  {
    hide WordAt, Hi, Lo, Be16;
    WordOfSlice(bs, at, 20, 0);
    WordOfSlice(bs, at, 20, 1);
    WordOfSlice(bs, at, 20, 2);
    WordOfSlice(bs, at, 20, 3);
    WordOfSlice(bs, at, 20, 4);
    BytesAtWord(bs, at);
    BytesAtWord(bs, at + 12);
    BytesAtWord(bs, at + 16);
  }

  lemma {:induction false} ShimReads(bs: seq<Byte>, at: nat)
    requires at + 4 <= |bs|
    ensures ShimAt(Shim.OfWords(ToWords(bs[at..at + 4])), bs, at)
  {
    hide WordAt, ByteOf, Be16;
    WordOfSlice(bs, at, 4, 0);
    BytesAtWord(bs, at);
  }

  lemma {:induction false} IntHeaderReads(bs: seq<Byte>, at: nat)
    requires at + 8 <= |bs|
    ensures IntHeaderAt(IntHeader.OfWords(ToWords(bs[at..at + 8])), bs, at)
  {
    hide WordAt, ByteOf, Hi, Lo, Be16;
    WordOfSlice(bs, at, 8, 0);
    WordOfSlice(bs, at, 8, 1);
    BytesAtWord(bs, at);
    BytesAtWord(bs, at + 4);
  }

  // ---------------------------------------------------------------------------
  // The parser's verdict
  // ---------------------------------------------------------------------------

  /** Where the UDP or TCP header ends. */
  function L4End(bs: seq<Byte>): nat
    requires |bs| >= 34
  {
    if bs[23] == 17 then 42 else 54
  }

  /** Is it an IPv4 packet that carries UDP or TCP? */
  predicate IsL4(bs: seq<Byte>) {
    |bs| >= 34 && Be16(bs, 12) == 0x0800 && (bs[23] == 17 || bs[23] == 6)
  }

  /** Is it marked as carrying telemetry? */
  predicate IsMarked(bs: seq<Byte>) {
    IsL4(bs) && bs[15] / 4 == 0x20
  }

  /** Why a packet is rejected, if it is: a check of its length and of three fields. */
  function Verdict(bs: seq<Byte>): Option<ParseError> {
    if |bs| < 14 then Some(PacketTooShort)
    else if Be16(bs, 12) != 0x0800 then None
    else if |bs| < 34 then Some(PacketTooShort)
    else if !IsL4(bs) then None
    else if |bs| < L4End(bs) then Some(PacketTooShort)
    else if !IsMarked(bs) then None
    else if |bs| < L4End(bs) + 4 then Some(PacketTooShort)
    else if bs[L4End(bs) + 2] < 3 then Some(INTShimLenTooShort)
    else if |bs| < L4End(bs) + 12 then Some(PacketTooShort)
    else if bs[L4End(bs) + 4] / 16 != 1 then Some(INTVersionNotSupported)
    else None
  }

  /** Where the headers of an accepted packet end. */
  function HeadersEnd(bs: seq<Byte>): nat
    requires |bs| >= 14
  {
    if Be16(bs, 12) != 0x0800 || |bs| < 34 then 14
    else if !IsL4(bs) then 34
    else L4End(bs) + if IsMarked(bs) then 12 else 0
  }

  /** The headers of a packet are those at their places, and there are no others. */
  predicate HeadersAt(h: HeaderSet, bs: seq<Byte>) {
    && NothingAdded(h)
    && h.ethernet.Some? && EthernetAt(h.ethernet.value, bs, 0)
    && (h.ipv4.Some? <==> Be16(bs, 12) == 0x0800)
    && (h.ipv4.Some? ==> Ipv4At(h.ipv4.value, bs, 14))
    && (h.udp.Some? <==> IsL4(bs) && bs[23] == 17)
    && (h.udp.Some? ==> UdpAt(h.udp.value, bs, 34))
    && (h.tcp.Some? <==> IsL4(bs) && bs[23] == 6)
    && (h.tcp.Some? ==> TcpAt(h.tcp.value, bs, 34))
    && (h.shim.Some? <==> IsMarked(bs)) && (h.intHeader.Some? <==> IsMarked(bs))
    && (h.shim.Some? ==> ShimAt(h.shim.value, bs, L4End(bs)))
    && (h.intHeader.Some? ==> IntHeaderAt(h.intHeader.value, bs, L4End(bs) + 4))
  }

  lemma {:induction false} IntHeaderState(h: HeaderSet, bs: seq<Byte>, at: nat)
    requires at <= |bs|
    ensures var p := ParseIntHeader(h, bs[at..]);
            if |bs| < at + 8 then p == Rejected(PacketTooShort)
            else if bs[at] / 16 != 1 then p == Rejected(INTVersionNotSupported)
            else && p.Accepted? && p.payload == bs[at + 8..] && p.hdr.intHeader.Some?
                 && p.hdr == h.(intHeader := p.hdr.intHeader) && IntHeaderAt(p.hdr.intHeader.value, bs, at)
  {
    hide ToWords, IntHeader.OfWords;
    if |bs| >= at + 8 {
      assert bs[at..][..8] == bs[at..at + 8];
      IntHeaderReads(bs, at);
    }
  }

  lemma {:induction false} ShimState(h: HeaderSet, bs: seq<Byte>, at: nat)
    requires at <= |bs|
    ensures var p := ParseIntShim(h, bs[at..]);
            if |bs| < at + 4 then p == Rejected(PacketTooShort)
            else if bs[at + 2] < 3 then p == Rejected(INTShimLenTooShort)
            else if |bs| < at + 12 then p == Rejected(PacketTooShort)
            else if bs[at + 4] / 16 != 1 then p == Rejected(INTVersionNotSupported)
            else && p.Accepted? && p.payload == bs[at + 12..] && p.hdr.shim.Some? && p.hdr.intHeader.Some?
                 && p.hdr == h.(shim := p.hdr.shim, intHeader := p.hdr.intHeader)
                 && ShimAt(p.hdr.shim.value, bs, at) && IntHeaderAt(p.hdr.intHeader.value, bs, at + 4)
  {
    hide ToWords, Shim.OfWords, ParseIntHeader, IntHeaderAt;
    if |bs| >= at + 4 {
      assert bs[at..][..4] == bs[at..at + 4] && bs[at..][4..] == bs[at + 4..];
      ShimReads(bs, at);
      var s := Shim.OfWords(ToWords(bs[at..at + 4]));
      IntHeaderState(h.(shim := Some(s)), bs, at + 4);
    }
  }

  /** What the UDP or TCP state and those after it leave. */
  ghost predicate FromL4At(h: HeaderSet, p: Parsed, bs: seq<Byte>)
    requires IsL4(bs) && Be16(bs, 12) == 0x0800
  {
    match Verdict(bs)
    case Some(e) => p == Rejected(e)
    case None =>
      && p.Accepted? && p.payload == bs[HeadersEnd(bs)..]
      && p.hdr == h.(udp := p.hdr.udp, tcp := p.hdr.tcp, shim := p.hdr.shim, intHeader := p.hdr.intHeader)
      && (if bs[23] == 17 then p.hdr.udp.Some? && p.hdr.tcp == h.tcp && UdpAt(p.hdr.udp.value, bs, 34)
          else p.hdr.tcp.Some? && p.hdr.udp == h.udp && TcpAt(p.hdr.tcp.value, bs, 34))
      && (if IsMarked(bs)
          then && p.hdr.shim.Some? && ShimAt(p.hdr.shim.value, bs, L4End(bs))
               && p.hdr.intHeader.Some? && IntHeaderAt(p.hdr.intHeader.value, bs, L4End(bs) + 4)
          else p.hdr.shim == h.shim && p.hdr.intHeader == h.intHeader)
  }

  lemma {:induction false} UdpState(h: HeaderSet, bs: seq<Byte>)
    requires IsL4(bs) && bs[23] == 17
    ensures FromL4At(h, ParseUdp(h, bs[15] / 4, bs[34..]), bs)
  {
    hide ToWords, Udp.OfWords, ParseIntShim, ShimAt, IntHeaderAt, UdpAt;
    if |bs| >= 42 {
      assert bs[34..][..8] == bs[34..42] && bs[34..][8..] == bs[42..];
      UdpReads(bs, 34);
      ShimState(h.(udp := Some(Udp.OfWords(ToWords(bs[34..42])))), bs, 42);
    }
  }

  lemma {:induction false} TcpState(h: HeaderSet, bs: seq<Byte>)
    requires IsL4(bs) && bs[23] == 6
    ensures FromL4At(h, ParseTcp(h, bs[15] / 4, bs[34..]), bs)
  {
    hide ToWords, Tcp.OfWords, ParseIntShim, ShimAt, IntHeaderAt, TcpAt;
    if |bs| >= 54 {
      assert bs[34..][..20] == bs[34..54] && bs[34..][20..] == bs[54..];
      TcpReads(bs, 34);
      ShimState(h.(tcp := Some(Tcp.OfWords(ToWords(bs[34..54])))), bs, 54);
    }
  }

  /**
   The parser against the bytes.  It rejects a packet exactly when, and for the reason, the
   verdict says; of an accepted packet it reads every field from its place, takes a header for
   present exactly when the fields before it announce it, and leaves the rest as payload.
   */
  lemma {:induction false} ParserReads(bs: seq<Byte>)
    ensures match Verdict(bs)
            case Some(e) => ParseEthernet(bs) == Rejected(e)
            case None => var p := ParseEthernet(bs);
              p.Accepted? && |bs| >= 14 && HeadersAt(p.hdr, bs) && p.payload == bs[HeadersEnd(bs)..]
  {
    hide ToWords, Ethernet.Decode, Ipv4.OfWords, ParseUdp, ParseTcp, UdpAt, TcpAt, ShimAt, IntHeaderAt;
    if |bs| >= 14 {
      assert bs[..14] == bs[0..0 + 14];
      EthernetReads(bs, 0);
      if Be16(bs, 12) == 0x0800 && |bs| >= 34 {
        assert bs[14..][..20] == bs[14..34] && bs[14..][20..] == bs[34..];
        Ipv4Reads(bs, 14);
        var ip := Ipv4.OfWords(ToWords(bs[14..34]));
        var h := NO_HEADERS.(ethernet := Some(Ethernet.Decode(bs[..14])), ipv4 := Some(ip));
        if ip.protocol == 17 {
          UdpState(h, bs);
        } else if ip.protocol == 6 {
          TcpState(h, bs);
        }
      }
    }
  }

  // ---------------------------------------------------------------------------
  // And written there: the bytes determine the header, and the header its bytes
  // ---------------------------------------------------------------------------

  lemma {:induction false} EthernetWritten(e: Ethernet, bs: seq<Byte>, at: nat)
    requires EthernetAt(e, bs, at)
    ensures bs[at..at + 14] == e.Encode()
  {
    hide Ethernet.Encode, Ethernet.Decode, WordAt, Be16;
    EthernetReads(bs, at);
    EthernetExact(bs[at..at + 14]);
  }

  lemma {:induction false} Ipv4Written(ip: Ipv4, bs: seq<Byte>, at: nat)
    requires Ipv4At(ip, bs, at)
    ensures bs[at..at + 20] == ToBytes(ip.Words())
  {
    hide Ipv4.Words, Ipv4.OfWords, ToWords, ToBytes, WordAt, Be16;
    Ipv4Reads(bs, at);
    Ipv4Exact(ToWords(bs[at..at + 20]));
    BytesSurviveParsing(bs[at..at + 20]);
    OneIpv4(ip, Ipv4.OfWords(ToWords(bs[at..at + 20])), bs, at);
  }

  lemma OneIpv4(a: Ipv4, b: Ipv4, bs: seq<Byte>, at: nat)
    requires Ipv4At(a, bs, at) && Ipv4At(b, bs, at)
    ensures a == b
  {
    hide WordAt, Be16;
    NibblesSplit(a.version, a.ihl, a.dscp, a.ecn, a.flags, a.fragOffset);
    NibblesSplit(b.version, b.ihl, b.dscp, b.ecn, b.flags, b.fragOffset);
  }

  lemma NibblesSplit(version: U4, ihl: U4, dscp: U6, ecn: U2, flags: U3, offset: U13)
    ensures (version * 16 + ihl) / 16 == version && (version * 16 + ihl) % 16 == ihl
    ensures (dscp * 4 + ecn) / 4 == dscp && (dscp * 4 + ecn) % 4 == ecn
    ensures (flags * 0x2000 + offset) / 0x2000 == flags && (flags * 0x2000 + offset) % 0x2000 == offset
  {}

  lemma {:induction false} UdpWritten(u: Udp, bs: seq<Byte>, at: nat)
    requires UdpAt(u, bs, at)
    ensures bs[at..at + 8] == ToBytes(u.Words())
  {
    hide Udp.Words, Udp.OfWords, ToWords, ToBytes, WordAt, Be16;
    UdpReads(bs, at);
    UdpExact(ToWords(bs[at..at + 8]));
    BytesSurviveParsing(bs[at..at + 8]);
  }

  lemma {:induction false} TcpWritten(t: Tcp, bs: seq<Byte>, at: nat)
    requires TcpAt(t, bs, at)
    ensures bs[at..at + 20] == ToBytes(t.Words())
  {
    hide Tcp.Words, Tcp.OfWords, ToWords, ToBytes, WordAt, Be16;
    TcpReads(bs, at);
    TcpExact(ToWords(bs[at..at + 20]));
    BytesSurviveParsing(bs[at..at + 20]);
    OneTcp(t, Tcp.OfWords(ToWords(bs[at..at + 20])), bs, at);
  }

  lemma OneTcp(a: Tcp, b: Tcp, bs: seq<Byte>, at: nat)
    requires TcpAt(a, bs, at) && TcpAt(b, bs, at)
    ensures a == b
  {
    hide WordAt, Be16;
    OffsetSplits(a.dataOffset, a.reserved, a.flags);
    OffsetSplits(b.dataOffset, b.reserved, b.flags);
  }

  lemma OffsetSplits(offset: U4, reserved: U3, flags: U9)
    ensures var x := offset * 0x1000 + reserved * 0x200 + flags;
            x / 0x1000 == offset && x % 0x1000 / 0x200 == reserved && x % 0x200 == flags
  {}

  lemma {:induction false} ShimWritten(s: Shim, bs: seq<Byte>, at: nat)
    requires ShimAt(s, bs, at)
    ensures bs[at..at + 4] == ToBytes(s.Words())
  {
    hide Shim.Words, Shim.OfWords, ToWords, ToBytes;
    ShimReads(bs, at);
    ShimExact(ToWords(bs[at..at + 4]));
    BytesSurviveParsing(bs[at..at + 4]);
  }

  lemma {:induction false} IntHeaderWritten(i: IntHeader, bs: seq<Byte>, at: nat)
    requires IntHeaderAt(i, bs, at)
    ensures bs[at..at + 8] == ToBytes(i.Words())
  {
    hide IntHeader.Words, IntHeader.OfWords, ToWords, ToBytes, Be16;
    IntHeaderReads(bs, at);
    IntHeaderExact(ToWords(bs[at..at + 8]));
    BytesSurviveParsing(bs[at..at + 8]);
    OneIntHeader(i, IntHeader.OfWords(ToWords(bs[at..at + 8])), bs, at);
  }

  lemma OneIntHeader(a: IntHeader, b: IntHeader, bs: seq<Byte>, at: nat)
    requires IntHeaderAt(a, bs, at) && IntHeaderAt(b, bs, at)
    ensures a == b
  {
    hide Be16;
    FirstByteSplits(a.ver, a.rep, a.c, a.e);
    FirstByteSplits(b.ver, b.rep, b.c, b.e);
    NextBytesSplit(a.m, a.rsvd1, a.rsvd2, a.hopMetadataLen);
    NextBytesSplit(b.m, b.rsvd1, b.rsvd2, b.hopMetadataLen);
  }

  lemma FirstByteSplits(ver: U4, rep: U2, c: U1, e: U1)
    ensures var x := ver * 16 + rep * 4 + c * 2 + e; x / 16 == ver && x % 16 / 4 == rep && x % 4 / 2 == c && x % 2 == e
  {}

  lemma NextBytesSplit(m: U1, rsvd1: U7, rsvd2: U3, len: U5)
    ensures (m * 128 + rsvd1) / 128 == m && (m * 128 + rsvd1) % 128 == rsvd1
    ensures (rsvd2 * 32 + len) / 32 == rsvd2 && (rsvd2 * 32 + len) % 32 == len
  {}

  /** Headers whose fields lie in a byte string are what it starts with, whatever the fields say. */
  lemma {:induction false} HeadersWritten(h: HeaderSet, bs: seq<Byte>)
    requires HeadersAt(h, bs)
    ensures HeadersEnd(bs) <= |bs| && EmitParsed(h) == bs[..HeadersEnd(bs)]
  {
    hide Ethernet.Encode, ToBytes, WordAt, Be16;
    EthernetWritten(h.ethernet.value, bs, 0);
    if h.ipv4.Some? {
      Ipv4Written(h.ipv4.value, bs, 14);
    }
    if h.udp.Some? {
      UdpWritten(h.udp.value, bs, 34);
    }
    if h.tcp.Some? {
      TcpWritten(h.tcp.value, bs, 34);
    }
    if h.shim.Some? {
      ShimWritten(h.shim.value, bs, L4End(bs));
      IntHeaderWritten(h.intHeader.value, bs, L4End(bs) + 4);
    }
  }
}
