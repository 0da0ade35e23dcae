/**
 The parser states and the deparser of `parser.p4`, as functions on byte strings, and the
 proof that each undoes the other.
 */
module Parser {
  import opened Bytes
  import opened Options
  import opened Headers

  datatype ParseError = PacketTooShort | INTShimLenTooShort | INTVersionNotSupported

  /** The outcome of parsing: the headers extracted and the bytes left over, or an error. */
  datatype Parsed = Accepted(hdr: HeaderSet, payload: seq<Byte>) | Rejected(error: ParseError)

  // One function per parser state: `h` holds the headers extracted so far and `bs` the
  // bytes not yet consumed.

  function ParseEthernet(bs: seq<Byte>): Parsed {
    if |bs| < 14 then Rejected(PacketTooShort) else
    var e := Ethernet.Decode(bs[..14]);
    var h := NO_HEADERS.(ethernet := Some(e));
    if e.etherType == ETHERTYPE_IPV4 then ParseIpv4(h, bs[14..]) else Accepted(h, bs[14..])
  }

  function ParseIpv4(h: HeaderSet, bs: seq<Byte>): Parsed {
    if |bs| < 20 then Rejected(PacketTooShort) else
    var ip := Ipv4.OfWords(ToWords(bs[..20]));
    var h' := h.(ipv4 := Some(ip));
    if ip.protocol == PROTOCOL_UDP then ParseUdp(h', ip.dscp, bs[20..])
    else if ip.protocol == PROTOCOL_TCP then ParseTcp(h', ip.dscp, bs[20..])
    else Accepted(h', bs[20..])
  }

  function ParseUdp(h: HeaderSet, dscp: U6, bs: seq<Byte>): Parsed {
    if |bs| < 8 then Rejected(PacketTooShort) else
    var h' := h.(udp := Some(Udp.OfWords(ToWords(bs[..8]))));
    if dscp == IPV4_DSCP_INT then ParseIntShim(h', bs[8..]) else Accepted(h', bs[8..])
  }

  function ParseTcp(h: HeaderSet, dscp: U6, bs: seq<Byte>): Parsed {
    if |bs| < 20 then Rejected(PacketTooShort) else
    var h' := h.(tcp := Some(Tcp.OfWords(ToWords(bs[..20]))));
    if dscp == IPV4_DSCP_INT then ParseIntShim(h', bs[20..]) else Accepted(h', bs[20..])
  }

  function ParseIntShim(h: HeaderSet, bs: seq<Byte>): Parsed {
    if |bs| < 4 then Rejected(PacketTooShort) else
    var shim := Shim.OfWords(ToWords(bs[..4]));
    if shim.len < 3 then Rejected(INTShimLenTooShort)
    else ParseIntHeader(h.(shim := Some(shim)), bs[4..])
  }

  function ParseIntHeader(h: HeaderSet, bs: seq<Byte>): Parsed {
    if |bs| < 8 then Rejected(PacketTooShort) else
    var ih := IntHeader.OfWords(ToWords(bs[..8]));
    if ih.ver != INT_VERSION then Rejected(INTVersionNotSupported)
    else Accepted(h.(intHeader := Some(ih)), bs[8..])
  }

  // The deparser emits every valid header, in this order.

  function EmitEthernet(e: Option<Ethernet>): seq<Byte> {
    if e.Some? then e.value.Encode() else []
  }

  function EmitIpv4(h: Option<Ipv4>): seq<Byte> {
    if h.Some? then ToBytes(h.value.Words()) else []
  }

  function EmitUdp(h: Option<Udp>): seq<Byte> {
    if h.Some? then ToBytes(h.value.Words()) else []
  }

  function EmitTcp(h: Option<Tcp>): seq<Byte> {
    if h.Some? then ToBytes(h.value.Words()) else []
  }

  function EmitShim(h: Option<Shim>): seq<Byte> {
    if h.Some? then ToBytes(h.value.Words()) else []
  }

  function EmitIntHeader(h: Option<IntHeader>): seq<Byte> {
    if h.Some? then ToBytes(h.value.Words()) else []
  }

  function EmitSwitchId(id: Option<U32>): seq<Byte> {
    if id.Some? then ToBytes([id.value]) else []
  }

  function EmitPortIds(p: Option<PortIds>): seq<Byte> {
    if p.Some? then ToBytes(p.value.Words()) else []
  }

  function EmitTstamp(t: Option<Tstamp>): seq<Byte> {
    if t.Some? then ToBytes(t.value.Words()) else []
  }

  function EmitInflux(i: Option<Influx>): seq<Byte> {
    if i.Some? then ToBytes(i.value.Words()) else []
  }

  /** The headers a parser can have extracted. */
  function EmitParsed(h: HeaderSet): seq<Byte> {
    EmitEthernet(h.ethernet) + EmitIpv4(h.ipv4) + EmitUdp(h.udp) + EmitTcp(h.tcp)
    + EmitShim(h.shim) + EmitIntHeader(h.intHeader)
  }

  /** The headers only this node can have added. */
  function EmitAdded(h: HeaderSet): seq<Byte> {
    EmitSwitchId(h.switchId) + EmitPortIds(h.portIds) + EmitTstamp(h.ingressTs) + EmitTstamp(h.egressTs)
    + EmitInflux(h.influx)
  }

  function Deparse(h: HeaderSet): seq<Byte> {
    EmitParsed(h) + EmitAdded(h)
  }

  /** No node metadata and no report header: what the parser always leaves. */
  predicate NothingAdded(h: HeaderSet) {
    h.switchId.None? && h.portIds.None? && h.ingressTs.None? && h.egressTs.None? && h.influx.None?
  }

  /** The header sets the parser can accept, as a condition on the headers themselves. */
  predicate WellFormed(h: HeaderSet) {
    && NothingAdded(h)
    && h.ethernet.Some?
    && (h.ipv4.Some? <==> h.ethernet.value.etherType == ETHERTYPE_IPV4)
    && (h.udp.Some? <==> h.ipv4.Some? && h.ipv4.value.protocol == PROTOCOL_UDP)
    && (h.tcp.Some? <==> h.ipv4.Some? && h.ipv4.value.protocol == PROTOCOL_TCP)
    && (h.shim.Some? <==> (h.udp.Some? || h.tcp.Some?) && h.ipv4.value.dscp == IPV4_DSCP_INT)
    && (h.intHeader.Some? <==> h.shim.Some?)
    && (h.shim.Some? ==> h.shim.value.len >= 3)
    && (h.intHeader.Some? ==> h.intHeader.value.ver == INT_VERSION)
  }

  // ---------------------------------------------------------------------------
  // Deparsing what was parsed
  // ---------------------------------------------------------------------------

  /** What has been extracted, re-emitted, followed by what has not: always the packet. */
  ghost predicate Whole(h: HeaderSet, rest: seq<Byte>, packet: seq<Byte>) {
    NothingAdded(h) && EmitParsed(h) + rest == packet
  }

  ghost predicate ParsedWhole(p: Parsed, packet: seq<Byte>) {
    p.Accepted? ==> WellFormed(p.hdr) && Whole(p.hdr, p.payload, packet)
  }

  /** The headers expected after the one being parsed are still invalid. */
  ghost predicate FromIpv4(h: HeaderSet) {
    NothingAdded(h) && h.ethernet.Some? && h.ethernet.value.etherType == ETHERTYPE_IPV4
    && h.ipv4.None? && h.udp.None? && h.tcp.None? && h.shim.None? && h.intHeader.None?
  }

  ghost predicate FromL4(h: HeaderSet) {
    NothingAdded(h) && h.ethernet.Some? && h.ethernet.value.etherType == ETHERTYPE_IPV4
    && h.ipv4.Some? && h.udp.None? && h.tcp.None? && h.shim.None? && h.intHeader.None?
  }

  ghost predicate FromShim(h: HeaderSet) {
    && NothingAdded(h) && h.ethernet.Some? && h.ethernet.value.etherType == ETHERTYPE_IPV4
    && h.ipv4.Some? && h.ipv4.value.dscp == IPV4_DSCP_INT
    && (h.udp.Some? <==> h.ipv4.value.protocol == PROTOCOL_UDP)
    && (h.tcp.Some? <==> h.ipv4.value.protocol == PROTOCOL_TCP)
    && (h.udp.Some? || h.tcp.Some?)
    && h.intHeader.None?
  }

  lemma {:induction false} Reemit(bs: seq<Byte>, n: nat)
    requires n <= |bs| && n % 4 == 0
    ensures ToBytes(ToWords(bs[..n])) + bs[n..] == bs
  {
    BytesSurviveParsing(bs[..n]);
  }

  /** Emitting a header just extracted after those before it. */
  lemma EmitNext(h: HeaderSet, h': HeaderSet, extracted: seq<Byte>, rest: seq<Byte>, bs: seq<Byte>, packet: seq<Byte>)
    requires Whole(h, bs, packet) && NothingAdded(h')
    requires bs == extracted + rest && EmitParsed(h') == EmitParsed(h) + extracted
    ensures Whole(h', rest, packet)
  {
    hide EmitParsed;
    assert EmitParsed(h) + extracted + rest == EmitParsed(h) + (extracted + rest);
  }

  lemma EmitIpv4Next(h: HeaderSet, ip: Ipv4)
    requires FromIpv4(h)
    ensures EmitParsed(h.(ipv4 := Some(ip))) == EmitParsed(h) + ToBytes(ip.Words())
  {
    hide ToBytes, Ipv4.Words;
  }

  lemma EmitUdpNext(h: HeaderSet, u: Udp)
    requires FromL4(h)
    ensures EmitParsed(h.(udp := Some(u))) == EmitParsed(h) + ToBytes(u.Words())
  {
    hide ToBytes, Udp.Words;
  }

  lemma EmitTcpNext(h: HeaderSet, t: Tcp)
    requires FromL4(h)
    ensures EmitParsed(h.(tcp := Some(t))) == EmitParsed(h) + ToBytes(t.Words())
  {
    hide ToBytes, Tcp.Words;
  }

  lemma EmitShimNext(h: HeaderSet, s: Shim)
    requires h.shim.None? && h.intHeader.None?
    ensures EmitParsed(h.(shim := Some(s))) == EmitParsed(h) + ToBytes(s.Words())
  {
    hide ToBytes, Shim.Words;
  }

  lemma EmitIntHeaderNext(h: HeaderSet, ih: IntHeader)
    requires h.intHeader.None?
    ensures EmitParsed(h.(intHeader := Some(ih))) == EmitParsed(h) + ToBytes(ih.Words())
  {
    hide ToBytes, IntHeader.Words;
  }

  lemma {:induction false} IntHeaderExtracted(h: HeaderSet, bs: seq<Byte>, packet: seq<Byte>)
    requires FromShim(h) && h.shim.Some? && h.shim.value.len >= 3 && Whole(h, bs, packet)
    ensures ParsedWhole(ParseIntHeader(h, bs), packet)
  {
    hide ToBytes, ToWords, IntHeader.Words, IntHeader.OfWords, EmitParsed;
    if |bs| >= 8 {
      Reemit(bs, 8);
      IntHeaderExact(ToWords(bs[..8]));
      var ih := IntHeader.OfWords(ToWords(bs[..8]));
      EmitIntHeaderNext(h, ih);
      var h' := h.(intHeader := Some(ih));
      EmitNext(h, h', ToBytes(ih.Words()), bs[8..], bs, packet);
    }
  }

  lemma {:induction false} ShimExtracted(h: HeaderSet, bs: seq<Byte>, packet: seq<Byte>)
    requires FromShim(h) && h.shim.None? && Whole(h, bs, packet)
    ensures ParsedWhole(ParseIntShim(h, bs), packet)
  {
    hide ToBytes, ToWords, Shim.Words, Shim.OfWords, EmitParsed, ParseIntHeader;
    if |bs| >= 4 {
      Reemit(bs, 4);
      ShimExact(ToWords(bs[..4]));
      var shim := Shim.OfWords(ToWords(bs[..4]));
      EmitShimNext(h, shim);
      var h' := h.(shim := Some(shim));
      EmitNext(h, h', ToBytes(shim.Words()), bs[4..], bs, packet);
      if shim.len >= 3 {
        IntHeaderExtracted(h', bs[4..], packet);
      }
    }
  }

  lemma {:induction false} UdpExtracted(h: HeaderSet, bs: seq<Byte>, packet: seq<Byte>)
    requires FromL4(h) && h.ipv4.value.protocol == PROTOCOL_UDP && Whole(h, bs, packet)
    ensures ParsedWhole(ParseUdp(h, h.ipv4.value.dscp, bs), packet)
  {
    hide ToBytes, ToWords, Udp.Words, Udp.OfWords, EmitParsed, ParseIntShim;
    if |bs| >= 8 {
      Reemit(bs, 8);
      UdpExact(ToWords(bs[..8]));
      var u := Udp.OfWords(ToWords(bs[..8]));
      EmitUdpNext(h, u);
      var h' := h.(udp := Some(u));
      EmitNext(h, h', ToBytes(u.Words()), bs[8..], bs, packet);
      if h.ipv4.value.dscp == IPV4_DSCP_INT {
        ShimExtracted(h', bs[8..], packet);
      }
    }
  }

  lemma {:induction false} TcpExtracted(h: HeaderSet, bs: seq<Byte>, packet: seq<Byte>)
    requires FromL4(h) && h.ipv4.value.protocol == PROTOCOL_TCP && Whole(h, bs, packet)
    ensures ParsedWhole(ParseTcp(h, h.ipv4.value.dscp, bs), packet)
  {
    hide ToBytes, ToWords, Tcp.Words, Tcp.OfWords, EmitParsed, ParseIntShim;
    if |bs| >= 20 {
      Reemit(bs, 20);
      TcpExact(ToWords(bs[..20]));
      var t := Tcp.OfWords(ToWords(bs[..20]));
      EmitTcpNext(h, t);
      var h' := h.(tcp := Some(t));
      EmitNext(h, h', ToBytes(t.Words()), bs[20..], bs, packet);
      if h.ipv4.value.dscp == IPV4_DSCP_INT {
        ShimExtracted(h', bs[20..], packet);
      }
    }
  }

  lemma {:induction false} Ipv4Extracted(h: HeaderSet, bs: seq<Byte>, packet: seq<Byte>)
    requires FromIpv4(h) && Whole(h, bs, packet)
    ensures ParsedWhole(ParseIpv4(h, bs), packet)
  {
    hide ToBytes, ToWords, Ipv4.Words, Ipv4.OfWords, EmitParsed, ParseUdp, ParseTcp;
    if |bs| >= 20 {
      Reemit(bs, 20);
      Ipv4Exact(ToWords(bs[..20]));
      var ip := Ipv4.OfWords(ToWords(bs[..20]));
      EmitIpv4Next(h, ip);
      var h' := h.(ipv4 := Some(ip));
      EmitNext(h, h', ToBytes(ip.Words()), bs[20..], bs, packet);
      if ip.protocol == PROTOCOL_UDP {
        UdpExtracted(h', bs[20..], packet);
      } else if ip.protocol == PROTOCOL_TCP {
        TcpExtracted(h', bs[20..], packet);
      }
    }
  }

  /**
   Whatever bytes arrive: if they are accepted, deparsing the headers and appending the
   unparsed payload gives them back, and the headers are well formed.
   */
  lemma {:induction false} DeparseUndoesParse(bs: seq<Byte>)
    requires ParseEthernet(bs).Accepted?
    ensures var p := ParseEthernet(bs);
            WellFormed(p.hdr) && Deparse(p.hdr) + p.payload == bs
  {
    var p := ParseEthernet(bs);
    assert ParsedWhole(p, bs) by {
      hide Ethernet.Encode, Ethernet.Decode, ParseIpv4;
      EthernetExact(bs[..14]);
      var e := Ethernet.Decode(bs[..14]);
      var h := NO_HEADERS.(ethernet := Some(e));
      assert EmitParsed(h) == bs[..14];
      assert EmitParsed(h) + bs[14..] == bs;
      if e.etherType == ETHERTYPE_IPV4 {
        Ipv4Extracted(h, bs[14..], bs);
      }
    }
    NothingToAdd(p.hdr);
  }

  lemma NothingToAdd(h: HeaderSet)
    requires NothingAdded(h)
    ensures Deparse(h) == EmitParsed(h)
  {
    assert EmitAdded(h) == [];
  }

  // ---------------------------------------------------------------------------
  // Parsing what was deparsed
  // ---------------------------------------------------------------------------

  lemma {:induction false} Reread(ws: seq<U32>, rest: seq<Byte>)
    ensures var bs := ToBytes(ws) + rest;
            ToWords(bs[..4 * |ws|]) == ws && bs[4 * |ws|..] == rest
  {
    var bs := ToBytes(ws) + rest;
    assert bs[..4 * |ws|] == ToBytes(ws);
    WordsSurviveTransport(ws);
  }

  lemma {:induction false} ReparseInt(h: HeaderSet, shim: Shim, ih: IntHeader, payload: seq<Byte>)
    requires shim.len >= 3 && ih.ver == INT_VERSION
    ensures ParseIntShim(h, ToBytes(shim.Words()) + (ToBytes(ih.Words()) + payload))
            == Accepted(h.(shim := Some(shim), intHeader := Some(ih)), payload)
  {
    hide ToBytes, ToWords;
    Reread(shim.Words(), ToBytes(ih.Words()) + payload);
    ShimRoundTrip(shim);
    Reread(ih.Words(), payload);
    IntHeaderRoundTrip(ih);
  }

  /** The INT part, if any, followed by the payload. */
  function IntTail(h: HeaderSet, payload: seq<Byte>): seq<Byte> {
    if h.shim.Some? && h.intHeader.Some?
    then ToBytes(h.shim.value.Words()) + (ToBytes(h.intHeader.value.Words()) + payload)
    else payload
  }

  lemma {:induction false} ReparseL4(h: HeaderSet, payload: seq<Byte>)
    requires WellFormed(h) && h.ipv4.Some?
    ensures var bare := NO_HEADERS.(ethernet := h.ethernet, ipv4 := h.ipv4);
            && (h.udp.Some? ==>
                  ParseUdp(bare, h.ipv4.value.dscp, ToBytes(h.udp.value.Words()) + IntTail(h, payload))
                  == Accepted(h, payload))
            && (h.tcp.Some? ==>
                  ParseTcp(bare, h.ipv4.value.dscp, ToBytes(h.tcp.value.Words()) + IntTail(h, payload))
                  == Accepted(h, payload))
  {
    hide ToBytes, ToWords, ParseIntShim, Udp.OfWords, Tcp.OfWords;
    var bare := NO_HEADERS.(ethernet := h.ethernet, ipv4 := h.ipv4);
    if h.udp.Some? {
      Reread(h.udp.value.Words(), IntTail(h, payload));
      UdpRoundTrip(h.udp.value);
    }
    if h.tcp.Some? {
      Reread(h.tcp.value.Words(), IntTail(h, payload));
      TcpRoundTrip(h.tcp.value);
    }
    if h.shim.Some? {
      ReparseInt(bare.(udp := h.udp, tcp := h.tcp), h.shim.value, h.intHeader.value, payload);
    }
  }

  lemma {:induction false} EmitParsedNested(h: HeaderSet, payload: seq<Byte>)
    requires WellFormed(h)
    ensures EmitParsed(h) + payload ==
            h.ethernet.value.Encode() +
            if h.ipv4.None? then payload else
            ToBytes(h.ipv4.value.Words()) +
            if h.udp.Some? then ToBytes(h.udp.value.Words()) + IntTail(h, payload)
            else if h.tcp.Some? then ToBytes(h.tcp.value.Words()) + IntTail(h, payload)
            else payload
  {
    hide ToBytes, Ethernet.Encode;
  }

  /** Parsing the bytes of any well-formed header set and payload recovers both. */
  lemma {:induction false} ParseUndoesDeparse(h: HeaderSet, payload: seq<Byte>)
    requires WellFormed(h)
    ensures ParseEthernet(Deparse(h) + payload) == Accepted(h, payload)
  {
    hide ToBytes, ToWords, Ethernet.Encode, Ethernet.Decode, Ipv4.OfWords, ParseUdp, ParseTcp, EmitParsed;
    NothingToAdd(h);
    EmitParsedNested(h, payload);
    var bs := EmitParsed(h) + payload;
    EthernetRoundTrip(h.ethernet.value);
    assert bs[..14] == h.ethernet.value.Encode();
    if h.ipv4.Some? {
      var ip := h.ipv4.value;
      var rest := if h.udp.Some? then ToBytes(h.udp.value.Words()) + IntTail(h, payload)
                  else if h.tcp.Some? then ToBytes(h.tcp.value.Words()) + IntTail(h, payload)
                  else payload;
      assert bs[14..] == ToBytes(ip.Words()) + rest;
      Reread(ip.Words(), rest);
      Ipv4RoundTrip(ip);
      ReparseL4(h, payload);
    } else {
      assert bs[14..] == payload;
    }
  }

  /** The headers of a packet marked as carrying telemetry, up to the shim. */
  predicate UpToShim(h: HeaderSet) {
    && NothingAdded(h)
    && h.ethernet.Some? && h.ethernet.value.etherType == ETHERTYPE_IPV4
    && h.ipv4.Some? && h.ipv4.value.dscp == IPV4_DSCP_INT
    && (h.udp.Some? <==> h.ipv4.value.protocol == PROTOCOL_UDP)
    && (h.tcp.Some? <==> h.ipv4.value.protocol == PROTOCOL_TCP)
    && (h.udp.Some? || h.tcp.Some?)
    && h.shim.Some? && h.intHeader.None?
  }

  /** A shim whose length field is too small stops the parser, whatever bytes follow it. */
  lemma {:induction false} ShortShimRejected(h: HeaderSet, rest: seq<Byte>)
    requires UpToShim(h) && h.shim.value.len < 3
    ensures ParseEthernet(Deparse(h) + rest) == Rejected(INTShimLenTooShort)
  {
    hide ToBytes, ToWords, Ethernet.Encode, Ethernet.Decode, Ipv4.OfWords, Udp.OfWords, Tcp.OfWords, Shim.OfWords;
    var shim, ip := h.shim.value, h.ipv4.value;
    var tail := ToBytes(shim.Words()) + rest;
    var l4 := if h.udp.Some? then h.udp.value.Words() else h.tcp.value.Words();
    DeparseNested(h, rest);
    var bs := h.ethernet.value.Encode() + (ToBytes(ip.Words()) + (ToBytes(l4) + tail));
    assert bs[..14] == h.ethernet.value.Encode();
    assert bs[14..] == ToBytes(ip.Words()) + (ToBytes(l4) + tail);
    EthernetRoundTrip(h.ethernet.value);
    Reread(ip.Words(), ToBytes(l4) + tail);
    Ipv4RoundTrip(ip);
    Reread(l4, tail);
    if h.udp.Some? {
      UdpRoundTrip(h.udp.value);
    } else {
      TcpRoundTrip(h.tcp.value);
    }
    Reread(shim.Words(), rest);
    ShimRoundTrip(shim);
  }

  lemma {:induction false} DeparseNested(h: HeaderSet, rest: seq<Byte>)
    requires UpToShim(h)
    ensures var l4 := if h.udp.Some? then h.udp.value.Words() else h.tcp.value.Words();
            Deparse(h) + rest ==
            h.ethernet.value.Encode() + (ToBytes(h.ipv4.value.Words()) + (ToBytes(l4) +
            (ToBytes(h.shim.value.Words()) + rest)))
  {
    hide ToBytes, Ethernet.Encode;
    NothingToAdd(h);
  }
}
