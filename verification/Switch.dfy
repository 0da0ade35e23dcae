/**
 A t4p4s node as it runs: a header set that the parser states and the actions update in
 place, and the register that numbers packets.  Every step is proved to do what the
 functions of `Parser` and `Dataplane` say, so their theorems hold of this code.
 */
module Switches {
  import opened Bytes
  import opened Options
  import opened Headers
  import opened Checksum
  import opened Parser
  import opened Dataplane

  datatype ParserState = ParsingEthernet | ParsingIpv4 | ParsingUdp | ParsingTcp | ParsingShim | ParsingIntHeader
          | Accept

  /** What the states from `state` on make of the unconsumed bytes. */
  function Resume(state: ParserState, h: HeaderSet, dscp: U6, bs: seq<Byte>): Parsed {
    match state
    case ParsingEthernet => ParseEthernet(bs)
    case ParsingIpv4 => ParseIpv4(h, bs)
    case ParsingUdp => ParseUdp(h, dscp, bs)
    case ParsingTcp => ParseTcp(h, dscp, bs)
    case ParsingShim => ParseIntShim(h, bs)
    case ParsingIntHeader => ParseIntHeader(h, bs)
    case Accept => Accepted(h, bs)
  }

  function StatesLeft(state: ParserState): nat {
    match state
    case ParsingEthernet => 5
    case ParsingIpv4 => 4
    case ParsingUdp => 3
    case ParsingTcp => 3
    case ParsingShim => 2
    case ParsingIntHeader => 1
    case Accept => 0
  }

  class Switch {
    const cfg: Config
    var hdr: HeaderSet
    var seqRegister: U16

    constructor (cfg: Config)
      ensures this.cfg == cfg && seqRegister == 0
    {
      this.cfg := cfg;
      hdr := NO_HEADERS;
      seqRegister := 0;
    }

    /** The parser: one state after another extracts its header into `hdr`. */
    method Parse(packet: seq<Byte>) returns (result: Parsed)
      modifies this`hdr
      ensures result == ParseEthernet(packet)
      ensures result.Accepted? ==> hdr == result.hdr
    {
      hide ParseEthernet, ParseIpv4, ParseUdp, ParseTcp, ParseIntShim, ParseIntHeader;
      var state, rest, dscp: U6 := ParsingEthernet, packet, 0;
      hdr := NO_HEADERS;
      while state != Accept
        invariant ParseEthernet(packet) == Resume(state, hdr, dscp, rest)
        invariant state == ParsingEthernet ==> hdr == NO_HEADERS
        decreases StatesLeft(state)
      {
        var error;
        state, rest, dscp, error := Extract(state, rest, dscp);
        if error.Some? {
          return Rejected(error.value);
        }
      }
      result := Accepted(hdr, rest);
    }

    /** One parser state: extract its header, check it, select the next state. */
    method Extract(state: ParserState, bs: seq<Byte>, dscp: U6)
      returns (state': ParserState, rest: seq<Byte>, dscp': U6, error: Option<ParseError>)
      requires state != Accept
      requires state == ParsingEthernet ==> hdr == NO_HEADERS
      modifies this`hdr
      ensures Resume(state, old(hdr), dscp, bs) ==
              if error.Some? then Rejected(error.value) else Resume(state', hdr, dscp', rest)
      ensures error.None? ==> state' != ParsingEthernet && StatesLeft(state') < StatesLeft(state)
    {
      state', rest, dscp', error := Accept, bs, dscp, None;
      var width := match state
        case ParsingEthernet => 14
        case ParsingUdp => 8
        case ParsingShim => 4
        case ParsingIntHeader => 8
        case _ => 20;
      if |bs| < width {
        error := Some(PacketTooShort);
        return;
      }
      rest := bs[width..];
      match state
      case ParsingEthernet =>
        var e := Ethernet.Decode(bs[..14]);
        hdr := hdr.(ethernet := Some(e));
        if e.etherType == ETHERTYPE_IPV4 {
          state' := ParsingIpv4;
        }
      case ParsingIpv4 =>
        var ip := Ipv4.OfWords(ToWords(bs[..20]));
        hdr := hdr.(ipv4 := Some(ip));
        dscp' := ip.dscp;
        if ip.protocol == PROTOCOL_UDP {
          state' := ParsingUdp;
        } else if ip.protocol == PROTOCOL_TCP {
          state' := ParsingTcp;
        }
      case ParsingUdp =>
        hdr := hdr.(udp := Some(Udp.OfWords(ToWords(bs[..8]))));
        if dscp == IPV4_DSCP_INT {
          state' := ParsingShim;
        }
      case ParsingTcp =>
        hdr := hdr.(tcp := Some(Tcp.OfWords(ToWords(bs[..20]))));
        if dscp == IPV4_DSCP_INT {
          state' := ParsingShim;
        }
      case ParsingShim =>
        var shim := Shim.OfWords(ToWords(bs[..4]));
        if shim.len < 3 {
          error := Some(INTShimLenTooShort);
          return;
        }
        hdr := hdr.(shim := Some(shim));
        state' := ParsingIntHeader;
      case ParsingIntHeader =>
        var ih := IntHeader.OfWords(ToWords(bs[..8]));
        if ih.ver != INT_VERSION {
          error := Some(INTVersionNotSupported);
          return;
        }
        hdr := hdr.(intHeader := Some(ih));
    }

    /** `ip_checksum_sub`, statement by statement, in 16-bit arithmetic. */
    method IpChecksumSub(value: U16)
      requires hdr.ipv4.Some?
      modifies this`hdr
      ensures var ip := old(hdr).ipv4.value;
              hdr == old(hdr).(ipv4 := Some(ip.(checksum := SubFrom(ip.checksum, value))))
    {
      SetChecksum(Not16(hdr.ipv4.value.checksum));
      if hdr.ipv4.value.checksum < value {
        SetChecksum((hdr.ipv4.value.checksum + TWO16 - 1) % TWO16);
      }
      SetChecksum((hdr.ipv4.value.checksum + TWO16 - value) % TWO16);
      SetChecksum(Not16(hdr.ipv4.value.checksum));
    }

    /** `ip_checksum_add`: the carry shows as a sum smaller than what was added. */
    method IpChecksumAdd(value: U16)
      requires hdr.ipv4.Some?
      modifies this`hdr
      ensures var ip := old(hdr).ipv4.value;
              hdr == old(hdr).(ipv4 := Some(ip.(checksum := AddTo(ip.checksum, value))))
    {
      SetChecksum(Not16(hdr.ipv4.value.checksum));
      SetChecksum((hdr.ipv4.value.checksum + value) % TWO16);
      if hdr.ipv4.value.checksum < value {
        SetChecksum((hdr.ipv4.value.checksum + 1) % TWO16);
      }
      SetChecksum(Not16(hdr.ipv4.value.checksum));
    }

    method SetChecksum(value: U16)
      requires hdr.ipv4.Some?
      modifies this`hdr
      ensures hdr == old(hdr).(ipv4 := Some(old(hdr).ipv4.value.(checksum := value)))
    {
      hdr := hdr.(ipv4 := Some(hdr.ipv4.value.(checksum := value)));
    }

    /** `configure_source`, with the number drawn from the register. */
    method ApplySource()
      requires hdr.ipv4.Some?
      modifies this
      ensures seqRegister == Plus16(old(seqRegister), 1)
      ensures hdr == ConfigureSource(old(hdr), seqRegister)
    {
      if hdr.shim.None? {
        hdr := hdr.(shim := Some(Shim(0, 0, 0, 0, 0)));
      }
      hdr := hdr.(shim := Some(hdr.shim.value.(intType := INT_TYPE_HOP_BY_HOP, len := INT_ALL_HEADER_LEN_BYTES / 4)));
      if hdr.intHeader.None? {
        hdr := hdr.(intHeader := Some(IntHeader(0, 0, 0, 0, 0, 0, 0, 0, 0, 0, 0)));
      }
      hdr := hdr.(intHeader := Some(hdr.intHeader.value.(
        ver := INT_VERSION, rep := 0, c := 0, e := 0, rsvd1 := 1, rsvd2 := 0,
        hopMetadataLen := 6, remainingHopCnt := 0xff, instructionMask := 0x00cc)));
      seqRegister := Plus16(seqRegister, 1);
      hdr := hdr.(intHeader := Some(hdr.intHeader.value.(seqNo := seqRegister)));
      hdr := hdr.(shim := Some(hdr.shim.value.(dscp := hdr.ipv4.value.dscp)));
      hdr := hdr.(ipv4 := Some(hdr.ipv4.value.(dscp := IPV4_DSCP_INT)));
      hdr := hdr.(ipv4 := GrowIpv4(hdr.ipv4, SOURCE_GROWTH));
      hdr := hdr.(udp := GrowUdp(hdr.udp, SOURCE_GROWTH));
      if hdr.udp.Some? {
        hdr := hdr.(udp := Some(hdr.udp.value.(csum := 0)));
      }
      if hdr.tcp.Some? {
        hdr := hdr.(tcp := Some(hdr.tcp.value.(csum := 0)));
      }
    }

    method ApplyTransit(md: Metadata)
      modifies this`hdr
      ensures hdr == Transit(cfg, old(hdr), md)
    {
      if hdr.intHeader.None? {
        return;
      }
      hdr := hdr.(switchId := Some(cfg.switchId));
      hdr := hdr.(portIds := Some(PortIds(md.ingressPort, md.egressPort)));
      hdr := hdr.(ingressTs := Some(md.ingressTs));
      hdr := hdr.(egressTs := Some(md.egressTsEarly));
      hdr := hdr.(ipv4 := GrowIpv4(hdr.ipv4, NODE_GROWTH));
      hdr := hdr.(udp := GrowUdp(hdr.udp, NODE_GROWTH));
      if hdr.shim.Some? {
        hdr := hdr.(shim := Some(hdr.shim.value.(len := (hdr.shim.value.len + 6) % TWO8)));
      }
      var hops := hdr.intHeader.value.remainingHopCnt;
      hdr := hdr.(intHeader := Some(hdr.intHeader.value.(remainingHopCnt := (hops + 0xff) % TWO8)));
    }

    method ApplySink(md: Metadata)
      requires hdr.ipv4.Some? && (hdr.tcp.Some? || hdr.udp.Some?) && hdr.influx.None?
      modifies this`hdr
      ensures hdr == Sink(old(hdr), md)
    {
      var influx := Influx(0, 0, 0, 0, 0, 0, 0, 0, Tstamp(0, 0), Tstamp(0, 0), 0);
      if hdr.tcp.Some? {
        influx := influx.(seqNo := hdr.tcp.value.seqNum, ingressPortId := hdr.tcp.value.srcPort,
          egressPortId := hdr.tcp.value.dstPort);
        hdr := hdr.(tcp := None);
      } else {
        influx := influx.(seqNo := 0, ingressPortId := hdr.udp.value.srcPort, egressPortId := hdr.udp.value.dstPort);
        hdr := hdr.(udp := None);
      }
      influx := influx.(srcAddr := hdr.ipv4.value.srcAddr, dstAddr := hdr.ipv4.value.dstAddr,
                        ndkTstamp := md.ingressTs, delay := md.ingressTs);
      if hdr.intHeader.Some? {
        influx := influx.(hopMetaLen := hdr.intHeader.value.hopMetadataLen);
      }
      influx := influx.(metaLen := ((if hdr.shim.Some? then hdr.shim.value.len else 0) + TWO8 - 3) % TWO8);
      if hdr.ethernet.Some? {
        hdr := hdr.(ethernet := Some(hdr.ethernet.value.(etherType := ETHERTYPE_REPORT)));
      }
      hdr := hdr.(influx := Some(influx), ipv4 := None, shim := None, intHeader := None);
    }

    method ApplyIngress(md: Metadata)
      requires hdr.udp.Some? || hdr.tcp.Some? ==> hdr.ipv4.Some?
      requires hdr.influx.None?
      modifies this
      ensures hdr == Ingress(cfg, old(hdr), md, Plus16(old(seqRegister), 1))
      ensures seqRegister == if cfg.srcEnable && (old(hdr).udp.Some? || old(hdr).tcp.Some?)
                             then Plus16(old(seqRegister), 1) else old(seqRegister)
    {
      hide SubFrom, AddTo, Plus16, Sink;
      if hdr.udp.None? && hdr.tcp.None? {
        return;
      }
      IpChecksumSub(hdr.ipv4.value.totalLen);
      IpChecksumSub(hdr.ipv4.value.FirstHalf());
      if cfg.srcEnable {
        ApplySource();
      }
      if !cfg.sinkEnable {
        ApplyTransit(md);
      }
      IpChecksumAdd(hdr.ipv4.value.totalLen);
      IpChecksumAdd(hdr.ipv4.value.FirstHalf());
      if cfg.sinkEnable {
        ApplySink(md);
      }
    }

    method ApplyEgress(md: Metadata)
      modifies this`hdr
      ensures hdr == Egress(old(hdr), md)
    {
      if hdr.egressTs.Some? {
        hdr := hdr.(egressTs := Some(md.egressTs));
      }
    }

    /** Everything a node does with one packet. */
    method Handle(packet: seq<Byte>, md: Metadata) returns (out: Option<seq<Byte>>)
      modifies this
      ensures out == Process(cfg, packet, md, Plus16(old(seqRegister), 1))
    {
      hide Deparse, Ingress, Egress, WellFormed, ParseEthernet;
      var parsed := Parse(packet);
      if parsed.Rejected? {
        return None;
      }
      DeparseUndoesParse(packet);
      WellFormedForIngress(parsed.hdr);
      ApplyIngress(md);
      ApplyEgress(md);
      out := Some(Deparse(hdr) + parsed.payload);
    }
  }

  lemma WellFormedForIngress(h: HeaderSet)
    requires WellFormed(h)
    ensures h.influx.None? && (h.udp.Some? || h.tcp.Some? ==> h.ipv4.Some?)
  {}
}
