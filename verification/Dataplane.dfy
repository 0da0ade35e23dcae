/**
 The controls of the t4p4s program as functions on the header set: source, transit, sink,
 and the ingress and egress that apply them.  A write to an invalid header has no effect;
 a field of a header just made valid that no action assigns is zero.
 */
module Dataplane {
  import opened Bytes
  import opened Options
  import opened Headers
  import opened Checksum
  import opened Parser

  /** The defines of `config.p4`. */
  datatype Config = Config(srcEnable: bool, sinkEnable: bool, switchId: U32)

  /** What the target supplies with a packet; `egressTs` is sampled again in egress. */
  datatype Metadata = Metadata(ingressPort: U16, egressPort: U16, ingressTs: Tstamp, egressTsEarly: Tstamp,
          egressTs: Tstamp)

  const SOURCE_GROWTH: nat := INT_ALL_HEADER_LEN_BYTES
  const NODE_GROWTH: nat := 24

  function GrowIpv4(h: Option<Ipv4>, n: nat): Option<Ipv4> {
    if h.Some? then Some(h.value.(totalLen := Plus16(h.value.totalLen, n))) else None
  }

  /** `configure_source`; `seqNo` is the number drawn from the register. */
  function ConfigureSource(h: HeaderSet, seqNo: U16): HeaderSet {
    var shim := if h.shim.Some? then h.shim.value else Shim(0, 0, 0, 0, 0);
    var ih := if h.intHeader.Some? then h.intHeader.value else IntHeader(0, 0, 0, 0, 0, 0, 0, 0, 0, 0, 0);
    var dscp := if h.ipv4.Some? then h.ipv4.value.dscp else 0;
    var ipv4 := GrowIpv4(h.ipv4, SOURCE_GROWTH);
    var udp := GrowUdp(h.udp, SOURCE_GROWTH);
    h.(shim := Some(shim.(intType := INT_TYPE_HOP_BY_HOP, len := INT_ALL_HEADER_LEN_BYTES / 4, dscp := dscp)),
       intHeader := Some(ih.(ver := INT_VERSION, rep := 0, c := 0, e := 0, rsvd1 := 1, rsvd2 := 0,
                             hopMetadataLen := 6, remainingHopCnt := 0xff, instructionMask := 0x00cc, seqNo := seqNo)),
       ipv4 := if ipv4.Some? then Some(ipv4.value.(dscp := IPV4_DSCP_INT)) else None,
       udp := if udp.Some? then Some(udp.value.(csum := 0)) else None,
       tcp := if h.tcp.Some? then Some(h.tcp.value.(csum := 0)) else None)
  }

  /** The body of `Int_transit` on a node that is no sink. */
  function Transit(cfg: Config, h: HeaderSet, md: Metadata): HeaderSet {
    if h.intHeader.None? then h else
    h.(switchId := Some(cfg.switchId),
       portIds := Some(PortIds(md.ingressPort, md.egressPort)),
       ingressTs := Some(md.ingressTs),
       egressTs := Some(md.egressTsEarly),
       ipv4 := GrowIpv4(h.ipv4, NODE_GROWTH),
       udp := GrowUdp(h.udp, NODE_GROWTH),
       shim := if h.shim.Some? then Some(h.shim.value.(len := (h.shim.value.len + 6) % TWO8)) else None,
       intHeader := Some(h.intHeader.value.(remainingHopCnt := (h.intHeader.value.remainingHopCnt + 0xff) % TWO8)))
  }

  /** `remove_tcp` or `remove_udp`, then `fill_influx`.  Fields of invalid headers read as zero. */
  function Sink(h: HeaderSet, md: Metadata): HeaderSet {
    var fields :=
      if h.tcp.Some? then (h.tcp.value.srcPort, h.tcp.value.dstPort, h.tcp.value.seqNum)
      else if h.udp.Some? then (h.udp.value.srcPort, h.udp.value.dstPort, 0)
      else (0, 0, 0);
    var src := if h.ipv4.Some? then h.ipv4.value.srcAddr else 0;
    var dst := if h.ipv4.Some? then h.ipv4.value.dstAddr else 0;
    var hopLen := if h.intHeader.Some? then h.intHeader.value.hopMetadataLen else 0;
    var shimLen := if h.shim.Some? then h.shim.value.len else 0;
    h.(influx := Some(Influx(src, dst, fields.0, fields.1, (shimLen + 0xfd) % TWO8, 0, hopLen, 0,
                             md.ingressTs, md.ingressTs, fields.2)),
       ethernet := if h.ethernet.Some? then Some(h.ethernet.value.(etherType := ETHERTYPE_REPORT)) else None,
       tcp := None,
       udp := if h.tcp.Some? then h.udp else None,
       ipv4 := None, shim := None, intHeader := None)
  }

  /** The checksum field without, and then again with, the two words the program may change. */
  function SubtractWords(ip: Ipv4): Ipv4 {
    ip.(checksum := SubFrom(SubFrom(ip.checksum, ip.totalLen), ip.FirstHalf()))
  }

  function AddWords(ip: Ipv4): Ipv4 {
    ip.(checksum := AddTo(AddTo(ip.checksum, ip.totalLen), ip.FirstHalf()))
  }

  function Ingress(cfg: Config, h: HeaderSet, md: Metadata, seqNo: U16): HeaderSet
    requires h.udp.Some? || h.tcp.Some? ==> h.ipv4.Some?
  {
    if h.udp.None? && h.tcp.None? then h else
    var h1 := h.(ipv4 := Some(SubtractWords(h.ipv4.value)));
    var h2 := if cfg.srcEnable then ConfigureSource(h1, seqNo) else h1;
    var h3 := if !cfg.sinkEnable then Transit(cfg, h2, md) else h2;
    var h4 := h3.(ipv4 := Some(AddWords(h3.ipv4.value)));
    if cfg.sinkEnable then Sink(h4, md) else h4
  }

  function Egress(h: HeaderSet, md: Metadata): HeaderSet {
    if h.egressTs.Some? then h.(egressTs := Some(md.egressTs)) else h
  }

  /** One node: parse, ingress, egress, deparse, payload.  Packets in error go no further. */
  function Process(cfg: Config, packet: seq<Byte>, md: Metadata, seqNo: U16): Option<seq<Byte>> {
    match ParseEthernet(packet)
    case Rejected(_) => None
    case Accepted(h, payload) =>
      DeparseUndoesParse(packet);
      Some(Deparse(Egress(Ingress(cfg, h, md, seqNo), md)) + payload)
  }

  // ---------------------------------------------------------------------------
  // The checksum around source and transit
  // ---------------------------------------------------------------------------

  /** The ten half-words of an IPv4 header without options. */
  lemma Ipv4WordSum(ip: Ipv4)
    ensures WordSum(ip.Words()) ==
            ip.FirstHalf() + ip.totalLen + ip.checksum
            + (ip.id + (ip.flags * 8192 + ip.fragOffset) + (ip.ttl * TWO8 + ip.protocol)
               + WordSum([ip.srcAddr]) + WordSum([ip.dstAddr]))
  {
    hide WordSum, Hi, Lo, Word2, Ipv4.FirstHalf;
    var a, b, c := ip.FirstHalf(), ip.flags * 8192 + ip.fragOffset, ip.ttl * TWO8 + ip.protocol;
    WordSumFive(Word2(a, ip.totalLen), Word2(ip.id, b), Word2(c, ip.checksum), ip.srcAddr, ip.dstAddr);
    HalvesSum(a, ip.totalLen);
    HalvesSum(ip.id, b);
    HalvesSum(c, ip.checksum);
  }

  lemma HalvesSum(hi: U16, lo: U16)
    ensures WordSum([Word2(hi, lo)]) == hi + lo
  {
    HalvesOfWord(hi, lo);
    WordSumOne(Word2(hi, lo));
  }

  /**
   The invariant of the IPv4 checksum: on any node that is no sink, the fields the program
   knows sum to the same modulo 65535 as before, and the checksum field is not the wrong zero.
   */
  lemma {:induction false} IngressKeepsResidue(cfg: Config, h: HeaderSet, md: Metadata, seqNo: U16)
    requires !cfg.sinkEnable && h.ipv4.Some? && (h.udp.Some? || h.tcp.Some?)
    ensures var ip, ip' := h.ipv4.value, Ingress(cfg, h, md, seqNo).ipv4.value;
            && Congruent(WordSum(ip'.Words()), WordSum(ip.Words()))
            && (ip'.FirstHalf() + ip'.totalLen > 0 ==> ip'.checksum != 0xffff)
  {
    hide SubFrom, AddTo, WordSum, Ipv4.Words, Congruent;
    var ip, ip' := h.ipv4.value, Ingress(cfg, h, md, seqNo).ipv4.value;
    assert ip'.checksum == Updated(ip.checksum, ip.FirstHalf(), ip.totalLen, ip'.FirstHalf(), ip'.totalLen);
    UpdatedResidue(ip.checksum, ip.FirstHalf(), ip.totalLen, ip'.FirstHalf(), ip'.totalLen);
    Ipv4WordSum(ip);
    Ipv4WordSum(ip');
    NegatedResidue(Not16(ip'.checksum), Not16(ip.checksum) - ip.totalLen - ip.FirstHalf() + ip'.totalLen
      + ip'.FirstHalf(),
                   WordSum(ip'.Words()), WordSum(ip.Words()));
  }

  lemma NegatedResidue(x: int, y: int, s': int, s: int)
    requires Congruent(x, y) && s' - s == y - x
    ensures Congruent(s', s)
  {
    var q := (x - y) / 0xffff;
    assert s' - s == 0xffff * -q;
  }
}
