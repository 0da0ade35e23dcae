/**
 A packet travelling through a source and any number of transit nodes to a sink, as bytes.
 */
module Path {
  import opened Bytes
  import opened Options
  import opened Headers
  import opened Checksum
  import opened Parser
  import opened Dataplane

  /** One node on the way: its configuration, what its target supplies, its register draw. */
  datatype Hop = Hop(cfg: Config, md: Metadata, seqNo: U16)

  /** The source comes first; no node on the path is a sink, no later node a source. */
  predicate IsPath(hops: seq<Hop>) {
    && hops != []
    && hops[0].cfg.srcEnable
    && (forall i :: 0 <= i < |hops| ==> !hops[i].cfg.sinkEnable)
    && (forall i :: 0 < i < |hops| ==> !hops[i].cfg.srcEnable)
  }

  function Forward(hops: seq<Hop>, packet: seq<Byte>): Option<seq<Byte>> {
    if hops == [] then Some(packet) else
    var last := hops[|hops| - 1];
    match Forward(hops[..|hops| - 1], packet)
    case None => None
    case Some(bs) => Process(last.cfg, bs, last.md, last.seqNo)
  }

  /** The metadata a node adds: switch, ports, ingress and egress time. */
  function MetadataWords(hop: Hop): (ws: seq<U32>)
    ensures |ws| == 6
  {
    [hop.cfg.switchId] + PortIds(hop.md.ingressPort, hop.md.egressPort).Words()
    + hop.md.ingressTs.Words() + hop.md.egressTs.Words()
  }

  /** The metadata of all nodes passed, the newest first. */
  function StackWords(hops: seq<Hop>): (ws: seq<U32>)
    ensures |ws| == 6 * |hops|
  {
    if hops == [] then [] else MetadataWords(hops[|hops| - 1]) + StackWords(hops[..|hops| - 1])
  }

  /** A TCP or UDP packet that carries no telemetry yet. */
  predicate Plain(h: HeaderSet) {
    WellFormed(h) && (h.udp.Some? || h.tcp.Some?) && h.shim.None?
  }

  /** The fields the program knows sum to the same, and the checksum is not the wrong zero. */
  ghost predicate KeepsChecksum(ip: Ipv4, ip0: Ipv4) {
    Congruent(WordSum(ip.Words()), WordSum(ip0.Words())) && ip.checksum != 0xffff
  }

  lemma {:induction false} NodeKeepsChecksum(hop: Hop, h: HeaderSet)
    requires !hop.cfg.sinkEnable && h.ipv4.Some? && (h.udp.Some? || h.tcp.Some?)
    requires hop.cfg.srcEnable || h.ipv4.value.FirstHalf() > 0
    ensures var out := Egress(Ingress(hop.cfg, h, hop.md, hop.seqNo), hop.md);
            out.ipv4.Some? && KeepsChecksum(out.ipv4.value, h.ipv4.value)
  {
    hide SubFrom, AddTo, WordSum, Ipv4.Words, Congruent;
    IngressKeepsResidue(hop.cfg, h, hop.md, hop.seqNo);
  }

  lemma KeepsChecksumTransitive(a: Ipv4, b: Ipv4, c: Ipv4)
    requires KeepsChecksum(a, b) && KeepsChecksum(b, c)
    ensures KeepsChecksum(a, c)
  {
    hide WordSum, Congruent, Ipv4.Words;
    Replace(WordSum(a.Words()), WordSum(b.Words()), WordSum(c.Words()));
  }

  /**
   The headers of a packet that started as `h0` and has passed `k` nodes.  The IPv4 checksum
   is given by its residue, which with its range leaves one value.
   */
  ghost predicate Carries(h0: HeaderSet, k: nat, seqNo: U16, h: HeaderSet) {
    && Plain(h0)
    && h.ethernet == h0.ethernet
    && h.ipv4.Some?
    && var ip0, ip, grown := h0.ipv4.value, h.ipv4.value, SOURCE_GROWTH + NODE_GROWTH * k;
       && ip == ip0.(dscp := IPV4_DSCP_INT, totalLen := Plus16(ip0.totalLen, grown), checksum := ip.checksum)
       && KeepsChecksum(ip, ip0)
       && h.udp == (if h0.udp.Some? then Some(h0.udp.value.(len := Plus16(h0.udp.value.len, grown), csum := 0))
          else None)
       && h.tcp == (if h0.tcp.Some? then Some(h0.tcp.value.(csum := 0)) else None)
       && h.shim == Some(Shim(INT_TYPE_HOP_BY_HOP, 0, (3 + 6 * k) % TWO8, ip0.dscp, 0))
       && h.intHeader == Some(IntHeader(INT_VERSION, 0, 0, 0, 0, 1, 0, 6, (255 + 255 * k) % TWO8, 0x00cc, seqNo))
       && NothingAdded(h)
  }

  /** Will the next parser accept what `k` nodes have made of the packet? */
  predicate Acceptable(k: nat) {
    (3 + 6 * k) % TWO8 >= 3
  }

  function Strip(h: HeaderSet): HeaderSet {
    h.(switchId := None, portIds := None, ingressTs := None, egressTs := None, influx := None)
  }

  /** What a node adds to the headers it forwards. */
  ghost predicate Adds(hop: Hop, h: HeaderSet) {
    && h.switchId == Some(hop.cfg.switchId)
    && h.portIds == Some(PortIds(hop.md.ingressPort, hop.md.egressPort))
    && h.ingressTs == Some(hop.md.ingressTs)
    && h.egressTs == Some(hop.md.egressTs)
    && h.influx.None?
  }

  /** The whole effect of the source node on a plain packet. */
  lemma {:induction false} SourceEffect(hop: Hop, h: HeaderSet)
    requires h.ipv4.Some? && (h.udp.Some? || h.tcp.Some?) && h.shim.None? && h.intHeader.None?
    requires hop.cfg.srcEnable && !hop.cfg.sinkEnable
    ensures var out, ip := Egress(Ingress(hop.cfg, h, hop.md, hop.seqNo), hop.md), h.ipv4.value;
            && out.ipv4.Some?
            && out == h.(
                 ipv4 := Some(ip.(dscp := IPV4_DSCP_INT,
                   totalLen := Plus16(Plus16(ip.totalLen, SOURCE_GROWTH), NODE_GROWTH),
                                  checksum := out.ipv4.value.checksum)),
                 udp := if h.udp.None? then None else
                   Some(h.udp.value.(len := Plus16(Plus16(h.udp.value.len, SOURCE_GROWTH), NODE_GROWTH), csum := 0)),
                 tcp := if h.tcp.Some? then Some(h.tcp.value.(csum := 0)) else None,
                 shim := Some(Shim(INT_TYPE_HOP_BY_HOP, 0, 9, ip.dscp, 0)),
                 intHeader := Some(IntHeader(INT_VERSION, 0, 0, 0, 0, 1, 0, 6, 254, 0x00cc, hop.seqNo)),
                 switchId := Some(hop.cfg.switchId),
                 portIds := Some(PortIds(hop.md.ingressPort, hop.md.egressPort)),
                 ingressTs := Some(hop.md.ingressTs),
                 egressTs := Some(hop.md.egressTs))
  {
    hide SubFrom, AddTo, Plus16;
  }

  /** The whole effect of a transit node on a packet with telemetry. */
  lemma {:induction false} TransitEffect(hop: Hop, h: HeaderSet)
    requires h.ipv4.Some? && (h.udp.Some? || h.tcp.Some?) && h.shim.Some? && h.intHeader.Some?
    requires !hop.cfg.srcEnable && !hop.cfg.sinkEnable
    ensures var out, ip, shim, ih := Egress(Ingress(hop.cfg, h, hop.md, hop.seqNo), hop.md), h.ipv4.value,
            h.shim.value, h.intHeader.value;
            && out.ipv4.Some?
            && out == h.(
                 ipv4 := Some(ip.(totalLen := Plus16(ip.totalLen, NODE_GROWTH), checksum := out.ipv4.value.checksum)),
                 udp := if h.udp.Some? then Some(h.udp.value.(len := Plus16(h.udp.value.len, NODE_GROWTH))) else None,
                 shim := Some(shim.(len := (shim.len + 6) % TWO8)),
                 intHeader := Some(ih.(remainingHopCnt := (ih.remainingHopCnt + 0xff) % TWO8)),
                 switchId := Some(hop.cfg.switchId),
                 portIds := Some(PortIds(hop.md.ingressPort, hop.md.egressPort)),
                 ingressTs := Some(hop.md.ingressTs),
                 egressTs := Some(hop.md.egressTs))
  {
    hide SubFrom, AddTo, Plus16;
  }

  lemma {:induction false} SourceCarries(hop: Hop, h0: HeaderSet)
    requires Plain(h0) && hop.cfg.srcEnable && !hop.cfg.sinkEnable
    ensures var h := Egress(Ingress(hop.cfg, h0, hop.md, hop.seqNo), hop.md);
            Adds(hop, h) && Carries(h0, 1, hop.seqNo, Strip(h))
  {
    hide KeepsChecksum, Ingress, Egress, Plus16;
    SourceEffect(hop, h0);
    Wrap16Twice(h0.ipv4.value.totalLen);
    if h0.udp.Some? {
      Wrap16Twice(h0.udp.value.len);
    }
    NodeKeepsChecksum(hop, h0);
  }

  lemma {:induction false} Wrap16Twice(x: U16)
    ensures Plus16(Plus16(x, SOURCE_GROWTH), NODE_GROWTH) == Plus16(x, SOURCE_GROWTH + NODE_GROWTH * 1)
  {
    Wrap16(x + SOURCE_GROWTH, NODE_GROWTH);
  }

  /** The three counters a transit node moves, `k` nodes into the path. */
  lemma CountersAdvance(x: U16, k: nat)
    ensures Plus16(Plus16(x, SOURCE_GROWTH + NODE_GROWTH * k), NODE_GROWTH)
            == Plus16(x, SOURCE_GROWTH + NODE_GROWTH * (k + 1))
    ensures ((3 + 6 * k) % TWO8 + 6) % TWO8 == (3 + 6 * (k + 1)) % TWO8
    ensures ((255 + 255 * k) % TWO8 + 0xff) % TWO8 == (255 + 255 * (k + 1)) % TWO8
  {
    Wrap16(x + SOURCE_GROWTH + NODE_GROWTH * k, NODE_GROWTH);
    Wrap8(3 + 6 * k, 6);
    Wrap8(255 + 255 * k, 0xff);
  }

  lemma {:induction false} TransitCarries(hop: Hop, h0: HeaderSet, k: nat, seqNo: U16, h: HeaderSet)
    requires Carries(h0, k, seqNo, h) && !hop.cfg.srcEnable && !hop.cfg.sinkEnable
    ensures var h' := Egress(Ingress(hop.cfg, h, hop.md, hop.seqNo), hop.md);
            Adds(hop, h') && Carries(h0, k + 1, seqNo, Strip(h'))
  {
    hide KeepsChecksum, Ingress, Egress, Plus16;
    TransitEffect(hop, h);
    CountersAdvance(h0.ipv4.value.totalLen, k);
    if h0.udp.Some? {
      CountersAdvance(h0.udp.value.len, k);
    }
    NodeKeepsChecksum(hop, h);
    KeepsChecksumTransitive(Egress(Ingress(hop.cfg, h, hop.md, hop.seqNo), hop.md).ipv4.value, h.ipv4.value,
      h0.ipv4.value);
  }

  lemma {:induction false} AddedBytes(hop: Hop, h: HeaderSet)
    requires Adds(hop, h)
    ensures Deparse(h) == EmitParsed(Strip(h)) + ToBytes(MetadataWords(hop))
  {
    var ports := PortIds(hop.md.ingressPort, hop.md.egressPort).Words();
    hide ToBytes;
    ToBytesAppend([hop.cfg.switchId], ports);
    ToBytesAppend([hop.cfg.switchId] + ports, hop.md.ingressTs.Words());
    ToBytesAppend([hop.cfg.switchId] + ports + hop.md.ingressTs.Words(), hop.md.egressTs.Words());
    assert EmitAdded(h) == ToBytes(MetadataWords(hop)) + [];
    assert EmitParsed(h) == EmitParsed(Strip(h));
  }

  /** The packet after `hops`: the updated headers, the metadata stack, the original payload. */
  ghost predicate Delivered(hops: seq<Hop>, h0: HeaderSet, payload: seq<Byte>, h: HeaderSet, packet: seq<Byte>)
    requires hops != []
  {
    && Carries(h0, |hops|, hops[0].seqNo, h)
    && packet == EmitParsed(h) + (ToBytes(StackWords(hops)) + payload)
  }

  /** The next node reads exactly those headers back, if its length check lets it. */
  lemma {:induction false} NextParse(hops: seq<Hop>, h0: HeaderSet, payload: seq<Byte>, h: HeaderSet, packet: seq<Byte>)
    requires hops != [] && Delivered(hops, h0, payload, h, packet)
    ensures ParseEthernet(packet) ==
            if Acceptable(|hops|) then Accepted(h, ToBytes(StackWords(hops)) + payload)
              else Rejected(INTShimLenTooShort)
  {
    hide ToBytes, EmitParsed, KeepsChecksum;
    var rest := ToBytes(StackWords(hops)) + payload;
    NothingToAdd(h);
    if Acceptable(|hops|) {
      ParseUndoesDeparse(h, rest);
    } else {
      var front := h.(intHeader := None);
      NothingToAdd(front);
      ShortShimRejected(front, ToBytes(h.intHeader.value.Words()) + rest);
      assert packet == EmitParsed(front) + (ToBytes(h.intHeader.value.Words()) + rest) by {
        IntHeaderLast(h, rest);
      }
    }
  }

  lemma IntHeaderLast(h: HeaderSet, rest: seq<Byte>)
    requires h.intHeader.Some?
    ensures EmitParsed(h) + rest == EmitParsed(h.(intHeader := None)) + (ToBytes(h.intHeader.value.Words()) + rest)
  {
    hide ToBytes, Ethernet.Encode;
  }

  lemma {:induction false} AcceptableExactly(k: nat)
    ensures Acceptable(k) <==> k % 128 != 85
  {
    var q, r := k / 128, k % 128;
    assert 3 + 6 * k == TWO8 * (3 * q) + (3 + 6 * r);
    WholeTurns(3 * q, 3 + 6 * r);
  }

  lemma WholeTurns(turns: nat, rest: nat)
    ensures (TWO8 * turns + rest) % TWO8 == rest % TWO8
  {}

  lemma {:induction false} FirstNode(hop: Hop, h0: HeaderSet, payload: seq<Byte>) returns (h: HeaderSet)
    requires Plain(h0) && hop.cfg.srcEnable && !hop.cfg.sinkEnable
    ensures var packet := Process(hop.cfg, Deparse(h0) + payload, hop.md, hop.seqNo);
            packet.Some? && Delivered([hop], h0, payload, h, packet.value)
  {
    hide ToBytes, EmitParsed, KeepsChecksum, Deparse, Ingress, Egress, Carries, ParseEthernet, MetadataWords;
    hide StackWords;
    ParseUndoesDeparse(h0, payload);
    StackOfOne(hop);
    var out := Egress(Ingress(hop.cfg, h0, hop.md, hop.seqNo), hop.md);
    SourceCarries(hop, h0);
    AddedBytes(hop, out);
    h := Strip(out);
    Regroup(EmitParsed(h), ToBytes(MetadataWords(hop)), payload);
  }

  lemma StackOfOne(hop: Hop)
    ensures StackWords([hop]) == MetadataWords(hop)
  {
    hide MetadataWords;
  }

  lemma {:induction false} NextNode(hops: seq<Hop>, hop: Hop, h0: HeaderSet, payload: seq<Byte>, h: HeaderSet,
          packet: seq<Byte>)
    returns (h': HeaderSet)
    requires hops != [] && Delivered(hops, h0, payload, h, packet)
    requires !hop.cfg.srcEnable && !hop.cfg.sinkEnable
    ensures var out := Process(hop.cfg, packet, hop.md, hop.seqNo);
            && (out.Some? <==> Acceptable(|hops|))
            && (out.Some? ==> Delivered(hops + [hop], h0, payload, h', out.value))
  {
    hide ToBytes, EmitParsed, KeepsChecksum, Deparse, Ingress, Egress, Carries, StackWords, MetadataWords;
    hide ParseEthernet, Acceptable, Adds;
    NextParse(hops, h0, payload, h, packet);
    assert h.ipv4.Some? by {
      CarriesIpv4(h0, |hops|, hops[0].seqNo, h);
    }
    var out := Egress(Ingress(hop.cfg, h, hop.md, hop.seqNo), hop.md);
    TransitCarries(hop, h0, |hops|, hops[0].seqNo, h);
    AddedBytes(hop, out);
    h' := Strip(out);
    StackGrows(hops, hop, payload);
    if Acceptable(|hops|) {
      var rest := ToBytes(StackWords(hops)) + payload;
      assert Process(hop.cfg, packet, hop.md, hop.seqNo) == Some(Deparse(out) + rest);
      assert Deparse(out) + rest == EmitParsed(h') + (ToBytes(MetadataWords(hop)) + rest);
    }
  }

  lemma {:induction false} StackGrows(hops: seq<Hop>, hop: Hop, payload: seq<Byte>)
    ensures ToBytes(StackWords(hops + [hop])) + payload
            == ToBytes(MetadataWords(hop)) + (ToBytes(StackWords(hops)) + payload)
  {
    assert (hops + [hop])[..|hops|] == hops;
    ToBytesAppend(MetadataWords(hop), StackWords(hops));
  }

  lemma CarriesIpv4(h0: HeaderSet, k: nat, seqNo: U16, h: HeaderSet)
    requires Carries(h0, k, seqNo, h)
    ensures h.ipv4.Some? && Plain(h0) && h0.ethernet.Some? && h0.ipv4.Some? && (h0.udp.Some? || h0.tcp.Some?)
  {
    hide KeepsChecksum;
  }

  /**
   The path theorem.  A plain TCP or UDP packet comes out of a path of nodes exactly when no
   node on the way met a length field it rejects, and then its bytes are the updated headers,
   the metadata of every node passed, newest first, and the untouched payload.
   */
  lemma {:induction false} PathDelivers(hops: seq<Hop>, h0: HeaderSet, payload: seq<Byte>) returns (h: HeaderSet)
    requires IsPath(hops) && Plain(h0)
    ensures var out := Forward(hops, Deparse(h0) + payload);
            && (out.Some? <==> forall j :: 1 <= j < |hops| ==> Acceptable(j))
            && (out.Some? ==> Delivered(hops, h0, payload, h, out.value))
    decreases |hops|
  {
    hide Delivered, Process, Deparse, Acceptable;
    var k := |hops| - 1;
    var packet := Deparse(h0) + payload;
    if k == 0 {
      h := FirstNode(hops[0], h0, payload);
      assert hops[..0] == [] && hops == [hops[0]];
      assert Forward(hops[..0], packet) == Some(packet);
    } else {
      assert IsPath(hops[..k]);
      h := PathDelivers(hops[..k], h0, payload);
      if Forward(hops[..k], packet).Some? {
        h := NextNode(hops[..k], hops[k], h0, payload, h, Forward(hops[..k], packet).value);
        assert hops[..k] + [hops[k]] == hops;
      }
    }
  }

  /** So a packet survives any path of up to 85 nodes, and no longer one. */
  lemma {:induction false} SurvivesUpTo85Nodes(hops: seq<Hop>, h0: HeaderSet, payload: seq<Byte>)
    requires IsPath(hops) && Plain(h0)
    ensures Forward(hops, Deparse(h0) + payload).Some? <==> |hops| <= 85
  {
    hide Forward, Acceptable;
    var h := PathDelivers(hops, h0, payload);
    forall j ensures 1 <= j < |hops| ==> (Acceptable(j) <==> j % 128 != 85) {
      if 1 <= j < |hops| {
        AcceptableExactly(j);
      }
    }
    if |hops| > 85 {
      assert !Acceptable(85);
    }
  }

  // ---------------------------------------------------------------------------
  // Lengths
  // ---------------------------------------------------------------------------

  /** The packet has really grown by 12 bytes and another 24 for every node. */
  lemma {:induction false} PathGrowth(hops: seq<Hop>, h0: HeaderSet, payload: seq<Byte>, h: HeaderSet,
          packet: seq<Byte>)
    requires hops != [] && Delivered(hops, h0, payload, h, packet)
    ensures |packet| == |Deparse(h0) + payload| + 12 + 24 * |hops|
  {
    hide KeepsChecksum, EmitParsed, StackWords, ToBytes;
    NothingToAdd(h0);
    HeaderGrowth(h0, h);
  }

  /**
   What the fields say about that growth: the 8-bit shim length is right for at most 42 nodes
   and wrong beyond, the 16-bit lengths are right as long as they do not overflow, and the hop
   counter counts down from 255.
   */
  lemma {:induction false} PathLengths(h0: HeaderSet, k: nat, seqNo: U16, h: HeaderSet)
    requires Carries(h0, k, seqNo, h)
    ensures var grown := 12 + 24 * k;
            && (4 * h.shim.value.len == grown <==> k <= 42)
            && (h0.ipv4.value.totalLen + grown < TWO16 <==> h.ipv4.value.totalLen == h0.ipv4.value.totalLen + grown)
            && (h0.udp.Some? ==>
                  (h0.udp.value.len + grown < TWO16 <==> h.udp.value.len == h0.udp.value.len + grown))
            && (h.intHeader.value.remainingHopCnt == 255 - k <==> k <= 255)
            && h.shim.value.dscp == h0.ipv4.value.dscp
  {
    hide KeepsChecksum, WellFormed, Plus16;
    CarriesIpv4(h0, k, seqNo, h);
    var grown := SOURCE_GROWTH + NODE_GROWTH * k;
    Fits16(h0.ipv4.value.totalLen, grown);
    if h0.udp.Some? {
      Fits16(h0.udp.value.len, grown);
    }
    RemainingHops(k);
    ShimLength(k);
  }

  lemma ShimLength(k: nat)
    ensures 4 * ((3 + 6 * k) % TWO8) == 12 + 24 * k <==> k <= 42
  {}

  lemma Fits16(x: U16, n: nat)
    ensures Plus16(x, n) == x + n <==> x + n < TWO16
  {}

  /** The two INT headers are all that the headers themselves gain. */
  lemma HeaderGrowth(h0: HeaderSet, h: HeaderSet)
    requires h0.shim.None? && h0.intHeader.None? && h.shim.Some? && h.intHeader.Some?
    requires h.ethernet.Some? == h0.ethernet.Some? && h.ipv4.Some? == h0.ipv4.Some?
    requires h.udp.Some? == h0.udp.Some? && h.tcp.Some? == h0.tcp.Some?
    ensures |EmitParsed(h)| == |EmitParsed(h0)| + 12
  {
    hide ToBytes;
  }

  lemma {:induction false} RemainingHops(k: nat)
    ensures (255 + 255 * k) % TWO8 == 255 - k <==> k <= 255
  {
    assert 255 + 255 * k == TWO8 * k + (255 - k);
    if k <= 255 {
      assert (255 + 255 * k) % TWO8 == 255 - k;
    }
  }

  // ---------------------------------------------------------------------------
  // The sink
  // ---------------------------------------------------------------------------

  /** The report header for a packet that passed `k` nodes. */
  function ReportHeader(h0: HeaderSet, k: nat, md: Metadata): Influx
    requires h0.ipv4.Some? && (h0.udp.Some? || h0.tcp.Some?)
  {
    var ip := h0.ipv4.value;
    var ports := if h0.tcp.Some? then PortIds(h0.tcp.value.srcPort, h0.tcp.value.dstPort)
                 else PortIds(h0.udp.value.srcPort, h0.udp.value.dstPort);
    Influx(ip.srcAddr, ip.dstAddr, ports.ingress, ports.egress, 6 * k % TWO8, 0, 6, 0,
           md.ingressTs, md.ingressTs, if h0.tcp.Some? then h0.tcp.value.seqNum else 0)
  }

  /** The bytes a sink sends to the collector. */
  function ReportBytes(hops: seq<Hop>, sink: Hop, h0: HeaderSet, payload: seq<Byte>): seq<Byte>
    requires Plain(h0)
  {
    h0.ethernet.value.(etherType := ETHERTYPE_REPORT).Encode()
    + (ToBytes(ReportHeader(h0, |hops|, sink.md).Words()) + (ToBytes(StackWords(hops)) + payload))
  }

  lemma {:induction false} SinkHeaders(sink: Hop, h0: HeaderSet, k: nat, seqNo: U16, h: HeaderSet)
    requires Carries(h0, k, seqNo, h) && sink.cfg.sinkEnable && !sink.cfg.srcEnable
    ensures Egress(Ingress(sink.cfg, h, sink.md, sink.seqNo), sink.md)
            == NO_HEADERS.(ethernet := Some(h0.ethernet.value.(etherType := ETHERTYPE_REPORT)),
                           influx := Some(ReportHeader(h0, k, sink.md)))
  {
    hide KeepsChecksum, SubFrom, AddTo, Plus16;
    ReportedLength(k);
  }

  /** The sink takes the 3 words of the INT headers off again. */
  lemma ReportedLength(k: nat)
    ensures ((3 + 6 * k) % TWO8 + 0xfd) % TWO8 == 6 * k % TWO8
  {
    Wrap8(3 + 6 * k, 0xfd);
    WholeTurns(1, 6 * k);
    assert 3 + 6 * k + 0xfd == TWO8 * 1 + 6 * k;
  }

  lemma {:induction false} SinkEmits(hops: seq<Hop>, sink: Hop, h0: HeaderSet, payload: seq<Byte>, h: HeaderSet,
          packet: seq<Byte>)
    requires hops != [] && Delivered(hops, h0, payload, h, packet) && Acceptable(|hops|)
    requires sink.cfg.sinkEnable && !sink.cfg.srcEnable
    ensures Process(sink.cfg, packet, sink.md, sink.seqNo) == Some(ReportBytes(hops, sink, h0, payload))
  {
    CarriesIpv4(h0, |hops|, hops[0].seqNo, h);
    hide ToBytes, KeepsChecksum, Ingress, Egress, StackWords, ParseEthernet, Acceptable, Carries, ReportHeader;
    hide Influx.Words, Plain, Delivered, Deparse, Ethernet.Encode;
    NextParse(hops, h0, payload, h, packet);
    SinkHeaders(sink, h0, |hops|, hops[0].seqNo, h);
    var e, i := h0.ethernet.value.(etherType := ETHERTYPE_REPORT), ReportHeader(h0, |hops|, sink.md);
    DeparseReport(e, i);
    var rest := ToBytes(StackWords(hops)) + payload;
    assert ParseEthernet(packet) == Accepted(h, rest);
    Regroup(e.Encode(), ToBytes(i.Words()), rest);
  }

  lemma Regroup(a: seq<Byte>, b: seq<Byte>, c: seq<Byte>)
    ensures a + b + c == a + (b + c)
  {}

  lemma DeparseReport(e: Ethernet, i: Influx)
    ensures Deparse(NO_HEADERS.(ethernet := Some(e), influx := Some(i))) == e.Encode() + ToBytes(i.Words())
  {
    hide ToBytes, Ethernet.Encode, Influx.Words;
  }
}
