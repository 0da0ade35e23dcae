/**
 What the collector finally reports of a packet, in terms of the bytes the packet entered the path
 with, of what each node's target stamped, and of the flow's and the slots' history.
 */
module PathReports {
  import opened Bytes
  import opened Telemetry
  import opened Path
  import opened Layouts
  import opened NodesOnWire
  import opened PathsOnWire
  import Decoder
  import EndToEnd
  import Dataplane
  import Headers

  /** `d` as an `int64_t`. */
  ghost predicate IsSigned(x: int, d: int) {
    -0x8000_0000_0000_0000 <= x < 0x8000_0000_0000_0000 && Cong64(x, d)
  }

  /** `d` as a `uint64_t`. */
  ghost predicate IsUnsigned(x: int, d: int) {
    0 <= x < 0x1_0000_0000_0000_0000 && Cong64(x, d)
  }

  /** So a difference that fits is the difference itself, sign included. */
  lemma FitsExactly(x: int, d: int)
    ensures IsSigned(x, d) && -0x8000_0000_0000_0000 <= d < 0x8000_0000_0000_0000 ==> x == d
    ensures IsUnsigned(x, d) && 0 <= d < 0x1_0000_0000_0000_0000 ==> x == d
  {}

  lemma {:induction false} SubIs(a: U64, b: U64)
    ensures IsUnsigned(Sub64(a, b), a - b) && IsSigned(Signed64(Sub64(a, b)), a - b)
  {
    MachineSub(a, b);
  }

  /** Entry `i` of a report, on the node that stamped `ingress` and `egress`, where the next node stamped `later`. */
  ghost predicate EntryTells(node: HopMeta, i: nat, ingress: U64, egress: U64, later: U64, slot: U64) {
    && node.hopIndex == i
    && node.hopTimestamp == egress
    && IsUnsigned(node.hopDelay, egress - ingress)
    && (if i == 0 then node.linkDelay == 0 else IsSigned(node.linkDelay, later - ingress))
    && IsUnsigned(node.hopJitter, ingress - slot)
  }

  /** The last entry, on the sink, where the source stamped `egress`. */
  ghost predicate SinkEntryTells(node: HopMeta, k: nat, arrival: U64, egress: U64, slot: U64) {
    && node.hopIndex == k
    && node.hopTimestamp == arrival
    && node.hopDelay == 0
    && IsSigned(node.linkDelay, egress - arrival)
    && IsUnsigned(node.hopJitter, arrival - slot)
  }

  /** The number and the order of a packet in its flow; a TCP number of 0 reads as none. */
  ghost predicate NumberTells(r: Report, wireSeq: U32, f: FlowMeta) {
    if wireSeq == 0 then r.protocol == 17 && r.reordering == 0 && IsUnsigned(r.seqNum, f.seqNo + 1)
    else r.protocol == 6 && r.seqNum == wireSeq && IsSigned(r.reordering, wireSeq - f.seqNo - 1)
  }

  function IngressOf(hop: Hop): U64 {
    hop.md.ingressTs.h * 0x1_0000_0000 + hop.md.ingressTs.l
  }

  function EgressOf(hop: Hop): U64 {
    hop.md.egressTs.h * 0x1_0000_0000 + hop.md.egressTs.l
  }

  /** The whole report on a packet that took a path of `k` nodes to a sink. */
  ghost predicate Tells(r: Report, packet: seq<Byte>, hops: seq<Hop>, sink: Hop, f: FlowMeta, prev: seq<U64>,
                        tstmp: bool)
    requires PlainOnWire(packet) && |packet| >= L4End(packet) && |prev| == MAX_NODES && 1 <= |hops| <= 9
  {
    var k, last, arrival := |hops|, IngressOf(hops[|hops| - 1]), IngressOf(sink);
    && r.srcIp == packet[26..30] && r.dstIp == packet[30..34]
    && r.srcPort == Be16(packet, 34) && r.dstPort == Be16(packet, 36)
    && NumberTells(r, if packet[23] == 6 then WordAt(packet, 38) else 0, f)
    && r.origTs == (if tstmp then last % TWO48 else last)
    && r.dstTs == (if tstmp then arrival % TWO48 else arrival)
    && IsUnsigned(r.delay, arrival - last)
    && IsUnsigned(r.sinkJitter, arrival - f.prevDstTs)
    && |r.nodeMeta| == k + 1
    && (forall i :: 0 <= i < k ==>
          EntryTells(r.nodeMeta[i], i, IngressOf(hops[k - 1 - i]), EgressOf(hops[k - 1 - i]),
                     if i == 0 then 0 else EgressOf(hops[k - i]), prev[i]))
    && SinkEntryTells(r.nodeMeta[k], k, arrival, EgressOf(hops[0]), prev[k])
  }

  // ---------------------------------------------------------------------------
  // What the decoder reads of a report
  // ---------------------------------------------------------------------------

  lemma {:induction false} HopReads(hop: Hop, buff: seq<Byte>, i: nat)
    requires |buff| == Decoder.PKT_BUF_SIZE && i < 10 && MetadataAt(hop, buff, 50 + 24 * i)
    ensures Decoder.ReadHop(buff, i) == HopTimes(IngressOf(hop), EgressOf(hop))
  {
    hide WordAt, Be16, Decoder.Load64, Decoder.Ntoh64;
    Decoder.Ntoh64Reads(buff, 50 + 24 * i + 8);
    Decoder.Ntoh64Reads(buff, 50 + 24 * i + 16);
  }

  /** The report, wherever it lies, reads as its own bytes. */
  lemma {:induction false} InBuffer(r: seq<Byte>, buff: seq<Byte>, hop: Hop, at: nat)
    requires r <= buff && MetadataAt(hop, r, at)
    ensures MetadataAt(hop, buff, at)
  {
    hide MetadataAt;
    MetadataThere(hop, r, at);
    assert r[at..at + 24] == buff[at..at + 24];
    MetadataMoves(hop, r, at, buff, at);
  }

  lemma MetadataThere(hop: Hop, r: seq<Byte>, at: nat)
    requires MetadataAt(hop, r, at)
    ensures at + 24 <= |r|
  {}

  /** What the collector reads of the sink's report. */
  ghost predicate Reads(s: Sample, packet: seq<Byte>, hops: seq<Hop>, sink: Hop)
    requires PlainOnWire(packet) && |packet| >= L4End(packet) && hops != []
  {
    && s.srcIp == packet[26..30] && s.dstIp == packet[30..34]
    && s.srcPort == Be16(packet, 34) && s.dstPort == Be16(packet, 36)
    && s.dstTs == IngressOf(sink)
    && s.seqNo == (if packet[23] == 6 then WordAt(packet, 38) else 0)
    && |s.hops| == |hops| && s.first == s.hops[0]
    && forall i :: 0 <= i < |hops| ==>
         s.hops[i] == HopTimes(IngressOf(hops[|hops| - 1 - i]), EgressOf(hops[|hops| - 1 - i]))
  }

  lemma {:induction false} AddressesRead(packet: seq<Byte>, r: seq<Byte>, buff: seq<Byte>)
    requires |packet| >= 42 && |r| >= 50 && r <= buff
    requires r[14..22] == packet[26..34] && r[22..26] == packet[34..38]
    ensures buff[14..18] == packet[26..30] && buff[18..22] == packet[30..34]
    ensures Be16(buff, 22) == Be16(packet, 34) && Be16(buff, 24) == Be16(packet, 36)
  {
    assert buff[14..18] == r[14..22][..4] && buff[18..22] == r[14..22][4..];
    assert packet[26..30] == packet[26..34][..4] && packet[30..34] == packet[26..34][4..];
    var four := packet[34..38];
    assert buff[22..26] == r[22..26] == four;
    assert buff[22] == buff[22..26][0] && buff[23] == buff[22..26][1];
    assert buff[24] == buff[22..26][2] && buff[25] == buff[22..26][3];
    assert four[0] == packet[34] && four[1] == packet[35] && four[2] == packet[36] && four[3] == packet[37];
  }

  lemma {:induction false} NumberRead(packet: seq<Byte>, r: seq<Byte>, buff: seq<Byte>)
    requires |packet| >= 42 && |r| >= 50 && r <= buff
    requires r[46..50] == if packet[23] == 6 then packet[38..42] else [0, 0, 0, 0]
    ensures WordAt(buff, 46) == if packet[23] == 6 then WordAt(packet, 38) else 0
  {
    var four := if packet[23] == 6 then packet[38..42] else [0, 0, 0, 0];
    assert buff[46] == four[0] && buff[47] == four[1] && buff[48] == four[2] && buff[49] == four[3];
  }

  lemma WordInBuffer(r: seq<Byte>, buff: seq<Byte>, at: nat)
    requires r <= buff && at + 4 <= |r|
    ensures WordAt(buff, at) == WordAt(r, at)
  {}

  /** Decoding the bytes of a sink's report. */
  lemma {:induction false} ReportReads(hops: seq<Hop>, sink: Hop, packet: seq<Byte>, r: seq<Byte>, buff: seq<Byte>)
    requires PlainOnWire(packet) && 1 <= |hops| <= 9 && ReportOnWire(hops, sink, packet, r)
    requires EndToEnd.Received(buff, r)
    ensures |packet| >= L4End(packet) && Decoder.Readable(buff)
    ensures Reads(Decoder.ReadSample(buff), packet, hops, sink)
  {
    hide Verdict, WordAt, Be16, MetadataAt, Decoder.Load16, Decoder.Load32, Decoder.Load64, Decoder.Ntohs;
    hide Decoder.Ntohl, Decoder.Ntoh64, Decoder.ReadHop, IngressOf, EgressOf;
    var k := |hops|;
    AddressesRead(packet, r, buff);
    NumberRead(packet, r, buff);
    PortsRead(buff);
    WordInBuffer(r, buff, 30);
    WordInBuffer(r, buff, 34);
    ArrivalRead(sink, buff);
    Decoder.NtohlReads(buff, 46);
    EndToEnd.CountDecodes(buff, k);
    forall i | 0 <= i < k
      ensures Decoder.ReadHop(buff, i) == HopTimes(IngressOf(hops[k - 1 - i]), EgressOf(hops[k - 1 - i]))
    {
      InBuffer(r, buff, hops[k - 1 - i], 50 + 24 * i);
      HopReads(hops[k - 1 - i], buff, i);
    }
  }

  lemma PortsRead(buff: seq<Byte>)
    requires |buff| >= 26
    ensures Decoder.Ntohs(Decoder.Load16(buff, 22)) == Be16(buff, 22)
    ensures Decoder.Ntohs(Decoder.Load16(buff, 24)) == Be16(buff, 24)
  {
    hide Decoder.Ntohs, Decoder.Load16;
    Decoder.NtohsReads(buff, 22);
    Decoder.NtohsReads(buff, 24);
  }

  lemma {:induction false} ArrivalRead(sink: Hop, buff: seq<Byte>)
    requires |buff| >= 38 && WordAt(buff, 30) == sink.md.ingressTs.h && WordAt(buff, 34) == sink.md.ingressTs.l
    ensures Decoder.Ntoh64(Decoder.Load64(buff, 30)) == IngressOf(sink)
  {
    hide WordAt, Decoder.Load64, Decoder.Ntoh64;
    Decoder.Ntoh64Reads(buff, 30);
  }

  // ---------------------------------------------------------------------------
  // And what it makes of it
  // ---------------------------------------------------------------------------

  lemma {:induction false} NumberReported(s: Sample, f: FlowMeta, prev: seq<U64>, tstmp: bool)
    requires SampleOk(s) && |prev| == MAX_NODES
    ensures NumberTells(ReportOf(s, f, prev, tstmp), s.seqNo, f)
    ensures IsUnsigned(ReportOf(s, f, prev, tstmp).sinkJitter, s.dstTs - f.prevDstTs)
  {
    hide NodeMeta, PrevAfter, Sub64, Signed64, Cong64, CutTo48Bits;
    SubIs(s.dstTs, f.prevDstTs);
    if s.seqNo == 0 {
      NextNumber(f.seqNo);
    } else {
      ReorderingStep(f, s);
      SignedRange(Sub64(Sub64(s.seqNo, f.seqNo), 1));
    }
  }

  lemma NextNumber(n: U64)
    ensures IsUnsigned((n + 1) % TWO64, n + 1)
  {}

  lemma SignedRange(x: U64)
    ensures -0x8000_0000_0000_0000 <= Signed64(x) < 0x8000_0000_0000_0000
  {}

  lemma {:induction false} EntryReported(s: Sample, prev: seq<U64>, i: nat)
    requires SampleOk(s) && |prev| == MAX_NODES && i < |s.hops|
    ensures EntryTells(NodeMeta(s, prev)[i], i, s.hops[i].ingress, s.hops[i].egress,
                       if i == 0 then 0 else s.hops[i - 1].egress, prev[i])
  {
    hide Sub64, Signed64, IsSigned, IsUnsigned;
    assert NodeMeta(s, prev)[i] == HopEntry(s, prev, i);
    SubIs(s.hops[i].egress, s.hops[i].ingress);
    SubIs(s.hops[i].ingress, prev[i]);
    if i > 0 {
      SubIs(s.hops[i - 1].egress, s.hops[i].ingress);
    }
  }

  lemma {:induction false} SinkEntryReported(s: Sample, prev: seq<U64>)
    requires SampleOk(s) && |prev| == MAX_NODES && s.hops != []
    ensures SinkEntryTells(NodeMeta(s, prev)[|s.hops|], |s.hops|, s.dstTs, s.hops[|s.hops| - 1].egress, prev[|s.hops|])
  {
    hide Sub64, Signed64, IsSigned, IsUnsigned, HopEntry;
    assert NodeMeta(s, prev)[|s.hops|] == SinkEntry(s, prev);
    SubIs(s.hops[|s.hops| - 1].egress, s.dstTs);
    SubIs(s.dstTs, prev[|s.hops|]);
  }

  lemma {:induction false} SampleTells(s: Sample, packet: seq<Byte>, hops: seq<Hop>, sink: Hop, f: FlowMeta,
                                       prev: seq<U64>, tstmp: bool)
    requires PlainOnWire(packet) && |packet| >= L4End(packet) && |prev| == MAX_NODES && 1 <= |hops| <= 9
    requires SampleOk(s) && Reads(s, packet, hops, sink)
    ensures Tells(ReportOf(s, f, prev, tstmp), packet, hops, sink, f, prev, tstmp)
  {
    hide PlainOnWire, WordAt, Be16, Sub64, FlowPart, NodeMeta, IngressOf, EgressOf, EntryTells, SinkEntryTells;
    hide NumberTells, IsUnsigned;
    NumberReported(s, f, prev, tstmp);
    SubIs(s.dstTs, s.first.ingress);
    SinkEntryReported(s, prev);
    var k, r := |hops|, ReportOf(s, f, prev, tstmp);
    forall i | 0 <= i < k
      ensures EntryTells(r.nodeMeta[i], i, IngressOf(hops[k - 1 - i]), EgressOf(hops[k - 1 - i]),
                         if i == 0 then 0 else EgressOf(hops[k - i]), prev[i])
    {
      EntryReported(s, prev, i);
      if i > 0 {
        assert hops[k - i] == hops[k - 1 - (i - 1)];
      }
    }
  }

  /**
   From the bytes on the first wire to the report.  A plain UDP or TCP packet goes through a
   source, transit nodes, nine in all at most, and a sink; whichever buffer its report arrives in,
   the collector reports the packet's own addresses, ports and number, and of each node, the last
   one first, its times and what they differ by.
   */
  lemma {:induction false} CollectorTells(hops: seq<Hop>, sink: Hop, packet: seq<Byte>, buff: seq<Byte>, f: FlowMeta,
                                          prev: seq<U64>, tstmp: bool)
    requires IsPath(hops) && |hops| <= 9 && PlainOnWire(packet) && |prev| == MAX_NODES
    requires sink.cfg.sinkEnable && !sink.cfg.srcEnable
    ensures |packet| >= L4End(packet)
    ensures var q := Forward(hops, packet);
            && q.Some?
            && var report := Dataplane.Process(sink.cfg, q.value, sink.md, sink.seqNo);
               && report.Some?
               && (EndToEnd.Received(buff, report.value) ==>
                     && Decoder.Readable(buff)
                     && Tells(ReportOf(Decoder.ReadSample(buff), f, prev, tstmp), packet, hops, sink, f, prev, tstmp))
  {
    hide Dataplane.Process, PlainOnWire, Forward, ReportOnWire, Tells, Reads, EndToEnd.Received, SampleOk, ReportOf;
    SinkReports(hops, sink, packet);
    var r := Dataplane.Process(sink.cfg, Forward(hops, packet).value, sink.md, sink.seqNo).value;
    LongEnough(hops, sink, packet, r);
    if EndToEnd.Received(buff, r) {
      ReportReads(hops, sink, packet, r, buff);
      SampleTells(Decoder.ReadSample(buff), packet, hops, sink, f, prev, tstmp);
    }
  }

  lemma LongEnough(hops: seq<Hop>, sink: Hop, packet: seq<Byte>, r: seq<Byte>)
    requires PlainOnWire(packet) && ReportOnWire(hops, sink, packet, r)
    ensures |packet| >= L4End(packet)
  {}

  // ---------------------------------------------------------------------------
  // Reports the collector cannot read
  // ---------------------------------------------------------------------------

  /**
   A sink also reports packets that never passed a source.  Such a report announces metadata of
   length 0 per node, by which the decoder would divide: no buffer that received it is readable.
   */
  lemma {:induction false} PlainAtSinkUnreadable(sink: Hop, packet: seq<Byte>, buff: seq<Byte>)
    requires PlainOnWire(packet) && sink.cfg.sinkEnable && !sink.cfg.srcEnable
    ensures var r := Dataplane.Process(sink.cfg, packet, sink.md, sink.seqNo);
            && r.Some? && |r.value| >= 50 && r.value[26] == 253 && r.value[27] == 0
            && (EndToEnd.Received(buff, r.value) ==> !Decoder.Readable(buff))
  {
    hide Dataplane.Process, Verdict, WordAt;
    SinkOnWire(sink, packet);
  }
}
