/**
 From the bytes a host sends, through source, transit nodes and sink, to the figures the
 collector reports: what the C++ decoder reads is what the P4 nodes wrote.
 */
module EndToEnd {
  import opened Bytes
  import opened Options
  import opened Headers
  import opened Parser
  import opened Dataplane
  import opened Path
  import Telemetry
  import Decoder

  /** The receive buffer after a report arrived in it; what lies beyond is left over. */
  ghost predicate Received(buff: seq<Byte>, report: seq<Byte>) {
    |buff| == Decoder.PKT_BUF_SIZE && report <= buff
  }

  /** The times a node stamped. */
  function Times(hop: Hop): Telemetry.HopTimes {
    Telemetry.HopTimes(hop.md.ingressTs.Value(), hop.md.egressTs.Value())
  }

  /** The hops as the collector lists them: the last node of the path first. */
  function TimesNewestFirst(hops: seq<Hop>): (times: seq<Telemetry.HopTimes>)
    ensures |times| == |hops|
  {
    seq(|hops|, i requires 0 <= i < |hops| => Times(hops[|hops| - 1 - i]))
  }

  lemma {:induction false} StackWordAt(hops: seq<Hop>, i: nat, j: nat)
    requires i < |hops| && j < 6
    ensures StackWords(hops)[6 * i + j] == MetadataWords(hops[|hops| - 1 - i])[j]
    decreases |hops|
  {
    if i > 0 {
      StackWordAt(hops[..|hops| - 1], i - 1, j);
    }
  }

  lemma PlainParts(h: HeaderSet)
    requires Plain(h)
    ensures h.ethernet.Some? && h.ipv4.Some? && (h.udp.Some? <==> h.tcp.None?)
  {}

  /** Where the pieces of the report lie in the buffer. */
  lemma {:induction false} ReportLayout(hops: seq<Hop>, sink: Hop, h0: HeaderSet, payload: seq<Byte>, buff: seq<Byte>)
    requires Plain(h0) && Received(buff, ReportBytes(hops, sink, h0, payload))
    ensures 50 + 24 * |hops| <= |buff|
    ensures buff[14..50] == ToBytes(ReportHeader(h0, |hops|, sink.md).Words())
    ensures buff[50..50 + 24 * |hops|] == ToBytes(StackWords(hops))
  {
    PlainParts(h0);
    hide ToBytes, Ethernet.Encode, StackWords, Plain;
    var e := h0.ethernet.value.(etherType := ETHERTYPE_REPORT).Encode();
    var i := ToBytes(ReportHeader(h0, |hops|, sink.md).Words());
    var s := ToBytes(StackWords(hops));
    var r := ReportBytes(hops, sink, h0, payload);
    assert |i| == 36;
    assert r == e + (i + (s + payload)) == (e + i) + (s + payload);
    Within(e, i, s + payload, buff);
    Within(e + i, s, payload, buff);
  }

  /** A piece of what a buffer starts with. */
  lemma Within(a: seq<Byte>, b: seq<Byte>, c: seq<Byte>, buff: seq<Byte>)
    requires a + (b + c) <= buff
    ensures |a| + |b| <= |buff| && buff[|a|..|a| + |b|] == b
  {
    var all := a + (b + c);
    assert buff[|a|..|a| + |b|] == all[|a|..|a| + |b|];
  }

  lemma {:induction false} HopDecodes(hops: seq<Hop>, buff: seq<Byte>, i: nat)
    requires |buff| == Decoder.PKT_BUF_SIZE && i < |hops| <= 84
    requires buff[50..50 + 24 * |hops|] == ToBytes(StackWords(hops))
    ensures Decoder.ReadHop(buff, i) == Times(hops[|hops| - 1 - i])
  {
    hide ToBytes, WordAt, StackWords, Decoder.Load64, Decoder.Ntoh64;
    var ws, hop := StackWords(hops), hops[|hops| - 1 - i];
    var at := 50 + 24 * i;
    StackWordAt(hops, i, 2);
    StackWordAt(hops, i, 3);
    StackWordAt(hops, i, 4);
    StackWordAt(hops, i, 5);
    WordAtBytes(ws, 6 * i + 2, buff, 50);
    WordAtBytes(ws, 6 * i + 3, buff, 50);
    WordAtBytes(ws, 6 * i + 4, buff, 50);
    WordAtBytes(ws, 6 * i + 5, buff, 50);
    Decoder.Ntoh64Reads(buff, at + 8);
    Decoder.Ntoh64Reads(buff, at + 16);
    assert MetadataWords(hop)[2] == hop.md.ingressTs.h && MetadataWords(hop)[3] == hop.md.ingressTs.l;
    assert MetadataWords(hop)[4] == hop.md.egressTs.h && MetadataWords(hop)[5] == hop.md.egressTs.l;
  }

  /** The header fields, each at its place in `int_influx_t`. */
  lemma {:induction false} HeaderDecodes(influx: Influx, buff: seq<Byte>)
    requires |buff| == Decoder.PKT_BUF_SIZE && buff[14..50] == ToBytes(influx.Words())
    ensures buff[14..18] == ToBytes([influx.srcAddr]) && buff[18..22] == ToBytes([influx.dstAddr])
    ensures Decoder.Ntohs(Decoder.Load16(buff, 22)) == influx.ingressPortId
    ensures Decoder.Ntohs(Decoder.Load16(buff, 24)) == influx.egressPortId
    ensures buff[26] == influx.metaLen && buff[27] == influx.resv1 * 32 + influx.hopMetaLen
    ensures Decoder.Ntoh64(Decoder.Load64(buff, 30)) == influx.ndkTstamp.Value()
    ensures Decoder.Ntohl(Decoder.Load32(buff, 46)) == influx.seqNo
  {
    var ws := influx.Words();
    AddressBytes(ws, buff);
    hide ToBytes, WordAt, Decoder.Load16, Decoder.Load32, Decoder.Load64, Decoder.Ntohs, Decoder.Ntohl;
    hide Decoder.Ntoh64, Word2, Hi, Lo;
    WordAtBytes(ws, 2, buff, 14);
    WordAtBytes(ws, 3, buff, 14);
    WordAtBytes(ws, 4, buff, 14);
    WordAtBytes(ws, 5, buff, 14);
    WordAtBytes(ws, 8, buff, 14);
    BytesAtWord(buff, 22);
    BytesAtWord(buff, 26);
    HalvesOfWord(influx.ingressPortId, influx.egressPortId);
    HalvesOfWord(influx.metaLen * TWO8 + influx.resv1 * 32 + influx.hopMetaLen, influx.rsvd2);
    Decoder.NtohsReads(buff, 22);
    Decoder.NtohsReads(buff, 24);
    Decoder.Ntoh64Reads(buff, 30);
    Decoder.NtohlReads(buff, 46);
  }

  lemma {:induction false} AddressBytes(ws: seq<U32>, buff: seq<Byte>)
    requires |ws| == 9 && |buff| >= 50 && buff[14..50] == ToBytes(ws)
    ensures buff[14..18] == ToBytes([ws[0]]) && buff[18..22] == ToBytes([ws[1]])
  {
    hide ToBytes;
    var a, b, rest := ToBytes([ws[0]]), ToBytes([ws[1]]), ToBytes(ws[2..]);
    ToBytesAppend([ws[0]], [ws[1]]);
    ToBytesAppend([ws[0]] + [ws[1]], ws[2..]);
    assert ws == [ws[0]] + [ws[1]] + ws[2..];
    assert buff[14..50] == a + b + rest;
    assert buff[14..18] == buff[14..50][..4] && buff[18..22] == buff[14..50][4..8];
  }

  lemma {:induction false} HopsDecode(hops: seq<Hop>, buff: seq<Byte>)
    requires |buff| == Decoder.PKT_BUF_SIZE && |hops| <= 84
    requires buff[50..50 + 24 * |hops|] == ToBytes(StackWords(hops))
    ensures forall i :: 0 <= i < |hops| ==> Decoder.ReadHop(buff, i) == TimesNewestFirst(hops)[i]
  {
    hide Decoder.ReadHop, ToBytes, StackWords, Times;
    forall i | 0 <= i < |hops|
      ensures Decoder.ReadHop(buff, i) == TimesNewestFirst(hops)[i]
    {
      HopDecodes(hops, buff, i);
    }
  }

  /** The decoder finds the path's times, newest first, and the packet's own identity. */
  ghost predicate Decodes(buff: seq<Byte>, hops: seq<Hop>, sink: Hop, h0: HeaderSet)
    requires h0.ipv4.Some?
  {
    && Decoder.Readable(buff)
    && var s, ip := Decoder.ReadSample(buff), h0.ipv4.value;
       && s.hops == TimesNewestFirst(hops)
       && (hops != [] ==> s.first == Times(hops[|hops| - 1]))
       && s.dstTs == sink.md.ingressTs.Value()
       && s.srcIp == ToBytes([ip.srcAddr]) && s.dstIp == ToBytes([ip.dstAddr])
       && (h0.udp.Some? ==> s.srcPort == h0.udp.value.srcPort && s.dstPort == h0.udp.value.dstPort && s.seqNo == 0)
       && (h0.tcp.Some? ==> s.srcPort == h0.tcp.value.srcPort && s.dstPort == h0.tcp.value.dstPort
                            && s.seqNo == h0.tcp.value.seqNum)
  }

  /** Decoding a sink's report: for up to nine nodes everything comes back. */
  lemma {:induction false} ReportDecodes(hops: seq<Hop>, sink: Hop, h0: HeaderSet, payload: seq<Byte>, buff: seq<Byte>)
    requires Plain(h0) && 1 <= |hops| <= 9 && Received(buff, ReportBytes(hops, sink, h0, payload))
    ensures h0.ipv4.Some? && Decodes(buff, hops, sink, h0)
  {
    var k := |hops|;
    PlainParts(h0);
    ReportLayout(hops, sink, h0, payload, buff);
    hide ToBytes, Decoder.ReadHop, Decoder.Load16, Decoder.Load32, Decoder.Load64, Decoder.Ntohs, Decoder.Ntohl;
    hide Decoder.Ntoh64, StackWords, Plain, ReportBytes;
    HeaderDecodes(ReportHeader(h0, k, sink.md), buff);
    HopsDecode(hops, buff);
    CountDecodes(buff, k);
    SampleHops(hops, buff);
  }

  lemma {:induction false} CountDecodes(buff: seq<Byte>, k: nat)
    requires |buff| == Decoder.PKT_BUF_SIZE && k <= 9
    requires buff[26] == 6 * k % TWO8 && buff[27] == 6
    ensures Decoder.Readable(buff) && Decoder.MetaCnt(buff) == k
  {
    assert 6 * k % TWO8 == 6 * k && 6 * k / 6 == k;
  }

  lemma {:induction false} SampleHops(hops: seq<Hop>, buff: seq<Byte>)
    requires Decoder.Readable(buff) && Decoder.MetaCnt(buff) == |hops| >= 1
    requires forall i :: 0 <= i < |hops| ==> Decoder.ReadHop(buff, i) == TimesNewestFirst(hops)[i]
    ensures Decoder.ReadSample(buff).hops == TimesNewestFirst(hops)
    ensures Decoder.ReadSample(buff).first == Times(hops[|hops| - 1])
  {
    hide Decoder.ReadHop;
    assert TimesNewestFirst(hops)[0] == Times(hops[|hops| - 1]);
  }

  /** A sink reports every packet that reaches it over at most 84 nodes. */
  lemma {:induction false} SinkDelivers(hops: seq<Hop>, sink: Hop, h0: HeaderSet, payload: seq<Byte>)
    requires IsPath(hops) && |hops| <= 84 && Plain(h0)
    requires sink.cfg.sinkEnable && !sink.cfg.srcEnable
    ensures var packet := Forward(hops, Deparse(h0) + payload);
            packet.Some? && Process(sink.cfg, packet.value, sink.md, sink.seqNo)
              == Some(ReportBytes(hops, sink, h0, payload))
  {
    hide Delivered, ReportBytes, Plain, Process, Deparse, Forward, Acceptable;
    var h := PathDelivers(hops, h0, payload);
    SurvivesUpTo85Nodes(hops, h0, payload);
    AcceptableExactly(|hops|);
    SinkEmits(hops, sink, h0, payload, h, Forward(hops, Deparse(h0) + payload).value);
  }

  /**
   The round trip.  A plain TCP or UDP packet is sent through a source, any transit nodes and
   a sink, nine nodes adding metadata at most.  The sink always delivers, and from any buffer
   that received its report the collector reads back the number of nodes and all their times,
   the addresses, the ports and the sequence number.  These are what the program extracts: if the
   IPv4 header has options, they are what the ports and the sequence number are read from.
   */
  lemma {:induction false} RoundTrip(hops: seq<Hop>, sink: Hop, h0: HeaderSet, payload: seq<Byte>)
    requires IsPath(hops) && |hops| <= 9 && Plain(h0)
    requires sink.cfg.sinkEnable && !sink.cfg.srcEnable
    ensures var packet := Forward(hops, Deparse(h0) + payload);
            && packet.Some?
            && var report := Process(sink.cfg, packet.value, sink.md, sink.seqNo);
               && report.Some? && h0.ipv4.Some?
               && forall buff :: Received(buff, report.value) ==> Decodes(buff, hops, sink, h0)
  {
    PlainParts(h0);
    SinkDelivers(hops, sink, h0, payload);
    hide ReportBytes, Plain, Process, Decodes, Deparse, Forward, Received, IsPath;
    forall buff | Received(buff, ReportBytes(hops, sink, h0, payload))
      ensures Decodes(buff, hops, sink, h0)
    {
      ReportDecodes(hops, sink, h0, payload, buff);
    }
  }

  /**
   Longer paths.  Of the reports a sink can send, for up to 84 nodes, the collector can decode
   without a write past its array exactly those of at most 9 and of 43 to 52 nodes.  It counts the
   nodes rightly up to 42; beyond, the 8-bit length has wrapped and it reads the newest k - 43 as
   if they were all, with 43 nodes none.
   */
  lemma {:induction false} LongPathsMiscounted(hops: seq<Hop>, sink: Hop, h0: HeaderSet, payload: seq<Byte>,
                                               buff: seq<Byte>)
    requires Plain(h0) && 1 <= |hops| <= 84 && Received(buff, ReportBytes(hops, sink, h0, payload))
    ensures |buff| == Decoder.PKT_BUF_SIZE && buff[Decoder.INFLUX_AT + 13] == 6
    ensures Decoder.MetaCnt(buff) == if |hops| <= 42 then |hops| else |hops| - 43
    ensures Decoder.Readable(buff) <==> |hops| <= 9 || 43 <= |hops| <= 52
    ensures Decoder.Readable(buff) && |hops| > 9 ==>
              Decoder.ReadSample(buff).hops == TimesNewestFirst(hops)[..|hops| - 43]
  {
    var k := |hops|;
    PlainParts(h0);
    ReportLayout(hops, sink, h0, payload, buff);
    hide ToBytes, Decoder.ReadHop, Decoder.Load16, Decoder.Load32, Decoder.Load64, Decoder.Ntohs, Decoder.Ntohl;
    hide Decoder.Ntoh64, StackWords, Plain, ReportBytes, Received, TimesNewestFirst, Decoder.ReadSample;
    HeaderDecodes(ReportHeader(h0, k, sink.md), buff);
    CountWraps(k);
    HopsDecode(hops, buff);
    if Decoder.Readable(buff) && k > 9 {
      HopsCut(hops, buff, k - 43);
    }
  }

  /** A decoder that counts `n` hops reads the first `n` of the stack. */
  lemma {:induction false} HopsCut(hops: seq<Hop>, buff: seq<Byte>, n: nat)
    requires Decoder.Readable(buff) && Decoder.MetaCnt(buff) == n <= |hops| <= 84
    requires forall i :: 0 <= i < |hops| ==> Decoder.ReadHop(buff, i) == TimesNewestFirst(hops)[i]
    ensures Decoder.ReadSample(buff).hops == TimesNewestFirst(hops)[..n]
  {
    hide Decoder.ReadHop, TimesNewestFirst;
  }

  lemma CountWraps(k: nat)
    requires k <= 84
    ensures 6 * k % TWO8 / 6 == if k <= 42 then k else k - 43
  {}

  /**
   What the reported delay really spans.  The collector takes the first record of the stack
   for the origin, but that is the newest one, of the last node.  So `origTs` is when the
   packet reached the last node, and the delay is that from the source exactly when both
   nodes stamped the same time.  Cutting time stamps to 48 bits does not touch the delay.
   */
  lemma {:induction false} DelayCountsFromLastNode(hops: seq<Hop>, sink: Hop, h0: HeaderSet, payload: seq<Byte>,
          buff: seq<Byte>,
                                                   f: Telemetry.FlowMeta, prev: seq<U64>, tstmp: bool)
    requires Plain(h0) && 1 <= |hops| <= 9 && Received(buff, ReportBytes(hops, sink, h0, payload))
    requires |prev| == Telemetry.MAX_NODES && Decoder.Readable(buff)
    ensures var r := Telemetry.ReportOf(Decoder.ReadSample(buff), f, prev, tstmp);
            var source, last, arrival := Times(hops[0]).ingress, Times(hops[|hops| - 1]).ingress,
              sink.md.ingressTs.Value();
            && r.origTs == (if tstmp then last % TWO48 else last)
               && r.dstTs == (if tstmp then arrival % TWO48 else arrival)
            && r.delay == Telemetry.Sub64(arrival, last)
            && (r.delay == Telemetry.Sub64(arrival, source) <==> last == source)
  {
    hide ReportBytes, Decoder.ReadSample, TimesNewestFirst, Telemetry.NodeMeta, Plain, Received;
    ReportDecodes(hops, sink, h0, payload, buff);
  }
}
