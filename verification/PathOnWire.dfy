/**
 The path theorems on raw bytes: what a plain packet has become after any number of nodes, where
 each node's metadata lies, and what a sink at the end reports.
 */
module PathsOnWire {
  import opened Bytes
  import opened Options
  import opened Headers
  import opened Parser
  import opened Dataplane
  import opened Path
  import opened Layouts
  import opened NodesOnWire

  /** A UDP or TCP packet that the parser accepts and that carries no telemetry yet. */
  predicate PlainOnWire(packet: seq<Byte>) {
    Verdict(packet).None? && IsL4(packet) && !IsMarked(packet)
  }

  /** What a plain packet is after `hops`, byte for byte; only the IPv4 checksum is left open. */
  predicate PassedOnWire(hops: seq<Hop>, packet: seq<Byte>, r: seq<Byte>)
    requires hops != [] && PlainOnWire(packet)
  {
    var k, end := |hops|, L4End(packet);
    && |packet| >= end && |r| == |packet| + 12 + 24 * k
    && r[..end + 12] == WithChecksum(AfterNodes(packet, k, hops[0].seqNo), Be16(r, 24))[..end + 12]
    && (forall j :: 0 <= j < k ==> MetadataAt(hops[k - 1 - j], r, end + 12 + 24 * j))
    && r[end + 12 + 24 * k..] == packet[end..]
  }

  /** Such a packet is marked, and its headers end where they did, plus 12. */
  lemma {:induction false} PassedIsMarked(packet: seq<Byte>, k: nat, seqNo: U16, checksum: U16, r: seq<Byte>)
    requires PlainOnWire(packet) && |packet| >= L4End(packet)
    requires |r| >= L4End(packet) + 12
    requires r[..L4End(packet) + 12] == WithChecksum(AfterNodes(packet, k, seqNo), checksum)[..L4End(packet) + 12]
    ensures IsMarked(r) && L4End(r) == L4End(packet)
  {
    hide IntBytes, Verdict;
    var b, end := WithChecksum(AfterNodes(packet, k, seqNo), checksum), L4End(packet);
    SameBytes(r, b, 0, 34);
    var m := Marked(packet, 12 + 24 * k);
    assert b[12] == m[12] == packet[12] && b[13] == m[13] == packet[13];
    assert b[15] == m[15] == 0x80 + packet[15] % 4;
    assert b[23] == m[23] == packet[23];
  }

  /** One more transit node moves the headers on by one node. */
  lemma {:induction false} HeadersAdvance(packet: seq<Byte>, k: nat, seqNo: U16, checksum: U16, r: seq<Byte>,
                                          checksum': U16)
    requires PlainOnWire(packet) && |packet| >= L4End(packet) && |r| >= L4End(packet) + 12
    requires r[..L4End(packet) + 12] == WithChecksum(AfterNodes(packet, k, seqNo), checksum)[..L4End(packet) + 12]
    requires IsMarked(r) && L4End(r) == L4End(packet)
    ensures var end := L4End(packet) + 12;
            WithChecksum(AfterTransit(r), checksum')[..end]
            == WithChecksum(AfterNodes(packet, k + 1, seqNo), checksum')[..end]
  {
    hide Verdict;
    var at := L4End(packet);
    var end := at + 12;
    var b := WithChecksum(AfterNodes(packet, k, seqNo), checksum);
    SameBytes(r, b, 0, end);
    assert StartsAs(r, packet, k, seqNo, checksum);
    hide StartsAs, AfterNodes, AfterTransit, WithChecksum;
    var x, y := WithChecksum(AfterTransit(r), checksum'), WithChecksum(AfterNodes(packet, k + 1, seqNo), checksum');
    forall i | 0 <= i < end
      ensures x[i] == y[i]
    {
      if i < 34 {
        Ipv4Advances(packet, k, seqNo, checksum, r, checksum', i);
      } else if i < at {
        L4Advances(packet, k, seqNo, checksum, r, checksum', i);
      } else {
        IntAdvances(packet, k, seqNo, checksum, r, checksum', i);
      }
    }
  }

  /** The first headers of `r` are those `k` nodes leave, byte by byte. */
  predicate StartsAs(r: seq<Byte>, packet: seq<Byte>, k: nat, seqNo: U16, checksum: U16)
    requires IsL4(packet) && |packet| >= L4End(packet)
  {
    var b := WithChecksum(AfterNodes(packet, k, seqNo), checksum);
    |r| >= L4End(packet) + 12 && forall i :: 0 <= i < L4End(packet) + 12 ==> r[i] == b[i]
  }

  lemma {:induction false} Ipv4Advances(packet: seq<Byte>, k: nat, seqNo: U16, checksum: U16, r: seq<Byte>,
                                        checksum': U16, i: nat)
    requires IsL4(packet) && |packet| >= L4End(packet) && StartsAs(r, packet, k, seqNo, checksum) && i < 34
    requires IsMarked(r) && L4End(r) == L4End(packet)
    ensures WithChecksum(AfterTransit(r), checksum')[i] == WithChecksum(AfterNodes(packet, k + 1, seqNo), checksum')[i]
  {
    hide IntBytes;
    LengthAdvances(Be16(packet, 16), k);
  }

  lemma {:induction false} L4Advances(packet: seq<Byte>, k: nat, seqNo: U16, checksum: U16, r: seq<Byte>,
                                      checksum': U16, i: nat)
    requires IsL4(packet) && |packet| >= L4End(packet) && StartsAs(r, packet, k, seqNo, checksum)
    requires IsMarked(r) && L4End(r) == L4End(packet) && 34 <= i < L4End(packet)
    ensures WithChecksum(AfterTransit(r), checksum')[i] == WithChecksum(AfterNodes(packet, k + 1, seqNo), checksum')[i]
  {
    hide IntBytes;
    if packet[23] == 17 {
      LengthAdvances(Be16(packet, 38), k);
    }
  }

  lemma {:induction false} IntAdvances(packet: seq<Byte>, k: nat, seqNo: U16, checksum: U16, r: seq<Byte>,
                                       checksum': U16, i: nat)
    requires IsL4(packet) && |packet| >= L4End(packet) && StartsAs(r, packet, k, seqNo, checksum)
    requires IsMarked(r) && L4End(r) == L4End(packet) && L4End(packet) <= i < L4End(packet) + 12
    ensures WithChecksum(AfterTransit(r), checksum')[i] == WithChecksum(AfterNodes(packet, k + 1, seqNo), checksum')[i]
  {
    hide IntBytes, AfterNodes, AfterTransit, WithChecksum;
    LengthAdvances(0, k);
    IntPlace(packet, k, seqNo, checksum, i);
    IntPlace(packet, k + 1, seqNo, checksum', i);
    TransitPlace(r, checksum', i);
    IntBytesAdvance(packet[15] / 4, k, seqNo, i - L4End(packet));
  }

  lemma IntPlace(packet: seq<Byte>, k: nat, seqNo: U16, checksum: U16, i: nat)
    requires IsL4(packet) && |packet| >= L4End(packet) && L4End(packet) <= i < L4End(packet) + 12
    ensures WithChecksum(AfterNodes(packet, k, seqNo), checksum)[i]
            == IntBytes(packet[15] / 4, k, seqNo)[i - L4End(packet)]
  {
    hide IntBytes;
  }

  lemma TransitPlace(r: seq<Byte>, checksum: U16, i: nat)
    requires IsL4(r) && |r| >= L4End(r) + 12 && L4End(r) <= i < L4End(r) + 12
    ensures WithChecksum(AfterTransit(r), checksum)[i] ==
            if i == L4End(r) + 2 then (r[i] + 6) % TWO8 else if i == L4End(r) + 7 then (r[i] + 255) % TWO8 else r[i]
  {}

  lemma IntBytesAdvance(dscp: U6, k: nat, seqNo: U16, i: nat)
    requires i < 12
    ensures var a := IntBytes(dscp, k, seqNo)[i];
            IntBytes(dscp, k + 1, seqNo)[i] == if i == 2 then (a + 6) % TWO8 else if i == 7 then (a + 255) % TWO8 else a
  {
    LengthAdvances(0, k);
  }

  lemma LengthAdvances(x: U16, k: nat)
    ensures ((x + (12 + 24 * k)) % 0x1_0000 + 24) % 0x1_0000 == (x + (12 + 24 * (k + 1))) % 0x1_0000
    ensures ((3 + 6 * k) % TWO8 + 6) % TWO8 == (3 + 6 * (k + 1)) % TWO8
    ensures ((255 + 255 * k) % TWO8 + 255) % TWO8 == (255 + 255 * (k + 1)) % TWO8
  {
    Wrap16(x + (12 + 24 * k), 24);
    Wrap8(3 + 6 * k, 6);
    Wrap8(255 + 255 * k, 255);
  }

  /** The metadata of one node, further back by what was inserted in front. */
  lemma MetadataMoves(hop: Hop, a: seq<Byte>, i: nat, b: seq<Byte>, j: nat)
    requires MetadataAt(hop, a, i) && j + 24 <= |b| && a[i..i + 24] == b[j..j + 24]
    ensures MetadataAt(hop, b, j)
  {
    hide MetadataAt, ToBytes, MetadataWords;
    MetadataWritten(hop, a, i);
    MetadataReads(hop, b, j);
  }

  /** The metadata is determined by its fields. */
  lemma {:induction false} MetadataWritten(hop: Hop, bs: seq<Byte>, at: nat)
    requires MetadataAt(hop, bs, at)
    ensures bs[at..at + 24] == ToBytes(MetadataWords(hop))
  {
    var ws := MetadataWords(hop);
    var slice := bs[at..at + 24];
    hide WordAt, ToBytes, MetadataWords, Word2, Be16;
    WordOfSlice(bs, at, 24, 0);
    WordOfSlice(bs, at, 24, 1);
    WordOfSlice(bs, at, 24, 2);
    WordOfSlice(bs, at, 24, 3);
    WordOfSlice(bs, at, 24, 4);
    WordOfSlice(bs, at, 24, 5);
    assert WordAt(bs, at + 4) == Word2(hop.md.ingressPort, hop.md.egressPort) by {
      PortsWord(hop, bs, at);
    }
    assert ToWords(slice) == ws by {
      SixWords(hop);
      hide ToWords;
    }
    BytesSurviveParsing(slice);
  }

  lemma PortsWord(hop: Hop, bs: seq<Byte>, at: nat)
    requires MetadataAt(hop, bs, at)
    ensures WordAt(bs, at + 4) == Word2(hop.md.ingressPort, hop.md.egressPort)
  {
    WordOfHalves(bs, at + 4);
    hide WordAt, Be16;
  }

  lemma SixWords(hop: Hop)
    ensures MetadataWords(hop) == [hop.cfg.switchId, Word2(hop.md.ingressPort, hop.md.egressPort),
                                   hop.md.ingressTs.h, hop.md.ingressTs.l, hop.md.egressTs.h, hop.md.egressTs.l]
  {
    hide Word2;
  }

  /** The first node of a path. */
  lemma {:induction false} FirstPasses(hop: Hop, packet: seq<Byte>)
    requires PlainOnWire(packet) && hop.cfg.srcEnable && !hop.cfg.sinkEnable
    ensures var r := Process(hop.cfg, packet, hop.md, hop.seqNo);
            r.Some? && PassedOnWire([hop], packet, r.value)
  {
    hide Process, AfterNodes, MetadataAt, Verdict;
    SourceOnWire(hop, packet);
  }

  /** The next node of a path, if its parser accepts the packet. */
  lemma {:induction false} NextPasses(hops: seq<Hop>, hop: Hop, packet: seq<Byte>, r: seq<Byte>)
    requires hops != [] && PlainOnWire(packet) && PassedOnWire(hops, packet, r) && Verdict(r).None?
    requires !hop.cfg.srcEnable && !hop.cfg.sinkEnable
    ensures var r' := Process(hop.cfg, r, hop.md, hop.seqNo);
            r'.Some? && PassedOnWire(hops + [hop], packet, r'.value)
  {
    hide Process, AfterNodes, AfterTransit, MetadataAt, Verdict, WithChecksum;
    var k, end, seqNo := |hops|, L4End(packet) + 12, hops[0].seqNo;
    PassedIsMarked(packet, k, seqNo, Be16(r, 24), r);
    TransitOnWire(hop, r);
    var r' := Process(hop.cfg, r, hop.md, hop.seqNo).value;
    HeadersAdvance(packet, k, seqNo, Be16(r, 24), r, Be16(r', 24));
    var all := hops + [hop];
    forall j | 0 <= j < k + 1
      ensures MetadataAt(all[k - j], r', end + 24 * j)
    {
      if j > 0 {
        assert all[k - j] == hops[k - 1 - (j - 1)];
        assert r'[end + 24..] == r[end..];
        SameBehind(r, end, r', end + 24, 24 * (j - 1), 24);
        MetadataMoves(hops[k - j], r, end + 24 * (j - 1), r', end + 24 * j);
      }
    }
    TailSlice(r', end + 24, 24 * k, 0);
    TailSlice(r, end, 24 * k, 0);
  }

  /** Equal tails have equal slices at equal distances. */
  lemma SameBehind(a: seq<Byte>, i: nat, b: seq<Byte>, j: nat, at: nat, n: nat)
    requires i <= |a| && j <= |b| && a[i..] == b[j..] && i + at + n <= |a|
    ensures j + at + n <= |b| && a[i + at..i + at + n] == b[j + at..j + at + n]
  {
    assert |a| - i == |a[i..]| == |b[j..]| == |b| - j;
    TailSlice(a, i, at, n);
    TailSlice(b, j, at, n);
  }

  lemma TailSlice(a: seq<Byte>, i: nat, at: nat, n: nat)
    requires i + at + n <= |a|
    ensures a[i..][at..at + n] == a[i + at..i + at + n]
    ensures a[i..][at..] == a[i + at..]
  {}

  /**
   A plain packet on a path, byte for byte.  Of what goes in, the DSCP, the lengths and the
   checksums change; behind the UDP or TCP header stand the two INT headers, then 24 bytes for
   each node, the last node first, then what stood there before.
   */
  lemma {:induction false} PathOnWire(hops: seq<Hop>, packet: seq<Byte>)
    requires IsPath(hops) && PlainOnWire(packet)
    ensures var r := Forward(hops, packet); r.Some? ==> PassedOnWire(hops, packet, r.value)
    decreases |hops|
  {
    hide Process, PassedOnWire, PlainOnWire, ParseEthernet, Verdict;
    var k := |hops| - 1;
    if k == 0 {
      assert hops[..0] == [] && hops == [hops[0]];
      FirstPasses(hops[0], packet);
    } else {
      assert IsPath(hops[..k]);
      PathOnWire(hops[..k], packet);
      var before := Forward(hops[..k], packet);
      if before.Some? {
        Received(hops[k], before.value);
        if Process(hops[k].cfg, before.value, hops[k].md, hops[k].seqNo).Some? {
          NextPasses(hops[..k], hops[k], packet, before.value);
        }
        assert hops[..k] + [hops[k]] == hops;
      }
    }
  }

  /** A node sends on exactly what its parser accepts. */
  lemma {:induction false} Received(hop: Hop, bs: seq<Byte>)
    ensures Process(hop.cfg, bs, hop.md, hop.seqNo).Some? <==> Verdict(bs).None?
  {
    ParserReads(bs);
    hide Verdict, ParseEthernet, HeadersAt, Deparse, Ingress, Egress;
  }

  /** A packet that is plain on the wire is one the path theorems speak of. */
  lemma {:induction false} PlainParsed(packet: seq<Byte>) returns (h0: HeaderSet, payload: seq<Byte>)
    requires PlainOnWire(packet)
    ensures Plain(h0) && packet == Deparse(h0) + payload
  {
    hide Verdict, EthernetAt, Ipv4At, UdpAt, TcpAt, Deparse, ParseEthernet;
    ParserReads(packet);
    DeparseUndoesParse(packet);
    h0, payload := ParseEthernet(packet).hdr, ParseEthernet(packet).payload;
  }

  /** A path of up to 85 nodes lets it through, and no longer one does. */
  lemma {:induction false} PathLetsThrough(hops: seq<Hop>, packet: seq<Byte>)
    requires IsPath(hops) && PlainOnWire(packet)
    ensures Forward(hops, packet).Some? <==> |hops| <= 85
  {
    hide PlainOnWire, Plain, Deparse, Forward;
    var h0, payload := PlainParsed(packet);
    SurvivesUpTo85Nodes(hops, h0, payload);
  }

  // ---------------------------------------------------------------------------
  // The report
  // ---------------------------------------------------------------------------

  /** What a sink reports of a plain packet that has passed `hops`, byte for byte. */
  predicate ReportOnWire(hops: seq<Hop>, sink: Hop, packet: seq<Byte>, r: seq<Byte>)
    requires PlainOnWire(packet)
  {
    var k, end := |hops|, L4End(packet);
    && |packet| >= end && |r| == 50 + 24 * k + |packet| - end
    && r[..12] == packet[..12] && r[12] == 0xff && r[13] == 0xff
    && r[14..22] == packet[26..34]
    && r[22..26] == packet[34..38]
    && r[26] == 6 * k % TWO8 && r[27] == 6 && r[28] == 0 && r[29] == 0
    && WordAt(r, 30) == WordAt(r, 38) == sink.md.ingressTs.h
    && WordAt(r, 34) == WordAt(r, 42) == sink.md.ingressTs.l
    && r[46..50] == (if packet[23] == 6 then packet[38..42] else [0, 0, 0, 0])
    && (forall j :: 0 <= j < k ==> MetadataAt(hops[k - 1 - j], r, 50 + 24 * j))
    && r[50 + 24 * k..] == packet[end..]
  }

  /** The bytes of the packet a sink copies are still those that entered the path. */
  lemma {:induction false} CopiedFields(hops: seq<Hop>, packet: seq<Byte>, q: seq<Byte>)
    requires hops != [] && PlainOnWire(packet) && PassedOnWire(hops, packet, q)
    ensures var k, end := |hops|, L4End(packet);
            && |packet| >= end && |q| >= end + 12 && IsMarked(q) && L4End(q) == end && HeadersEnd(q) == end + 12
            && q[..12] == packet[..12] && q[23] == packet[23]
            && q[26..34] == packet[26..34] && q[34..38] == packet[34..38]
            && (packet[23] == 6 ==> q[38..42] == packet[38..42])
            && q[end + 2] == (3 + 6 * k) % TWO8 && q[end + 4] == 0x10 && q[end + 6] == 6
  {
    hide Verdict, MetadataAt, AfterNodes, IntBytes, Marked, WithChecksum, Be16;
    var k, end := |hops|, L4End(packet);
    var b := WithChecksum(AfterNodes(packet, k, hops[0].seqNo), Be16(q, 24));
    PassedIsMarked(packet, k, hops[0].seqNo, Be16(q, 24), q);
    SameBytes(q, b, 0, end + 12);
    InMarked(packet, k, hops[0].seqNo, Be16(q, 24));
    CopiedHeaders(packet, 12 + 24 * k);
    var m := Marked(packet, 12 + 24 * k);
    SameBytes(b, m, 0, 12);
    SameBytes(b, m, 26, end - 26);
  }

  lemma InMarked(packet: seq<Byte>, k: nat, seqNo: U16, checksum: U16)
    requires IsL4(packet) && |packet| >= L4End(packet)
    ensures var b, m, end := WithChecksum(AfterNodes(packet, k, seqNo), checksum), Marked(packet, 12 + 24 * k),
              L4End(packet);
            && b[..12] == m[..12] && b[26..end] == m[26..end] && b[23] == m[23]
            && b[end + 2] == (3 + 6 * k) % TWO8 && b[end + 4] == 0x10 && b[end + 6] == 6
  {
    var f := IntBytes(packet[15] / 4, k, seqNo);
    var b, end := WithChecksum(AfterNodes(packet, k, seqNo), checksum), L4End(packet);
    assert b[end + 2] == f[2] && b[end + 4] == f[4] && b[end + 6] == f[6];
  }

  lemma CopiedHeaders(packet: seq<Byte>, n: nat)
    requires IsL4(packet) && |packet| >= L4End(packet)
    ensures var m := Marked(packet, n);
            && m[..12] == packet[..12] && m[23] == packet[23] && m[26..34] == packet[26..34]
            && m[34..38] == packet[34..38] && (packet[23] == 6 ==> m[38..42] == packet[38..42])
  {}

  /** A sink behind up to 84 nodes reports the packet: copied fields, all metadata, all payload. */
  lemma {:induction false} SinkReports(hops: seq<Hop>, sink: Hop, packet: seq<Byte>)
    requires IsPath(hops) && PlainOnWire(packet) && |hops| <= 84
    requires sink.cfg.sinkEnable && !sink.cfg.srcEnable
    ensures var q := Forward(hops, packet);
            && q.Some?
            && var r := Process(sink.cfg, q.value, sink.md, sink.seqNo);
               r.Some? && ReportOnWire(hops, sink, packet, r.value)
  {
    hide Process, PassedOnWire, PlainOnWire, Verdict, Forward, ReportOnWire, ReportAt, HeadersEnd;
    PathLetsThrough(hops, packet);
    PathOnWire(hops, packet);
    var q := Forward(hops, packet).value;
    CopiedFields(hops, packet, q);
    ShortEnough(q, |hops|);
    SinkOnWire(sink, q);
    ReportFollows(hops, sink, packet, q, Process(sink.cfg, q, sink.md, sink.seqNo).value);
  }

  /** The parser's checks pass on what up to 84 nodes leave. */
  lemma ShortEnough(q: seq<Byte>, k: nat)
    requires IsMarked(q) && |q| >= L4End(q) + 12 && k <= 84
    requires q[L4End(q) + 2] == (3 + 6 * k) % TWO8 && q[L4End(q) + 4] == 0x10
    ensures Verdict(q).None?
  {
    assert (3 + 6 * k) % TWO8 >= 3;
  }

  lemma {:induction false} ReportFollows(hops: seq<Hop>, sink: Hop, packet: seq<Byte>, q: seq<Byte>, r: seq<Byte>)
    requires hops != [] && PlainOnWire(packet) && PassedOnWire(hops, packet, q) && !sink.cfg.srcEnable
    requires |q| >= HeadersEnd(q) >= L4End(q) && IsMarked(q)
    requires ReportAt(sink, q, r) && r[50..] == q[HeadersEnd(q)..]
    ensures ReportOnWire(hops, sink, packet, r)
  {
    CopiedFields(hops, packet, q);
    ReportedHeader(sink, q, r, |hops|);
    ReportedStack(hops, packet, q, r);
    hide Verdict, MetadataAt, WithChecksum, IsMarked, HeadersEnd, PlainOnWire, WordAt, PassedOnWire, ReportAt, IsL4;
  }

  /** The report header of a packet that says it has passed `k` nodes. */
  lemma ReportedHeader(sink: Hop, q: seq<Byte>, r: seq<Byte>, k: nat)
    requires IsMarked(q) && |q| >= L4End(q) + 12 && !sink.cfg.srcEnable && ReportAt(sink, q, r)
    requires q[L4End(q) + 2] == (3 + 6 * k) % TWO8 && q[L4End(q) + 6] == 6
    ensures |r| >= 50 && r[..12] == q[..12] && r[12] == 0xff && r[13] == 0xff
    ensures r[14..22] == q[26..34] && r[22..26] == q[34..38]
    ensures r[26] == 6 * k % TWO8 && r[27] == 6 && r[28] == 0 && r[29] == 0
    ensures WordAt(r, 30) == WordAt(r, 38) == sink.md.ingressTs.h
    ensures WordAt(r, 34) == WordAt(r, 42) == sink.md.ingressTs.l
    ensures r[46..50] == if q[23] == 6 then q[38..42] else [0, 0, 0, 0]
  {
    hide WordAt;
    Path.ReportedLength(k);
  }

  lemma {:induction false} ReportedStack(hops: seq<Hop>, packet: seq<Byte>, q: seq<Byte>, r: seq<Byte>)
    requires hops != [] && PlainOnWire(packet) && PassedOnWire(hops, packet, q)
    requires |r| >= 50 && r[50..] == q[L4End(packet) + 12..]
    ensures |packet| >= L4End(packet) && |r| == 50 + 24 * |hops| + |packet| - L4End(packet)
    ensures forall j :: 0 <= j < |hops| ==> MetadataAt(hops[|hops| - 1 - j], r, 50 + 24 * j)
    ensures r[50 + 24 * |hops|..] == packet[L4End(packet)..]
  {
    hide Verdict, MetadataAt, AfterNodes, WithChecksum;
    var k, end := |hops|, L4End(packet);
    assert |q| == |packet| + 12 + 24 * k;
    forall j | 0 <= j < k
      ensures MetadataAt(hops[k - 1 - j], r, 50 + 24 * j)
    {
      SameBehind(q, end + 12, r, 50, 24 * j, 24);
      MetadataMoves(hops[k - 1 - j], q, end + 12 + 24 * j, r, 50 + 24 * j);
    }
    TailSlice(r, 50, 24 * k, 0);
    TailSlice(q, end + 12, 24 * k, 0);
  }
}
