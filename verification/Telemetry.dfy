/**
 The arithmetic `p4int.cc` does on one decoded packet, on its state across packets, and on
 whole streams.  All of it is 64-bit unsigned arithmetic that wraps.
 */
module Telemetry {
  import opened Bytes

  const MAX_NODES := 10
  const PROTOCOL_OF_TCP: U8 := 6
  const PROTOCOL_OF_UDP: U8 := 17

  /** `a - b` as the machine computes it. */
  function Sub64(a: U64, b: U64): U64 {
    if a >= b then a - b else a - b + TWO64
  }

  /** The same bits read as an `int64_t`. */
  function Signed64(x: U64): int {
    if x < TWO64 / 2 then x else x - TWO64
  }

  /** Equal modulo 2^64. */
  ghost predicate Cong64(x: int, y: int) {
    (x - y) % TWO64 == 0
  }

  // ---------------------------------------------------------------------------
  // One packet
  // ---------------------------------------------------------------------------

  datatype HopTimes = HopTimes(ingress: U64, egress: U64)

  /**
   What the decoder reads from a packet.  `first` is the first metadata record, which is
   read even when the header announces none.
   */
  datatype Sample = Sample(mapKey: U64, srcIp: seq<Byte>, dstIp: seq<Byte>, srcPort: U16, dstPort: U16,
                           dstTs: U64, seqNo: U32, first: HopTimes, hops: seq<HopTimes>)

  predicate SampleOk(s: Sample) {
    |s.hops| < MAX_NODES && (s.hops != [] ==> s.first == s.hops[0])
  }

  datatype FlowMeta = FlowMeta(seqNo: U64, prevDstTs: U64)

  datatype HopMeta = HopMeta(hopIndex: U8, hopDelay: U64, linkDelay: int, hopJitter: U64, hopTimestamp: U64)

  datatype Report = Report(srcIp: seq<Byte>, dstIp: seq<Byte>, srcPort: U16, dstPort: U16,
                           origTs: U64, dstTs: U64, protocol: U8, seqNum: U64, delay: U64,
                           sinkJitter: U64, reordering: int, nodeMeta: seq<HopMeta>)

  /** The part of a report that depends on the flow's history. */
  datatype FlowFields = FlowFields(seqNum: U64, reordering: int, sinkJitter: U64, protocol: U8)

  function FlowPart(f: FlowMeta, s: Sample): FlowFields {
    var jitter := Sub64(s.dstTs, f.prevDstTs);
    if s.seqNo == 0 then
      FlowFields((f.seqNo + 1) % TWO64, 0, jitter, PROTOCOL_OF_UDP)
    else
      FlowFields(s.seqNo, Signed64(Sub64(Sub64(s.seqNo, f.seqNo), 1)), jitter, PROTOCOL_OF_TCP)
  }

  function FlowAfter(f: FlowMeta, s: Sample): FlowMeta {
    FlowMeta(FlowPart(f, s).seqNum, s.dstTs)
  }

  /** `std::map`'s `operator[]`: an absent flow starts at zero. */
  function FlowAt(flows: map<U64, FlowMeta>, key: U64): FlowMeta {
    if key in flows then flows[key] else FlowMeta(0, 0)
  }

  /** Hop `i`, newest first, compared with the hop before it in the stack. */
  function HopEntry(s: Sample, prev: seq<U64>, i: nat): HopMeta
    requires SampleOk(s) && |prev| == MAX_NODES && i < |s.hops|
  {
    var hop := s.hops[i];
    HopMeta(i, Sub64(hop.egress, hop.ingress),
            if i == 0 then 0 else Signed64(Sub64(s.hops[i - 1].egress, hop.ingress)),
            Sub64(hop.ingress, prev[i]), hop.egress)
  }

  /** The egress time left over for the sink's entry. */
  function LastEgress(s: Sample): U64 {
    if s.hops == [] then s.first.egress else s.hops[|s.hops| - 1].egress
  }

  function SinkEntry(s: Sample, prev: seq<U64>): HopMeta
    requires SampleOk(s) && |prev| == MAX_NODES
  {
    HopMeta(|s.hops|, 0, Signed64(Sub64(LastEgress(s), s.dstTs)), Sub64(s.dstTs, prev[|s.hops|]), s.dstTs)
  }

  /** One entry for each hop and one for the sink. */
  function NodeMeta(s: Sample, prev: seq<U64>): (nodes: seq<HopMeta>)
    requires SampleOk(s) && |prev| == MAX_NODES
    ensures |nodes| == |s.hops| + 1
  {
    seq(|s.hops|, i requires 0 <= i < |s.hops| => HopEntry(s, prev, i)) + [SinkEntry(s, prev)]
  }

  function PrevAfter(s: Sample, prev: seq<U64>): (prev': seq<U64>)
    requires SampleOk(s) && |prev| == MAX_NODES
    ensures |prev'| == MAX_NODES
  {
    seq(MAX_NODES, i requires 0 <= i < MAX_NODES =>
      if i < |s.hops| then s.hops[i].ingress else if i == |s.hops| then s.dstTs else prev[i])
  }

  function CutTo48Bits(ts: U64): U64 {
    ts % TWO48
  }

  /** The report for a packet, in flow state `f` and slot state `prev`. */
  function ReportOf(s: Sample, f: FlowMeta, prev: seq<U64>, tstmp: bool): Report
    requires SampleOk(s) && |prev| == MAX_NODES
  {
    var part := FlowPart(f, s);
    Report(s.srcIp, s.dstIp, s.srcPort, s.dstPort,
           if tstmp then CutTo48Bits(s.first.ingress) else s.first.ingress,
           if tstmp then CutTo48Bits(s.dstTs) else s.dstTs,
           part.protocol, part.seqNum, Sub64(s.dstTs, s.first.ingress), part.sinkJitter, part.reordering,
           NodeMeta(s, prev))
  }

  // ---------------------------------------------------------------------------
  // Delay telescopes over the hops
  // ---------------------------------------------------------------------------

  function SumHopDelay(nodes: seq<HopMeta>): int {
    if nodes == [] then 0 else SumHopDelay(nodes[..|nodes| - 1]) + nodes[|nodes| - 1].hopDelay
  }

  function SumLinkDelay(nodes: seq<HopMeta>): int {
    if nodes == [] then 0 else SumLinkDelay(nodes[..|nodes| - 1]) + nodes[|nodes| - 1].linkDelay
  }

  lemma {:induction false} AddCong(x: int, y: int, d: int, e: int)
    requires Cong64(x, y) && Cong64(d, e)
    ensures Cong64(x + d, y + e)
  {
    var p, q := (x - y) / TWO64, (d - e) / TWO64;
    assert (x + d) - (y + e) == TWO64 * (p + q);
  }

  lemma MachineSub(a: U64, b: U64)
    ensures Cong64(Sub64(a, b), a - b) && Cong64(Signed64(Sub64(a, b)), a - b)
    ensures Cong64(-Signed64(Sub64(a, b)), b - a)
  {}

  lemma {:induction false} DelayOverHops(s: Sample, prev: seq<U64>, k: nat)
    requires SampleOk(s) && |prev| == MAX_NODES && 1 <= k <= |s.hops|
    ensures var nodes := NodeMeta(s, prev)[..k];
            Cong64(SumHopDelay(nodes) - SumLinkDelay(nodes), s.hops[k - 1].egress - s.hops[0].ingress)
    decreases k
  {
    hide Sub64, Signed64;
    var all := NodeMeta(s, prev);
    var hop := s.hops[k - 1];
    assert all[..k][..k - 1] == all[..k - 1];
    assert all[..k][k - 1] == HopEntry(s, prev, k - 1);
    MachineSub(hop.egress, hop.ingress);
    if k == 1 {
      assert SumHopDelay(all[..0]) == 0 && SumLinkDelay(all[..0]) == 0;
    } else {
      DelayOverHops(s, prev, k - 1);
      var last := s.hops[k - 2];
      MachineSub(last.egress, hop.ingress);
      var so := SumHopDelay(all[..k - 1]) - SumLinkDelay(all[..k - 1]);
      AddCong(so, last.egress - s.hops[0].ingress, Sub64(hop.egress, hop.ingress), hop.egress - hop.ingress);
      AddCong(so + Sub64(hop.egress, hop.ingress), last.egress - s.hops[0].ingress + (hop.egress - hop.ingress),
              -Signed64(Sub64(last.egress, hop.ingress)), hop.ingress - last.egress);
    }
  }

  /**
   For every stack of at least one hop, the reported delay is what the per-hop numbers add up
   to: all hop delays, minus all link delays (whose sign is reversed), the sink's entry
   included.  Without any hop it is only when the record read anyway happens to agree.
   */
  lemma {:induction false} DelayTelescopes(s: Sample, f: FlowMeta, prev: seq<U64>, tstmp: bool)
    requires SampleOk(s) && |prev| == MAX_NODES
    ensures var r := ReportOf(s, f, prev, tstmp);
            Cong64(SumHopDelay(r.nodeMeta) - SumLinkDelay(r.nodeMeta), r.delay)
            <==> s.hops != [] || s.first.ingress == s.first.egress
  {
    hide Sub64, Signed64, Cong64, FlowPart, PrevAfter, NodeMeta, SumHopDelay, SumLinkDelay;
    var k, all := |s.hops|, NodeMeta(s, prev);
    SinkEntryLast(s, prev);
    var so := SumHopDelay(all[..k]) - SumLinkDelay(all[..k]);
    var sum := SumHopDelay(all) - SumLinkDelay(all);
    var from := if k == 0 then s.first.egress else s.first.ingress;
    if k > 0 {
      DelayOverHops(s, prev, k);
    } else {
      CongRefl(so, LastEgress(s) - from);
    }
    MachineSub(LastEgress(s), s.dstTs);
    MachineSub(s.dstTs, s.first.ingress);
    AddCong(so, LastEgress(s) - from, -Signed64(Sub64(LastEgress(s), s.dstTs)), s.dstTs - LastEgress(s));
    assert Cong64(sum, s.dstTs - from);
    Compare(sum, Sub64(s.dstTs, s.first.ingress), s.dstTs - from, s.dstTs - s.first.ingress);
    SameTime(s.dstTs, from, s.first.ingress);
  }

  /** The sink's entry closes both sums. */
  lemma SinkEntryLast(s: Sample, prev: seq<U64>)
    requires SampleOk(s) && |prev| == MAX_NODES
    ensures var k, all := |s.hops|, NodeMeta(s, prev);
            && SumHopDelay(all) == SumHopDelay(all[..k])
            && SumLinkDelay(all) == SumLinkDelay(all[..k]) + Signed64(Sub64(LastEgress(s), s.dstTs))
            && (k == 0 ==> SumHopDelay(all[..k]) == SumLinkDelay(all[..k]) == 0)
  {
    hide Sub64, Signed64, HopEntry, LastEgress;
    var k, all := |s.hops|, NodeMeta(s, prev);
    assert all[..|all| - 1] == all[..k];
    assert all[|all| - 1] == SinkEntry(s, prev);
  }

  lemma CongRefl(x: int, y: int)
    requires x == y
    ensures Cong64(x, y)
  {}

  lemma SameTime(arrival: U64, a: U64, b: U64)
    ensures Cong64(arrival - a, arrival - b) <==> a == b
  {}

  lemma {:induction false} Compare(x: int, y: int, x': int, y': int)
    requires Cong64(x, x') && Cong64(y, y')
    ensures Cong64(x, y) <==> Cong64(x', y')
  {
    AddCong(x, x', -y, -y');
    var q := ((x - y) - (x' - y')) / TWO64;
    assert x - y == (x' - y') + TWO64 * q;
  }

  lemma {:induction false} SameResidue(x: int, y: int, z: int)
    requires Cong64(x, z) && Cong64(y, z)
    ensures Cong64(x, y)
  {
    AddCong(x, z, -y, -z);
  }

  // ---------------------------------------------------------------------------
  // Streams
  // ---------------------------------------------------------------------------

  datatype State = State(flows: map<U64, FlowMeta>, prev: seq<U64>)

  predicate StateOk(st: State) {
    |st.prev| == MAX_NODES
  }

  predicate StreamOk(samples: seq<Sample>) {
    forall i :: 0 <= i < |samples| ==> SampleOk(samples[i])
  }

  function StateAfter(st: State, s: Sample): (st': State)
    requires StateOk(st) && SampleOk(s)
    ensures StateOk(st')
  {
    State(st.flows[s.mapKey := FlowAfter(FlowAt(st.flows, s.mapKey), s)], PrevAfter(s, st.prev))
  }

  function ReportIn(st: State, s: Sample, tstmp: bool): Report
    requires StateOk(st) && SampleOk(s)
  {
    ReportOf(s, FlowAt(st.flows, s.mapKey), st.prev, tstmp)
  }

  function StateAfterAll(st: State, samples: seq<Sample>): (st': State)
    requires StateOk(st) && StreamOk(samples)
    ensures StateOk(st')
    decreases |samples|
  {
    if samples == [] then st else StateAfterAll(StateAfter(st, samples[0]), samples[1..])
  }

  function Reports(st: State, samples: seq<Sample>, tstmp: bool): (rs: seq<Report>)
    requires StateOk(st) && StreamOk(samples)
    ensures |rs| == |samples|
    decreases |samples|
  {
    if samples == [] then []
    else [ReportIn(st, samples[0], tstmp)] + Reports(StateAfter(st, samples[0]), samples[1..], tstmp)
  }

  // Flows do not interfere: a flow's fields are those of its own subsequence.

  function OfFlow(samples: seq<Sample>, key: U64): seq<Sample> {
    if samples == [] then []
    else (if samples[0].mapKey == key then [samples[0]] else []) + OfFlow(samples[1..], key)
  }

  function FieldsOf(r: Report): FlowFields {
    FlowFields(r.seqNum, r.reordering, r.sinkJitter, r.protocol)
  }

  /** The flow fields of the reports on one flow's packets, in order. */
  function ReportedFields(samples: seq<Sample>, reports: seq<Report>, key: U64): seq<FlowFields>
    requires |samples| == |reports|
  {
    if samples == [] then []
    else
      (if samples[0].mapKey == key then [FieldsOf(reports[0])] else [])
      + ReportedFields(samples[1..], reports[1..], key)
  }

  /** A single flow processed on its own. */
  function FlowAlone(f: FlowMeta, samples: seq<Sample>): seq<FlowFields>
    decreases |samples|
  {
    if samples == [] then [] else [FlowPart(f, samples[0])] + FlowAlone(FlowAfter(f, samples[0]), samples[1..])
  }

  function FlowAfterAll(f: FlowMeta, samples: seq<Sample>): FlowMeta
    decreases |samples|
  {
    if samples == [] then f else FlowAfterAll(FlowAfter(f, samples[0]), samples[1..])
  }

  lemma {:induction false} FlowsDoNotInterfere(st: State, samples: seq<Sample>, tstmp: bool, key: U64)
    requires StateOk(st) && StreamOk(samples)
    ensures ReportedFields(samples, Reports(st, samples, tstmp), key)
            == FlowAlone(FlowAt(st.flows, key), OfFlow(samples, key))
    ensures FlowAt(StateAfterAll(st, samples).flows, key) == FlowAfterAll(FlowAt(st.flows, key), OfFlow(samples, key))
    decreases |samples|
  {
    if samples != [] {
      hide FlowPart, NodeMeta, PrevAfter, SampleOk;
      var s, st' := samples[0], StateAfter(st, samples[0]);
      var rs := Reports(st, samples, tstmp);
      FlowsDoNotInterfere(st', samples[1..], tstmp, key);
      assert rs[1..] == Reports(st', samples[1..], tstmp);
      if s.mapKey == key {
        assert OfFlow(samples, key)[1..] == OfFlow(samples[1..], key);
      } else {
        assert FlowAt(st'.flows, key) == FlowAt(st.flows, key);
        assert OfFlow(samples, key) == OfFlow(samples[1..], key);
      }
    }
  }

  lemma {:induction false} OfFlowTwice(samples: seq<Sample>, key: U64)
    requires StreamOk(samples)
    ensures StreamOk(OfFlow(samples, key)) && OfFlow(OfFlow(samples, key), key) == OfFlow(samples, key)
    decreases |samples|
  {
    hide SampleOk;
    if samples != [] {
      OfFlowTwice(samples[1..], key);
      var own := OfFlow(samples, key);
      if samples[0].mapKey == key {
        assert own[1..] == OfFlow(samples[1..], key);
      } else {
        assert own == OfFlow(samples[1..], key);
      }
    }
  }

  /** In terms of the program alone: drop all other flows' packets, and this flow's reports read the same. */
  lemma {:induction false} OtherFlowsDoNotMatter(st: State, samples: seq<Sample>, tstmp: bool, key: U64)
    requires StateOk(st) && StreamOk(samples)
    ensures var own := OfFlow(samples, key);
            && StreamOk(own)
            && ReportedFields(samples, Reports(st, samples, tstmp), key)
               == ReportedFields(own, Reports(st, own, tstmp), key)
            && FlowAt(StateAfterAll(st, samples).flows, key) == FlowAt(StateAfterAll(st, own).flows, key)
  {
    hide Reports, StateAfterAll, FlowAlone, FlowAfterAll, OfFlow, ReportedFields;
    OfFlowTwice(samples, key);
    FlowsDoNotInterfere(st, samples, tstmp, key);
    FlowsDoNotInterfere(st, OfFlow(samples, key), tstmp, key);
  }

  // Reordering telescopes over a flow, through both branches.

  function SumReordering(fields: seq<FlowFields>): int {
    if fields == [] then 0 else fields[0].reordering + SumReordering(fields[1..])
  }

  lemma {:induction false} ReorderingStep(f: FlowMeta, s: Sample)
    ensures Cong64(FlowPart(f, s).reordering, FlowAfter(f, s).seqNo - f.seqNo - 1)
  {
    if s.seqNo != 0 {
      var d := Sub64(s.seqNo, f.seqNo);
      MachineSub(s.seqNo, f.seqNo);
      MachineSub(d, 1);
      hide Sub64, Signed64;
      AddCong(d, s.seqNo - f.seqNo, -1, -1);
      SameResidue(Signed64(Sub64(d, 1)), Signed64(Sub64(d, 1)), d - 1);
      var x := Signed64(Sub64(d, 1));
      assert Cong64(x, d - 1) && Cong64(d - 1, s.seqNo - f.seqNo - 1);
      AddCong(x, d - 1, d - 1, s.seqNo - f.seqNo - 1);
      assert x - (s.seqNo - f.seqNo - 1) == (x + (d - 1)) - ((d - 1) + (s.seqNo - f.seqNo - 1));
    }
  }

  lemma {:induction false} ReorderingTelescopes(f: FlowMeta, samples: seq<Sample>)
    ensures Cong64(SumReordering(FlowAlone(f, samples)), FlowAfterAll(f, samples).seqNo - f.seqNo - |samples|)
    decreases |samples|
  {
    if samples != [] {
      var f' := FlowAfter(f, samples[0]);
      ReorderingStep(f, samples[0]);
      ReorderingTelescopes(f', samples[1..]);
      hide FlowPart, FlowAfter;
      var fields := FlowAlone(f, samples);
      assert fields[1..] == FlowAlone(f', samples[1..]);
      AddCong(FlowPart(f, samples[0]).reordering, f'.seqNo - f.seqNo - 1,
              SumReordering(fields[1..]), FlowAfterAll(f', samples[1..]).seqNo - f'.seqNo - |samples[1..]|);
    }
  }

  /** Hence, in any interleaving of flows, the reordering reported for one flow adds up. */
  lemma {:induction false} ReorderingTelescopesInStream(st: State, samples: seq<Sample>, tstmp: bool, key: U64)
    requires StateOk(st) && StreamOk(samples)
    ensures Cong64(SumReordering(ReportedFields(samples, Reports(st, samples, tstmp), key)),
                   FlowAt(StateAfterAll(st, samples).flows, key).seqNo
                   - FlowAt(st.flows, key).seqNo - |OfFlow(samples, key)|)
  {
    FlowsDoNotInterfere(st, samples, tstmp, key);
    ReorderingTelescopes(FlowAt(st.flows, key), OfFlow(samples, key));
  }

  /** What a flow remembers: its last arrival and, if that was TCP, its sequence number. */
  lemma {:induction false} FlowRemembersLast(f: FlowMeta, samples: seq<Sample>)
    requires samples != []
    ensures var last, f' := samples[|samples| - 1], FlowAfterAll(f, samples);
            f'.prevDstTs == last.dstTs && (last.seqNo != 0 ==> f'.seqNo == last.seqNo)
    decreases |samples|
  {
    if |samples| > 1 {
      FlowRemembersLast(FlowAfter(f, samples[0]), samples[1..]);
    }
  }

  // Sink jitter telescopes over a flow.

  function SumSinkJitter(fields: seq<FlowFields>): int {
    if fields == [] then 0 else fields[0].sinkJitter + SumSinkJitter(fields[1..])
  }

  /** The summed sink jitter of a flow is the time from its previous arrival to its last. */
  lemma {:induction false} SinkJitterTelescopes(f: FlowMeta, samples: seq<Sample>)
    requires samples != []
    ensures Cong64(SumSinkJitter(FlowAlone(f, samples)), samples[|samples| - 1].dstTs - f.prevDstTs)
    decreases |samples|
  {
    var f' := FlowAfter(f, samples[0]);
    var fields := FlowAlone(f, samples);
    assert fields[1..] == FlowAlone(f', samples[1..]);
    MachineSub(samples[0].dstTs, f.prevDstTs);
    if |samples| > 1 {
      SinkJitterTelescopes(f', samples[1..]);
      hide Sub64;
      AddCong(fields[0].sinkJitter, samples[0].dstTs - f.prevDstTs,
              SumSinkJitter(fields[1..]), samples[|samples| - 1].dstTs - f'.prevDstTs);
    }
  }

  /** A flow without sequence numbers of its own is numbered one by one, and never reported out of order. */
  lemma {:induction false} UdpFlowIsNumbered(f: FlowMeta, samples: seq<Sample>, i: nat)
    requires i < |samples| && f.seqNo + |samples| < TWO64
    requires forall j :: 0 <= j < |samples| ==> samples[j].seqNo == 0
    ensures |FlowAlone(f, samples)| == |samples|
    ensures var field := FlowAlone(f, samples)[i];
            field.seqNum == f.seqNo + 1 + i && field.reordering == 0 && field.protocol == PROTOCOL_OF_UDP
    decreases |samples|
  {
    var f' := FlowAfter(f, samples[0]);
    assert FlowAlone(f, samples)[1..] == FlowAlone(f', samples[1..]);
    if |samples| > 1 {
      UdpFlowIsNumbered(f', samples[1..], if i > 0 then i - 1 else 0);
    }
  }

  // Jitter telescopes over a slot, although path lengths vary.

  /** The summed jitter a run reports for slot `j`: a packet reports one if it reaches the slot. */
  function SumJitter(reports: seq<Report>, j: nat): int {
    if reports == [] then 0
    else (if j < |reports[0].nodeMeta| then reports[0].nodeMeta[j].hopJitter else 0) + SumJitter(reports[1..], j)
  }

  function SlotValue(st: State, j: nat): int
    requires StateOk(st) && j < MAX_NODES
  {
    st.prev[j]
  }

  lemma {:induction false} JitterStep(st: State, s: Sample, tstmp: bool, j: nat)
    requires StateOk(st) && SampleOk(s) && j < MAX_NODES
    ensures var nodes := ReportIn(st, s, tstmp).nodeMeta;
            Cong64(if j < |nodes| then nodes[j].hopJitter else 0, SlotValue(StateAfter(st, s), j) - SlotValue(st, j))
  {
    MachineSub(StateAfter(st, s).prev[j], st.prev[j]);
  }

  lemma {:induction false} JitterTelescopes(st: State, samples: seq<Sample>, tstmp: bool, j: nat)
    requires StateOk(st) && StreamOk(samples) && j < MAX_NODES
    ensures Cong64(SumJitter(Reports(st, samples, tstmp), j),
            SlotValue(StateAfterAll(st, samples), j) - SlotValue(st, j))
    decreases |samples|
  {
    hide ReportIn, StateAfter, SampleOk;
    if samples != [] {
      var st' := StateAfter(st, samples[0]);
      JitterStep(st, samples[0], tstmp, j);
      JitterTelescopes(st', samples[1..], tstmp, j);
      var rs := Reports(st, samples, tstmp);
      assert rs[1..] == Reports(st', samples[1..], tstmp);
      var nodes := rs[0].nodeMeta;
      AddCong(if j < |nodes| then nodes[j].hopJitter else 0, SlotValue(st', j) - SlotValue(st, j),
              SumJitter(rs[1..], j), SlotValue(StateAfterAll(st', samples[1..]), j) - SlotValue(st', j));
    }
  }

  /**
   The time a slot should hold: that of the last packet to reach it, which is the hop's
   ingress time or, one past the hops, the arrival.
   */
  function LastTime(samples: seq<Sample>, j: nat, before: U64): U64 {
    if samples == [] then before
    else var last := samples[|samples| - 1];
      if j < |last.hops| then last.hops[j].ingress
      else if j == |last.hops| then last.dstTs
      else LastTime(samples[..|samples| - 1], j, before)
  }

  lemma {:induction false} LastTimeAfterFirst(samples: seq<Sample>, j: nat, before: U64)
    requires samples != []
    ensures LastTime(samples, j, before) == LastTime(samples[1..], j, LastTime(samples[..1], j, before))
    decreases |samples|
  {
    if |samples| > 1 {
      var n := |samples| - 1;
      assert samples[..n][..1] == samples[..1] && samples[..n][1..] == samples[1..][..n - 1];
      LastTimeAfterFirst(samples[..n], j, before);
    }
  }

  /** And does hold, so the jitter summed over a run spans from one packet's time to another's. */
  lemma {:induction false} JitterSpansTimes(st: State, samples: seq<Sample>, tstmp: bool, j: nat)
    requires StateOk(st) && StreamOk(samples) && j < MAX_NODES
    ensures Cong64(SumJitter(Reports(st, samples, tstmp), j), LastTime(samples, j, SlotValue(st, j)) - SlotValue(st, j))
  {
    JitterTelescopes(st, samples, tstmp, j);
    SlotHoldsLastTime(st, samples, j);
  }

  lemma {:induction false} SlotHoldsLastTime(st: State, samples: seq<Sample>, j: nat)
    requires StateOk(st) && StreamOk(samples) && j < MAX_NODES
    ensures SlotValue(StateAfterAll(st, samples), j) == LastTime(samples, j, SlotValue(st, j))
    decreases |samples|
  {
    hide SampleOk;
    if samples != [] {
      var st' := StateAfter(st, samples[0]);
      SlotHoldsLastTime(st', samples[1..], j);
      LastTimeAfterFirst(samples, j, SlotValue(st, j));
      OneTime(st, samples[0], j);
      assert samples[..1] == [samples[0]];
    }
  }

  lemma OneTime(st: State, s: Sample, j: nat)
    requires StateOk(st) && SampleOk(s) && j < MAX_NODES
    ensures SlotValue(StateAfter(st, s), j) == LastTime([s], j, SlotValue(st, j))
  {
    assert [s][..0] == [];
  }
}
