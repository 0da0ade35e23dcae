/**
 `p4int.cc` as it runs: global counters, the per-flow map and the per-slot timestamps, all
 updated in place, packet by packet.  Each method is proved to compute what `Telemetry`
 says, so the stream theorems there hold of this code.
 */
module Collectors {
  import opened Bytes
  import opened Calls
  import opened Telemetry
  import opened Decoder
  import opened Exporters
  import opened RingBuffers

  class Collector {
    const hostValid: bool
    const smplRate: U32
    const tstmp: bool
    const exporter: IntExporter<Report>
    const prevTimestamps: array<U64>
    var flowMap: map<U64, FlowMeta>
    var pktCnt: U64
    var pktDrop: U64

    ghost predicate Valid()
      reads this, exporter, exporter.repr
    {
      && smplRate > 0
      && prevTimestamps.Length == MAX_NODES
      && exporter.Valid()
      && this as object !in exporter.repr && prevTimestamps as object !in exporter.repr
    }

    /** The program's start: no flow seen, every slot zero. */
    constructor (hostValid: bool, smplRate: U32, tstmp: bool, exporter: IntExporter<Report>)
      requires smplRate > 0 && exporter.Valid()
      ensures Valid() && Abs() == State(map[], seq(MAX_NODES, _ => 0)) && pktCnt == 0 && pktDrop == 0
    {
      this.hostValid, this.smplRate, this.tstmp, this.exporter := hostValid, smplRate, tstmp, exporter;
      flowMap, pktCnt, pktDrop := map[], 0, 0;
      prevTimestamps := new U64[MAX_NODES](_ => 0);
    }

    ghost function Abs(): State
      reads this, prevTimestamps
    {
      State(flowMap, prevTimestamps[..])
    }

    /** `get_int_header_data`: addresses, ports and the flow's figures. */
    method GetIntHeaderData(buff: seq<Byte>, mapKey: U64) returns (r: Report)
      requires Readable(buff)
      modifies this`flowMap
      ensures var s := ReadSample(buff).(mapKey := mapKey);
              var f := FlowAt(old(flowMap), mapKey);
              && flowMap == old(flowMap)[mapKey := FlowAfter(f, s)]
              && r == Report(s.srcIp, s.dstIp, s.srcPort, s.dstPort, 0, s.dstTs, FlowPart(f, s).protocol,
                             FlowPart(f, s).seqNum, 0, FlowPart(f, s).sinkJitter, FlowPart(f, s).reordering, [])
    {
      var dstTs := Ntoh64(Load64(buff, INFLUX_AT + 16));
      r := Report(buff[INFLUX_AT..INFLUX_AT + 4], buff[INFLUX_AT + 4..INFLUX_AT + 8],
                  Ntohs(Load16(buff, INFLUX_AT + 8)), Ntohs(Load16(buff, INFLUX_AT + 10)),
                  0, dstTs, 0, 0, 0, 0, 0, []);
      if mapKey !in flowMap {
        flowMap := flowMap[mapKey := FlowMeta(0, 0)];
      }
      var seqNo := Ntohl(Load32(buff, INFLUX_AT + 32));
      r := r.(seqNum := seqNo, sinkJitter := Sub64(dstTs, flowMap[mapKey].prevDstTs));
      if r.seqNum == 0 {
        r := r.(reordering := 0, seqNum := (flowMap[mapKey].seqNo + 1) % TWO64, protocol := PROTOCOL_OF_UDP);
      } else {
        r := r.(reordering := Signed64(Sub64(Sub64(r.seqNum, flowMap[mapKey].seqNo), 1)), protocol := PROTOCOL_OF_TCP);
      }
      flowMap := flowMap[mapKey := flowMap[mapKey].(prevDstTs := dstTs)];
      flowMap := flowMap[mapKey := flowMap[mapKey].(seqNo := r.seqNum)];
    }

    /** `get_int_node_data`: one entry per hop, carrying the previous hop's egress time along. */
    method GetIntNodeData(hdr: Report, buff: seq<Byte>, metaCnt: U8) returns (r: Report)
      requires Readable(buff) && metaCnt == MetaCnt(buff)
      requires hdr.dstTs == ReadSample(buff).dstTs && hdr.nodeMeta == []
      requires prevTimestamps.Length == MAX_NODES
      modifies prevTimestamps
      ensures var s := ReadSample(buff);
              && r == hdr.(origTs := s.first.ingress, delay := Sub64(s.dstTs, s.first.ingress),
                           nodeMeta := NodeMeta(s, old(prevTimestamps[..])))
              && prevTimestamps[..] == PrevAfter(s, old(prevTimestamps[..]))
    {
      hide Sub64, Signed64, ReadHop, Load64, Load32, Load16, Ntoh64, Ntohl, Ntohs;
      ghost var s, was := ReadSample(buff), prevTimestamps[..];
      var head := ReadHop(buff, 0);
      r := hdr.(origTs := head.ingress, delay := Sub64(hdr.dstTs, head.ingress));
      var tmpEgress := head.egress;
      var i := 0;
      while i < metaCnt
        invariant 0 <= i <= metaCnt
        invariant tmpEgress == if i == 0 then s.first.egress else s.hops[i - 1].egress
        invariant r == hdr.(origTs := s.first.ingress, delay := Sub64(s.dstTs, s.first.ingress),
                  nodeMeta := NodeMeta(s, was)[..i])
        invariant forall j :: 0 <= j < MAX_NODES ==> prevTimestamps[j] == if j < i then s.hops[j].ingress else was[j]
      {
        var hop := ReadHop(buff, i);
        var node := HopMeta(i, Sub64(hop.egress, hop.ingress), 0, 0, hop.egress);
        if i != 0 {
          node := node.(linkDelay := Signed64(Sub64(tmpEgress, hop.ingress)));
          tmpEgress := hop.egress;
        }
        node := node.(hopJitter := Sub64(hop.ingress, prevTimestamps[i]));
        prevTimestamps[i] := hop.ingress;
        assert NodeMeta(s, was)[..i + 1] == NodeMeta(s, was)[..i] + [HopEntry(s, was, i)];
        r := r.(nodeMeta := r.nodeMeta + [node]);
        i := i + 1;
      }
      var node := HopMeta(metaCnt, 0, Signed64(Sub64(tmpEgress, r.dstTs)), Sub64(r.dstTs, prevTimestamps[metaCnt]),
        r.dstTs);
      prevTimestamps[metaCnt] := r.dstTs;
      r := r.(nodeMeta := r.nodeMeta + [node]);
    }

    /**
     `report_to_influx`: a sampled report is offered to the exporter; a refusal is counted.
     `calls` is the call of `sendData` made, if any.
     */
    method ReportToInflux(r: Report) returns (ghost calls: seq<Call>)
      requires Valid()
      modifies this`pktDrop, exporter`rrIndex, exporter.repr
      ensures Valid()
      ensures LogReports(calls) == if hostValid && pktCnt % smplRate == 0 then [r] else []
      ensures |calls| <= 1 && (calls != [] ==> (calls[0].outcome == Dropped <==> old(exporter.AllFull())))
      ensures calls == [] || calls[0].outcome == Dropped ==> exporter.rrIndex == old(exporter.rrIndex)
      ensures pktDrop == (old(pktDrop) + Drops(calls)) % TWO64
      ensures exporter.Queues() == Delivered(old(exporter.Queues()), calls)
    {
      hide Delivered, Drops, LogReports, IntExporter.Queues, IntExporter.Full, IntExporter.AllFull, RingBuffer.Valid;
      calls := [];
      DeliveredNone(exporter.Queues());
      EmptyLog(smplRate, 0);
      if hostValid && pktCnt % smplRate == 0 {
        ghost var before := exporter.Queues();
        var failure := exporter.SendData(r);
        ghost var c := Call(r, if failure then Dropped else PushedTo(exporter.rrIndex));
        calls := [c];
        OneCall(c);
        DeliveredOne(before, c);
        if failure {
          pktDrop := (pktDrop + 1) % TWO64;
        }
      }
    }

    /** The first part of `process_packet`: the report, and the flow and slot state updated. */
    method MakeReport(buff: seq<Byte>) returns (r: Report)
      requires Valid() && Readable(buff)
      modifies this`flowMap, prevTimestamps
      ensures Valid() && unchanged(exporter, exporter.repr)
      ensures r == ReportIn(old(Abs()), ReadSample(buff), tstmp)
      ensures Abs() == StateAfter(old(Abs()), ReadSample(buff))
    {
      hide NodeMeta, PrevAfter, FlowPart, FlowAfter, ReadHop, RingBuffer.Valid;
      var mapKey := Load64(buff, INFLUX_AT);
      r := GetIntHeaderData(buff, mapKey);
      var metaCnt := MetaCnt(buff);
      r := GetIntNodeData(r, buff, metaCnt);
      if tstmp {
        r := r.(origTs := CutTo48Bits(r.origTs), dstTs := CutTo48Bits(r.dstTs));
      }
    }

    /** `process_packet` */
    method ProcessPacket(buff: seq<Byte>) returns (r: Report, ghost calls: seq<Call>)
      requires Valid() && Readable(buff)
      modifies this, prevTimestamps, exporter`rrIndex, exporter.repr
      ensures Valid() && pktCnt == old(pktCnt)
      ensures r == ReportIn(old(Abs()), ReadSample(buff), tstmp)
      ensures Abs() == StateAfter(old(Abs()), ReadSample(buff))
      ensures LogReports(calls) == if hostValid && pktCnt % smplRate == 0 then [r] else []
      ensures |calls| <= 1 && (calls != [] ==> (calls[0].outcome == Dropped <==> old(exporter.AllFull())))
      ensures pktDrop == (old(pktDrop) + Drops(calls)) % TWO64
      ensures exporter.Queues() == Delivered(old(exporter.Queues()), calls)
    {
      hide ReportIn, StateAfter, ReadSample, Readable, RingBuffer.Valid, LogReports, Drops, Delivered;
      r := MakeReport(buff);
      calls := ReportToInflux(r);
    }

    /**
     `loop_proccess`, over the packets received before the stop flag is raised.  `log` lists the
     calls of `sendData`: those for the sampled reports, in order.
     */
    method LoopProcess(packets: seq<seq<Byte>>) returns (reports: seq<Report>, ghost log: seq<Call>)
      requires Valid() && forall i :: 0 <= i < |packets| ==> Readable(packets[i])
      modifies this, prevTimestamps, exporter`rrIndex, exporter.repr
      ensures Valid()
      ensures pktCnt == (old(pktCnt) + |packets|) % TWO64
      ensures reports == Reports(old(Abs()), Samples(packets), tstmp)
      ensures Abs() == StateAfterAll(old(Abs()), Samples(packets))
      ensures LogReports(log) == if hostValid then SampledReports(reports, old(pktCnt), smplRate) else []
      ensures pktDrop == (old(pktDrop) + Drops(log)) % TWO64
      ensures exporter.Queues() == Delivered(old(exporter.Queues()), log)
    {
      hide ReadSample, ReportIn, StateAfter, Readable, Reports, StateAfterAll, SampleOk, IntExporter.Valid, Samples;
      hide SentTo, Drops, LogReports, SampledReports, Delivered, IntExporter.Queues, IntExporter.AllFull, IsSampled;
      hide Progress;
      reports, log := [], [];
      ghost var start, samples := Snapshot(Abs(), pktCnt, pktDrop, exporter.Queues()), Samples(packets);
      NoProgressYet(start, samples, hostValid, smplRate, tstmp);
      var i := 0;
      while i < |packets|
        invariant 0 <= i <= |packets| && |reports| == i
        invariant Valid()
        invariant Progress(start, Snapshot(Abs(), pktCnt, pktDrop, exporter.Queues()), samples, i, reports, log,
                           hostValid, smplRate, tstmp)
      {
        SampleAt(packets, i);
        ghost var before := Snapshot(Abs(), pktCnt, pktDrop, exporter.Queues());
        var r;
        ghost var calls;
        r, calls := ProcessPacket(packets[i]);
        pktCnt := (pktCnt + 1) % TWO64;
        ghost var after := Snapshot(Abs(), pktCnt, pktDrop, exporter.Queues());
        ProgressStep(start, before, after, samples, i, reports, r, log, calls, hostValid, smplRate, tstmp);
        reports := reports + [r];
        log := log + calls;
        i := i + 1;
      }
      ProgressDone(start, Snapshot(Abs(), pktCnt, pktDrop, exporter.Queues()), samples, reports, log,
                   hostValid, smplRate, tstmp);
    }
  }

  /** What a run of the loop changes, as values. */
  datatype Snapshot = Snapshot(st: State, cnt: U64, drop: U64, queues: seq<seq<Report>>)

  /** `i` packets into a stream. */
  ghost predicate Progress(start: Snapshot, now: Snapshot, samples: seq<Sample>, i: nat, reports: seq<Report>,
                           log: seq<Call>, hostValid: bool, smplRate: U32, tstmp: bool)
    requires smplRate > 0
  {
    && StateOk(start.st) && StateOk(now.st) && StreamOk(samples) && i == |reports| <= |samples|
    && now.cnt == (start.cnt + i) % TWO64
    && Reports(start.st, samples, tstmp) == reports + Reports(now.st, samples[i..], tstmp)
    && StateAfterAll(start.st, samples) == StateAfterAll(now.st, samples[i..])
    && LogReports(log) == (if hostValid then SampledReports(reports, start.cnt, smplRate) else [])
    && now.drop == (start.drop + Drops(log)) % TWO64
    && now.queues == Delivered(start.queues, log)
  }

  lemma NoProgressYet(start: Snapshot, samples: seq<Sample>, hostValid: bool, smplRate: U32, tstmp: bool)
    requires smplRate > 0 && StateOk(start.st) && StreamOk(samples)
    ensures Progress(start, start, samples, 0, [], [], hostValid, smplRate, tstmp)
  {
    hide Reports, StateAfterAll, SampledReports, LogReports, Drops, Delivered, SampleOk;
    EmptyLog(smplRate, start.cnt);
    DeliveredNone(start.queues);
    assert samples[0..] == samples;
  }

  lemma {:induction false} ProgressStep(start: Snapshot, before: Snapshot, after: Snapshot, samples: seq<Sample>,
                                        i: nat, reports: seq<Report>, r: Report, log: seq<Call>, calls: seq<Call>,
                                        hostValid: bool, smplRate: U32, tstmp: bool)
    requires smplRate > 0 && Progress(start, before, samples, i, reports, log, hostValid, smplRate, tstmp)
    requires i < |samples| && r == ReportIn(before.st, samples[i], tstmp)
    requires after.st == StateAfter(before.st, samples[i]) && after.cnt == (before.cnt + 1) % TWO64
    requires |calls| <= 1 && LogReports(calls) == if hostValid && before.cnt % smplRate == 0 then [r] else []
    requires after.drop == (before.drop + Drops(calls)) % TWO64
    requires after.queues == Delivered(before.queues, calls)
    ensures Progress(start, after, samples, i + 1, reports + [r], log + calls, hostValid, smplRate, tstmp)
  {
    hide Reports, StateAfterAll, SampledReports, LogReports, Drops, Delivered, SampleOk, ReportIn, StateAfter;
    hide IsSampled;
    StreamStep(before.st, samples, i, tstmp);
    SampledSnoc(reports, r, start.cnt, smplRate);
    MoreCalls(start.queues, log, calls);
    CountersStep(start.cnt, i, smplRate);
    AddWrapped(start.drop + Drops(log), Drops(calls));
  }

  lemma ProgressDone(start: Snapshot, now: Snapshot, samples: seq<Sample>, reports: seq<Report>, log: seq<Call>,
                     hostValid: bool, smplRate: U32, tstmp: bool)
    requires smplRate > 0 && Progress(start, now, samples, |samples|, reports, log, hostValid, smplRate, tstmp)
    ensures now.cnt == (start.cnt + |samples|) % TWO64 && StateOk(start.st) && StreamOk(samples)
    ensures Reports(start.st, samples, tstmp) == reports && StateAfterAll(start.st, samples) == now.st
    ensures LogReports(log) == if hostValid then SampledReports(reports, start.cnt, smplRate) else []
    ensures now.drop == (start.drop + Drops(log)) % TWO64 && now.queues == Delivered(start.queues, log)
  {
    hide Reports, StateAfterAll, SampledReports, LogReports, Drops, Delivered, SampleOk;
    NoMoreSamples(now.st, samples[|samples|..], tstmp);
  }

  lemma CountersStep(first: U64, i: nat, smplRate: U32)
    requires smplRate > 0
    ensures ((first + i) % TWO64 + 1) % TWO64 == (first + (i + 1)) % TWO64
    ensures IsSampled(first + i, smplRate) <==> (first + i) % TWO64 % smplRate == 0
  {
    AddWrapped(first + i, 1);
  }

  lemma AddWrapped(x: nat, n: nat)
    ensures (x % TWO64 + n) % TWO64 == (x + n) % TWO64
  {}

  lemma OneCall(c: Call)
    ensures LogReports([c]) == [c.report] && Drops([c]) == if c.outcome == Dropped then 1 else 0
  {
    assert [c][..0] == [];
  }

  /** A log extended by at most one call. */
  lemma {:induction false} MoreCalls(queues: seq<seq<Report>>, log: seq<Call>, calls: seq<Call>)
    requires |calls| <= 1
    ensures LogReports(log + calls) == LogReports(log) + LogReports(calls)
    ensures Drops(log + calls) == Drops(log) + Drops(calls)
    ensures Delivered(Delivered(queues, log), calls) == Delivered(queues, log + calls)
  {
    if calls == [] {
      assert log + calls == log;
      DeliveredNone(Delivered(queues, log));
    } else {
      assert calls == [calls[0]];
      LogSnoc(log, calls[0], 0);
      OneCall(calls[0]);
      DeliveredMore(queues, log, calls[0]);
    }
  }

  lemma EmptyLog(smplRate: U32, first: nat)
    requires smplRate > 0
    ensures LogReports([]) == [] && Drops([]) == 0 && SampledReports([], first, smplRate) == []
    ensures forall k :: SentTo([], k) == []
  {}

  lemma NoMoreSamples(st: State, samples: seq<Sample>, tstmp: bool)
    requires StateOk(st) && samples == []
    ensures Reports(st, samples, tstmp) == [] && StateAfterAll(st, samples) == st
  {}

  /** A stream processed from its `i`-th packet on. */
  lemma StreamStep(st: State, samples: seq<Sample>, i: nat, tstmp: bool)
    requires StateOk(st) && StreamOk(samples) && i < |samples|
    ensures var st' := StateAfter(st, samples[i]);
            && Reports(st, samples[i..], tstmp)
               == [ReportIn(st, samples[i], tstmp)] + Reports(st', samples[i + 1..], tstmp)
            && StateAfterAll(st, samples[i..]) == StateAfterAll(st', samples[i + 1..])
  {
    hide SampleOk, ReportIn, StateAfter;
    assert samples[i..][1..] == samples[i + 1..];
  }
}
