/**
 `add_report`: the database records a report is written as.  The text of a record is left out;
 which records there are, and which figures each of them shows, is not.
 */
module Records {
  import opened Bytes
  import opened Options
  import opened Telemetry
  import opened Senders

  /** The part every record of a report begins with. */
  datatype Tags = Tags(srcIp: seq<Byte>, dstIp: seq<Byte>, srcPort: U16, dstPort: U16, protocol: U8)

  /** A record, with the figures it shows as the numbers they are printed as. */
  datatype Record =
    | FlowRecord(tags: Tags, origTs: U64, dstTs: U64, seqNum: U64, delay: U64, sinkJitter: U64, reordering: int)
    | HopRecord(tags: Tags, index: U8, hopDelay: Option<U64>, linkDelay: Option<int>, jitter: int, time: U64)

  function TagsOf(r: Report): Tags {
    Tags(r.srcIp, r.dstIp, r.srcPort, r.dstPort, r.protocol)
  }

  /** The record of node entry `i`: the first shows no link delay, and its jitter unsigned. */
  function HopRecordOf(r: Report, i: nat): Record
    requires i < |r.nodeMeta|
  {
    var node := r.nodeMeta[i];
    if i == 0 then HopRecord(TagsOf(r), node.hopIndex, Some(node.hopDelay), None, node.hopJitter, node.hopTimestamp)
    else HopRecord(TagsOf(r), node.hopIndex, if node.hopDelay != 0 then Some(node.hopDelay) else None,
                   Some(node.linkDelay), Signed64(node.hopJitter), node.hopTimestamp)
  }

  function RecordsOf(r: Report): seq<Record> {
    [FlowRecord(TagsOf(r), r.origTs, r.dstTs, r.seqNum, r.delay, r.sinkJitter, r.reordering)]
    + seq(|r.nodeMeta|, i requires 0 <= i < |r.nodeMeta| => HopRecordOf(r, i))
  }

  /** The records of a batch, report after report. */
  function BatchRecords(reports: seq<Report>): seq<Record> {
    if reports == [] then [] else BatchRecords(reports[..|reports| - 1]) + RecordsOf(reports[|reports| - 1])
  }

  /** `add_report`: appends a report's records to the batch and returns how many they are. */
  method AddReport(r: Report, data: seq<Record>) returns (it: nat, data': seq<Record>)
    ensures data' == data + RecordsOf(r)
    ensures it == Lines(r)
  {
    var tmp := Tags(r.srcIp, r.dstIp, r.srcPort, r.dstPort, r.protocol);
    data' := data + [FlowRecord(tmp, r.origTs, r.dstTs, r.seqNum, r.delay, r.sinkJitter, r.reordering)];
    it := 1;
    var first := true;
    for i := 0 to |r.nodeMeta|
      invariant it == 1 + i && (first <==> i == 0)
      invariant data' == data + RecordsOf(r)[..1 + i]
    {
      var item := r.nodeMeta[i];
      var record;
      if first {
        record := HopRecord(tmp, item.hopIndex, Some(item.hopDelay), None, item.hopJitter, item.hopTimestamp);
        first := false;
      } else if item.hopDelay != 0 {
        record := HopRecord(tmp, item.hopIndex, Some(item.hopDelay), Some(item.linkDelay), Signed64(item.hopJitter),
                            item.hopTimestamp);
      } else {
        record := HopRecord(tmp, item.hopIndex, None, Some(item.linkDelay), Signed64(item.hopJitter),
                            item.hopTimestamp);
      }
      assert RecordsOf(r)[1 + i] == record;
      data' := data' + [record];
      it := it + 1;
    }
  }

  /** The line counter of a sender counts the records of its batch. */
  lemma {:induction false} LinesAreRecords(reports: seq<Report>)
    ensures TotalLines(reports) == |BatchRecords(reports)|
    decreases |reports|
  {
    if reports != [] {
      LinesAreRecords(reports[..|reports| - 1]);
    }
  }

  /** So every batch a sender of datagrams sends has exactly `batch` records, if reports are uniform. */
  lemma {:induction false} DatagramsAreFull(opt: Senders.Options, polls: seq<Poll>, r: nat, perBatch: nat, i: nat)
    requires opt.protocol.Udp? && opt.hostValid && r > 0 && perBatch > 0 && opt.batch == perBatch * r
    requires Uniform(polls, r) && i < |After(opt, START, polls).sent|
    ensures |BatchRecords(After(opt, START, polls).sent[i])| == opt.batch
  {
    hide After, Lines, Concat;
    var s := After(opt, START, polls);
    UdpSendsFullBatches(opt, polls, r, perBatch);
    SentAreUniform(opt, polls, r);
    UniformTotal(s.sent[i], r);
    LinesAreRecords(s.sent[i]);
  }

  predicate AllHave(reports: seq<Report>, r: nat) {
    forall i :: 0 <= i < |reports| ==> Lines(reports[i]) == r
  }

  predicate BatchesHave(s: Sender, r: nat) {
    AllHave(s.data, r) && forall i :: 0 <= i < |s.sent| ==> AllHave(s.sent[i], r)
  }

  lemma {:induction false} SentAreUniform(opt: Senders.Options, polls: seq<Poll>, r: nat)
    requires opt.protocol.Udp? && opt.hostValid && Uniform(polls, r)
    ensures BatchesHave(After(opt, START, polls), r)
    decreases |polls|
  {
    hide Lines;
    if polls != [] {
      SentAreUniform(opt, polls[..|polls| - 1], r);
    }
  }

  lemma {:induction false} UniformTotal(reports: seq<Report>, r: nat)
    requires AllHave(reports, r)
    ensures TotalLines(reports) == |reports| * r
    decreases |reports|
  {
    hide Lines;
    if reports != [] {
      UniformTotal(reports[..|reports| - 1], r);
      assert |reports| * r == (|reports| - 1) * r + r;
    }
  }

  /**
   The sign of a jitter is shown for every entry but the first: there a time that went back is
   printed as a huge number, so it agrees with the signed figure only when it did not.
   */
  lemma {:induction false} FirstJitterIsUnsigned(r: Report, i: nat)
    requires i < |r.nodeMeta|
    ensures RecordsOf(r)[1 + i].HopRecord?
    ensures RecordsOf(r)[1 + i].jitter == Signed64(r.nodeMeta[i].hopJitter)
            <==> i > 0 || r.nodeMeta[i].hopJitter < 0x8000_0000_0000_0000
  {
    assert RecordsOf(r)[1 + i] == HopRecordOf(r, i);
  }

  /** A report on at least one node, as the collector fills it: the first entry has no link delay. */
  predicate Filled(r: Report) {
    r.nodeMeta != [] && r.nodeMeta[0].linkDelay == 0
  }

  /** Nothing is lost in the records: no two reports are written the same. */
  lemma {:induction false} RecordsDetermineReport(a: Report, b: Report)
    requires Filled(a) && Filled(b) && RecordsOf(a) == RecordsOf(b)
    ensures a == b
  {
    assert RecordsOf(a)[0] == RecordsOf(b)[0];
    assert |a.nodeMeta| == |b.nodeMeta|;
    forall i | 0 <= i < |a.nodeMeta|
      ensures a.nodeMeta[i] == b.nodeMeta[i]
    {
      assert RecordsOf(a)[1 + i] == HopRecordOf(a, i) && RecordsOf(b)[1 + i] == HopRecordOf(b, i);
    }
    assert a.nodeMeta == b.nodeMeta;
  }
}
