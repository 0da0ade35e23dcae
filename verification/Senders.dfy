/**
 The sender threads of `p4_influxdb.cc`: what they do when a poll of their ring finds
 nothing, and when it yields a report.  A report stands for the lines `add_report` writes
 for it; a batch counts as sent once it was passed to `send`, whether or not that threw.
 */
module Senders {
  import opened Bytes
  import opened Modular
  import opened Telemetry
  import opened RingBuffers

  const POP_THRESHOLD := 10

  datatype Protocol = Http | Udp

  datatype Options = Options(protocol: Protocol, hostValid: bool, batch: U32)

  /** The sender's local variables; `sent` is the history of its `send` calls. */
  datatype Sender = Sender(data: seq<Report>, it: U32, flush: U32, sent: seq<seq<Report>>)

  const START := Sender([], 0, 0, [])

  /** The value `add_report` returns. */
  function Lines(r: Report): (n: nat)
    ensures n > 0
  {
    |r.nodeMeta| + 1
  }

  function TotalLines(rs: seq<Report>): nat {
    if rs == [] then 0 else TotalLines(rs[..|rs| - 1]) + Lines(rs[|rs| - 1])
  }

  function Concat(batches: seq<seq<Report>>): seq<Report> {
    if batches == [] then [] else Concat(batches[..|batches| - 1]) + batches[|batches| - 1]
  }

  /** `send`, then clear. */
  function Flush(s: Sender): Sender {
    s.(sent := s.sent + [s.data], data := [], it := 0)
  }

  /** A poll that found the ring empty. */
  function OnEmpty(opt: Options, s: Sender): Sender {
    if opt.protocol.Udp? then s else
    var s' := s.(flush := (s.flush + 1) % TWO32);
    if s'.flush == POP_THRESHOLD && s'.data != [] && opt.hostValid then Flush(s') else s'
  }

  /** A report was popped; the next round of polling starts counting again. */
  function OnReport(opt: Options, s: Sender, r: Report): Sender {
    if !opt.hostValid then s.(flush := 0) else
    var s' := s.(data := s.data + [r], it := (s.it + Lines(r)) % TWO32, flush := 0);
    if (if opt.protocol.Http? then s'.it >= opt.batch else s'.it == opt.batch) then Flush(s') else s'
  }

  // ---------------------------------------------------------------------------
  // Any run of polls
  // ---------------------------------------------------------------------------

  datatype Poll = Empty | Got(report: Report)

  function After(opt: Options, s: Sender, polls: seq<Poll>): Sender {
    if polls == [] then s else
    var before := After(opt, s, polls[..|polls| - 1]);
    match polls[|polls| - 1]
    case Empty => OnEmpty(opt, before)
    case Got(r) => OnReport(opt, before, r)
  }

  function Popped(polls: seq<Poll>): seq<Report> {
    if polls == [] then [] else
    Popped(polls[..|polls| - 1]) + match polls[|polls| - 1] case Empty => [] case Got(r) => [r]
  }

  lemma {:induction false} ConcatSnoc(batches: seq<seq<Report>>, last: seq<Report>)
    ensures Concat(batches + [last]) == Concat(batches) + last
  {
    assert (batches + [last])[..|batches|] == batches;
  }

  /** Nothing is lost, duplicated or reordered between popping and sending. */
  ghost predicate Conserves(s: Sender, popped: seq<Report>) {
    Concat(s.sent) + s.data == popped
  }

  lemma {:induction false} FlushConserves(s: Sender, popped: seq<Report>)
    requires Conserves(s, popped)
    ensures Conserves(Flush(s), popped)
  {
    ConcatSnoc(s.sent, s.data);
  }

  lemma {:induction false} OnEmptyConserves(opt: Options, s: Sender, popped: seq<Report>)
    requires Conserves(s, popped)
    ensures Conserves(OnEmpty(opt, s), popped)
  {
    FlushConserves(s.(flush := (s.flush + 1) % TWO32), popped);
  }

  lemma {:induction false} OnReportConserves(opt: Options, s: Sender, r: Report, popped: seq<Report>)
    requires opt.hostValid && Conserves(s, popped)
    ensures Conserves(OnReport(opt, s, r), popped + [r])
  {
    var s' := s.(data := s.data + [r], it := (s.it + Lines(r)) % TWO32, flush := 0);
    assert Concat(s.sent) + (s.data + [r]) == (Concat(s.sent) + s.data) + [r];
    FlushConserves(s', popped + [r]);
  }

  lemma {:induction false} SenderConserves(opt: Options, polls: seq<Poll>)
    requires opt.hostValid
    ensures Conserves(After(opt, START, polls), Popped(polls))
    decreases |polls|
  {
    if polls != [] {
      var front := polls[..|polls| - 1];
      SenderConserves(opt, front);
      var s := After(opt, START, front);
      match polls[|polls| - 1]
      case Empty => OnEmptyConserves(opt, s, Popped(front));
      case Got(r) => OnReportConserves(opt, s, r, Popped(front));
    }
  }

  // ---------------------------------------------------------------------------
  // HTTP: the batch threshold and the idle flush
  // ---------------------------------------------------------------------------

  /** No report is long enough to carry the 32-bit line counter past its range. */
  ghost predicate NoWrap(opt: Options, r: Report) {
    opt.batch + Lines(r) <= TWO32
  }

  /** A batch was not yet due before its last report. */
  ghost predicate SentOnTime(opt: Options, batch: seq<Report>) {
    batch != [] && (|batch| > 1 ==> TotalLines(batch[..|batch| - 1]) < opt.batch)
  }

  /**
   Between polls: the counter is the number of lines collected, below the threshold, and a
   sender that has been idle long enough has nothing pending.
   */
  ghost predicate HttpInv(opt: Options, s: Sender) {
    && s.it == TotalLines(s.data)
    && (s.data != [] ==> s.it < opt.batch)
    && (s.flush >= 10 ==> s.data == [])
    && AllOnTime(opt, s.sent)
  }

  ghost predicate AllOnTime(opt: Options, batches: seq<seq<Report>>) {
    forall i :: 0 <= i < |batches| ==> SentOnTime(opt, batches[i])
  }

  lemma OneMoreOnTime(opt: Options, batches: seq<seq<Report>>, last: seq<Report>)
    requires AllOnTime(opt, batches) && SentOnTime(opt, last)
    ensures AllOnTime(opt, batches + [last])
  {
    hide SentOnTime;
  }

  lemma {:induction false} TotalLinesSnoc(rs: seq<Report>, r: Report)
    ensures TotalLines(rs + [r]) == TotalLines(rs) + Lines(r)
  {
    assert (rs + [r])[..|rs|] == rs;
  }

  lemma {:induction false} HttpEmptyKeepsInv(opt: Options, s: Sender)
    requires opt.protocol.Http? && opt.hostValid && HttpInv(opt, s)
    ensures HttpInv(opt, OnEmpty(opt, s))
  {
    hide AllOnTime;
    if s.data != [] {
      var front := s.data[..|s.data| - 1];
      assert TotalLines(front) < TotalLines(s.data);
      OneMoreOnTime(opt, s.sent, s.data);
    }
  }

  lemma {:induction false} HttpReportKeepsInv(opt: Options, s: Sender, r: Report)
    requires opt.protocol.Http? && opt.hostValid && HttpInv(opt, s) && NoWrap(opt, r)
    ensures HttpInv(opt, OnReport(opt, s, r))
    ensures var s' := OnReport(opt, s, r);
            s'.sent != s.sent <==> TotalLines(s.data + [r]) >= opt.batch
  {
    hide AllOnTime, TotalLines, Lines;
    var data' := s.data + [r];
    TotalLinesSnoc(s.data, r);
    NoLines();
    assert data'[..|data'| - 1] == s.data;
    if TotalLines(data') >= opt.batch {
      OneMoreOnTime(opt, s.sent, data');
    }
  }

  lemma NoLines()
    ensures TotalLines([]) == 0
  {}

  predicate AllFit(opt: Options, polls: seq<Poll>) {
    forall i :: 0 <= i < |polls| && polls[i].Got? ==> opt.batch + Lines(polls[i].report) <= TWO32
  }

  /** The invariant holds over every run of the HTTP sender. */
  lemma {:induction false} HttpRunKeepsInv(opt: Options, polls: seq<Poll>)
    requires opt.protocol.Http? && opt.hostValid && AllFit(opt, polls)
    ensures HttpInv(opt, After(opt, START, polls))
    decreases |polls|
  {
    if polls != [] {
      var front := polls[..|polls| - 1];
      HttpRunKeepsInv(opt, front);
      var s := After(opt, START, front);
      match polls[|polls| - 1]
      case Empty => HttpEmptyKeepsInv(opt, s);
      case Got(r) => HttpReportKeepsInv(opt, s, r);
    }
  }

  /** The collector's reports have at most ten node entries, and so eleven lines. */
  lemma CollectorReportsAreShort(s: Sample, f: FlowMeta, prev: seq<U64>, tstmp: bool)
    requires SampleOk(s) && |prev| == MAX_NODES
    ensures Lines(ReportOf(s, f, prev, tstmp)) <= 1 + MAX_NODES
  {}

  /** So for the collector's own reports the invariant needs only a bound on the batch size. */
  lemma {:induction false} CollectorRunKeepsInv(opt: Options, polls: seq<Poll>)
    requires opt.protocol.Http? && opt.hostValid && opt.batch + 1 + MAX_NODES <= TWO32
    requires forall i :: 0 <= i < |polls| && polls[i].Got? ==> Lines(polls[i].report) <= 1 + MAX_NODES
    ensures HttpInv(opt, After(opt, START, polls))
  {
    hide HttpInv, After, Lines;
    HttpRunKeepsInv(opt, polls);
  }

  /** `n` polls in a row that find nothing. */
  function Idle(n: nat): seq<Poll> {
    if n == 0 then [] else Idle(n - 1) + [Empty]
  }

  /** How many polls in a row have found nothing by now. */
  function TrailingEmpties(polls: seq<Poll>): nat {
    if polls == [] || polls[|polls| - 1].Got? then 0 else TrailingEmpties(polls[..|polls| - 1]) + 1
  }

  /** `flush` is that number; it would only wrap when nothing is pending any more. */
  lemma {:induction false} FlushCounts(opt: Options, polls: seq<Poll>)
    requires opt.protocol.Http? && opt.hostValid
    ensures var s, n := After(opt, START, polls), TrailingEmpties(polls);
            s.flush == n % TWO32 && (n >= 10 ==> s.data == [])
    decreases |polls|
  {
    hide OnEmpty, OnReport;
    if polls != [] {
      var front := polls[..|polls| - 1];
      FlushCounts(opt, front);
      var s := After(opt, START, front);
      match polls[|polls| - 1]
      case Empty => FlushStep(opt, s, TrailingEmpties(front));
      case Got(r) => FlushReset(opt, s, r);
    }
  }

  lemma FlushStep(opt: Options, s: Sender, n: nat)
    requires opt.protocol.Http? && opt.hostValid && s.flush == n % TWO32 && (n >= 10 ==> s.data == [])
    ensures var s' := OnEmpty(opt, s);
            s'.flush == (n + 1) % TWO32 && (n + 1 >= 10 ==> s'.data == [])
  {}

  lemma FlushReset(opt: Options, s: Sender, r: Report)
    ensures OnReport(opt, s, r).flush == 0
  {}

  /**
   Neither too early nor too late: a poll that finds nothing sends if and only if something is
   pending and it is the tenth such poll in a row; then it sends just what is pending.
   */
  lemma {:induction false} SendsAtTenthEmptyPoll(opt: Options, polls: seq<Poll>)
    requires opt.protocol.Http? && opt.hostValid
    ensures var s, s' := After(opt, START, polls), After(opt, START, polls + [Empty]);
            if s.data != [] && TrailingEmpties(polls + [Empty]) == 10
            then s'.sent == s.sent + [s.data] && s'.data == []
            else s'.sent == s.sent && s'.data == s.data
  {
    var all := polls + [Empty];
    assert all[..|all| - 1] == polls;
    FlushCounts(opt, polls);
    AfterEmpty(opt, polls);
    hide After;
  }

  /** Empty polls after a report: the pending batch stays for nine of them and goes out at the tenth. */
  lemma {:induction false} WaitsForTenEmptyPolls(opt: Options, polls: seq<Poll>, n: nat)
    requires opt.protocol.Http? && opt.hostValid && (polls == [] || polls[|polls| - 1].Got?)
    ensures var s, s' := After(opt, START, polls), After(opt, START, polls + Idle(n));
            if n < 10 || s.data == [] then s'.sent == s.sent && s'.data == s.data
            else s'.sent == s.sent + [s.data] && s'.data == []
    decreases n
  {
    hide After, TrailingEmpties, Popped, Idle, AllFit;
    OneMoreIdle(n);
    NoneTrailing(polls);
    EmptyPolls(polls, n);
    if n == 0 {
      assert polls + Idle(0) == polls;
    } else {
      var front := polls + Idle(n - 1);
      assert polls + Idle(n) == front + [Empty];
      WaitsForTenEmptyPolls(opt, polls, n - 1);
      SendsAtTenthEmptyPoll(opt, front);
    }
  }

  lemma OneMoreIdle(n: nat)
    ensures Idle(n) == if n == 0 then [] else Idle(n - 1) + [Empty]
  {}

  lemma NoneTrailing(polls: seq<Poll>)
    requires polls == [] || polls[|polls| - 1].Got?
    ensures TrailingEmpties(polls) == 0
  {}

  /** A report sends if and only if it takes the lines pending to the batch size. */
  lemma {:induction false} SendsAtBatchSize(opt: Options, polls: seq<Poll>, r: Report)
    requires opt.protocol.Http? && opt.hostValid && AllFit(opt, polls + [Got(r)])
    ensures var s, s' := After(opt, START, polls), After(opt, START, polls + [Got(r)]);
            if TotalLines(s.data + [r]) >= opt.batch
            then s'.sent == s.sent + [s.data + [r]] && s'.data == []
            else s'.sent == s.sent && s'.data == s.data + [r]
  {
    hide After, TotalLines, Lines, HttpInv;
    FitBefore(opt, polls, r);
    HttpRunKeepsInv(opt, polls);
    AfterReport(opt, polls, r);
    ReportStep(opt, After(opt, START, polls), r);
  }

  lemma FitBefore(opt: Options, polls: seq<Poll>, r: Report)
    requires AllFit(opt, polls + [Got(r)])
    ensures AllFit(opt, polls) && NoWrap(opt, r)
  {
    hide Lines;
    var all := polls + [Got(r)];
    assert all[|polls|] == Got(r);
    forall i | 0 <= i < |polls| && polls[i].Got?
      ensures opt.batch + Lines(polls[i].report) <= TWO32
    {
      assert all[i] == polls[i];
    }
  }

  lemma AfterReport(opt: Options, front: seq<Poll>, r: Report)
    ensures After(opt, START, front + [Got(r)]) == OnReport(opt, After(opt, START, front), r)
  {
    assert (front + [Got(r)])[..|front|] == front;
  }

  lemma ReportStep(opt: Options, s: Sender, r: Report)
    requires opt.protocol.Http? && opt.hostValid && HttpInv(opt, s) && NoWrap(opt, r)
    ensures var s' := OnReport(opt, s, r);
            if TotalLines(s.data + [r]) >= opt.batch
            then s'.sent == s.sent + [s.data + [r]] && s'.data == []
            else s'.sent == s.sent && s'.data == s.data + [r]
  {
    hide TotalLines, Lines, AllOnTime;
    TotalLinesSnoc(s.data, r);
    NoLines();
  }

  /** Without a valid host nothing is collected and nothing sent, by either protocol. */
  lemma {:induction false} InvalidHostSendsNothing(opt: Options, polls: seq<Poll>)
    requires !opt.hostValid
    ensures After(opt, START, polls).sent == [] && After(opt, START, polls).data == []
    decreases |polls|
  {
    if polls != [] {
      InvalidHostSendsNothing(opt, polls[..|polls| - 1]);
    }
  }

  /** After ten polls in a row that found nothing, nothing is pending. */
  lemma {:induction false} IdleSenderHasSentAll(opt: Options, polls: seq<Poll>)
    requires opt.protocol.Http? && opt.hostValid
    ensures var s := After(opt, START, polls + Idle(10));
            s.data == [] && Concat(s.sent) == Popped(polls)
  {
    hide After, Idle, Concat, TrailingEmpties;
    EmptyPolls(polls, 10);
    FlushCounts(opt, polls + Idle(10));
    SenderConserves(opt, polls + Idle(10));
  }

  lemma {:induction false} EmptyPolls(polls: seq<Poll>, n: nat)
    ensures Popped(polls + Idle(n)) == Popped(polls)
    ensures TrailingEmpties(polls + Idle(n)) == TrailingEmpties(polls) + n
    decreases n
  {
    if n == 0 {
      assert polls + Idle(0) == polls;
    } else {
      var front := polls + Idle(n - 1);
      assert polls + Idle(n) == front + [Empty];
      assert (front + [Empty])[..|front|] == front;
      EmptyPolls(polls, n - 1);
    }
  }

  lemma AfterEmpty(opt: Options, front: seq<Poll>)
    ensures After(opt, START, front + [Empty]) == OnEmpty(opt, After(opt, START, front))
    ensures Popped(front + [Empty]) == Popped(front)
  {
    assert (front + [Empty])[..|front|] == front;
  }

  // ---------------------------------------------------------------------------
  // UDP: the batch is sent only when the counter hits it exactly
  // ---------------------------------------------------------------------------

  /** Every report popped has `r` lines, as when all packets take paths of one length. */
  predicate Uniform(polls: seq<Poll>, r: nat) {
    forall i :: 0 <= i < |polls| && polls[i].Got? ==> Lines(polls[i].report) == r
  }

  /** The lines of `n` reports of `r` lines each. */
  function LinesOf(n: nat, r: nat): nat {
    if n == 0 then 0 else LinesOf(n - 1, r) + r
  }

  lemma {:induction false} LinesOfIsProduct(n: nat, r: nat)
    ensures LinesOf(n, r) == n * r
    decreases n
  {
    if n > 0 {
      LinesOfIsProduct(n - 1, r);
      assert n * r == (n - 1) * r + r;
    }
  }

  lemma {:induction false} LinesOfGrows(m: nat, n: nat, r: nat)
    requires m < n && r > 0
    ensures LinesOf(m, r) < LinesOf(n, r)
    decreases n
  {
    if m < n - 1 {
      LinesOfGrows(m, n - 1, r);
    }
  }

  lemma {:induction false} LinesOfIsMultiple(n: nat, r: nat)
    requires r > 0
    ensures LinesOf(n, r) % r == 0
    decreases n
  {
    if n == 0 {
      SlotIsRemainder(0, r);
    } else {
      LinesOfIsMultiple(n - 1, r);
      SlotIsRemainder(LinesOf(n - 1, r), r);
      SlotPeriod(LinesOf(n - 1, r), r);
      SlotIsRemainder(LinesOf(n, r), r);
    }
  }

  /** One uniform report: the counter advances by `r`, and the batch goes out on a hit. */
  lemma {:induction false} UdpStep(opt: Options, s: Sender, report: Report, r: nat)
    requires opt.protocol.Udp? && opt.hostValid && Lines(report) == r
    requires s.it == LinesOf(|s.data|, r) && s.it + r < TWO32
    ensures var s' := OnReport(opt, s, report);
            if LinesOf(|s.data| + 1, r) == opt.batch
            then s'.data == [] && s'.it == 0 && s'.sent == s.sent + [s.data + [report]]
            else s'.data == s.data + [report] && s'.it == LinesOf(|s'.data|, r) && s'.sent == s.sent
  {}

  /** Full batches sent, a partial one pending. */
  ghost predicate UdpInv(s: Sender, r: nat, perBatch: nat) {
    && (forall i :: 0 <= i < |s.sent| ==> |s.sent[i]| == perBatch)
    && |s.data| < perBatch && s.it == LinesOf(|s.data|, r)
  }

  lemma {:induction false} UdpStepKeepsInv(opt: Options, s: Sender, report: Report, r: nat, perBatch: nat)
    requires opt.protocol.Udp? && opt.hostValid && Lines(report) == r > 0 && opt.batch == LinesOf(perBatch, r)
    requires UdpInv(s, r, perBatch)
    ensures UdpInv(OnReport(opt, s, report), r, perBatch)
  {
    UdpStepFits(opt, s, perBatch, r);
    UdpStep(opt, s, report, r);
    if |s.data| + 1 < perBatch {
      LinesOfGrows(|s.data| + 1, perBatch, r);
    }
    hide OnReport, Lines;
    assert LinesOf(0, r) == 0;
  }

  /**
   If the lines of a report divide the batch size, each datagram carries exactly
   batch / lines reports, in order, for ever; fewer than that are pending, however often the
   ring is found empty in between.
   */
  lemma {:induction false} UdpSendsFullBatches(opt: Options, polls: seq<Poll>, r: nat, perBatch: nat)
    requires opt.protocol.Udp? && opt.hostValid && r > 0 && perBatch > 0 && opt.batch == perBatch * r
    requires Uniform(polls, r)
    ensures var s := After(opt, START, polls);
            UdpInv(s, r, perBatch) && Concat(s.sent) + s.data == Popped(polls)
  {
    LinesOfIsProduct(perBatch, r);
    FullBatches(opt, polls, r, perBatch);
    SenderConserves(opt, polls);
  }

  lemma {:induction false} FullBatches(opt: Options, polls: seq<Poll>, r: nat, perBatch: nat)
    requires opt.protocol.Udp? && opt.hostValid && r > 0 && perBatch > 0 && opt.batch == LinesOf(perBatch, r)
    requires Uniform(polls, r)
    ensures UdpInv(After(opt, START, polls), r, perBatch)
    decreases |polls|
  {
    hide OnReport, Lines, UdpInv;
    if polls == [] {
      NothingSent(r, perBatch);
    } else {
      var front := polls[..|polls| - 1];
      FullBatches(opt, front, r, perBatch);
      match polls[|polls| - 1]
      case Empty =>
      case Got(last) => UdpStepKeepsInv(opt, After(opt, START, front), last, r, perBatch);
    }
  }

  lemma NothingSent(r: nat, perBatch: nat)
    requires perBatch > 0
    ensures UdpInv(START, r, perBatch)
  {}

  lemma {:induction false} UdpStepFits(opt: Options, s: Sender, perBatch: nat, r: nat)
    requires |s.data| < perBatch && s.it == LinesOf(|s.data|, r) && opt.batch == LinesOf(perBatch, r) && r > 0
    ensures s.it + r < TWO32
  {
    if |s.data| + 1 < perBatch {
      LinesOfGrows(|s.data| + 1, perBatch, r);
    }
  }

  /**
   If they do not divide it, nothing is ever sent as long as the 32-bit counter has not
   wrapped: everything popped stays pending.
   */
  lemma {:induction false} UdpNeverSends(opt: Options, polls: seq<Poll>, r: nat)
    requires opt.protocol.Udp? && opt.hostValid && r > 0 && LinesOf(|Popped(polls)|, r) < TWO32
    requires opt.batch == 0 || opt.batch % r != 0
    requires Uniform(polls, r)
    ensures var s := After(opt, START, polls);
            s.sent == [] && s.data == Popped(polls) && s.it == LinesOf(|Popped(polls)|, r)
    decreases |polls|
  {
    hide Lines;
    if polls != [] {
      var front := polls[..|polls| - 1];
      match polls[|polls| - 1]
      case Empty => UdpNeverSends(opt, front, r);
      case Got(last) =>
        var n := |Popped(front)|;
        LinesOfGrows(n, n + 1, r);
        UdpNeverSends(opt, front, r);
        UdpStep(opt, After(opt, START, front), last, r);
        LinesOfIsMultiple(n + 1, r);
    }
  }

  // ---------------------------------------------------------------------------
  // The threads themselves
  // ---------------------------------------------------------------------------

  /** One sender thread: its ring and its local variables, updated poll by poll. */
  class SenderThread {
    const opt: Options
    const ring: RingBuffer<Report>
    var data: seq<Report>
    var it: U32
    var flush: U32
    ghost var sent: seq<seq<Report>>

    ghost function Abs(): Sender
      reads this
    {
      Sender(data, it, flush, sent)
    }

    constructor (opt: Options, ring: RingBuffer<Report>)
      ensures this.opt == opt && this.ring == ring && Abs() == START
    {
      this.opt, this.ring := opt, ring;
      data, it, flush, sent := [], 0, 0, [];
    }

    /** `send` takes the batch, and whether it succeeds or throws, the batch is cleared. */
    method Send()
      modifies this`data, this`it, this`sent
      ensures Abs() == Flush(old(Abs()))
    {
      sent := sent + [data];
      it := 0;
      data := [];
    }

    /** One poll of the ring by `http_sender`, and what follows from it. */
    method PollHttp(spare: Report)
      requires opt.protocol.Http? && ring.Valid()
      modifies this, ring`tail, ring`items
      ensures ring.Valid()
      ensures if old(ring.items) == [] then Abs() == OnEmpty(opt, old(Abs())) && ring.items == []
              else Abs() == OnReport(opt, old(Abs()), old(ring.items)[0]) && ring.items == old(ring.items)[1..]
    {
      var ok, report := ring.Pop(spare);
      if !ok {
        flush := (flush + 1) % TWO32;
        if flush == POP_THRESHOLD && data != [] && opt.hostValid {
          Send();
        }
        return;
      }
      flush := 0;
      if opt.hostValid {
        it := (it + Lines(report)) % TWO32;
        data := data + [report];
        if it >= opt.batch {
          Send();
        }
      }
    }

    /** One poll of the ring by `udp_sender`, and what follows from it. */
    method PollUdp(spare: Report)
      requires opt.protocol.Udp? && ring.Valid()
      modifies this, ring`tail, ring`items
      ensures ring.Valid()
      ensures if old(ring.items) == [] then Abs() == OnEmpty(opt, old(Abs())) && ring.items == []
              else Abs() == OnReport(opt, old(Abs()), old(ring.items)[0]) && ring.items == old(ring.items)[1..]
    {
      var ok, report := ring.Pop(spare);
      if !ok {
        return;
      }
      flush := 0;
      if opt.hostValid {
        it := (it + Lines(report)) % TWO32;
        data := data + [report];
        if it == opt.batch {
          Send();
        }
      }
    }
  }
}
