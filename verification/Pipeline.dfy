/**
 The whole hand-off: one receive thread that samples packets and deals their reports to the
 rings, and one sender thread on each ring, all interleaving freely at the level of single
 memory accesses (`Spsc`).
 */
module Pipeline {
  import opened Bytes
  import opened Options
  import opened Modular
  import opened Telemetry
  import opened Calls
  import Spsc
  import Senders

  type Ring = Spsc.State<Report>

  /** Where the receive thread stands: between packets, in `sendData`'s loop, or inside `push`. */
  datatype Receiver =
    | Waiting
    | Sending(report: Report, tried: nat, from: nat)
    | Offering(report: Report, tried: nat, from: nat)

  /** What had been pushed to a ring of `size` slots, and how many values popped. */
  datatype History = History(pushed: seq<Report>, popped: nat, size: nat)

  datatype Config = Config(opt: Senders.Options, smplRate: U32)

  /**
   `hands[k]` is a report sender `k` has popped and not yet added to its batch; `arrived`
   lists the reports of all packets processed; `log` lists the calls of `sendData` completed
   so far; `atCall` is what each ring's history was when the latest call began.
   */
  datatype State = State(
    rings: seq<Ring>,
    senders: seq<Senders.Sender>,
    hands: seq<Option<Report>>,
    rx: Receiver,
    rrIndex: nat,
    arrived: seq<Report>,
    pktDrop: nat,
    log: seq<Call>,
    atCall: seq<History>)

  datatype Action =
    | Receive(report: Report)
    | TryNext
    | GiveUp
    | Produce(push: Spsc.Action<Report>)
    | Consume(thread: nat, pop: Spsc.Action<Report>)
    | Handle(thread: nat)

  predicate IsPush(a: Spsc.Action<Report>) {
    a.PushCheck? || a.PushWrite? || a.PushStore?
  }

  predicate IsPop(a: Spsc.Action<Report>) {
    a.PopBegin? || a.PopCheck? || a.PopRead? || a.PopStore?
  }

  predicate Shaped(cfg: Config, s: State) {
    && cfg.smplRate > 0
    && |s.senders| == |s.hands| == |s.atCall| == |s.rings|
    && (s.rings != [] ==> s.rrIndex < |s.rings|)
  }

  predicate Init(cfg: Config, s: State) {
    && Shaped(cfg, s)
    && (forall k :: 0 <= k < |s.rings| ==> Spsc.Init(s.rings[k]))
    && (forall k :: 0 <= k < |s.rings| ==> s.senders[k] == Senders.START && s.hands[k] == None)
    && s.rx == Waiting && s.rrIndex == 0 && s.arrived == [] && s.pktDrop == 0 && s.log == []
  }

  function NextRing(s: State): nat
    requires s.rings != [] && s.rrIndex < |s.rings|
  {
    (s.rrIndex + 1) % |s.rings|
  }

  predicate Enabled(cfg: Config, s: State, a: Action) {
    && Shaped(cfg, s)
    && match a
       case Receive(_) => s.rx.Waiting?
       case TryNext => s.rx.Sending? && s.rx.tried < |s.rings|
                       && NextRing(s) < |s.rings| && Spsc.Enabled(s.rings[NextRing(s)], Spsc.PushBegin(s.rx.report))
       case GiveUp => s.rx.Sending? && s.rx.tried == |s.rings|
       case Produce(push) => s.rx.Offering? && s.rings != [] && IsPush(push) && Spsc.Enabled(s.rings[s.rrIndex], push)
       case Consume(k, pop) => k < |s.rings| && s.hands[k].None? && IsPop(pop) && Spsc.Enabled(s.rings[k], pop)
       case Handle(k) => k < |s.rings| && s.hands[k].Some?
  }

  function Histories(rings: seq<Ring>): (hs: seq<History>)
    ensures |hs| == |rings|
  {
    seq(|rings|, k requires 0 <= k < |rings| => History(rings[k].pushed, |rings[k].popped|, |rings[k].slots|))
  }

  /** The packet in hand is done with. */
  function Finish(s: State, outcome: Outcome): State
    requires !s.rx.Waiting?
  {
    s.(rx := Waiting, arrived := s.arrived + [s.rx.report], log := s.log + [Call(s.rx.report, outcome)])
  }

  function Apply(cfg: Config, s: State, a: Action): (s': State)
    requires Enabled(cfg, s, a)
    ensures Shaped(cfg, s')
  {
    match a
    case Receive(r) =>
      if cfg.opt.hostValid && IsSampled(|s.arrived|, cfg.smplRate)
      then s.(rx := Sending(r, 0, s.rrIndex), atCall := Histories(s.rings))
      else s.(arrived := s.arrived + [r])
    case TryNext =>
      var k := NextRing(s);
      s.(rrIndex := k,
         rings := s.rings[k := Spsc.Apply(s.rings[k], Spsc.PushBegin(s.rx.report))],
         rx := Offering(s.rx.report, s.rx.tried, s.rx.from))
    case GiveUp =>
      Finish(s, Dropped).(pktDrop := s.pktDrop + 1)
    case Produce(push) =>
      var s' := s.(rings := s.rings[s.rrIndex := Spsc.Apply(s.rings[s.rrIndex], push)]);
      if push.PushStore? then Finish(s', PushedTo(s.rrIndex))
      else if Spsc.CheckFails(s.rings[s.rrIndex], push) then s'.(rx := Sending(s.rx.report, s.rx.tried + 1, s.rx.from))
      else s'
    case Consume(k, pop) =>
      var s' := s.(rings := s.rings[k := Spsc.Apply(s.rings[k], pop)]);
      if pop.PopStore? then s'.(hands := s.hands[k := Some(s.rings[k].cons.value)])
      else if Spsc.CheckFails(s.rings[k], pop)
        then s'.(senders := s.senders[k := Senders.OnEmpty(cfg.opt, s.senders[k])])
      else s'
    case Handle(k) =>
      s.(senders := s.senders[k := Senders.OnReport(cfg.opt, s.senders[k], s.hands[k].value)],
         hands := s.hands[k := None])
  }

  // ---------------------------------------------------------------------------
  // The inductive invariant
  // ---------------------------------------------------------------------------

  /** One ring and its sender: what was popped has been sent, is in the batch, or is in hand. */
  ghost predicate ThreadInv(ring: Ring, sender: Senders.Sender, hand: Option<Report>, sentTo: seq<Report>) {
    && Spsc.Inv(ring)
    && ring.pushed == sentTo
    && ring.popped == Senders.Concat(sender.sent) + sender.data + (if hand.Some? then [hand.value] else [])
    && (hand.Some? ==> ring.cons.CIdle?)
  }

  ghost predicate ThreadsInv(s: State)
    requires |s.senders| == |s.hands| == |s.rings|
  {
    forall k :: 0 <= k < |s.rings| ==> ThreadInv(s.rings[k], s.senders[k], s.hands[k], SentTo(s.log, k))
  }

  /** The receive thread is inside `push` on one ring at most, and with the report in hand. */
  ghost predicate PushingInv(s: State) {
    forall k :: 0 <= k < |s.rings| ==>
      if s.rx.Offering? && k == s.rrIndex
      then !s.rings[k].prod.PIdle? && s.rings[k].prod.value == s.rx.report
      else s.rings[k].prod.PIdle?
  }

  /** A ring that looks full to the receive thread. */
  ghost predicate LooksFull(ring: Ring) {
    |ring.pushed| - ring.seenTail == |ring.slots| - 1
  }

  /** During a call: which rings have refused, and what has happened since it began. */
  ghost predicate CallInv(s: State)
    requires |s.atCall| == |s.rings| && (s.rings != [] ==> s.rrIndex < |s.rings|)
  {
    !s.rx.Waiting? ==>
      var n, from, tried := |s.rings|, s.rx.from, s.rx.tried;
      && tried <= n
      && (n == 0 ==> s.rrIndex == from)
      && (n > 0 ==>
            (&& from < n
             && (s.rx.Sending? ==> if tried == 0 then s.rrIndex == from else Turn(from, s.rrIndex, n) == tried)
             && (s.rx.Offering? ==> Turn(from, s.rrIndex, n) == tried + 1)
             && (forall k :: 0 <= k < n && Turn(from, k, n) <= tried ==> LooksFull(s.rings[k]))))
      && (s.rx.Offering? ==> n > 0)
      && forall k :: 0 <= k < n ==>
           && s.rings[k].pushed == s.atCall[k].pushed && |s.rings[k].slots| == s.atCall[k].size
           && s.atCall[k].popped <= |s.rings[k].popped|
           && |s.rings[k].pushed| - s.atCall[k].popped < |s.rings[k].slots|
  }

  ghost predicate CountInv(cfg: Config, s: State)
    requires cfg.smplRate > 0
  {
    && LogReports(s.log) == (if cfg.opt.hostValid then SampledReports(s.arrived, 0, cfg.smplRate) else [])
    && s.pktDrop == Drops(s.log)
    && OutcomesIn(s.log, |s.rings|)
    && (!s.rx.Waiting? ==> cfg.opt.hostValid && IsSampled(|s.arrived|, cfg.smplRate))
  }

  ghost predicate Inv(cfg: Config, s: State) {
    && Shaped(cfg, s)
    && ThreadsInv(s)
    && PushingInv(s)
    && CallInv(s)
    && CountInv(cfg, s)
  }

  lemma {:induction false} InitEstablishesInv(cfg: Config, s: State)
    requires Init(cfg, s)
    ensures Inv(cfg, s)
  {
    forall k | 0 <= k < |s.rings|
      ensures ThreadInv(s.rings[k], s.senders[k], s.hands[k], SentTo(s.log, k))
    {
      Spsc.InitEstablishesInv(s.rings[k]);
    }
  }

  // One lemma for each action.

  lemma {:induction false} ReceiveKeepsInv(cfg: Config, s: State, r: Report)
    requires Inv(cfg, s) && Enabled(cfg, s, Receive(r))
    ensures Inv(cfg, Apply(cfg, s, Receive(r)))
  {
    hide IsSampled;
    var s' := Apply(cfg, s, Receive(r));
    forall k | 0 <= k < |s.rings|
      ensures |s.rings[k].pushed| - |s.rings[k].popped| < |s.rings[k].slots|
    {
      Spsc.ContentsArePending(s.rings[k]);
    }
  }

  lemma {:induction false} GiveUpKeepsInv(cfg: Config, s: State)
    requires Inv(cfg, s) && Enabled(cfg, s, GiveUp)
    ensures Inv(cfg, Apply(cfg, s, GiveUp))
  {
    hide IsSampled, ThreadInv, SentTo, Drops, LogReports, SampledReports, Turn, NextRing;
    var c := Call(s.rx.report, Dropped);
    LogSnoc(s.log, c, 0);
    forall k {
      LogSnoc(s.log, c, k);
    }
    SampledSnoc(s.arrived, s.rx.report, 0, cfg.smplRate);
  }

  lemma {:induction false} TryNextKeepsInv(cfg: Config, s: State)
    requires Inv(cfg, s) && Enabled(cfg, s, TryNext)
    ensures Inv(cfg, Apply(cfg, s, TryNext))
  {
    hide IsSampled, Spsc.Inv, Spsc.Apply, Spsc.Enabled, SentTo, Drops, NextRing, Senders.Concat;
    NextTurn(s);
    var k, begin := NextRing(s), Spsc.PushBegin(s.rx.report);
    assert ThreadInv(s.rings[k], s.senders[k], s.hands[k], SentTo(s.log, k));
    Spsc.StepKeepsInv(s.rings[k], begin);
    Spsc.BeginFrame(s.rings[k], s.rx.report);
  }

  lemma {:induction false} NextTurn(s: State)
    requires s.rings != [] && s.rrIndex < |s.rings|
    ensures NextRing(s) == if s.rrIndex + 1 == |s.rings| then 0 else s.rrIndex + 1
  {
    NextWraps(s.rrIndex, |s.rings|);
  }

  lemma {:induction false} ProduceKeepsInv(cfg: Config, s: State, push: Spsc.Action<Report>)
    requires Inv(cfg, s) && Enabled(cfg, s, Produce(push))
    ensures Inv(cfg, Apply(cfg, s, Produce(push)))
  {
    hide Apply, Enabled, ThreadsInv, PushingInv, CallInv, CountInv, Spsc.Apply, Spsc.Enabled, Spsc.CheckFails;
    ProduceEffect(cfg, s, push);
    ProduceKeepsThreads(cfg, s, push);
    ProduceKeepsCall(cfg, s, push);
    ProduceKeepsCount(cfg, s, push);
  }

  lemma {:induction false} ProduceKeepsCount(cfg: Config, s: State, push: Spsc.Action<Report>)
    requires Inv(cfg, s) && Enabled(cfg, s, Produce(push))
    ensures CountInv(cfg, Apply(cfg, s, Produce(push)))
  {
    hide Apply, Enabled, IsSampled, ThreadsInv, PushingInv, CallInv, Spsc.Apply, Spsc.Enabled, Spsc.CheckFails;
    hide SentTo, Drops;
    ProduceEffect(cfg, s, push);
    LogSnoc(s.log, Call(s.rx.report, PushedTo(s.rrIndex)), 0);
    SampledSnoc(s.arrived, s.rx.report, 0, cfg.smplRate);
  }

  /** One access of the receive thread touches one ring, and ends the call or the attempt. */
  lemma ProduceEffect(cfg: Config, s: State, push: Spsc.Action<Report>)
    requires Enabled(cfg, s, Produce(push))
    ensures Shaped(cfg, s) && s.rx.Offering? && s.rings != [] && IsPush(push) && Spsc.Enabled(s.rings[s.rrIndex], push)
    ensures var s', k := Apply(cfg, s, Produce(push)), s.rrIndex;
            && Shaped(cfg, s')
            && s'.rings == s.rings[k := Spsc.Apply(s.rings[k], push)]
            && s'.senders == s.senders && s'.hands == s.hands && s'.atCall == s.atCall
            && s'.rrIndex == k && s'.pktDrop == s.pktDrop
            && if push.PushStore? then s'.rx == Waiting && s'.arrived == s.arrived + [s.rx.report]
                                       && s'.log == s.log + [Call(s.rx.report, PushedTo(k))]
               else s'.arrived == s.arrived && s'.log == s.log
                    && s'.rx == if Spsc.CheckFails(s.rings[k], push)
                       then Sending(s.rx.report, s.rx.tried + 1, s.rx.from) else s.rx
  {
    hide Spsc.Apply, Spsc.Enabled, Spsc.CheckFails;
  }

  lemma {:induction false} ProduceKeepsThreads(cfg: Config, s: State, push: Spsc.Action<Report>)
    requires Inv(cfg, s) && Enabled(cfg, s, Produce(push))
    ensures ThreadsInv(Apply(cfg, s, Produce(push)))
  {
    hide Apply, Enabled, IsSampled, CallInv, CountInv, Spsc.Inv, Spsc.Apply, Spsc.Enabled, Spsc.CheckFails;
    hide Senders.Concat, SentTo, Drops;
    var k, s' := s.rrIndex, Apply(cfg, s, Produce(push));
    ProduceEffect(cfg, s, push);
    assert ThreadInv(s.rings[k], s.senders[k], s.hands[k], SentTo(s.log, k));
    Spsc.StepKeepsInv(s.rings[k], push);
    Spsc.PushFrame(s.rings[k], push);
    forall j | 0 <= j < |s.rings|
      ensures ThreadInv(s'.rings[j], s'.senders[j], s'.hands[j], SentTo(s'.log, j))
    {
      assert ThreadInv(s.rings[j], s.senders[j], s.hands[j], SentTo(s.log, j));
      LogSnoc(s.log, Call(s.rx.report, PushedTo(k)), j);
    }
  }

  lemma {:induction false} ProduceKeepsCall(cfg: Config, s: State, push: Spsc.Action<Report>)
    requires Inv(cfg, s) && Enabled(cfg, s, Produce(push))
    ensures var s' := Apply(cfg, s, Produce(push));
            Shaped(cfg, s') && PushingInv(s') && CallInv(s')
  {
    hide Apply, Enabled, IsSampled, CountInv, Spsc.Inv, Spsc.Apply, Spsc.Enabled, Spsc.CheckFails, SentTo;
    var k := s.rrIndex;
    ProduceEffect(cfg, s, push);
    assert ThreadInv(s.rings[k], s.senders[k], s.hands[k], SentTo(s.log, k));
    Spsc.PushFrame(s.rings[k], push);
    PushCheckVerdict(s.rings[k], push);
  }

  lemma {:induction false} PushCheckVerdict(ring: Ring, push: Spsc.Action<Report>)
    requires Spsc.Inv(ring) && Spsc.Enabled(ring, push)
    ensures Spsc.CheckFails(ring, push) ==> push.PushCheck? || push.PopCheck?
    ensures push.PushCheck? ==> (Spsc.CheckFails(ring, push) <==> |ring.pushed| - push.tailPos == |ring.slots| - 1)
  {
    if push.PushCheck? {
      Spsc.PushCheckOutcome(ring, push.tailPos);
    }
  }

  lemma {:induction false} ConsumeKeepsInv(cfg: Config, s: State, k: nat, pop: Spsc.Action<Report>)
    requires Inv(cfg, s) && Enabled(cfg, s, Consume(k, pop))
    ensures Inv(cfg, Apply(cfg, s, Consume(k, pop)))
  {
    hide ThreadInv, PushingInv, CallInv, CountInv, Apply, Enabled, SameForReceiver;
    var s' := Apply(cfg, s, Consume(k, pop));
    ConsumeEffect(cfg, s, k, pop);
    ConsumeKeepsThread(cfg, s, k, pop, s');
    ReceiverUnaffected(cfg, s, s');
    forall j | 0 <= j < |s'.rings|
      ensures ThreadInv(s'.rings[j], s'.senders[j], s'.hands[j], SentTo(s'.log, j))
    {}
  }

  lemma ConsumeEffect(cfg: Config, s: State, k: nat, pop: Spsc.Action<Report>)
    requires Enabled(cfg, s, Consume(k, pop))
    ensures var s' := Apply(cfg, s, Consume(k, pop));
            && Shaped(cfg, s') && k < |s.rings| == |s'.rings|
            && s' == s.(rings := s'.rings, senders := s'.senders, hands := s'.hands)
            && (forall j :: 0 <= j < |s.rings| && j != k ==>
                  s'.rings[j] == s.rings[j] && s'.senders[j] == s.senders[j] && s'.hands[j] == s.hands[j])
            && (forall j :: 0 <= j < |s.rings| ==> SameForReceiver(s.rings[j], s'.rings[j]))
  {
    hide Spsc.Apply, Spsc.Enabled, Spsc.CheckFails, Senders.OnEmpty;
    Spsc.PopFrame(s.rings[k], pop);
  }

  /** What the receive thread relies on in a ring. */
  ghost predicate SameForReceiver(r: Ring, r': Ring) {
    && r'.prod == r.prod && r'.seenTail == r.seenTail && r'.pushed == r.pushed
    && |r'.slots| == |r.slots| && |r.popped| <= |r'.popped|
  }

  lemma ReceiverUnaffected(cfg: Config, s: State, s': State)
    requires Shaped(cfg, s) && Shaped(cfg, s') && PushingInv(s) && CallInv(s) && CountInv(cfg, s)
    requires s'.rx == s.rx && s'.rrIndex == s.rrIndex && s'.atCall == s.atCall
    requires s'.arrived == s.arrived && s'.pktDrop == s.pktDrop && s'.log == s.log
    requires |s'.rings| == |s.rings| && forall k :: 0 <= k < |s.rings| ==> SameForReceiver(s.rings[k], s'.rings[k])
    ensures PushingInv(s') && CallInv(s') && CountInv(cfg, s')
  {
    hide IsSampled, Turn, SampledOf, Drops;
  }

  /** The ring and the sender the step is about. */
  lemma {:induction false} ConsumeKeepsThread(cfg: Config, s: State, k: nat, pop: Spsc.Action<Report>, s': State)
    requires Inv(cfg, s) && Enabled(cfg, s, Consume(k, pop)) && s' == Apply(cfg, s, Consume(k, pop))
    requires k < |s'.rings| == |s'.senders| == |s'.hands|
    ensures ThreadInv(s'.rings[k], s'.senders[k], s'.hands[k], SentTo(s'.log, k))
  {
    hide IsSampled, PushingInv, CallInv, CountInv, Spsc.Inv, Spsc.Apply, Spsc.Enabled, Spsc.CheckFails;
    hide Senders.OnEmpty, Senders.Concat, SentTo;
    assert ThreadInv(s.rings[k], s.senders[k], s.hands[k], SentTo(s.log, k));
    Spsc.StepKeepsInv(s.rings[k], pop);
    Spsc.PopFrame(s.rings[k], pop);
    Spsc.OnlyChecksFail(s.rings[k], pop);
    Senders.OnEmptyConserves(cfg.opt, s.senders[k], Senders.Concat(s.senders[k].sent) + s.senders[k].data);
  }

  lemma {:induction false} HandleKeepsInv(cfg: Config, s: State, k: nat)
    requires Inv(cfg, s) && Enabled(cfg, s, Handle(k)) && cfg.opt.hostValid
    ensures Inv(cfg, Apply(cfg, s, Handle(k)))
  {
    hide IsSampled, Spsc.Inv;
    var before := Senders.Concat(s.senders[k].sent) + s.senders[k].data;
    Senders.OnReportConserves(cfg.opt, s.senders[k], s.hands[k].value, before);
  }

  // ---------------------------------------------------------------------------
  // Runs
  // ---------------------------------------------------------------------------

  lemma {:induction false} StepKeepsInv(cfg: Config, s: State, a: Action)
    requires Inv(cfg, s) && Enabled(cfg, s, a) && cfg.opt.hostValid
    ensures Inv(cfg, Apply(cfg, s, a))
  {
    hide Inv, Enabled, Apply;
    match a
    case Receive(r) => ReceiveKeepsInv(cfg, s, r);
    case TryNext => TryNextKeepsInv(cfg, s);
    case GiveUp => GiveUpKeepsInv(cfg, s);
    case Produce(push) => ProduceKeepsInv(cfg, s, push);
    case Consume(k, pop) => ConsumeKeepsInv(cfg, s, k, pop);
    case Handle(k) => HandleKeepsInv(cfg, s, k);
  }

  predicate IsRun(cfg: Config, s: State, actions: seq<Action>)
    decreases |actions|
  {
    actions == [] || (Enabled(cfg, s, actions[0]) && IsRun(cfg, Apply(cfg, s, actions[0]), actions[1..]))
  }

  function After(cfg: Config, s: State, actions: seq<Action>): State
    requires IsRun(cfg, s, actions)
    decreases |actions|
  {
    if actions == [] then s else After(cfg, Apply(cfg, s, actions[0]), actions[1..])
  }

  lemma {:induction false} RunKeepsInv(cfg: Config, s: State, actions: seq<Action>)
    requires Inv(cfg, s) && IsRun(cfg, s, actions) && cfg.opt.hostValid
    ensures Inv(cfg, After(cfg, s, actions))
    decreases |actions|
  {
    if actions != [] {
      hide Inv, Enabled, Apply;
      StepKeepsInv(cfg, s, actions[0]);
      RunKeepsInv(cfg, Apply(cfg, s, actions[0]), actions[1..]);
    }
  }

  /** What is still in a sender's hands: sent, in the batch, or just popped. */
  function Taken(s: State, k: nat): seq<Report>
    requires k < |s.senders| && k < |s.hands|
  {
    Senders.Concat(s.senders[k].sent) + s.senders[k].data + if s.hands[k].Some? then [s.hands[k].value] else []
  }

  /** A ring's whole history: what its sender took, then what the memory still holds. */
  predicate RingAccounted(s: State, k: nat)
    requires k < |s.senders| && k < |s.hands| && k < |s.rings|
  {
    Spsc.WellShaped(s.rings[k]) && SentTo(s.log, k) == Taken(s, k) + Spsc.Contents(s.rings[k])
  }

  lemma {:induction false} RingsAccounted(s: State, k: nat)
    requires |s.senders| == |s.hands| == |s.rings| && k < |s.rings|
    requires ThreadInv(s.rings[k], s.senders[k], s.hands[k], SentTo(s.log, k))
    ensures RingAccounted(s, k)
  {
    Spsc.InvWellShaped(s.rings[k]);
    Spsc.ContentsArePending(s.rings[k]);
    hide Spsc.Inv, Spsc.Contents, SentTo;
    assert s.rings[k].pushed == s.rings[k].popped + s.rings[k].pushed[|s.rings[k].popped|..];
  }

  /**
   Conservation over any run.  Each ring's reports are, in order, those its sender has sent,
   those in its batch, the one just popped, and those still in the ring.  The calls made were
   for the sampled reports, in order; and all the reports pushed, with those dropped, are as
   many as the packets sampled: one in `smplRate`, rounded up.
   */
  lemma {:induction false} NothingLost(cfg: Config, start: State, actions: seq<Action>)
    requires Init(cfg, start) && IsRun(cfg, start, actions) && cfg.opt.hostValid
    ensures var s := After(cfg, start, actions);
            var n := |s.arrived|;
            && Shaped(cfg, s)
            && (forall k :: 0 <= k < |s.rings| ==> RingAccounted(s, k))
            && LogReports(s.log) == SampledReports(s.arrived, 0, cfg.smplRate)
            && TotalPushed(s.log, |s.rings|) + s.pktDrop == SampledOf(n, cfg.smplRate)
            && (n <= TWO64 ==> SampledOf(n, cfg.smplRate) == (n + cfg.smplRate - 1) / cfg.smplRate)
  {
    hide Init, IsRun, After, SampledOf, ThreadInv, RingAccounted, PushingInv, CallInv, IsSampled, SentTo, TotalPushed;
    hide LogReports, SampledReports;
    InitEstablishesInv(cfg, start);
    RunKeepsInv(cfg, start, actions);
    var s := After(cfg, start, actions);
    forall k | 0 <= k < |s.rings|
      ensures RingAccounted(s, k)
    {
      RingsAccounted(s, k);
    }
    CallsBalance(s.log, |s.rings|);
    LogReportsLength(s.log);
    SampledCount(s.arrived, cfg.smplRate);
    if |s.arrived| <= TWO64 {
      SampledIsCeiling(|s.arrived|, cfg.smplRate);
    }
  }
}
