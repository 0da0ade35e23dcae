/**
 What a failing `sendData` says about the rings, with consumers popping throughout, and how
 that depends on how fresh the receive thread's loads are.
 */
module Refusals {
  import opened Bytes
  import opened Options
  import opened Modular
  import Telemetry
  import opened Calls
  import opened Pipeline
  import Spsc
  import Senders

  type Report = Telemetry.Report

  /** Does a ring hold all it can? */
  predicate Full(ring: Ring) {
    Spsc.WellShaped(ring) && |Spsc.Contents(ring)| == |ring.slots| - 1
  }

  predicate NoReceive(actions: seq<Action>) {
    forall i :: 0 <= i < |actions| ==> !actions[i].Receive?
  }

  /** A load of a consumer's index that shows every pop made before the call. */
  predicate IsFreshLoad(s: State, a: Action) {
    a.Produce? && a.push.PushCheck? && s.rrIndex < |s.atCall| ==> s.atCall[s.rrIndex].popped <= a.push.tailPos
  }

  predicate FreshLoads(cfg: Config, s: State, actions: seq<Action>)
    requires IsRun(cfg, s, actions)
    decreases |actions|
  {
    actions == [] || (IsFreshLoad(s, actions[0]) && FreshLoads(cfg, Apply(cfg, s, actions[0]), actions[1..]))
  }

  /** Loads that return the newest index, as all do under sequential consistency. */
  predicate NewestLoads(cfg: Config, s: State, actions: seq<Action>)
    requires IsRun(cfg, s, actions)
    decreases |actions|
  {
    actions == [] ||
    (&& (actions[0].Produce? && actions[0].push.PushCheck? ==>
           s.rrIndex < |s.rings| && actions[0].push.tailPos == |s.rings[s.rrIndex].tails| - 1)
     && NewestLoads(cfg, Apply(cfg, s, actions[0]), actions[1..]))
  }

  // ---------------------------------------------------------------------------
  // Fresh loads through a call
  // ---------------------------------------------------------------------------

  /** Each ring tried so far has been seen as it was when the call began, or later. */
  ghost predicate SeenSinceCall(s: State)
    requires |s.atCall| == |s.rings| && (s.rings != [] ==> s.rrIndex < |s.rings|)
  {
    !s.rx.Waiting? && s.rings != [] ==>
      && s.rx.from < |s.rings|
      && forall k :: 0 <= k < |s.rings| && Turn(s.rx.from, k, |s.rings|) <= s.rx.tried ==>
           s.atCall[k].popped <= s.rings[k].seenTail
  }

  lemma {:induction false} StepKeepsSeen(cfg: Config, s: State, a: Action)
    requires Inv(cfg, s) && Enabled(cfg, s, a) && SeenSinceCall(s) && IsFreshLoad(s, a)
    ensures Shaped(cfg, Apply(cfg, s, a)) && SeenSinceCall(Apply(cfg, s, a))
  {
    hide ThreadsInv, PushingInv, CountInv, Spsc.Apply, Spsc.Enabled, Spsc.CheckFails;
    match a
    case Receive(_) =>
    case TryNext =>
      Spsc.BeginFrame(s.rings[NextRing(s)], s.rx.report);
    case GiveUp =>
    case Produce(push) =>
      hide Apply, Enabled;
      ProduceEffect(cfg, s, push);
      Spsc.PushFrame(s.rings[s.rrIndex], push);
      Spsc.OnlyChecksFail(s.rings[s.rrIndex], push);
    case Consume(k, pop) =>
      hide Apply, Enabled;
      ConsumeEffect(cfg, s, k, pop);
    case Handle(_) =>
  }

  lemma {:induction false} RunKeepsSeen(cfg: Config, s: State, actions: seq<Action>)
    requires Inv(cfg, s) && IsRun(cfg, s, actions) && cfg.opt.hostValid
    requires SeenSinceCall(s) && FreshLoads(cfg, s, actions)
    ensures Inv(cfg, After(cfg, s, actions)) && SeenSinceCall(After(cfg, s, actions))
    decreases |actions|
  {
    hide ThreadsInv, PushingInv, CallInv, CountInv, SeenSinceCall, Enabled, Apply, IsFreshLoad;
    if actions != [] {
      StepKeepsSeen(cfg, s, actions[0]);
      StepKeepsInv(cfg, s, actions[0]);
      RunKeepsSeen(cfg, Apply(cfg, s, actions[0]), actions[1..]);
    }
  }

  /** Until the next packet is received, a call's snapshot stays what it was at its beginning. */
  lemma {:induction false} SnapshotKept(cfg: Config, s: State, actions: seq<Action>)
    requires IsRun(cfg, s, actions) && NoReceive(actions)
    ensures var s' := After(cfg, s, actions);
            && s'.atCall == s.atCall
            && (!s'.rx.Waiting? ==> !s.rx.Waiting? && s'.rx.from == s.rx.from)
    decreases |actions|
  {
    if actions != [] {
      var s' := Apply(cfg, s, actions[0]);
      assert NoReceive(actions[1..]);
      SnapshotKept(cfg, s', actions[1..]);
      hide IsRun, After, NoReceive, Spsc.Apply, Spsc.Enabled, Spsc.CheckFails;
      assert !actions[0].Receive?;
    }
  }

  lemma {:induction false} SplitRun(cfg: Config, s: State, a: seq<Action>, b: seq<Action>)
    requires IsRun(cfg, s, a + b)
    ensures IsRun(cfg, s, a) && IsRun(cfg, After(cfg, s, a), b)
    ensures After(cfg, s, a + b) == After(cfg, After(cfg, s, a), b)
    decreases |a|
  {
    if a == [] {
      assert a + b == b;
    } else {
      assert (a + b)[1..] == a[1..] + b;
      hide Enabled, Apply;
      SplitRun(cfg, Apply(cfg, s, a[0]), a[1..], b);
    }
  }

  lemma {:induction false} FullExactly(ring: Ring)
    requires Spsc.Inv(ring)
    ensures Full(ring) <==> |ring.pushed| - |ring.popped| == |ring.slots| - 1
  {
    Spsc.InvWellShaped(ring);
    Spsc.ContentsArePending(ring);
    hide Spsc.Inv, Spsc.Contents;
  }

  /** Where a call begins: one packet received, and the receive thread at rest before it. */
  lemma {:induction false} CallBegins(cfg: Config, s: State, r: Report)
    requires Inv(cfg, s) && Enabled(cfg, s, Receive(r))
    ensures var s' := Apply(cfg, s, Receive(r));
            && Shaped(cfg, s') && SeenSinceCall(s')
            && (!s'.rx.Waiting? ==>
                  && s'.rx.from == s.rrIndex && |s'.atCall| == |s.rings|
                  && forall k :: 0 <= k < |s.rings| ==>
                       s'.atCall[k] == History(s.rings[k].pushed, |s.rings[k].popped|, |s.rings[k].slots|))
  {
    hide ThreadsInv, PushingInv, CallInv, CountInv;
  }

  /** Ring `k` as a failing call leaves it, compared with what it was when the call began. */
  predicate RefusedAs(was: Ring, ring: Ring) {
    && ring.pushed == was.pushed
    && (Full(was) <==> |was.popped| <= ring.seenTail)
  }

  /**
   When `sendData` has given up, the round-robin index is back where it was, and nothing has
   been pushed to any ring since the call began.  A ring was full at that moment if and only if
   the load that refused it showed every pop made by then.  So if every load of the call was
   that fresh, as under sequential consistency, all rings were full when it began, however
   much has been popped since.
   */
  lemma {:induction false} RefusalMeansFull(cfg: Config, start: State, before: seq<Action>, r: Report,
          during: seq<Action>)
    requires Init(cfg, start) && cfg.opt.hostValid && NoReceive(during)
    requires IsRun(cfg, start, before) && Enabled(cfg, After(cfg, start, before), Receive(r))
    requires var called := Apply(cfg, After(cfg, start, before), Receive(r));
             IsRun(cfg, called, during) && Enabled(cfg, After(cfg, called, during), GiveUp)
    ensures var begin := After(cfg, start, before);
            var called := Apply(cfg, begin, Receive(r));
            var s := Apply(cfg, After(cfg, called, during), GiveUp);
            && |s.rings| == |begin.rings|
            && s.rrIndex == begin.rrIndex
            && (forall k :: 0 <= k < |s.rings| ==> RefusedAs(begin.rings[k], s.rings[k]))
            && (FreshLoads(cfg, called, during) || NewestLoads(cfg, called, during) ==>
                  forall k :: 0 <= k < |s.rings| ==> Full(begin.rings[k]))
  {
    hide Init, IsRun, After, PushingInv, CountInv, FreshLoads, NewestLoads, Full, Enabled, Apply, SeenSinceCall;
    InitEstablishesInv(cfg, start);
    RunKeepsInv(cfg, start, before);
    var begin := After(cfg, start, before);
    var called := Apply(cfg, begin, Receive(r));
    StepKeepsInv(cfg, begin, Receive(r));
    RunKeepsInv(cfg, called, during);
    var s := After(cfg, called, during);
    CallBegins(cfg, begin, r);
    SnapshotKept(cfg, called, during);
    GaveUp(cfg, s);
    forall k | 0 <= k < |s.rings|
      ensures RefusedAs(begin.rings[k], s.rings[k])
    {
      assert ThreadInv(begin.rings[k], begin.senders[k], begin.hands[k], SentTo(begin.log, k));
      FullExactly(begin.rings[k]);
    }
    if NewestLoads(cfg, called, during) {
      NewestLoadsAreFresh(cfg, called, during);
    }
    if FreshLoads(cfg, called, during) {
      RunKeepsSeen(cfg, called, during);
      SeenAll(s);
    }
  }

  /** What the invariant says of a call about to give up. */
  lemma GaveUp(cfg: Config, s: State)
    requires Inv(cfg, s) && Enabled(cfg, s, GiveUp)
    ensures Shaped(cfg, s) && s.rx.Sending? && s.rx.tried == |s.rings| && s.rrIndex == s.rx.from
    ensures Apply(cfg, s, GiveUp).rings == s.rings && Apply(cfg, s, GiveUp).rrIndex == s.rrIndex
    ensures forall k :: 0 <= k < |s.rings| ==>
              && s.rings[k].pushed == s.atCall[k].pushed && |s.rings[k].slots| == s.atCall[k].size
              && |s.rings[k].pushed| - s.rings[k].seenTail == |s.rings[k].slots| - 1
              && |s.rings[k].pushed| - s.atCall[k].popped < |s.rings[k].slots|
  {
    hide ThreadsInv, PushingInv, CountInv;
    assert CallInv(s);
    assert forall k :: 0 <= k < |s.rings| ==> LooksFull(s.rings[k]);
  }

  lemma SeenAll(s: State)
    requires |s.atCall| == |s.rings| && (s.rings != [] ==> s.rrIndex < |s.rings|)
    requires SeenSinceCall(s) && s.rx.Sending? && s.rx.tried == |s.rings|
    ensures forall k :: 0 <= k < |s.rings| ==> s.atCall[k].popped <= s.rings[k].seenTail
  {}

  lemma {:induction false} NewestIsFresh(cfg: Config, s: State, a: Action)
    requires Inv(cfg, s) && Enabled(cfg, s, a)
    requires a.Produce? && a.push.PushCheck? ==>
               s.rrIndex < |s.rings| && a.push.tailPos == |s.rings[s.rrIndex].tails| - 1
    ensures IsFreshLoad(s, a)
  {
    hide PushingInv, CountInv, Spsc.Enabled, Spsc.Apply;
    if a.Produce? && a.push.PushCheck? && s.rrIndex < |s.atCall| {
      var k := s.rrIndex;
      assert ThreadInv(s.rings[k], s.senders[k], s.hands[k], SentTo(s.log, k));
      assert Spsc.IndexLog(s.rings[k].tails, |s.rings[k].popped|, |s.rings[k].slots|);
    }
  }

  /** Under sequential consistency every load is fresh, and so a failing call means full rings. */
  lemma {:induction false} NewestLoadsAreFresh(cfg: Config, s: State, actions: seq<Action>)
    requires Inv(cfg, s) && IsRun(cfg, s, actions) && cfg.opt.hostValid && NewestLoads(cfg, s, actions)
    ensures FreshLoads(cfg, s, actions)
    decreases |actions|
  {
    hide Inv, Enabled, Apply, IsFreshLoad;
    if actions != [] {
      NewestIsFresh(cfg, s, actions[0]);
      StepKeepsInv(cfg, s, actions[0]);
      NewestLoadsAreFresh(cfg, Apply(cfg, s, actions[0]), actions[1..]);
    }
  }

  // ---------------------------------------------------------------------------
  // Stale loads: a call that fails on a ring with room
  // ---------------------------------------------------------------------------

  lemma {:induction false} Step(cfg: Config, start: State, before: seq<Action>, a: Action) returns (s': State)
    requires IsRun(cfg, start, before) && cfg.opt.hostValid
    requires Inv(cfg, After(cfg, start, before)) && Enabled(cfg, After(cfg, start, before), a)
    ensures IsRun(cfg, start, before + [a]) && After(cfg, start, before + [a]) == s'
    ensures s' == Apply(cfg, After(cfg, start, before), a) && Inv(cfg, s')
  {
    hide Inv, Enabled, Apply;
    StepAfter(cfg, start, before, a);
    StepKeepsInv(cfg, After(cfg, start, before), a);
    s' := Apply(cfg, After(cfg, start, before), a);
  }

  lemma {:induction false} StepAfter(cfg: Config, s: State, before: seq<Action>, a: Action)
    requires IsRun(cfg, s, before) && Enabled(cfg, After(cfg, s, before), a)
    ensures IsRun(cfg, s, before + [a])
    ensures After(cfg, s, before + [a]) == Apply(cfg, After(cfg, s, before), a)
    decreases |before|
  {
    if before == [] {
      assert (before + [a])[1..] == [];
    } else {
      StepAfter(cfg, Apply(cfg, s, before[0]), before[1..], a);
      assert (before + [a])[1..] == before[1..] + [a];
    }
  }

  /** One ring, one sender, every packet sampled. */
  predicate OneRing(cfg: Config, s: State, size: nat) {
    && cfg.smplRate == 1 && cfg.opt.hostValid
    && |s.rings| == |s.senders| == |s.hands| == |s.atCall| == 1 && s.rrIndex == 0
    && |s.rings[0].slots| == size
  }

  /** The ring at rest between two packets, and how much it has seen pushed, popped and shown. */
  predicate AtRest(s: State, pushed: nat, popped: nat, seenTail: nat) {
    && |s.rings| == 1 && |s.hands| == 1
    && s.rx.Waiting? && s.hands[0].None? && s.rings[0].prod.PIdle? && s.rings[0].cons.CIdle?
    && |s.rings[0].pushed| == pushed && |s.rings[0].popped| == popped && s.rings[0].seenTail == seenTail
  }

  lemma RingInv(cfg: Config, s: State)
    requires Inv(cfg, s) && |s.rings| == 1
    ensures Spsc.Inv(s.rings[0]) && Spsc.WellShaped(s.rings[0])
    ensures |s.rings[0].tails| == |s.rings[0].popped| + 1 && |s.rings[0].heads| == |s.rings[0].pushed| + 1
    ensures s.rings[0].seenTail <= |s.rings[0].popped| <= s.rings[0].seenHead <= |s.rings[0].pushed|
  {
    assert ThreadInv(s.rings[0], s.senders[0], s.hands[0], SentTo(s.log, 0));
  }

  lemma ReceiveOne(cfg: Config, s: State, r: Report, size: nat, pushed: nat, popped: nat)
    requires Inv(cfg, s) && OneRing(cfg, s, size) && AtRest(s, pushed, popped, 0)
    ensures Enabled(cfg, s, Receive(r))
    ensures var s' := Apply(cfg, s, Receive(r));
            s' == s.(rx := Sending(r, 0, 0), atCall := s'.atCall) && |s'.atCall| == 1 && OneRing(cfg, s', size)
  {
    hide ThreadsInv, PushingInv, CallInv, CountInv;
  }

  lemma TryOne(cfg: Config, s: State, r: Report, size: nat)
    requires Inv(cfg, s) && OneRing(cfg, s, size) && s.rx == Sending(r, 0, 0) && s.rings[0].prod.PIdle?
    ensures Enabled(cfg, s, TryNext)
    ensures var s', ring := Apply(cfg, s, TryNext), s.rings[0];
            && OneRing(cfg, s', size) && s'.hands == s.hands && s'.rx == Offering(r, 0, 0)
            && Spsc.Enabled(ring, Spsc.PushBegin(r)) && s'.rings[0] == Spsc.Apply(ring, Spsc.PushBegin(r))
  {
    RingInv(cfg, s);
    NextTurn(s);
    hide ThreadsInv, PushingInv, CallInv, CountInv, NextRing;
  }

  lemma CheckOne(cfg: Config, s: State, r: Report, size: nat)
    requires Inv(cfg, s) && OneRing(cfg, s, size) && s.rx == Offering(r, 0, 0)
    requires s.rings[0].prod.PLoaded? && s.rings[0].prod.value == r && s.rings[0].seenTail == 0
    ensures Enabled(cfg, s, Produce(Spsc.PushCheck(0)))
    ensures var s', ring := Apply(cfg, s, Produce(Spsc.PushCheck(0))), s.rings[0];
            && OneRing(cfg, s', size) && s'.hands == s.hands
            && Spsc.Enabled(ring, Spsc.PushCheck(0)) && s'.rings[0] == Spsc.Apply(ring, Spsc.PushCheck(0))
            && (|ring.pushed| == size - 1 ==> s'.rx == Sending(r, 1, 0))
            && (|ring.pushed| != size - 1 ==> s'.rx == s.rx && s'.rings[0].prod == Spsc.PRoom(r, ring.prod.head))
  {
    RingInv(cfg, s);
    PushCheckVerdict(s.rings[0], Spsc.PushCheck(0));
    hide ThreadsInv, PushingInv, CallInv, CountInv, NextRing;
  }

  const CALL: seq<Action> := [TryNext, Produce(Spsc.PushCheck(0))]

  /** A packet arrives, and the ring is looked at as it was at the very beginning. */
  lemma {:induction false} Offer(cfg: Config, start: State, before: seq<Action>, r: Report, size: nat, pushed: nat,
          popped: nat)
    returns (s: State)
    requires IsRun(cfg, start, before) && Inv(cfg, After(cfg, start, before))
    requires OneRing(cfg, After(cfg, start, before), size) && AtRest(After(cfg, start, before), pushed, popped, 0)
    ensures IsRun(cfg, start, before + ([Receive(r)] + CALL)) && s == After(cfg, start, before + ([Receive(r)] + CALL))
    ensures Inv(cfg, s) && OneRing(cfg, s, size) && s.hands == [None]
    ensures var ring := s.rings[0];
            && |ring.pushed| == pushed && |ring.popped| == popped && ring.seenTail == 0 && ring.cons.CIdle?
            && (pushed == size - 1 ==> s.rx == Sending(r, 1, 0))
            && (pushed != size - 1 ==> s.rx == Offering(r, 0, 0) && ring.prod.PRoom? && ring.prod.value == r)
  {
    hide Inv, IsRun, After, Enabled, Apply;
    ReceiveOne(cfg, After(cfg, start, before), r, size, pushed, popped);
    var s1 := Step(cfg, start, before, Receive(r));
    TryOne(cfg, s1, r, size);
    var s2 := Step(cfg, start, before + [Receive(r)], TryNext);
    CheckOne(cfg, s2, r, size);
    s := Step(cfg, start, before + [Receive(r)] + [TryNext], Produce(Spsc.PushCheck(0)));
    assert before + [Receive(r)] + [TryNext] + [Produce(Spsc.PushCheck(0))] == before + ([Receive(r)] + CALL);
  }

  const STORE: seq<Action> := [Produce(Spsc.PushWrite), Produce(Spsc.PushStore)]

  /** A push that saw room is completed. */
  lemma {:induction false} Store(cfg: Config, start: State, before: seq<Action>, r: Report, size: nat)
    returns (s: State)
    requires IsRun(cfg, start, before) && Inv(cfg, After(cfg, start, before))
    requires var s0 := After(cfg, start, before);
             && OneRing(cfg, s0, size) && s0.hands == [None] && s0.rx == Offering(r, 0, 0)
             && s0.rings[0].prod.PRoom? && s0.rings[0].prod.value == r && s0.rings[0].cons.CIdle?
    ensures IsRun(cfg, start, before + STORE) && s == After(cfg, start, before + STORE)
    ensures Inv(cfg, s) && OneRing(cfg, s, size)
    ensures var ring := After(cfg, start, before).rings[0];
            AtRest(s, |ring.pushed| + 1, |ring.popped|, ring.seenTail)
  {
    hide Inv, IsRun, After;
    RingInv(cfg, After(cfg, start, before));
    var s1 := Step(cfg, start, before, Produce(Spsc.PushWrite));
    RingInv(cfg, s1);
    s := Step(cfg, start, before + [Produce(Spsc.PushWrite)], Produce(Spsc.PushStore));
    assert before + [Produce(Spsc.PushWrite)] + [Produce(Spsc.PushStore)] == before + STORE;
  }

  /** The sender pops the only report in the ring and deals with it. */
  const TAKE: seq<Action> := [Consume(0, Spsc.PopBegin), Consume(0, Spsc.PopCheck(1)), Consume(0, Spsc.PopRead),
                              Consume(0, Spsc.PopStore), Handle(0)]

  lemma {:induction false} Take(cfg: Config, start: State, before: seq<Action>, size: nat, seenTail: nat)
    returns (s: State)
    requires IsRun(cfg, start, before) && Inv(cfg, After(cfg, start, before))
    requires OneRing(cfg, After(cfg, start, before), size) && AtRest(After(cfg, start, before), 1, 0, seenTail)
    ensures IsRun(cfg, start, before + TAKE) && s == After(cfg, start, before + TAKE)
    ensures Inv(cfg, s) && OneRing(cfg, s, size) && AtRest(s, 1, 1, seenTail)
  {
    hide Inv, IsRun, After;
    var a, b := [Consume(0, Spsc.PopBegin)], [Consume(0, Spsc.PopCheck(1))];
    var c, d := [Consume(0, Spsc.PopRead)], [Consume(0, Spsc.PopStore)];
    RingInv(cfg, After(cfg, start, before));
    var s1 := Step(cfg, start, before, Consume(0, Spsc.PopBegin));
    RingInv(cfg, s1);
    Spsc.PopCheckOutcome(s1.rings[0], 1);
    var s2 := Step(cfg, start, before + a, Consume(0, Spsc.PopCheck(1)));
    RingInv(cfg, s2);
    var s3 := Step(cfg, start, before + a + b, Consume(0, Spsc.PopRead));
    RingInv(cfg, s3);
    var s4 := Step(cfg, start, before + a + b + c, Consume(0, Spsc.PopStore));
    s := Step(cfg, start, before + a + b + c + d, Handle(0));
    assert before + a + b + c + d + [Handle(0)] == before + TAKE;
  }

  /** Two packets pushed, the first of them popped, the receive thread having seen no pop. */
  function BeforeStaleCall(r1: Report, r2: Report): seq<Action> {
    ([Receive(r1)] + CALL) + STORE + TAKE + ([Receive(r2)] + CALL) + STORE
  }

  /**
   With loads that stay stale a call fails although its ring has room from its beginning to its
   end: one ring of three slots, holding one report out of two.
   */
  lemma {:induction false} StaleCallFailsWithRoom(cfg: Config, start: State, r1: Report, r2: Report, r3: Report)
    requires Init(cfg, start) && OneRing(cfg, start, 3)
    ensures var before := BeforeStaleCall(r1, r2);
            && IsRun(cfg, start, before) && Enabled(cfg, After(cfg, start, before), Receive(r3))
            && var begin := After(cfg, start, before);
               var called := Apply(cfg, begin, Receive(r3));
               && IsRun(cfg, called, CALL) && Enabled(cfg, After(cfg, called, CALL), GiveUp)
               && !Full(begin.rings[0]) && |After(cfg, called, CALL).rings| == 1
                  && !Full(After(cfg, called, CALL).rings[0])
  {
    hide Inv, IsRun, After, Apply, Enabled, Full, BeforeStaleCall;
    InitEstablishesInv(cfg, start);
    NothingYet(cfg, start);
    var s5 := RunStale(cfg, start, r1, r2);
    var s6 := Offer(cfg, start, BeforeStaleCall(r1, r2), r3, 3, 2, 1);
    SplitRun(cfg, start, BeforeStaleCall(r1, r2), [Receive(r3)] + CALL);
    FirstOf(cfg, s5, Receive(r3), CALL);
    RingInv(cfg, s5);
    RingInv(cfg, s6);
    FullExactly(s5.rings[0]);
    FullExactly(s6.rings[0]);
    GiveUpOne(cfg, s6, r3);
  }

  lemma {:induction false} RunStale(cfg: Config, start: State, r1: Report, r2: Report) returns (s: State)
    requires Inv(cfg, start) && OneRing(cfg, start, 3) && AtRest(start, 0, 0, 0)
    ensures IsRun(cfg, start, BeforeStaleCall(r1, r2)) && s == After(cfg, start, BeforeStaleCall(r1, r2))
    ensures Inv(cfg, s) && OneRing(cfg, s, 3) && AtRest(s, 2, 1, 0)
  {
    hide Inv, IsRun, After, Apply, Enabled;
    var a, b := [Receive(r1)] + CALL, [Receive(r2)] + CALL;
    NoActions(cfg, start);
    var s1 := Offer(cfg, start, [], r1, 3, 0, 0);
    assert [] + a == a;
    var s2 := Store(cfg, start, a, r1, 3);
    var s3 := Take(cfg, start, a + STORE, 3, 0);
    var s4 := Offer(cfg, start, a + STORE + TAKE, r2, 3, 1, 1);
    s := Store(cfg, start, a + STORE + TAKE + b, r2, 3);
  }

  lemma NoActions(cfg: Config, s: State)
    ensures IsRun(cfg, s, []) && After(cfg, s, []) == s
  {}

  lemma NothingYet(cfg: Config, s: State)
    requires Init(cfg, s) && |s.rings| == 1
    ensures AtRest(s, 0, 0, 0)
  {}

  lemma FirstOf(cfg: Config, s: State, a: Action, rest: seq<Action>)
    requires IsRun(cfg, s, [a] + rest)
    ensures Enabled(cfg, s, a) && IsRun(cfg, Apply(cfg, s, a), rest)
    ensures After(cfg, s, [a] + rest) == After(cfg, Apply(cfg, s, a), rest)
  {
    hide Enabled, Apply;
    assert ([a] + rest)[1..] == rest;
  }

  lemma GiveUpOne(cfg: Config, s: State, r: Report)
    requires Inv(cfg, s) && |s.rings| == 1 && s.rx == Sending(r, 1, 0)
    ensures Enabled(cfg, s, GiveUp)
  {}
}
