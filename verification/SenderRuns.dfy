/**
 What each sender thread sees of a run of the whole collector.  Its variables are those that the
 polls it made lead to, so every theorem about a sender's polls holds inside every run.
 */
module SenderRuns {
  import opened Bytes
  import opened Options
  import opened Calls
  import opened Pipeline
  import Telemetry
  import Spsc
  import Senders

  type Report = Telemetry.Report

  /** The poll of thread `k` that an action completes, if it does. */
  function PollOf(cfg: Config, s: State, a: Action, k: nat): seq<Senders.Poll>
    requires Enabled(cfg, s, a)
  {
    match a
    case Consume(thread, pop) =>
      if thread == k && Spsc.CheckFails(s.rings[k], pop) then [Senders.Empty] else []
    case Handle(thread) => if thread == k then [Senders.Got(s.hands[k].value)] else []
    case _ => []
  }

  /** All polls of thread `k` that a run completes, in order. */
  function PollsOf(cfg: Config, s: State, actions: seq<Action>, k: nat): seq<Senders.Poll>
    requires IsRun(cfg, s, actions)
    decreases |actions|
  {
    if actions == [] then [] else
    PollOf(cfg, s, actions[0], k) + PollsOf(cfg, Apply(cfg, s, actions[0]), actions[1..], k)
  }

  lemma {:induction false} StepRefines(cfg: Config, s: State, a: Action, k: nat)
    requires Enabled(cfg, s, a) && k < |s.senders|
    ensures |Apply(cfg, s, a).senders| == |s.senders|
    ensures Apply(cfg, s, a).senders[k] == Senders.After(cfg.opt, s.senders[k], PollOf(cfg, s, a, k))
  {
    hide Spsc.Apply, Spsc.Enabled, Spsc.CheckFails, Senders.OnEmpty, Senders.OnReport;
    OnePoll(cfg.opt, s.senders[k]);
    if a.Handle? && a.thread == k {
      OneReport(cfg.opt, s.senders[k], s.hands[k].value);
    }
    if a.Consume? && a.thread == k {
      Spsc.OnlyChecksFail(s.rings[k], a.pop);
    }
  }

  lemma OnePoll(opt: Senders.Options, sender: Senders.Sender)
    ensures Senders.After(opt, sender, []) == sender
    ensures Senders.After(opt, sender, [Senders.Empty]) == Senders.OnEmpty(opt, sender)
  {
    hide Senders.OnEmpty;
    assert [Senders.Empty][..0] == [];
  }

  lemma OneReport(opt: Senders.Options, sender: Senders.Sender, r: Report)
    ensures Senders.After(opt, sender, [Senders.Got(r)]) == Senders.OnReport(opt, sender, r)
  {
    hide Senders.OnReport;
    assert [Senders.Got(r)][..0] == [];
  }

  lemma {:induction false} PollsThen(opt: Senders.Options, sender: Senders.Sender, a: seq<Senders.Poll>,
                                     b: seq<Senders.Poll>)
    ensures Senders.After(opt, Senders.After(opt, sender, a), b) == Senders.After(opt, sender, a + b)
    decreases |b|
  {
    if b == [] {
      assert a + b == a;
    } else {
      var front := b[..|b| - 1];
      PollsThen(opt, sender, a, front);
      assert (a + b)[..|a + b| - 1] == a + front;
    }
  }

  /** Refinement: thread `k` of the collector is the sender its polls make. */
  lemma {:induction false} RunRefinesSender(cfg: Config, s: State, actions: seq<Action>, k: nat)
    requires IsRun(cfg, s, actions) && k < |s.senders|
    ensures |After(cfg, s, actions).senders| == |s.senders|
    ensures After(cfg, s, actions).senders[k] == Senders.After(cfg.opt, s.senders[k], PollsOf(cfg, s, actions, k))
    decreases |actions|
  {
    hide Apply, Enabled, Senders.After, PollOf;
    if actions == [] {
      OnePoll(cfg.opt, s.senders[k]);
    } else {
      StepRefines(cfg, s, actions[0], k);
      RunRefinesSender(cfg, Apply(cfg, s, actions[0]), actions[1..], k);
      PollsThen(cfg.opt, s.senders[k], PollOf(cfg, s, actions[0], k),
                PollsOf(cfg, Apply(cfg, s, actions[0]), actions[1..], k));
    }
  }

  // ---------------------------------------------------------------------------
  // What is polled was received
  // ---------------------------------------------------------------------------

  /** Every report received in a run has at most `lines` lines. */
  predicate AllShort(actions: seq<Action>, lines: nat) {
    forall i :: 0 <= i < |actions| && actions[i].Receive? ==> Senders.Lines(actions[i].report) <= lines
  }

  /** Every report polled is. */
  predicate ShortPolls(polls: seq<Senders.Poll>, lines: nat) {
    forall i :: 0 <= i < |polls| && polls[i].Got? ==> Senders.Lines(polls[i].report) <= lines
  }

  /** The reports in flight are those received. */
  ghost predicate ShortInv(s: State, lines: nat) {
    && (!s.rx.Waiting? ==> Senders.Lines(s.rx.report) <= lines)
    && (forall i :: 0 <= i < |s.log| ==> Senders.Lines(s.log[i].report) <= lines)
  }

  lemma {:induction false} StepKeepsShort(cfg: Config, s: State, a: Action, lines: nat)
    requires Enabled(cfg, s, a) && ShortInv(s, lines) && (a.Receive? ==> Senders.Lines(a.report) <= lines)
    ensures ShortInv(Apply(cfg, s, a), lines)
  {
    hide Spsc.Apply, Spsc.Enabled, Spsc.CheckFails, Senders.OnEmpty, Senders.OnReport, Senders.Lines, IsSampled;
  }

  lemma {:induction false} SentAreLogged(log: seq<Call>, k: nat, i: nat)
    requires i < |SentTo(log, k)|
    ensures exists j :: 0 <= j < |log| && log[j].report == SentTo(log, k)[i]
    decreases |log|
  {
    var n := |log| - 1;
    var front := SentTo(log[..n], k);
    if i < |front| {
      SentAreLogged(log[..n], k, i);
      var j :| 0 <= j < n && log[..n][j].report == front[i];
      assert log[j].report == SentTo(log, k)[i];
    } else {
      assert log[n].report == SentTo(log, k)[i];
    }
  }

  /** A report in a sender's hand was logged. */
  lemma {:induction false} HandIsShort(cfg: Config, s: State, k: nat, lines: nat)
    requires Inv(cfg, s) && ShortInv(s, lines) && k < |s.hands| && s.hands[k].Some?
    ensures Senders.Lines(s.hands[k].value) <= lines
  {
    hide PushingInv, CallInv, CountInv, Senders.Lines, SentTo, Senders.Concat;
    assert ThreadInv(s.rings[k], s.senders[k], s.hands[k], SentTo(s.log, k));
    Spsc.InvWellShaped(s.rings[k]);
    hide Spsc.Inv;
    var i := |s.rings[k].popped| - 1;
    assert s.rings[k].popped[i] == s.hands[k].value;
    assert s.rings[k].pushed[i] == s.hands[k].value;
    SentAreLogged(s.log, k, i);
  }

  lemma {:induction false} PollsAreShort(cfg: Config, s: State, actions: seq<Action>, k: nat, lines: nat)
    requires Inv(cfg, s) && IsRun(cfg, s, actions) && cfg.opt.hostValid
    requires ShortInv(s, lines) && AllShort(actions, lines)
    ensures ShortPolls(PollsOf(cfg, s, actions, k), lines)
    decreases |actions|
  {
    hide Inv, Enabled, Apply, ShortInv, ShortPolls, Senders.Lines, PollOf;
    if actions == [] {
      NoPollShort(lines);
    } else {
      var next := Apply(cfg, s, actions[0]);
      StepKeepsInv(cfg, s, actions[0]);
      StepKeepsShort(cfg, s, actions[0], lines);
      assert AllShort(actions[1..], lines);
      PollsAreShort(cfg, next, actions[1..], k, lines);
      FirstPollShort(cfg, s, actions[0], k, lines);
      BothShort(PollOf(cfg, s, actions[0], k), PollsOf(cfg, next, actions[1..], k), lines);
    }
  }

  lemma NoPollShort(lines: nat)
    ensures ShortPolls([], lines)
  {
  }

  lemma BothShort(a: seq<Senders.Poll>, b: seq<Senders.Poll>, lines: nat)
    requires ShortPolls(a, lines) && ShortPolls(b, lines)
    ensures ShortPolls(a + b, lines)
  {
    hide Senders.Lines;
  }

  lemma {:induction false} FirstPollShort(cfg: Config, s: State, a: Action, k: nat, lines: nat)
    requires Inv(cfg, s) && Enabled(cfg, s, a) && ShortInv(s, lines)
    ensures ShortPolls(PollOf(cfg, s, a, k), lines)
  {
    hide Inv, ShortInv, Senders.Lines;
    if a.Handle? && a.thread == k {
      HandIsShort(cfg, s, k, lines);
    }
  }

  // ---------------------------------------------------------------------------
  // The sender theorems, inside every run
  // ---------------------------------------------------------------------------

  /** Every HTTP sender of every run keeps its batches on time, as long as batch and reports fit 32 bits. */
  lemma {:induction false} HttpSendersInRun(cfg: Config, start: State, actions: seq<Action>, k: nat, lines: nat)
    requires Init(cfg, start) && IsRun(cfg, start, actions) && cfg.opt.hostValid && cfg.opt.protocol.Http?
    requires k < |start.senders| && AllShort(actions, lines) && cfg.opt.batch + lines <= TWO32
    ensures |After(cfg, start, actions).senders| == |start.senders|
    ensures Senders.HttpInv(cfg.opt, After(cfg, start, actions).senders[k])
  {
    hide After, IsRun, Senders.After, Senders.HttpInv, Senders.Lines;
    InitEstablishesInv(cfg, start);
    RunRefinesSender(cfg, start, actions, k);
    hide Inv;
    PollsAreShort(cfg, start, actions, k, lines);
    Senders.HttpRunKeepsInv(cfg.opt, PollsOf(cfg, start, actions, k));
  }

  /** Every HTTP sender of a run whose last ten polls found nothing has sent all it popped. */
  lemma {:induction false} IdleSendersInRun(cfg: Config, start: State, actions: seq<Action>, k: nat,
                                            polls: seq<Senders.Poll>)
    requires Init(cfg, start) && IsRun(cfg, start, actions) && cfg.opt.hostValid && cfg.opt.protocol.Http?
    requires k < |start.senders|
    requires PollsOf(cfg, start, actions, k) == polls + Senders.Idle(10)
    ensures var s := After(cfg, start, actions);
            |s.senders| == |start.senders| && s.senders[k].data == []
            && Senders.Concat(s.senders[k].sent) == Senders.Popped(polls)
  {
    hide After, IsRun, Senders.After, Senders.Idle, PollsOf;
    RunRefinesSender(cfg, start, actions, k);
    Senders.IdleSenderHasSentAll(cfg.opt, polls);
  }
}
