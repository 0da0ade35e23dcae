/**
 The history of `sendData`: which reports it was called with and what became of them, and
 which packets are sampled in the first place.
 */
module Calls {
  import opened Bytes
  import opened Modular
  import opened Telemetry

  datatype Outcome = PushedTo(ring: nat) | Dropped

  /** A completed call of `sendData`. */
  datatype Call = Call(report: Report, outcome: Outcome)

  /** The reports pushed to ring `k`, in order. */
  function SentTo(log: seq<Call>, k: nat): seq<Report> {
    if log == [] then [] else
    SentTo(log[..|log| - 1], k) + if log[|log| - 1].outcome == PushedTo(k) then [log[|log| - 1].report] else []
  }

  function Drops(log: seq<Call>): nat {
    if log == [] then 0 else Drops(log[..|log| - 1]) + if log[|log| - 1].outcome == Dropped then 1 else 0
  }

  /** The reports `sendData` was called with, in order. */
  function LogReports(log: seq<Call>): seq<Report> {
    if log == [] then [] else LogReports(log[..|log| - 1]) + [log[|log| - 1].report]
  }

  lemma {:induction false} LogReportsLength(log: seq<Call>)
    ensures |LogReports(log)| == |log|
  {
    if log != [] {
      LogReportsLength(log[..|log| - 1]);
    }
  }

  predicate OutcomesIn(log: seq<Call>, n: nat) {
    forall i :: 0 <= i < |log| && log[i].outcome.PushedTo? ==> log[i].outcome.ring < n
  }

  /** The reports pushed to the first `n` rings together. */
  function TotalPushed(log: seq<Call>, n: nat): nat {
    if n == 0 then 0 else TotalPushed(log, n - 1) + |SentTo(log, n - 1)|
  }

  /** `pkt_cnt % smpl_rate == 0`, with the 64-bit counter as it stands after `i` packets. */
  predicate IsSampled(i: nat, smplRate: U32)
    requires smplRate > 0
  {
    i % TWO64 % smplRate == 0
  }

  /** The reports to be sent, in order, of packets of which the first bears number `first`. */
  function SampledReports(reports: seq<Report>, first: nat, smplRate: U32): seq<Report>
    requires smplRate > 0
  {
    if reports == [] then [] else
    var n := |reports| - 1;
    SampledReports(reports[..n], first, smplRate) + if IsSampled(first + n, smplRate) then [reports[n]] else []
  }

  lemma {:induction false} SampledSnoc(reports: seq<Report>, r: Report, first: nat, smplRate: U32)
    requires smplRate > 0
    ensures SampledReports(reports + [r], first, smplRate) ==
            SampledReports(reports, first, smplRate) + if IsSampled(first + |reports|, smplRate) then [r] else []
  {
    assert (reports + [r])[..|reports|] == reports;
  }

  lemma {:induction false} SampledCount(reports: seq<Report>, smplRate: U32)
    requires smplRate > 0
    ensures |SampledReports(reports, 0, smplRate)| == SampledOf(|reports|, smplRate)
    decreases |reports|
  {
    hide IsSampled;
    if reports != [] {
      SampledCount(reports[..|reports| - 1], smplRate);
    }
  }

  /** How many of the first `n` packets are sampled. */
  function SampledOf(n: nat, smplRate: U32): nat
    requires smplRate > 0
  {
    if n == 0 then 0 else SampledOf(n - 1, smplRate) + if IsSampled(n - 1, smplRate) then 1 else 0
  }

  lemma {:induction false} LogSnoc(log: seq<Call>, c: Call, k: nat)
    ensures SentTo(log + [c], k) == if c.outcome == PushedTo(k) then SentTo(log, k) + [c.report] else SentTo(log, k)
    ensures Drops(log + [c]) == Drops(log) + if c.outcome == Dropped then 1 else 0
    ensures LogReports(log + [c]) == LogReports(log) + [c.report]
  {
    assert (log + [c])[..|log|] == log;
  }

  /** One more call adds to one ring's total, if it was a push to a ring below `n`. */
  lemma {:induction false} TotalPushedSnoc(log: seq<Call>, c: Call, n: nat)
    ensures TotalPushed(log + [c], n) == TotalPushed(log, n) + if c.outcome.PushedTo? && c.outcome.ring < n then 1
            else 0
    decreases n
  {
    if n > 0 {
      TotalPushedSnoc(log, c, n - 1);
      LogSnoc(log, c, n - 1);
    }
  }

  /** Every call either pushed or dropped its report. */
  lemma {:induction false} CallsBalance(log: seq<Call>, n: nat)
    requires OutcomesIn(log, n)
    ensures TotalPushed(log, n) + Drops(log) == |log|
    decreases |log|
  {
    if log == [] {
      NothingPushed(n);
    } else {
      var front, last := log[..|log| - 1], log[|log| - 1];
      assert front + [last] == log;
      CallsBalance(front, n);
      TotalPushedSnoc(front, last, n);
      LogSnoc(front, last, 0);
    }
  }

  lemma {:induction false} NothingPushed(n: nat)
    ensures TotalPushed([], n) == 0
    decreases n
  {
    if n > 0 {
      NothingPushed(n - 1);
    }
  }

  /** Until the 64-bit counter wraps, one packet in `smplRate` is sampled, starting with the first. */
  lemma {:induction false} SampledIsCeiling(n: nat, smplRate: U32)
    requires smplRate > 0 && n <= TWO64
    ensures SampledOf(n, smplRate) == (n + smplRate - 1) / smplRate
    decreases n
  {
    if n == 0 {
      Remainder(smplRate - 1, 0, smplRate - 1, smplRate);
    } else {
      SampledIsCeiling(n - 1, smplRate);
      var q, r := (n - 1) / smplRate, (n - 1) % smplRate;
      assert n - 1 == smplRate * q + r;
      assert smplRate * (q + 1) == smplRate * q + smplRate;
      assert (n - 1) % TWO64 == n - 1;
      Remainder(n + smplRate - 1, q + 1, r, smplRate);
      if r == 0 {
        Remainder(n + smplRate - 2, q, smplRate - 1, smplRate);
      } else {
        Remainder(n + smplRate - 2, q + 1, r - 1, smplRate);
      }
    }
  }

  /** Queues after the calls of a log: each has taken the reports pushed to it. */
  function Delivered(queues: seq<seq<Report>>, log: seq<Call>): (after: seq<seq<Report>>)
    ensures |after| == |queues|
  {
    seq(|queues|, k requires 0 <= k < |queues| => queues[k] + SentTo(log, k))
  }

  lemma {:induction false} DeliveredMore(queues: seq<seq<Report>>, log: seq<Call>, c: Call)
    ensures Delivered(Delivered(queues, log), [c]) == Delivered(queues, log + [c])
  {
    forall k | 0 <= k < |queues|
      ensures Delivered(Delivered(queues, log), [c])[k] == Delivered(queues, log + [c])[k]
    {
      LogSnoc(log, c, k);
      LogSnoc([], c, k);
      assert [] + [c] == [c];
      hide SentTo;
    }
  }

  lemma {:induction false} DeliveredNone(queues: seq<seq<Report>>)
    ensures Delivered(queues, []) == queues
  {
    forall k | 0 <= k < |queues|
      ensures Delivered(queues, [])[k] == queues[k]
    {
      assert queues[k] + [] == queues[k];
    }
  }

  lemma {:induction false} DeliveredOne(queues: seq<seq<Report>>, c: Call)
    requires c.outcome.PushedTo? ==> c.outcome.ring < |queues|
    ensures Delivered(queues, [c]) ==
            match c.outcome
            case Dropped => queues
            case PushedTo(ring) => queues[ring := queues[ring] + [c.report]]
  {
    forall k | 0 <= k < |queues|
      ensures Delivered(queues, [c])[k] == if c.outcome == PushedTo(k) then queues[k] + [c.report] else queues[k]
    {
      LogSnoc([], c, k);
      assert [] + [c] == [c];
      hide SentTo;
    }
  }
}
