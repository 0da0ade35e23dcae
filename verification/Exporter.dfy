/**
 `IntExporter::sendData`: reports are dealt to the rings in round-robin order, a full ring
 being passed over.
 */
module Exporters {
  import opened Modular
  import opened RingBuffers
  import Spsc

  class IntExporter<T(0)> {
    const rings: seq<RingBuffer<T>>
    ghost const repr: set<object>  // the rings and their slot arrays
    var rrIndex: nat

    /** Each ring is sound and shares no memory with the others. */
    ghost predicate RingsApart()
      reads this, repr
    {
      && this !in repr
      && (forall k :: 0 <= k < |rings| ==> rings[k] in repr && rings[k].ring in repr && rings[k].Valid())
      && (forall k, l :: 0 <= k < |rings| && 0 <= l < |rings| && k != l ==>
                           rings[k] != rings[l] && rings[k].ring != rings[l].ring)
    }

    ghost predicate Valid()
      reads this, repr
    {
      RingsApart() && (rings != [] ==> rrIndex < |rings|)
    }

    /** One ring for every sender thread, all empty. */
    constructor (threads: nat, size: nat)
      requires size > 0
      ensures Valid() && fresh(repr) && |rings| == threads && rrIndex == 0
      ensures forall k :: 0 <= k < threads ==> rings[k].items == [] && rings[k].ring.Length == size
    {
      hide RingBuffer.Valid;
      var rs: seq<RingBuffer<T>> := [];
      ghost var owned: set<object> := {};
      while |rs| < threads
        invariant |rs| <= threads
        invariant fresh(owned)
        invariant forall k :: 0 <= k < |rs| ==> rs[k] in owned && rs[k].ring in owned && rs[k].Valid()
        invariant forall k :: 0 <= k < |rs| ==> rs[k].items == [] && rs[k].ring.Length == size
        invariant forall k, l :: 0 <= k < |rs| && 0 <= l < |rs| && k != l ==> rs[k] != rs[l] && rs[k].ring != rs[l].ring
      {
        var ring := new RingBuffer<T>(size);
        owned := owned + {ring, ring.ring};
        rs := rs + [ring];
      }
      rings, rrIndex, repr := rs, 0, owned;
    }

    ghost predicate Full(k: nat)
      requires k < |rings|
      reads rings
    {
      |rings[k].items| == rings[k].ring.Length - 1
    }

    ghost predicate AllFull()
      reads rings
    {
      forall k :: 0 <= k < |rings| ==> Full(k)
    }

    /** What the rings hold. */
    ghost function Queues(): (queues: seq<seq<T>>)
      reads rings
      ensures |queues| == |rings|
    {
      seq(|rings|, k requires 0 <= k < |rings| reads rings => rings[k].items)
    }

    /** How many reports ring `k` can hold. */
    ghost function Capacity(k: nat): int
      requires k < |rings|
    {
      rings[k].ring.Length - 1
    }

    lemma IndexInRange()
      requires Valid() && rings != []
      ensures rrIndex < |rings|
    {}

    lemma FullExactly(k: nat)
      requires k < |rings|
      ensures Full(k) <==> |Queues()[k]| == Capacity(k)
    {}

    ghost function NextRing(): nat
      requires rings != []
      reads this
    {
      if rrIndex + 1 == |rings| then 0 else rrIndex + 1
    }

    /** One round of the loop: the next ring in turn is offered the report. */
    method TryNext(report: T) returns (ok: bool)
      requires Valid() && rings != []
      modifies this`rrIndex, repr
      ensures Valid()
      ensures rrIndex == old(NextRing())
      ensures ok <==> !old(Full(NextRing()))
      ensures forall k :: 0 <= k < |rings| ==>
                rings[k].items == if ok && k == rrIndex then old(rings[k].items) + [report] else old(rings[k].items)
    {
      NextWraps(rrIndex, |rings|);
      rrIndex := (rrIndex + 1) % |rings|;
      ok := rings[rrIndex].Push(report);
    }

    /** `EXIT_FAILURE` is true, as the C++ function returns it in a bool. */
    method SendData(report: T) returns (failure: bool)
      requires Valid()
      modifies this`rrIndex, repr
      ensures Valid()
      ensures failure <==> old(AllFull())
      ensures failure ==> rrIndex == old(rrIndex) && Queues() == old(Queues())
      ensures !failure ==> rrIndex < |rings| && Queues() == old(Queues())[rrIndex := old(Queues())[rrIndex] + [report]]
      ensures forall k :: 0 <= k < |rings| ==>
                rings[k].items == if !failure && k == rrIndex then old(rings[k].items) + [report]
                  else old(rings[k].items)
      ensures !failure ==> rings != []
      ensures rings != [] && !old(Full(NextRing())) ==> !failure && rrIndex == old(NextRing())
      ensures !failure ==>
                forall k :: 0 <= k < |rings| ==>
                  Turn(old(rrIndex), k, |rings|) < Turn(old(rrIndex), rrIndex, |rings|) ==> old(Full(k))
    {
      hide RingsApart;
      var i := 0;
      while i < |rings|
        invariant 0 <= i <= |rings|
        invariant Valid()
        invariant i == 0 ==> rrIndex == old(rrIndex)
        invariant i > 0 ==> Turn(old(rrIndex), rrIndex, |rings|) == i
        invariant forall k :: 0 <= k < |rings| ==> rings[k].items == old(rings[k].items)
        invariant forall k :: 0 <= k < |rings| && Turn(old(rrIndex), k, |rings|) <= i ==> Full(k)
      {
        ghost var next := NextRing();
        var ok := TryNext(report);
        if ok {
          assert !old(Full(next));
          return false;
        }
        i := i + 1;
      }
      failure := true;
    }
  }

  /** After `i` calls of a round that began at index `from`: who has got which report. */
  ghost predicate Dealt<T>(queues: seq<seq<T>>, now: seq<seq<T>>, from: nat, reports: seq<T>, i: nat) {
    && |now| == |queues| == |reports| && (queues != [] ==> from < |queues|)
    && forall k :: 0 <= k < |queues| ==>
         now[k] == queues[k] + if Turn(from, k, |queues|) <= i then [reports[Turn(from, k, |queues|) - 1]] else []
  }

  /** The next call deals to the ring whose turn it is, which has got nothing yet. */
  lemma DealtNext<T>(queues: seq<seq<T>>, now: seq<seq<T>>, from: nat, reports: seq<T>, i: nat, next: nat)
    requires Dealt(queues, now, from, reports, i) && i < |reports| && next < |queues|
    requires Turn(from, next, |queues|) == i + 1
    ensures now[next] == queues[next]
    ensures Dealt(queues, now[next := now[next] + [reports[i]]], from, reports, i + 1)
  {}

  /** One step further in turn, after `i` of them. */
  lemma NextTurn(from: nat, index: nat, n: nat, i: nat)
    requires from < n && index < n && i < n && if i == 0 then index == from else Turn(from, index, n) == i
    ensures Turn(from, if index + 1 == n then 0 else index + 1, n) == i + 1
  {}

  /**
   Fairness.  A client that sends as many reports as there are rings while none is full: every
   ring gets exactly one of them, dealt in turn from the one after the index, which ends where
   it began.
   */
  method SendRound<T(0)>(exporter: IntExporter<T>, reports: seq<T>)
    requires exporter.Valid() && |reports| == |exporter.rings|
    requires forall k :: 0 <= k < |exporter.rings| ==> !exporter.Full(k)
    modifies exporter`rrIndex, exporter.repr
    ensures exporter.Valid() && exporter.rrIndex == old(exporter.rrIndex)
    ensures forall k :: 0 <= k < |exporter.rings| ==>
              exporter.Queues()[k] ==
              old(exporter.Queues())[k] + [reports[Turn(old(exporter.rrIndex), k, |exporter.rings|) - 1]]
  {
    hide IntExporter.Valid, IntExporter.Full, IntExporter.Queues, IntExporter.Capacity, IntExporter.AllFull;
    hide Dealt, Turn;
    var i, n := 0, |exporter.rings|;
    ghost var from, queues := exporter.rrIndex, exporter.Queues();
    forall k | 0 <= k < n
      ensures |queues[k]| != exporter.Capacity(k)
    {
      exporter.FullExactly(k);
    }
    if n > 0 {
      exporter.IndexInRange();
    }
    NothingDealt(queues, from, reports);
    while i < n
      invariant 0 <= i <= n && exporter.Valid() && (n > 0 ==> from < n && exporter.rrIndex < n)
      invariant if i == 0 then exporter.rrIndex == from else Turn(from, exporter.rrIndex, n) == i
      invariant Dealt(queues, exporter.Queues(), from, reports, i)
    {
      ghost var next := exporter.NextRing();
      NextTurn(from, exporter.rrIndex, n, i);
      DealtNext(queues, exporter.Queues(), from, reports, i, next);
      exporter.FullExactly(next);
      var failure := exporter.SendData(reports[i]);
      i := i + 1;
    }
    AllDealt(queues, exporter.Queues(), from, reports, exporter.rrIndex);
  }

  lemma NothingDealt<T>(queues: seq<seq<T>>, from: nat, reports: seq<T>)
    requires |queues| == |reports| && (queues != [] ==> from < |queues|)
    ensures Dealt(queues, queues, from, reports, 0)
  {}

  lemma AllDealt<T>(queues: seq<seq<T>>, now: seq<seq<T>>, from: nat, reports: seq<T>, index: nat)
    requires Dealt(queues, now, from, reports, |reports|) && (queues != [] ==> from < |queues| && index < |queues|)
    requires if queues == [] then index == from else Turn(from, index, |queues|) == |queues|
    ensures index == from
    ensures forall k :: 0 <= k < |queues| ==> now[k] == queues[k] + [reports[Turn(from, k, |queues|) - 1]]
  {}
}
