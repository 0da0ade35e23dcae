/**
 The single-producer/single-consumer ring of `ringbuffer.h`, one step per memory
 access.

 An atomic index is the list of all values ever stored to it (its modification
 order).  A load of the other side's index may return any entry from the last one
 this side has seen up to the newest; a relaxed load of one's own index returns the
 newest.  A run is any sequence of actions, so every interleaving and every choice
 of stale value is covered by quantifying over runs.
 */
module Spsc {
  import opened Modular
  import opened Options

  /** Where the producer stands inside `push`. */
  datatype Producer<T> =
    | PIdle
    | PLoaded(value: T, head: nat)
    | PRoom(value: T, head: nat)
    | PWritten(value: T, head: nat)

  /** Where the consumer stands inside `pop`. */
  datatype Consumer<T> =
    | CIdle
    | CLoaded(tail: nat)
    | CReady(tail: nat)
    | CRead(tail: nat, value: T)

  /**
   `written[i]` and `read[i]` date the last write and read of slot `i` by the number of
   index stores its owner had made (0: never).  `pushed` and `popped` are the values
   whose `push` and `pop` have returned true, in order.
   */
  datatype State<T> = State(
    slots: seq<T>,
    heads: seq<nat>,
    tails: seq<nat>,
    seenTail: nat,
    seenHead: nat,
    prod: Producer<T>,
    cons: Consumer<T>,
    written: seq<nat>,
    read: seq<nat>,
    pushed: seq<T>,
    popped: seq<T>)

  datatype Action<T> =
    | PushBegin(value: T)
    | PushCheck(tailPos: nat)
    | PushWrite
    | PushStore
    | PopBegin
    | PopCheck(headPos: nat)
    | PopRead
    | PopStore

  function Next(current: nat, size: nat): nat
    requires size > 0
  {
    (current + 1) % size
  }

  /** `next` applied to the slot of a counter is the slot of its successor. */
  lemma {:induction false} NextIsSlot(i: nat, size: nat)
    requires size > 0
    ensures Next(Slot(i, size), size) == Slot(i + 1, size)
  {
    NextSlot(i, size);
    NextWraps(Slot(i, size), size);
  }

  predicate WellShaped<T>(s: State<T>) {
    && |s.slots| > 0
    && |s.written| == |s.read| == |s.slots|
    && |s.heads| > 0 && |s.tails| > 0
    && (!s.prod.PIdle? ==> s.prod.head < |s.slots|)
    && (!s.cons.CIdle? ==> s.cons.tail < |s.slots|)
    && s.heads[|s.heads| - 1] < |s.slots|
    && s.tails[|s.tails| - 1] < |s.slots|
  }

  /** A freshly constructed ring; the slots hold arbitrary values. */
  predicate Init<T(==)>(s: State<T>) {
    && |s.slots| > 0
    && s == State(s.slots, [0], [0], 0, 0, PIdle, CIdle,
                  seq(|s.slots|, _ => 0), seq(|s.slots|, _ => 0), [], [])
  }

  predicate Enabled<T>(s: State<T>, a: Action<T>) {
    && WellShaped(s)
    && match a
       case PushBegin(_) => s.prod.PIdle?
       case PushCheck(pos) => s.prod.PLoaded? && s.seenTail <= pos < |s.tails|
       case PushWrite => s.prod.PRoom?
       case PushStore => s.prod.PWritten?
       case PopBegin => s.cons.CIdle?
       case PopCheck(pos) => s.cons.CLoaded? && s.seenHead <= pos < |s.heads|
       case PopRead => s.cons.CReady?
       case PopStore => s.cons.CRead?
  }

  function Apply<T>(s: State<T>, a: Action<T>): State<T>
    requires Enabled(s, a)
  {
    match a
    case PushBegin(v) => s.(prod := PLoaded(v, s.heads[|s.heads| - 1]))
    case PushCheck(pos) =>
      if Next(s.prod.head, |s.slots|) == s.tails[pos]
      then s.(seenTail := pos, prod := PIdle)
      else s.(seenTail := pos, prod := PRoom(s.prod.value, s.prod.head))
    case PushWrite =>
      s.(slots := s.slots[s.prod.head := s.prod.value],
         written := s.written[s.prod.head := |s.heads|],
         prod := PWritten(s.prod.value, s.prod.head))
    case PushStore =>
      s.(heads := s.heads + [Next(s.prod.head, |s.slots|)],
         pushed := s.pushed + [s.prod.value],
         prod := PIdle)
    case PopBegin => s.(cons := CLoaded(s.tails[|s.tails| - 1]))
    case PopCheck(pos) =>
      if s.cons.tail == s.heads[pos]
      then s.(seenHead := pos, cons := CIdle)
      else s.(seenHead := pos, cons := CReady(s.cons.tail))
    case PopRead =>
      s.(cons := CRead(s.cons.tail, s.slots[s.cons.tail]),
         read := s.read[s.cons.tail := |s.tails|])
    case PopStore =>
      s.(tails := s.tails + [Next(s.cons.tail, |s.slots|)],
         popped := s.popped + [s.cons.value],
         cons := CIdle)
  }

  /** Does the `push`/`pop` in progress give up at this check? */
  predicate CheckFails<T>(s: State<T>, a: Action<T>)
    requires Enabled(s, a)
  {
    match a
    case PushCheck(pos) => Next(s.prod.head, |s.slots|) == s.tails[pos]
    case PopCheck(pos) => s.cons.tail == s.heads[pos]
    case _ => false
  }

  // ---------------------------------------------------------------------------
  // The inductive invariant
  // ---------------------------------------------------------------------------

  /** The log of an index after `count` completed operations. */
  ghost predicate IndexLog(log: seq<nat>, count: nat, n: nat)
    requires n > 0
  {
    |log| == count + 1 && forall i :: 0 <= i < |log| ==> log[i] == Slot(i, n)
  }

  /** Each side's view lags behind the other, never ahead of it. */
  ghost predicate Views(seenTail: nat, popped: nat, seenHead: nat, pushed: nat, n: nat) {
    seenTail <= popped <= seenHead <= pushed && pushed - seenTail < n
  }

  ghost predicate ProducerAt<T>(s: State<T>)
    requires WellShaped(s)
  {
    && (!s.prod.PIdle? ==> s.prod.head == Slot(|s.pushed|, |s.slots|))
    && (s.prod.PRoom? || s.prod.PWritten? ==> |s.pushed| - s.seenTail < |s.slots| - 1)
    && (s.prod.PWritten? ==>
          && s.slots[s.prod.head] == s.prod.value
          && s.written[s.prod.head] == |s.heads|)
  }

  ghost predicate ConsumerAt<T>(s: State<T>)
    requires WellShaped(s)
  {
    && (!s.cons.CIdle? ==> s.cons.tail == Slot(|s.popped|, |s.slots|))
    && (s.cons.CReady? || s.cons.CRead? ==> |s.popped| < s.seenHead <= |s.pushed|)
    && (s.cons.CRead? ==> s.cons.value == s.pushed[|s.popped|])
  }

  /** Every value pushed and not yet popped sits in its slot, dated by its own store. */
  ghost predicate SlotsHold<T>(slots: seq<T>, written: seq<nat>, pushed: seq<T>, popped: nat)
    requires |slots| == |written| > 0
  {
    forall i {:trigger pushed[i]} {:trigger written[Slot(i, |slots|)]} :: popped <= i < |pushed| ==>
      slots[Slot(i, |slots|)] == pushed[i] && written[Slot(i, |slots|)] == i + 1
  }

  /** A slot's last read was of a value already pushed, on a lap of that slot. */
  ghost predicate ReadDates(read: seq<nat>, pushed: nat) {
    forall j :: 0 <= j < |read| && read[j] != 0 ==>
      Slot(read[j] - 1, |read|) == j && read[j] <= pushed
  }

  ghost predicate Inv<T>(s: State<T>) {
    && WellShaped(s)
    && IndexLog(s.heads, |s.pushed|, |s.slots|)
    && IndexLog(s.tails, |s.popped|, |s.slots|)
    && Views(s.seenTail, |s.popped|, s.seenHead, |s.pushed|, |s.slots|)
    && ProducerAt(s)
    && ConsumerAt(s)
    && SlotsHold(s.slots, s.written, s.pushed, |s.popped|)
    && ReadDates(s.read, |s.pushed|)
    && s.popped <= s.pushed
  }

  lemma InvWellShaped<T>(s: State<T>)
    requires Inv(s)
    ensures WellShaped(s) && s.popped <= s.pushed
  {}

  lemma InitEstablishesInv<T>(s: State<T>)
    requires Init(s)
    ensures Inv(s)
  {
    assert s.written == seq(|s.slots|, _ => 0);
    assert forall i :: 0 <= i < |s.read| ==> s.read[i] == 0;
  }

  lemma {:induction false} PushCheckOutcome<T>(s: State<T>, pos: nat)
    requires Inv(s) && Enabled(s, PushCheck(pos))
    ensures CheckFails(s, PushCheck(pos)) <==> |s.pushed| - pos == |s.slots| - 1
  {
    var n, p := |s.slots|, |s.pushed|;
    NextIsSlot(p, n);
    if p - pos == n - 1 {
      SlotPeriod(pos, n);
    } else {
      SlotsDistinct(pos, p + 1, n);
    }
  }

  lemma {:induction false} PopCheckOutcome<T>(s: State<T>, pos: nat)
    requires Inv(s) && Enabled(s, PopCheck(pos))
    ensures CheckFails(s, PopCheck(pos)) <==> |s.popped| == pos
  {
    if |s.popped| < pos {
      SlotsDistinct(|s.popped|, pos, |s.slots|);
    }
  }

  lemma {:induction false} StepKeepsInv<T>(s: State<T>, a: Action<T>)
    requires Inv(s) && Enabled(s, a)
    ensures Inv(Apply(s, a))
  {
    hide Inv, Enabled, Apply;
    match a
    case PushBegin(_) => BeginKeepsInv(s, a);
    case PushCheck(pos) => CheckKeepsInv(s, a);
    case PushWrite => PushWriteKeepsInv(s);
    case PushStore => PushStoreKeepsInv(s);
    case PopBegin => BeginKeepsInv(s, a);
    case PopCheck(pos) => CheckKeepsInv(s, a);
    case PopRead => PopReadKeepsInv(s);
    case PopStore => PopStoreKeepsInv(s);
  }

  lemma {:induction false} BeginKeepsInv<T>(s: State<T>, a: Action<T>)
    requires Inv(s) && Enabled(s, a) && (a.PushBegin? || a.PopBegin?)
    ensures Inv(Apply(s, a))
  {}

  lemma {:induction false} CheckKeepsInv<T>(s: State<T>, a: Action<T>)
    requires Inv(s) && Enabled(s, a) && (a.PushCheck? || a.PopCheck?)
    ensures Inv(Apply(s, a))
  {
    if a.PushCheck? {
      PushCheckOutcome(s, a.tailPos);
    } else {
      PopCheckOutcome(s, a.headPos);
    }
  }

  lemma {:induction false} PushWriteKeepsInv<T>(s: State<T>)
    requires Inv(s) && Enabled(s, PushWrite)
    ensures Inv(Apply(s, PushWrite))
  {
    WriteKeepsSlots(s);
  }

  lemma {:induction false} PushStoreKeepsInv<T>(s: State<T>)
    requires Inv(s) && Enabled(s, PushStore)
    ensures Inv(Apply(s, PushStore))
  {
    SlotsHoldMore(s.slots, s.written, s.pushed, |s.popped|, s.prod.value);
    NextIsSlot(|s.pushed|, |s.slots|);
  }

  lemma {:induction false} PopReadKeepsInv<T>(s: State<T>)
    requires Inv(s) && Enabled(s, PopRead)
    ensures Inv(Apply(s, PopRead))
  {
    assert s.pushed[|s.popped|] == s.slots[s.cons.tail];
  }

  lemma SlotsHoldMore<T>(slots: seq<T>, written: seq<nat>, pushed: seq<T>, popped: nat, value: T)
    requires |slots| == |written| > 0 && SlotsHold(slots, written, pushed, popped)
    requires slots[Slot(|pushed|, |slots|)] == value && written[Slot(|pushed|, |slots|)] == |pushed| + 1
    ensures SlotsHold(slots, written, pushed + [value], popped)
  {
    hide Slot;
    var pushed' := pushed + [value];
    forall i {:trigger Slot(i, |slots|)} | popped <= i < |pushed'|
      ensures slots[Slot(i, |slots|)] == pushed'[i] && written[Slot(i, |slots|)] == i + 1
    {
      if i < |pushed| {
        assert pushed'[i] == pushed[i];
      }
    }
  }

  lemma SlotsHoldFewer<T>(slots: seq<T>, written: seq<nat>, pushed: seq<T>, popped: nat)
    requires |slots| == |written| > 0 && SlotsHold(slots, written, pushed, popped)
    ensures SlotsHold(slots, written, pushed, popped + 1)
  {
    hide Slot;
  }

  lemma {:induction false} PopStoreKeepsInv<T>(s: State<T>)
    requires Inv(s) && Enabled(s, PopStore)
    ensures Inv(Apply(s, PopStore))
  {
    SlotsHoldFewer(s.slots, s.written, s.pushed, |s.popped|);
    NextIsSlot(|s.popped|, |s.slots|);
  }

  /** The slot about to be written holds no value still to be popped. */
  lemma {:induction false} WriteKeepsSlots<T>(s: State<T>)
    requires Inv(s) && s.prod.PRoom?
    ensures forall i :: |s.popped| <= i < |s.pushed| ==> Slot(i, |s.slots|) != s.prod.head
  {
    forall i | |s.popped| <= i < |s.pushed|
      ensures Slot(i, |s.slots|) != s.prod.head
    {
      SlotsDistinct(i, |s.pushed|, |s.slots|);
    }
  }

  // ---------------------------------------------------------------------------
  // No data race
  // ---------------------------------------------------------------------------

  /**
   Every slot access is ordered after the conflicting access before it: the index store
   that followed the other side's access is one this side has acquired.  In particular
   the slot being written is never the slot being read.
   */
  lemma {:induction false} SlotAccessesOrdered<T>(s: State<T>)
    requires Inv(s)
    ensures Enabled(s, PushWrite) ==> s.read[s.prod.head] <= s.seenTail
    ensures Enabled(s, PopRead) ==> 0 < s.written[s.cons.tail] <= s.seenHead
    ensures (s.prod.PRoom? || s.prod.PWritten?) && (s.cons.CReady? || s.cons.CRead?) ==>
              s.prod.head != s.cons.tail
  {
    var p := |s.pushed|;
    if s.prod.PRoom? && s.read[s.prod.head] != 0 {
      SameSlotLap(s.read[s.prod.head] - 1, p, |s.slots|);
    }
    if s.cons.CReady? || s.cons.CRead? {
      assert s.pushed[|s.popped|] == s.slots[s.cons.tail];
      SlotsDistinct(|s.popped|, p, |s.slots|);
    }
  }

  // ---------------------------------------------------------------------------
  // Refinement of a bounded FIFO
  // ---------------------------------------------------------------------------

  /** The slots from index `tail` up to, not including, index `head`, around the wrap. */
  function Segment<T>(slots: seq<T>, tail: nat, head: nat): (items: seq<T>)
    requires tail < |slots| && head < |slots|
    ensures |items| == if head >= tail then head - tail else head + |slots| - tail
  {
    if head >= tail then slots[tail..head] else slots[tail..] + slots[..head]
  }

  /** `next` without the division. */
  lemma NextIs(current: nat, size: nat)
    requires current < size
    ensures Next(current, size) == if current + 1 == size then 0 else current + 1
  {
    NextWraps(current, size);
  }

  lemma {:induction false} SegmentGrows<T>(slots: seq<T>, tail: nat, head: nat, value: T)
    requires tail < |slots| && head < |slots| && Next(head, |slots|) != tail
    ensures Next(head, |slots|) < |slots|
    ensures Segment(slots[head := value], tail, Next(head, |slots|)) == Segment(slots, tail, head) + [value]
    ensures |Segment(slots, tail, head)| < |slots| - 1
  {
    hide Next;
    NextIs(head, |slots|);
  }

  lemma {:induction false} SegmentShrinks<T>(slots: seq<T>, tail: nat, head: nat)
    requires tail < |slots| && head < |slots| && tail != head
    ensures Next(tail, |slots|) < |slots|
    ensures Segment(slots, tail, head) == [slots[tail]] + Segment(slots, Next(tail, |slots|), head)
  {
    hide Next;
    NextIs(tail, |slots|);
    if head >= tail {
      assert slots[tail..head] == [slots[tail]] + slots[tail + 1..head];
    } else if tail + 1 == |slots| {
      assert slots[tail..] == [slots[tail]];
      assert slots[0..head] == slots[..head];
    } else {
      assert slots[tail..] == [slots[tail]] + slots[tail + 1..];
      assert [slots[tail]] + slots[tail + 1..] + slots[..head] == [slots[tail]] + (slots[tail + 1..] + slots[..head]);
    }
  }

  lemma {:induction false} SegmentFull<T>(slots: seq<T>, tail: nat, head: nat)
    requires tail < |slots| && head < |slots| && Next(head, |slots|) == tail
    ensures |Segment(slots, tail, head)| == |slots| - 1
  {
    hide Next;
    NextIs(head, |slots|);
  }

  /** What the memory holds. */
  function Contents<T>(s: State<T>): (items: seq<T>)
    requires WellShaped(s)
  {
    Segment(s.slots, s.tails[|s.tails| - 1], s.heads[|s.heads| - 1])
  }

  lemma {:induction false} ContentsArePending<T>(s: State<T>)
    requires Inv(s)
    ensures Contents(s) == s.pushed[|s.popped|..]
    ensures |Contents(s)| < |s.slots|
  {
    hide Slot, ProducerAt, ConsumerAt, ReadDates;
    var n, t := |s.slots|, |s.popped|;
    OffsetSlot(t, |s.pushed| - t, n);
    forall i | 0 <= i < |s.pushed| - t
      ensures Contents(s)[i] == s.pushed[t + i]
    {
      OffsetSlot(t, i, n);
      assert s.pushed[t + i] == s.slots[Slot(t + i, n)];
    }
  }

  datatype Event<T> = Pushed(value: T) | Popped(value: T)

  /** What a step lets the callers observe: a `push` or `pop` returning true. */
  function Observed<T>(s: State<T>, a: Action<T>): Option<Event<T>>
    requires Enabled(s, a)
  {
    match a
    case PushStore => Some(Pushed(s.prod.value))
    case PopStore => Some(Popped(s.cons.value))
    case _ => None
  }

  /** The specification: a queue that holds at most `capacity` values. */
  predicate FifoAccepts<T(==)>(queue: seq<T>, capacity: nat, events: seq<Event<T>>)
    decreases |events|
  {
    events == [] ||
    match events[0]
    case Pushed(v) => |queue| < capacity && FifoAccepts(queue + [v], capacity, events[1..])
    case Popped(v) => queue != [] && queue[0] == v && FifoAccepts(queue[1..], capacity, events[1..])
  }

  /** Only the two index stores change what has been pushed and popped. */
  lemma StepHistory<T>(s: State<T>, a: Action<T>)
    requires Enabled(s, a)
    ensures var s' := Apply(s, a);
            match Observed(s, a)
            case Some(Pushed(v)) => s'.pushed == s.pushed + [v] && s'.popped == s.popped
            case Some(Popped(v)) => s'.popped == s.popped + [v] && s'.pushed == s.pushed
            case None => s'.pushed == s.pushed && s'.popped == s.popped
    ensures |Apply(s, a).slots| == |s.slots|
  {}

  lemma OnlyChecksFail<T>(s: State<T>, a: Action<T>)
    requires Enabled(s, a)
    ensures CheckFails(s, a) ==> a.PushCheck? || a.PopCheck?
  {}

  lemma BeginFrame<T>(s: State<T>, v: T)
    requires Enabled(s, PushBegin(v))
    ensures var s' := Apply(s, PushBegin(v));
            && s'.cons == s.cons && s'.popped == s.popped && s'.pushed == s.pushed && s'.seenTail == s.seenTail
            && |s'.slots| == |s.slots| && !s'.prod.PIdle? && s'.prod.value == v
  {}

  /** What a producer's step leaves alone, and how it comes to rest. */
  lemma PushFrame<T>(s: State<T>, a: Action<T>)
    requires Enabled(s, a) && (a.PushCheck? || a.PushWrite? || a.PushStore?)
    ensures var s' := Apply(s, a);
            && s'.cons == s.cons && s'.popped == s.popped && |s'.slots| == |s.slots|
            && s'.pushed == (if a.PushStore? then s.pushed + [s.prod.value] else s.pushed)
            && s'.seenTail == (if a.PushCheck? then a.tailPos else s.seenTail)
            && (if a.PushStore? || CheckFails(s, a) then s'.prod.PIdle?
                else !s'.prod.PIdle? && s'.prod.value == s.prod.value)
  {}

  /** What a consumer's step leaves alone, and when it comes to rest. */
  lemma PopFrame<T>(s: State<T>, a: Action<T>)
    requires Enabled(s, a) && (a.PopBegin? || a.PopCheck? || a.PopRead? || a.PopStore?)
    ensures var s' := Apply(s, a);
            && s'.prod == s.prod && s'.seenTail == s.seenTail && s'.pushed == s.pushed && |s'.slots| == |s.slots|
            && s'.popped == (if a.PopStore? then s.popped + [s.cons.value] else s.popped)
            && (a.PopStore? ==> s'.cons.CIdle?)
  {}

  lemma {:induction false} StepRefinesFifo<T>(s: State<T>, a: Action<T>)
    requires Inv(s) && Enabled(s, a)
    ensures WellShaped(Apply(s, a))
    ensures var items, items' := Contents(s), Contents(Apply(s, a));
            match Observed(s, a)
            case Some(Pushed(v)) => |items| < |s.slots| - 1 && items' == items + [v]
            case Some(Popped(v)) => items != [] && v == items[0] && items' == items[1..]
            case None => items' == items
  {
    hide Inv, Contents, Apply, Enabled;
    var s' := Apply(s, a);
    StepKeepsInv(s, a);
    InvWellShaped(s);
    InvWellShaped(s');
    StepHistory(s, a);
    ContentsArePending(s);
    ContentsArePending(s');
    PoppedIsOldest(s, a);
  }

  lemma {:induction false} PoppedIsOldest<T>(s: State<T>, a: Action<T>)
    requires Inv(s) && Enabled(s, a)
    ensures a.PopStore? ==> |s.popped| < |s.pushed| && s.cons.value == s.pushed[|s.popped|]
    ensures a.PushStore? ==> |s.pushed| - |s.popped| < |s.slots| - 1
  {}

  /** When a check gives up, in terms of what is really in the ring and how stale the view is. */
  lemma {:induction false} FailsExactlyWhen<T>(s: State<T>, pos: nat)
    requires Inv(s)
    ensures Enabled(s, PushCheck(pos)) ==>
              (CheckFails(s, PushCheck(pos)) <==>
               |Contents(s)| + (|s.tails| - 1 - pos) == |s.slots| - 1)
    ensures Enabled(s, PopCheck(pos)) ==>
              (CheckFails(s, PopCheck(pos)) <==> |Contents(s)| == |s.heads| - 1 - pos)
  {
    ContentsArePending(s);
    if Enabled(s, PushCheck(pos)) {
      PushCheckOutcome(s, pos);
    }
    if Enabled(s, PopCheck(pos)) {
      PopCheckOutcome(s, pos);
    }
  }

  // ---------------------------------------------------------------------------
  // Runs
  // ---------------------------------------------------------------------------

  predicate IsRun<T>(s: State<T>, actions: seq<Action<T>>)
    decreases |actions|
  {
    actions == [] || (Enabled(s, actions[0]) && IsRun(Apply(s, actions[0]), actions[1..]))
  }

  function After<T>(s: State<T>, actions: seq<Action<T>>): State<T>
    requires IsRun(s, actions)
    decreases |actions|
  {
    if actions == [] then s else After(Apply(s, actions[0]), actions[1..])
  }

  function Trace<T>(s: State<T>, actions: seq<Action<T>>): seq<Event<T>>
    requires IsRun(s, actions)
    decreases |actions|
  {
    if actions == [] then [] else
      var rest := Trace(Apply(s, actions[0]), actions[1..]);
      match Observed(s, actions[0])
      case Some(e) => [e] + rest
      case None => rest
  }

  lemma {:induction false} RunRefinesFifo<T>(s: State<T>, actions: seq<Action<T>>)
    requires Inv(s) && IsRun(s, actions)
    ensures Inv(After(s, actions)) && |After(s, actions).slots| == |s.slots|
    ensures FifoAccepts(Contents(s), |s.slots| - 1, Trace(s, actions))
    decreases |actions|
  {
    hide Inv, Contents, Apply, Enabled;
    if actions != [] {
      var a, s' := actions[0], Apply(s, actions[0]);
      StepKeepsInv(s, a);
      StepRefinesFifo(s, a);
      StepHistory(s, a);
      RunRefinesFifo(s', actions[1..]);
      if Observed(s, a).Some? {
        assert Trace(s, actions)[1..] == Trace(s', actions[1..]);
      }
    }
  }

  /**
   The main theorem: whatever the interleaving and however stale the loads, the callers of
   `push` and `pop` see a FIFO of capacity size - 1, and what was popped is a prefix of
   what was pushed, the rest being exactly what the memory still holds.
   */
  lemma {:induction false} RingIsBoundedFifo<T>(s: State<T>, actions: seq<Action<T>>)
    requires Init(s) && IsRun(s, actions)
    ensures FifoAccepts([], |s.slots| - 1, Trace(s, actions))
    ensures var end := After(s, actions);
            && WellShaped(end)
            && end.pushed == end.popped + Contents(end)
            && |Contents(end)| < |s.slots|
  {
    InitEstablishesInv(s);
    ContentsArePending(s);
    RunRefinesFifo(s, actions);
    ContentsArePending(After(s, actions));
  }

  /** With an up-to-date view, `push` fails exactly on a full ring and `pop` on an empty one. */
  lemma {:induction false} FreshChecksAreExact<T>(s: State<T>)
    requires Inv(s)
    ensures Enabled(s, PushCheck(|s.tails| - 1)) ==>
              (CheckFails(s, PushCheck(|s.tails| - 1)) <==> |Contents(s)| == |s.slots| - 1)
    ensures Enabled(s, PopCheck(|s.heads| - 1)) ==>
              (CheckFails(s, PopCheck(|s.heads| - 1)) <==> Contents(s) == [])
  {
    FailsExactlyWhen(s, |s.tails| - 1);
    FailsExactlyWhen(s, |s.heads| - 1);
  }

  // ---------------------------------------------------------------------------
  // Composing runs
  // ---------------------------------------------------------------------------

  lemma {:induction false} RunThen<T>(s: State<T>, actions: seq<Action<T>>, a: Action<T>)
    requires IsRun(s, actions) && Enabled(After(s, actions), a)
    ensures IsRun(s, actions + [a])
    ensures After(s, actions + [a]) == Apply(After(s, actions), a)
    decreases |actions|
  {
    if actions == [] {
      assert (actions + [a])[1..] == [];
    } else {
      RunThen(Apply(s, actions[0]), actions[1..], a);
      assert (actions + [a])[1..] == actions[1..] + [a];
    }
  }

  /** The parts of a state that a whole `push` or `pop` leaves to the other side. */
  ghost predicate SameConsumerSide<T>(s: State<T>, s': State<T>) {
    s'.tails == s.tails && s'.seenHead == s.seenHead && s'.cons == s.cons && s'.popped == s.popped
  }

  ghost predicate SameProducerSide<T>(s: State<T>, s': State<T>) {
    s'.heads == s.heads && s'.seenTail == s.seenTail && s'.prod == s.prod && s'.pushed == s.pushed
  }

  /** A `push` whose view leaves room runs to completion, and the consumer's side is untouched. */
  lemma {:induction false} PushCompletes<T>(start: State<T>, before: seq<Action<T>>, v: T, pos: nat)
    requires IsRun(start, before)
    requires var s := After(start, before);
             Inv(s) && s.prod.PIdle? && s.seenTail <= pos < |s.tails| && |s.pushed| - pos < |s.slots| - 1
    ensures var all := before + [PushBegin(v), PushCheck(pos), PushWrite, PushStore];
            && IsRun(start, all)
            && var s, end := After(start, before), After(start, all);
               && Inv(end) && end.prod.PIdle? && end.seenTail == pos
               && end.pushed == s.pushed + [v]
               && |end.slots| == |s.slots| && SameConsumerSide(s, end)
  {
    hide IndexLog, Views, ProducerAt, ConsumerAt, SlotsHold, ReadDates, IsRun, After;
    var s := After(start, before);
    var s1 := Advance(start, before, PushBegin(v));
    PushCheckOutcome(s1, pos);
    var s2 := Advance(start, before + [PushBegin(v)], PushCheck(pos));
    var s3 := Advance(start, before + [PushBegin(v)] + [PushCheck(pos)], PushWrite);
    var s4 := Advance(start, before + [PushBegin(v)] + [PushCheck(pos)] + [PushWrite], PushStore);
    assert before + [PushBegin(v)] + [PushCheck(pos)] + [PushWrite] + [PushStore]
        == before + [PushBegin(v), PushCheck(pos), PushWrite, PushStore];
  }

  lemma {:induction false} PopCompletes<T>(start: State<T>, before: seq<Action<T>>, pos: nat)
    requires IsRun(start, before)
    requires var s := After(start, before);
             Inv(s) && s.cons.CIdle? && s.seenHead <= pos < |s.heads| && |s.popped| < pos
    ensures var all := before + [PopBegin, PopCheck(pos), PopRead, PopStore];
            && IsRun(start, all)
            && var s, end := After(start, before), After(start, all);
               && Inv(end) && end.cons.CIdle? && end.seenHead == pos
               && end.popped == s.popped + [s.pushed[|s.popped|]]
               && |end.slots| == |s.slots| && SameProducerSide(s, end)
  {
    hide IndexLog, Views, ProducerAt, ConsumerAt, SlotsHold, ReadDates, IsRun, After;
    var s := After(start, before);
    var s1 := Advance(start, before, PopBegin);
    PopCheckOutcome(s1, pos);
    var s2 := Advance(start, before + [PopBegin], PopCheck(pos));
    var s3 := Advance(start, before + [PopBegin] + [PopCheck(pos)], PopRead);
    PoppedIsOldest(s3, PopStore);
    var s4 := Advance(start, before + [PopBegin] + [PopCheck(pos)] + [PopRead], PopStore);
    assert before + [PopBegin] + [PopCheck(pos)] + [PopRead] + [PopStore]
        == before + [PopBegin, PopCheck(pos), PopRead, PopStore];
  }

  lemma {:induction false} Advance<T>(start: State<T>, before: seq<Action<T>>, a: Action<T>) returns (s': State<T>)
    requires IsRun(start, before) && Inv(After(start, before)) && Enabled(After(start, before), a)
    ensures IsRun(start, before + [a]) && After(start, before + [a]) == s'
    ensures s' == Apply(After(start, before), a) && Inv(s')
  {
    RunThen(start, before, a);
    StepKeepsInv(After(start, before), a);
    s' := Apply(After(start, before), a);
  }

  /** How many values the completed operations of a run have added. */
  function Net<T>(actions: seq<Action<T>>): int {
    if actions == [] then 0 else
    Net(actions[..|actions| - 1]) + Weight(actions[|actions| - 1])
  }

  function Weight<T>(a: Action<T>): int {
    if a.PushStore? then 1 else if a.PopStore? then -1 else 0
  }

  lemma {:induction false} SplitRun<T>(s: State<T>, actions: seq<Action<T>>, n: nat)
    requires IsRun(s, actions) && n <= |actions|
    ensures IsRun(s, actions[..n])
    ensures n < |actions| ==> Enabled(After(s, actions[..n]), actions[n])
    decreases |actions|
  {
    if n > 0 {
      assert actions[..n][1..] == actions[1..][..n - 1];
      SplitRun(Apply(s, actions[0]), actions[1..], n - 1);
    }
  }

  /** From a fresh ring, what memory holds is what the completed operations add up to. */
  lemma {:induction false} ContentsCount<T>(s: State<T>, actions: seq<Action<T>>, n: nat)
    requires Init(s) && IsRun(s, actions) && n <= |actions|
    ensures IsRun(s, actions[..n])
    ensures var t := After(s, actions[..n]);
            Inv(t) && WellShaped(t) && |t.slots| == |s.slots| && |Contents(t)| == Net(actions[..n])
    decreases n
  {
    hide Apply, Inv, Contents, Enabled, IsRun, After;
    InitEstablishesInv(s);
    SplitRun(s, actions, n);
    RunRefinesFifo(s, actions[..n]);
    var t := After(s, actions[..n]);
    InvWellShaped(t);
    ContentsArePending(t);
    if n == 0 {
      NoActions(s);
      assert actions[..0] == [];
    } else {
      ContentsCount(s, actions, n - 1);
      var t' := After(s, actions[..n - 1]);
      ContentsArePending(t');
      InvWellShaped(t');
      SplitRun(s, actions, n - 1);
      RunThen(s, actions[..n - 1], actions[n - 1]);
      assert actions[..n - 1] + [actions[n - 1]] == actions[..n];
      StepHistory(t', actions[n - 1]);
      NetStep(actions, n - 1);
    }
  }

  lemma NoActions<T>(s: State<T>)
    ensures IsRun(s, []) && After(s, []) == s
  {}

  lemma NetStep<T>(actions: seq<Action<T>>, n: nat)
    requires n < |actions|
    ensures Net(actions[..n + 1]) == Net(actions[..n]) + Weight(actions[n])
  {
    assert actions[..n + 1][..n] == actions[..n];
  }

  /** Push 1, pop it, push 2, and begin to push 3. */
  function PushPopPush(): seq<Action<int>> {
    [PushBegin(1), PushCheck(0), PushWrite, PushStore] + [PopBegin, PopCheck(1), PopRead, PopStore]
    + [PushBegin(2), PushCheck(0), PushWrite, PushStore] + [PushBegin(3)]
  }

  /** No prefix of this run holds more than one value. */
  lemma {:induction false} AtMostOne(n: nat)
    requires n <= |PushPopPush()|
    ensures Net(PushPopPush()[..n]) == if 4 <= n < 8 || 12 <= n then 1 else 0
    decreases n
  {
    hide Net;
    if n == 0 {
      assert PushPopPush()[..0] == [];
      NetOfNone();
    } else {
      AtMostOne(n - 1);
      NetStep(PushPopPush(), n - 1);
    }
  }

  lemma NetOfNone()
    ensures Net<int>([]) == 0
  {}

  /**
   A stale view can refuse a push on a ring that never was full, not at any point of the run:
   with three slots, push 1, pop it, push 2, and then try to push 3 while still seeing no pop.
   */
  lemma {:induction false} StaleViewRefusesWithRoom(s: State<int>)
    requires Init(s) && |s.slots| == 3
    ensures IsRun(s, PushPopPush())
    ensures var t := After(s, PushPopPush());
            Enabled(t, PushCheck(0)) && CheckFails(t, PushCheck(0))
    ensures forall n :: 0 <= n <= |PushPopPush()| ==>
              && IsRun(s, PushPopPush()[..n])
              && var t := After(s, PushPopPush()[..n]); WellShaped(t) && |Contents(t)| < |t.slots| - 1
  {
    hide Views, ProducerAt, ConsumerAt, SlotsHold, ReadDates, Contents, IsRun, After, Net;
    InitEstablishesInv(s);
    var push1 := [PushBegin(1), PushCheck(0), PushWrite, PushStore];
    NoActions(s);
    PushCompletes(s, [], 1, 0);
    assert [] + push1 == push1;
    var pop1: seq<Action<int>> := [PopBegin, PopCheck(1), PopRead, PopStore];
    PopCompletes(s, push1, 1);
    var push2 := [PushBegin(2), PushCheck(0), PushWrite, PushStore];
    PushCompletes(s, push1 + pop1, 2, 0);
    var t := Advance(s, push1 + pop1 + push2, PushBegin(3));
    ContentsArePending(t);
    FailsExactlyWhen(t, 0);
    forall n | 0 <= n <= |PushPopPush()|
      ensures IsRun(s, PushPopPush()[..n])
      ensures var t := After(s, PushPopPush()[..n]); WellShaped(t) && |Contents(t)| < |t.slots| - 1
    {
      ContentsCount(s, PushPopPush(), n);
      AtMostOne(n);
    }
  }

  /** Likewise a stale view can refuse a pop on a ring that holds a value all the while. */
  lemma {:induction false} StaleViewRefusesValue(s: State<int>)
    requires Init(s) && |s.slots| == 3
    ensures var push1 := [PushBegin(1), PushCheck(0), PushWrite, PushStore];
            && IsRun(s, push1) && IsRun(s, push1 + [PopBegin])
            && var before, t := After(s, push1), After(s, push1 + [PopBegin]);
               && WellShaped(before) && Contents(before) == [1]
               && Enabled(t, PopCheck(0)) && CheckFails(t, PopCheck(0)) && Contents(t) == [1]
  {
    hide Views, ProducerAt, ConsumerAt, SlotsHold, ReadDates, Contents, IsRun, After;
    InitEstablishesInv(s);
    var push1 := [PushBegin(1), PushCheck(0), PushWrite, PushStore];
    NoActions(s);
    PushCompletes(s, [], 1, 0);
    assert [] + push1 == push1;
    var before := After(s, push1);
    ContentsArePending(before);
    var t := Advance(s, push1, PopBegin);
    ContentsArePending(t);
    FailsExactlyWhen(t, 0);
  }
}
