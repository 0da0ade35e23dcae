/**
 Slot indices of a ring.  `Slot(i, n)` is where the `i`-th element of an unbounded
 stream lives in a ring of `n` slots: the remainder, defined by laps so that proofs
 about it need no non-linear arithmetic.
 */
module Modular {

  function Slot(i: nat, n: nat): (slot: nat)
    requires n > 0
    ensures slot < n
  {
    if i < n then i else Slot(i - n, n)
  }

  /** `Slot` is the remainder the program computes. */
  lemma {:induction false} SlotIsRemainder(i: nat, n: nat)
    requires n > 0
    ensures Slot(i, n) == i % n
    decreases i
  {
    if i < n {
      Remainder(i, 0, i, n);
    } else {
      SlotIsRemainder(i - n, n);
      Remainder(i - n, (i - n) / n, (i - n) % n, n);
      assert n * ((i - n) / n + 1) == n * ((i - n) / n) + n;
      Remainder(i, (i - n) / n + 1, (i - n) % n, n);
    }
  }

  /** Quotient and remainder are unique. */
  lemma {:induction false} Remainder(x: int, q: int, r: int, n: nat)
    requires 0 <= r < n && x == n * q + r
    ensures x % n == r && x / n == q
  {
    var d := x / n - q;
    assert n * d == n * (x / n) - n * q;
    assert x % n - r == -(n * d);
    Multiple(n, d);
  }

  /** A non-zero multiple of `n` is at least `n` away from zero. */
  lemma Multiple(n: nat, d: int)
    ensures d >= 1 ==> n * d >= n
    ensures d <= -1 ==> n * d <= -(n as int)
    ensures d == 0 ==> n * d == 0
  {}

  /** Wrapping after one step, as the program does, lands in the slot of the successor. */
  lemma {:induction false} NextSlot(i: nat, n: nat)
    requires n > 0
    ensures Slot(i + 1, n) == (if Slot(i, n) + 1 == n then 0 else Slot(i, n) + 1)
    decreases i
  {
    if i >= n {
      NextSlot(i - n, n);
    }
  }

  /** A whole lap leads back to the same slot. */
  lemma SlotPeriod(i: nat, n: nat)
    requires n > 0
    ensures Slot(i + n, n) == Slot(i, n)
  {}

  /** Two counters less than one lap apart never share a slot. */
  lemma {:induction false} SlotsDistinct(a: nat, b: nat, n: nat)
    requires a < b < a + n
    ensures Slot(a, n) != Slot(b, n)
    decreases a
  {
    if a >= n {
      SlotsDistinct(a - n, b - n, n);
    }
  }

  /** The slot `k` places after that of `i`, for `k` within one lap. */
  lemma {:induction false} OffsetSlot(i: nat, k: nat, n: nat)
    requires k < n
    ensures Slot(i + k, n) == (if Slot(i, n) + k < n then Slot(i, n) + k else Slot(i, n) + k - n)
    decreases i
  {
    if i >= n {
      OffsetSlot(i - n, k, n);
    }
  }

  /** Counters in the same slot, one strictly below, are at least a lap apart. */
  lemma {:induction false} SameSlotLap(a: nat, b: nat, n: nat)
    requires n > 0 && a < b && Slot(a, n) == Slot(b, n)
    ensures a + n <= b
  {
    if b < a + n {
      SlotsDistinct(a, b, n);
    }
  }

  /** The step the program takes: one up, wrapping at `n`. */
  lemma {:induction false} NextWraps(i: nat, n: nat)
    requires i < n
    ensures (i + 1) % n == if i + 1 == n then 0 else i + 1
  {
    if i + 1 == n {
      Remainder(i + 1, 1, 0, n);
    } else {
      Remainder(i + 1, 0, i + 1, n);
    }
  }

  /**
   How many round-robin steps from index `from` until index `k` comes up: the next index
   has turn 1 and `from` itself comes last, at turn `n`.
   */
  function Turn(from: nat, k: nat, n: nat): (turn: nat)
    requires from < n && k < n
    ensures 1 <= turn <= n
  {
    if k > from then k - from else k + n - from
  }
}
