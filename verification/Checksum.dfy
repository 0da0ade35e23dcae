/**
 The IPv4 header checksum: the full one's complement sum of RFC 791 (section 3.1) and the
 incremental update of `int.p4`, which is that of RFC 1624 (section 3).
 */
module Checksum {
  import opened Bytes

  function Not16(x: U16): U16 {
    0xffff - x
  }

  /** `ip_checksum_sub`: one's complement subtraction on the complemented field. */
  function SubFrom(checksum: U16, value: U16): U16 {
    var c := Not16(checksum);
    Not16(if c >= value then c - value else c - value + 0xffff)
  }

  /** `ip_checksum_add`: one's complement addition, with end-around carry. */
  function AddTo(checksum: U16, value: U16): U16 {
    var c := Not16(checksum);
    Not16(if c + value < TWO16 then c + value else c + value - 0xffff)
  }

  // ---------------------------------------------------------------------------
  // The reference: sum everything, fold the carries, complement
  // ---------------------------------------------------------------------------

  function Sum(ws: seq<U16>): nat {
    if ws == [] then 0 else ws[0] + Sum(ws[1..])
  }

  /** The half-words of 32-bit words, summed. */
  function WordSum(ws: seq<U32>): nat {
    if ws == [] then 0 else Hi(ws[0]) + Lo(ws[0]) + WordSum(ws[1..])
  }

  lemma {:induction false} WordSumAppend(a: seq<U32>, b: seq<U32>)
    ensures WordSum(a + b) == WordSum(a) + WordSum(b)
  {
    hide Hi, Lo;
    if a == [] {
      assert a + b == b;
    } else {
      assert (a + b)[1..] == a[1..] + b;
      WordSumAppend(a[1..], b);
    }
  }

  lemma WordSumOne(w: U32)
    ensures WordSum([w]) == Hi(w) + Lo(w)
  {}

  lemma WordSumTwo(a: U32, b: U32)
    ensures WordSum([a, b]) == WordSum([a]) + WordSum([b])
  {
    assert [a, b][1..] == [b];
  }

  lemma WordSumThree(a: U32, b: U32, c: U32)
    ensures WordSum([a, b, c]) == WordSum([a]) + WordSum([b]) + WordSum([c])
  {
    hide Hi, Lo;
    assert [a, b, c][1..] == [b, c];
    WordSumTwo(b, c);
    WordSumOne(a);
  }

  lemma WordSumFive(a: U32, b: U32, c: U32, d: U32, e: U32)
    ensures WordSum([a, b, c, d, e]) == WordSum([a]) + WordSum([b]) + WordSum([c]) + WordSum([d]) + WordSum([e])
  {
    assert [a, b, c, d, e] == [a, b, c] + [d, e];
    WordSumAppend([a, b, c], [d, e]);
    WordSumThree(a, b, c);
    WordSumTwo(d, e);
  }

  /** End-around carry until the sum fits. */
  function Fold(s: nat): U16
    decreases s
  {
    if s < TWO16 then s else Fold(s % TWO16 + s / TWO16)
  }

  /** The checksum of a header whose half-words other than the checksum are `ws`. */
  function FullChecksum(ws: seq<U16>): U16 {
    Not16(Fold(Sum(ws)))
  }

  /** A header is accepted when all its half-words, checksum included, fold to all ones. */
  predicate Verifies(ws: seq<U16>, checksum: U16) {
    Fold(Sum(ws) + checksum) == 0xffff
  }

  ghost predicate Congruent(x: int, y: int) {
    (x - y) % 0xffff == 0
  }

  lemma {:induction false} Replace(x: int, y: int, z: int)
    requires Congruent(x, y)
    ensures Congruent(x, z) <==> Congruent(y, z)
  {
    var q := (x - y) / 0xffff;
    assert x - z == (y - z) + 0xffff * q;
  }

  lemma {:induction false} FoldKeepsValue(s: nat)
    ensures Congruent(s, Fold(s))
    ensures Fold(s) == 0 <==> s == 0
    decreases s
  {
    if s >= TWO16 {
      var s' := s % TWO16 + s / TWO16;
      FoldKeepsValue(s');
      assert s - s' == 0xffff * (s / TWO16);
      assert Congruent(s, s');
      Replace(s, s', Fold(s'));
    }
  }

  /** Folding a positive sum finds its only representative among 1..0xffff. */
  lemma {:induction false} FoldIs(s: nat, r: U16)
    requires s > 0 && r > 0
    ensures Fold(s) == r <==> Congruent(r, s)
  {
    hide Fold, Congruent;
    FoldKeepsValue(s);
    Replace(s, Fold(s), r);
    Symmetric(r, s);
    OneInRange(Fold(s), r);
  }

  lemma Symmetric(x: int, y: int)
    ensures Congruent(x, y) <==> Congruent(y, x)
  {}

  lemma OneInRange(x: U16, y: U16)
    requires x > 0 && y > 0
    ensures Congruent(x, y) <==> x == y
  {}

  /** Header half-words in which only the first and the total length may change. */
  function HalfWords(first: U16, totalLen: U16, others: seq<U16>): seq<U16> {
    [first, totalLen] + others
  }

  lemma {:induction false} SumOfHalfWords(first: U16, totalLen: U16, others: seq<U16>)
    ensures Sum(HalfWords(first, totalLen, others)) == first + totalLen + Sum(others)
  {
    assert HalfWords(first, totalLen, others)[1..] == [totalLen] + others;
    assert ([totalLen] + others)[1..] == others;
  }

  /** The four updates the ingress control makes around source and transit. */
  function Updated(checksum: U16, first: U16, totalLen: U16, first': U16, totalLen': U16): U16 {
    AddTo(AddTo(SubFrom(SubFrom(checksum, totalLen), first), totalLen'), first')
  }

  /** The complemented field after the updates: the right residue, and not the wrong zero. */
  lemma {:induction false} UpdatedResidue(checksum: U16, first: U16, totalLen: U16, first': U16, totalLen': U16)
    ensures var x := Not16(Updated(checksum, first, totalLen, first', totalLen'));
            && (first' + totalLen' > 0 ==> x >= 1)
            && Congruent(x, Not16(checksum) - totalLen - first + totalLen' + first')
  {
    var a := Not16(SubFrom(checksum, totalLen));
    var b := Not16(SubFrom(SubFrom(checksum, totalLen), first));
    var c := Not16(AddTo(SubFrom(SubFrom(checksum, totalLen), first), totalLen'));
    var x := Not16(Updated(checksum, first, totalLen, first', totalLen'));
    assert a == Not16(checksum) - totalLen || a == Not16(checksum) - totalLen + 0xffff;
    assert b == a - first || b == a - first + 0xffff;
    assert c == b + totalLen' || c == b + totalLen' - 0xffff;
    assert x == c + first' || x == c + first' - 0xffff;
  }

  /**
   The update is exact: for any header, options included, the new field is bit for bit
   the one a full recomputation gives if and only if the old header verified.  A corrupted
   header therefore stays detectable.
   */
  lemma {:induction false} UpdateIsRecomputation(checksum: U16, first: U16, totalLen: U16, first': U16,
          totalLen': U16, others: seq<U16>)
    requires first + totalLen > 0 && first' + totalLen' > 0
    ensures Updated(checksum, first, totalLen, first', totalLen') == FullChecksum(HalfWords(first', totalLen', others))
            <==> Verifies(HalfWords(first, totalLen, others), checksum)
  {
    var before := Sum(HalfWords(first, totalLen, others)) + checksum;
    var after := Sum(HalfWords(first', totalLen', others));
    SumOfHalfWords(first, totalLen, others);
    SumOfHalfWords(first', totalLen', others);
    UpdatedResidue(checksum, first, totalLen, first', totalLen');
    var x := Not16(Updated(checksum, first, totalLen, first', totalLen'));
    var e := Not16(checksum) - totalLen - first + totalLen' + first';
    hide Updated, Fold, Sum;
    FoldIs(after, x);
    Replace(x, e, after);
    assert e - after == 0xffff - before;
    FoldIs(before, 0xffff);
  }

  /** A recomputed checksum verifies, and it is the only value other than 0xffff that does. */
  lemma {:induction false} VerifiesWhenFull(ws: seq<U16>, checksum: U16)
    requires Sum(ws) > 0
    ensures Verifies(ws, checksum) <==> checksum == FullChecksum(ws) || (checksum == 0xffff && FullChecksum(ws) == 0)
  {
    hide Fold, Sum, Congruent;
    var f := Fold(Sum(ws));
    FoldKeepsValue(Sum(ws));
    FoldIs(Sum(ws) + checksum, 0xffff);
    Replace(Sum(ws), f, 0xffff - checksum);
    Opposite(Sum(ws), checksum);
    Complement(f, checksum);
  }

  lemma Opposite(s: int, checksum: U16)
    ensures Congruent(0xffff, s + checksum) <==> Congruent(s, 0xffff - checksum)
  {}

  lemma Complement(f: U16, checksum: U16)
    requires f > 0
    ensures Congruent(f, 0xffff - checksum) <==> checksum == Not16(f) || (checksum == 0xffff && Not16(f) == 0)
  {}

  /** Validity is preserved and reflected by the update. */
  lemma {:induction false} UpdateKeepsValidity(checksum: U16, first: U16, totalLen: U16, first': U16, totalLen': U16,
          others: seq<U16>)
    requires first + totalLen > 0 && first' + totalLen' > 0
    ensures var checksum' := Updated(checksum, first, totalLen, first', totalLen');
            Verifies(HalfWords(first', totalLen', others), checksum') <==>
            Verifies(HalfWords(first, totalLen, others), checksum)
  {
    UpdateIsRecomputation(checksum, first, totalLen, first', totalLen', others);
    SumOfHalfWords(first', totalLen', others);
    VerifiesWhenFull(HalfWords(first', totalLen', others), Updated(checksum, first, totalLen, first', totalLen'));
    UpdatedResidue(checksum, first, totalLen, first', totalLen');
  }

  /**
   Without a non-zero word to add, the update can keep the wrong representation of zero:
   here it leaves 0xffff in the field where a recomputation gives 0.
   */
  lemma {:induction false} AddingOnlyZerosIsInexact()
    ensures Verifies(HalfWords(0, 1, [0xffff]), 0xfffe)
    ensures Updated(0xfffe, 0, 1, 0, 0) == 0xffff
    ensures FullChecksum(HalfWords(0, 0, [0xffff])) == 0
  {
    SumOfHalfWords(0, 1, [0xffff]);
    SumOfHalfWords(0, 0, [0xffff]);
    assert Sum([0xffff]) == 0xffff;
  }
}
