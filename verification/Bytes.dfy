/**
 Unsigned fields of fixed width, and the network byte order in which 32-bit words travel.
 Every header of the t4p4s program except Ethernet is a whole number of such words.
 */
module Bytes {
  const TWO8 := 0x100
  const TWO16 := 0x1_0000
  const TWO24 := 0x100_0000
  const TWO32 := 0x1_0000_0000
  const TWO48 := 0x1_0000_0000_0000
  const TWO64 := 0x1_0000_0000_0000_0000

  type U1 = x: int | 0 <= x < 2
  type U2 = x: int | 0 <= x < 4
  type U3 = x: int | 0 <= x < 8
  type U4 = x: int | 0 <= x < 16
  type U5 = x: int | 0 <= x < 32
  type U6 = x: int | 0 <= x < 64
  type U7 = x: int | 0 <= x < 128
  type U8 = x: int | 0 <= x < TWO8
  type U9 = x: int | 0 <= x < 512
  type U13 = x: int | 0 <= x < 8192
  type U16 = x: int | 0 <= x < TWO16
  type U24 = x: int | 0 <= x < TWO24
  type U32 = x: int | 0 <= x < TWO32
  type U48 = x: int | 0 <= x < TWO48
  type U64 = x: int | 0 <= x < TWO64

  type Byte = U8

  /** A 16-bit field after `n` is added to it. */
  function Plus16(x: U16, n: nat): U16 {
    (x + n) % TWO16
  }

  /** Wrapping before and after an addition is wrapping once. */
  lemma Wrap16(y: nat, n: nat)
    ensures (y % TWO16 + n) % TWO16 == (y + n) % TWO16
  {}

  lemma Wrap8(y: nat, n: nat)
    ensures (y % TWO8 + n) % TWO8 == (y + n) % TWO8
  {}

  /** The byte of `w` at position `k`, the most significant being at 0. */
  function ByteOf(w: U32, k: nat): Byte
    requires k < 4
  {
    if k == 0 then w / TWO24
    else if k == 1 then w / TWO16 % TWO8
    else if k == 2 then w / TWO8 % TWO8
    else w % TWO8
  }

  /** The 16-bit field at byte `at`, most significant byte first. */
  function Be16(bs: seq<Byte>, at: nat): U16
    requires at + 2 <= |bs|
  {
    bs[at] * TWO8 + bs[at + 1]
  }

  /** Bytes with the 16-bit field at `at` replaced. */
  function Put16(bs: seq<Byte>, at: nat, x: U16): (r: seq<Byte>)
    requires at + 2 <= |bs|
    ensures |r| == |bs|
  {
    bs[at := x / TWO8][at + 1 := x % TWO8]
  }

  lemma PutSame16(bs: seq<Byte>, at: nat)
    requires at + 2 <= |bs|
    ensures Put16(bs, at, Be16(bs, at)) == bs
  {}

  lemma Get16(bs: seq<Byte>, at: nat, x: U16)
    requires at + 2 <= |bs|
    ensures Be16(Put16(bs, at, x), at) == x
  {}

  /** The word made of four bytes, most significant first. */
  function Word4(a: Byte, b: Byte, c: Byte, d: Byte): U32 {
    a * TWO24 + b * TWO16 + c * TWO8 + d
  }

  /** The word made of two half-words, and its halves. */
  function Word2(hi: U16, lo: U16): U32 {
    hi * TWO16 + lo
  }

  function Hi(w: U32): U16 {
    w / TWO16
  }

  function Lo(w: U32): U16 {
    w % TWO16
  }

  /** The word whose first byte is at `at`. */
  function WordAt(bs: seq<Byte>, at: nat): U32
    requires at + 4 <= |bs|
  {
    Word4(bs[at], bs[at + 1], bs[at + 2], bs[at + 3])
  }

  function ToBytes(ws: seq<U32>): (bs: seq<Byte>)
    ensures |bs| == 4 * |ws|
  {
    seq(4 * |ws|, i requires 0 <= i < 4 * |ws| => ByteOf(ws[i / 4], i % 4))
  }

  function ToWords(bs: seq<Byte>): (ws: seq<U32>)
    requires |bs| % 4 == 0
    ensures 4 * |ws| == |bs|
  {
    seq(|bs| / 4, i requires 0 <= i < |bs| / 4 => WordAt(bs, 4 * i))
  }

  lemma {:induction false} WordOfItsBytes(w: U32)
    ensures Word4(ByteOf(w, 0), ByteOf(w, 1), ByteOf(w, 2), ByteOf(w, 3)) == w
  {
    assert w / TWO8 / TWO8 == w / TWO16;
    assert w / TWO16 / TWO8 == w / TWO24;
  }

  lemma {:induction false} WordsSurviveTransport(ws: seq<U32>)
    ensures ToWords(ToBytes(ws)) == ws
  {
    var bs := ToBytes(ws);
    forall i | 0 <= i < |ws|
      ensures ToWords(bs)[i] == ws[i]
    {
      WordAtBytes(ws, i, bs, 0);
    }
  }

  /** Word `i` of an encoding that starts at `at` of a longer byte string. */
  lemma {:induction false} WordAtBytes(ws: seq<U32>, i: nat, bs: seq<Byte>, at: nat)
    requires i < |ws| && at + 4 * |ws| <= |bs|
    requires bs[at..at + 4 * |ws|] == ToBytes(ws)
    ensures WordAt(bs, at + 4 * i) == ws[i]
  {
    hide ToBytes, ByteOf, Word4;
    ByteAt(ws, i, 0);
    ByteAt(ws, i, 1);
    ByteAt(ws, i, 2);
    ByteAt(ws, i, 3);
    var enc := bs[at..at + 4 * |ws|];
    assert bs[at + 4 * i] == enc[4 * i] && bs[at + 4 * i + 1] == enc[4 * i + 1];
    assert bs[at + 4 * i + 2] == enc[4 * i + 2] && bs[at + 4 * i + 3] == enc[4 * i + 3];
    WordOfItsBytes(ws[i]);
  }

  lemma ByteAt(ws: seq<U32>, i: nat, j: nat)
    requires i < |ws| && j < 4
    ensures 4 * i + j < |ToBytes(ws)| && ToBytes(ws)[4 * i + j] == ByteOf(ws[i], j)
  {
    hide ByteOf;
    assert (4 * i + j) / 4 == i && (4 * i + j) % 4 == j;
  }

  lemma {:induction false} BytesSurviveParsing(bs: seq<Byte>)
    requires |bs| % 4 == 0
    ensures ToBytes(ToWords(bs)) == bs
  {
    var ws := ToWords(bs);
    forall i | 0 <= i < |bs|
      ensures ToBytes(ws)[i] == bs[i]
    {
      var j := i / 4;
      BytesOfWord(bs[4 * j], bs[4 * j + 1], bs[4 * j + 2], bs[4 * j + 3]);
      assert ws[j] == WordAt(bs, 4 * j);
    }
  }

  lemma {:induction false} BytesOfWord(a: Byte, b: Byte, c: Byte, d: Byte)
    ensures var w := Word4(a, b, c, d);
            ByteOf(w, 0) == a && ByteOf(w, 1) == b && ByteOf(w, 2) == c && ByteOf(w, 3) == d
  {
    var w := Word4(a, b, c, d);
    assert w / TWO16 == a * TWO8 + b;
    assert w / TWO8 == a * TWO16 + b * TWO8 + c;
  }

  /** The bytes and halves of a word read at `at`. */
  lemma {:induction false} BytesAtWord(bs: seq<Byte>, at: nat)
    requires at + 4 <= |bs|
    ensures ByteOf(WordAt(bs, at), 0) == bs[at] && ByteOf(WordAt(bs, at), 1) == bs[at + 1]
    ensures ByteOf(WordAt(bs, at), 2) == bs[at + 2] && ByteOf(WordAt(bs, at), 3) == bs[at + 3]
    ensures Hi(WordAt(bs, at)) == Be16(bs, at) && Lo(WordAt(bs, at)) == Be16(bs, at + 2)
  {
    BytesOfWord(bs[at], bs[at + 1], bs[at + 2], bs[at + 3]);
  }

  /** Equal slices are equal byte for byte. */
  lemma SameBytes(a: seq<Byte>, b: seq<Byte>, at: nat, n: nat)
    requires at + n <= |a| && at + n <= |b| && a[at..at + n] == b[at..at + n]
    ensures forall i :: at <= i < at + n ==> a[i] == b[i]
  {
    forall i | at <= i < at + n
      ensures a[i] == b[i]
    {
      assert a[at..at + n][i - at] == a[i] && b[at..at + n][i - at] == b[i];
    }
  }

  lemma HalvesOfWord(hi: U16, lo: U16)
    ensures Hi(Word2(hi, lo)) == hi && Lo(Word2(hi, lo)) == lo
  {}

  lemma WordOfItsHalves(w: U32)
    ensures Word2(Hi(w), Lo(w)) == w
  {}

  lemma {:induction false} ToBytesAppend(a: seq<U32>, b: seq<U32>)
    ensures ToBytes(a + b) == ToBytes(a) + ToBytes(b)
  {
    forall i | 0 <= i < 4 * |a + b|
      ensures ToBytes(a + b)[i] == (ToBytes(a) + ToBytes(b))[i]
    {
      if i >= 4 * |a| {
        assert (i - 4 * |a|) / 4 == i / 4 - |a| && (i - 4 * |a|) % 4 == i % 4;
      }
    }
  }
}
