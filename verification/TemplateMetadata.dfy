/**
 The metadata a template node puts into a packet, byte by byte: which headers, in which order,
 and that what stands in them is what the node's target and configuration supplied.
 */
module TemplateMetadata {
  import opened Bytes
  import opened Options
  import opened Template
  import opened TemplateChecksum
  import opened TemplatePath
  import opened TemplateWire

  /** Where metadata header `k` starts: behind those before it, of which time stamps take 8 bytes. */
  function Behind(headers: set<nat>, k: nat): nat {
    if k == 0 then 0
    else Behind(headers, k - 1) + if k - 1 !in headers then 0 else if k - 1 == 4 || k - 1 == 5 then 8 else 4
  }

  /** The bytes of metadata header `k`, at `at`: what it holds for each header, the rest being zero. */
  predicate HeaderAt(ctx: Context, k: nat, bs: seq<Byte>, at: nat) {
    && at + (if k == 4 || k == 5 then 8 else 4) <= |bs|
    && match k
       case 0 => WordAt(bs, at) == ctx.switchId
       case 1 => Be16(bs, at) == ctx.ingressPort && Be16(bs, at + 2) == ctx.egressPort
       case 4 => WordAt(bs, at) * 0x1_0000_0000 + WordAt(bs, at + 4) == ctx.ingressTs
       case 5 => WordAt(bs, at) == 0 && WordAt(bs, at + 4) == 0
       case _ => WordAt(bs, at) == 0
  }

  /** All headers of a set, each at its place from `at` on, and nothing between or behind them. */
  predicate MetadataAt(ctx: Context, headers: set<nat>, bs: seq<Byte>, at: nat) {
    && at + Behind(headers, 8) <= |bs|
    && forall k :: 0 <= k < 8 && k in headers ==> HeaderAt(ctx, k, bs, at + Behind(headers, k))
  }

  lemma WordOfTwo(a: U16, b: U16, bs: seq<Byte>)
    requires bs == [a / 256, a % 256, b / 256, b % 256]
    ensures Be16(bs, 0) == a && Be16(bs, 2) == b && WordAt(bs, 0) == Word2(a, b)
  {}

  lemma {:induction false} TwoWordBytes(ws: seq<U16>)
    requires |ws| == 2
    ensures Bytes16(ws) == [ws[0] / 256, ws[0] % 256, ws[1] / 256, ws[1] % 256]
  {
    assert Bytes16(ws[1..]) == [ws[1] / 256, ws[1] % 256] + Bytes16(ws[1..][1..]);
    assert ws[1..][1..] == [];
  }

  /** What a node writes into header `k`, read back. */
  lemma {:induction false} HeaderReads(ctx: Context, k: nat)
    requires k < 8
    ensures |Bytes16(MetaWords(ctx, k))| == if k == 4 || k == 5 then 8 else 4
    ensures HeaderAt(ctx, k, Bytes16(MetaWords(ctx, k)), 0)
  {
    var ws := MetaWords(ctx, k);
    if k == 4 || k == 5 {
      FourWords(ws);
      StampSplits(ctx.ingressTs);
      hide Word2, Hi, Lo;
      if k == 4 {
        WordOfItsHalves(ctx.ingressTs / TWO32);
        WordOfItsHalves(ctx.ingressTs % TWO32);
      } else {
        ZeroIsZero();
      }
    } else {
      TwoWordBytes(ws);
      WordOfTwo(ws[0], ws[1], Bytes16(ws));
      hide WordAt, Be16, Bytes16;
      if k == 0 {
        WordOfItsHalves(ctx.switchId);
      } else {
        ZeroIsZero();
      }
    }
  }

  lemma ZeroIsZero()
    ensures Word2(0, 0) == 0
  {}

  lemma StampSplits(ts: U64)
    ensures ts / TWO32 * 0x1_0000_0000 + ts % TWO32 == ts
  {}

  lemma {:induction false} FourWords(ws: seq<U16>)
    requires |ws| == 4
    ensures |Bytes16(ws)| == 8
    ensures WordAt(Bytes16(ws), 0) == Word2(ws[0], ws[1]) && WordAt(Bytes16(ws), 4) == Word2(ws[2], ws[3])
  {
    var a, b := ws[..2], ws[2..];
    assert ws == a + b;
    Bytes16Append(a, b);
    TwoWordBytes(a);
    TwoWordBytes(b);
    hide Word2, Bytes16;
    WordOfTwo(a[0], a[1], Bytes16(a));
    WordOfTwo(b[0], b[1], Bytes16(b));
  }

  lemma HeaderMoves(ctx: Context, k: nat, a: seq<Byte>, i: nat, b: seq<Byte>, j: nat)
    requires HeaderAt(ctx, k, a, i)
    requires var n := if k == 4 || k == 5 then 8 else 4; j + n <= |b| && a[i..i + n] == b[j..j + n]
    ensures HeaderAt(ctx, k, b, j)
  {
    var n := if k == 4 || k == 5 then 8 else 4;
    SameWord(a, i, b, j, a[i..i + n], 0);
    if n == 8 {
      SameWord(a, i, b, j, a[i..i + n], 4);
    }
    hide WordAt, Be16;
  }

  lemma SameWord(a: seq<Byte>, i: nat, b: seq<Byte>, j: nat, slice: seq<Byte>, at: nat)
    requires i + |slice| <= |a| && j + |slice| <= |b| && at + 4 <= |slice|
    requires a[i..i + |slice|] == slice == b[j..j + |slice|]
    ensures WordAt(a, i + at) == WordAt(b, j + at)
    ensures Be16(a, i + at) == Be16(b, j + at) && Be16(a, i + at + 2) == Be16(b, j + at + 2)
  {
    assert slice[at] == a[i + at] == b[j + at] && slice[at + 1] == a[i + at + 1] == b[j + at + 1];
    assert slice[at + 2] == a[i + at + 2] == b[j + at + 2] && slice[at + 3] == a[i + at + 3] == b[j + at + 3];
  }

  /** The headers below `upTo`, and nothing else. */
  predicate EmittedAt(ctx: Context, headers: set<nat>, upTo: nat, bs: seq<Byte>) {
    && |bs| == Behind(headers, upTo)
    && forall k :: 0 <= k < upTo && k in headers ==> HeaderAt(ctx, k, bs, Behind(headers, k))
  }

  /** One more header behind those before it. */
  lemma {:induction false} EmittedNext(ctx: Context, headers: set<nat>, k: nat, front: seq<Byte>, next: seq<Byte>)
    requires EmittedAt(ctx, headers, k, front) && k in headers
    requires |next| == (if k == 4 || k == 5 then 8 else 4) && HeaderAt(ctx, k, next, 0)
    ensures EmittedAt(ctx, headers, k + 1, front + next)
  {
    hide HeaderAt;
    var bs := front + next;
    assert bs[|front|..|front| + |next|] == next[0..0 + |next|];
    HeaderMoves(ctx, k, next, 0, bs, |front|);
    hide Behind;
    forall m | 0 <= m < k && m in headers
      ensures HeaderAt(ctx, m, bs, Behind(headers, m))
    {
      var at, n := Behind(headers, m), if m == 4 || m == 5 then 8 else 4;
      Fits(ctx, m, front, at);
      assert front[at..at + n] == bs[at..at + n];
      HeaderMoves(ctx, m, front, at, bs, at);
    }
  }

  lemma {:induction false} EmittedUpTo(ctx: Context, headers: set<nat>, upTo: nat)
    requires upTo <= 8
    ensures EmittedAt(ctx, headers, upTo, Bytes16(AddedWords(ctx, headers, upTo)))
    decreases upTo
  {
    hide HeaderAt, MetaWords, Bytes16;
    if upTo == 0 {
      NoBytes(ctx, headers);
    } else {
      var k := upTo - 1;
      EmittedUpTo(ctx, headers, k);
      var front := AddedWords(ctx, headers, k);
      if k in headers {
        HeaderReads(ctx, k);
        Bytes16Append(front, MetaWords(ctx, k));
        EmittedNext(ctx, headers, k, Bytes16(front), Bytes16(MetaWords(ctx, k)));
      } else {
        assert AddedWords(ctx, headers, upTo) == front;
      }
    }
  }

  lemma NoBytes(ctx: Context, headers: set<nat>)
    ensures Bytes16(AddedWords(ctx, headers, 0)) == []
  {}

  lemma Fits(ctx: Context, k: nat, bs: seq<Byte>, at: nat)
    requires HeaderAt(ctx, k, bs, at)
    ensures at + (if k == 4 || k == 5 then 8 else 4) <= |bs|
  {}

  /** The bytes of one node's metadata. */
  lemma {:induction false} MetadataIs(ctx: Context, mask: U16)
    ensures |Metadata(ctx, mask)| == Behind(HeadersOf(mask), 8)
    ensures MetadataAt(ctx, HeadersOf(mask), Metadata(ctx, mask), 0)
  {
    hide HeaderAt, Behind, HeadersOf;
    EmittedUpTo(ctx, HeadersOf(mask), 8);
  }

  lemma {:induction false} MetadataStays(ctx: Context, headers: set<nat>, m: seq<Byte>, front: seq<Byte>,
                                         back: seq<Byte>)
    requires MetadataAt(ctx, headers, m, 0)
    ensures MetadataAt(ctx, headers, front + m + back, |front|)
  {
    hide HeaderAt, Behind;
    var all := front + m + back;
    forall k | 0 <= k < 8 && k in headers
      ensures HeaderAt(ctx, k, all, |front| + Behind(headers, k))
    {
      var at := Behind(headers, k);
      Fits(ctx, k, m, at);
      var n := if k == 4 || k == 5 then 8 else 4;
      assert all[|front| + at..|front| + at + n] == m[at..at + n];
      HeaderMoves(ctx, k, m, at, all, |front| + at);
    }
  }

  /**
   What one node with hops left puts in front of the payload it received: every header its mask
   yields, in the order of their numbers, each holding this node's own figures.
   */
  lemma {:induction false} NodeInsertsMetadata(limits: Limits, ctx: Context, p: TPacket)
    requires Carrying(p.h) && HopsLeft(limits, p.h) > 0
    ensures var q, headers := Node(limits, ctx, p), HeadersOf(Mask(p.h));
            && MetadataAt(ctx, headers, q.payload, 0)
            && q.payload[Behind(headers, 8)..] == p.payload
  {
    hide Node, HeadersOf, WordsOf, HeaderAt, Behind, Metadata, EndingCE, HopWords, HopsLeft, Advanced, MetadataAt;
    HopLimit(limits, [ctx], p);
    OneNode(limits, ctx, p);
    var m := Metadata(ctx, Mask(p.h));
    MetadataIs(ctx, Mask(p.h));
    MetadataStays(ctx, HeadersOf(Mask(p.h)), m, [], p.payload);
    assert [] + m + p.payload == m + p.payload;
  }

  lemma OneNode(limits: Limits, ctx: Context, p: TPacket)
    requires Carrying(p.h) && HopsLeft(limits, p.h) > 0
    ensures Run(limits, [ctx], p) == Node(limits, ctx, p)
    ensures [ctx][..Adding(limits, p.h, 1)] == [ctx] && Stack([ctx], Mask(p.h)) == Metadata(ctx, Mask(p.h))
  {
    hide Node, HopsLeft, Metadata;
    assert [ctx][..0] == [];
  }

  /** Where the metadata of the `j`-th last node starts, when each node's takes `width` bytes. */
  function BlockAt(j: nat, width: nat): nat {
    if j == 0 then 0 else BlockAt(j - 1, width) + width
  }

  lemma {:induction false} StackHolds(ctxs: seq<Context>, mask: U16, j: nat)
    requires j <= |ctxs|
    ensures var headers := HeadersOf(mask);
            && |Stack(ctxs, mask)| == BlockAt(|ctxs|, Behind(headers, 8))
            && (j < |ctxs| ==>
                  MetadataAt(ctxs[|ctxs| - 1 - j], headers, Stack(ctxs, mask), BlockAt(j, Behind(headers, 8))))
    decreases |ctxs|
  {
    hide HeadersOf, Metadata, MetadataAt, Behind;
    if ctxs != [] {
      var n, headers := |ctxs| - 1, HeadersOf(mask);
      var first, rest := Metadata(ctxs[n], mask), Stack(ctxs[..n], mask);
      MetadataIs(ctxs[n], mask);
      StackHolds(ctxs[..n], mask, if j == 0 then 0 else j - 1);
      if j == 0 {
        MetadataStays(ctxs[n], headers, first, [], rest);
        assert [] + first + rest == first + rest;
      } else if j < |ctxs| {
        var ctx, at, width := ctxs[n - j], BlockAt(j - 1, Behind(headers, 8)), Behind(headers, 8);
        assert ctx == ctxs[..n][n - 1 - (j - 1)];
        MetadataWithin(ctx, headers, rest, at);
        var block := rest[at..at + width];
        MetadataOfSlice(ctx, headers, rest, at);
        MetadataStays(ctx, headers, block, first + rest[..at], rest[at + width..]);
        assert (first + rest[..at]) + block + rest[at + width..] == first + rest;
      }
    }
  }

  lemma MetadataWithin(ctx: Context, headers: set<nat>, bs: seq<Byte>, at: nat)
    requires MetadataAt(ctx, headers, bs, at)
    ensures at + Behind(headers, 8) <= |bs|
  {}

  lemma {:induction false} MetadataOfSlice(ctx: Context, headers: set<nat>, bs: seq<Byte>, at: nat)
    requires MetadataAt(ctx, headers, bs, at)
    ensures at + Behind(headers, 8) <= |bs|
    ensures MetadataAt(ctx, headers, bs[at..at + Behind(headers, 8)], 0)
  {
    hide HeaderAt, Behind;
    var width := Behind(headers, 8);
    var block := bs[at..at + width];
    forall k | 0 <= k < 8 && k in headers
      ensures HeaderAt(ctx, k, block, Behind(headers, k))
    {
      var n := if k == 4 || k == 5 then 8 else 4;
      InsideBlock(headers, k, 8);
      SliceOfSlice(bs, at, width, Behind(headers, k), n);
      HeaderMoves(ctx, k, bs, at + Behind(headers, k), block, Behind(headers, k));
    }
  }

  lemma SliceOfSlice(bs: seq<Byte>, at: nat, width: nat, i: nat, n: nat)
    requires at + width <= |bs| && i + n <= width
    ensures bs[at + i..at + i + n] == bs[at..at + width][i..i + n]
  {
    var a, b := bs[at + i..at + i + n], bs[at..at + width][i..i + n];
    forall j | 0 <= j < n
      ensures a[j] == b[j]
    {
      assert b[j] == bs[at..at + width][i + j];
    }
  }

  lemma {:induction false} InsideBlock(headers: set<nat>, k: nat, upTo: nat)
    requires k in headers && k < upTo
    ensures Behind(headers, k) + (if k == 4 || k == 5 then 8 else 4) <= Behind(headers, upTo)
    decreases upTo
  {
    if k < upTo - 1 {
      InsideBlock(headers, k, upTo - 1);
    }
  }

  /**
   Along a path: the metadata of each node that still had hops left, the last of them first, each
   with that node's own figures, and behind them all what was there before.
   */
  lemma {:induction false} PathInsertsMetadata(limits: Limits, ctxs: seq<Context>, p: TPacket)
    requires Carrying(p.h)
    ensures var q, used, headers := Run(limits, ctxs, p), Adding(limits, p.h, |ctxs|), HeadersOf(Mask(p.h));
            var width := Behind(headers, 8);
            && (forall j :: 0 <= j < used ==> MetadataAt(ctxs[used - 1 - j], headers, q.payload, BlockAt(j, width)))
            && |q.payload| == BlockAt(used, width) + |p.payload|
            && q.payload[BlockAt(used, width)..] == p.payload
  {
    hide Run, HeadersOf, MetadataAt, Behind, EndingCE, HopWords, Advanced, HopsLeft, Stack;
    HopLimit(limits, ctxs, p);
    var q, used, headers := Run(limits, ctxs, p), Adding(limits, p.h, |ctxs|), HeadersOf(Mask(p.h));
    var stack := Stack(ctxs[..used], Mask(p.h));
    StackHolds(ctxs[..used], Mask(p.h), used);
    forall j | 0 <= j < used
      ensures MetadataAt(ctxs[used - 1 - j], headers, q.payload, BlockAt(j, Behind(headers, 8)))
    {
      StackHolds(ctxs[..used], Mask(p.h), j);
      InFront(ctxs[used - 1 - j], headers, stack, BlockAt(j, Behind(headers, 8)), p.payload);
    }
  }

  /** Metadata stays where it is when something is put behind it. */
  lemma {:induction false} InFront(ctx: Context, headers: set<nat>, bs: seq<Byte>, at: nat, rest: seq<Byte>)
    requires MetadataAt(ctx, headers, bs, at)
    ensures MetadataAt(ctx, headers, bs + rest, at)
  {
    hide MetadataAt, Behind;
    var width := Behind(headers, 8);
    MetadataOfSlice(ctx, headers, bs, at);
    MetadataStays(ctx, headers, bs[at..at + width], bs[..at], bs[at + width..] + rest);
    assert bs[..at] + bs[at..at + width] + (bs[at + width..] + rest) == bs + rest;
  }
}
