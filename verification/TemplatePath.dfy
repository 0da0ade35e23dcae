/**
 Paths of template transit nodes: which nodes add metadata, whether the length fields keep
 up with the bytes on the wire, and whether the UDP checksum survives.
 */
module TemplatePath {
  import opened Bytes
  import opened Options
  import opened Headers
  import opened Checksum
  import opened Template
  import opened TemplateChecksum

  /** The packet after one node for each context. */
  function Run(limits: Limits, ctxs: seq<Context>, p: TPacket): TPacket {
    if ctxs == [] then p else Node(limits, ctxs[|ctxs| - 1], Run(limits, ctxs[..|ctxs| - 1], p))
  }

  function Min(a: nat, b: nat): nat {
    if a < b then a else b
  }

  /** A packet with an INT header, as the parser extracts it. */
  predicate Carrying(h: THeaders) {
    Extracted(h) && h.intHeader.Some?
  }

  /** How many more nodes may add metadata: steps down, modulo 2^16, to the value that stops them. */
  function HopsLeft(limits: Limits, h: THeaders): U16
    requires h.intHeader.Some?
  {
    Minus16(h.intHeader.value.hopInfo, Minus16(limits.hopInfo, limits.maxHop))
  }

  /** How many of the next `n` nodes add metadata. */
  function Adding(limits: Limits, h: THeaders, n: nat): U16
    requires h.intHeader.Some?
  {
    Min(n, HopsLeft(limits, h))
  }

  /** The c and e field after `n` nodes. */
  function EndingCE(limits: Limits, h: THeaders, n: nat): U16
    requires h.intHeader.Some?
  {
    if n > HopsLeft(limits, h) then SetE(CE(h)) else CE(h)
  }

  /**
   A packet from a default-configured source that `used` nodes have added metadata to.  The
   source is the first of them: it runs the transit block on the packet itself.
   */
  predicate Underway(limits: Limits, h: THeaders, used: nat) {
    && Carrying(h) && used <= limits.maxHop
    && h.intHeader.value.hopInfo == Minus16(limits.hopInfo, used) && h.intHeader.value.cE == 0
  }

  lemma UnderwayHops(limits: Limits, h: THeaders, used: nat)
    requires Underway(limits, h, used)
    ensures HopsLeft(limits, h) == limits.maxHop - used
  {}

  /** The metadata of one node, as bytes. */
  function Metadata(ctx: Context, mask: U16): seq<Byte> {
    Bytes16(AddedWords(ctx, HeadersOf(mask), 8))
  }

  /** The metadata of a list of nodes, newest first. */
  function Stack(ctxs: seq<Context>, mask: U16): seq<Byte> {
    if ctxs == [] then [] else Metadata(ctxs[|ctxs| - 1], mask) + Stack(ctxs[..|ctxs| - 1], mask)
  }

  /** The headers once `used` nodes have added metadata and `c_e` is `cE`, checksums apart. */
  function Advanced(h: THeaders, used: U16, cE: U16, words: nat, hdrChecksum: U16, csum: U16): THeaders
    requires h.intHeader.Some?
  {
    var udp := GrowUdp(h.udp, 4 * words);
    h.(intHeader := Some(h.intHeader.value.(hopInfo := Minus16(h.intHeader.value.hopInfo, used), cE := cE)),
       ipv4 := GrowIpv4(h.ipv4, 4 * words).(hdrChecksum := hdrChecksum),
       udp := if udp.Some? then Some(udp.value.(csum := csum)) else None,
       shim := GrowShim(h.shim, words))
  }

  function Mask(h: THeaders): U16
    requires h.intHeader.Some?
  {
    h.intHeader.value.mask
  }

  /** The words the next `n` nodes count: only those within the hop limit count any. */
  function HopWords(limits: Limits, h: THeaders, n: nat): nat
    requires h.intHeader.Some?
  {
    Times(Adding(limits, h, n), WordsOf(Mask(h)))
  }

  function Times(n: nat, w: nat): nat {
    n * w
  }

  /** A node with hops left takes one and adds its metadata. */
  lemma AddingStep(limits: Limits, ctx: Context, p: TPacket, q: TPacket, used: nat, words: nat)
    requires Carrying(p.h) && used < HopsLeft(limits, p.h)
    requires q.h == Advanced(p.h, used, CE(p.h), words, q.h.ipv4.hdrChecksum, UdpCsum(q.h))
    ensures var r, w := Node(limits, ctx, q), WordsOf(Mask(p.h));
            && r.h == Advanced(p.h, used + 1, CE(p.h), words + w, r.h.ipv4.hdrChecksum, UdpCsum(r.h))
            && r.payload == Metadata(ctx, Mask(p.h)) + q.payload
  {
    hide WordsOf, HeadersOf, NewChecksum, AddedWords, Bytes16;
    NotExhausted(limits, p.h, used);
    Wrap16(p.h.ipv4.totalLen + 4 * words, 4 * WordsOf(Mask(p.h)));
    if p.h.udp.Some? {
      Wrap16(p.h.udp.value.len + 4 * words, 4 * WordsOf(Mask(p.h)));
    }
    Wrap8(p.h.shim.value.len + words, WordsOf(Mask(p.h)));
    assert {} + HeadersOf(Mask(p.h)) == HeadersOf(Mask(p.h));
  }

  /** A node without hops left sets the e bit, and that is all. */
  lemma ExceededStep(limits: Limits, ctx: Context, p: TPacket, q: TPacket, cE: U16, words: nat)
    requires Carrying(p.h)
    requires q.h == Advanced(p.h, HopsLeft(limits, p.h), cE, words, q.h.ipv4.hdrChecksum, UdpCsum(q.h))
    ensures var r := Node(limits, ctx, q);
            && r.h == Advanced(p.h, HopsLeft(limits, p.h), SetE(cE), words, r.h.ipv4.hdrChecksum, UdpCsum(r.h))
            && r.payload == q.payload
  {
    hide WordsOf, HeadersOf, NewChecksum, MetaWords, SetE;
    NoneValid(ctx, 8);
    assert Bytes16([]) + q.payload == q.payload;
  }

  /** Fewer steps down than are left never come to the value that stops them. */
  lemma NotExhausted(limits: Limits, h: THeaders, used: nat)
    requires h.intHeader.Some? && used < HopsLeft(limits, h)
    ensures var hop := h.intHeader.value.hopInfo;
            && Minus16(hop, used) != Minus16(limits.hopInfo, limits.maxHop)
            && Minus16(Minus16(hop, used), 1) == Minus16(hop, used + 1)
  {}

  /**
   The hop limit, for any INT packet.  Along a path of any length exactly the next nodes that
   have hops left add their metadata, newest first, and count down; every later one leaves
   lengths, hop field and metadata alone and sets the e bit, which the first of them has
   already set.
   */
  lemma {:induction false} HopLimit(limits: Limits, ctxs: seq<Context>, p: TPacket)
    requires Carrying(p.h)
    ensures var q, n := Run(limits, ctxs, p), |ctxs|;
            && q.h == Advanced(p.h, Adding(limits, p.h, n), EndingCE(limits, p.h, n), HopWords(limits, p.h, n),
                               q.h.ipv4.hdrChecksum, UdpCsum(q.h))
            && q.payload == Stack(ctxs[..Adding(limits, p.h, n)], Mask(p.h)) + p.payload
    decreases |ctxs|
  {
    hide WordsOf, Metadata, Node, Advanced, SetE, CE, HopsLeft;
    var w, left := WordsOf(Mask(p.h)), HopsLeft(limits, p.h);
    if ctxs == [] {
      NoHops(p);
      assert 0 * w == 0;
    } else {
      var n := |ctxs| - 1;
      HopLimit(limits, ctxs[..n], p);
      if n < left {
        AddingStep(limits, ctxs[n], p, Run(limits, ctxs[..n], p), n, n * w);
        assert (n + 1) * w == n * w + w;
        assert ctxs[..n][..n] == ctxs[..n];
        assert ctxs[..n + 1] == ctxs;
      } else {
        ExceededStep(limits, ctxs[n], p, Run(limits, ctxs[..n], p), EndingCE(limits, p.h, n), left * w);
        SetOnce(CE(p.h));
        assert ctxs[..n][..left] == ctxs[..left];
      }
    }
  }

  lemma SetOnce(cE: U16)
    ensures SetE(SetE(cE)) == SetE(cE)
  {}

  lemma NoHops(p: TPacket)
    requires Carrying(p.h)
    ensures p.h == Advanced(p.h, 0, CE(p.h), 0, p.h.ipv4.hdrChecksum, UdpCsum(p.h))
  {}

  // ---------------------------------------------------------------------------
  // Lengths
  // ---------------------------------------------------------------------------

  lemma {:induction false} StackLength(ctxs: seq<Context>, mask: U16)
    ensures |Stack(ctxs, mask)| == 4 * (|ctxs| * WidthOf(HeadersOf(mask)))
  {
    hide WidthOf, HeadersOf, Metadata;
    var w := WidthOf(HeadersOf(mask));
    if ctxs == [] {
      NextMultiple(0, w);
    } else {
      var n := |ctxs| - 1;
      StackLength(ctxs[..n], mask);
      MetadataLength(ctxs[n], mask);
      NextMultiple(n, w);
    }
  }

  lemma MetadataLength(ctx: Context, mask: U16)
    ensures |Metadata(ctx, mask)| == 4 * WidthOf(HeadersOf(mask))
  {
    hide WidthOf, HeadersOf, AddedWords;
    AddedLength(ctx, HeadersOf(mask));
    Aligned(AddedWords(ctx, HeadersOf(mask), 8), []);
  }

  lemma NextMultiple(n: nat, w: nat)
    ensures (n + 1) * w == n * w + w
    ensures 0 * w == 0
  {}

  /** The fields have room for `n` nodes' worth of words. */
  predicate Room(h: THeaders, words: nat) {
    ShimLen(h) + words < TWO8 && h.ipv4.totalLen + 4 * words < TWO16 && UdpLen(h) + 4 * words < TWO16
  }

  /** Every length field has grown by the bytes on the wire. */
  predicate LengthsTrack(p: TPacket, q: TPacket) {
    && |q.payload| - |p.payload| == q.h.ipv4.totalLen - p.h.ipv4.totalLen == 4 * (ShimLen(q.h) - ShimLen(p.h))
    && (p.h.udp.Some? ==> UdpLen(q.h) - UdpLen(p.h) == |q.payload| - |p.payload|)
  }

  lemma TrackExactly(p: TPacket, q: TPacket, used: U16, cE: U16, words: nat)
    requires Carrying(p.h) && Room(p.h, words)
    requires q.h == Advanced(p.h, used, cE, words, q.h.ipv4.hdrChecksum, UdpCsum(q.h))
    ensures ShimLen(q.h) == ShimLen(p.h) + words
    ensures LengthsTrack(p, q) <==> |q.payload| - |p.payload| == 4 * words
  {}

  lemma SameMultiple(n: nat, a: nat, b: nat)
    ensures n * a == n * b <==> a == b || n == 0
    ensures a <= b ==> n * a <= n * b
  {
    assert n * a - n * b == n * (a - b);
  }

  /**
   While they do not wrap, all length fields track the emitted bytes at every hop if and
   only if the mask is not one that counts header 5 twice.
   */
  lemma {:induction false} LengthsTrackBytes(limits: Limits, ctxs: seq<Context>, p: TPacket)
    requires Carrying(p.h) && Room(p.h, HopWords(limits, p.h, |ctxs|))
    ensures LengthsTrack(p, Run(limits, ctxs, p)) <==> !CountsTwice(Mask(p.h)) || Adding(limits, p.h, |ctxs|) == 0
  {
    hide WordsOf, WidthOf, HeadersOf, CountsTwice, Run, Stack, Advanced, LengthsTrack, Room, EndingCE;
    var n, mask, q := |ctxs|, Mask(p.h), Run(limits, ctxs, p);
    var used := Adding(limits, p.h, n);
    HopLimit(limits, ctxs, p);
    StackLength(ctxs[..used], mask);
    CountedIsEmitted(mask);
    TrackExactly(p, q, used, EndingCE(limits, p.h, n), HopWords(limits, p.h, n));
    SameMultiple(used, WordsOf(mask), WidthOf(HeadersOf(mask)));
  }

  /**
   The hop limit keeps the shim's length from wrapping: with at most 25 hops in all, it is the
   source's 5 words and those the nodes so far have counted, whatever the mask.
   */
  lemma {:induction false} ShimLenNeverWraps(limits: Limits, ctxs: seq<Context>, p: TPacket, used: nat)
    requires Underway(limits, p.h, used) && limits.maxHop <= 25
    requires ShimLen(p.h) == 5 + Times(used, WordsOf(Mask(p.h)))
    ensures ShimLen(Run(limits, ctxs, p).h) == 5 + Times(Min(used + |ctxs|, limits.maxHop), WordsOf(Mask(p.h)))
  {
    hide WordsOf, Run, WidthOf, HeadersOf, Stack, Advanced, CountsTwice, EndingCE, HopsLeft, Times;
    var n, w, q := |ctxs|, WordsOf(Mask(p.h)), Run(limits, ctxs, p);
    HopLimit(limits, ctxs, p);
    UnderwayHops(limits, p.h, used);
    var more := Adding(limits, p.h, n);
    assert used + more == Min(used + n, limits.maxHop);
    TimesAdd(used, more, w);
    AtMostTenEach(Mask(p.h), used + more);
    AdvancedShim(p.h, more, EndingCE(limits, p.h, n), Times(more, w), q.h.ipv4.hdrChecksum, UdpCsum(q.h));
  }

  lemma TimesAdd(a: nat, b: nat, w: nat)
    ensures Times(a, w) + Times(b, w) == Times(a + b, w)
  {}

  lemma AtMostTenEach(mask: U16, n: nat)
    ensures Times(n, WordsOf(mask)) <= 10 * n
  {
    CountedIsEmitted(mask);
    hide WordsOf, WidthOf, HeadersOf, CountsTwice;
    SameMultiple(n, WordsOf(mask), 10);
  }

  lemma AdvancedShim(h: THeaders, used: U16, cE: U16, words: nat, hdrChecksum: U16, csum: U16)
    requires h.intHeader.Some? && h.shim.Some?
    ensures ShimLen(Advanced(h, used, cE, words, hdrChecksum, csum)) == (ShimLen(h) + words) % TWO8
  {}

  // ---------------------------------------------------------------------------
  // Checksums
  // ---------------------------------------------------------------------------

  lemma StepIs(limits: Limits, p: TPacket, q: TPacket, used: U16, cE: U16, words: nat)
    requires Carrying(p.h) && used <= HopsLeft(limits, p.h)
    requires q.h == Advanced(p.h, used, cE, words, q.h.ipv4.hdrChecksum, UdpCsum(q.h))
    ensures Extracted(q.h) && (q.h.udp.Some? <==> p.h.udp.Some?)
    ensures SetsError(limits, q.h) <==> used == HopsLeft(limits, p.h) && SetE(cE) != cE
  {
    hide SetE;
    if used < HopsLeft(limits, p.h) {
      NotExhausted(limits, p.h, used);
    }
  }

  /** What the nodes of a path add to the sum a receiver forms: one if they set the e bit. */
  function ErrorAdded(limits: Limits, h: THeaders, n: nat): int
    requires h.intHeader.Some?
  {
    if n > HopsLeft(limits, h) && SetE(CE(h)) != CE(h) then 1 else 0
  }

  /** The e bit is set once at most, by the first node without hops left. */
  lemma ErrorStep(limits: Limits, h: THeaders, n: nat)
    requires h.intHeader.Some?
    ensures var cE := EndingCE(limits, h, n);
            ErrorAdded(limits, h, n + 1) == ErrorAdded(limits, h, n) +
              if Adding(limits, h, n) == HopsLeft(limits, h) && SetE(cE) != cE then 1 else 0
  {
    hide HopsLeft;
    SetOnce(CE(h));
  }

  /** Along a path the sum a receiver forms is kept, but for the one time the e bit is set. */
  lemma {:induction false} PathKeepsSum(limits: Limits, ctxs: seq<Context>, p: TPacket)
    requires Carrying(p.h) && p.h.udp.Some?
    ensures Extracted(Run(limits, ctxs, p).h) && Run(limits, ctxs, p).h.udp.Some?
    ensures Congruent(DatagramSum(Run(limits, ctxs, p)), DatagramSum(p) + ErrorAdded(limits, p.h, |ctxs|))
    decreases |ctxs|
  {
    hide WordsOf, Stack, Node, Advanced, DatagramSum, SetsError, Extracted, Congruent, ErrorAdded, EndingCE, HopWords;
    if ctxs == [] {
      ItselfCongruent(DatagramSum(p));
      NoErrorYet(limits, p.h);
      CarryingExtracted(p.h);
    } else {
      var n := |ctxs| - 1;
      var q := Run(limits, ctxs[..n], p);
      PathKeepsSum(limits, ctxs[..n], p);
      HopLimit(limits, ctxs[..n], p);
      StepIs(limits, p, q, Adding(limits, p.h, n), EndingCE(limits, p.h, n), HopWords(limits, p.h, n));
      HopLimit(limits, ctxs, p);
      StepIs(limits, p, Run(limits, ctxs, p), Adding(limits, p.h, n + 1), EndingCE(limits, p.h, n + 1),
             HopWords(limits, p.h, n + 1));
      NodeKeepsSum(limits, ctxs[n], q);
      ErrorStep(limits, p.h, n);
      var e, e' := ErrorAdded(limits, p.h, n), if SetsError(limits, q.h) then 1 else 0;
      CongruentPlus(DatagramSum(q), DatagramSum(p) + e, e');
      Replace(DatagramSum(Run(limits, ctxs, p)), DatagramSum(q) + e', DatagramSum(p) + e + e');
    }
  }

  lemma ItselfCongruent(x: int)
    ensures Congruent(x, x)
  {}

  lemma NoErrorYet(limits: Limits, h: THeaders)
    requires h.intHeader.Some?
    ensures ErrorAdded(limits, h, 0) == 0
  {}

  lemma CarryingExtracted(h: THeaders)
    requires Carrying(h)
    ensures Extracted(h)
  {}

  /**
   A datagram with a valid checksum anywhere on its way has a valid one after the next nodes if
   and only if they are no more than its hops left, or its e bit needs no more setting.  Nor
   does a path within that limit ever make an invalid checksum valid.
   */
  lemma {:induction false} ChecksumSurvivesExactly(limits: Limits, ctxs: seq<Context>, p: TPacket)
    requires Carrying(p.h) && p.h.udp.Some?
    ensures Run(limits, ctxs, p).h.udp.Some?
    ensures UdpVerifies(p) ==>
              (UdpVerifies(Run(limits, ctxs, p)) <==> |ctxs| <= HopsLeft(limits, p.h) || SetE(CE(p.h)) == CE(p.h))
    ensures |ctxs| <= HopsLeft(limits, p.h) ==> (UdpVerifies(Run(limits, ctxs, p)) <==> UdpVerifies(p))
  {
    hide Run, DatagramSum, UdpVerifies, Extracted, HopsLeft, SetE;
    PathKeepsSum(limits, ctxs, p);
    var q := Run(limits, ctxs, p);
    VerifiesIsResidue(p);
    VerifiesIsResidue(q);
    Replace(DatagramSum(q), DatagramSum(p) + ErrorAdded(limits, p.h, |ctxs|), 0);
  }

  /**
   For what a default-configured source sends, having used one hop itself: valid at the source,
   valid after the next nodes if and only if these and the source are within the hop limit.
   */
  lemma {:induction false} SourcePacketSurvives(limits: Limits, ctxs: seq<Context>, p: TPacket, used: nat)
    requires Underway(limits, p.h, used) && p.h.udp.Some? && UdpVerifies(p)
    ensures Run(limits, ctxs, p).h.udp.Some?
    ensures UdpVerifies(Run(limits, ctxs, p)) <==> used + |ctxs| <= limits.maxHop
  {
    hide Run, UdpVerifies, HopsLeft;
    UnderwayHops(limits, p.h, used);
    ChecksumSurvivesExactly(limits, ctxs, p);
  }
}
