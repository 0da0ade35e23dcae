/**
 What a receiver makes of a datagram that has come through template transit nodes: it checks the
 IPv4 header, both lengths, and the UDP checksum if there is one.
 */
module TemplateReceiver {
  import opened Bytes
  import opened Options
  import opened Headers
  import opened Checksum
  import opened Template
  import opened TemplateChecksum
  import opened TemplatePath
  import opened TemplateWire
  import opened TemplateHeader

  /** The datagram fills its packet and its UDP length exactly. */
  predicate LengthsHold(bs: seq<Byte>)
    requires |bs| >= 28
  {
    Be16(bs, 2) == |bs| && Be16(bs, 24) == |bs| - 20
  }

  /**
   A receiver's checks on a datagram without IP options: the IPv4 header checksum, the lengths,
   and the UDP checksum, which by RFC 768 is not computed when the field is zero.
   */
  predicate Accepts(bs: seq<Byte>) {
    && |bs| >= 28 && bs[0] == 0x45
    && HeaderAccepted(bs)
    && LengthsHold(bs)
    && (Be16(bs, 26) == 0 || ChecksumHolds(bs))
  }

  // ---------------------------------------------------------------------------
  // The fields of an emitted packet
  // ---------------------------------------------------------------------------

  lemma {:induction false} FieldAt(ws: seq<U16>, rest: seq<Byte>, i: nat)
    requires i < |ws|
    ensures var bs := Bytes16(ws) + rest;
            2 * i + 2 <= |bs| && Be16(bs, 2 * i) == ws[i]
    decreases |ws|
  {
    var pair, tail := [ws[0] / 256, ws[0] % 256], Bytes16(ws[1..]) + rest;
    assert Bytes16(ws) + rest == pair + tail;
    if i > 0 {
      FieldAt(ws[1..], rest, i - 1);
    }
  }

  lemma {:induction false} EmittedFields(p: TPacket)
    requires OnWire(p.h) && p.h.udp.Some?
    ensures |Emit(p)| == 28 + (if p.h.shim.Some? then 20 else 0) + |p.payload|
    ensures Emit(p)[0] == p.h.ipv4.versionIhl && Be16(Emit(p), 2) == p.h.ipv4.totalLen
    ensures Be16(Emit(p), 24) == UdpLen(p.h) && Be16(Emit(p), 26) == UdpCsum(p.h)
  {
    hide Bytes16, PayloadSum, AddressSum, Hi, Lo;
    var ip, u, rest := p.h.ipv4, p.h.udp.value, EmitInt(p.h, p.payload);
    Ipv4Places(ip, Behind(p));
    TemplateWire.FirstByte(ip, Behind(p));
    FieldAt(Ipv4ToWords(ip), Behind(p), 1);
    FieldAt(UdpToWords(u), rest, 2);
    FieldAt(UdpToWords(u), rest, 3);
    BehindLength(p);
    assert Emit(p)[24] == Behind(p)[4] && Emit(p)[25] == Behind(p)[5];
    assert Emit(p)[26] == Behind(p)[6] && Emit(p)[27] == Behind(p)[7];
  }

  /** Acceptance in terms of the headers. */
  lemma {:induction false} AcceptsExactly(p: TPacket)
    requires OnWire(p.h) && p.h.udp.Some?
    ensures Accepts(Emit(p)) <==>
            && p.h.ipv4.versionIhl == 0x45
            && HeaderAccepted(Emit(p))
            && p.h.ipv4.totalLen == |Emit(p)| && UdpLen(p.h) == |Emit(p)| - 20
            && (UdpCsum(p.h) == 0 || UdpVerifies(p))
  {
    hide Emit, OnWire, HeaderAccepted, Be16, ReceiverSum, DatagramSum, Fold;
    EmittedFields(p);
    ReceiverSumIsDatagramSum(p);
  }

  // ---------------------------------------------------------------------------
  // The checksum field after a path
  // ---------------------------------------------------------------------------

  /** The sum of the metadata of a list of nodes. */
  function MetadataSum(ctxs: seq<Context>, mask: U16): nat {
    if ctxs == [] then 0
    else MetadataSum(ctxs[..|ctxs| - 1], mask) + Sum(AddedWords(ctxs[|ctxs| - 1], HeadersOf(mask), 8))
  }

  /** By how much a path shifts the sum its nodes track, in terms of the packet that enters it. */
  function PathShift(limits: Limits, ctxs: seq<Context>, h: THeaders): int
    requires h.intHeader.Some?
  {
    var used, words, hop := Adding(limits, h, |ctxs|), HopWords(limits, h, |ctxs|), h.intHeader.value.hopInfo;
    2 * (Plus16(UdpLen(h), 4 * words) - UdpLen(h))
    + 256 * ((ShimLen(h) + words) % TWO8 - ShimLen(h))
    + (Minus16(hop, used) - hop)
    + MetadataSum(ctxs[..used], Mask(h))
  }

  lemma TrackedAdvanced(h: THeaders, used: U16, cE: U16, words: nat, hdrChecksum: U16, csum: U16)
    requires Carrying(h) && h.udp.Some?
    ensures Tracked(Advanced(h, used, cE, words, hdrChecksum, csum)) ==
            2 * Plus16(UdpLen(h), 4 * words) + 256 * ((ShimLen(h) + words) % TWO8)
            + Minus16(h.intHeader.value.hopInfo, used)
  {}

  /** The tracked fields and the metadata account for the shift. */
  lemma {:induction false} ShiftOfPath(limits: Limits, ctxs: seq<Context>, p: TPacket)
    requires Carrying(p.h) && p.h.udp.Some?
    ensures PathShift(limits, ctxs, p.h) ==
            Tracked(Run(limits, ctxs, p).h) - Tracked(p.h)
            + MetadataSum(ctxs[..Adding(limits, p.h, |ctxs|)], Mask(p.h))
  {
    hide Run, Advanced, HopWords, Adding, EndingCE, MetadataSum, Stack, HopsLeft;
    var n, q := |ctxs|, Run(limits, ctxs, p);
    HopLimit(limits, ctxs, p);
    TrackedAdvanced(p.h, Adding(limits, p.h, n), EndingCE(limits, p.h, n), HopWords(limits, p.h, n),
                    q.h.ipv4.hdrChecksum, UdpCsum(q.h));
  }

  /** What one node inserts, and that its deparser leaves the tracked fields alone. */
  lemma {:induction false} NodeInserts(limits: Limits, ctx: Context, h: THeaders)
    requires Carrying(h)
    ensures var t := Transit(limits, h);
            t.added == if Exhausted(limits, h.intHeader.value) then {} else HeadersOf(Mask(h))
  {
    hide WordsOf, HeadersOf;
    assert {} + HeadersOf(Mask(h)) == HeadersOf(Mask(h));
  }

  lemma NodeTracked(limits: Limits, ctx: Context, p: TPacket)
    requires Extracted(p.h) && p.h.udp.Some?
    ensures Tracked(Node(limits, ctx, p).h) == Tracked(Transit(limits, p.h))
  {
    hide Transit, NewChecksum, AddedWords, Bytes16, Fields;
    TransitFrame(limits, p.h);
  }

  lemma {:induction false} MetadataStep(limits: Limits, ctxs: seq<Context>, h: THeaders)
    requires h.intHeader.Some? && ctxs != []
    ensures var n, mask := |ctxs| - 1, Mask(h);
            MetadataSum(ctxs[..Adding(limits, h, n + 1)], mask) ==
            MetadataSum(ctxs[..n][..Adding(limits, h, n)], mask)
            + if n < HopsLeft(limits, h) then Sum(AddedWords(ctxs[n], HeadersOf(mask), 8)) else 0
  {
    hide HopsLeft, HeadersOf, AddedWords, Sum;
    var n, left := |ctxs| - 1, HopsLeft(limits, h);
    if n < left {
      assert ctxs[..n + 1][..n] == ctxs[..n][..n];
    } else {
      assert ctxs[..left] == ctxs[..n][..left];
    }
  }

  /** What each further node of a path finds. */
  lemma {:induction false} AlongPath(limits: Limits, ctxs: seq<Context>, p: TPacket)
    requires Carrying(p.h) && p.h.udp.Some?
    ensures var q := Run(limits, ctxs, p);
            && Carrying(q.h) && q.h.udp.Some? && Mask(q.h) == Mask(p.h)
            && (Exhausted(limits, q.h.intHeader.value) <==> |ctxs| >= HopsLeft(limits, p.h))
  {
    hide Run, HopWords, EndingCE, Stack, WordsOf;
    var n := |ctxs|;
    HopLimit(limits, ctxs, p);
    if n < HopsLeft(limits, p.h) {
      NotExhausted(limits, p.h, n);
    }
  }

  lemma RunStep(limits: Limits, ctxs: seq<Context>, p: TPacket)
    requires ctxs != []
    ensures Run(limits, ctxs, p) == Node(limits, ctxs[|ctxs| - 1], Run(limits, ctxs[..|ctxs| - 1], p))
  {
    hide Node;
  }

  /** One more node adds its own shift. */
  lemma {:induction false} ShiftStep(limits: Limits, ctxs: seq<Context>, p: TPacket)
    requires Carrying(p.h) && p.h.udp.Some? && ctxs != []
    ensures var n := |ctxs| - 1;
            PathShift(limits, ctxs, p.h) ==
            PathShift(limits, ctxs[..n], p.h) + CsumShift(limits, ctxs[n], Run(limits, ctxs[..n], p).h)
  {
    hide Run, Node, PathShift, CsumShift, MetadataSum, Adding, Tracked, Extracted, HopsLeft, Transit, Exhausted;
    hide AddedWords, HeadersOf, Sum;
    var n := |ctxs| - 1;
    var q := Run(limits, ctxs[..n], p);
    RunStep(limits, ctxs, p);
    ShiftOfPath(limits, ctxs, p);
    ShiftOfPath(limits, ctxs[..n], p);
    AlongPath(limits, ctxs[..n], p);
    ShiftIsChange(limits, ctxs[n], q.h);
    NodeTracked(limits, ctxs[n], q);
    NodeInserts(limits, ctxs[n], q.h);
    NothingInserted(ctxs[n]);
    MetadataStep(limits, ctxs, p.h);
  }

  /** The field after a path, exactly: the old one less the path's shift, modulo 65535. */
  lemma {:induction false} CsumAfterPath(limits: Limits, ctxs: seq<Context>, p: TPacket)
    requires Carrying(p.h) && p.h.udp.Some?
    ensures Congruent(UdpCsum(Run(limits, ctxs, p).h), UdpCsum(p.h) - PathShift(limits, ctxs, p.h))
    ensures ctxs != [] ==> UdpCsum(Run(limits, ctxs, p).h) == (UdpCsum(p.h) - PathShift(limits, ctxs, p.h)) % 0xffff
    decreases |ctxs|
  {
    hide Node, PathShift, CsumShift, Congruent, Extracted, UdpCsum;
    if ctxs == [] {
      NothingShifted(limits, p.h);
      ItselfCongruent(UdpCsum(p.h));
    } else {
      var n := |ctxs| - 1;
      var q := Run(limits, ctxs[..n], p);
      CsumAfterPath(limits, ctxs[..n], p);
      ShiftStep(limits, ctxs, p);
      AlongPath(limits, ctxs[..n], p);
      CsumIsNeverAllOnes(limits, ctxs[n], q);
      ShiftsAdd(UdpCsum(p.h), UdpCsum(q.h), PathShift(limits, ctxs[..n], p.h), CsumShift(limits, ctxs[n], q.h),
                UdpCsum(Run(limits, ctxs, p).h), PathShift(limits, ctxs, p.h));
    }
  }

  lemma NothingShifted(limits: Limits, h: THeaders)
    requires h.intHeader.Some?
    ensures PathShift(limits, [], h) == 0
  {}

  lemma ShiftsAdd(csum: U16, before: U16, shift: int, more: int, after: U16, all: int)
    requires Congruent(before, csum - shift) && after == (before - more) % 0xffff && all == shift + more
    ensures Congruent(after, csum - all) && after == (csum - all) % 0xffff
  {}

  // ---------------------------------------------------------------------------
  // Acceptance after a path
  // ---------------------------------------------------------------------------

  /** The header of a datagram without options stays valid along a path. */
  lemma {:induction false} PathKeepsHeader(limits: Limits, ctxs: seq<Context>, p: TPacket)
    requires OnWire(p.h) && p.h.udp.Some? && Ihl(p) == 5 && HeaderAccepted(Emit(p))
    ensures var q := Run(limits, ctxs, p);
            && OnWire(q.h) && q.h.udp.Some? && HeaderAccepted(Emit(q))
            && q.h.ipv4.versionIhl == p.h.ipv4.versionIhl
    decreases |ctxs|
  {
    hide Node, Emit, HeaderAccepted, OnWire, LenGrowth, CsumShift;
    if ctxs != [] {
      var n := |ctxs| - 1;
      var q := Run(limits, ctxs[..n], p);
      PathKeepsHeader(limits, ctxs[..n], p);
      NodeHeaderExactly(limits, ctxs[n], q);
      NodeStaysOnWire(limits, ctxs[n], q);
      BehindGrows(limits, ctxs[n], q);
      StaysUdp(limits, ctxs[n], q);
    }
  }

  lemma StaysUdp(limits: Limits, ctx: Context, p: TPacket)
    requires p.h.udp.Some?
    ensures Node(limits, ctx, p).h.udp.Some?
    ensures Node(limits, ctx, p).h.ipv4.versionIhl == p.h.ipv4.versionIhl
  {
    hide WordsOf, HeadersOf, NewChecksum, AddedWords, Bytes16, Fields;
  }

  /** What the nodes of a path really insert, in bytes. */
  function BytesAdded(limits: Limits, h: THeaders, n: nat): nat
    requires h.intHeader.Some?
  {
    4 * Times(Adding(limits, h, n), WidthOf(HeadersOf(Mask(h))))
  }

  /** Does the packet still fit its 16-bit length, and is what the nodes count what they insert? */
  predicate LengthsCarry(limits: Limits, p: TPacket, n: nat)
    requires p.h.intHeader.Some?
  {
    && |Emit(p)| + BytesAdded(limits, p.h, n) < TWO16
    && (!CountsTwice(Mask(p.h)) || Adding(limits, p.h, n) == 0)
  }

  /**
   Does the checksum pass after the path?  The sum holds if it did and the e bit is not set anew;
   and otherwise the field passes unread if it comes out as zero.
   */
  ghost predicate ChecksumCarries(limits: Limits, ctxs: seq<Context>, p: TPacket)
    requires p.h.intHeader.Some? && p.h.udp.Some?
  {
    || (ctxs == [] && UdpCsum(p.h) == 0)
    || (ctxs != [] && Congruent(UdpCsum(p.h), PathShift(limits, ctxs, p.h)))
    || Congruent(DatagramSum(p) + ErrorAdded(limits, p.h, |ctxs|), 0)
  }

  lemma {:induction false} ChecksumCarriesExactly(limits: Limits, ctxs: seq<Context>, p: TPacket)
    requires Carrying(p.h) && p.h.udp.Some?
    ensures var q := Run(limits, ctxs, p);
            && q.h.udp.Some?
            && (UdpCsum(q.h) == 0 || UdpVerifies(q) <==> ChecksumCarries(limits, ctxs, p))
  {
    hide DatagramSum, UdpVerifies, PathShift, ErrorAdded, Extracted, Node, Congruent;
    var q := Run(limits, ctxs, p);
    PathKeepsSum(limits, ctxs, p);
    VerifiesIsResidue(q);
    Replace(DatagramSum(q), DatagramSum(p) + ErrorAdded(limits, p.h, |ctxs|), 0);
    if ctxs != [] {
      CsumAfterPath(limits, ctxs, p);
      ZeroResidue(UdpCsum(p.h), PathShift(limits, ctxs, p.h));
    }
  }

  lemma ZeroResidue(x: int, y: int)
    ensures (x - y) % 0xffff == 0 <==> Congruent(x, y)
  {}

  /** Sixteen-bit lengths that count `more` words too many, or wrap, are wrong. */
  lemma {:induction false} LengthsExactly(length: nat, used: U16, words: nat, width: nat, twice: bool)
    requires 28 <= length < TWO16 && words == width + (if twice then 2 else 0) && (twice ==> width >= 2)
    ensures (Plus16(length, 4 * Times(used, words)) == length + 4 * Times(used, width)
             && Plus16(length - 20, 4 * Times(used, words)) == length + 4 * Times(used, width) - 20)
            <==> length + 4 * Times(used, width) < TWO16 && (!twice || used == 0)
  {
    var counted, emitted := Times(used, words), Times(used, width);
    if !twice {
      Fits(length, 4 * counted);
      Fits(length - 20, 4 * counted);
    } else {
      assert counted == emitted + 2 * used by {
        Distribute(used, width);
      }
      assert emitted >= 2 * used by {
        AtLeastTwice(used, width);
      }
      hide Times;
      if length + 4 * emitted < TWO16 && used > 0 {
        Overshoot(length, 4 * emitted, 8 * used);
      }
    }
  }

  lemma Fits(x: nat, n: nat)
    requires x < TWO16
    ensures Plus16(x, n) == x + n <==> x + n < TWO16
  {}

  lemma Distribute(used: nat, width: nat)
    ensures Times(used, width + 2) == Times(used, width) + 2 * used
  {}

  lemma AtLeastTwice(used: nat, width: nat)
    requires width >= 2
    ensures Times(used, width) >= 2 * used
  {}

  lemma Overshoot(x: nat, added: nat, extra: nat)
    requires x + added < TWO16 && 0 < extra <= added
    ensures Plus16(x, added + extra) != x + added
  {}

  lemma {:induction false} LengthsCarryExactly(limits: Limits, ctxs: seq<Context>, p: TPacket)
    requires OnWire(p.h) && Carrying(p.h) && p.h.udp.Some?
    requires p.h.ipv4.totalLen == |Emit(p)| && UdpLen(p.h) == |Emit(p)| - 20
    ensures var q := Run(limits, ctxs, p);
            OnWire(q.h) && q.h.udp.Some?
            ==> (q.h.ipv4.totalLen == |Emit(q)| && UdpLen(q.h) == |Emit(q)| - 20
                 <==> LengthsCarry(limits, p, |ctxs|))
  {
    hide Run, Emit, Stack, Times, EndingCE, WordsOf, WidthOf, HeadersOf, OnWire, CountsTwice, HopsLeft;
    var n, q, mask := |ctxs|, Run(limits, ctxs, p), Mask(p.h);
    var used, words := Adding(limits, p.h, n), WordsOf(mask);
    HopLimit(limits, ctxs, p);
    StackLength(ctxs[..used], mask);
    TimesIs(used, WidthOf(HeadersOf(mask)));
    CountedIsEmitted(mask);
    TwiceIsWide(mask);
    EmittedFields(p);
    if OnWire(q.h) && q.h.udp.Some? {
      EmittedFields(q);
      LengthsExactly(|Emit(p)|, used, words, WidthOf(HeadersOf(mask)), CountsTwice(mask));
    }
  }

  lemma TimesIs(n: nat, w: nat)
    ensures Times(n, w) == n * w
  {}

  /** A mask that counts header 5 twice has it emitted: two words at least. */
  lemma TwiceIsWide(mask: U16)
    ensures CountsTwice(mask) ==> WidthOf(HeadersOf(mask)) >= 2
  {
    hide UpperNibble, LowerNibble;
    if CountsTwice(mask) {
      assert 5 in HeadersOf(mask);
      hide Inst0003, Inst0407, HeadersOf;
    }
  }

  /**
   The receiver's verdict.  A datagram its receiver would accept, met anywhere on its way, is
   delivered; after the next nodes it is accepted if and only if it still fits its length and the
   nodes count what they insert, and its checksum is carried.
   */
  lemma {:induction false} AcceptedExactly(limits: Limits, ctxs: seq<Context>, p: TPacket)
    requires OnWire(p.h) && Carrying(p.h) && p.h.udp.Some? && Accepts(Emit(p))
    ensures var out := Forward(limits, ctxs, Emit(p));
            && out.Some?
            && (Accepts(out.value) <==> LengthsCarry(limits, p, |ctxs|) && ChecksumCarries(limits, ctxs, p))
  {
    hide Forward, Run, Emit, Accepts, HeaderAccepted, OnWire, LengthsCarry, ChecksumCarries, UdpVerifies;
    var q := Run(limits, ctxs, p);
    AcceptsExactly(p);
    ForwardIsRun(limits, ctxs, p);
    PathKeepsHeader(limits, ctxs, p);
    AcceptsExactly(q);
    LengthsCarryExactly(limits, ctxs, p);
    ChecksumCarriesExactly(limits, ctxs, p);
  }

  /**
   For what a default-configured source sends with a checksum: accepted if and only if the lengths
   carry, and the source and the next nodes are within the hop limit or the field comes out as
   zero by chance.
   */
  lemma {:induction false} SourcePacketAccepted(limits: Limits, ctxs: seq<Context>, p: TPacket, used: nat)
    requires OnWire(p.h) && Underway(limits, p.h, used) && p.h.udp.Some? && Accepts(Emit(p)) && UdpCsum(p.h) != 0
    ensures var out := Forward(limits, ctxs, Emit(p));
            && out.Some?
            && (Accepts(out.value) <==>
                && LengthsCarry(limits, p, |ctxs|)
                && (used + |ctxs| <= limits.maxHop || Congruent(UdpCsum(p.h), PathShift(limits, ctxs, p.h))))
  {
    hide Forward, Emit, Accepts, HeaderAccepted, OnWire, LengthsCarry, UdpVerifies, DatagramSum, PathShift, HopsLeft;
    AcceptsExactly(p);
    VerifiesIsResidue(p);
    UnderwayHops(limits, p.h, used);
    AcceptedExactly(limits, ctxs, p);
    OneIsNotZero(DatagramSum(p));
  }

  lemma OneIsNotZero(x: int)
    requires Congruent(x, 0)
    ensures Congruent(x + 0, 0) && !Congruent(x + 1, 0)
  {}

  /** With the hop limit passed, a datagram without a checksum is let through while it stays without. */
  lemma {:induction false} UncheckedStaysAccepted(limits: Limits, ctxs: seq<Context>, p: TPacket)
    requires OnWire(p.h) && Carrying(p.h) && p.h.udp.Some? && Accepts(Emit(p))
    requires UdpCsum(p.h) == 0 && HopsLeft(limits, p.h) == 0
    ensures var out := Forward(limits, ctxs, Emit(p)); out.Some? && Accepts(out.value)
  {
    hide Forward, Emit, Accepts, HeaderAccepted, OnWire, UdpVerifies, DatagramSum, HeadersOf, WordsOf, CountsTwice;
    AcceptsExactly(p);
    AcceptedExactly(limits, ctxs, p);
    ItselfCongruent(0);
  }
}
