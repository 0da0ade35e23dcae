/**
 The deparser of the p4c-dpdk template: checksums updated with the `InternetChecksum`
 extern of the Portable Switch Architecture, and the metadata emitted in front of the
 payload.  A field added to or subtracted from the checksum is aligned to the left of a
 16-bit word, and a field of an invalid header reads as zero.
 */
module TemplateChecksum {
  import opened Bytes
  import opened Options
  import opened Headers
  import opened Checksum
  import opened Template

  // ---------------------------------------------------------------------------
  // InternetChecksum
  // ---------------------------------------------------------------------------

  /** One's complement addition. */
  function OnesAdd(x: U16, y: U16): U16 {
    if x + y < TWO16 then x + y else x + y - 0xffff
  }

  function AddAll(acc: U16, ws: seq<U16>): U16 {
    if ws == [] then acc else OnesAdd(AddAll(acc, ws[..|ws| - 1]), ws[|ws| - 1])
  }

  function Complements(ws: seq<U16>): seq<U16> {
    if ws == [] then [] else [Not16(ws[0])] + Complements(ws[1..])
  }

  lemma {:induction false} SumAppend(a: seq<U16>, b: seq<U16>)
    ensures Sum(a + b) == Sum(a) + Sum(b)
  {
    if a == [] {
      assert a + b == b;
    } else {
      assert (a + b)[1..] == a[1..] + b;
      SumAppend(a[1..], b);
    }
  }

  lemma {:induction false} AddAllIsSum(acc: U16, ws: seq<U16>)
    ensures Congruent(AddAll(acc, ws), acc + Sum(ws))
    ensures AddAll(acc, ws) == 0 <==> acc + Sum(ws) == 0
  {
    if ws != [] {
      var init, last := ws[..|ws| - 1], ws[|ws| - 1];
      assert ws == init + [last];
      SumAppend(init, [last]);
      assert Sum([last]) == last;
      AddAllIsSum(acc, init);
      OnesAddIsSum(AddAll(acc, init), last);
      CongruentPlus(AddAll(acc, init), acc + Sum(init), last);
      Replace(AddAll(acc, ws), AddAll(acc, init) as int + last, acc + Sum(ws));
    }
  }

  lemma OnesAddIsSum(x: U16, y: U16)
    ensures Congruent(OnesAdd(x, y), x as int + y)
    ensures OnesAdd(x, y) == 0 <==> x == 0 && y == 0
  {}

  lemma CongruentPlus(x: int, y: int, n: int)
    ensures Congruent(x, y) <==> Congruent(x + n, y + n)
  {}

  lemma {:induction false} AddAllAppend(acc: U16, a: seq<U16>, b: seq<U16>)
    ensures AddAll(AddAll(acc, a), b) == AddAll(acc, a + b)
  {
    if b == [] {
      assert a + b == a;
    } else {
      AddAllAppend(acc, a, b[..|b| - 1]);
      assert (a + b)[..|a + b| - 1] == a + b[..|b| - 1];
    }
  }

  // ---------------------------------------------------------------------------
  // The deparser
  // ---------------------------------------------------------------------------

  /** The fields of header `k` in the checksum's list. */
  function FieldWords(ctx: Context, added: set<nat>, k: nat): seq<U16> {
    if k in added then MetaWords(ctx, k) else if k == 4 || k == 5 then [0, 0, 0, 0] else [0, 0]
  }

  function Fields(ctx: Context, added: set<nat>, upTo: nat): seq<U16> {
    if upTo == 0 then [] else Fields(ctx, added, upTo - 1) + FieldWords(ctx, added, upTo - 1)
  }

  function UdpCsum(h: THeaders): U16 {
    if h.udp.Some? then h.udp.value.csum else 0
  }

  function UdpSubtracted(h: THeaders, saved: Saved): seq<U16> {
    [UdpCsum(h), saved.udpLen, saved.udpLen, saved.shimLen * 256, saved.hop]
  }

  function UdpAdded(h: THeaders, ctx: Context): seq<U16> {
    [UdpLen(h), UdpLen(h), ShimLen(h) * 256, HopInfo(h)] + Fields(ctx, h.added, 8)
  }

  function NewChecksum(subtracted: seq<U16>, added: seq<U16>): U16 {
    Not16(AddAll(AddAll(0, Complements(subtracted)), added))
  }

  /** The whole deparser: checksums, then the emitted headers in front of the payload. */
  function Deparse(h: THeaders, saved: Saved, ctx: Context, payload: seq<Byte>): TPacket {
    var ipv4 := h.ipv4.(hdrChecksum := NewChecksum([h.ipv4.hdrChecksum, saved.totalLen], [h.ipv4.totalLen]));
    var csum := NewChecksum(UdpSubtracted(h, saved), UdpAdded(h, ctx));
    var udp := if h.udp.Some? then Some(h.udp.value.(csum := csum)) else None;
    TPacket(h.(ipv4 := ipv4, udp := udp, added := {}), Bytes16(AddedWords(ctx, h.added, 8)) + payload)
  }

  /** One node, from wire to wire. */
  function Node(limits: Limits, ctx: Context, p: TPacket): TPacket {
    Deparse(Transit(limits, p.h), Save(p.h), ctx, p.payload)
  }

  /** The extern's result: the right residue, and never 0xffff once anything non-zero is summed. */
  lemma {:induction false} NewChecksumResidue(subtracted: seq<U16>, added: seq<U16>)
    ensures Congruent(NewChecksum(subtracted, added), Sum(subtracted) - Sum(added))
    ensures NewChecksum(subtracted, added) == 0xffff <==> Sum(Complements(subtracted)) + Sum(added) == 0
  {
    var a := AddAll(0, Complements(subtracted));
    var b := AddAll(a, added);
    AddAllAppend(0, Complements(subtracted), added);
    SumAppend(Complements(subtracted), added);
    AddAllIsSum(0, Complements(subtracted) + added);
    ComplementsSum(subtracted);
    hide AddAll, Sum, Complements;
    Negate(b, Sum(Complements(subtracted)) + Sum(added), Sum(subtracted) - Sum(added), |subtracted|);
  }

  lemma {:induction false} ComplementsSum(ws: seq<U16>)
    ensures Sum(Complements(ws)) == 0xffff * |ws| - Sum(ws)
  {
    if ws != [] {
      ComplementsSum(ws[1..]);
      assert Complements(ws)[1..] == Complements(ws[1..]);
    }
  }

  lemma Negate(b: U16, s: int, d: int, n: nat)
    requires Congruent(b, s) && s + d == 0xffff * n
    ensures Congruent(Not16(b), d)
  {
    var q := (b - s) / 0xffff;
    assert Not16(b) - d == 0xffff * (1 - q - n);
  }

  // ---------------------------------------------------------------------------
  // The checksum as a receiver computes it
  // ---------------------------------------------------------------------------

  /** Half-words as they travel, high byte first. */
  function Bytes16(ws: seq<U16>): seq<Byte> {
    if ws == [] then [] else [ws[0] / 256, ws[0] % 256] + Bytes16(ws[1..])
  }

  /** Bytes summed in pairs, an odd last one padded with zero. */
  function PayloadSum(bs: seq<Byte>): nat {
    if bs == [] then 0
    else if |bs| == 1 then bs[0] * 256
    else bs[0] * 256 + bs[1] + PayloadSum(bs[2..])
  }

  /** Whole half-words in front of a payload leave its bytes paired as they were. */
  lemma {:induction false} Aligned(ws: seq<U16>, bs: seq<Byte>)
    ensures PayloadSum(Bytes16(ws) + bs) == Sum(ws) + PayloadSum(bs)
    ensures |Bytes16(ws)| == 2 * |ws|
  {
    if ws == [] {
      assert Bytes16(ws) + bs == bs;
    } else {
      Aligned(ws[1..], bs);
      PairInFront(ws[0], Bytes16(ws[1..]) + bs);
      assert Bytes16(ws) + bs == [ws[0] / 256, ws[0] % 256] + (Bytes16(ws[1..]) + bs);
    }
  }

  lemma PairInFront(w: U16, bs: seq<Byte>)
    ensures PayloadSum([w / 256, w % 256] + bs) == w + PayloadSum(bs)
  {
    assert ([w / 256, w % 256] + bs)[2..] == bs;
  }

  function ShimWords(s: TShim): seq<U16> {
    [s.intType * 256 + s.rsvd1, s.len * 256 + s.dscp, s.rsvd3 * 256 + s.padding]
  }

  function IntWords(i: TInt): seq<U16> {
    [i.ver * 256 + i.rep, i.cE, i.mRsvd1, i.rsvd2, i.hopInfo, i.mask, i.rsvd3]
  }

  /** The pseudo header of RFC 768 and the UDP header itself. */
  function UdpWords(ip: TIpv4, u: Udp): seq<U16> {
    [Hi(ip.srcAddr), Lo(ip.srcAddr), Hi(ip.dstAddr), Lo(ip.dstAddr), 17, u.len] + [u.srcPort, u.dstPort, u.len, u.csum]
  }

  /** Everything a UDP checksum covers, INT headers included. */
  function DatagramSum(p: TPacket): nat
    requires p.h.udp.Some?
  {
    Sum(UdpWords(p.h.ipv4, p.h.udp.value))
    + (if p.h.shim.Some? then Sum(ShimWords(p.h.shim.value)) else 0)
    + (if p.h.intHeader.Some? then Sum(IntWords(p.h.intHeader.value)) else 0)
    + PayloadSum(p.payload)
  }

  predicate UdpVerifies(p: TPacket)
    requires p.h.udp.Some?
  {
    Fold(DatagramSum(p)) == 0xffff
  }

  // ---------------------------------------------------------------------------
  // What one node does to the checksums
  // ---------------------------------------------------------------------------

  /** Headers that are not there count for nothing in the list of fields. */
  lemma {:induction false} FieldsSum(ctx: Context, added: set<nat>, upTo: nat)
    ensures Sum(Fields(ctx, added, upTo)) == Sum(AddedWords(ctx, added, upTo))
  {
    hide MetaWords, Sum;
    if upTo > 0 {
      FieldsSum(ctx, added, upTo - 1);
      SumAppend(Fields(ctx, added, upTo - 1), FieldWords(ctx, added, upTo - 1));
      if upTo - 1 in added {
        SumAppend(AddedWords(ctx, added, upTo - 1), MetaWords(ctx, upTo - 1));
      } else {
        ZeroWords(ctx, added, upTo - 1);
        assert AddedWords(ctx, added, upTo) == AddedWords(ctx, added, upTo - 1);
      }
    }
  }

  lemma ZeroWords(ctx: Context, added: set<nat>, k: nat)
    requires k !in added
    ensures Sum(FieldWords(ctx, added, k)) == 0
  {
    assert Sum([0, 0]) == 0;
    assert [0, 0, 0, 0][1..] == [0, 0, 0];
    assert [0, 0, 0][1..] == [0, 0];
  }

  lemma Sum3(a: U16, b: U16, c: U16)
    ensures Sum([a, b, c]) == a + b + c
  {
    assert [a, b, c][1..] == [b, c];
    assert [b, c][1..] == [c];
    assert Sum([b, c]) == b + Sum([c]);
  }

  lemma Sum4(a: U16, b: U16, c: U16, d: U16)
    ensures Sum([a, b, c, d]) == a + b + c + d
  {
    assert [a, b, c, d][1..] == [b, c, d];
    Sum3(b, c, d);
  }

  lemma Sum5(a: U16, b: U16, c: U16, d: U16, e: U16)
    ensures Sum([a, b, c, d, e]) == a + b + c + d + e
  {
    assert [a, b, c, d, e][1..] == [b, c, d, e];
    Sum4(b, c, d, e);
  }

  lemma Sum6(a: U16, b: U16, c: U16, d: U16, e: U16, f: U16)
    ensures Sum([a, b, c, d, e, f]) == a + b + c + d + e + f
  {
    assert [a, b, c, d, e, f][1..] == [b, c, d, e, f];
    Sum5(b, c, d, e, f);
  }

  lemma UdpWordsSum(ip: TIpv4, u: Udp)
    ensures Sum(UdpWords(ip, u)) == AddressSum(ip) + 17 + 2 * u.len + u.srcPort + u.dstPort + u.csum
  {
    Sum6(Hi(ip.srcAddr), Lo(ip.srcAddr), Hi(ip.dstAddr), Lo(ip.dstAddr), 17, u.len);
    Sum4(u.srcPort, u.dstPort, u.len, u.csum);
    SumAppend([Hi(ip.srcAddr), Lo(ip.srcAddr), Hi(ip.dstAddr), Lo(ip.dstAddr), 17, u.len],
              [u.srcPort, u.dstPort, u.len, u.csum]);
  }

  function AddressSum(ip: TIpv4): nat {
    Hi(ip.srcAddr) + Lo(ip.srcAddr) + Hi(ip.dstAddr) + Lo(ip.dstAddr)
  }

  lemma ShimWordsSum(s: TShim)
    ensures Sum(ShimWords(s)) == s.intType * 256 + s.rsvd1 + s.len * 256 + s.dscp + s.rsvd3 * 256 + s.padding
  {
    Sum3(s.intType * 256 + s.rsvd1, s.len * 256 + s.dscp, s.rsvd3 * 256 + s.padding);
  }

  lemma IntWordsSum(i: TInt)
    ensures Sum(IntWords(i)) == i.ver * 256 + i.rep + i.cE + i.mRsvd1 + i.rsvd2 + i.hopInfo + i.mask + i.rsvd3
  {
    Sum6(i.cE, i.mRsvd1, i.rsvd2, i.hopInfo, i.mask, i.rsvd3);
    assert IntWords(i)[1..] == [i.cE, i.mRsvd1, i.rsvd2, i.hopInfo, i.mask, i.rsvd3];
  }

  function CE(h: THeaders): U16 {
    if h.intHeader.Some? then h.intHeader.value.cE else 0
  }

  /** The part of the sum the deparser's update tracks. */
  function Tracked(h: THeaders): nat {
    2 * UdpLen(h) + 256 * ShimLen(h) + HopInfo(h)
  }

  /** What a node changes in the sum besides the checksum field itself. */
  lemma DatagramChange(p: TPacket, q: TPacket, inserted: nat)
    requires p.h.udp.Some? && q.h.udp.Some?
    requires q.h.udp == Some(p.h.udp.value.(len := UdpLen(q.h), csum := UdpCsum(q.h)))
    requires AddressSum(q.h.ipv4) == AddressSum(p.h.ipv4)
    requires q.h.shim == if p.h.shim.Some? then Some(p.h.shim.value.(len := ShimLen(q.h))) else None
    requires q.h.intHeader == if p.h.intHeader.Some?
             then Some(p.h.intHeader.value.(hopInfo := HopInfo(q.h), cE := CE(q.h))) else None
    requires PayloadSum(q.payload) == PayloadSum(p.payload) + inserted
    ensures DatagramSum(q) - DatagramSum(p) == UdpCsum(q.h) - UdpCsum(p.h) + Tracked(q.h) - Tracked(p.h)
            + CE(q.h) - CE(p.h) + inserted
  {
    UdpWordsSum(p.h.ipv4, p.h.udp.value);
    UdpWordsSum(q.h.ipv4, q.h.udp.value);
    if p.h.shim.Some? {
      ShimWordsSum(p.h.shim.value);
      ShimWordsSum(q.h.shim.value);
    }
    if p.h.intHeader.Some? {
      IntWordsSum(p.h.intHeader.value);
      IntWordsSum(q.h.intHeader.value);
    }
    hide Sum, UdpWords, ShimWords, IntWords, AddressSum, PayloadSum;
  }

  /** Does this node set the e bit anew? */
  predicate SetsError(limits: Limits, h: THeaders) {
    h.intHeader.Some? && Exhausted(limits, h.intHeader.value) && SetE(h.intHeader.value.cE) != h.intHeader.value.cE
  }

  lemma TransitFrame(limits: Limits, h: THeaders)
    requires Extracted(h) && h.udp.Some?
    ensures var t := Transit(limits, h);
            && t.udp == Some(h.udp.value.(len := UdpLen(t)))
            && AddressSum(t.ipv4) == AddressSum(h.ipv4)
            && t.shim == (if h.shim.Some? then Some(h.shim.value.(len := ShimLen(t))) else None)
            && t.intHeader == (if h.intHeader.Some? then Some(h.intHeader.value.(hopInfo := HopInfo(t), cE := CE(t)))
               else None)
            && CE(t) == CE(h) + if SetsError(limits, h) then 1 else 0
  {
    hide WordsOf, HeadersOf;
  }

  lemma UdpUpdateSums(h: THeaders, t: THeaders, ctx: Context)
    requires t.udp.Some? && h.udp.Some? && UdpCsum(t) == UdpCsum(h)
    ensures Sum(UdpSubtracted(t, Save(h))) == UdpCsum(h) + Tracked(h)
    ensures Sum(UdpAdded(t, ctx)) == Tracked(t) + Sum(AddedWords(ctx, t.added, 8))
  {
    Sum5(UdpCsum(t), UdpLen(h), UdpLen(h), ShimLen(h) * 256, HopInfo(h));
    Sum4(UdpLen(t), UdpLen(t), ShimLen(t) * 256, HopInfo(t));
    SumAppend([UdpLen(t), UdpLen(t), ShimLen(t) * 256, HopInfo(t)], Fields(ctx, t.added, 8));
    FieldsSum(ctx, t.added, 8);
    hide Sum, Fields, AddedWords;
  }

  lemma Cancel(x: int, y: int, z: int, w: int)
    requires Congruent(x, y) && z - w == x - y
    ensures Congruent(z, w)
  {}

  /**
   The invariant of the UDP checksum.  Whatever the mask, the payload and the metadata, a
   node leaves the sum a receiver forms unchanged modulo 65535, but for the e bit: setting
   that adds one.
   */
  lemma {:induction false} NodeKeepsSum(limits: Limits, ctx: Context, p: TPacket)
    requires Extracted(p.h) && p.h.udp.Some?
    ensures Node(limits, ctx, p).h.udp.Some?
    ensures Congruent(DatagramSum(Node(limits, ctx, p)), DatagramSum(p) + if SetsError(limits, p.h) then 1 else 0)
  {
    hide Sum, AddedWords, PayloadSum, Bytes16, DatagramSum, NewChecksum, Fields, Congruent, Transit;
    var t := Transit(limits, p.h);
    var q := Node(limits, ctx, p);
    TransitFrame(limits, p.h);
    UdpUpdateSums(p.h, t, ctx);
    NewChecksumResidue(UdpSubtracted(t, Save(p.h)), UdpAdded(t, ctx));
    Aligned(AddedWords(ctx, t.added, 8), p.payload);
    DatagramChange(p, q, Sum(AddedWords(ctx, t.added, 8)));
    Cancel(UdpCsum(q.h), Sum(UdpSubtracted(t, Save(p.h))) - Sum(UdpAdded(t, ctx)),
           DatagramSum(q), DatagramSum(p) + if SetsError(limits, p.h) then 1 else 0);
  }

  lemma VerifiesIsResidue(p: TPacket)
    requires p.h.udp.Some?
    ensures UdpVerifies(p) <==> Congruent(DatagramSum(p), 0)
  {
    DatagramSumPositive(p);
    hide DatagramSum, Fold;
    FoldIs(DatagramSum(p), 0xffff);
    Complementary(DatagramSum(p));
  }

  lemma DatagramSumPositive(p: TPacket)
    requires p.h.udp.Some?
    ensures DatagramSum(p) > 0
  {
    UdpWordsSum(p.h.ipv4, p.h.udp.value);
    hide Sum, UdpWords, PayloadSum, AddressSum;
  }

  lemma Complementary(x: int)
    ensures Congruent(0xffff, x) <==> Congruent(x, 0)
  {}

  /**
   A node that does not set the e bit preserves and reflects the validity of the UDP
   checksum; one that does turns a valid checksum into an invalid one.
   */
  lemma {:induction false} NodeKeepsUdpValidity(limits: Limits, ctx: Context, p: TPacket)
    requires Extracted(p.h) && p.h.udp.Some?
    ensures var q := Node(limits, ctx, p);
            && q.h.udp.Some?
            && (!SetsError(limits, p.h) ==> (UdpVerifies(q) <==> UdpVerifies(p)))
            && (SetsError(limits, p.h) ==> !(UdpVerifies(q) && UdpVerifies(p)))
  {
    hide DatagramSum, UdpVerifies, Node, SetsError;
    NodeKeepsSum(limits, ctx, p);
    var q := Node(limits, ctx, p);
    VerifiesIsResidue(p);
    VerifiesIsResidue(q);
    Replace(DatagramSum(q), DatagramSum(p) + if SetsError(limits, p.h) then 1 else 0, 0);
  }

  /** By how much a node shifts the sum it tracks: what it adds to the fields and inserts. */
  function CsumShift(limits: Limits, ctx: Context, h: THeaders): int {
    if h.intHeader.None? || Exhausted(limits, h.intHeader.value) then 0 else
    var ih := h.intHeader.value;
    var words := WordsOf(ih.mask);
    2 * (Plus16(UdpLen(h), 4 * words) - UdpLen(h))
    + 256 * ((ShimLen(h) + words) % TWO8 - ShimLen(h))
    + (Minus16(ih.hopInfo, 1) - ih.hopInfo)
    + Sum(AddedWords(ctx, HeadersOf(ih.mask), 8))
  }

  lemma ShiftIsChange(limits: Limits, ctx: Context, h: THeaders)
    requires Extracted(h) && h.udp.Some?
    ensures var t := Transit(limits, h);
            Tracked(t) + Sum(AddedWords(ctx, t.added, 8)) - Tracked(h) == CsumShift(limits, ctx, h)
  {
    hide WordsOf, HeadersOf, AddedWords, Sum;
    if h.intHeader.None? || Exhausted(limits, h.intHeader.value) {
      NothingInserted(ctx);
    } else {
      assert {} + HeadersOf(h.intHeader.value.mask) == HeadersOf(h.intHeader.value.mask);
    }
  }

  lemma NothingInserted(ctx: Context)
    ensures Sum(AddedWords(ctx, {}, 8)) == 0
  {
    NoneValid(ctx, 8);
  }

  lemma {:induction false} NoneValid(ctx: Context, upTo: nat)
    ensures AddedWords(ctx, {}, upTo) == []
  {
    if upTo > 0 {
      NoneValid(ctx, upTo - 1);
    }
  }

  /**
   The field exactly: the old one less the shift, modulo 65535.  So it is never sent as 0xffff,
   and it is sent as 0, which RFC 768 keeps for "no checksum", if and only if the old field and
   the shift agree.
   */
  lemma {:induction false} CsumIsNeverAllOnes(limits: Limits, ctx: Context, p: TPacket)
    requires Extracted(p.h) && p.h.udp.Some?
    ensures var q, shift := Node(limits, ctx, p), CsumShift(limits, ctx, p.h);
            && q.h.udp.Some?
            && UdpCsum(q.h) == (UdpCsum(p.h) - shift) % 0xffff
            && UdpCsum(q.h) != 0xffff
            && (UdpCsum(q.h) == 0 <==> Congruent(UdpCsum(p.h), shift))
  {
    hide AddedWords, PayloadSum, Bytes16, NewChecksum, Fields, Transit, CsumShift, Sum, Complements, UdpSubtracted;
    hide UdpAdded;
    var t := Transit(limits, p.h);
    var q := Node(limits, ctx, p);
    TransitFrame(limits, p.h);
    NewChecksumResidue(UdpSubtracted(t, Save(p.h)), UdpAdded(t, ctx));
    LengthKeepsSumAlive(limits, p.h, ctx);
    UdpUpdateSums(p.h, t, ctx);
    ShiftIsChange(limits, ctx, p.h);
    Remainder(UdpCsum(q.h), UdpCsum(p.h) - CsumShift(limits, ctx, p.h));
  }

  lemma Remainder(x: U16, y: int)
    requires x < 0xffff && Congruent(x, y)
    ensures x == y % 0xffff
  {}

  /** A node with hops left, and a valid datagram whose checksum it sends as 0. */
  function ZeroWitness(): (Limits, TPacket) {
    var shim := TShim(1, 0, 5, 0, 0, 0);
    var ih := TInt(1, 0, 0, 0, 0, 0x0604, 0, 0);
    var ip := TIpv4(0x45, 0x20, 48, 0, 0, 64, 17, 0, 0, 0);
    (Limits(0x0604, 4), TPacket(THeaders(ip, Some(Udp(62131, 0, 28, 0xfffe)), None, Some(shim), Some(ih), {}), []))
  }

  lemma {:induction false} ValidChecksumSentAsNone(ctx: Context)
    ensures var (limits, p) := ZeroWitness();
            && Extracted(p.h) && p.h.udp.Some? && UdpVerifies(p) && UdpCsum(p.h) == 0xfffe
            && var q := Node(limits, ctx, p);
               && q.h.udp.Some? && UdpVerifies(q) && UdpCsum(q.h) == 0
  {
    var (limits, p) := ZeroWitness();
    WitnessSum();
    WitnessShift(ctx);
    hide DatagramSum, Node, CsumShift;
    VerifiesIsResidue(p);
    CsumIsNeverAllOnes(limits, ctx, p);
    NodeKeepsUdpValidity(limits, ctx, p);
  }

  lemma WitnessSum()
    ensures var p := ZeroWitness().1; Extracted(p.h) && p.h.udp.Some? && DatagramSum(p) == 2 * 0xffff
  {
    hide Sum, ShimWords, IntWords, UdpWords;
    var p := ZeroWitness().1;
    UdpWordsSum(p.h.ipv4, p.h.udp.value);
    ShimWordsSum(p.h.shim.value);
    IntWordsSum(p.h.intHeader.value);
  }

  lemma WitnessShift(ctx: Context)
    ensures var (limits, p) := ZeroWitness(); CsumShift(limits, ctx, p.h) == -1
  {
    assert HeadersOf(0) == {};
    NothingInserted(ctx);
    hide AddedWords, Sum;
  }

  /** The old length complemented and the new length cannot both be zero. */
  lemma LengthKeepsSumAlive(limits: Limits, h: THeaders, ctx: Context)
    requires Extracted(h) && h.udp.Some?
    ensures var t := Transit(limits, h);
            Sum(Complements(UdpSubtracted(t, Save(h)))) + Sum(UdpAdded(t, ctx)) > 0
  {
    var t := Transit(limits, h);
    LengthNeverWrapsToZero(limits, h);
    ComplementsSum(UdpSubtracted(t, Save(h)));
    TransitFrame(limits, h);
    UdpUpdateSums(h, t, ctx);
    hide Sum, Complements, Fields, AddedWords, Transit, UdpSubtracted, UdpAdded;
    assert |UdpSubtracted(t, Save(h))| == 5 by {
      FiveSubtracted(t, Save(h));
    }
  }

  lemma FiveSubtracted(t: THeaders, saved: Saved)
    ensures |UdpSubtracted(t, saved)| == 5
  {}

  lemma LengthNeverWrapsToZero(limits: Limits, h: THeaders)
    requires Extracted(h) && h.udp.Some?
    ensures UdpLen(h) == 0xffff ==> UdpLen(Transit(limits, h)) > 0
  {
    hide WordsOf, HeadersOf, WidthOf, CountsTwice;
    if h.intHeader.Some? {
      CountedIsEmitted(h.intHeader.value.mask);
    }
  }

  // ---------------------------------------------------------------------------
  // The IPv4 header
  // ---------------------------------------------------------------------------

  /** The ten half-words of the header, without options. */
  function Ipv4ToWords(ip: TIpv4): seq<U16> {
    [ip.versionIhl * 256 + ip.dscp, ip.totalLen, ip.id, ip.fragment, ip.ttl * 256 + ip.protocol, ip.hdrChecksum]
    + [Hi(ip.srcAddr), Lo(ip.srcAddr), Hi(ip.dstAddr), Lo(ip.dstAddr)]
  }

  lemma Ipv4Sum(ip: TIpv4)
    ensures Sum(Ipv4ToWords(ip)) == ip.versionIhl * 256 + ip.dscp + ip.totalLen + ip.id + ip.fragment
                                    + (ip.ttl * 256 + ip.protocol) + ip.hdrChecksum + AddressSum(ip)
  {
    hide Sum, Hi, Lo;
    Sum6(ip.versionIhl * 256 + ip.dscp, ip.totalLen, ip.id, ip.fragment, ip.ttl * 256 + ip.protocol, ip.hdrChecksum);
    Sum4(Hi(ip.srcAddr), Lo(ip.srcAddr), Hi(ip.dstAddr), Lo(ip.dstAddr));
    SumAppend([ip.versionIhl * 256 + ip.dscp, ip.totalLen, ip.id, ip.fragment, ip.ttl * 256 + ip.protocol,
      ip.hdrChecksum],
              [Hi(ip.srcAddr), Lo(ip.srcAddr), Hi(ip.dstAddr), Lo(ip.dstAddr)]);
  }

  /** What a node takes from the header's sum: the length of a packet that is neither UDP nor TCP. */
  function Ipv4Shift(h: THeaders): nat {
    if h.udp.Some? || h.tcp.Some? then 0 else h.ipv4.totalLen
  }

  /**
   The invariant of the IPv4 checksum: a node keeps the sum of the header it extracts modulo
   65535.  Only for a packet that is neither UDP nor TCP was nothing saved to subtract, and the
   sum shrinks by the length that is added to the checksum.
   */
  lemma {:induction false} NodeKeepsIpv4Sum(limits: Limits, ctx: Context, p: TPacket)
    requires Extracted(p.h)
    ensures Congruent(Sum(Ipv4ToWords(Node(limits, ctx, p).h.ipv4)), Sum(Ipv4ToWords(p.h.ipv4)) - Ipv4Shift(p.h))
  {
    hide Ipv4ToWords, Congruent, Sum, Node, Ipv4Shift, AddressSum;
    var ip, ip' := p.h.ipv4, Node(limits, ctx, p).h.ipv4;
    Ipv4Sum(ip);
    Ipv4Sum(ip');
    NodeIpv4(limits, ctx, p);
    SameAddresses(ip, ip');
    Cancel(ip'.hdrChecksum, ip.hdrChecksum as int + ip.totalLen - Ipv4Shift(p.h) - ip'.totalLen,
           Sum(Ipv4ToWords(ip')), Sum(Ipv4ToWords(ip)) - Ipv4Shift(p.h));
  }

  lemma SameAddresses(a: TIpv4, b: TIpv4)
    requires a.srcAddr == b.srcAddr && a.dstAddr == b.dstAddr
    ensures AddressSum(a) == AddressSum(b)
  {}

  /** The two fields of the IPv4 header a node changes. */
  lemma {:induction false} NodeIpv4(limits: Limits, ctx: Context, p: TPacket)
    requires Extracted(p.h)
    ensures var ip, ip' := p.h.ipv4, Node(limits, ctx, p).h.ipv4;
            && ip' == ip.(totalLen := ip'.totalLen, hdrChecksum := ip'.hdrChecksum)
            && Congruent(ip'.hdrChecksum, ip.hdrChecksum as int + ip.totalLen - Ipv4Shift(p.h) - ip'.totalLen)
  {
    hide Congruent, Sum, AddedWords, Bytes16, WordsOf, HeadersOf, NewChecksum, Fields;
    var t := Transit(limits, p.h);
    NewChecksumResidue([t.ipv4.hdrChecksum, Save(p.h).totalLen], [t.ipv4.totalLen]);
    Sum2(t.ipv4.hdrChecksum, Save(p.h).totalLen);
    Sum1(t.ipv4.totalLen);
  }

  lemma Sum1(a: U16)
    ensures Sum([a]) == a
  {}

  lemma Sum2(a: U16, b: U16)
    ensures Sum([a, b]) == a + b
  {
    assert [a, b][1..] == [b];
    assert Sum([b]) == b;
  }
}
