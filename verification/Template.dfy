/**
 The transit part of the p4c-dpdk template, as generated for a transit node (`SOURCE` and
 `SINK` zero): the hop limit, the metadata headers the instruction mask selects, and the
 length counters.  Port ids are taken to be 16 bits wide and time stamps 64, the widths the
 template's own counters assume.
 */
module Template {
  import opened Bytes
  import opened Options
  import opened Headers

  type TcpBytes = bs: seq<Byte> | |bs| == 20 witness seq(20, _ => 0)

  datatype TShim = TShim(intType: U8, rsvd1: U8, len: U8, dscp: U8, rsvd3: U8, padding: U8)

  datatype TInt = TInt(ver: U8, rep: U8, cE: U16, mRsvd1: U16, rsvd2: U16, hopInfo: U16, mask: U16, rsvd3: U16)

  datatype TIpv4 = TIpv4(versionIhl: U8, dscp: U8, totalLen: U16, id: U16, fragment: U16, ttl: U8, protocol: U8,
                         hdrChecksum: U16, srcAddr: U32, dstAddr: U32)

  /** What a node's target and its configuration supply. */
  datatype Context = Context(switchId: U32, ingressPort: U16, egressPort: U16, ingressTs: U64)

  /** `HOP_INFO` and `MAX_HOP_16` of the generated headers. */
  datatype Limits = Limits(hopInfo: U16, maxHop: U16)

  /**
   The headers of an IPv4 packet inside a node.  No action reads or writes the TCP header;
   `added` tells which metadata headers have been made valid.
   */
  datatype THeaders = THeaders(ipv4: TIpv4, udp: Option<Udp>, tcp: Option<TcpBytes>, shim: Option<TShim>,
          intHeader: Option<TInt>,
                               added: set<nat>)

  /** A packet between two nodes: what the next parser extracts, and the rest. */
  datatype TPacket = TPacket(h: THeaders, payload: seq<Byte>)

  /** The header combinations the parser produces. */
  predicate Extracted(h: THeaders) {
    && h.added == {}
    && (h.shim.Some? <==> h.intHeader.Some?)
    && (h.shim.Some? ==> h.udp.Some? || h.tcp.Some?)
    && !(h.udp.Some? && h.tcp.Some?)
  }

  // ---------------------------------------------------------------------------
  // The instruction tables
  // ---------------------------------------------------------------------------

  /** What one table action does: the headers it makes valid and the words it counts. */
  datatype Insert = Insert(headers: set<nat>, words: nat)

  /** `tb_int_inst_0003`, by the upper nibble of the mask's low byte. */
  function Inst0003(nibble: U4): Insert {
    match nibble
    case 0 => Insert({}, 0)
    case 1 => Insert({3}, 1)
    case 2 => Insert({2}, 1)
    case 3 => Insert({5, 2}, 3)
    case 4 => Insert({1}, 1)
    case 5 => Insert({3, 1}, 2)
    case 6 => Insert({2, 1}, 2)
    case 7 => Insert({3, 2, 1}, 3)
    case 8 => Insert({0}, 1)
    case 9 => Insert({3, 0}, 2)
    case 10 => Insert({2, 0}, 2)
    case 11 => Insert({3, 2, 0}, 3)
    case 12 => Insert({1, 0}, 2)
    case 13 => Insert({3, 1, 0}, 3)
    case 14 => Insert({2, 1, 0}, 3)
    case _ => Insert({3, 2, 1, 0}, 4)
  }

  /** `tb_int_inst_0407`, by the lower nibble. */
  function Inst0407(nibble: U4): Insert {
    match nibble
    case 0 => Insert({}, 0)
    case 1 => Insert({7}, 1)
    case 2 => Insert({6}, 1)
    case 3 => Insert({7, 6}, 2)
    case 4 => Insert({5}, 2)
    case 5 => Insert({7, 5}, 3)
    case 6 => Insert({6, 5}, 3)
    case 7 => Insert({7, 6, 5}, 4)
    case 8 => Insert({4}, 2)
    case 9 => Insert({7, 4}, 3)
    case 10 => Insert({6, 4}, 3)
    case 11 => Insert({7, 6, 4}, 4)
    case 12 => Insert({5, 4}, 4)
    case 13 => Insert({7, 5, 4}, 5)
    case 14 => Insert({6, 5, 4}, 5)
    case _ => Insert({7, 6, 5, 4}, 6)
  }

  function UpperNibble(mask: U16): U4 {
    mask / 16 % 16
  }

  function LowerNibble(mask: U16): U4 {
    mask % 16
  }

  function HeadersOf(mask: U16): set<nat> {
    Inst0003(UpperNibble(mask)).headers + Inst0407(LowerNibble(mask)).headers
  }

  /** `int_hdr_word_len` after both tables. */
  function WordsOf(mask: U16): nat {
    Inst0003(UpperNibble(mask)).words + Inst0407(LowerNibble(mask)).words
  }

  /** The size of a metadata header, if emitted, in 4-byte words: time stamps take two. */
  function Width(headers: set<nat>, k: nat): nat {
    if k !in headers then 0 else if k == 4 || k == 5 then 2 else 1
  }

  /** The emitted size of a set of metadata headers. */
  function WidthOf(headers: set<nat>): nat {
    Width(headers, 0) + Width(headers, 1) + Width(headers, 2) + Width(headers, 3)
    + Width(headers, 4) + Width(headers, 5) + Width(headers, 6) + Width(headers, 7)
  }

  predicate Bit(nibble: U4, bit: nat)
    requires bit < 4
  {
    match bit
    case 0 => nibble % 2 == 1
    case 1 => nibble % 4 >= 2
    case 2 => nibble % 8 >= 4
    case _ => nibble >= 8
  }

  /** Does the mask ask for header `h`?  Bit 7 stands for header 0, bit 0 for header 7. */
  predicate Asked(mask: U16, h: nat)
    requires h < 8
  {
    if h < 4 then Bit(UpperNibble(mask), 3 - h) else Bit(LowerNibble(mask), 7 - h)
  }

  /** The upper nibble whose action sets header 5 where its bits ask for header 3. */
  predicate Misdirected(mask: U16) {
    UpperNibble(mask) == 3
  }

  lemma {:induction false} UpperTable(nibble: U4, h: nat)
    requires nibble != 3 && h < 8
    ensures h in Inst0003(nibble).headers <==> h < 4 && Bit(nibble, 3 - h)
  {
    if nibble == 15 {
    } else if nibble >= 8 {
    } else {
    }
  }

  lemma {:induction false} LowerTable(nibble: U4, h: nat)
    requires h < 8
    ensures h in Inst0407(nibble).headers <==> h >= 4 && Bit(nibble, 7 - h)
  {
    if nibble == 15 {
    } else if nibble >= 8 {
    } else {
    }
  }

  /** A mask yields exactly the headers it asks for if and only if it is not misdirected. */
  lemma {:induction false} MaskSelectsHeaders(mask: U16)
    ensures (forall h :: 0 <= h < 8 ==> (h in HeadersOf(mask) <==> Asked(mask, h))) <==> !Misdirected(mask)
  {
    hide UpperNibble, LowerNibble;
    if Misdirected(mask) {
      LowerTable(LowerNibble(mask), 3);
      assert 3 !in HeadersOf(mask) && Asked(mask, 3);
    } else {
      hide Inst0003, Inst0407, Bit;
      forall h | 0 <= h < 8
        ensures h in HeadersOf(mask) <==> Asked(mask, h)
      {
        UpperTable(UpperNibble(mask), h);
        LowerTable(LowerNibble(mask), h);
      }
    }
  }

  /**
   Bit for bit what a mask yields: header `h` is inserted if and only if bit 7 - h of the mask is
   set, except that with the upper nibble 3 header 5 comes out in place of header 3.
   */
  lemma {:induction false} MaskYields(mask: U16, h: nat)
    requires h < 8
    ensures h in HeadersOf(mask) <==>
            if mask / 16 % 16 == 3 && h == 3 then false
            else if mask / 16 % 16 == 3 && h == 5 then true
            else MaskBit(mask, 7 - h)
  {
    BitsOfNibbles(mask);
    hide UpperNibble, LowerNibble, MaskBit, Bit;
    if UpperNibble(mask) == 3 {
      NibbleThree(h);
    } else {
      hide Inst0003;
      UpperTable(UpperNibble(mask), h);
    }
    hide Inst0407;
    LowerTable(LowerNibble(mask), h);
  }

  /** Bit `i` of the mask's low byte, the least significant being 0. */
  predicate MaskBit(mask: U16, i: nat)
    requires i < 8
  {
    match i
    case 0 => mask % 2 == 1
    case 1 => mask / 2 % 2 == 1
    case 2 => mask / 4 % 2 == 1
    case 3 => mask / 8 % 2 == 1
    case 4 => mask / 16 % 2 == 1
    case 5 => mask / 32 % 2 == 1
    case 6 => mask / 64 % 2 == 1
    case _ => mask / 128 % 2 == 1
  }

  lemma {:induction false} BitsOfNibbles(mask: U16)
    ensures UpperNibble(mask) == mask / 16 % 16
    ensures forall b :: 0 <= b < 4 ==> (Bit(LowerNibble(mask), b) <==> MaskBit(mask, b))
    ensures forall b :: 0 <= b < 4 ==> (Bit(UpperNibble(mask), b) <==> MaskBit(mask, b + 4))
  {
    LowBits(mask);
    LowBits(mask / 16);
    HighBits(mask);
    NibbleBits(mask % 16);
    NibbleBits(mask / 16 % 16);
  }

  lemma NibbleBits(n: U4)
    ensures Bit(n, 0) <==> n % 2 == 1
    ensures Bit(n, 1) <==> n / 2 % 2 == 1
    ensures Bit(n, 2) <==> n / 4 % 2 == 1
    ensures Bit(n, 3) <==> n / 8 % 2 == 1
  {}

  lemma LowBits(x: U16)
    ensures x % 2 == x % 16 % 2 && x / 2 % 2 == x % 16 / 2 % 2
    ensures x / 4 % 2 == x % 16 / 4 % 2 && x / 8 % 2 == x % 16 / 8 % 2
  {
    var q, n := x / 16, x % 16;
    Quotients(q, n);
    Even(8 * q, n);
    Even(4 * q, n / 2);
    Even(2 * q, n / 4);
    Even(q, n / 8);
  }

  lemma Quotients(q: nat, n: U4)
    ensures var x := 16 * q + n; x / 2 == 2 * (4 * q) + n / 2 && x / 4 == 2 * (2 * q) + n / 4 && x / 8 == 2 * q + n / 8
  {}

  lemma Even(a: nat, m: nat)
    ensures (2 * a + m) % 2 == m % 2
  {}

  lemma HighBits(x: U16)
    ensures x / 32 == x / 16 / 2 && x / 64 == x / 16 / 4 && x / 128 == x / 16 / 8
  {}

  lemma NibbleThree(h: nat)
    requires h < 8
    ensures h in Inst0003(3).headers <==> h == 2 || h == 5
    ensures h < 4 ==> (Bit(3, 3 - h) <==> h == 2 || h == 3)
  {}

  /** Both tables set header 5. */
  predicate CountsTwice(mask: U16) {
    Misdirected(mask) && Bit(LowerNibble(mask), 2)
  }

  /**
   The words counted are the words emitted, unless both tables set header 5: then two words
   too many are counted.
   */
  lemma {:induction false} CountedIsEmitted(mask: U16)
    ensures WordsOf(mask) == WidthOf(HeadersOf(mask)) + if CountsTwice(mask) then 2 else 0
    ensures WordsOf(mask) <= 10
  {
    hide UpperNibble, LowerNibble;
    UpperWidth(UpperNibble(mask));
    LowerWidth(LowerNibble(mask));
    WidthOfBoth(Inst0003(UpperNibble(mask)).headers, Inst0407(LowerNibble(mask)).headers);
    LowerTable(LowerNibble(mask), 5);
  }

  lemma UpperWidth(nibble: U4)
    ensures var i := Inst0003(nibble);
            i.words == WidthOf(i.headers) <= 4 && i.headers <= (if nibble == 3 then {2, 5} else {0, 1, 2, 3})
  {}

  lemma LowerWidth(nibble: U4)
    ensures var i := Inst0407(nibble);
            i.words == WidthOf(i.headers) <= 6 && i.headers <= {4, 5, 6, 7}
  {}

  lemma WidthOfBoth(a: set<nat>, b: set<nat>)
    requires a <= {0, 1, 2, 3, 5} && b <= {4, 5, 6, 7}
    ensures WidthOf(a + b) == WidthOf(a) + WidthOf(b) - if 5 in a && 5 in b then 2 else 0
  {
    hide Width;
    WidthUnion(a, b, 0);
    WidthUnion(a, b, 1);
    WidthUnion(a, b, 2);
    WidthUnion(a, b, 3);
    WidthUnion(a, b, 4);
    WidthUnion(a, b, 5);
    WidthUnion(a, b, 6);
    WidthUnion(a, b, 7);
  }

  lemma WidthUnion(a: set<nat>, b: set<nat>, k: nat)
    ensures Width(a + b, k) == Width(a, k) + Width(b, k) - if k !in a || k !in b then 0
            else if k == 4 || k == 5 then 2 else 1
  {}

  // ---------------------------------------------------------------------------
  // The ingress control of a transit node
  // ---------------------------------------------------------------------------

  function Minus16(x: U16, y: U16): U16 {
    if x >= y then x - y else x - y + TWO16
  }

  /** `int_hop_exceeded` on the merged c and e field. */
  function SetE(cE: U16): U16 {
    if cE == 0 || cE == 0x100 then cE + 1 else cE
  }

  /** Has the packet used up its hops? */
  predicate Exhausted(limits: Limits, ih: TInt) {
    ih.hopInfo == Minus16(limits.hopInfo, limits.maxHop)
  }

  function GrowIpv4(ipv4: TIpv4, n: nat): TIpv4 {
    ipv4.(totalLen := Plus16(ipv4.totalLen, n))
  }

  function GrowShim(shim: Option<TShim>, words: nat): Option<TShim> {
    if shim.Some? then Some(shim.value.(len := (shim.value.len + words) % TWO8)) else None
  }

  /** What the control does to the headers. */
  function Transit(limits: Limits, h: THeaders): THeaders {
    if (h.udp.None? && h.tcp.None?) || h.intHeader.None? then h else
    var ih := h.intHeader.value;
    if Exhausted(limits, ih) then h.(intHeader := Some(ih.(cE := SetE(ih.cE)))) else
    var words := WordsOf(ih.mask);
    h.(intHeader := Some(ih.(hopInfo := Minus16(ih.hopInfo, 1))),
       added := h.added + HeadersOf(ih.mask),
       ipv4 := GrowIpv4(h.ipv4, 4 * words),
       udp := GrowUdp(h.udp, 4 * words),
       shim := GrowShim(h.shim, words))
  }

  /** `ck_helper`: the fields the checksum update will subtract. */
  datatype Saved = Saved(udpLen: U16, shimLen: U8, hop: U16, totalLen: U16)

  /** The fields as the control finds them; an invalid header reads as zero. */
  function Save(h: THeaders): Saved {
    if h.udp.None? && h.tcp.None? then Saved(0, 0, 0, 0)
    else Saved(UdpLen(h), ShimLen(h), HopInfo(h), h.ipv4.totalLen)
  }

  function UdpLen(h: THeaders): U16 {
    if h.udp.Some? then h.udp.value.len else 0
  }

  function ShimLen(h: THeaders): U8 {
    if h.shim.Some? then h.shim.value.len else 0
  }

  function HopInfo(h: THeaders): U16 {
    if h.intHeader.Some? then h.intHeader.value.hopInfo else 0
  }

  // ---------------------------------------------------------------------------
  // The metadata a node emits
  // ---------------------------------------------------------------------------

  /** The half-words of metadata header `k`, as the node fills it. */
  function MetaWords(ctx: Context, k: nat): seq<U16> {
    match k
    case 0 => [Hi(ctx.switchId), Lo(ctx.switchId)]
    case 1 => [ctx.ingressPort, ctx.egressPort]
    case 4 => [Hi(ctx.ingressTs / TWO32), Lo(ctx.ingressTs / TWO32), Hi(ctx.ingressTs % TWO32),
      Lo(ctx.ingressTs % TWO32)]
    case 5 => [0, 0, 0, 0]
    case _ => [0, 0]
  }

  /** The metadata headers below `upTo` that are valid, in the order they are emitted. */
  function AddedWords(ctx: Context, added: set<nat>, upTo: nat): seq<U16> {
    if upTo == 0 then []
    else AddedWords(ctx, added, upTo - 1) + if upTo - 1 in added then MetaWords(ctx, upTo - 1) else []
  }

  /** The emitted metadata is as long as its widths say. */
  lemma {:induction false} AddedLength(ctx: Context, added: set<nat>)
    ensures |AddedWords(ctx, added, 8)| == 2 * WidthOf(added)
  {
    AddedSplit(ctx, added, 8);
    AddedSplit(ctx, added, 7);
    AddedSplit(ctx, added, 6);
    AddedSplit(ctx, added, 5);
    AddedSplit(ctx, added, 4);
    AddedSplit(ctx, added, 3);
    AddedSplit(ctx, added, 2);
    AddedSplit(ctx, added, 1);
    hide AddedWords, Width;
    assert |AddedWords(ctx, added, 0)| == 0 by {
      NothingAdded(ctx, added);
    }
  }

  lemma NothingAdded(ctx: Context, added: set<nat>)
    ensures AddedWords(ctx, added, 0) == []
  {}

  lemma AddedSplit(ctx: Context, added: set<nat>, k: nat)
    requires 1 <= k <= 8
    ensures |AddedWords(ctx, added, k)| == |AddedWords(ctx, added, k - 1)| + 2 * Width(added, k - 1)
  {}
}
