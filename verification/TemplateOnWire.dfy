/**
 A template node against the bytes: where its parser reads each field, which packets it takes to
 carry telemetry, and what it makes of the bytes of each kind of packet.
 */
module TemplateOnWire {
  import opened Bytes
  import opened Options
  import opened Headers
  import opened Checksum
  import opened Template
  import opened TemplateChecksum
  import opened TemplatePath
  import opened TemplateWire
  import opened TemplateMetadata

  // ---------------------------------------------------------------------------
  // Where the fields lie
  // ---------------------------------------------------------------------------

  predicate Ipv4At(ip: TIpv4, bs: seq<Byte>) {
    && |bs| >= 20
    && bs[0] == ip.versionIhl && bs[1] == ip.dscp
    && Be16(bs, 2) == ip.totalLen && Be16(bs, 4) == ip.id && Be16(bs, 6) == ip.fragment
    && bs[8] == ip.ttl && bs[9] == ip.protocol && Be16(bs, 10) == ip.hdrChecksum
    && WordAt(bs, 12) == ip.srcAddr && WordAt(bs, 16) == ip.dstAddr
  }

  predicate UdpAt(u: Udp, bs: seq<Byte>) {
    && |bs| >= 28
    && Be16(bs, 20) == u.srcPort && Be16(bs, 22) == u.dstPort && Be16(bs, 24) == u.len && Be16(bs, 26) == u.csum
  }

  predicate ShimAt(s: TShim, bs: seq<Byte>, at: nat) {
    && at + 6 <= |bs|
    && bs[at] == s.intType && bs[at + 1] == s.rsvd1 && bs[at + 2] == s.len && bs[at + 3] == s.dscp
    && bs[at + 4] == s.rsvd3 && bs[at + 5] == s.padding
  }

  predicate IntAt(i: TInt, bs: seq<Byte>, at: nat) {
    && at + 14 <= |bs|
    && bs[at] == i.ver && bs[at + 1] == i.rep
    && Be16(bs, at + 2) == i.cE && Be16(bs, at + 4) == i.mRsvd1 && Be16(bs, at + 6) == i.rsvd2
    && Be16(bs, at + 8) == i.hopInfo && Be16(bs, at + 10) == i.mask && Be16(bs, at + 12) == i.rsvd3
  }

  predicate IsL4(bs: seq<Byte>) {
    |bs| >= 20 && (bs[9] == 17 || bs[9] == 6)
  }

  /** Is it a UDP or TCP packet whose lower six bits of the DSCP byte mark it as carrying telemetry? */
  predicate IsMarked(bs: seq<Byte>) {
    IsL4(bs) && bs[1] % 64 == 0x20
  }

  /** Where the headers end that a node parses, without and with those of telemetry. */
  function L4End(bs: seq<Byte>): nat
    requires |bs| >= 20
  {
    if bs[9] == 17 then 28 else if bs[9] == 6 then 40 else 20
  }

  function HeadersEnd(bs: seq<Byte>): nat
    requires |bs| >= 20
  {
    L4End(bs) + if IsMarked(bs) then 20 else 0
  }

  /** A packet is parsed if and only if it holds all its headers. */
  predicate Whole(bs: seq<Byte>) {
    |bs| >= 20 && |bs| >= HeadersEnd(bs)
  }

  predicate HeadersAt(h: THeaders, bs: seq<Byte>) {
    && Whole(bs) && h.added == {} && Ipv4At(h.ipv4, bs)
    && (h.udp.Some? <==> bs[9] == 17) && (h.udp.Some? ==> UdpAt(h.udp.value, bs))
    && (h.tcp.Some? <==> bs[9] == 6) && (h.tcp.Some? ==> h.tcp.value == bs[20..40])
    && (h.shim.Some? <==> IsMarked(bs)) && (h.intHeader.Some? <==> IsMarked(bs))
    && (h.shim.Some? ==> ShimAt(h.shim.value, bs, L4End(bs)))
    && (h.intHeader.Some? ==> IntAt(h.intHeader.value, bs, L4End(bs) + 6))
  }

  lemma {:induction false} HalfAt(bs: seq<Byte>, i: nat)
    requires |bs| % 2 == 0 && 2 * i + 2 <= |bs|
    ensures Words16(bs)[i] == Be16(bs, 2 * i)
    decreases |bs|
  {
    if i > 0 {
      HalfAt(bs[2..], i - 1);
    }
  }

  /** Half-word `i` of the slice from `at` on. */
  lemma HalfOfSlice(bs: seq<Byte>, at: nat, n: nat, i: nat)
    requires at + n <= |bs| && n % 2 == 0 && 2 * i + 2 <= n
    ensures Words16(bs[at..at + n])[i] == Be16(bs, at + 2 * i)
  {
    hide Words16;
    HalfAt(bs[at..at + n], i);
  }

  lemma Pair(bs: seq<Byte>, at: nat)
    requires at + 2 <= |bs|
    ensures Be16(bs, at) / 256 == bs[at] && Be16(bs, at) % 256 == bs[at + 1]
  {}

  lemma Four(bs: seq<Byte>, at: nat)
    requires at + 4 <= |bs|
    ensures WordAt(bs, at) == Word2(Be16(bs, at), Be16(bs, at + 2))
  {}

  lemma {:induction false} Ipv4Reads(bs: seq<Byte>)
    requires |bs| >= 20
    ensures Ipv4At(Ipv4OfWords(Words16(bs[..20])), bs)
  {
    hide Words16, Be16, WordAt, Word2;
    assert bs[..20] == bs[0..0 + 20];
    HalfOfSlice(bs, 0, 20, 0);
    HalfOfSlice(bs, 0, 20, 1);
    HalfOfSlice(bs, 0, 20, 2);
    HalfOfSlice(bs, 0, 20, 3);
    HalfOfSlice(bs, 0, 20, 4);
    HalfOfSlice(bs, 0, 20, 5);
    HalfOfSlice(bs, 0, 20, 6);
    HalfOfSlice(bs, 0, 20, 7);
    HalfOfSlice(bs, 0, 20, 8);
    HalfOfSlice(bs, 0, 20, 9);
    Pair(bs, 0);
    Pair(bs, 8);
    Four(bs, 12);
    Four(bs, 16);
  }

  lemma {:induction false} UdpReads(bs: seq<Byte>)
    requires |bs| >= 28
    ensures UdpAt(UdpOfWords(Words16(bs[20..28])), bs)
  {
    hide Words16, Be16;
    HalfOfSlice(bs, 20, 8, 0);
    HalfOfSlice(bs, 20, 8, 1);
    HalfOfSlice(bs, 20, 8, 2);
    HalfOfSlice(bs, 20, 8, 3);
  }

  lemma {:induction false} ShimReads(bs: seq<Byte>, at: nat)
    requires at + 6 <= |bs|
    ensures ShimAt(ShimOfWords(Words16(bs[at..at + 6])), bs, at)
  {
    hide Words16, Be16;
    HalfOfSlice(bs, at, 6, 0);
    HalfOfSlice(bs, at, 6, 1);
    HalfOfSlice(bs, at, 6, 2);
    Pair(bs, at);
    Pair(bs, at + 2);
    Pair(bs, at + 4);
  }

  lemma {:induction false} IntReads(bs: seq<Byte>, at: nat)
    requires at + 14 <= |bs|
    ensures IntAt(IntOfWords(Words16(bs[at..at + 14])), bs, at)
  {
    hide Words16, Be16;
    HalfOfSlice(bs, at, 14, 0);
    HalfOfSlice(bs, at, 14, 1);
    HalfOfSlice(bs, at, 14, 2);
    HalfOfSlice(bs, at, 14, 3);
    HalfOfSlice(bs, at, 14, 4);
    HalfOfSlice(bs, at, 14, 5);
    HalfOfSlice(bs, at, 14, 6);
    Pair(bs, at);
  }

  /** The INT part of the parser. */
  lemma {:induction false} IntState(h: THeaders, bs: seq<Byte>, at: nat)
    requires at <= |bs|
    ensures var p := ParseInt(h, bs[at..]);
            if h.ipv4.dscp % 64 != 0x20 then p == Some(TPacket(h, bs[at..]))
            else && (p.Some? <==> |bs| >= at + 20)
                 && (p.Some? ==>
                       && p.value.payload == bs[at + 20..]
                       && p.value.h.shim.Some? && p.value.h.intHeader.Some?
                       && p.value.h == h.(shim := p.value.h.shim, intHeader := p.value.h.intHeader)
                       && ShimAt(p.value.h.shim.value, bs, at) && IntAt(p.value.h.intHeader.value, bs, at + 6))
  {
    hide Words16, ShimOfWords, IntOfWords, ShimAt, IntAt;
    if |bs| >= at + 20 {
      var rest := bs[at..];
      assert rest[..6] == bs[at..at + 6] && rest[6..][..14] == bs[at + 6..at + 6 + 14];
      assert rest[6..][14..] == bs[at + 20..];
      ShimReads(bs, at);
      IntReads(bs, at + 6);
    }
  }

  /**
   The parser against the bytes: it takes a packet if and only if the packet holds all the headers
   its first bytes announce, and reads each field from its place.
   */
  lemma {:induction false} ParserReads(bs: seq<Byte>)
    ensures ParsePacket(bs).Some? <==> Whole(bs)
    ensures Whole(bs) ==>
              HeadersAt(ParsePacket(bs).value.h, bs) && ParsePacket(bs).value.payload == bs[HeadersEnd(bs)..]
  {
    hide Words16, Ipv4OfWords, UdpOfWords, ParseInt, ShimAt, IntAt, UdpAt;
    if |bs| >= 20 {
      Ipv4Reads(bs);
      var ip := Ipv4OfWords(Words16(bs[..20]));
      var h := THeaders(ip, None, None, None, None, {});
      if bs[9] == 17 {
        if |bs| >= 28 {
          assert bs[20..][..8] == bs[20..28] && bs[20..][8..] == bs[28..];
          UdpReads(bs);
          IntState(h.(udp := Some(UdpOfWords(Words16(bs[20..28])))), bs, 28);
        }
      } else if bs[9] == 6 {
        if |bs| >= 40 {
          assert bs[20..][..20] == bs[20..40] && bs[20..][20..] == bs[40..];
          IntState(h.(tcp := Some(bs[20..40])), bs, 40);
        }
      }
    }
  }

  // ---------------------------------------------------------------------------
  // Writing them there
  // ---------------------------------------------------------------------------

  lemma {:induction false} OneHeaderSet(a: THeaders, b: THeaders, bs: seq<Byte>)
    requires HeadersAt(a, bs) && HeadersAt(b, bs)
    ensures a == b
  {
    hide WordAt, Be16;
  }

  /** Headers whose fields lie in a byte string are sent as what it starts with. */
  lemma {:induction false} HeadersWritten(h: THeaders, bs: seq<Byte>)
    requires HeadersAt(h, bs)
    ensures |bs| >= HeadersEnd(bs) && Emit(TPacket(h, bs[HeadersEnd(bs)..])) == bs
  {
    assert Whole(bs);
    hide HeadersAt, HeadersEnd, Emit, ParsePacket, OnWire;
    ParserReads(bs);
    EmitUndoesParse(bs);
    OneHeaderSet(h, ParsePacket(bs).value.h, bs);
  }

  /** The packet with `words` more words in its lengths and with these hop and c, e fields. */
  function Updated(bs: seq<Byte>, words: nat, cE: U16, hop: U16): (r: seq<Byte>)
    requires Whole(bs)
    ensures |r| == |bs| && r[1] == bs[1] && r[9] == bs[9]
  {
    var at := L4End(bs);
    var a := Put16(bs, 2, (Be16(bs, 2) + 4 * words) % 0x1_0000);
    var b := if bs[9] == 17 then Put16(a, 24, (Be16(bs, 24) + 4 * words) % 0x1_0000) else a;
    if IsMarked(bs) then Put16(Put16(b[at + 2 := (bs[at + 2] + words) % TWO8], at + 8, cE), at + 14, hop) else b
  }

  function WithChecksums(bs: seq<Byte>, header: U16, udp: U16): (r: seq<Byte>)
    requires Whole(bs)
    ensures |r| == |bs|
  {
    Put16(if bs[9] == 17 then Put16(bs, 26, udp) else bs, 10, header)
  }

  /** The same change on the headers. */
  function UpdatedHeaders(h: THeaders, words: nat, cE: U16, hop: U16, header: U16, udp: U16): THeaders {
    h.(ipv4 := h.ipv4.(totalLen := Plus16(h.ipv4.totalLen, 4 * words), hdrChecksum := header),
       udp := if h.udp.Some? then Some(h.udp.value.(len := Plus16(h.udp.value.len, 4 * words), csum := udp)) else None,
       shim := GrowShim(h.shim, words),
       intHeader := if h.intHeader.Some? then Some(h.intHeader.value.(cE := cE, hopInfo := hop)) else None)
  }

  // Which bytes of the headers an update leaves, and what the others become.

  lemma {:induction false} UpdatedIpv4(bs: seq<Byte>, words: nat, cE: U16, hop: U16, header: U16, udp: U16)
    requires Whole(bs)
    ensures var b := WithChecksums(Updated(bs, words, cE, hop), header, udp);
            && b[..2] == bs[..2] && b[4..10] == bs[4..10] && b[12..20] == bs[12..20]
            && Be16(b, 2) == (Be16(bs, 2) + 4 * words) % 0x1_0000 && Be16(b, 10) == header
            && b[9] == bs[9] && b[1] == bs[1]
  {
    Get16(bs, 2, (Be16(bs, 2) + 4 * words) % 0x1_0000);
    var u := Updated(bs, words, cE, hop);
    Get16(if u[9] == 17 then Put16(u, 26, udp) else u, 10, header);
  }

  lemma {:induction false} UpdatedL4(bs: seq<Byte>, words: nat, cE: U16, hop: U16, header: U16, udp: U16)
    requires Whole(bs)
    ensures var b := WithChecksums(Updated(bs, words, cE, hop), header, udp);
            && (bs[9] == 17 ==> b[20..24] == bs[20..24] && Be16(b, 24) == (Be16(bs, 24) + 4 * words) % 0x1_0000
                                && Be16(b, 26) == udp)
            && (bs[9] == 6 ==> b[20..40] == bs[20..40])
  {
    var a := Put16(bs, 2, (Be16(bs, 2) + 4 * words) % 0x1_0000);
    if bs[9] == 17 {
      Get16(a, 24, (Be16(bs, 24) + 4 * words) % 0x1_0000);
      Get16(Updated(bs, words, cE, hop), 26, udp);
    }
  }

  lemma {:induction false} UpdatedInt(bs: seq<Byte>, words: nat, cE: U16, hop: U16, header: U16, udp: U16)
    requires Whole(bs) && IsMarked(bs)
    ensures var b, at := WithChecksums(Updated(bs, words, cE, hop), header, udp), L4End(bs);
            && b[at..at + 2] == bs[at..at + 2] && b[at + 2] == (bs[at + 2] + words) % TWO8
            && b[at + 3..at + 8] == bs[at + 3..at + 8] && Be16(b, at + 8) == cE
            && b[at + 10..at + 14] == bs[at + 10..at + 14] && Be16(b, at + 14) == hop
            && b[at + 16..at + 20] == bs[at + 16..at + 20]
  {}

  lemma {:induction false} Ipv4Updated(ip: TIpv4, bs: seq<Byte>, b: seq<Byte>, words: nat, header: U16)
    requires Ipv4At(ip, bs) && |b| >= 20
    requires b[..2] == bs[..2] && b[4..10] == bs[4..10] && b[12..20] == bs[12..20]
    requires Be16(b, 2) == (Be16(bs, 2) + 4 * words) % 0x1_0000 && Be16(b, 10) == header
    ensures Ipv4At(ip.(totalLen := Plus16(ip.totalLen, 4 * words), hdrChecksum := header), b)
  {
    SameBytes(b, bs, 0, 2);
    SameBytes(b, bs, 4, 6);
    SameBytes(b, bs, 12, 8);
  }

  lemma {:induction false} ShimUpdated(s: TShim, bs: seq<Byte>, b: seq<Byte>, at: nat, words: nat)
    requires ShimAt(s, bs, at) && |b| >= at + 6
    requires b[at..at + 2] == bs[at..at + 2] && b[at + 2] == (bs[at + 2] + words) % TWO8
    requires b[at + 3..at + 6] == bs[at + 3..at + 6]
    ensures ShimAt(s.(len := (s.len + words) % TWO8), b, at)
  {
    SameBytes(b, bs, at, 2);
    SameBytes(b, bs, at + 3, 3);
  }

  lemma {:induction false} IntUpdated(i: TInt, bs: seq<Byte>, b: seq<Byte>, at: nat, cE: U16, hop: U16)
    requires IntAt(i, bs, at) && |b| >= at + 14
    requires b[at..at + 2] == bs[at..at + 2] && Be16(b, at + 2) == cE && b[at + 4..at + 8] == bs[at + 4..at + 8]
    requires Be16(b, at + 8) == hop && b[at + 10..at + 14] == bs[at + 10..at + 14]
    ensures IntAt(i.(cE := cE, hopInfo := hop), b, at)
  {
    SameBytes(b, bs, at, 2);
    SameBytes(b, bs, at + 4, 4);
    SameBytes(b, bs, at + 10, 4);
  }

  /** The changed headers lie in the changed bytes. */
  lemma {:induction false} UpdatedHeadersAt(h: THeaders, bs: seq<Byte>, words: nat, cE: U16, hop: U16, header: U16,
                                            udp: U16)
    requires HeadersAt(h, bs)
    ensures var b := WithChecksums(Updated(bs, words, cE, hop), header, udp);
            HeadersAt(UpdatedHeaders(h, words, cE, hop, header, udp), b) && HeadersEnd(b) == HeadersEnd(bs)
  {
    hide Ipv4At, ShimAt, IntAt, Updated, WithChecksums;
    var b, at := WithChecksums(Updated(bs, words, cE, hop), header, udp), L4End(bs);
    UpdatedIpv4(bs, words, cE, hop, header, udp);
    UpdatedL4(bs, words, cE, hop, header, udp);
    Ipv4Updated(h.ipv4, bs, b, words, header);
    if h.udp.Some? {
      SameBytes(b, bs, 20, 4);
    }
    if h.shim.Some? {
      UpdatedInt(bs, words, cE, hop, header, udp);
      assert b[at + 3..at + 8][..3] == b[at + 3..at + 6] && bs[at + 3..at + 8][..3] == bs[at + 3..at + 6];
      assert b[at + 3..at + 8][3..] == b[at + 6..at + 8] && bs[at + 3..at + 8][3..] == bs[at + 6..at + 8];
      ShimUpdated(h.shim.value, bs, b, at, words);
      IntUpdated(h.intHeader.value, bs, b, at + 6, cE, hop);
    }
  }

  // ---------------------------------------------------------------------------
  // One node
  // ---------------------------------------------------------------------------

  /** Does a node with these limits add metadata to the packet? */
  predicate Adds(limits: Limits, bs: seq<Byte>)
    requires Whole(bs)
  {
    IsMarked(bs) && Be16(bs, L4End(bs) + 14) != (limits.hopInfo as int - limits.maxHop) % 0x1_0000
  }

  function MaskOf(bs: seq<Byte>): U16
    requires Whole(bs)
  {
    if IsMarked(bs) then Be16(bs, L4End(bs) + 16) else 0
  }

  /** The c and e field, e being set on a packet that no longer gets metadata. */
  function NextCE(limits: Limits, bs: seq<Byte>): U16
    requires Whole(bs)
  {
    if !IsMarked(bs) then 0 else
    var c, e := bs[L4End(bs) + 8], bs[L4End(bs) + 9];
    c * TWO8 + if !Adds(limits, bs) && c <= 1 && e == 0 then 1 else e
  }

  function NextHop(limits: Limits, bs: seq<Byte>): U16
    requires Whole(bs)
  {
    if !IsMarked(bs) then 0 else
    var hop := Be16(bs, L4End(bs) + 14);
    if !Adds(limits, bs) then hop else (hop + 0xffff) % TWO16
  }

  /** The headers a node sends, the two checksums apart. */
  function AfterNode(limits: Limits, bs: seq<Byte>): (r: seq<Byte>)
    requires Whole(bs)
    ensures |r| == |bs| && r[1] == bs[1] && r[9] == bs[9]
  {
    Updated(bs, if Adds(limits, bs) then WordsOf(MaskOf(bs)) else 0, NextCE(limits, bs), NextHop(limits, bs))
  }

  /** What a packet without INT headers becomes. */
  lemma PlainNode(limits: Limits, ctx: Context, p: TPacket)
    requires Extracted(p.h) && p.h.intHeader.None?
    ensures var q := Node(limits, ctx, p);
            q.h == UpdatedHeaders(p.h, 0, 0, 0, q.h.ipv4.hdrChecksum, UdpCsum(q.h)) && q.payload == p.payload
  {
    hide NewChecksum, MetaWords, HeadersOf, WordsOf;
    NoneValid(ctx, 8);
    assert Bytes16([]) + p.payload == p.payload;
  }

  /** What a packet with INT headers becomes. */
  lemma {:induction false} CarryingNode(limits: Limits, ctx: Context, p: TPacket)
    requires Carrying(p.h)
    ensures var q, adds, ih := Node(limits, ctx, p), HopsLeft(limits, p.h) > 0, p.h.intHeader.value;
            && q.h == UpdatedHeaders(p.h, if adds then WordsOf(ih.mask) else 0, if adds then ih.cE else SetE(ih.cE),
                                     if adds then Minus16(ih.hopInfo, 1) else ih.hopInfo,
                                     q.h.ipv4.hdrChecksum, UdpCsum(q.h))
            && q.payload == (if adds then Metadata(ctx, ih.mask) else []) + p.payload
  {
    hide Node, WordsOf, Metadata, SetE;
    HopLimit(limits, [ctx], p);
    assert [ctx][..0] == [];
    if HopsLeft(limits, p.h) > 0 {
      assert [ctx][..1] == [ctx];
      assert Stack([ctx], Mask(p.h)) == Metadata(ctx, Mask(p.h)) + Stack([], Mask(p.h));
    }
    assert Run(limits, [ctx][..0], p) == p;
    assert Run(limits, [ctx], p) == Node(limits, ctx, p);
  }

  /** The two conditions for adding metadata are one. */
  lemma AddsIsHopsLeft(limits: Limits, h: THeaders, bs: seq<Byte>)
    requires HeadersAt(h, bs)
    ensures h.intHeader.Some? <==> IsMarked(bs)
    ensures h.intHeader.Some? ==>
              && (Adds(limits, bs) <==> HopsLeft(limits, h) > 0)
              && MaskOf(bs) == Mask(h)
              && NextCE(limits, bs) == (if HopsLeft(limits, h) > 0 then CE(h) else SetE(CE(h)))
              && NextHop(limits, bs) == (if HopsLeft(limits, h) > 0 then Minus16(HopInfo(h), 1) else HopInfo(h))
  {
    hide WordAt;
  }

  /** The header checksum a node sends: the old one less what the length grew, one's complement. */
  lemma {:induction false} HeaderChecksumIs(limits: Limits, ctx: Context, p: TPacket)
    requires Extracted(p.h)
    ensures var ip, ip' := p.h.ipv4, Node(limits, ctx, p).h.ipv4;
            ip'.hdrChecksum ==
              (ip.hdrChecksum as int + (if p.h.udp.Some? || p.h.tcp.Some? then ip.totalLen else 0) - ip'.totalLen)
              % 0xffff
  {
    hide AddedWords, Bytes16, HeadersOf, NewChecksum, Sum, Complements;
    var t := Transit(limits, p.h);
    var saved := Save(p.h).totalLen;
    NewChecksumResidue([t.ipv4.hdrChecksum, saved], [t.ipv4.totalLen]);
    Sum2(t.ipv4.hdrChecksum, saved);
    Sum1(t.ipv4.totalLen);
    ComplementsSum([t.ipv4.hdrChecksum, saved]);
    LengthAlive(limits, p.h);
    Remainder(Node(limits, ctx, p).h.ipv4.hdrChecksum, t.ipv4.hdrChecksum as int + saved - t.ipv4.totalLen);
  }

  /** The length saved and the new one are never 0xffff and 0. */
  lemma LengthAlive(limits: Limits, h: THeaders)
    requires Extracted(h)
    ensures Transit(limits, h).ipv4.hdrChecksum == h.ipv4.hdrChecksum
    ensures Save(h).totalLen == (if h.udp.Some? || h.tcp.Some? then h.ipv4.totalLen else 0)
    ensures Save(h).totalLen == 0xffff ==> Transit(limits, h).ipv4.totalLen > 0
  {
    hide WordsOf, HeadersOf, WidthOf, CountsTwice;
    if h.intHeader.Some? {
      CountedIsEmitted(h.intHeader.value.mask);
    }
  }

  /** How many bytes a node inserts. */
  function InsertedBytes(limits: Limits, bs: seq<Byte>): nat
    requires Whole(bs)
  {
    if Adds(limits, bs) then Behind(HeadersOf(MaskOf(bs)), 8) else 0
  }

  /** The UDP checksum of what is sent for `bs`, if that is a datagram. */
  function UdpField(bs: seq<Byte>, out: seq<Byte>): U16
    requires Whole(bs) && |out| >= |bs|
  {
    if bs[9] == 17 then Be16(out, 26) else 0
  }

  /** What a node makes of a packet, byte for byte. */
  predicate SentOnWire(limits: Limits, ctx: Context, bs: seq<Byte>, out: seq<Byte>)
    requires Whole(bs)
  {
    var end, n := HeadersEnd(bs), InsertedBytes(limits, bs);
    && |out| == |bs| + n
    && out[..end] == WithChecksums(AfterNode(limits, bs), Be16(out, 10), UdpField(bs, out))[..end]
    && Be16(out, 10) == (Be16(bs, 10) as int + (if IsL4(bs) then Be16(bs, 2) else 0) - Be16(out, 2)) % 0xffff
    && (bs[9] == 17 && !Adds(limits, bs) ==> Be16(out, 26) == Be16(bs, 26) % 0xffff)
    && (Adds(limits, bs) ==> MetadataAt(ctx, HeadersOf(MaskOf(bs)), out, end))
    && out[end + n..] == bs[end..]
  }

  /**
   One node, from bytes to bytes.  The lengths grow by the words its tables count, the hop field
   counts down or the e bit is set, both checksums are updated, the metadata its mask yields stands
   behind the INT headers, and every other byte is as it was.
   */
  lemma {:induction false} NodeOnWire(limits: Limits, ctx: Context, bs: seq<Byte>)
    requires Whole(bs)
    ensures var out := Forward(limits, [ctx], bs);
            out.Some? && SentOnWire(limits, ctx, bs, out.value)
  {
    hide ParsePacket, Node, Emit, HeadersAt, AfterNode, SentOnWire, OnWire, Whole;
    ParserReads(bs);
    EmitUndoesParse(bs);
    var p := ParsePacket(bs).value;
    var q := Node(limits, ctx, p);
    OneForward(limits, ctx, bs);
    OnWireExtracted(p.h);
    var m := NodeUpdates(limits, ctx, p, bs);
    SentFollows(limits, ctx, bs, p, q, m);
  }

  lemma OneForward(limits: Limits, ctx: Context, bs: seq<Byte>)
    requires ParsePacket(bs).Some?
    ensures Forward(limits, [ctx], bs) == Some(Emit(Node(limits, ctx, ParsePacket(bs).value)))
  {
    hide ParsePacket, Node, Emit;
    assert [ctx][..0] == [];
  }

  lemma OnWireExtracted(h: THeaders)
    requires OnWire(h)
    ensures Extracted(h)
  {}

  /** A node's effect on the headers is the update that `AfterNode` makes to their bytes. */
  lemma {:induction false} NodeUpdates(limits: Limits, ctx: Context, p: TPacket, bs: seq<Byte>) returns (m: seq<Byte>)
    requires HeadersAt(p.h, bs) && Extracted(p.h) && p.payload == bs[HeadersEnd(bs)..]
    ensures var q, words := Node(limits, ctx, p), if Adds(limits, bs) then WordsOf(MaskOf(bs)) else 0;
            && q.h == UpdatedHeaders(p.h, words, NextCE(limits, bs), NextHop(limits, bs), q.h.ipv4.hdrChecksum,
                                     UdpCsum(q.h))
            && q.payload == m + p.payload && |m| == InsertedBytes(limits, bs)
            && (Adds(limits, bs) ==> MetadataAt(ctx, HeadersOf(MaskOf(bs)), m, 0))
  {
    hide Node, HeadersOf, WordsOf, HeaderAt, Behind, SetE, Metadata, HeadersAt, NextCE, NextHop, MaskOf, Adds;
    LengthAndChecksums(p.h, bs);
    AddsIsHopsLeft(limits, p.h, bs);
    if p.h.intHeader.None? {
      PlainNode(limits, ctx, p);
      m := [];
      assert [] + p.payload == p.payload;
      NotMarked(limits, bs);
    } else {
      CarryingNode(limits, ctx, p);
      if HopsLeft(limits, p.h) > 0 {
        m := Metadata(ctx, Mask(p.h));
        MetadataIs(ctx, Mask(p.h));
      } else {
        m := [];
      }
    }
  }

  lemma NotMarked(limits: Limits, bs: seq<Byte>)
    requires Whole(bs) && !IsMarked(bs)
    ensures !Adds(limits, bs) && NextCE(limits, bs) == 0 && NextHop(limits, bs) == 0
  {}

  lemma {:induction false} SameStart(h: THeaders, b: seq<Byte>, out: seq<Byte>, end: nat)
    requires HeadersAt(h, b) && end == HeadersEnd(b) && |out| >= end && out[..end] == b[..end]
    ensures HeadersAt(h, out) && HeadersEnd(out) == end && out[9] == b[9]
  {
    SameBytes(out, b, 0, end);
    if h.tcp.Some? {
      assert out[20..40] == out[..end][20..40] && b[20..40] == b[..end][20..40];
    }
  }

  /** The fields the checksums are about. */
  lemma LengthAndChecksums(h: THeaders, bs: seq<Byte>)
    requires HeadersAt(h, bs)
    ensures Whole(bs) && HeadersEnd(bs) >= 20
    ensures Be16(bs, 2) == h.ipv4.totalLen && Be16(bs, 10) == h.ipv4.hdrChecksum
    ensures bs[9] == 17 <==> h.udp.Some?
    ensures IsL4(bs) <==> h.udp.Some? || h.tcp.Some?
    ensures bs[9] == 17 ==> |bs| >= 28 && Be16(bs, 26) == UdpCsum(h)
    ensures bs[9] != 17 ==> UdpCsum(h) == 0
  {
    hide WordAt;
  }

  /** A node that adds nothing shifts nothing. */
  lemma {:induction false} CsumUnshifted(limits: Limits, ctx: Context, p: TPacket, bs: seq<Byte>)
    requires HeadersAt(p.h, bs) && Extracted(p.h) && p.h.udp.Some? && Whole(bs) && !Adds(limits, bs)
    ensures UdpCsum(Node(limits, ctx, p).h) == UdpCsum(p.h) % 0xffff
  {
    hide Node, AddedWords, HeadersOf, WordsOf, HeadersAt, Adds;
    CsumIsNeverAllOnes(limits, ctx, p);
    AddsIsHopsLeft(limits, p.h, bs);
  }

  /** From the updated headers to the bytes sent. */
  lemma {:induction false} SentFollows(limits: Limits, ctx: Context, bs: seq<Byte>, p: TPacket, q: TPacket,
                                       m: seq<Byte>)
    requires HeadersAt(p.h, bs) && Extracted(p.h) && p.payload == bs[HeadersEnd(bs)..] && q == Node(limits, ctx, p)
    requires var words := if Adds(limits, bs) then WordsOf(MaskOf(bs)) else 0;
             q.h == UpdatedHeaders(p.h, words, NextCE(limits, bs), NextHop(limits, bs), q.h.ipv4.hdrChecksum,
                                   UdpCsum(q.h))
    requires q.payload == m + p.payload && |m| == InsertedBytes(limits, bs)
    requires Adds(limits, bs) ==> MetadataAt(ctx, HeadersOf(MaskOf(bs)), m, 0)
    ensures SentOnWire(limits, ctx, bs, Emit(q))
  {
    hide Node, HeadersOf, WordsOf, Behind, HeadersAt, NextCE, NextHop, MaskOf, Adds, Emit, MetadataAt, UpdatedHeaders;
    hide WithChecksums, Updated, Extracted, HeadersEnd, IsL4, UdpCsum, Be16;
    LengthAndChecksums(p.h, bs);
    var end, header, udp := HeadersEnd(bs), q.h.ipv4.hdrChecksum, UdpCsum(q.h);
    var words := if Adds(limits, bs) then WordsOf(MaskOf(bs)) else 0;
    UpdatedHeadersAt(p.h, bs, words, NextCE(limits, bs), NextHop(limits, bs), header, udp);
    UpdatedWhole(bs, words, NextCE(limits, bs), NextHop(limits, bs));
    UpdatedIpv4(bs, words, NextCE(limits, bs), NextHop(limits, bs), header, udp);
    var b := WithChecksums(AfterNode(limits, bs), header, udp);
    LengthAndChecksums(q.h, b);
    EndWithin(b);
    var out := b[..end] + q.payload;
    SameStart(q.h, b, out, end);
    HeadersWritten(q.h, out);
    assert out[end..] == q.payload && out[..end] == b[..end];
    assert Emit(q) == out;
    LengthAndChecksums(q.h, out);
    HeaderChecksumIs(limits, ctx, p);
    if bs[9] == 17 && !Adds(limits, bs) {
      CsumUnshifted(limits, ctx, p, bs);
    }
    if Adds(limits, bs) {
      MetadataStays(ctx, HeadersOf(MaskOf(bs)), m, b[..end], p.payload);
      assert b[..end] + m + p.payload == out;
    }
    assert out[end + |m|..] == p.payload;
  }

  lemma UpdatedWhole(bs: seq<Byte>, words: nat, cE: U16, hop: U16)
    requires Whole(bs)
    ensures Whole(Updated(bs, words, cE, hop)) && Updated(bs, words, cE, hop)[9] == bs[9]
  {
    hide Updated;
  }

  lemma EndWithin(b: seq<Byte>)
    requires Whole(b)
    ensures |b| >= HeadersEnd(b)
  {}

  /** Writing the lengths that stand there changes nothing. */
  lemma SameLengths(bs: seq<Byte>)
    requires Whole(bs) && !IsMarked(bs)
    ensures Updated(bs, 0, 0, 0) == bs
  {
    hide Put16, Be16;
    PutSame16(bs, 2);
    if bs[9] == 17 {
      PutSame16(bs, 24);
    }
  }

  lemma {:induction false} SentLength(limits: Limits, ctx: Context, bs: seq<Byte>, out: seq<Byte>)
    requires Whole(bs) && !IsMarked(bs) && SentOnWire(limits, ctx, bs, out)
    ensures Be16(out, 2) == Be16(bs, 2)
  {
    var end, udp := HeadersEnd(bs), if bs[9] == 17 then Be16(out, 26) else 0;
    SameLengths(bs);
    UpdatedIpv4(bs, 0, 0, 0, Be16(out, 10), udp);
    SameBytes(out, WithChecksums(bs, Be16(out, 10), udp), 0, end);
    hide WithChecksums, Updated;
  }

  lemma ChecksumsInFront(bs: seq<Byte>, header: U16, udp: U16)
    requires Whole(bs)
    ensures WithChecksums(bs, header, udp)[HeadersEnd(bs)..] == bs[HeadersEnd(bs)..]
  {}

  /** Without telemetry only checksums change. */
  lemma {:induction false} UnmarkedSent(limits: Limits, ctx: Context, bs: seq<Byte>, out: seq<Byte>)
    requires Whole(bs) && !IsMarked(bs) && SentOnWire(limits, ctx, bs, out)
    ensures out == WithChecksums(bs, Be16(out, 10), if bs[9] == 17 then Be16(out, 26) else 0)
  {
    var end, udp := HeadersEnd(bs), if bs[9] == 17 then Be16(out, 26) else 0;
    SameLengths(bs);
    ChecksumsInFront(bs, Be16(out, 10), udp);
    Prefixed(limits, ctx, bs, out);
    hide WithChecksums, SentOnWire, Be16;
    var b := WithChecksums(bs, Be16(out, 10), udp);
    assert out == out[..end] + out[end..] && b == b[..end] + b[end..];
  }

  lemma Prefixed(limits: Limits, ctx: Context, bs: seq<Byte>, out: seq<Byte>)
    requires Whole(bs) && !IsMarked(bs) && SentOnWire(limits, ctx, bs, out) && Updated(bs, 0, 0, 0) == bs
    ensures var end, udp := HeadersEnd(bs), if bs[9] == 17 then Be16(out, 26) else 0;
            && |out| == |bs| && out[end..] == bs[end..]
            && out[..end] == WithChecksums(bs, Be16(out, 10), udp)[..end]
  {
    hide WithChecksums, Updated, Be16;
  }

  lemma ChecksumValues(limits: Limits, ctx: Context, bs: seq<Byte>, out: seq<Byte>)
    requires Whole(bs) && !IsMarked(bs) && SentOnWire(limits, ctx, bs, out) && Be16(out, 2) == Be16(bs, 2)
    ensures Be16(out, 10) == (Be16(bs, 10) as int - if IsL4(bs) then 0 else Be16(bs, 2)) % 0xffff
    ensures bs[9] == 17 ==> Be16(out, 26) == Be16(bs, 26) % 0xffff
  {
    hide WithChecksums, Updated, Be16;
  }

  /** A UDP or TCP packet without telemetry: only a checksum of 0xffff is rewritten, as 0. */
  lemma {:induction false} PlainTrafficPasses(limits: Limits, ctx: Context, bs: seq<Byte>)
    requires Whole(bs) && IsL4(bs) && !IsMarked(bs)
    ensures Forward(limits, [ctx], bs) ==
            Some(WithChecksums(bs, Be16(bs, 10) % 0xffff, if bs[9] == 17 then Be16(bs, 26) % 0xffff else 0))
  {
    hide Forward, WithChecksums, SentOnWire;
    NodeOnWire(limits, ctx, bs);
    var out := Forward(limits, [ctx], bs).value;
    SentLength(limits, ctx, bs, out);
    ChecksumValues(limits, ctx, bs, out);
    UnmarkedSent(limits, ctx, bs, out);
  }

  /**
   A packet that is neither UDP nor TCP: its header checksum is lowered by its length, of which
   nothing was saved to be taken out first.  All other bytes pass.
   */
  lemma {:induction false} OtherTrafficPasses(limits: Limits, ctx: Context, bs: seq<Byte>)
    requires Whole(bs) && !IsL4(bs)
    ensures Forward(limits, [ctx], bs) ==
            Some(WithChecksums(bs, (Be16(bs, 10) as int - Be16(bs, 2)) % 0xffff, 0))
  {
    hide Forward, WithChecksums, SentOnWire;
    NodeOnWire(limits, ctx, bs);
    var out := Forward(limits, [ctx], bs).value;
    SentLength(limits, ctx, bs, out);
    ChecksumValues(limits, ctx, bs, out);
    UnmarkedSent(limits, ctx, bs, out);
  }
}
