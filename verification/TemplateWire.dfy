/**
 The template's packets as bytes, from the IPv4 header on: what the deparser emits, what the
 parser reads back, and so the path theorems restated for the bytes on the wire and for the
 checksum a receiver computes over them.
 */
module TemplateWire {
  import opened Bytes
  import opened Options
  import opened Headers
  import opened Checksum
  import opened Template
  import opened TemplateChecksum
  import opened TemplatePath

  const DSCP_MASK_SIZE := 64
  const DSCP_INT := 0x20

  /** Half-words read from bytes. */
  function Words16(bs: seq<Byte>): (ws: seq<U16>)
    requires |bs| % 2 == 0
    ensures 2 * |ws| == |bs|
  {
    if bs == [] then [] else [HalfWord(bs[0], bs[1])] + Words16(bs[2..])
  }

  function HalfWord(hi: Byte, lo: Byte): U16 {
    hi * TWO8 + lo
  }

  lemma {:induction false} WordsReread(ws: seq<U16>, rest: seq<Byte>)
    ensures var bs := Bytes16(ws) + rest;
            |bs| >= 2 * |ws| && Words16(bs[..2 * |ws|]) == ws && bs[2 * |ws|..] == rest
  {
    Aligned(ws, rest);
    assert (Bytes16(ws) + rest)[..2 * |ws|] == Bytes16(ws);
    WordsOfBytes(ws);
  }

  lemma {:induction false} WordsOfBytes(ws: seq<U16>)
    ensures |Bytes16(ws)| == 2 * |ws| && Words16(Bytes16(ws)) == ws
  {
    if ws != [] {
      WordsOfBytes(ws[1..]);
      assert Bytes16(ws)[2..] == Bytes16(ws[1..]);
    }
  }

  lemma {:induction false} BytesOfWords(bs: seq<Byte>)
    requires |bs| % 2 == 0
    ensures Bytes16(Words16(bs)) == bs
  {
    if bs != [] {
      BytesOfWords(bs[2..]);
      assert Words16(bs)[1..] == Words16(bs[2..]);
      assert bs == [bs[0], bs[1]] + bs[2..];
    }
  }

  // ---------------------------------------------------------------------------
  // Fields to half-words and back
  // ---------------------------------------------------------------------------

  function Ipv4OfWords(ws: seq<U16>): TIpv4
    requires |ws| == 10
  {
    TIpv4(ws[0] / 256, ws[0] % 256, ws[1], ws[2], ws[3], ws[4] / 256, ws[4] % 256, ws[5],
          Word2(ws[6], ws[7]), Word2(ws[8], ws[9]))
  }

  function UdpToWords(u: Udp): seq<U16> {
    [u.srcPort, u.dstPort, u.len, u.csum]
  }

  function UdpOfWords(ws: seq<U16>): Udp
    requires |ws| == 4
  {
    Udp(ws[0], ws[1], ws[2], ws[3])
  }

  function ShimOfWords(ws: seq<U16>): TShim
    requires |ws| == 3
  {
    TShim(ws[0] / 256, ws[0] % 256, ws[1] / 256, ws[1] % 256, ws[2] / 256, ws[2] % 256)
  }

  function IntOfWords(ws: seq<U16>): TInt
    requires |ws| == 7
  {
    TInt(ws[0] / 256, ws[0] % 256, ws[1], ws[2], ws[3], ws[4], ws[5], ws[6])
  }

  lemma FieldsRoundTrip(ip: TIpv4, s: TShim, i: TInt)
    ensures Ipv4OfWords(Ipv4ToWords(ip)) == ip && ShimOfWords(ShimWords(s)) == s && IntOfWords(IntWords(i)) == i
  {
    hide Word2, Hi, Lo;
    WordOfItsHalves(ip.srcAddr);
    WordOfItsHalves(ip.dstAddr);
  }

  lemma Ipv4Exact(ws: seq<U16>)
    requires |ws| == 10
    ensures Ipv4ToWords(Ipv4OfWords(ws)) == ws
  {
    hide Word2, Hi, Lo;
    HalvesOfWord(ws[6], ws[7]);
    HalvesOfWord(ws[8], ws[9]);
  }

  lemma ShimExact(ws: seq<U16>)
    requires |ws| == 3
    ensures ShimWords(ShimOfWords(ws)) == ws
  {}

  lemma IntExact(ws: seq<U16>)
    requires |ws| == 7
    ensures IntWords(IntOfWords(ws)) == ws
  {}

  // ---------------------------------------------------------------------------
  // Emitting and parsing
  // ---------------------------------------------------------------------------

  function EmitInt(h: THeaders, payload: seq<Byte>): seq<Byte> {
    if h.shim.None? || h.intHeader.None? then payload
    else Bytes16(ShimWords(h.shim.value)) + (Bytes16(IntWords(h.intHeader.value)) + payload)
  }

  function EmitL4(h: THeaders, payload: seq<Byte>): seq<Byte> {
    if h.udp.Some? then Bytes16(UdpToWords(h.udp.value)) + EmitInt(h, payload)
    else if h.tcp.Some? then h.tcp.value + EmitInt(h, payload)
    else EmitInt(h, payload)
  }

  /** The packet's bytes: IPv4, UDP or TCP, shim, INT header, and what follows. */
  function Emit(p: TPacket): seq<Byte> {
    Bytes16(Ipv4ToWords(p.h.ipv4)) + EmitL4(p.h, p.payload)
  }

  function ParseInt(h: THeaders, bs: seq<Byte>): Option<TPacket> {
    if h.ipv4.dscp % DSCP_MASK_SIZE != DSCP_INT then Some(TPacket(h, bs))
    else if |bs| < 20 then None
    else Some(TPacket(h.(shim := Some(ShimOfWords(Words16(bs[..6]))),
                         intHeader := Some(IntOfWords(Words16(bs[6..][..14])))), bs[6..][14..]))
  }

  /** The parser, `None` when the packet ends inside a header. */
  function ParsePacket(bs: seq<Byte>): Option<TPacket> {
    if |bs| < 20 then None else
    var ip, rest := Ipv4OfWords(Words16(bs[..20])), bs[20..];
    var h := THeaders(ip, None, None, None, None, {});
    if ip.protocol == 0x11 then
      if |rest| < 8 then None else ParseInt(h.(udp := Some(UdpOfWords(Words16(rest[..8])))), rest[8..])
    else if ip.protocol == 6 then
      if |rest| < 20 then None else ParseInt(h.(tcp := Some(rest[..20])), rest[20..])
    else Some(TPacket(h, rest))
  }

  /** The header sets the parser can have extracted. */
  predicate OnWire(h: THeaders) {
    && Extracted(h)
    && (h.udp.Some? <==> h.ipv4.protocol == 0x11)
    && (h.tcp.Some? <==> h.ipv4.protocol == 6)
    && (h.udp.Some? || h.tcp.Some? ==> (h.shim.Some? <==> h.ipv4.dscp % DSCP_MASK_SIZE == DSCP_INT))
  }

  lemma {:induction false} ReparseInt(h: THeaders, payload: seq<Byte>)
    requires OnWire(h) && (h.udp.Some? || h.tcp.Some?)
    ensures ParseInt(h.(shim := None, intHeader := None), EmitInt(h, payload)) == Some(TPacket(h, payload))
  {
    if h.shim.Some? {
      hide Bytes16, Words16, ShimWords, IntWords, ShimOfWords, IntOfWords, Ipv4OfWords, Ipv4ToWords;
      var s, i := h.shim.value, h.intHeader.value;
      SixAndFourteen(s, i);
      FieldsRoundTrip(h.ipv4, s, i);
      WordsReread(ShimWords(s), Bytes16(IntWords(i)) + payload);
      WordsReread(IntWords(i), payload);
    }
  }

  lemma SixAndFourteen(s: TShim, i: TInt)
    ensures |ShimWords(s)| == 3 && |IntWords(i)| == 7
  {}

  /** Parsing the bytes of a packet recovers its headers and its payload. */
  lemma {:induction false} ParseUndoesEmit(p: TPacket)
    requires OnWire(p.h)
    ensures ParsePacket(Emit(p)) == Some(p)
  {
    hide Bytes16, Words16, Ipv4OfWords, ParseInt, EmitInt;
    var h := p.h;
    FieldsRoundTrip(h.ipv4, TShim(0, 0, 0, 0, 0, 0), TInt(0, 0, 0, 0, 0, 0, 0, 0));
    WordsReread(Ipv4ToWords(h.ipv4), EmitL4(h, p.payload));
    if h.udp.Some? {
      WordsReread(UdpToWords(h.udp.value), EmitInt(h, p.payload));
      ReparseInt(h, p.payload);
    } else if h.tcp.Some? {
      var rest := EmitL4(h, p.payload);
      assert rest[..20] == h.tcp.value && rest[20..] == EmitInt(h, p.payload);
      ReparseInt(h, p.payload);
    } else {
      NoInt(h, p.payload);
    }
  }

  lemma NoInt(h: THeaders, payload: seq<Byte>)
    requires h.shim.None?
    ensures EmitInt(h, payload) == payload
  {}

  lemma {:induction false} Reemit16(bs: seq<Byte>, n: nat)
    requires n <= |bs| && n % 2 == 0
    ensures Bytes16(Words16(bs[..n])) + bs[n..] == bs
  {
    BytesOfWords(bs[..n]);
  }

  lemma {:induction false} ReemitInt(h: THeaders, bs: seq<Byte>)
    requires h.shim.None? && h.intHeader.None? && ParseInt(h, bs).Some?
    ensures var p := ParseInt(h, bs).value;
            && EmitInt(p.h, p.payload) == bs
            && p.h == h.(shim := p.h.shim, intHeader := p.h.intHeader)
            && (p.h.shim.Some? <==> p.h.intHeader.Some?)
            && (p.h.shim.Some? <==> h.ipv4.dscp % DSCP_MASK_SIZE == DSCP_INT)
  {
    hide Bytes16, Words16, ShimWords, IntWords, ShimOfWords, IntOfWords;
    if h.ipv4.dscp % DSCP_MASK_SIZE == DSCP_INT {
      Reemit16(bs, 6);
      Reemit16(bs[6..], 14);
      ShimExact(Words16(bs[..6]));
      IntExact(Words16(bs[6..][..14]));
    }
  }

  /** Emitting what was parsed gives the packet back, byte for byte. */
  lemma {:induction false} EmitUndoesParse(bs: seq<Byte>)
    requires ParsePacket(bs).Some?
    ensures var p := ParsePacket(bs).value;
            OnWire(p.h) && Emit(p) == bs
  {
    hide Bytes16, Words16, ParseInt, EmitInt, Ipv4OfWords, Ipv4ToWords;
    var ip, rest := Ipv4OfWords(Words16(bs[..20])), bs[20..];
    var h := THeaders(ip, None, None, None, None, {});
    Reemit16(bs, 20);
    Ipv4Exact(Words16(bs[..20]));
    if ip.protocol == 0x11 {
      Reemit16(rest, 8);
      var ws := Words16(rest[..8]);
      assert UdpToWords(UdpOfWords(ws)) == ws;
      ReemitInt(h.(udp := Some(UdpOfWords(ws))), rest[8..]);
    } else if ip.protocol == 6 {
      assert rest[..20] + rest[20..] == rest;
      ReemitInt(h.(tcp := Some(rest[..20])), rest[20..]);
    } else {
      NoInt(h, rest);
    }
  }

  // ---------------------------------------------------------------------------
  // Paths, byte for byte
  // ---------------------------------------------------------------------------

  /** One node after another, each parsing what the one before it sent. */
  function Forward(limits: Limits, ctxs: seq<Context>, bs: seq<Byte>): Option<seq<Byte>> {
    if ctxs == [] then Some(bs) else
    var before := Forward(limits, ctxs[..|ctxs| - 1], bs);
    if before.None? then None else
    var p := ParsePacket(before.value);
    if p.None? then None else Some(Emit(Node(limits, ctxs[|ctxs| - 1], p.value)))
  }

  lemma NodeStaysOnWire(limits: Limits, ctx: Context, p: TPacket)
    requires OnWire(p.h)
    ensures OnWire(Node(limits, ctx, p).h)
  {
    hide WordsOf, HeadersOf, NewChecksum, AddedWords, Bytes16, Fields;
  }

  /** The headers a path of nodes computes are those its bytes carry. */
  lemma {:induction false} ForwardIsRun(limits: Limits, ctxs: seq<Context>, p: TPacket)
    requires OnWire(p.h)
    ensures OnWire(Run(limits, ctxs, p).h)
    ensures Forward(limits, ctxs, Emit(p)) == Some(Emit(Run(limits, ctxs, p)))
    decreases |ctxs|
  {
    hide Node, Emit, ParsePacket, OnWire;
    if ctxs != [] {
      var n := |ctxs| - 1;
      ForwardIsRun(limits, ctxs[..n], p);
      var q := Run(limits, ctxs[..n], p);
      ParseUndoesEmit(q);
      NodeStaysOnWire(limits, ctxs[n], q);
    }
  }

  // ---------------------------------------------------------------------------
  // The checksum over the bytes
  // ---------------------------------------------------------------------------

  /** The pseudo header and every byte after an IPv4 header without options. */
  function ReceiverSum(bs: seq<Byte>): nat
    requires |bs| >= 28
  {
    PayloadSum(bs[12..20]) + 17 + PayloadSum(bs[24..26]) + PayloadSum(bs[20..])
  }

  /** Does the UDP checksum hold over these bytes, whatever the length fields say? */
  predicate ChecksumHolds(bs: seq<Byte>) {
    |bs| >= 28 && bs[0] % 16 == 5 && Fold(ReceiverSum(bs)) == 0xffff
  }

  /** Both are the same sum. */
  lemma {:induction false} ReceiverSumIsDatagramSum(p: TPacket)
    requires OnWire(p.h) && p.h.udp.Some?
    ensures |Emit(p)| >= 28 && Emit(p)[0] == p.h.ipv4.versionIhl && ReceiverSum(Emit(p)) == DatagramSum(p)
  {
    var u, ip := p.h.udp.value, p.h.ipv4;
    var bs, rest := Emit(p), EmitInt(p.h, p.payload);
    Ipv4Places(ip, EmitL4(p.h, p.payload));
    FirstByte(ip, EmitL4(p.h, p.payload));
    Aligned(UdpToWords(u), rest);
    UdpLengthPlace(u, rest);
    assert bs[24..26] == bs[20..][4..6];
    hide Bytes16, PayloadSum, Sum, Emit, Ipv4ToWords, EmitInt;
    IntPartSum(p.h, p.payload);
    UdpWordsSum(ip, u);
    Sum4(u.srcPort, u.dstPort, u.len, u.csum);
  }

  lemma {:induction false} IntPartSum(h: THeaders, payload: seq<Byte>)
    requires h.shim.Some? <==> h.intHeader.Some?
    ensures PayloadSum(EmitInt(h, payload)) == PayloadSum(payload)
            + (if h.shim.Some? then Sum(ShimWords(h.shim.value)) else 0)
            + (if h.intHeader.Some? then Sum(IntWords(h.intHeader.value)) else 0)
  {
    hide Bytes16, PayloadSum, Sum, ShimWords, IntWords;
    if h.shim.Some? {
      Aligned(IntWords(h.intHeader.value), payload);
      Aligned(ShimWords(h.shim.value), Bytes16(IntWords(h.intHeader.value)) + payload);
    }
  }

  lemma FirstByte(ip: TIpv4, rest: seq<Byte>)
    ensures |Bytes16(Ipv4ToWords(ip)) + rest| > 0 && (Bytes16(Ipv4ToWords(ip)) + rest)[0] == ip.versionIhl
  {}

  /** The addresses are bytes 12 to 19, and what follows the header starts at 20. */
  lemma {:induction false} Ipv4Places(ip: TIpv4, rest: seq<Byte>)
    ensures var bs := Bytes16(Ipv4ToWords(ip)) + rest;
            && |bs| == 20 + |rest| && bs[20..] == rest
            && PayloadSum(bs[12..20]) == AddressSum(ip)
  {
    var front := [ip.versionIhl * 256 + ip.dscp, ip.totalLen, ip.id, ip.fragment, ip.ttl * 256 + ip.protocol,
      ip.hdrChecksum];
    var addresses := [Hi(ip.srcAddr), Lo(ip.srcAddr), Hi(ip.dstAddr), Lo(ip.dstAddr)];
    assert Ipv4ToWords(ip) == front + addresses;
    hide PayloadSum, Sum, Hi, Lo, Ipv4ToWords;
    Bytes16Append(front, addresses);
    Aligned(front, []);
    Aligned(addresses, []);
    Sum4(Hi(ip.srcAddr), Lo(ip.srcAddr), Hi(ip.dstAddr), Lo(ip.dstAddr));
    Nothing();
    assert Bytes16(addresses) + [] == Bytes16(addresses);
    assert (Bytes16(front) + Bytes16(addresses) + rest)[12..20] == Bytes16(addresses);
  }

  lemma Nothing()
    ensures PayloadSum([]) == 0
  {}

  lemma {:induction false} Bytes16Append(a: seq<U16>, b: seq<U16>)
    ensures Bytes16(a + b) == Bytes16(a) + Bytes16(b)
  {
    if a == [] {
      assert a + b == b;
    } else {
      Bytes16Append(a[1..], b);
      assert (a + b)[1..] == a[1..] + b;
      var pair, front, back := [a[0] / 256, a[0] % 256], Bytes16(a[1..]), Bytes16(b);
      assert pair + (front + back) == (pair + front) + back;
    }
  }

  lemma UdpLengthPlace(u: Udp, rest: seq<Byte>)
    ensures var bs := Bytes16(UdpToWords(u)) + rest;
            |bs| == 8 + |rest| && PayloadSum(bs[4..6]) == u.len
  {
    var front, len, back := [u.srcPort, u.dstPort], [u.len], [u.csum];
    assert UdpToWords(u) == front + (len + back);
    Bytes16Append(front, len + back);
    Bytes16Append(len, back);
    Aligned(front, []);
    Aligned(len, []);
    Aligned(back, []);
    assert Sum(len) == u.len;
    Nothing();
    hide Bytes16, PayloadSum, Sum, UdpToWords;
    assert Bytes16(len) + [] == Bytes16(len);
    assert (Bytes16(front) + (Bytes16(len) + Bytes16(back)) + rest)[4..6] == Bytes16(len);
  }

  /**
   Byte for byte: a datagram whose checksum holds, met anywhere on its way, is delivered, and its
   checksum holds after the next nodes if and only if they are no more than its hops left, or
   its e bit needs no more setting.
   */
  lemma {:induction false} HoldsWithinHopLimit(limits: Limits, ctxs: seq<Context>, p: TPacket)
    requires OnWire(p.h) && Carrying(p.h) && p.h.udp.Some? && ChecksumHolds(Emit(p))
    ensures var out := Forward(limits, ctxs, Emit(p));
            && out.Some?
            && (ChecksumHolds(out.value) <==> |ctxs| <= HopsLeft(limits, p.h) || SetE(CE(p.h)) == CE(p.h))
  {
    hide Emit, ReceiverSum, DatagramSum, Fold, Run, Carrying, Forward, HopsLeft, SetE;
    ForwardIsRun(limits, ctxs, p);
    ReceiverSumIsDatagramSum(p);
    ChecksumSurvivesExactly(limits, ctxs, p);
    ReceiverSumIsDatagramSum(Run(limits, ctxs, p));
    HopLimit(limits, ctxs, p);
  }
}
