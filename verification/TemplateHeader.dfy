/**
 The IPv4 header checksum of the template's packets over the header's own bytes, however long
 it says it is.  The program extracts twenty bytes, so what it takes for UDP or TCP may be IP
 options.
 */
module TemplateHeader {
  import opened Bytes
  import opened Options
  import opened Headers
  import opened Checksum
  import opened Template
  import opened TemplateChecksum
  import opened TemplateWire

  /** Is there an IPv4 header, as long as it says, and of at least the five words it must have? */
  predicate HasHeader(bs: seq<Byte>) {
    |bs| > 0 && bs[0] % 16 >= 5 && |bs| >= 4 * (bs[0] % 16)
  }

  /** RFC 791, section 3.1: all half-words of the header sum to all ones. */
  predicate HeaderAccepted(bs: seq<Byte>) {
    HasHeader(bs) && Fold(PayloadSum(bs[..4 * (bs[0] % 16)])) == 0xffff
  }

  function Ihl(p: TPacket): nat {
    p.h.ipv4.versionIhl % 16
  }

  /** What follows the twenty bytes. */
  function Behind(p: TPacket): seq<Byte> {
    EmitL4(p.h, p.payload)
  }

  /** The sum of the first `n` words behind the twenty bytes: the options of a header of `5 + n` words. */
  function OptionSum(p: TPacket, n: nat): nat
    requires 4 * n <= |Behind(p)|
  {
    PayloadSum(Behind(p)[..4 * n])
  }

  lemma {:induction false} HeaderSum(p: TPacket)
    ensures HasHeader(Emit(p)) <==> Ihl(p) >= 5 && 4 * (Ihl(p) - 5) <= |Behind(p)|
    ensures HasHeader(Emit(p)) ==>
              && Emit(p)[0] % 16 == Ihl(p)
              && PayloadSum(Emit(p)[..4 * Ihl(p)]) == Sum(Ipv4ToWords(p.h.ipv4)) + OptionSum(p, Ihl(p) - 5)
              && Sum(Ipv4ToWords(p.h.ipv4)) > 0
  {
    hide PayloadSum, Sum, EmitL4, Bytes16, Ipv4ToWords, AddressSum;
    var ip := p.h.ipv4;
    TenWords(ip);
    Ipv4Places(ip, Behind(p));
    FirstByte(ip, Behind(p));
    Ipv4Sum(ip);
    if HasHeader(Emit(p)) {
      var options := Behind(p)[..4 * (Ihl(p) - 5)];
      Aligned(Ipv4ToWords(ip), options);
      assert Emit(p)[..4 * Ihl(p)] == Bytes16(Ipv4ToWords(ip)) + options;
    }
  }

  lemma TenWords(ip: TIpv4)
    ensures |Ipv4ToWords(ip)| == 10
  {}

  lemma {:induction false} AcceptedExactly(p: TPacket)
    requires HasHeader(Emit(p))
    ensures 4 * (Ihl(p) - 5) <= |Behind(p)| && Ihl(p) >= 5
    ensures HeaderAccepted(Emit(p)) <==>
            Congruent(Sum(Ipv4ToWords(p.h.ipv4)) + OptionSum(p, Ihl(p) - 5), 0)
  {
    hide HasHeader, PayloadSum, Sum, EmitL4, Bytes16, Fold, Emit, Ipv4ToWords, Congruent;
    HeaderSum(p);
    var s := Sum(Ipv4ToWords(p.h.ipv4)) + OptionSum(p, Ihl(p) - 5);
    FoldIs(s, 0xffff);
    Complementary(s);
  }

  /** By how much a node changes the sum of the header its packet claims. */
  function HeaderChange(limits: Limits, ctx: Context, p: TPacket, n: nat): int
    requires 4 * n <= |Behind(p)| && 4 * n <= |Behind(Node(limits, ctx, p))|
  {
    OptionSum(Node(limits, ctx, p), n) - OptionSum(p, n) - Ipv4Shift(p.h)
  }

  lemma {:induction false} BehindGrows(limits: Limits, ctx: Context, p: TPacket)
    requires OnWire(p.h)
    ensures |Behind(Node(limits, ctx, p))| >= |Behind(p)| && Ihl(Node(limits, ctx, p)) == Ihl(p)
  {
    hide WordsOf, HeadersOf, NewChecksum, AddedWords, Fields, Bytes16;
    BehindLength(p);
    BehindLength(Node(limits, ctx, p));
  }

  lemma BehindLength(p: TPacket)
    requires OnWire(p.h)
    ensures |Behind(p)| == (if p.h.udp.Some? then 8 else if p.h.tcp.Some? then 20 else 0)
                           + (if p.h.shim.Some? then 20 else 0) + |p.payload|
  {
    hide Bytes16;
    if p.h.udp.Some? {
      WordsOfBytes(UdpToWords(p.h.udp.value));
    }
    if p.h.shim.Some? {
      WordsOfBytes(ShimWords(p.h.shim.value));
      WordsOfBytes(IntWords(p.h.intHeader.value));
    }
  }

  /**
   The header checksum through a node, over the bytes the header covers: a valid one stays valid
   if and only if the sum changes by a zero modulo 65535.
   */
  lemma {:induction false} NodeHeaderFollows(limits: Limits, ctx: Context, p: TPacket)
    requires OnWire(p.h) && HasHeader(Emit(p))
    ensures var q, n := Node(limits, ctx, p), Ihl(p) - 5;
            && n >= 0 && 4 * n <= |Behind(p)| && 4 * n <= |Behind(q)| && HasHeader(Emit(q))
            && var change := HeaderChange(limits, ctx, p, n);
               && (HeaderAccepted(Emit(p)) ==> (HeaderAccepted(Emit(q)) <==> Congruent(change, 0)))
               && (Congruent(change, 0) ==> (HeaderAccepted(Emit(q)) <==> HeaderAccepted(Emit(p))))
  {
    hide HasHeader, HeaderAccepted, Sum, Emit, Ipv4ToWords, Congruent, OptionSum, Node, Behind, OnWire, Extracted;
    var q := Node(limits, ctx, p);
    WireExtracted(p.h);
    BehindGrows(limits, ctx, p);
    HeaderSum(p);
    HeaderSum(q);
    AcceptedExactly(p);
    AcceptedExactly(q);
    NodeKeepsIpv4Sum(limits, ctx, p);
    var n := Ihl(p) - 5;
    Added(Sum(Ipv4ToWords(q.h.ipv4)), Sum(Ipv4ToWords(p.h.ipv4)) - Ipv4Shift(p.h), OptionSum(q, n), OptionSum(p, n),
          Sum(Ipv4ToWords(p.h.ipv4)) + OptionSum(p, n), HeaderChange(limits, ctx, p, n));
  }

  lemma WireExtracted(h: THeaders)
    requires OnWire(h)
    ensures Extracted(h)
  {}

  lemma Added(ip': int, ip: int, opt': int, opt: int, before: int, change: int)
    requires Congruent(ip', ip) && before + change == ip + opt'
    ensures Congruent(before, 0) ==> (Congruent(ip' + opt', 0) <==> Congruent(change, 0))
    ensures Congruent(change, 0) ==> (Congruent(ip' + opt', 0) <==> Congruent(before, 0))
  {}

  // ---------------------------------------------------------------------------
  // What the option words change by
  // ---------------------------------------------------------------------------

  /** By how much a node grows the UDP length it finds. */
  function LenGrowth(limits: Limits, h: THeaders): int {
    if h.intHeader.None? || Exhausted(limits, h.intHeader.value) then 0
    else Plus16(UdpLen(h), 4 * WordsOf(h.intHeader.value.mask)) - UdpLen(h)
  }

  /** One option word of UDP, five of TCP, or any number without either, are left alone. */
  lemma {:induction false} OptionsKept(limits: Limits, ctx: Context, p: TPacket, n: nat)
    requires OnWire(p.h) && 4 * n <= |Behind(p)| && 4 * n <= |Behind(Node(limits, ctx, p))|
    requires (p.h.udp.Some? ==> n <= 1) && (p.h.tcp.Some? ==> n <= 5)
    ensures OptionSum(Node(limits, ctx, p), n) == OptionSum(p, n)
  {
    hide PayloadSum, Node, Behind;
    assert Behind(Node(limits, ctx, p))[..4 * n] == Behind(p)[..4 * n] by {
      if p.h.udp.Some? {
        UdpOptionsKept(limits, ctx, p, n);
      } else if p.h.tcp.Some? {
        TcpOptionsKept(limits, ctx, p, n);
      } else {
        OtherOptionsKept(limits, ctx, p);
      }
    }
  }

  lemma {:induction false} UdpOptionsKept(limits: Limits, ctx: Context, p: TPacket, n: nat)
    requires OnWire(p.h) && p.h.udp.Some? && n <= 1
    ensures var q := Node(limits, ctx, p);
            |Behind(q)| >= 4 * n && |Behind(p)| >= 4 * n && Behind(q)[..4 * n] == Behind(p)[..4 * n]
  {
    hide Bytes16, UdpToWords, Node, EmitInt;
    NodeUdp(limits, ctx, p);
    PortsFirst(p.h.udp.value);
    PortsFirst(Node(limits, ctx, p).h.udp.value);
  }

  lemma TcpOptionsKept(limits: Limits, ctx: Context, p: TPacket, n: nat)
    requires OnWire(p.h) && p.h.tcp.Some? && n <= 5
    ensures var q := Node(limits, ctx, p);
            |Behind(q)| >= 4 * n && |Behind(p)| >= 4 * n && Behind(q)[..4 * n] == Behind(p)[..4 * n]
  {
    hide AddedWords, NewChecksum, WordsOf, HeadersOf, Fields, Bytes16, EmitInt;
  }

  lemma OtherOptionsKept(limits: Limits, ctx: Context, p: TPacket)
    requires OnWire(p.h) && p.h.udp.None? && p.h.tcp.None?
    ensures Behind(Node(limits, ctx, p)) == Behind(p)
  {
    hide AddedWords, NewChecksum, WordsOf, HeadersOf, Fields, Bytes16;
    NothingSent(ctx);
  }

  lemma NothingSent(ctx: Context)
    ensures Bytes16(AddedWords(ctx, {}, 8)) == []
  {
    NoneValid(ctx, 8);
  }

  lemma NodeUdp(limits: Limits, ctx: Context, p: TPacket)
    requires OnWire(p.h) && p.h.udp.Some?
    ensures var q := Node(limits, ctx, p);
            && q.h.udp == Some(p.h.udp.value.(len := UdpLen(q.h), csum := UdpCsum(q.h)))
            && UdpLen(q.h) - UdpLen(p.h) == LenGrowth(limits, p.h)
  {
    hide AddedWords, NewChecksum, WordsOf, HeadersOf, Fields, Bytes16;
  }

  /** The ports are the first word of a UDP header, whatever else it holds. */
  lemma {:induction false} PortsFirst(u: Udp)
    ensures |Bytes16(UdpToWords(u))| == 8
    ensures Bytes16(UdpToWords(u))[..4] == Bytes16([u.srcPort, u.dstPort])
  {
    WordsOfBytes(UdpToWords(u));
    assert UdpToWords(u) == [u.srcPort, u.dstPort] + [u.len, u.csum];
    Bytes16Append([u.srcPort, u.dstPort], [u.len, u.csum]);
    WordsOfBytes([u.srcPort, u.dstPort]);
    hide Bytes16;
  }

  /** Two option words of UDP are its whole header. */
  lemma {:induction false} TwoOptionWords(p: TPacket)
    requires p.h.udp.Some? && 8 <= |Behind(p)|
    ensures OptionSum(p, 2) == p.h.udp.value.srcPort + p.h.udp.value.dstPort + UdpLen(p.h) + UdpCsum(p.h)
  {
    hide PayloadSum, Bytes16, Sum, EmitInt;
    var u := p.h.udp.value;
    WordsOfBytes(UdpToWords(u));
    Aligned(UdpToWords(u), []);
    Nothing();
    Sum4(u.srcPort, u.dstPort, u.len, u.csum);
    assert Behind(p)[..8] == Bytes16(UdpToWords(u)) + [];
  }

  /**
   The header checksum through a node, in terms of the packet it receives.  Options that lie in
   front of the fields the node changes do no harm.  Two option words of UDP are the length it
   grows and the checksum it adapts, and the header stays valid if and only if that comes to
   the same.  A packet that is neither UDP nor TCP keeps a valid checksum if and only if its
   length is a zero modulo 65535.
   */
  lemma {:induction false} NodeHeaderExactly(limits: Limits, ctx: Context, p: TPacket)
    requires OnWire(p.h) && HeaderAccepted(Emit(p))
    requires (p.h.udp.Some? ==> Ihl(p) <= 7) && (p.h.tcp.Some? ==> Ihl(p) <= 10)
    ensures HeaderAccepted(Emit(Node(limits, ctx, p))) <==>
            if p.h.udp.Some? then Ihl(p) <= 6 || Congruent(LenGrowth(limits, p.h), CsumShift(limits, ctx, p.h))
            else p.h.tcp.Some? || p.h.ipv4.totalLen == 0 || p.h.ipv4.totalLen == 0xffff
  {
    hide Emit, Node, Behind, OptionSum, Congruent, LenGrowth, CsumShift, Extracted;
    NodeHeaderFollows(limits, ctx, p);
    WireExtracted(p.h);
    var q, n := Node(limits, ctx, p), Ihl(p) - 5;
    if p.h.udp.Some? && n == 2 {
      TwoOptionWords(p);
      NodeUdp(limits, ctx, p);
      TwoOptionWords(q);
      CsumIsNeverAllOnes(limits, ctx, p);
      GrowthAgainstShift(LenGrowth(limits, p.h), UdpCsum(q.h), UdpCsum(p.h), CsumShift(limits, ctx, p.h));
    } else {
      OptionsKept(limits, ctx, p, n);
      LengthIsZero(p.h.ipv4.totalLen);
    }
  }

  lemma GrowthAgainstShift(growth: int, csum': int, csum: int, shift: int)
    requires csum' == (csum - shift) % 0xffff
    ensures Congruent(growth + csum' - csum, 0) <==> Congruent(growth, shift)
  {}

  lemma LengthIsZero(n: U16)
    ensures Congruent(0 - n as int, 0) <==> n == 0 || n == 0xffff
    ensures Congruent(0, 0)
  {}

  // ---------------------------------------------------------------------------
  // Headers of any length
  // ---------------------------------------------------------------------------

  /** How many half-words of UDP or TCP the program extracts. */
  function L4Halves(h: THeaders): nat {
    if h.udp.Some? then 4 else if h.tcp.Some? then 10 else 0
  }

  /** The half-words of all headers behind the twenty bytes. */
  function HeaderHalves(h: THeaders): seq<U16> {
    (if h.udp.Some? then UdpToWords(h.udp.value) else if h.tcp.Some? then Words16(h.tcp.value) else [])
    + if h.shim.Some? && h.intHeader.Some? then ShimWords(h.shim.value) + IntWords(h.intHeader.value) else []
  }

  lemma {:induction false} BehindAsHalves(p: TPacket)
    requires OnWire(p.h)
    ensures Behind(p) == Bytes16(HeaderHalves(p.h)) + p.payload
    ensures |HeaderHalves(p.h)| == L4Halves(p.h) + if p.h.shim.Some? then 10 else 0
  {
    hide Bytes16, Words16, UdpToWords, ShimWords, IntWords;
    HalvesLengths(p.h);
    var l4 := if p.h.udp.Some? then UdpToWords(p.h.udp.value) else if p.h.tcp.Some? then Words16(p.h.tcp.value) else [];
    EmptyBytes();
    if p.h.tcp.Some? {
      BytesOfWords(p.h.tcp.value);
    }
    if p.h.shim.Some? {
      var s, i := ShimWords(p.h.shim.value), IntWords(p.h.intHeader.value);
      Bytes16Append(s, i);
      Bytes16Append(l4, s + i);
    } else {
      assert HeaderHalves(p.h) == l4;
    }
  }

  lemma EmptyBytes()
    ensures Bytes16([]) == []
  {}

  lemma HalvesLengths(h: THeaders)
    ensures h.udp.Some? ==> |UdpToWords(h.udp.value)| == 4
    ensures h.tcp.Some? ==> |Words16(h.tcp.value)| == 10
    ensures h.shim.Some? ==> |ShimWords(h.shim.value)| == 3
    ensures h.intHeader.Some? ==> |IntWords(h.intHeader.value)| == 7
  {
    hide Words16;
  }

  lemma {:induction false} SumUpdate(ws: seq<U16>, i: nat, v: U16, k: nat)
    requires i < |ws| && k <= |ws|
    ensures Sum(ws[i := v][..k]) - Sum(ws[..k]) == if i < k then v - ws[i] else 0
  {
    hide Sum;
    if i < k {
      var a, b := ws[..i], ws[i + 1..k];
      assert ws[..k] == a + ([ws[i]] + b) && ws[i := v][..k] == a + ([v] + b);
      SumAppend(a, [ws[i]] + b);
      SumAppend(a, [v] + b);
      SumAppend([ws[i]], b);
      SumAppend([v], b);
      Sum1(ws[i]);
      Sum1(v);
    } else {
      assert ws[i := v][..k] == ws[..k];
    }
  }

  /** The first `k` half-words of bytes that begin with half-words. */
  lemma {:induction false} PrefixSum(ws: seq<U16>, rest: seq<Byte>, k: nat)
    requires 2 * k <= 2 * |ws| + |rest|
    ensures |Bytes16(ws)| == 2 * |ws|
    ensures k <= |ws| ==> PayloadSum((Bytes16(ws) + rest)[..2 * k]) == Sum(ws[..k])
    ensures k >= |ws| ==> PayloadSum((Bytes16(ws) + rest)[..2 * k]) == Sum(ws) + PayloadSum(rest[..2 * (k - |ws|)])
  {
    hide Bytes16, PayloadSum, Sum;
    WordsOfBytes(ws);
    if k <= |ws| {
      var front, back := ws[..k], ws[k..];
      assert ws == front + back;
      Bytes16Append(front, back);
      WordsOfBytes(front);
      Aligned(front, []);
      Nothing();
      assert (Bytes16(ws) + rest)[..2 * k] == Bytes16(front) + [];
    }
    if k >= |ws| {
      Aligned(ws, rest[..2 * (k - |ws|)]);
      assert (Bytes16(ws) + rest)[..2 * k] == Bytes16(ws) + rest[..2 * (k - |ws|)];
    }
  }

  /** Is this a packet to which the node adds metadata? */
  predicate AddsMetadata(limits: Limits, h: THeaders) {
    h.intHeader.Some? && !Exhausted(limits, h.intHeader.value)
  }

  /** What the node emits in front of the payload. */
  function Inserted(limits: Limits, ctx: Context, h: THeaders): seq<U16> {
    if AddsMetadata(limits, h) then AddedWords(ctx, HeadersOf(h.intHeader.value.mask), 8) else []
  }

  /** The fields of the INT headers after the node. */
  function NextShimLen(limits: Limits, h: THeaders): U8
    requires h.intHeader.Some?
  {
    if AddsMetadata(limits, h) then (ShimLen(h) + WordsOf(h.intHeader.value.mask)) % TWO8 else ShimLen(h)
  }

  function NextCE(limits: Limits, h: THeaders): U16
    requires h.intHeader.Some?
  {
    if AddsMetadata(limits, h) then CE(h) else SetE(CE(h))
  }

  function NextHop(limits: Limits, h: THeaders): U16
    requires h.intHeader.Some?
  {
    if AddsMetadata(limits, h) then Minus16(HopInfo(h), 1) else HopInfo(h)
  }

  /**
   What a node changes the sum of a header of `5 + n` words by, in terms of the packet it receives:
   the UDP length and checksum, the shim length, the c and e field, the hop count, and metadata
   in place of payload, each if the header reaches that far.
   */
  function NodeChange(limits: Limits, ctx: Context, p: TPacket, n: nat): int
    requires p.h.intHeader.Some? ==> 4 * n - 2 * (L4Halves(p.h) + 10) <= |p.payload|
  {
    var at, reach := L4Halves(p.h), 2 * n;
    (if p.h.udp.Some? && n >= 2
     then LenGrowth(limits, p.h) + (UdpCsum(p.h) - CsumShift(limits, ctx, p.h)) % 0xffff - UdpCsum(p.h) else 0)
    + (if p.h.intHeader.Some? && reach > at + 1 then 256 * (NextShimLen(limits, p.h) - ShimLen(p.h)) else 0)
    + (if p.h.intHeader.Some? && reach > at + 4 then NextCE(limits, p.h) - CE(p.h) else 0)
    + (if p.h.intHeader.Some? && reach > at + 7 then NextHop(limits, p.h) - HopInfo(p.h) else 0)
    + (if p.h.intHeader.Some? && reach > at + 10
       then Displaced(Inserted(limits, ctx, p.h), p.payload, 2 * (reach - at - 10)) else 0)
    - Ipv4Shift(p.h)
  }

  /** The first `m` bytes once `inserted` is in front of the payload, against those of the payload. */
  function Displaced(inserted: seq<U16>, payload: seq<Byte>, m: nat): int
    requires m <= |payload|
  {
    PayloadSum((Bytes16(inserted) + payload)[..m]) - PayloadSum(payload[..m])
  }

  /** What a node sends, field by field. */
  lemma {:induction false} NodeFields(limits: Limits, ctx: Context, p: TPacket)
    requires OnWire(p.h)
    ensures var q := Node(limits, ctx, p);
            && q.h.tcp == p.h.tcp
            && (p.h.udp.Some? <==> q.h.udp.Some?)
            && (p.h.shim.Some? ==>
                  && q.h.shim == Some(p.h.shim.value.(len := NextShimLen(limits, p.h)))
                  && q.h.intHeader ==
                     Some(p.h.intHeader.value.(cE := NextCE(limits, p.h), hopInfo := NextHop(limits, p.h))))
            && (p.h.shim.None? ==> q.h.shim.None? && q.h.intHeader.None?)
            && q.payload == Bytes16(Inserted(limits, ctx, p.h)) + p.payload
  {
    hide WordsOf, HeadersOf, NewChecksum, MetaWords, Fields;
    NoneValid(ctx, 8);
    hide AddedWords, Bytes16;
    if p.h.intHeader.Some? {
      assert {} + HeadersOf(p.h.intHeader.value.mask) == HeadersOf(p.h.intHeader.value.mask);
    }
  }

  /** The same for the half-words: where the changed fields stand. */
  function WithUdp(ws: seq<U16>, h: THeaders): seq<U16>
    requires |ws| >= 4
  {
    if h.udp.Some? then ws[2 := UdpLen(h)][3 := UdpCsum(h)] else ws
  }

  function WithInt(ws: seq<U16>, at: nat, shimWord: U16, cE: U16, hop: U16): seq<U16>
    requires at + 10 <= |ws|
  {
    ws[at + 1 := shimWord][at + 4 := cE][at + 7 := hop]
  }

  lemma {:induction false} HalvesOfNext(h: THeaders, h': THeaders)
    requires h.udp.Some? || h.tcp.Some?
    requires !(h.udp.Some? && h.tcp.Some?) && h'.tcp == h.tcp && (h.shim.Some? <==> h.intHeader.Some?)
    requires h'.udp == if h.udp.Some? then Some(h.udp.value.(len := UdpLen(h'), csum := UdpCsum(h'))) else None
    requires h'.shim == if h.shim.Some? then Some(h.shim.value.(len := ShimLen(h'))) else None
    requires h'.intHeader ==
             if h.intHeader.Some? then Some(h.intHeader.value.(cE := CE(h'), hopInfo := HopInfo(h'))) else None
    ensures var ws, ws', at := HeaderHalves(h), HeaderHalves(h'), L4Halves(h);
            && |ws| == |ws'| == at + (if h.shim.Some? then 10 else 0)
            && (h.udp.Some? ==> ws[2] == UdpLen(h) && ws[3] == UdpCsum(h))
            && (h.shim.Some? ==>
                  && ws[at + 4] == CE(h) && ws[at + 7] == HopInfo(h)
                  && ws'[at + 1] as int - ws[at + 1] as int == 256 * (ShimLen(h') - ShimLen(h))
                  && ws' == WithInt(WithUdp(ws, h'), at, ws'[at + 1], CE(h'), HopInfo(h')))
            && (h.shim.None? ==> ws' == WithUdp(ws, h'))
  {
    hide Words16;
    HalvesLengths(h);
    HalvesLengths(h');
  }

  /** The sums of the first `k` half-words, as fields change. */
  lemma {:induction false} UdpSum(ws: seq<U16>, h': THeaders, k: nat)
    requires 4 <= |ws| && k <= |ws| && h'.udp.Some?
    ensures |WithUdp(ws, h')| == |ws|
    ensures Sum(WithUdp(ws, h')[..k]) - Sum(ws[..k]) ==
            (if 2 < k then UdpLen(h') - ws[2] else 0) + if 3 < k then UdpCsum(h') - ws[3] else 0
  {
    hide Sum;
    SumUpdate(ws, 2, UdpLen(h'), k);
    SumUpdate(ws[2 := UdpLen(h')], 3, UdpCsum(h'), k);
  }

  lemma {:induction false} IntSum(ws: seq<U16>, at: nat, shimWord: U16, cE: U16, hop: U16, k: nat)
    requires at + 10 <= |ws| && k <= |ws|
    ensures |WithInt(ws, at, shimWord, cE, hop)| == |ws|
    ensures Sum(WithInt(ws, at, shimWord, cE, hop)[..k]) - Sum(ws[..k]) ==
            (if at + 1 < k then shimWord - ws[at + 1] else 0) + (if at + 4 < k then cE - ws[at + 4] else 0)
            + if at + 7 < k then hop - ws[at + 7] else 0
  {
    hide Sum;
    var one := ws[at + 1 := shimWord];
    SumUpdate(ws, at + 1, shimWord, k);
    SumUpdate(one, at + 4, cE, k);
    SumUpdate(one[at + 4 := cE], at + 7, hop, k);
  }

  /** Half of `NodeChange`: how the sum of the first `k` header half-words moves. */
  lemma {:induction false} HalvesChange(limits: Limits, ctx: Context, p: TPacket, k: nat)
    requires OnWire(p.h) && (p.h.udp.Some? || p.h.tcp.Some?) && k <= |HeaderHalves(p.h)|
    ensures var q, at := Node(limits, ctx, p), L4Halves(p.h);
            && |HeaderHalves(q.h)| == |HeaderHalves(p.h)|
            && Sum(HeaderHalves(q.h)[..k]) - Sum(HeaderHalves(p.h)[..k]) ==
               (if p.h.udp.Some? && k > 2 then LenGrowth(limits, p.h) else 0)
               + (if p.h.udp.Some? && k > 3
                  then (UdpCsum(p.h) - CsumShift(limits, ctx, p.h)) % 0xffff - UdpCsum(p.h) else 0)
               + (if p.h.shim.Some? && k > at + 1 then 256 * (NextShimLen(limits, p.h) - ShimLen(p.h)) else 0)
               + (if p.h.shim.Some? && k > at + 4 then NextCE(limits, p.h) - CE(p.h) else 0)
               + (if p.h.shim.Some? && k > at + 7 then NextHop(limits, p.h) - HopInfo(p.h) else 0)
  {
    hide Sum, HeaderHalves, Node, CsumShift, LenGrowth, NextShimLen, NextCE, NextHop, Inserted;
    var q, at := Node(limits, ctx, p), L4Halves(p.h);
    var ws, ws' := HeaderHalves(p.h), HeaderHalves(q.h);
    NodeFields(limits, ctx, p);
    if p.h.udp.Some? {
      NodeUdp(limits, ctx, p);
      CsumIsNeverAllOnes(limits, ctx, p);
    }
    HalvesOfNext(p.h, q.h);
    if p.h.udp.Some? {
      UdpSum(ws, q.h, k);
    }
    if p.h.shim.Some? {
      IntSum(WithUdp(ws, q.h), at, ws'[at + 1], CE(q.h), HopInfo(q.h), k);
    }
  }

  /** The change is the one computed from the packet received. */
  lemma {:induction false} ChangeExactly(limits: Limits, ctx: Context, p: TPacket, n: nat)
    requires OnWire(p.h) && 4 * n <= |Behind(p)| && 4 * n <= |Behind(Node(limits, ctx, p))|
    ensures p.h.intHeader.Some? ==> 4 * n - 2 * (L4Halves(p.h) + 10) <= |p.payload|
    ensures HeaderChange(limits, ctx, p, n) == NodeChange(limits, ctx, p, n)
  {
    hide Sum, HeaderHalves, Node, CsumShift, LenGrowth, NextShimLen, NextCE, NextHop, Inserted, PayloadSum, Bytes16;
    hide Behind;
    var q := Node(limits, ctx, p);
    BehindAsHalves(p);
    if p.h.udp.None? && p.h.tcp.None? {
      OptionsKept(limits, ctx, p, n);
    } else {
      var ws, ws' := HeaderHalves(p.h), HeaderHalves(q.h);
      NodeStaysOnWire(limits, ctx, p);
      BehindAsHalves(q);
      NodeFields(limits, ctx, p);
      WordsOfBytes(ws);
      WordsOfBytes(ws');
      PrefixSum(ws, p.payload, 2 * n);
      PrefixSum(ws', q.payload, 2 * n);
      if 2 * n <= |ws| {
        HalvesChange(limits, ctx, p, 2 * n);
      } else {
        HalvesChange(limits, ctx, p, |ws|);
        assert ws[..|ws|] == ws && ws'[..|ws'|] == ws';
        if p.h.intHeader.None? {
          NoneInserted(limits, ctx, p.h, p.payload);
        }
      }
    }
  }

  lemma NoneInserted(limits: Limits, ctx: Context, h: THeaders, payload: seq<Byte>)
    requires h.intHeader.None?
    ensures Bytes16(Inserted(limits, ctx, h)) + payload == payload
  {
    EmptyBytes();
  }

  /**
   The header checksum through a node, for headers of any length, in terms of the packet received:
   a valid one stays valid if and only if the change is a zero modulo 65535.
   */
  lemma {:induction false} NodeHeaderChange(limits: Limits, ctx: Context, p: TPacket)
    requires OnWire(p.h) && HeaderAccepted(Emit(p))
    ensures var n := Ihl(p) - 5;
            && n >= 0 && (p.h.intHeader.Some? ==> 4 * n - 2 * (L4Halves(p.h) + 10) <= |p.payload|)
            && (HeaderAccepted(Emit(Node(limits, ctx, p))) <==> Congruent(NodeChange(limits, ctx, p, n), 0))
  {
    hide Emit, Node, Behind, Congruent, HeaderChange, NodeChange, OnWire;
    NodeHeaderFollows(limits, ctx, p);
    ChangeExactly(limits, ctx, p, Ihl(p) - 5);
  }
}
