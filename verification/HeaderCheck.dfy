/**
 The IPv4 header checksum as a receiver computes it, over the packet's own bytes, and what
 nodes do to it.  The header is as long as its length field says; the program always extracts
 twenty bytes, so what it takes for UDP or TCP may be IP options, and it changes some of them.
 */
module HeaderChecks {
  import opened Bytes
  import opened Options
  import opened Headers
  import opened Checksum
  import opened Parser
  import opened Dataplane
  import opened Path

  const IPV4_AT: nat := 14

  /** The IPv4 header length in words, as the packet states it. */
  function HeaderLength(packet: seq<Byte>): nat
    requires |packet| > IPV4_AT
  {
    packet[IPV4_AT] % 16
  }

  /** Is there an IPv4 header, as long as it says, and of at least the five words it must have? */
  predicate HasHeader(packet: seq<Byte>) {
    |packet| > IPV4_AT && HeaderLength(packet) >= 5 && |packet| >= IPV4_AT + 4 * HeaderLength(packet)
  }

  function HeaderWords(packet: seq<Byte>): (ws: seq<U32>)
    requires HasHeader(packet)
    ensures |ws| == HeaderLength(packet) >= 5
  {
    ToWords(packet[IPV4_AT..][..4 * HeaderLength(packet)])
  }

  /** RFC 791, section 3.1: all half-words of the header, the checksum included, sum to all ones. */
  predicate PacketVerifies(packet: seq<Byte>) {
    HasHeader(packet) && Fold(WordSum(HeaderWords(packet))) == 0xffff
  }

  /** The checksum computed afresh, with the field itself taken as zero. */
  function Recomputed(ws: seq<U32>): U16
    requires |ws| >= 5
  {
    Not16(Fold(WordSum(ws[2 := Word2(Hi(ws[2]), 0)])))
  }

  /** Does the field hold what a recomputation over the whole header gives? */
  predicate PacketExact(packet: seq<Byte>)
    requires HasHeader(packet)
  {
    Lo(HeaderWords(packet)[2]) == Recomputed(HeaderWords(packet))
  }

  // ---------------------------------------------------------------------------
  // Headers as words
  // ---------------------------------------------------------------------------

  function L4Words(h: HeaderSet): seq<U32> {
    (if h.udp.Some? then h.udp.value.Words() else []) + (if h.tcp.Some? then h.tcp.value.Words() else [])
  }

  function IntPartWords(h: HeaderSet): seq<U32> {
    (if h.shim.Some? then h.shim.value.Words() else []) + (if h.intHeader.Some? then h.intHeader.value.Words() else [])
  }

  function AddedPartWords(h: HeaderSet): seq<U32> {
    (if h.switchId.Some? then [h.switchId.value] else []) + (if h.portIds.Some? then h.portIds.value.Words() else [])
    + (if h.ingressTs.Some? then h.ingressTs.value.Words() else [])
    + (if h.egressTs.Some? then h.egressTs.value.Words() else [])
    + (if h.influx.Some? then h.influx.value.Words() else [])
  }

  /** Everything the deparser emits after the IPv4 header. */
  function Tail(h: HeaderSet): seq<U32> {
    L4Words(h) + (IntPartWords(h) + AddedPartWords(h))
  }

  /** The first `n` words of `ws` followed by `payload`. */
  function FirstWords(ws: seq<U32>, payload: seq<Byte>, n: nat): (first: seq<U32>)
    requires 4 * n <= 4 * |ws| + |payload|
    ensures |first| == n
  {
    if n <= |ws| then ws[..n] else ws + ToWords(payload[..4 * (n - |ws|)])
  }

  lemma {:induction false} DeparseAsWords(h: HeaderSet)
    requires h.ethernet.Some? && h.ipv4.Some?
    ensures Deparse(h) == h.ethernet.value.Encode() + ToBytes(h.ipv4.value.Words() + Tail(h))
  {
    hide ToBytes, Ipv4.Words, Ethernet.Encode, Tail, EmitUdp, EmitTcp, EmitShim, EmitIntHeader, EmitAdded;
    ToBytesAppend(h.ipv4.value.Words(), Tail(h));
    TailBytes(h);
    Nest(h.ethernet.value.Encode(), ToBytes(h.ipv4.value.Words()), EmitUdp(h.udp), EmitTcp(h.tcp),
         EmitShim(h.shim), EmitIntHeader(h.intHeader), EmitAdded(h));
  }

  lemma Nest(a: seq<Byte>, b: seq<Byte>, c: seq<Byte>, d: seq<Byte>, e: seq<Byte>, f: seq<Byte>, g: seq<Byte>)
    ensures a + b + c + d + e + f + g == a + (b + ((c + d) + ((e + f) + g)))
  {}

  lemma {:induction false} TailBytes(h: HeaderSet)
    ensures ToBytes(Tail(h)) ==
            (EmitUdp(h.udp) + EmitTcp(h.tcp)) + ((EmitShim(h.shim) + EmitIntHeader(h.intHeader)) + EmitAdded(h))
  {
    hide ToBytes, Udp.Words, Tcp.Words, Shim.Words, IntHeader.Words, EmitUdp, EmitTcp, EmitShim, EmitIntHeader;
    hide EmitAdded;
    hide AddedPartWords;
    var udp := if h.udp.Some? then h.udp.value.Words() else [];
    var tcp := if h.tcp.Some? then h.tcp.value.Words() else [];
    var shim := if h.shim.Some? then h.shim.value.Words() else [];
    var ih := if h.intHeader.Some? then h.intHeader.value.Words() else [];
    ToBytesAppend(L4Words(h), IntPartWords(h) + AddedPartWords(h));
    ToBytesAppend(IntPartWords(h), AddedPartWords(h));
    ToBytesAppend(udp, tcp);
    ToBytesAppend(shim, ih);
    AddedAsWords(h);
    EmitAsWords(h);
  }

  lemma EmitAsWords(h: HeaderSet)
    ensures EmitUdp(h.udp) == ToBytes(if h.udp.Some? then h.udp.value.Words() else [])
    ensures EmitTcp(h.tcp) == ToBytes(if h.tcp.Some? then h.tcp.value.Words() else [])
    ensures EmitShim(h.shim) == ToBytes(if h.shim.Some? then h.shim.value.Words() else [])
    ensures EmitIntHeader(h.intHeader) == ToBytes(if h.intHeader.Some? then h.intHeader.value.Words() else [])
  {
    hide Udp.Words, Tcp.Words, Shim.Words, IntHeader.Words;
  }

  lemma {:induction false} AddedAsWords(h: HeaderSet)
    ensures EmitAdded(h) == ToBytes(AddedPartWords(h))
  {
    hide ToBytes, PortIds.Words, Tstamp.Words, Influx.Words;
    var id := if h.switchId.Some? then [h.switchId.value] else [];
    var ports := if h.portIds.Some? then h.portIds.value.Words() else [];
    var ins := if h.ingressTs.Some? then h.ingressTs.value.Words() else [];
    var outs := if h.egressTs.Some? then h.egressTs.value.Words() else [];
    var influx := if h.influx.Some? then h.influx.value.Words() else [];
    ToBytesAppend(id, ports);
    ToBytesAppend(id + ports, ins);
    ToBytesAppend(id + ports + ins, outs);
    ToBytesAppend(id + ports + ins + outs, influx);
    NoWords();
  }

  lemma NoWords()
    ensures ToBytes([]) == []
  {}

  lemma {:induction false} WordsOfStart(ws: seq<U32>, payload: seq<Byte>, n: nat)
    requires 4 * n <= 4 * |ws| + |payload|
    ensures ToWords((ToBytes(ws) + payload)[..4 * n]) == FirstWords(ws, payload, n)
  {
    hide ToBytes, ToWords, WordAt, FirstWords;
    var bs, first := (ToBytes(ws) + payload)[..4 * n], FirstWords(ws, payload, n);
    forall i | 0 <= i < n
      ensures WordAt(bs, 4 * i) == first[i]
    {
      StartWord(ws, payload, n, i);
      FirstWordsAt(ws, payload, n, i);
    }
    WordsEqual(bs, first);
  }

  lemma WordsEqual(bs: seq<Byte>, ws: seq<U32>)
    requires |bs| == 4 * |ws| && forall i :: 0 <= i < |ws| ==> WordAt(bs, 4 * i) == ws[i]
    ensures ToWords(bs) == ws
  {
    hide Word4;
  }

  lemma ToWordsAt(bs: seq<Byte>, i: nat)
    requires |bs| % 4 == 0 && 4 * i < |bs|
    ensures ToWords(bs)[i] == WordAt(bs, 4 * i)
  {}

  lemma FirstWordsAt(ws: seq<U32>, payload: seq<Byte>, n: nat, i: nat)
    requires 4 * n <= 4 * |ws| + |payload| && i < n
    ensures FirstWords(ws, payload, n)[i] == if i < |ws| then ws[i] else WordAt(payload, 4 * (i - |ws|))
  {
    hide ToWords, Word4;
    if i >= |ws| {
      ToWordsAt(payload[..4 * (n - |ws|)], i - |ws|);
    }
  }

  lemma {:induction false} StartWord(ws: seq<U32>, payload: seq<Byte>, n: nat, i: nat)
    requires 4 * n <= 4 * |ws| + |payload| && i < n
    ensures WordAt((ToBytes(ws) + payload)[..4 * n], 4 * i) == if i < |ws| then ws[i]
            else WordAt(payload, 4 * (i - |ws|))
  {
    hide ToBytes, Word4;
    var all := ToBytes(ws) + payload;
    var bs := all[..4 * n];
    assert WordAt(bs, 4 * i) == WordAt(all, 4 * i);
    if i < |ws| {
      assert all[0..0 + 4 * |ws|] == ToBytes(ws);
      WordAtBytes(ws, i, all, 0);
    }
  }

  lemma LengthField(ip: Ipv4)
    ensures ByteOf(ip.Words()[0], 0) == ip.version * 16 + ip.ihl
    ensures ByteOf(ip.Words()[0], 0) % 16 == ip.ihl
  {}

  /** A packet laid out: where its header is, and what words it holds. */
  lemma {:induction false} Layout(h: HeaderSet, payload: seq<Byte>)
    requires h.ethernet.Some? && h.ipv4.Some?
    ensures var packet, ip := Deparse(h) + payload, h.ipv4.value;
            && |packet| == IPV4_AT + 20 + 4 * |Tail(h)| + |payload|
            && HeaderLength(packet) == ip.ihl
            && (HasHeader(packet) <==> ip.ihl >= 5 && 4 * (ip.ihl - 5) <= 4 * |Tail(h)| + |payload|)
            && (HasHeader(packet) ==>
                  HeaderWords(packet) == ip.Words() + FirstWords(Tail(h), payload, ip.ihl - 5))
  {
    hide ToBytes, Tail, Deparse, Ethernet.Encode;
    var packet, ip := Deparse(h) + payload, h.ipv4.value;
    var ws := ip.Words() + Tail(h);
    DeparseAsWords(h);
    assert packet[IPV4_AT..] == ToBytes(ws) + payload;
    FirstByte(ws, payload);
    LengthField(ip);
    assert packet[IPV4_AT] == packet[IPV4_AT..][0];
    if HasHeader(packet) {
      WordsOfStart(ws, payload, ip.ihl);
      assert FirstWords(ws, payload, ip.ihl) == ip.Words() + FirstWords(Tail(h), payload, ip.ihl - 5);
    }
  }

  lemma FirstByte(ws: seq<U32>, payload: seq<Byte>)
    requires ws != []
    ensures |ToBytes(ws) + payload| > 0 && (ToBytes(ws) + payload)[0] == ByteOf(ws[0], 0)
  {
    hide ByteOf;
  }

  // ---------------------------------------------------------------------------
  // One node
  // ---------------------------------------------------------------------------

  /** The sum of the option words of a packet with headers `h`: what a header of `n` words more than five covers. */
  function OptionSum(h: HeaderSet, payload: seq<Byte>, n: nat): nat
    requires 4 * n <= 4 * |Tail(h)| + |payload|
  {
    WordSum(FirstWords(Tail(h), payload, n))
  }

  lemma {:induction false} HeaderSum(h: HeaderSet, payload: seq<Byte>)
    requires h.ethernet.Some? && h.ipv4.Some? && HasHeader(Deparse(h) + payload)
    ensures var ip := h.ipv4.value;
            && ip.ihl >= 5 && 4 * (ip.ihl - 5) <= 4 * |Tail(h)| + |payload|
            && WordSum(HeaderWords(Deparse(h) + payload)) == WordSum(ip.Words()) + OptionSum(h, payload, ip.ihl - 5)
  {
    hide HasHeader, HeaderWords, Tail, Deparse, WordSum, Ipv4.Words;
    Layout(h, payload);
    WordSumAppend(h.ipv4.value.Words(), FirstWords(Tail(h), payload, h.ipv4.value.ihl - 5));
  }

  lemma {:induction false} VerifiesExactly(packet: seq<Byte>)
    requires HasHeader(packet)
    ensures PacketVerifies(packet) <==> Congruent(WordSum(HeaderWords(packet)), 0) && WordSum(HeaderWords(packet)) > 0
  {
    hide HasHeader, HeaderWords, WordSum, Fold, Congruent;
    var s := WordSum(HeaderWords(packet));
    FoldKeepsValue(s);
    if s > 0 {
      FoldIs(s, 0xffff);
      OneMore(s);
    }
  }

  lemma OneMore(x: int)
    ensures Congruent(0xffff, x) <==> Congruent(x, 0)
  {}

  /** With the field not 0xffff, it is exactly the recomputed one when the header verifies. */
  lemma {:induction false} ExactWhenVerifies(packet: seq<Byte>)
    requires HasHeader(packet) && Lo(HeaderWords(packet)[2]) != 0xffff
    requires WordSum(HeaderWords(packet)) > Lo(HeaderWords(packet)[2])
    ensures PacketExact(packet) <==> PacketVerifies(packet)
  {
    hide HasHeader, HeaderWords, WordSum, Fold, Congruent, Hi, Lo, Word2;
    var ws := HeaderWords(packet);
    var cks, zeroed := Lo(ws[2]), ws[2 := Word2(Hi(ws[2]), 0)];
    FieldZeroed(ws);
    var rest := WordSum(zeroed);
    FoldKeepsValue(rest);
    FoldIs(rest, Not16(cks));
    FoldIs(rest + cks, 0xffff);
    Opposite(rest, cks);
    Symmetric(Not16(cks), rest);
  }

  lemma {:induction false} FieldZeroed(ws: seq<U32>)
    requires |ws| >= 5
    ensures WordSum(ws[2 := Word2(Hi(ws[2]), 0)]) + Lo(ws[2]) == WordSum(ws)
  {
    hide WordSum, Hi, Lo, Word2;
    var a, b, w := ws[..2], ws[3..], Word2(Hi(ws[2]), 0);
    assert ws == a + ([ws[2]] + b) && ws[2 := w] == a + ([w] + b);
    WordSumAppend(a, [ws[2]] + b);
    WordSumAppend(a, [w] + b);
    WordSumAppend([ws[2]], b);
    WordSumAppend([w], b);
    HalvesSum(Hi(ws[2]), 0);
    WordSumOne(ws[2]);
  }

  lemma {:induction false} FieldPositive(h: HeaderSet, payload: seq<Byte>)
    requires h.ethernet.Some? && h.ipv4.Some? && HasHeader(Deparse(h) + payload)
    ensures var ws := HeaderWords(Deparse(h) + payload);
            Lo(ws[2]) == h.ipv4.value.checksum && WordSum(ws) > h.ipv4.value.checksum
  {
    hide HasHeader, HeaderWords, Deparse, WordSum, Ipv4.Words, Tail;
    HeaderSum(h, payload);
    Ipv4WordSum(h.ipv4.value);
    Layout(h, payload);
    ChecksumWord(h.ipv4.value);
  }

  lemma ChecksumWord(ip: Ipv4)
    ensures |ip.Words()| == 5 && Lo(ip.Words()[2]) == ip.checksum
    ensures ip.ihl > 0 ==> ip.FirstHalf() > 0
  {}

  /** The headers a node sends, and what it found behind them. */
  function Sent(hop: Hop, h: HeaderSet): HeaderSet
    requires h.udp.Some? || h.tcp.Some? ==> h.ipv4.Some?
  {
    Egress(Ingress(hop.cfg, h, hop.md, hop.seqNo), hop.md)
  }

  /** What happens to a packet's IPv4 checksum when `change` is what its option words change by. */
  ghost predicate ChecksumFollows(packet: seq<Byte>, out: seq<Byte>, change: int) {
    && HasHeader(packet) && HasHeader(out)
    && Congruent(WordSum(HeaderWords(out)), WordSum(HeaderWords(packet)) + change)
    && (PacketVerifies(packet) ==> (PacketVerifies(out) <==> Congruent(change, 0)))
    && (Congruent(change, 0) ==> (PacketVerifies(out) <==> PacketVerifies(packet)))
    && (PacketExact(out) <==> PacketVerifies(out))
  }

  /** Is there as much behind the IPv4 words as `n` option words need? */
  predicate Covers(h: HeaderSet, payload: seq<Byte>, n: int) {
    0 <= 4 * n <= 4 * |Tail(h)| + |payload|
  }

  lemma {:induction false} Follows(h: HeaderSet, payload: seq<Byte>, h': HeaderSet, payload': seq<Byte>)
    requires h.ethernet.Some? && h.ipv4.Some? && h'.ethernet.Some? && h'.ipv4.Some?
    requires h'.ipv4.value.ihl == h.ipv4.value.ihl && KeepsChecksum(h'.ipv4.value, h.ipv4.value)
    requires HasHeader(Deparse(h) + payload)
    requires Covers(h', payload', h.ipv4.value.ihl - 5)
    ensures var n := h.ipv4.value.ihl - 5;
            && Covers(h, payload, n)
            && ChecksumFollows(Deparse(h) + payload, Deparse(h') + payload',
               OptionSum(h', payload', n) - OptionSum(h, payload, n))
  {
    hide HasHeader, HeaderWords, Deparse, WordSum, Ipv4.Words, Tail, Congruent, PacketExact, PacketVerifies, OptionSum;
    var packet, out := Deparse(h) + payload, Deparse(h') + payload';
    Layout(h, payload);
    Layout(h', payload');
    HeaderSum(h, payload);
    HeaderSum(h', payload');
    FieldPositive(h, payload);
    FieldPositive(h', payload');
    var n := h.ipv4.value.ihl - 5;
    var change := OptionSum(h', payload', n) - OptionSum(h, payload, n);
    var before, after := WordSum(HeaderWords(packet)), WordSum(HeaderWords(out));
    var ip, ip' := WordSum(h.ipv4.value.Words()), WordSum(h'.ipv4.value.Words());
    SumsFollow(ip', ip, OptionSum(h', payload', n), OptionSum(h, payload, n));
    VerifiesExactly(packet);
    VerifiesExactly(out);
    ExactWhenVerifies(out);
    Replace(after, before + change, 0);
    Shifted(before, change);
  }

  lemma SumsFollow(ip': int, ip: int, opt': int, opt: int)
    requires Congruent(ip', ip)
    ensures Congruent(ip' + opt', (ip + opt) + (opt' - opt))
  {}

  lemma Shifted(x: int, change: int)
    ensures Congruent(x, 0) ==> (Congruent(x + change, 0) <==> Congruent(change, 0))
    ensures Congruent(change, 0) ==> (Congruent(x + change, 0) <==> Congruent(x, 0))
  {
    if Congruent(x, 0) {
      assert Congruent(x + change, change);
      Replace(x + change, change, 0);
    }
    if Congruent(change, 0) {
      assert Congruent(x + change, x);
      Replace(x + change, x, 0);
    }
  }

  /** What a node keeps of the headers, as far as the IPv4 header's extent goes. */
  lemma {:induction false} SentShape(hop: Hop, h: HeaderSet)
    requires !hop.cfg.sinkEnable && WellFormed(h) && (h.udp.Some? || h.tcp.Some?)
    ensures var h' := Sent(hop, h);
            && h'.ethernet == h.ethernet && h'.ipv4.Some? && h.ipv4.Some?
            && h'.ipv4.value.ihl == h.ipv4.value.ihl
            && |Tail(h')| >= |Tail(h)|
  {
    hide SubFrom, AddTo, Plus16, Udp.Words, Tcp.Words;
    TailLength(h);
    TailLength(Sent(hop, h));
  }

  lemma TailLength(h: HeaderSet)
    ensures |Tail(h)| ==
            (if h.udp.Some? then 2 else 0) + (if h.tcp.Some? then 5 else 0)
            + (if h.shim.Some? then 1 else 0) + (if h.intHeader.Some? then 2 else 0)
            + (if h.switchId.Some? then 1 else 0) + (if h.portIds.Some? then 1 else 0)
            + (if h.ingressTs.Some? then 2 else 0) + (if h.egressTs.Some? then 2 else 0)
            + (if h.influx.Some? then 9 else 0)
  {
    hide Udp.Words, Tcp.Words, Shim.Words, IntHeader.Words, PortIds.Words, Tstamp.Words, Influx.Words;
  }

  /**
   The IPv4 checksum through a node that is no sink, over the packet's own header, options
   included.  A valid header stays valid if and only if the option words it covers change by a
   zero modulo 65535, and the field sent is bit for bit the recomputed one if and only if the
   header sent verifies.
   */
  lemma {:induction false} NodeChecksumExact(hop: Hop, packet: seq<Byte>)
    requires !hop.cfg.sinkEnable && ParseEthernet(packet).Accepted? && HasHeader(packet)
    requires var h := ParseEthernet(packet).hdr; h.udp.Some? || h.tcp.Some?
    ensures var p, out := ParseEthernet(packet), Process(hop.cfg, packet, hop.md, hop.seqNo);
            && WellFormed(p.hdr) && out.Some?
            && var n := HeaderLength(packet) - 5;
               && Covers(p.hdr, p.payload, n) && Covers(Sent(hop, p.hdr), p.payload, n)
               && ChecksumFollows(packet, out.value,
                  OptionSum(Sent(hop, p.hdr), p.payload, n) - OptionSum(p.hdr, p.payload, n))
  {
    hide HasHeader, Deparse, Tail, KeepsChecksum, ChecksumFollows, OptionSum, Ingress, Egress, ParseEthernet;
    hide WellFormed;
    hide Process;
    DeparseUndoesParse(packet);
    var p := ParseEthernet(packet);
    FromWellFormed(p.hdr);
    ProcessIs(hop, packet);
    SentShape(hop, p.hdr);
    Layout(p.hdr, p.payload);
    ChecksumWord(p.hdr.ipv4.value);
    NodeKeepsChecksum(hop, p.hdr);
    hide Sent;
    Follows(p.hdr, p.payload, Sent(hop, p.hdr), p.payload);
  }

  lemma ProcessIs(hop: Hop, packet: seq<Byte>)
    requires ParseEthernet(packet).Accepted?
    requires var h := ParseEthernet(packet).hdr; h.udp.Some? || h.tcp.Some? ==> h.ipv4.Some?
    ensures var p := ParseEthernet(packet);
            Process(hop.cfg, packet, hop.md, hop.seqNo) == Some(Deparse(Sent(hop, p.hdr)) + p.payload)
  {
    hide Deparse, Ingress, Egress, ParseEthernet;
  }

  lemma FromWellFormed(h: HeaderSet)
    requires WellFormed(h)
    ensures h.ethernet.Some? && (h.udp.Some? || h.tcp.Some? ==> h.ipv4.Some?)
  {}

  // ---------------------------------------------------------------------------
  // What the option words change by
  // ---------------------------------------------------------------------------

  lemma {:induction false} FirstWordsSplit(a: seq<U32>, b: seq<U32>, payload: seq<Byte>, n: nat)
    requires 4 * n <= 4 * |a + b| + |payload|
    ensures n <= |a| ==> FirstWords(a + b, payload, n) == a[..n]
    ensures n > |a| ==> FirstWords(a + b, payload, n) == a + FirstWords(b, payload, n - |a|)
  {
    hide ToWords;
    if n <= |a| {
      assert (a + b)[..n] == a[..n];
    } else if n <= |a + b| {
      assert (a + b)[..n] == a + b[..n - |a|];
    } else {
      var rest := ToWords(payload[..4 * (n - |a + b|)]);
      assert n - |a + b| == n - |a| - |b|;
      assert a + b + rest == a + (b + rest);
    }
  }

  /** The sum of the first `n` words of a UDP or TCP header. */
  lemma {:induction false} UdpPrefix(u: Udp, n: nat)
    requires n <= 2
    ensures WordSum(u.Words()[..n]) == (if n >= 1 then u.srcPort + u.dstPort else 0)
            + (if n >= 2 then u.len + u.csum else 0)
  {
    var a, b := Word2(u.srcPort, u.dstPort), Word2(u.len, u.csum);
    hide Word2, Hi, Lo;
    HalvesSum(u.srcPort, u.dstPort);
    HalvesSum(u.len, u.csum);
    WordSumTwo(a, b);
    assert [a, b][..0] == [] && [a, b][..1] == [a] && [a, b][..2] == [a, b];
  }

  lemma {:induction false} TcpPrefix(t: Tcp, t': Tcp, n: nat)
    requires n <= 5 && t' == t.(csum := t'.csum)
    ensures WordSum(t'.Words()[..n]) - WordSum(t.Words()[..n]) == if n >= 5 then t'.csum - t.csum else 0
  {
    hide Word2, Hi, Lo, WordSum;
    if n < 5 {
      assert t'.Words()[..n] == t.Words()[..n];
    } else {
      var front := t.Words()[..4];
      assert t.Words()[..5] == front + [Word2(t.csum, t.urgPoint)];
      assert t'.Words()[..5] == front + [Word2(t'.csum, t.urgPoint)];
      WordSumAppend(front, [Word2(t.csum, t.urgPoint)]);
      WordSumAppend(front, [Word2(t'.csum, t.urgPoint)]);
      HalvesSum(t.csum, t.urgPoint);
      HalvesSum(t'.csum, t.urgPoint);
    }
  }

  /** How far the UDP or TCP header reaches, in words. */
  function L4Length(h: HeaderSet): nat {
    if h.udp.Some? then 2 else 5
  }

  lemma {:induction false} L4Change(h: HeaderSet, h': HeaderSet, n: nat)
    requires (h.udp.Some? <==> h.tcp.None?) && n <= L4Length(h)
    requires h'.udp == if h.udp.Some? then Some(h.udp.value.(len := Len(h'), csum := Csum(h'))) else None
    requires h'.tcp == if h.tcp.Some? then Some(h.tcp.value.(csum := Csum(h'))) else None
    ensures |L4Words(h)| == |L4Words(h')| == L4Length(h)
    ensures WordSum(L4Words(h')[..n]) - WordSum(L4Words(h)[..n]) ==
            if h.udp.Some? then (if n >= 2 then Len(h') - Len(h) + Csum(h') - Csum(h) else 0)
            else if n >= 5 then Csum(h') - Csum(h) else 0
  {
    hide WordSum, Udp.Words, Tcp.Words;
    if h.udp.Some? {
      assert L4Words(h) == h.udp.value.Words() && L4Words(h') == h'.udp.value.Words();
      UdpPrefix(h.udp.value, n);
      UdpPrefix(h'.udp.value, n);
    } else {
      assert L4Words(h) == h.tcp.value.Words() && L4Words(h') == h'.tcp.value.Words();
      TcpPrefix(h.tcp.value, h'.tcp.value, n);
    }
  }

  /** The length a UDP header states, and the checksum of either kind. */
  function Len(h: HeaderSet): U16 {
    if h.udp.Some? then h.udp.value.len else 0
  }

  function Csum(h: HeaderSet): U16 {
    if h.udp.Some? then h.udp.value.csum else if h.tcp.Some? then h.tcp.value.csum else 0
  }

  lemma Word4Sum(a: Byte, b: Byte, c: Byte, d: Byte)
    ensures WordSum([Word4(a, b, c, d)]) == a * TWO8 + b + c * TWO8 + d
  {
    HalvesOf4(a, b, c, d);
    WordSumOne(Word4(a, b, c, d));
  }

  lemma HalvesOf4(a: Byte, b: Byte, c: Byte, d: Byte)
    ensures Hi(Word4(a, b, c, d)) == a * TWO8 + b && Lo(Word4(a, b, c, d)) == c * TWO8 + d
  {}

  /** The INT headers, when only the shim's length and the hop count change. */
  lemma {:induction false} IntPrefix(s: Shim, i: IntHeader, len: U8, hops: U8, m: nat)
    requires m <= 3
    ensures var ws, ws' := s.Words() + i.Words(), s.(len := len).Words() + i.(remainingHopCnt := hops).Words();
            WordSum(ws'[..m]) - WordSum(ws[..m])
            == (if m >= 1 then TWO8 * (len - s.len) else 0) + if m >= 2 then hops - i.remainingHopCnt else 0
  {
    hide WordSum, Word4, Word2;
    var a, b, c := s.Words()[0], i.Words()[0], i.Words()[1];
    var a', b' := s.(len := len).Words()[0], i.(remainingHopCnt := hops).Words()[0];
    Word4Sum(s.intType, s.rsvd1, s.len, s.dscp * 4 + s.rsvd3);
    Word4Sum(s.intType, s.rsvd1, len, s.dscp * 4 + s.rsvd3);
    Word4Sum(i.ver * 16 + i.rep * 4 + i.c * 2 + i.e, i.m * 128 + i.rsvd1, i.rsvd2 * 32 + i.hopMetadataLen,
      i.remainingHopCnt);
    Word4Sum(i.ver * 16 + i.rep * 4 + i.c * 2 + i.e, i.m * 128 + i.rsvd1, i.rsvd2 * 32 + i.hopMetadataLen, hops);
    PrefixOfThree(a, b, c, m);
    PrefixOfThree(a', b', c, m);
    assert s.Words() + i.Words() == [a, b, c];
    assert s.(len := len).Words() + i.(remainingHopCnt := hops).Words() == [a', b', c];
  }

  lemma PrefixOfThree(a: U32, b: U32, c: U32, m: nat)
    requires m <= 3
    ensures WordSum([a, b, c][..m]) ==
            (if m >= 1 then WordSum([a]) else 0) + (if m >= 2 then WordSum([b]) else 0) + if m >= 3 then WordSum([c])
              else 0
  {
    WordSumTwo(a, b);
    WordSumThree(a, b, c);
    assert [a, b, c][..0] == [] && [a, b, c][..1] == [a] && [a, b, c][..2] == [a, b] && [a, b, c][..3] == [a, b, c];
    assert WordSum([]) == 0;
    hide Hi, Lo;
  }

  /** Words at the front of a payload are as good as header words. */
  lemma {:induction false} FirstWordsBytes(ws: seq<U32>, more: seq<U32>, payload: seq<Byte>, n: nat)
    requires 4 * n <= 4 * |ws + more| + |payload|
    ensures FirstWords(ws, ToBytes(more) + payload, n) == FirstWords(ws + more, payload, n)
  {
    hide FirstWords, ToBytes, ToWords;
    WordsOfStart(ws, ToBytes(more) + payload, n);
    WordsOfStart(ws + more, payload, n);
    ToBytesAppend(ws, more);
    assert ToBytes(ws) + (ToBytes(more) + payload) == ToBytes(ws) + ToBytes(more) + payload;
  }

  /** The option words as three parts: the header taken for UDP or TCP, the INT headers, the rest. */
  lemma {:induction false} OptionParts(h: HeaderSet, l4: seq<U32>, ih: seq<U32>, rest: seq<U32>, payload: seq<Byte>,
          n: nat)
    requires Tail(h) == l4 + (ih + rest) && Covers(h, payload, n)
    ensures n <= |l4| ==> OptionSum(h, payload, n) == WordSum(l4[..n])
    ensures |l4| < n <= |l4| + |ih| ==> OptionSum(h, payload, n) == WordSum(l4) + WordSum(ih[..n - |l4|])
    ensures |l4| + |ih| < n ==>
              var m := n - |l4| - |ih|;
              && 4 * m <= 4 * |rest| + |payload|
              && OptionSum(h, payload, n) == WordSum(l4) + WordSum(ih) + WordSum(FirstWords(rest, payload, m))
  {
    hide WordSum, FirstWords, Tail;
    FirstWordsSplit(l4, ih + rest, payload, n);
    if n > |l4| {
      var m := n - |l4|;
      FirstWordsSplit(ih, rest, payload, m);
      WordSumAppend(l4, FirstWords(ih + rest, payload, m));
      if m > |ih| {
        WordSumAppend(ih, FirstWords(rest, payload, m - |ih|));
      }
    }
  }

  lemma WholePrefix(ws: seq<U32>)
    ensures ws[..|ws|] == ws
  {}

  /** What a transit node changes the option words by, in terms of what it receives. */
  function TransitChange(hop: Hop, h: HeaderSet, payload: seq<Byte>, n: nat): int
    requires h.shim.Some? && h.intHeader.Some? && n <= 10 && 4 * (n - L4Length(h) - 3) <= |payload|
  {
    var at, s, hops := L4Length(h), h.shim.value.len, h.intHeader.value.remainingHopCnt;
    (if h.udp.Some? && n >= 2 then Plus16(Len(h), NODE_GROWTH) - Len(h) else 0)
    + (if n >= at + 1 then TWO8 * ((s + 6) % TWO8 - s) else 0)
    + (if n >= at + 2 then (hops + 0xff) % TWO8 - hops else 0)
    + (if n > at + 3 then Displaced(MetadataWords(hop), payload, n - at - 3) else 0)
  }

  /** `m` words of `inserted` where `m` words of the payload were. */
  function Displaced(inserted: seq<U32>, payload: seq<Byte>, m: nat): int
    requires m <= |inserted| && 4 * m <= |payload|
  {
    WordSum(inserted[..m]) - WordSum(ToWords(payload[..4 * m]))
  }

  lemma NoneInFront(payload: seq<Byte>, m: nat)
    requires 4 * m <= |payload|
    ensures FirstWords([], payload, m) == ToWords(payload[..4 * m])
  {
    if m == 0 {
      assert ToWords(payload[..0]) == [];
    } else {
      assert [] + ToWords(payload[..4 * m]) == ToWords(payload[..4 * m]);
    }
  }

  lemma {:induction false} TransitTails(hop: Hop, h: HeaderSet)
    requires WellFormed(h) && (h.udp.Some? || h.tcp.Some?) && h.shim.Some?
    requires !hop.cfg.srcEnable && !hop.cfg.sinkEnable
    ensures var h' := Sent(hop, h);
            && Tail(h) == L4Words(h) + (IntPartWords(h) + []) && |IntPartWords(h)| == |IntPartWords(h')| == 3
            && Tail(h') == L4Words(h') + (IntPartWords(h') + MetadataWords(hop))
            && IntPartWords(h) == h.shim.value.Words() + h.intHeader.value.Words()
            && IntPartWords(h') == h.shim.value.(len := (h.shim.value.len + 6) % TWO8).Words()
                 + h.intHeader.value.(remainingHopCnt := (h.intHeader.value.remainingHopCnt + 0xff) % TWO8).Words()
            && h'.udp == (if h.udp.Some? then Some(h.udp.value.(len := Plus16(Len(h), NODE_GROWTH), csum := Csum(h)))
               else None)
            && h'.tcp == h.tcp
  {
    hide Ingress, Egress, Plus16, Udp.Words, Tcp.Words, Shim.Words, IntHeader.Words, PortIds.Words, Tstamp.Words;
    TransitEffect(hop, h);
  }

  lemma {:induction false} TransitOptions(hop: Hop, h: HeaderSet, payload: seq<Byte>, n: nat)
    requires WellFormed(h) && (h.udp.Some? || h.tcp.Some?) && h.shim.Some?
    requires !hop.cfg.srcEnable && !hop.cfg.sinkEnable
    requires n <= 10 && Covers(h, payload, n)
    ensures 4 * (n - L4Length(h) - 3) <= |payload| && Covers(Sent(hop, h), payload, n)
    ensures OptionSum(Sent(hop, h), payload, n) - OptionSum(h, payload, n) == TransitChange(hop, h, payload, n)
  {
    hide Sent, OptionSum, WordSum, L4Words, IntPartWords, MetadataWords, Tail, Plus16, ToWords, FirstWords;
    var h' := Sent(hop, h);
    TransitTails(hop, h);
    var at := L4Length(h);
    L4Change(h, h', if n <= at then n else at);
    OptionParts(h, L4Words(h), IntPartWords(h), [], payload, n);
    OptionParts(h', L4Words(h'), IntPartWords(h'), MetadataWords(hop), payload, n);
    WholePrefix(L4Words(h));
    WholePrefix(L4Words(h'));
    WholePrefix(IntPartWords(h));
    WholePrefix(IntPartWords(h'));
    if n > at {
      IntPrefix(h.shim.value, h.intHeader.value, (h.shim.value.len + 6) % TWO8,
        (h.intHeader.value.remainingHopCnt + 0xff) % TWO8,
                if n <= at + 3 then n - at else 3);
      if n > at + 3 {
        NoneInFront(payload, n - at - 3);
        AllInFront(MetadataWords(hop), payload, n - at - 3);
      }
    }
  }

  lemma AllInFront(ws: seq<U32>, payload: seq<Byte>, m: nat)
    requires m <= |ws|
    ensures FirstWords(ws, payload, m) == ws[..m]
  {}

  /** What a path of `hops` nodes inserts behind the UDP or TCP header. */
  function Inserted(hops: seq<Hop>, h0: HeaderSet): (ws: seq<U32>)
    requires hops != [] && h0.ipv4.Some?
    ensures |ws| == 3 + 6 * |hops|
  {
    Shim(INT_TYPE_HOP_BY_HOP, 0, (3 + 6 * |hops|) % TWO8, h0.ipv4.value.dscp, 0).Words()
    + IntHeader(INT_VERSION, 0, 0, 0, 0, 1, 0, 6, (255 + 255 * |hops|) % TWO8, 0x00cc, hops[0].seqNo).Words()
    + StackWords(hops)
  }

  /** What a path, or with one node its source alone, changes the option words of a plain packet by. */
  function PathChange(hops: seq<Hop>, h0: HeaderSet, payload: seq<Byte>, n: nat): int
    requires hops != [] && h0.ipv4.Some? && n <= 10 && 4 * (n - L4Length(h0)) <= |payload|
  {
    var at, grown := L4Length(h0), SOURCE_GROWTH + NODE_GROWTH * |hops|;
    (if h0.udp.Some? && n >= 2 then Plus16(Len(h0), grown) - Len(h0) else 0)
    + (if n >= at then 0 - Csum(h0) as int else 0)
    + (if n > at then Displaced(Inserted(hops, h0), payload, n - at) else 0)
  }

  lemma {:induction false} PathTails(hops: seq<Hop>, h0: HeaderSet, h: HeaderSet)
    requires hops != [] && Carries(h0, |hops|, hops[0].seqNo, h)
    ensures h0.ipv4.Some? && h.ipv4.Some? && (h0.udp.Some? <==> h0.tcp.None?)
    ensures Tail(h0) == L4Words(h0) + ([] + [])
    ensures Tail(h) + StackWords(hops) == L4Words(h) + ([] + Inserted(hops, h0))
    ensures h.udp == (if h0.udp.Some? then
                        Some(h0.udp.value.(len := Plus16(Len(h0), SOURCE_GROWTH + NODE_GROWTH * |hops|), csum := 0))
                          else None)
    ensures h.tcp == (if h0.tcp.Some? then Some(h0.tcp.value.(csum := 0)) else None)
    ensures |Tail(h)| == L4Length(h0) + 3
  {
    hide KeepsChecksum, Plus16, Udp.Words, Tcp.Words, Shim.Words, IntHeader.Words, StackWords;
  }

  lemma {:induction false} PathOptions(hops: seq<Hop>, h0: HeaderSet, h: HeaderSet, payload: seq<Byte>, n: nat)
    requires hops != [] && Carries(h0, |hops|, hops[0].seqNo, h)
    requires n <= 10 && Covers(h0, payload, n)
    ensures h0.ipv4.Some? && 4 * (n - L4Length(h0)) <= |payload|
    ensures Covers(h, ToBytes(StackWords(hops)) + payload, n)
    ensures OptionSum(h, ToBytes(StackWords(hops)) + payload, n) - OptionSum(h0, payload, n)
            == PathChange(hops, h0, payload, n)
  {
    hide OptionSum, WordSum, L4Words, StackWords, Tail, Plus16, ToWords, ToBytes, FirstWords, Carries, Inserted;
    PathTails(hops, h0, h);
    var at, stack := L4Length(h0), StackWords(hops);
    L4Change(h0, h, if n <= at then n else at);
    OptionParts(h0, L4Words(h0), [], [], payload, n);
    CarriedSum(hops, h0, h, payload, n);
    WholePrefix(L4Words(h0));
    WholePrefix(L4Words(h));
    if n > at {
      NoneInFront(payload, n - at);
      AllInFront(Inserted(hops, h0), payload, n - at);
      EmptySum();
    }
  }

  lemma EmptySum()
    ensures WordSum([]) == 0
  {}

  lemma {:induction false} CarriedSum(hops: seq<Hop>, h0: HeaderSet, h: HeaderSet, payload: seq<Byte>, n: nat)
    requires hops != [] && h0.ipv4.Some? && n <= 10 && |L4Words(h)| <= 5 && |Tail(h)| == |L4Words(h)| + 3
    requires Tail(h) + StackWords(hops) == L4Words(h) + ([] + Inserted(hops, h0))
    requires n - |L4Words(h)| <= 9
    ensures Covers(h, ToBytes(StackWords(hops)) + payload, n)
    ensures OptionSum(h, ToBytes(StackWords(hops)) + payload, n) ==
            if n <= |L4Words(h)| then WordSum(L4Words(h)[..n])
            else WordSum(L4Words(h)) + WordSum(FirstWords(Inserted(hops, h0), payload, n - |L4Words(h)|))
  {
    hide WordSum, FirstWords, Tail, L4Words, StackWords, Inserted, ToBytes;
    FirstWordsBytes(Tail(h), StackWords(hops), payload, n);
    FirstWordsSplit(L4Words(h), Inserted(hops, h0), payload, n);
    assert [] + Inserted(hops, h0) == Inserted(hops, h0);
    if n > |L4Words(h)| {
      WordSumAppend(L4Words(h), FirstWords(Inserted(hops, h0), payload, n - |L4Words(h)|));
    }
  }

  // ---------------------------------------------------------------------------
  // When the checksum survives
  // ---------------------------------------------------------------------------

  /** A transit node, with the change in terms of the packet it receives. */
  lemma {:induction false} TransitChecksumExact(hop: Hop, packet: seq<Byte>)
    requires !hop.cfg.srcEnable && !hop.cfg.sinkEnable && ParseEthernet(packet).Accepted? && HasHeader(packet)
    requires ParseEthernet(packet).hdr.shim.Some?
    ensures var p, out := ParseEthernet(packet), Process(hop.cfg, packet, hop.md, hop.seqNo);
            var n := HeaderLength(packet) - 5;
            && out.Some? && p.hdr.intHeader.Some? && n <= 10 && 4 * (n - L4Length(p.hdr) - 3) <= |p.payload|
            && ChecksumFollows(packet, out.value, TransitChange(hop, p.hdr, p.payload, n))
  {
    hide Deparse, Tail, ChecksumFollows, OptionSum, TransitChange, ParseEthernet;
    DeparseUndoesParse(packet);
    NodeChecksumExact(hop, packet);
    var p := ParseEthernet(packet);
    TransitOptions(hop, p.hdr, p.payload, HeaderLength(packet) - 5);
  }

  /**
   As long as the header covers no metadata, a transit node keeps it valid if and only if it
   covers none of the fields the node counts up or down: with at most one option word for UDP,
   or five for TCP.
   */
  lemma {:induction false} TransitKeepsExactly(hop: Hop, packet: seq<Byte>)
    requires !hop.cfg.srcEnable && !hop.cfg.sinkEnable && ParseEthernet(packet).Accepted? && PacketVerifies(packet)
    requires var h := ParseEthernet(packet).hdr; h.shim.Some? && HeaderLength(packet) - 5 <= L4Length(h) + 3
    ensures var h, out := ParseEthernet(packet).hdr, Process(hop.cfg, packet, hop.md, hop.seqNo);
            && out.Some?
            && (PacketVerifies(out.value) <==> HeaderLength(packet) <= if h.udp.Some? then 6 else 10)
  {
    hide ParseEthernet, Process, TransitChange, Congruent, HeaderWords, HasHeader, PacketExact, WordSum, WellFormed;
    TransitChecksumExact(hop, packet);
    var p := ParseEthernet(packet);
    DeparseUndoesParse(packet);
    OneOfTwo(p.hdr);
    ZeroTransitChange(hop, p.hdr, p.payload, HeaderLength(packet) - 5);
  }

  lemma OneOfTwo(h: HeaderSet)
    requires WellFormed(h) && h.shim.Some?
    ensures (h.udp.Some? <==> h.tcp.None?) && h.intHeader.Some?
  {}

  lemma {:induction false} ZeroTransitChange(hop: Hop, h: HeaderSet, payload: seq<Byte>, n: nat)
    requires (h.udp.Some? <==> h.tcp.None?) && h.shim.Some? && h.intHeader.Some? && n <= 10 && n <= L4Length(h) + 3
    ensures Congruent(TransitChange(hop, h, payload, n), 0) <==> n <= if h.udp.Some? then 1 else 5
  {
    hide Displaced;
  }

  /** A whole path, its source included, with the change in terms of the packet that enters it. */
  lemma {:induction false} PathChecksumExact(hops: seq<Hop>, h0: HeaderSet, payload: seq<Byte>, h: HeaderSet,
          packet: seq<Byte>)
    requires hops != [] && Delivered(hops, h0, payload, h, packet) && HasHeader(Deparse(h0) + payload)
    ensures var n := HeaderLength(Deparse(h0) + payload) - 5;
            && h0.ipv4.Some? && n == h0.ipv4.value.ihl - 5 && 0 <= n <= 10 && 4 * (n - L4Length(h0)) <= |payload|
            && ChecksumFollows(Deparse(h0) + payload, packet, PathChange(hops, h0, payload, n))
  {
    hide ToBytes, Deparse, Tail, ChecksumFollows, OptionSum, PathChange, EmitParsed, StackWords, HasHeader;
    hide KeepsChecksum, WellFormed;
    var stack := ToBytes(StackWords(hops)) + payload;
    CarriesIpv4(h0, |hops|, hops[0].seqNo, h);
    CarriedHeader(hops, h0, h);
    Layout(h0, payload);
    PathOptions(hops, h0, h, payload, h0.ipv4.value.ihl - 5);
    Follows(h0, payload, h, stack);
  }

  lemma CarriedHeader(hops: seq<Hop>, h0: HeaderSet, h: HeaderSet)
    requires hops != [] && Carries(h0, |hops|, hops[0].seqNo, h)
    ensures h0.ethernet.Some? && h.ethernet.Some? && h0.ipv4.Some? && h.ipv4.Some?
    ensures h.ipv4.value.ihl == h0.ipv4.value.ihl && KeepsChecksum(h.ipv4.value, h0.ipv4.value)
    ensures Deparse(h) == EmitParsed(h)
  {
    NothingToAdd(h);
    hide KeepsChecksum, Deparse, EmitParsed;
  }

  /**
   The header checksum after a path.  With up to one option word for UDP, or four for TCP, a
   valid header stays valid.  With one more, the header covers the fields the source clears
   and the nodes count up, and stays valid if and only if these changes cancel out.
   */
  lemma {:induction false} PathKeepsExactly(hops: seq<Hop>, h0: HeaderSet, payload: seq<Byte>, h: HeaderSet,
          packet: seq<Byte>)
    requires hops != [] && Delivered(hops, h0, payload, h, packet) && PacketVerifies(Deparse(h0) + payload)
    requires h0.ipv4.Some? && h0.ipv4.value.ihl - 5 <= L4Length(h0)
    ensures PacketVerifies(packet) <==>
            if h0.udp.Some? then
              h0.ipv4.value.ihl <= 6
              || Congruent(Csum(h0), Plus16(Len(h0), SOURCE_GROWTH + NODE_GROWTH * |hops|) - Len(h0))
            else h0.ipv4.value.ihl <= 9 || Csum(h0) == 0 || Csum(h0) == 0xffff
  {
    hide Deparse, Delivered, Congruent;
    PathChecksumExact(hops, h0, payload, h, packet);
    var n := h0.ipv4.value.ihl - 5;
    hide HasHeader, PacketVerifies, PacketExact, WordSum, Displaced, Plus16;
    ZeroChange(Csum(h0), Plus16(Len(h0), SOURCE_GROWTH + NODE_GROWTH * |hops|) - Len(h0));
  }

  lemma ZeroChange(csum: U16, grown: int)
    ensures Congruent(grown - csum, 0) <==> Congruent(csum, grown)
    ensures Congruent(0 - csum as int, 0) <==> csum == 0 || csum == 0xffff
    ensures Congruent(0, 0)
  {}

  /**
   What the program extracts from a UDP packet whose IPv4 header has seven words: it takes the
   options, eight no-operations, for the UDP header.
   */
  function OptionsWitness(): HeaderSet {
    NO_HEADERS.(
      ethernet := Some(Ethernet(0, 0, ETHERTYPE_IPV4)),
      ipv4 := Some(Ipv4(4, 7, 0, 0, 40, 0, 0, 0, 64, PROTOCOL_UDP, 24767, 0x0a000001, 0x0a000002)),
      udp := Some(Udp(0x0101, 0x0101, 0x0101, 0x0101)))
  }

  /** The datagram behind the options: ports 5000 and 5001, length 12, no checksum, four bytes. */
  const DATAGRAM: seq<Byte> := [0x13, 0x88, 0x13, 0x89, 0, 12, 0, 0, 1, 2, 3, 4]

  /** A source makes the packet's valid header checksum invalid. */
  lemma {:induction false} OptionsBreakChecksum(hop: Hop)
    requires hop.cfg.srcEnable && !hop.cfg.sinkEnable
    ensures var packet := Deparse(OptionsWitness()) + DATAGRAM;
            && |packet| == IPV4_AT + OptionsWitness().ipv4.value.totalLen
            && PacketVerifies(packet)
            && var out := Process(hop.cfg, packet, hop.md, hop.seqNo);
               out.Some? && !PacketVerifies(out.value)
  {
    hide Deparse, Delivered, PacketVerifies;
    var h0 := OptionsWitness();
    WitnessVerifies();
    var h := FirstNode(hop, h0, DATAGRAM);
    var out := Process(hop.cfg, Deparse(h0) + DATAGRAM, hop.md, hop.seqNo);
    PathKeepsExactly([hop], h0, DATAGRAM, h, out.value);
  }

  lemma WitnessVerifies()
    ensures |Deparse(OptionsWitness()) + DATAGRAM| == IPV4_AT + 40
    ensures PacketVerifies(Deparse(OptionsWitness()) + DATAGRAM)
  {
    hide Deparse, HasHeader, HeaderWords, PacketVerifies, FirstWords;
    var h := OptionsWitness();
    var packet := Deparse(h) + DATAGRAM;
    Layout(h, DATAGRAM);
    HeaderSum(h, DATAGRAM);
    Ipv4WordSum(h.ipv4.value);
    WordSumOne(0x0a000001);
    WordSumOne(0x0a000002);
    AllInFront(Tail(h), DATAGRAM, 2);
    WholePrefix(Tail(h));
    UdpPrefix(h.udp.value, 2);
    VerifiesExactly(packet);
  }
}
