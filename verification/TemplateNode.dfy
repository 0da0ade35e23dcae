/**
 A template transit node as it runs: table actions that set headers and move counters, the
 control around them, and the deparser that feeds the checksum extern field by field.  Each
 step is proved to do what the functions of `Template` and `TemplateChecksum` say.
 */
module TemplateNodes {
  import opened Bytes
  import opened Options
  import opened Headers
  import opened Checksum
  import opened Template
  import opened TemplateChecksum

  /** The `InternetChecksum` extern. */
  class InternetChecksum {
    var sum: U16

    constructor ()
      ensures sum == 0
    {
      sum := 0;
    }

    method Clear()
      modifies this
      ensures sum == 0
    {
      sum := 0;
    }

    method Add(data: seq<U16>)
      modifies this
      ensures sum == AddAll(old(sum), data)
    {
      for k := 0 to |data|
        invariant sum == AddAll(old(sum), data[..k])
      {
        assert data[..k + 1][..k] == data[..k];
        sum := OnesAdd(sum, data[k]);
      }
      assert data[..|data|] == data;
    }

    method Subtract(value: U16)
      modifies this
      ensures sum == OnesAdd(old(sum), Not16(value))
    {
      sum := OnesAdd(sum, Not16(value));
    }

    function Get(): U16
      reads this
    {
      Not16(sum)
    }
  }

  lemma NothingYet()
    ensures AddAll(0, Complements([])) == 0
  {}

  /** One more value subtracted. */
  lemma {:induction false} SubtractNext(ws: seq<U16>, x: U16)
    ensures AddAll(0, Complements(ws + [x])) == OnesAdd(AddAll(0, Complements(ws)), Not16(x))
  {
    ComplementsNext(ws, x);
    var c := Complements(ws);
    assert (c + [Not16(x)])[..|c|] == c;
  }

  lemma {:induction false} ComplementsNext(ws: seq<U16>, x: U16)
    ensures Complements(ws + [x]) == Complements(ws) + [Not16(x)]
  {
    if ws == [] {
      assert [x][1..] == [];
    } else {
      ComplementsNext(ws[1..], x);
      assert (ws + [x])[1..] == ws[1..] + [x];
    }
  }

  /** Neither counter wraps. */
  lemma CounterValues(mask: U16)
    ensures var a, b := Inst0003(UpperNibble(mask)).words, Inst0407(LowerNibble(mask)).words;
            && Plus16(Plus16(0, 4 * a), 4 * b) == 4 * WordsOf(mask)
            && ((0 + a) % TWO8 + b) % TWO8 == WordsOf(mask)
  {
    UpperWidth(UpperNibble(mask));
    LowerWidth(LowerNibble(mask));
    hide Inst0003, Inst0407, UpperNibble, LowerNibble, WidthOf;
  }

  class TemplateNode {
    const limits: Limits
    const ck: InternetChecksum
    var hdr: THeaders
    var insertByteCnt: U16
    var intHdrWordLen: U8
    var ckHelper: Saved

    constructor (limits: Limits, hdr: THeaders)
      ensures this.limits == limits && this.hdr == hdr && fresh(ck)
    {
      this.limits := limits;
      this.hdr := hdr;
      insertByteCnt := 0;
      intHdrWordLen := 0;
      ckHelper := Saved(0, 0, 0, 0);
      ck := new InternetChecksum();
    }

    /** `add_1` to `add_6`. */
    method AddWords(n: nat)
      modifies this`insertByteCnt, this`intHdrWordLen
      ensures insertByteCnt == Plus16(old(insertByteCnt), 4 * n)
      ensures intHdrWordLen == (old(intHdrWordLen) + n) % TWO8
    {
      intHdrWordLen := (intHdrWordLen + n) % TWO8;
      insertByteCnt := (insertByteCnt + 4 * n) % TWO16;
    }

    /** `int_set_header_0` to `int_set_header_7`. */
    method SetHeader(k: nat)
      modifies this`hdr
      ensures hdr == old(hdr).(added := old(hdr).added + {k})
    {
      hdr := hdr.(added := hdr.added + {k});
    }

    /** The table on the upper nibble of the mask. */
    method ApplyInst0003(nibble: U4)
      modifies this`hdr, this`insertByteCnt, this`intHdrWordLen
      ensures hdr == old(hdr).(added := old(hdr).added + Inst0003(nibble).headers)
      ensures insertByteCnt == Plus16(old(insertByteCnt), 4 * Inst0003(nibble).words)
      ensures intHdrWordLen == (old(intHdrWordLen) + Inst0003(nibble).words) % TWO8
    {
      match nibble
      case 0 =>
      case 1 => SetHeader(3); AddWords(1);
      case 2 => SetHeader(2); AddWords(1);
      case 3 => SetHeader(5); SetHeader(2); AddWords(3);
      case 4 => SetHeader(1); AddWords(1);
      case 5 => SetHeader(3); SetHeader(1); AddWords(2);
      case 6 => SetHeader(2); SetHeader(1); AddWords(2);
      case 7 => SetHeader(3); SetHeader(2); SetHeader(1); AddWords(3);
      case 8 => SetHeader(0); AddWords(1);
      case 9 => SetHeader(3); SetHeader(0); AddWords(2);
      case 10 => SetHeader(2); SetHeader(0); AddWords(2);
      case 11 => SetHeader(3); SetHeader(2); SetHeader(0); AddWords(3);
      case 12 => SetHeader(1); SetHeader(0); AddWords(2);
      case 13 => SetHeader(3); SetHeader(1); SetHeader(0); AddWords(3);
      case 14 => SetHeader(2); SetHeader(1); SetHeader(0); AddWords(3);
      case _ => SetHeader(3); SetHeader(2); SetHeader(1); SetHeader(0); AddWords(4);
      assert hdr.added == old(hdr).added + Inst0003(nibble).headers;
    }

    /** The table on the lower nibble. */
    method ApplyInst0407(nibble: U4)
      modifies this`hdr, this`insertByteCnt, this`intHdrWordLen
      ensures hdr == old(hdr).(added := old(hdr).added + Inst0407(nibble).headers)
      ensures insertByteCnt == Plus16(old(insertByteCnt), 4 * Inst0407(nibble).words)
      ensures intHdrWordLen == (old(intHdrWordLen) + Inst0407(nibble).words) % TWO8
    {
      match nibble
      case 0 =>
      case 1 => SetHeader(7); AddWords(1);
      case 2 => SetHeader(6); AddWords(1);
      case 3 => SetHeader(7); SetHeader(6); AddWords(2);
      case 4 => SetHeader(5); AddWords(2);
      case 5 => SetHeader(7); SetHeader(5); AddWords(3);
      case 6 => SetHeader(6); SetHeader(5); AddWords(3);
      case 7 => SetHeader(7); SetHeader(6); SetHeader(5); AddWords(4);
      case 8 => SetHeader(4); AddWords(2);
      case 9 => SetHeader(7); SetHeader(4); AddWords(3);
      case 10 => SetHeader(6); SetHeader(4); AddWords(3);
      case 11 => SetHeader(7); SetHeader(6); SetHeader(4); AddWords(4);
      case 12 => SetHeader(5); SetHeader(4); AddWords(4);
      case 13 => SetHeader(7); SetHeader(5); SetHeader(4); AddWords(5);
      case 14 => SetHeader(6); SetHeader(5); SetHeader(4); AddWords(5);
      case _ => SetHeader(7); SetHeader(6); SetHeader(5); SetHeader(4); AddWords(6);
      assert hdr.added == old(hdr).added + Inst0407(nibble).headers;
    }

    /** The part of the control that handles a packet with an INT header. */
    method ApplyInt()
      requires hdr.intHeader.Some? && (hdr.udp.Some? || hdr.tcp.Some?)
      modifies this`hdr, this`insertByteCnt, this`intHdrWordLen
      ensures hdr == Transit(limits, old(hdr))
    {
      hide Inst0003, Inst0407;
      var ih := hdr.intHeader.value;
      if ih.hopInfo != Minus16(limits.hopInfo, limits.maxHop) {
        hdr := hdr.(intHeader := Some(ih.(hopInfo := Minus16(ih.hopInfo, 1))));
        insertByteCnt, intHdrWordLen := 0, 0;
        ApplyInst0003(ih.mask / 16 % 16);
        ApplyInst0407(ih.mask % 16);
        CounterValues(ih.mask);
        hdr := hdr.(ipv4 := hdr.ipv4.(totalLen := Plus16(hdr.ipv4.totalLen, insertByteCnt)));
        if hdr.udp.Some? {
          hdr := hdr.(udp := Some(hdr.udp.value.(len := Plus16(hdr.udp.value.len, insertByteCnt))));
        }
        if hdr.shim.Some? {
          hdr := hdr.(shim := Some(hdr.shim.value.(len := (hdr.shim.value.len + intHdrWordLen) % TWO8)));
        }
        assert hdr.added == old(hdr).added + HeadersOf(ih.mask);
      } else if ih.cE == 0 || ih.cE == 0x100 {
        hdr := hdr.(intHeader := Some(ih.(cE := ih.cE + 1)));
      }
    }

    /** The control's body. */
    method ApplyIngress()
      modifies this`hdr, this`insertByteCnt, this`intHdrWordLen, this`ckHelper
      ensures hdr == Transit(limits, old(hdr)) && ckHelper == Save(old(hdr))
    {
      hide WordsOf, HeadersOf;
      ckHelper := Saved(0, 0, 0, 0);
      if hdr.udp.Some? || hdr.tcp.Some? {
        ckHelper := Saved(UdpLen(hdr), ShimLen(hdr), HopInfo(hdr), hdr.ipv4.totalLen);
        if hdr.intHeader.Some? {
          ApplyInt();
        }
      }
    }

    /** The deparser's first half: the IPv4 header checksum. */
    method UpdateIpv4Checksum()
      modifies this`hdr, ck
      ensures hdr == old(hdr).(ipv4 := old(hdr).ipv4.(hdrChecksum :=
                NewChecksum([old(hdr).ipv4.hdrChecksum, ckHelper.totalLen], [old(hdr).ipv4.totalLen])))
    {
      var a, b := hdr.ipv4.hdrChecksum, ckHelper.totalLen;
      ck.Clear();
      ck.Subtract(a);
      SubtractNext([], a);
      ck.Subtract(b);
      SubtractNext([a], b);
      assert [a] + [b] == [a, b];
      ck.Add([hdr.ipv4.totalLen]);
      hdr := hdr.(ipv4 := hdr.ipv4.(hdrChecksum := ck.Get()));
    }

    /** Its second half: the UDP checksum, if there is one. */
    method UpdateUdpChecksum(ctx: Context)
      modifies this`hdr, ck
      ensures hdr == old(hdr).(udp := if old(hdr).udp.None? then None else
                Some(old(hdr).udp.value.(csum := NewChecksum(UdpSubtracted(old(hdr), ckHelper),
                  UdpAdded(old(hdr), ctx)))))
    {
      hide Fields, AddAll, Complements;
      var a, b, c, d := UdpCsum(hdr), ckHelper.udpLen, ckHelper.shimLen * 256, ckHelper.hop;
      ck.Clear();
      NothingYet();
      ck.Subtract(a);
      assert [] + [a] == [a];
      SubtractNext([], a);
      ck.Subtract(b);
      SubtractNext([a], b);
      ck.Subtract(b);
      assert [a] + [b] == [a, b];
      SubtractNext([a, b], b);
      ck.Subtract(c);
      assert [a, b] + [b] == [a, b, b];
      SubtractNext([a, b, b], c);
      ck.Subtract(d);
      assert [a, b, b] + [c] == [a, b, b, c];
      SubtractNext([a, b, b, c], d);
      assert [a, b, b, c] + [d] == UdpSubtracted(hdr, ckHelper);
      ck.Add([UdpLen(hdr), UdpLen(hdr), ShimLen(hdr) * 256, HopInfo(hdr)] + Fields(ctx, hdr.added, 8));
      if hdr.udp.Some? {
        hdr := hdr.(udp := Some(hdr.udp.value.(csum := ck.Get())));
      }
    }

    /** The deparser's body: what it sends. */
    method ApplyDeparser(ctx: Context, payload: seq<Byte>) returns (out: TPacket)
      modifies this`hdr, ck
      ensures out == Deparse(old(hdr), ckHelper, ctx, payload)
    {
      hide Fields, NewChecksum, Bytes16, AddedWords;
      UpdateIpv4Checksum();
      UpdateUdpChecksum(ctx);
      out := TPacket(hdr.(added := {}), Bytes16(AddedWords(ctx, hdr.added, 8)) + payload);
    }

    /** One packet, from the parsed headers to what goes out. */
    method Handle(ctx: Context, p: TPacket) returns (out: TPacket)
      modifies this, ck
      ensures out == Node(limits, ctx, p)
    {
      hide Transit, Deparse, Save;
      hdr := p.h;
      ApplyIngress();
      out := ApplyDeparser(ctx, p.payload);
    }
  }
}
