/**
 How the collector reads a report packet.  The structures of `p4int.cc` are overlaid on the
 receive buffer, so every field is loaded in host order, little endian here, and then byte
 swapped.
 */
module Decoder {
  import opened Bytes
  import opened Telemetry

  const PKT_BUF_SIZE := 65536
  const INFLUX_AT := 14     // past the Ethernet header
  const METADATA_AT := 50   // past int_influx_t
  const METADATA_SIZE := 24

  function Load16(bs: seq<Byte>, at: nat): U16
    requires at + 2 <= |bs|
  {
    bs[at] + bs[at + 1] * TWO8
  }

  function Load32(bs: seq<Byte>, at: nat): U32
    requires at + 4 <= |bs|
  {
    bs[at] + bs[at + 1] * TWO8 + bs[at + 2] * TWO16 + bs[at + 3] * TWO24
  }

  function Load64(bs: seq<Byte>, at: nat): U64
    requires at + 8 <= |bs|
  {
    Load32(bs, at) + Load32(bs, at + 4) * TWO32
  }

  function Ntohs(value: U16): U16 {
    value % TWO8 * TWO8 + value / TWO8
  }

  function Ntohl(value: U32): U32 {
    Word4(value % TWO8, value / TWO8 % TWO8, value / TWO16 % TWO8, value / TWO24)
  }

  /** `ntoh64`: the byte at bit `shift` of the input goes to the opposite end of the result. */
  function Ntoh64(value: U64): U64 {
    var low, high := value % TWO32, value / TWO32;
    (high / TWO24) + (high / TWO16 % TWO8) * TWO8 + (high / TWO8 % TWO8) * TWO16 + (high % TWO8) * TWO24
    + ((low / TWO24) + (low / TWO16 % TWO8) * TWO8 + (low / TWO8 % TWO8) * TWO16 + (low % TWO8) * TWO24) * TWO32
  }

  lemma NtohsReads(bs: seq<Byte>, at: nat)
    requires at + 2 <= |bs|
    ensures Ntohs(Load16(bs, at)) == bs[at] * TWO8 + bs[at + 1]
  {}

  lemma {:induction false} NtohlReads(bs: seq<Byte>, at: nat)
    requires at + 4 <= |bs|
    ensures Ntohl(Load32(bs, at)) == WordAt(bs, at)
  {
    BytesOfWord(bs[at + 3], bs[at + 2], bs[at + 1], bs[at]);
  }

  /** Swapping eight bytes swaps each half and exchanges the halves. */
  lemma Ntoh64SwapsHalves(low: U32, high: U32)
    ensures Ntoh64(low + high * TWO32) == Ntohl(high) + Ntohl(low) * TWO32
  {
    HalvesOf64(low, high);
  }

  lemma HalvesOf64(low: U32, high: U32)
    ensures (low + high * TWO32) % TWO32 == low && (low + high * TWO32) / TWO32 == high
  {}

  lemma {:induction false} Ntoh64Reads(bs: seq<Byte>, at: nat)
    requires at + 8 <= |bs|
    ensures Ntoh64(Load64(bs, at)) == WordAt(bs, at) * TWO32 + WordAt(bs, at + 4)
  {
    hide Load32, Ntohl, Ntoh64, WordAt;
    Ntoh64SwapsHalves(Load32(bs, at), Load32(bs, at + 4));
    NtohlReads(bs, at);
    NtohlReads(bs, at + 4);
  }

  /** Buffers on which the code neither divides by zero nor writes past `prev_timestamps`. */
  predicate Readable(buff: seq<Byte>) {
    && |buff| == PKT_BUF_SIZE
    && buff[INFLUX_AT + 13] != 0
    && MetaCnt(buff) < MAX_NODES
  }

  /** `meta_len / hop_meta_len` */
  function MetaCnt(buff: seq<Byte>): U8
    requires |buff| == PKT_BUF_SIZE && buff[INFLUX_AT + 13] != 0
  {
    buff[INFLUX_AT + 12] / buff[INFLUX_AT + 13]
  }

  function ReadHop(buff: seq<Byte>, i: nat): HopTimes
    requires |buff| == PKT_BUF_SIZE && i <= 255
  {
    var at := METADATA_AT + METADATA_SIZE * i;
    HopTimes(Ntoh64(Load64(buff, at + 8)), Ntoh64(Load64(buff, at + 16)))
  }

  function ReadSample(buff: seq<Byte>): (s: Sample)
    requires Readable(buff)
    ensures SampleOk(s)
  {
    Sample(Load64(buff, INFLUX_AT),
           buff[INFLUX_AT..INFLUX_AT + 4], buff[INFLUX_AT + 4..INFLUX_AT + 8],
           Ntohs(Load16(buff, INFLUX_AT + 8)), Ntohs(Load16(buff, INFLUX_AT + 10)),
           Ntoh64(Load64(buff, INFLUX_AT + 16)), Ntohl(Load32(buff, INFLUX_AT + 32)),
           ReadHop(buff, 0),
           seq(MetaCnt(buff), i requires 0 <= i < MetaCnt(buff) => ReadHop(buff, i)))
  }

  /** What the collector reads of a stream of packets. */
  function Samples(packets: seq<seq<Byte>>): (samples: seq<Sample>)
    requires forall i :: 0 <= i < |packets| ==> Readable(packets[i])
    ensures |samples| == |packets| && StreamOk(samples)
  {
    seq(|packets|, i requires 0 <= i < |packets| => ReadSample(packets[i]))
  }

  lemma SampleAt(packets: seq<seq<Byte>>, i: nat)
    requires i < |packets| && forall i :: 0 <= i < |packets| ==> Readable(packets[i])
    ensures Samples(packets)[i] == ReadSample(packets[i])
  {}

  /** The map key is the address pair: no two pairs share one. */
  lemma {:induction false} KeyIsAddressPair(a: seq<Byte>, b: seq<Byte>)
    requires |a| == |b| == PKT_BUF_SIZE
    ensures Load64(a, INFLUX_AT) == Load64(b, INFLUX_AT) <==> a[INFLUX_AT..INFLUX_AT + 8] == b[INFLUX_AT..INFLUX_AT + 8]
  {
    hide Load32;
    HalvesOf64(Load32(a, INFLUX_AT), Load32(a, INFLUX_AT + 4));
    HalvesOf64(Load32(b, INFLUX_AT), Load32(b, INFLUX_AT + 4));
    SameWord(a, b, INFLUX_AT);
    SameWord(a, b, INFLUX_AT + 4);
    TwoFours(a);
    TwoFours(b);
  }

  /** So two packets are of one flow if and only if their reports name the same two addresses. */
  lemma {:induction false} SameFlowSameAddresses(a: seq<Byte>, b: seq<Byte>)
    requires Readable(a) && Readable(b)
    ensures ReadSample(a).mapKey == ReadSample(b).mapKey <==>
            ReadSample(a).srcIp == ReadSample(b).srcIp && ReadSample(a).dstIp == ReadSample(b).dstIp
  {
    hide Load64, Load32, Load16, Ntoh64, Ntohl, Ntohs, ReadHop, MetaCnt;
    KeyIsAddressPair(a, b);
    TwoFours(a);
    TwoFours(b);
  }

  /** Eight bytes are the first four and the last four. */
  lemma TwoFours(bs: seq<Byte>)
    requires |bs| == PKT_BUF_SIZE
    ensures bs[INFLUX_AT..INFLUX_AT + 8] == bs[INFLUX_AT..INFLUX_AT + 4] + bs[INFLUX_AT + 4..INFLUX_AT + 8]
    ensures bs[INFLUX_AT..INFLUX_AT + 8][..4] == bs[INFLUX_AT..INFLUX_AT + 4]
    ensures bs[INFLUX_AT..INFLUX_AT + 8][4..] == bs[INFLUX_AT + 4..INFLUX_AT + 8]
  {}

  lemma {:induction false} SameWord(a: seq<Byte>, b: seq<Byte>, at: nat)
    requires at + 4 <= |a| && at + 4 <= |b|
    ensures Load32(a, at) == Load32(b, at) <==> a[at..at + 4] == b[at..at + 4]
  {
    BytesOfWord(a[at + 3], a[at + 2], a[at + 1], a[at]);
    BytesOfWord(b[at + 3], b[at + 2], b[at + 1], b[at]);
    hide ByteOf;
    assert a[at..at + 4] == [a[at], a[at + 1], a[at + 2], a[at + 3]];
    assert b[at..at + 4] == [b[at], b[at + 1], b[at + 2], b[at + 3]];
    if a[at..at + 4] == b[at..at + 4] {
      assert a[at..at + 4][0] == b[at..at + 4][0];
      assert a[at..at + 4][1] == b[at..at + 4][1];
      assert a[at..at + 4][2] == b[at..at + 4][2];
      assert a[at..at + 4][3] == b[at..at + 4][3];
    }
  }
}
