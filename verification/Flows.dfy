/**
 The flow table in terms of what a reader of the reports can see: the two addresses.  In any
 interleaving of flows, what is reported for a pair of addresses depends on the packets between
 these two alone.
 */
module Flows {
  import opened Bytes
  import opened Telemetry
  import opened Decoder

  predicate AllReadable(packets: seq<seq<Byte>>) {
    forall i :: 0 <= i < |packets| ==> Readable(packets[i])
  }

  /** A report packet on traffic from `src` to `dst`. */
  predicate Between(packet: seq<Byte>, src: seq<Byte>, dst: seq<Byte>) {
    |packet| >= 22 && packet[14..18] == src && packet[18..22] == dst
  }

  function PacketsBetween(packets: seq<seq<Byte>>, src: seq<Byte>, dst: seq<Byte>): seq<seq<Byte>> {
    if packets == [] then []
    else (if Between(packets[0], src, dst) then [packets[0]] else []) + PacketsBetween(packets[1..], src, dst)
  }

  /** The flow fields of the reports that name `src` and `dst`, in order. */
  function FieldsBetween(reports: seq<Report>, src: seq<Byte>, dst: seq<Byte>): seq<FlowFields> {
    if reports == [] then []
    else
      (if reports[0].srcIp == src && reports[0].dstIp == dst then [FieldsOf(reports[0])] else [])
      + FieldsBetween(reports[1..], src, dst)
  }

  /** The packets between two addresses are those of one key, whichever of them it is taken from. */
  lemma BetweenIsOfKey(packet: seq<Byte>, other: seq<Byte>, src: seq<Byte>, dst: seq<Byte>)
    requires Readable(packet) && Readable(other) && Between(packet, src, dst)
    ensures Between(other, src, dst) <==> ReadSample(other).mapKey == ReadSample(packet).mapKey
    ensures Between(other, src, dst) <==> ReadSample(other).srcIp == src && ReadSample(other).dstIp == dst
  {
    hide Load64, Load32, Load16, Ntoh64, Ntohl, Ntohs, ReadHop, MetaCnt;
    SameFlowSameAddresses(packet, other);
  }

  lemma {:induction false} ReadableBetween(packets: seq<seq<Byte>>, src: seq<Byte>, dst: seq<Byte>)
    requires AllReadable(packets)
    ensures AllReadable(PacketsBetween(packets, src, dst))
    decreases |packets|
  {
    hide Readable, Between;
    if packets != [] {
      ReadableBetween(packets[1..], src, dst);
    }
  }

  lemma FirstSample(packets: seq<seq<Byte>>)
    requires AllReadable(packets) && packets != []
    ensures Samples(packets)[0] == ReadSample(packets[0]) && Samples(packets)[1..] == Samples(packets[1..])
  {
    hide ReadSample, Readable;
  }

  lemma ReportNames(st: State, s: Sample, tstmp: bool)
    requires StateOk(st) && SampleOk(s)
    ensures ReportIn(st, s, tstmp).srcIp == s.srcIp && ReportIn(st, s, tstmp).dstIp == s.dstIp
  {}

  /** Selecting by key and by addresses is the same. */
  lemma {:induction false} SelectsSame(st: State, packets: seq<seq<Byte>>, tstmp: bool, packet: seq<Byte>,
                                       src: seq<Byte>, dst: seq<Byte>)
    requires StateOk(st) && AllReadable(packets) && Readable(packet) && Between(packet, src, dst)
    ensures AllReadable(PacketsBetween(packets, src, dst))
    ensures var key, samples := ReadSample(packet).mapKey, Samples(packets);
            && OfFlow(samples, key) == Samples(PacketsBetween(packets, src, dst))
            && ReportedFields(samples, Reports(st, samples, tstmp), key)
               == FieldsBetween(Reports(st, samples, tstmp), src, dst)
    decreases |packets|
  {
    hide Readable, ReadSample, Between, ReportIn, StateAfter, SampleOk, Samples;
    ReadableBetween(packets, src, dst);
    var samples := Samples(packets);
    var rs := Reports(st, samples, tstmp);
    if packets != [] {
      FirstSample(packets);
      var st' := StateAfter(st, samples[0]);
      SelectsSame(st', packets[1..], tstmp, packet, src, dst);
      BetweenIsOfKey(packet, packets[0], src, dst);
      ReportNames(st, samples[0], tstmp);
      assert rs[1..] == Reports(st', samples[1..], tstmp);
      var own := PacketsBetween(packets, src, dst);
      if Between(packets[0], src, dst) {
        FirstSample(own);
        assert own[1..] == PacketsBetween(packets[1..], src, dst);
      } else {
        assert own == PacketsBetween(packets[1..], src, dst);
      }
    }
  }

  /**
   No flow is mixed up with another.  Over any stream of packets, the reports that name two
   addresses carry the fields they would carry if only the packets between these two had come.
   */
  lemma {:induction false} PairsDoNotInterfere(st: State, packets: seq<seq<Byte>>, tstmp: bool,
                                               src: seq<Byte>, dst: seq<Byte>)
    requires StateOk(st) && AllReadable(packets)
    ensures var own := PacketsBetween(packets, src, dst);
            && AllReadable(own)
            && FieldsBetween(Reports(st, Samples(packets), tstmp), src, dst)
               == FieldsBetween(Reports(st, Samples(own), tstmp), src, dst)
            && |FieldsBetween(Reports(st, Samples(own), tstmp), src, dst)| == |own|
  {
    hide Reports, Samples, ReadSample, Readable, Between, SampleOk;
    ReadableBetween(packets, src, dst);
    var own := PacketsBetween(packets, src, dst);
    OnlyBetween(packets, src, dst);
    if own == [] {
      NoneBetween(st, packets, tstmp, src, dst);
      NoneBetween(st, own, tstmp, src, dst);
    } else {
      var packet := own[0];
      var key := ReadSample(packet).mapKey;
      SelectsSame(st, packets, tstmp, packet, src, dst);
      SelectsSame(st, own, tstmp, packet, src, dst);
      OtherFlowsDoNotMatter(st, Samples(packets), tstmp, key);
      OneFlow(st, Samples(own), tstmp, key);
    }
  }

  /** From a fresh start: each pair of addresses is a flow of its own that begins at zero. */
  lemma {:induction false} FreshPairs(prev: seq<U64>, packets: seq<seq<Byte>>, tstmp: bool,
                                      src: seq<Byte>, dst: seq<Byte>)
    requires |prev| == MAX_NODES && AllReadable(packets)
    ensures AllReadable(PacketsBetween(packets, src, dst))
    ensures FieldsBetween(Reports(State(map[], prev), Samples(packets), tstmp), src, dst)
            == FlowAlone(FlowMeta(0, 0), Samples(PacketsBetween(packets, src, dst)))
  {
    hide Reports, Samples, ReadSample, Readable, Between, SampleOk, FlowPart, FlowAfter;
    var st, own := State(map[], prev), PacketsBetween(packets, src, dst);
    ReadableBetween(packets, src, dst);
    OnlyBetween(packets, src, dst);
    if own == [] {
      NoneBetween(st, packets, tstmp, src, dst);
    } else {
      SelectsSame(st, packets, tstmp, own[0], src, dst);
      FlowsDoNotInterfere(st, Samples(packets), tstmp, ReadSample(own[0]).mapKey);
    }
  }

  /** What is selected is between the two addresses, and selecting again changes nothing. */
  lemma {:induction false} OnlyBetween(packets: seq<seq<Byte>>, src: seq<Byte>, dst: seq<Byte>)
    ensures var own := PacketsBetween(packets, src, dst);
            && (forall i :: 0 <= i < |own| ==> Between(own[i], src, dst))
            && PacketsBetween(own, src, dst) == own
            && (forall i :: 0 <= i < |packets| && Between(packets[i], src, dst) ==> own != [])
    decreases |packets|
  {
    hide Between;
    if packets != [] {
      OnlyBetween(packets[1..], src, dst);
      var own := PacketsBetween(packets, src, dst);
      if Between(packets[0], src, dst) {
        assert own[1..] == PacketsBetween(packets[1..], src, dst);
      } else {
        assert own == PacketsBetween(packets[1..], src, dst);
        forall i | 0 <= i < |packets| && Between(packets[i], src, dst)
          ensures own != []
        {
          assert packets[i] == packets[1..][i - 1];
        }
      }
    }
  }

  lemma {:induction false} NoneBetween(st: State, packets: seq<seq<Byte>>, tstmp: bool, src: seq<Byte>, dst: seq<Byte>)
    requires StateOk(st) && AllReadable(packets)
    requires forall i :: 0 <= i < |packets| ==> !Between(packets[i], src, dst)
    ensures FieldsBetween(Reports(st, Samples(packets), tstmp), src, dst) == []
    decreases |packets|
  {
    hide ReportIn, StateAfter, SampleOk, Samples;
    var samples := Samples(packets);
    var rs := Reports(st, samples, tstmp);
    if packets != [] {
      FirstSample(packets);
      NamesPlaces(packets[0]);
      hide ReadSample, Readable;
      var st' := StateAfter(st, samples[0]);
      NoneBetween(st', packets[1..], tstmp, src, dst);
      ReportNames(st, samples[0], tstmp);
      assert rs[1..] == Reports(st', samples[1..], tstmp);
    }
  }

  lemma NamesPlaces(packet: seq<Byte>)
    requires Readable(packet)
    ensures |packet| >= 22 && ReadSample(packet).srcIp == packet[14..18] && ReadSample(packet).dstIp == packet[18..22]
  {
    hide Load64, Load32, Load16, Ntoh64, Ntohl, Ntohs, ReadHop, MetaCnt;
  }

  /** A stream of one flow alone reports on every packet. */
  lemma {:induction false} OneFlow(st: State, samples: seq<Sample>, tstmp: bool, key: U64)
    requires StateOk(st) && StreamOk(samples) && OfFlow(samples, key) == samples
    ensures |ReportedFields(samples, Reports(st, samples, tstmp), key)| == |samples|
  {
    FlowsDoNotInterfere(st, samples, tstmp, key);
    AloneLength(FlowAt(st.flows, key), samples);
  }

  lemma {:induction false} AloneLength(f: FlowMeta, samples: seq<Sample>)
    ensures |FlowAlone(f, samples)| == |samples|
    decreases |samples|
  {
    if samples != [] {
      AloneLength(FlowAfter(f, samples[0]), samples[1..]);
    }
  }
}
