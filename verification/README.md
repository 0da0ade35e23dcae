# In-band network telemetry: verified model

A Dafny model of an in-band telemetry (INT) system and proofs about it. The system has
four parts, and they meet at a byte format.

* **The t4p4s data plane** (`int_t4p4s_dpdk/p4src/int_v1.0`). A source node inserts INT
  headers into a UDP or TCP packet, every node adds its own metadata, and a sink turns the
  packet into a report. Files `Bytes`, `Headers`, `Parser`, `Checksum`, `Dataplane`, `Path`,
  `HeaderCheck`, byte by byte `Layout`, `NodesOnWire`, `PathOnWire` and, as the code runs,
  `Switch`.
* **The collector** (`int_t4p4s_dpdk/p4int_influxdb`). It decodes reports, computes delays,
  jitter and reordering from per-flow and per-slot state, samples, and deals the results
  round-robin over rings to sender threads that batch and send them. Files `Decoder`,
  `Telemetry`, `Flows`, `Collector`, `RingBuffer`, `Exporter`, `Calls`, `Senders`, `Records`.
* **Its concurrency**. `Spsc` models the lock-free ring with each load, slot access and
  store as a step of its own; an acquire load may return any value of the other side's
  index from the last one seen to the current one. `Pipeline` composes the receive
  thread, all rings and all sender threads from those steps, `Refusal` says what a
  failing `sendData` means, and `SenderRuns` carries the theorems about one sender's polls
  into every run.
* **The p4c-dpdk template** (`int_p4c-dpdk/src`), as generated for a transit node: hop
  limit, mask-driven metadata, incremental IPv4 and UDP checksums. Files `Template`,
  `TemplateChecksum`, `TemplatePath`, `TemplateWire`, `TemplateHeader`, `TemplateReceiver`,
  byte by byte `TemplateMetadata`, `TemplateOnWire` and, as the code runs, `TemplateNode`.

`EndToEnd` joins the data plane to the collector: what the nodes stamped is what the
decoder reads. `PathReport` does so from the bytes on the first wire to the finished report.
`Modular` and `Options` are shared helpers.

## How it is built

Each piece of code that updates state is a class whose methods are proved equal to a
function of the old state (`Switch` to `Parser` and `Dataplane`, `Collector` to `Telemetry`,
`SenderThread` to the functions of `Senders`, `TemplateNode` to `Template` and
`TemplateChecksum`). The theorems are about those functions and about the state machines
of `Spsc` and `Pipeline`. What parser, nodes, metadata and reports are on the wire is stated
once more at byte offsets with the numbers written out, so that a field moved or a constant
changed on both sides of a round trip does not go unnoticed. Integer widths are explicit:
`% TWO16`, `% TWO8`, `Sub64`.

## What the proofs found

* `push` with a stale view of the consumer can refuse although the ring was never full, and
  `pop` although it was never empty (`Spsc.StaleViewRefusesWithRoom`,
  `Spsc.StaleViewRefusesValue`; exact condition in `Spsc.FailsExactlyWhen`). So `sendData`
  can fail while a ring has room (`Refusals.StaleCallFailsWithRoom`). When its loads are no
  staler than the call, a failure means that every ring was full when it began
  (`Refusals.RefusalMeansFull`).
* The t4p4s parser takes twenty bytes for the IPv4 header whatever its length field says, so
  IP options are taken for UDP or TCP and partly rewritten. The header checksum survives a
  path with up to one option word for UDP and four for TCP; beyond that only if the changes
  happen to cancel out (`HeaderChecks.PathKeepsExactly`, `HeaderChecks.OptionsBreakChecksum`).
  The template behaves alike (`TemplateHeader.NodeHeaderExactly`, and for any header length
  `TemplateHeader.NodeHeaderChange`).
* A sink makes a report of every UDP or TCP packet, also of one that never passed a source.
  That report announces metadata of length 0 per node, by which the collector divides
  (`PathReports.PlainAtSinkUnreadable`).
* A source that meets a packet with telemetry starts over: the earlier metadata becomes
  payload, the original DSCP is lost, and both lengths grow by 12 more than the packet
  (`NodesOnWire.RestartOnWire`).
* A TCP packet with sequence number 0 is reported as UDP (`PathReports.CollectorTells`).
  The jitter of the first entry of a report is printed unsigned, that of the others signed
  (`Records.FirstJitterIsUnsigned`).
* The metadata stack is newest first, so the collector's "source" time stamp is the **last**
  node's, and the delay it reports is the delay from the source only when the two stamps
  agree (`EndToEnd.DelayCountsFromLastNode`).
* The 8-bit length of the shim is true up to 42 nodes; a packet survives 85 nodes and no
  more, if packets in parser error are dropped (`Path.PathLengths`,
  `Path.SurvivesUpTo85Nodes`). The collector can decode reports of at most 9 nodes, but also
  of 43 to 52: there the length has wrapped and it reports the newest k - 43 nodes as if they
  were all (`EndToEnd.LongPathsMiscounted`).
* The UDP sender compares with `==`: if reports of `r` lines do not divide the batch size
  it never sends (`Senders.UdpNeverSends`).
* In the template, mask nibble 3 sets the egress time stamp instead of the queue occupancy
  (`Template.MaskSelectsHeaders`, `Template.MaskYields`), and together with bit 0x04 it counts
  that header twice and the length fields overshoot (`TemplatePath.LengthsTrackBytes`); a receiver that checks
  them discards the datagram, with however good a checksum (`TemplateReceiver.AcceptedExactly`).
* The template sets the e bit without updating the UDP checksum: the sum stays valid
  exactly while there are hops left (`TemplatePath.ChecksumSurvivesExactly`, and over raw bytes
  `TemplateWire.HoldsWithinHopLimit`). The source uses up the first of MAX_HOP itself. Whether a
  receiver accepts the datagram depends on its lengths too, and on whether the field comes out
  as zero, which passes unread (`TemplateReceiver.AcceptedExactly`).
  `int_p4c-dpdk/doc/Comparison.md:10` lists checksums as working; the model follows the code.
* The template never sends a UDP checksum of 0xffff, so a checksum that is arithmetically
  zero goes out as 0, which RFC 768 reserves for "no checksum"
  (`TemplateChecksum.CsumIsNeverAllOnes`, `TemplateChecksum.ValidChecksumSentAsNone`). A
  received 0 is treated as any other value.
* For a packet that is neither UDP nor TCP the template's deparser still rewrites the IPv4
  checksum, with nothing saved to subtract (`TemplateHeader.NodeHeaderExactly`,
  `TemplateOnWire.OtherTrafficPasses`). What is subtracted is a field of `ck_helper`, a header
  that is invalid then; that such a field reads as zero is assumed (see "Left out").

## Model

| member | source | states |
|---|---|---|
| `Spsc.StepKeepsInv` | int_t4p4s_dpdk/p4int_influxdb/ringbuffer.h:15-41 | every load, slot access and store of either side, with any staleness of acquire loads, keeps the invariant that ties indices, views, slots and histories together |
| `Spsc.SlotAccessesOrdered` | int_t4p4s_dpdk/p4int_influxdb/ringbuffer.h:17-32 | no data race: a slot is written only after its last read was seen through an acquire load, read only after its write was, and never both at once |
| `Spsc.ContentsArePending` | int_t4p4s_dpdk/p4int_influxdb/ringbuffer.h:15-34 | the slots between the two indices hold exactly the values pushed and not yet popped, in order, at most Size-1 |
| `Spsc.StepRefinesFifo` | int_t4p4s_dpdk/p4int_influxdb/ringbuffer.h:15-34 | each step either leaves the abstract queue alone, appends to a queue with room, or removes its oldest value |
| `Spsc.RunRefinesFifo` | int_t4p4s_dpdk/p4int_influxdb/ringbuffer.h:15-34 | from any state within the invariant, every interleaving is a trace of a FIFO of capacity Size-1 |
| `Spsc.RingIsBoundedFifo` | int_t4p4s_dpdk/p4int_influxdb/ringbuffer.h:13-34 | the same from construction, and at its end the pushed values are the popped ones followed by what memory holds: none lost, duplicated or overwritten |
| `Spsc.FailsExactlyWhen` | int_t4p4s_dpdk/p4int_influxdb/ringbuffer.h:17-30 | when `push` and `pop` give up, in terms of the true contents and how stale the view is, both directions |
| `Spsc.FreshChecksAreExact` | int_t4p4s_dpdk/p4int_influxdb/ringbuffer.h:17-30 | with an up-to-date load, `push` fails if and only if the ring is full and `pop` if and only if it is empty |
| `Spsc.StaleViewRefusesWithRoom` | int_t4p4s_dpdk/p4int_influxdb/ringbuffer.h:17-20 | a concrete run in which a stale load refuses a push although the ring was full at no point of the run, before or after any step |
| `Spsc.StaleViewRefusesValue` | int_t4p4s_dpdk/p4int_influxdb/ringbuffer.h:28-30 | a concrete run in which a stale load refuses a pop although the ring held a value all the while |
| `Spsc.ContentsCount` | int_t4p4s_dpdk/p4int_influxdb/ringbuffer.h:15-34 | what memory holds after any prefix of a run is the number of completed pushes less that of completed pops |
| `Spsc.PushCompletes` | int_t4p4s_dpdk/p4int_influxdb/ringbuffer.h:15-24 | a push that sees room runs to completion, appends exactly its value and leaves the consumer's side alone |
| `Spsc.PopCompletes` | int_t4p4s_dpdk/p4int_influxdb/ringbuffer.h:26-34 | a pop that sees a value returns the oldest one and leaves the producer's side alone |
| `Spsc.NextIsSlot` | int_t4p4s_dpdk/p4int_influxdb/ringbuffer.h:38-41 | `next` of the slot of an unbounded counter is the slot of its successor |
| `RingBuffers.RingBuffer.constructor` | int_t4p4s_dpdk/p4int_influxdb/ringbuffer.h:13-13 | an empty ring |
| `RingBuffers.RingBuffer.Push` | int_t4p4s_dpdk/p4int_influxdb/ringbuffer.h:15-24 | appends the value if and only if fewer than Size-1 are held, else changes nothing |
| `RingBuffers.RingBuffer.Pop` | int_t4p4s_dpdk/p4int_influxdb/ringbuffer.h:26-34 | removes and returns the oldest value if and only if there is one, else leaves the output as it was |
| `Exporters.IntExporter.constructor` | int_t4p4s_dpdk/p4int_influxdb/p4_influxdb.cc:173-191 | one empty ring of its own for each thread, index 0 |
| `Exporters.IntExporter.TryNext` | int_t4p4s_dpdk/p4int_influxdb/p4_influxdb.cc:197-202 | one round of the loop offers the report to the next ring in turn and touches no other |
| `Exporters.IntExporter.SendData` | int_t4p4s_dpdk/p4int_influxdb/p4_influxdb.cc:193-205 | fails if and only if every ring is full, with index and rings unchanged; otherwise appends to exactly one ring, the first in round-robin order that had room |
| `Exporters.SendRound` | int_t4p4s_dpdk/p4int_influxdb/p4_influxdb.cc:193-205 | fairness: while no ring is full, as many calls as there are rings give each exactly one report, dealt in turn, and bring the index back to where it was |
| `Senders.SenderConserves` | int_t4p4s_dpdk/p4int_influxdb/p4_influxdb.cc:92-171 | over any run of either sender, what was sent followed by the pending batch is what was popped, in order |
| `Senders.FlushConserves` | int_t4p4s_dpdk/p4int_influxdb/p4_influxdb.cc:119-126 | handing a batch over and clearing it, whether or not sending threw, loses, repeats and reorders nothing |
| `Senders.HttpReportKeepsInv` | int_t4p4s_dpdk/p4int_influxdb/p4_influxdb.cc:113-128 | the counter is the number of pending lines and below the batch size (unless that is 0), and a send happens exactly when the new report takes the lines to the batch size |
| `Senders.HttpRunKeepsInv` | int_t4p4s_dpdk/p4int_influxdb/p4_influxdb.cc:92-129 | the same after every run, with every batch sent for its size having been below it before its last report |
| `Senders.CollectorRunKeepsInv` | int_t4p4s_dpdk/p4int_influxdb/p4_influxdb.cc:92-129 | for reports as the collector builds them, of at most eleven lines, a bound on the batch size is all it takes |
| `Senders.CollectorReportsAreShort` | int_t4p4s_dpdk/p4int_influxdb/p4int.cc:226-263 | a report has at most eleven lines, its node entries being at most ten |
| `Senders.IdleSenderHasSentAll` | int_t4p4s_dpdk/p4int_influxdb/p4_influxdb.cc:95-111 | after ten polls in a row that found nothing, everything popped has been sent, whatever the batch size and the line counter |
| `Senders.SendsAtTenthEmptyPoll` | int_t4p4s_dpdk/p4int_influxdb/p4_influxdb.cc:95-111 | neither early nor late: on any run, a poll that finds nothing sends if and only if something is pending and it is the tenth such poll in a row, and then exactly what is pending |
| `Senders.WaitsForTenEmptyPolls` | int_t4p4s_dpdk/p4int_influxdb/p4_influxdb.cc:95-111 | after a report, a pending batch stays for nine empty polls, goes out at the tenth, and nothing more is sent however many follow |
| `Senders.SendsAtBatchSize` | int_t4p4s_dpdk/p4int_influxdb/p4_influxdb.cc:113-128 | on any run, a report sends if and only if it takes the pending lines to the batch size, and then all of them |
| `Senders.InvalidHostSendsNothing` | int_t4p4s_dpdk/p4int_influxdb/p4_influxdb.cc:113-113 | without a valid host nothing is collected and nothing sent, by either protocol |
| `Senders.UdpSendsFullBatches` | int_t4p4s_dpdk/p4int_influxdb/p4_influxdb.cc:145-169 | on any run of polls, empty ones included, if the reports have r lines and r divides the batch size, every datagram carries exactly batch/r reports, in order, and fewer are pending |
| `Senders.UdpNeverSends` | int_t4p4s_dpdk/p4int_influxdb/p4_influxdb.cc:158-168 | on any run of polls, if r does not divide the batch size, no datagram is sent until the 32-bit counter wraps |
| `Senders.Lines` | int_t4p4s_dpdk/p4int_influxdb/p4_influxdb.cc:23-72 | one line for the report and one for each node entry: never none |
| `Senders.SenderThread.PollHttp` | int_t4p4s_dpdk/p4int_influxdb/p4_influxdb.cc:92-129 | one poll of the ring takes the oldest report, or counts an empty poll, and moves the thread's variables as the functions the theorems are about |
| `Senders.SenderThread.PollUdp` | int_t4p4s_dpdk/p4int_influxdb/p4_influxdb.cc:147-170 | the same for the UDP sender |
| `Records.AddReport` | int_t4p4s_dpdk/p4int_influxdb/p4_influxdb.cc:23-72 | appends one record for the report and one for each node entry, with the figures each shows, and returns their number |
| `Records.LinesAreRecords` | int_t4p4s_dpdk/p4int_influxdb/p4_influxdb.cc:115-115 | the line counter of a batch is the number of its records |
| `Records.DatagramsAreFull` | int_t4p4s_dpdk/p4int_influxdb/p4_influxdb.cc:156-168 | with uniform reports whose records divide the batch size, every datagram has exactly `batch` records |
| `Records.FirstJitterIsUnsigned` | int_t4p4s_dpdk/p4int_influxdb/p4_influxdb.cc:48-66 | the jitter printed is the signed one for every entry but the first, and for the first exactly when it is below 2^63 |
| `Records.RecordsDetermineReport` | int_t4p4s_dpdk/p4int_influxdb/p4_influxdb.cc:31-66 | the records of a report on at least one node determine the whole report |
| `Pipeline.StepKeepsInv` | int_t4p4s_dpdk/p4int_influxdb/p4int.cc:271-282 | any step of the receive thread or of any sender keeps the whole collector's invariant |
| `Pipeline.RunKeepsInv` | int_t4p4s_dpdk/p4int_influxdb/p4int.cc:488-500 | so does every interleaved run |
| `Pipeline.NothingLost` | int_t4p4s_dpdk/p4int_influxdb/p4int.cc:271-282 | conservation over every run: `sendData` was called for exactly the sampled reports, in order; those pushed plus those dropped are ceil(received / smpl_rate); each ring's pushed reports are, in order, sent, pending, in hand, still in the ring |
| `SenderRuns.RunRefinesSender` | int_t4p4s_dpdk/p4int_influxdb/p4_influxdb.cc:92-171 | in every interleaved run of the collector, each thread's variables are those its own polls lead to |
| `SenderRuns.HttpSendersInRun` | int_t4p4s_dpdk/p4int_influxdb/p4_influxdb.cc:92-129 | so in every run every HTTP sender's counter is its pending lines and its batches are timely, as long as batch size and the lines of the reports received fit 32 bits |
| `SenderRuns.IdleSendersInRun` | int_t4p4s_dpdk/p4int_influxdb/p4_influxdb.cc:95-111 | in every run, an HTTP sender whose last ten polls found nothing has sent all it popped |
| `Calls.SampledIsCeiling` | int_t4p4s_dpdk/p4int_influxdb/p4int.cc:272-272 | one packet in `smpl_rate` is sampled, starting with the first, until the 64-bit counter wraps |
| `Refusals.RefusalMeansFull` | int_t4p4s_dpdk/p4int_influxdb/p4_influxdb.cc:193-205 | with senders popping throughout, a failed call leaves index and pushed histories as they were when it began; a ring was full then if and only if the load that refused it showed every pop made by then; so if all loads of the call are that fresh, or all return the newest index, every ring was full when it began |
| `Refusals.NewestLoadsAreFresh` | int_t4p4s_dpdk/p4int_influxdb/ringbuffer.h:19-19 | loads that return the newest index, as under sequential consistency, are fresh in that sense |
| `Refusals.StaleCallFailsWithRoom` | int_t4p4s_dpdk/p4int_influxdb/p4_influxdb.cc:193-205 | a concrete run of the whole collector in which a call fails although its only ring has room from the beginning of the call to its end |
| `Headers.EthernetRoundTrip` | int_t4p4s_dpdk/p4src/int_v1.0/include/headers.p4:24-28 | decoding an encoded header gives it back |
| `Headers.EthernetExact` | int_t4p4s_dpdk/p4src/int_v1.0/include/headers.p4:24-28 | encoding decoded bytes gives them back |
| `Headers.Ipv4RoundTrip` | int_t4p4s_dpdk/p4src/int_v1.0/include/headers.p4:30-44 | as above, 13 fields in 5 words |
| `Headers.Ipv4Exact` | int_t4p4s_dpdk/p4src/int_v1.0/include/headers.p4:30-44 | no bit of the words is lost |
| `Headers.UdpRoundTrip` | int_t4p4s_dpdk/p4src/int_v1.0/include/headers.p4:46-51 | as above |
| `Headers.UdpExact` | int_t4p4s_dpdk/p4src/int_v1.0/include/headers.p4:46-51 | as above |
| `Headers.TcpRoundTrip` | int_t4p4s_dpdk/p4src/int_v1.0/include/headers.p4:53-64 | as above |
| `Headers.TcpExact` | int_t4p4s_dpdk/p4src/int_v1.0/include/headers.p4:53-64 | as above |
| `Headers.ShimRoundTrip` | int_t4p4s_dpdk/p4src/int_v1.0/include/headers.p4:70-76 | as above |
| `Headers.ShimExact` | int_t4p4s_dpdk/p4src/int_v1.0/include/headers.p4:70-76 | as above |
| `Headers.IntHeaderRoundTrip` | int_t4p4s_dpdk/p4src/int_v1.0/include/headers.p4:81-93 | as above, 11 fields in 2 words |
| `Headers.IntHeaderExact` | int_t4p4s_dpdk/p4src/int_v1.0/include/headers.p4:81-93 | as above |
| `Bytes.WordsSurviveTransport` | int_t4p4s_dpdk/p4src/int_v1.0/include/parser.p4:78-102 | words emitted in network order are read back |
| `Bytes.BytesSurviveParsing` | int_t4p4s_dpdk/p4src/int_v1.0/include/parser.p4:27-75 | bytes read as words are emitted unchanged |
| `Parser.DeparseUndoesParse` | int_t4p4s_dpdk/p4src/int_v1.0/include/parser.p4:27-102 | for every packet the parser accepts, deparsing what it extracted, followed by the rest, gives the packet back byte for byte |
| `Parser.ParseUndoesDeparse` | int_t4p4s_dpdk/p4src/int_v1.0/include/parser.p4:27-102 | parsing any deparsed well-formed header set and payload recovers both |
| `Parser.ShortShimRejected` | int_t4p4s_dpdk/p4src/int_v1.0/include/parser.p4:65-69 | a shim length below 3 is an error whatever bytes follow the shim |
| `Checksum.UpdateIsRecomputation` | int_t4p4s_dpdk/p4src/int_v1.0/int.p4:35-62 | the incremental update equals the full recomputation, bit for bit, if and only if the old header verified; both representations of zero included |
| `Checksum.UpdateKeepsValidity` | int_t4p4s_dpdk/p4src/int_v1.0/int.p4:35-62 | the new header verifies if and only if the old one did |
| `Checksum.VerifiesWhenFull` | int_t4p4s_dpdk/p4src/int_v1.0/int.p4:35-49 | a header verifies exactly with the recomputed checksum, or with 0xffff where that is 0 |
| `Checksum.AddingOnlyZerosIsInexact` | int_t4p4s_dpdk/p4src/int_v1.0/int.p4:43-49 | why a non-zero word is needed: a concrete header left with the wrong zero |
| `Dataplane.IngressKeepsResidue` | int_t4p4s_dpdk/p4src/int_v1.0/int.p4:51-65 | the ingress control, source and transit included, keeps the sum of the extracted IPv4 fields modulo 65535, and never leaves the wrong zero in the checksum |
| `HeaderChecks.NodeChecksumExact` | int_t4p4s_dpdk/p4src/int_v1.0/int.p4:51-65 | over the header's own bytes, options included: a valid header stays valid if and only if the option words it covers change by a zero modulo 65535, and the field sent is bit for bit the recomputed one if and only if the header sent verifies |
| `HeaderChecks.TransitChecksumExact` | int_t4p4s_dpdk/p4src/int_v1.0/include/int_transit.p4:77-95 | the same for a transit node, with the change computed from the packet received, whatever the header length |
| `HeaderChecks.TransitKeepsExactly` | int_t4p4s_dpdk/p4src/int_v1.0/include/int_transit.p4:88-93 | unless the header reaches into metadata, a packet with a valid header leaves a transit node valid if and only if it has at most one option word (UDP) or five (TCP) |
| `HeaderChecks.PathChecksumExact` | int_t4p4s_dpdk/p4src/int_v1.0/int.p4:51-65 | the same over a whole path, source included, with the change computed from the packet that enters it |
| `HeaderChecks.PathKeepsExactly` | int_t4p4s_dpdk/p4src/int_v1.0/include/int_source.p4:53-58 | unless the header reaches behind the UDP or TCP header: valid after a path if and only if it has at most one option word (UDP) or four (TCP), or the fields cleared and grown cancel out |
| `HeaderChecks.OptionsBreakChecksum` | int_t4p4s_dpdk/p4src/int_v1.0/include/parser.p4:38-46 | a concrete UDP datagram behind eight no-operation options whose valid header checksum any source breaks |
| `Switches.Switch.constructor` | int_t4p4s_dpdk/p4src/int_v1.0/include/int_source.p4:24-24 | a node's register starts at zero |
| `Switches.Switch.Parse` | int_t4p4s_dpdk/p4src/int_v1.0/include/parser.p4:27-75 | the state machine computes the parsing function |
| `Switches.Switch.Extract` | int_t4p4s_dpdk/p4src/int_v1.0/include/parser.p4:31-74 | one state leaves a state, headers and bytes from which the same outcome follows, or stops with the error that is the outcome |
| `Switches.Switch.IpChecksumSub` | int_t4p4s_dpdk/p4src/int_v1.0/int.p4:35-41 | the 16-bit statements amount to one's complement subtraction |
| `Switches.Switch.IpChecksumAdd` | int_t4p4s_dpdk/p4src/int_v1.0/int.p4:43-49 | and to one's complement addition with end-around carry |
| `Switches.Switch.ApplySource` | int_t4p4s_dpdk/p4src/int_v1.0/include/int_source.p4:26-59 | draws the next packet number and makes the INT headers |
| `Switches.Switch.ApplyTransit` | int_t4p4s_dpdk/p4src/int_v1.0/include/int_transit.p4:77-95 | a non-sink adds its metadata to an INT packet and grows three lengths |
| `Switches.Switch.ApplySink` | int_t4p4s_dpdk/p4src/int_v1.0/include/int_sink.p4:23-70 | the packet's headers become a report header |
| `Switches.Switch.ApplyIngress` | int_t4p4s_dpdk/p4src/int_v1.0/int.p4:51-65 | the controls in the order of the code, checksum steps around them |
| `Switches.Switch.Handle` | int_t4p4s_dpdk/p4src/int_v1.0/int.p4:75-75 | one packet from bytes to bytes, the function the path theorems are about |
| `Path.SourceCarries` | int_t4p4s_dpdk/p4src/int_v1.0/include/int_source.p4:26-59 | a plain packet leaves its source with exactly the INT headers, lengths and counters of one node, and the IPv4 checksum its residue determines |
| `Path.TransitCarries` | int_t4p4s_dpdk/p4src/int_v1.0/include/int_transit.p4:77-95 | a transit node takes the headers of k nodes to those of k+1 |
| `Path.PathDelivers` | int_t4p4s_dpdk/p4src/int_v1.0/int.p4:51-75 | from bytes to bytes over a path of any length: delivered if and only if every intermediate length check passes, and then with the updated headers, the metadata of all nodes newest first, and the original payload |
| `Path.AcceptableExactly` | int_t4p4s_dpdk/p4src/int_v1.0/include/parser.p4:65-74 | the next parser rejects the packet exactly when k is 85 modulo 128 |
| `Path.SurvivesUpTo85Nodes` | int_t4p4s_dpdk/p4src/int_v1.0/include/parser.p4:65-69 | assuming that a packet in parser error is dropped: a packet survives a path if and only if it has at most 85 nodes |
| `Path.PathGrowth` | int_t4p4s_dpdk/p4src/int_v1.0/include/parser.p4:78-102 | exactly 12 + 24k more bytes on the wire |
| `Path.PathLengths` | int_t4p4s_dpdk/p4src/int_v1.0/include/int_transit.p4:88-93 | shim length, totalLen, UDP length and hop count after k nodes, each true exactly while it does not wrap: k at most 42, 16 bits, k at most 255 |
| `Path.SinkEmits` | int_t4p4s_dpdk/p4src/int_v1.0/include/int_sink.p4:22-71 | the bytes a sink sends: report header, the whole stack, the payload |
| `Layouts.ParserReads` | int_t4p4s_dpdk/p4src/int_v1.0/include/parser.p4:27-75 | byte by byte: a packet is rejected exactly when, and for the reason, a check of its length and three of its fields says; otherwise every field is read from its place, and the rest is payload |
| `Layouts.HeadersWritten` | int_t4p4s_dpdk/p4src/int_v1.0/include/parser.p4:78-102 | headers whose fields lie in a byte string are emitted as what that string starts with, whatever the fields say |
| `NodesOnWire.OtherTrafficPasses` | int_t4p4s_dpdk/p4src/int_v1.0/int.p4:52-53 | any accepted packet that is not UDP or TCP over IPv4 leaves every node, source and sink included, byte for byte as it came |
| `NodesOnWire.PlainTrafficPasses` | int_t4p4s_dpdk/p4src/int_v1.0/include/int_transit.p4:80-81 | a UDP or TCP packet without telemetry leaves a node that is neither source nor sink byte for byte as it came, a checksum of 0xffff apart, which goes out as 0 |
| `NodesOnWire.TransitOnWire` | int_t4p4s_dpdk/p4src/int_v1.0/include/int_transit.p4:77-95 | on a packet with telemetry a transit node changes two lengths, the shim length, the hop count and the IPv4 checksum, inserts switch id, ports and times at their offsets behind the INT header, and changes no other byte |
| `NodesOnWire.SourceOnWire` | int_t4p4s_dpdk/p4src/int_v1.0/include/int_source.p4:26-59 | what a source makes of a plain packet: DSCP, lengths and checksums changed in place, the 12 bytes of the INT headers, 24 bytes of metadata, all else as it was |
| `NodesOnWire.RestartOnWire` | int_t4p4s_dpdk/p4src/int_v1.0/include/int_source.p4:26-59 | what a source makes of a packet that already carries telemetry: headers as fresh, lengths 12 too great, the earlier metadata behind its own |
| `NodesOnWire.SinkOnWire` | int_t4p4s_dpdk/p4src/int_v1.0/include/int_sink.p4:23-70 | what a sink, source or not, makes of any UDP or TCP packet: the report header field by field from the packet's bytes, then all behind the parsed headers |
| `PathsOnWire.PathOnWire` | int_t4p4s_dpdk/p4src/int_v1.0/int.p4:51-75 | a plain packet after k nodes, byte for byte: changed header bytes, INT headers, each node's ids and times at its offset, last node first, then what stood there before |
| `PathsOnWire.PathLetsThrough` | int_t4p4s_dpdk/p4src/int_v1.0/include/parser.p4:65-69 | under the same assumption on rejected packets, a plain packet gets through if and only if the path has at most 85 nodes |
| `PathsOnWire.SinkReports` | int_t4p4s_dpdk/p4src/int_v1.0/include/int_sink.p4:22-71 | behind up to 84 nodes the sink's report, byte for byte |
| `Decoder.NtohlReads` | int_t4p4s_dpdk/p4int_influxdb/p4int.cc:202-202 | a host-order load followed by the swap reads the network-order word |
| `Decoder.Ntoh64Reads` | int_t4p4s_dpdk/p4int_influxdb/p4int.cc:145-160 | the byte-wise swap reads a 64-bit network-order value |
| `Decoder.KeyIsAddressPair` | int_t4p4s_dpdk/p4int_influxdb/p4int.cc:304-304 | the eight bytes loaded as flow key are equal if and only if both addresses are |
| `Decoder.SameFlowSameAddresses` | int_t4p4s_dpdk/p4int_influxdb/p4int.cc:297-305 | two packets are of one flow, by the key the collector uses, if and only if their reports name the same two addresses |
| `Flows.PairsDoNotInterfere` | int_t4p4s_dpdk/p4int_influxdb/p4int.cc:185-218 | over any stream of report packets, the reports that name two addresses carry the numbers, reordering, sink jitter and protocol they would carry if only the packets between these two had come |
| `Flows.FreshPairs` | int_t4p4s_dpdk/p4int_influxdb/p4int.cc:199-199 | from a fresh start each pair of addresses is a flow of its own that begins at zero |
| `Telemetry.DelayTelescopes` | int_t4p4s_dpdk/p4int_influxdb/p4int.cc:226-263 | hop delays minus link delays, sink entry included, sum to the reported delay modulo 2^64, exactly when there is a hop or the first record's two times agree |
| `Telemetry.FlowsDoNotInterfere` | int_t4p4s_dpdk/p4int_influxdb/p4int.cc:185-218 | in any interleaving, a flow's numbers, reordering, sink jitter and protocol are those of its own packets alone |
| `Telemetry.OtherFlowsDoNotMatter` | int_t4p4s_dpdk/p4int_influxdb/p4int.cc:185-218 | in terms of the program alone: dropping all other flows' packets leaves a flow's reported fields and its final state the same |
| `Telemetry.ReorderingTelescopes` | int_t4p4s_dpdk/p4int_influxdb/p4int.cc:204-217 | reordering over n packets sums to final minus initial sequence number minus n, through both branches |
| `Telemetry.ReorderingTelescopesInStream` | int_t4p4s_dpdk/p4int_influxdb/p4int.cc:185-218 | the same for each flow of an interleaved stream |
| `Telemetry.SinkJitterTelescopes` | int_t4p4s_dpdk/p4int_influxdb/p4int.cc:203-216 | sink jitter sums to the time from the flow's previous arrival to its last |
| `Telemetry.UdpFlowIsNumbered` | int_t4p4s_dpdk/p4int_influxdb/p4int.cc:205-208 | packets without a sequence number are numbered consecutively and reported in order |
| `Telemetry.FlowRemembersLast` | int_t4p4s_dpdk/p4int_influxdb/p4int.cc:214-217 | the flow table holds the last arrival and the last TCP number |
| `Telemetry.JitterTelescopes` | int_t4p4s_dpdk/p4int_influxdb/p4int.cc:248-260 | per slot, jitter sums to the final minus the initial entry although path lengths vary |
| `Telemetry.JitterSpansTimes` | int_t4p4s_dpdk/p4int_influxdb/p4int.cc:248-260 | that is, to the span up to the last packet that reached the slot, by hop or by arrival |
| `Collectors.Collector.constructor` | int_t4p4s_dpdk/p4int_influxdb/p4int.cc:271-282 | no flow seen, every slot and counter zero |
| `Collectors.Collector.GetIntHeaderData` | int_t4p4s_dpdk/p4int_influxdb/p4int.cc:185-218 | the header part of a report, and one flow entry updated |
| `Collectors.Collector.GetIntNodeData` | int_t4p4s_dpdk/p4int_influxdb/p4int.cc:226-263 | the loop builds one entry for each hop and one for the sink, and updates exactly the slots reached |
| `Collectors.Collector.ReportToInflux` | int_t4p4s_dpdk/p4int_influxdb/p4int.cc:271-282 | a sampled report is offered once: appended to one ring, or dropped and counted when all were full; others go nowhere |
| `Collectors.Collector.MakeReport` | int_t4p4s_dpdk/p4int_influxdb/p4int.cc:297-315 | the report, the flow entry and the slots, with the rings untouched |
| `Collectors.Collector.ProcessPacket` | int_t4p4s_dpdk/p4int_influxdb/p4int.cc:297-320 | one packet's report and state change, as the functions of `Telemetry`, and what became of the report |
| `Collectors.Collector.LoopProcess` | int_t4p4s_dpdk/p4int_influxdb/p4int.cc:482-503 | a whole stream's reports and final state; `sendData` called for the sampled reports in order; every ring grown by what was pushed to it, the drop counter by what was dropped |
| `EndToEnd.ReportDecodes` | int_t4p4s_dpdk/p4int_influxdb/p4int.cc:297-308 | decoding a sink's report after 1 to 9 nodes gives back every node's times, newest first, the count, addresses, ports and sequence number |
| `EndToEnd.RoundTrip` | int_t4p4s_dpdk/p4int_influxdb/p4int.cc:297-308 | from the bytes of a packet entering a source, over transit nodes and a sink, to the decoded report; ports are those the program extracts, option bytes if the IPv4 header has options |
| `EndToEnd.SinkDelivers` | int_t4p4s_dpdk/p4src/int_v1.0/include/int_sink.p4:22-71 | from bytes to bytes, a sink reports every packet that reaches it over at most 84 nodes: report header, the nodes' metadata, sink's own, payload |
| `EndToEnd.LongPathsMiscounted` | int_t4p4s_dpdk/p4int_influxdb/p4int.cc:307-308 | up to 84 nodes: the count read is k up to 42 and k - 43 beyond; the report can be decoded within the arrays if and only if k is at most 9 or from 43 to 52, and in the latter case the newest k - 43 nodes are taken for all |
| `PathReports.CollectorTells` | int_t4p4s_dpdk/p4int_influxdb/p4int.cc:185-263 | from the bytes on the first wire, over up to nine nodes and a sink, to the finished report: addresses, ports, number, protocol 17 or 6, reordering with its sign; entry i has index i, the egress time of the i-th last node, its delay, the signed link delay to the next node and its jitter; the last entry carries the arrival |
| `PathReports.PlainAtSinkUnreadable` | int_t4p4s_dpdk/p4int_influxdb/p4int.cc:307-307 | the report a sink makes of a packet without telemetry has `hop_meta_len` 0, so no buffer that received it can be decoded |
| `EndToEnd.DelayCountsFromLastNode` | int_t4p4s_dpdk/p4int_influxdb/p4int.cc:226-230 | the reported delay is measured from the last node, and is that from the source if and only if their stamps agree, with or without the 48-bit option |
| `Template.MaskSelectsHeaders` | int_p4c-dpdk/src/int/int_template.p4:210-427 | the tables insert exactly the headers the mask asks for if and only if its upper nibble is not 3 |
| `Template.MaskYields` | int_p4c-dpdk/src/int/int_template.p4:210-427 | bit for bit, which headers every mask yields; for the upper nibble 3 these are headers 2 and 5 |
| `Template.CountedIsEmitted` | int_p4c-dpdk/src/int/int_template.p4:132-156 | the word counter equals the emitted words, or exceeds them by two when both tables set header 5; never more than 10 |
| `Template.AddedLength` | int_p4c-dpdk/src/int/int_template.p4:857-864 | the emitted metadata is as long as the widths of the valid headers say |
| `TemplateChecksum.NodeKeepsSum` | int_p4c-dpdk/src/int/int_template.p4:785-834 | whatever the mask, the payload and the metadata, a node keeps the sum of pseudo header and datagram modulo 65535, plus one if it sets the e bit |
| `TemplateChecksum.NodeKeepsUdpValidity` | int_p4c-dpdk/src/int/int_template.p4:699-729 | hence it preserves and reflects validity unless it sets the e bit, and then breaks it |
| `TemplateChecksum.Aligned` | int_p4c-dpdk/src/int/int_template.p4:857-864 | inserted metadata leaves the payload's bytes paired into half-words as they were |
| `TemplateChecksum.CsumIsNeverAllOnes` | int_p4c-dpdk/src/int/int_template.p4:785-834 | the checksum sent, exactly: the old one less what the node adds, modulo 65535; so never 0xffff, and 0 if and only if the two agree |
| `TemplateChecksum.ValidChecksumSentAsNone` | int_p4c-dpdk/src/int/int_template.p4:785-834 | a concrete valid datagram that a node sends on with checksum 0 |
| `TemplateChecksum.NodeKeepsIpv4Sum` | int_p4c-dpdk/src/int/int_template.p4:762-779 | the sum of the extracted IPv4 fields is kept modulo 65535, less the length of a packet that is neither UDP nor TCP |
| `TemplateHeader.NodeHeaderFollows` | int_p4c-dpdk/src/int/int_template.p4:762-779 | over the header's own bytes, options included: a valid header stays valid if and only if the sum it covers changes by a zero modulo 65535 |
| `TemplateHeader.NodeHeaderExactly` | int_p4c-dpdk/src/int/int_template.p4:699-726 | that condition on the packet received: none for up to one option word (UDP) or five (TCP); with two of UDP, that the length grows by what the checksum loses; for other protocols, that the length is a zero modulo 65535 |
| `TemplateHeader.ChangeExactly` | int_p4c-dpdk/src/int/int_template.p4:429-451 | by how much the covered sum changes, in terms of the packet received, however far the header reaches: lengths, checksum, shim length, e bit, hop count, metadata for payload |
| `TemplateHeader.NodeHeaderChange` | int_p4c-dpdk/src/int/int_template.p4:762-779 | for every header length: a valid header stays valid if and only if that change, computed from the packet received, is a zero modulo 65535 |
| `TemplatePath.HopLimit` | int_p4c-dpdk/src/int/int_template.p4:705-729 | for any INT packet, along a path of any length, exactly the nodes within its hops left count down and add metadata, newest first; every later one only has the e bit set |
| `TemplatePath.LengthsTrackBytes` | int_p4c-dpdk/src/int/int_template.p4:429-442 | until they wrap, totalLen, UDP length and shim length all track the bytes on the wire at every hop if and only if the mask does not count header 5 twice |
| `TemplatePath.ShimLenNeverWraps` | int_p4c-dpdk/src/int/int_template.p4:436-438 | with at most 25 hops (the generated constants agree on no more than 9) the shim length is the source's 5 words plus the words counted, without wrapping; these are the words emitted unless the mask counts header 5 twice |
| `TemplatePath.PathKeepsSum` | int_p4c-dpdk/src/int/int_template.p4:785-834 | for any INT datagram, over a whole path the sum is kept but for the one time the e bit is set |
| `TemplatePath.ChecksumSurvivesExactly` | int_p4c-dpdk/src/int/int_template.p4:444-451 | for any INT datagram, anywhere on its way: valid after the next nodes if and only if they are no more than its hops left, or the e bit needs no more setting |
| `TemplatePath.SourcePacketSurvives` | int_p4c-dpdk/src/int/int_template.p4:689-707 | a default-configured source has used one hop itself: what it sends valid is valid after the next nodes if and only if they and the hops used are within MAX_HOP |
| `TemplateWire.ParseUndoesEmit` | int_p4c-dpdk/src/int/int_template.p4:43-91 | parsing the emitted bytes of any UDP, TCP or other packet recovers headers and payload |
| `TemplateWire.EmitUndoesParse` | int_p4c-dpdk/src/int/int_template.p4:846-856 | emitting what was parsed gives the packet back, byte for byte |
| `TemplateWire.ForwardIsRun` | int_p4c-dpdk/src/int/int_template.p4:43-91 | nodes that each parse the bytes the one before sent compute the headers and payload of the path theorems |
| `TemplateWire.ReceiverSumIsDatagramSum` | int_p4c-dpdk/src/int/int_template.p4:785-834 | the sum the invariant is about is, over raw bytes, that of the pseudo header and all bytes behind a 20-byte IPv4 header; when the lengths are right, the sum a receiver forms |
| `TemplateWire.HoldsWithinHopLimit` | int_p4c-dpdk/src/int/int_template.p4:699-729 | over raw bytes: a datagram without IP options whose checksum sum holds is delivered, and the sum holds if and only if the nodes are within its hops left or the e bit needs no more setting |
| `TemplateReceiver.AcceptsExactly` | int_p4c-dpdk/src/int/int_template.p4:43-91 | a receiver's checks on the bytes (IPv4 header checksum, both lengths, the UDP sum unless its field is zero) are these conditions on the headers |
| `TemplateReceiver.LengthsCarryExactly` | int_p4c-dpdk/src/int/int_template.p4:429-442 | right lengths are right after the next nodes if and only if the packet still fits 16 bits and the mask does not count header 5 twice, or no node adds metadata |
| `TemplateReceiver.CsumAfterPath` | int_p4c-dpdk/src/int/int_template.p4:785-834 | the checksum field after a path, exactly: the old one less a shift computed from the packet that enters it and the nodes' metadata, modulo 65535 |
| `TemplateReceiver.ChecksumCarriesExactly` | int_p4c-dpdk/src/int/int_template.p4:785-834 | hence when the checksum passes after a path: the sum held and no e bit is newly set, or old field and shift agree modulo 65535, so that the field sent is zero |
| `TemplateReceiver.AcceptedExactly` | int_p4c-dpdk/src/int/int_template.p4:681-865 | from bytes to bytes: a datagram without IP options that its receiver would accept is delivered by the next nodes, and accepted if and only if its lengths carry and its checksum carries, both conditions on the packet as it was |
| `TemplateReceiver.SourcePacketAccepted` | int_p4c-dpdk/src/int/int_template.p4:689-707 | the same for what a default-configured source sends with a checksum: its lengths carry, and source and nodes are within MAX_HOP or the field happens to come out as zero |
| `TemplateReceiver.UncheckedStaysAccepted` | int_p4c-dpdk/src/int/int_template.p4:724-729 | a datagram with checksum 0 and no hops left stays accepted over any further nodes, although its sum does not hold |
| `TemplateMetadata.NodeInsertsMetadata` | int_p4c-dpdk/src/int/int_template.p4:171-207 | what a node with hops left puts in front of the payload, at byte offsets: each header its mask yields behind the widths of those before it; switch id, ingress and egress port and ingress time read back as the node's own, all other headers as zero |
| `TemplateMetadata.PathInsertsMetadata` | int_p4c-dpdk/src/int/int_template.p4:857-864 | the same for every adding node of a path, the last one first, with the old payload behind |
| `TemplateOnWire.ParserReads` | int_p4c-dpdk/src/int/int_template.p4:43-91 | byte by byte: a packet is taken if and only if it holds all headers its first bytes announce, and every field is read from its place |
| `TemplateOnWire.NodeOnWire` | int_p4c-dpdk/src/int/int_template.p4:681-865 | what a node makes of any packet, from bytes to bytes: lengths, shim length, hop field or e bit, both checksums, inserted metadata, and no other byte changed |
| `TemplateOnWire.PlainTrafficPasses` | int_p4c-dpdk/src/int/int_template.p4:705-705 | a UDP or TCP packet without telemetry passes byte for byte but for checksums of 0xffff, sent as 0 |
| `TemplateOnWire.OtherTrafficPasses` | int_p4c-dpdk/src/int/int_template.p4:762-779 | of any other packet only the header checksum changes: it is lowered by the packet's length modulo 65535 |
| `TemplateNodes.InternetChecksum.Add` | int_p4c-dpdk/src/int/int_template.p4:816-832 | adding a list is adding its elements in one's complement |
| `TemplateNodes.TemplateNode.ApplyInst0003` | int_p4c-dpdk/src/int/int_template.p4:214-318 | sixteen actions, each with its headers and its count |
| `TemplateNodes.TemplateNode.ApplyInst0407` | int_p4c-dpdk/src/int/int_template.p4:323-427 | sixteen actions, each with its headers and its count |
| `TemplateNodes.TemplateNode.ApplyInt` | int_p4c-dpdk/src/int/int_template.p4:705-729 | a packet with an INT header: metadata and lengths, or the e bit |
| `TemplateNodes.TemplateNode.ApplyIngress` | int_p4c-dpdk/src/int/int_template.p4:681-744 | the whole control, with the fields saved for the checksum as they were on arrival |
| `TemplateNodes.TemplateNode.UpdateIpv4Checksum` | int_p4c-dpdk/src/int/int_template.p4:762-779 | the extern's calls in order give the new IPv4 checksum |
| `TemplateNodes.TemplateNode.UpdateUdpChecksum` | int_p4c-dpdk/src/int/int_template.p4:785-834 | and the new UDP checksum |
| `TemplateNodes.TemplateNode.ApplyDeparser` | int_p4c-dpdk/src/int/int_template.p4:758-865 | what is sent: updated headers, valid metadata in order, payload |
| `TemplateNodes.TemplateNode.Handle` | int_p4c-dpdk/src/int/int_template.p4:681-865 | one packet through a node, the function the path theorems are about |

## Left out

- Sink support: `int_t4p4s_dpdk/README.md` calls the sink unsupported, but the code has one, and the model follows the code.
- Sockets, curl, HTTP status and URL assembly: `send` is taken to succeed or to throw, after which the code clears the batch either way.
- Record text: `Records` has which records a report yields, in which order, and the numbers they show; how these are formatted is not modelled.
- Argument parsing, the unused flow filter, printing, sleeps, signals and `convertToUnixNs`.
- `generate.py`, the shell scripts and the DPDK command files: the template's constants are parameters.
- Sequential classes: `RingBuffer`, `IntExporter`, `Collector` and `SenderThread` run one call at a time; interleaving is the subject of `Spsc` and `Pipeline`, which state the same operations as steps.
- Memory model: of the C++ model the parts used are that each index has one modification order, that an acquire load never goes back in it, and that it orders the other side's earlier slot accesses.
- Pipeline.NothingLost: counts received and dropped packets as naturals; `pkt_drop` does not wrap in the model.
- Senders.HttpRunKeepsInv: assumes that batch size and a report's lines together do not exceed 2^32, so the 32-bit line counter does not wrap; for the collector's reports that is a batch size of at most 2^32 - 11 (`Senders.CollectorRunKeepsInv`).
- Decoder: buffers with `hop_meta_len` 0 (a division by zero) or more than 9 records (a write past `prev_timestamps`) are outside its precondition; a little-endian host is assumed; addresses stay bytes instead of `inet_ntop` text.
- Register workaround: `int_source.p4` reads its register twice around a byte-order defect of the compiler; the model keeps one 16-bit counter.
- Parser errors: the model drops a packet the t4p4s parser rejects; what the target does with one is not in the sources.
- TemplateHeader.NodeHeaderExactly: closed conditions only for headers that end within the UDP or TCP header; longer ones are covered by `TemplateHeader.NodeHeaderChange`, whose condition is a sum over the packet received and the metadata inserted.
- TemplateReceiver.AcceptedExactly: speaks of datagrams without IP options, since with options the program takes these for the UDP header; a receiver here wants both lengths to be exactly those of the packet, though some tolerate bytes behind them.
- Metadata headers of t4p4s that no action of a run makes valid (latency, queue, level 2 ports, utilisation).
- Switches.Switch.ApplySink: assumes a UDP or TCP packet with an IPv4 header; fields of a header just made valid that no action assigns are zero, and invalid headers read as zero, here and in the template.
- Forwarding tables, table matching, MAC rewriting, cloning and the empty egress pipeline of the template.
- Template source and sink builds: their checksum and length updates are marked unfinished in the code. Template transit tables are taken to be configured as by their default actions.
- Template widths: `PortId_t` and `Timestamp_t` come from `psa.p4`, which is not part of this model; they are taken as 16 and 64 bits, the widths the counters assume. `InternetChecksum` follows the Portable Switch Architecture specification.
- Template packets start at the IPv4 header; the Ethernet header in front and non-IPv4 packets pass unchanged. The DSCP mask is the default 63. A packet that ends inside a header is dropped in the model.
- TCP checksums: the t4p4s source clears the field and the template does not update it; neither is modelled further.
