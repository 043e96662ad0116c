# Verification of the DPDK UDP load generator and echo server

The program sends UDP (or TCP) packets over DPDK from a client that limits the rate of each flow, to a server
that echoes them; the client turns the echoes into a latency histogram. A second client measures latency with
one batch at a time. Source addresses may follow a Zipf distribution. This project models the parts where the
program's promises rest on arithmetic, on state that outlives one call, or on several components fitting
together, and proves those promises for all inputs, all runs and all schedules.

Run `dafny verify dfyconfig.toml` to check everything.

## How it is organised

| module | contents |
|---|---|
| `Arith` | facts about division and remainder |
| `Lcg`, `JumpAhead`, `Rand` | the generator behind `myrand`, its period, and the replay ring |
| `Zipf` | the cumulative table, the search, and how they share out the draws |
| `Histogram`, `PercentileLaws` | the log-bucket histogram and what its percentiles mean |
| `Wire`, `Echo` | bytes and headers; the server's filter and in-place swap; checksums (RFC 1071, 791 and 768) |
| `Prepare`, `Burst`, `Tcp` | building packets in buffers with arbitrary old contents |
| `Receiver` | the receiver thread, and the round trip from client through server to receiver |
| `Transmit`, `TransmitLaws` | the client's transmit loop and what holds over its whole runs |
| `Polling`, `Server` | the server's loop: queues and deadlines, and the packets of a burst |
| `Latency`, `StopAndWait` | the latency client, and client, network and server as one transition system |
| `BatchPromise` | what the latency client promises about batches, timeouts and buffers, and exactly when it holds |
| `ClientRuns`, `ServerRuns` | the loops of client and server are runs of that system, so the promises are those of the loops |
| `FrameLaws` | every field of every built frame, the frames each receiver takes and refuses, and right checksums |
| `Arp` | packets, responder, resolve loop, and resolution as a protocol |

Code that updates state is modelled as classes and methods with loops (`Rand.Replay`, `Zipf.ZipfGen`,
`Histogram.PHist`, `Wire.Mbuf`, `Prepare.PacketInfo`, `Receiver.Stats`, `Transmit.Transmitter`,
`Server.EchoServer`, `Latency.LatencyClient`). Each such method is proved equal to a specification function or
to a state it must reach, and the lemmas then reason about the specification. The clock, the NIC, allocation and
`pow` are inputs: every theorem holds for any values they may produce within the ranges the program relies on.

## What came out

- `myrand` never returns 0: the three seeds that would give 0 come after the first 2^25 calls. So the Zipf
  search never fails and the remark at utils/zipf.c:75 ("it should not") is right, in exact arithmetic.
- The cap at utils/percentile.c:70 compares a latency with a number of samples. Where it takes effect below the
  bucket's lower edge the result leaves the bucket and percentiles come out in the wrong order.
  `PercentileLaws.MonotoneIffEnoughSamples` and `PercentileLaws.AccurateIff` give the exact conditions for order and
  for accuracy, and `PercentileLaws.FewSamplesBreakPercentile` an instance that fails both.
- config.c:49-51 promises that the latency client sends no batch until all packets are back. The one-second
  timeout breaks this: `BatchPromise.PromiseIff` shows that the promise is kept in a run if and only if no timeout is
  taken while packets are still counted, `ClientRuns.LoopPromiseIff` says the same of the client's loop, and
  `BatchPromise.EarlyTimeout` is a run that breaks it.
  `BatchPromise.SafeIffNothingInFlight` says exactly when the unsigned count can wrap afterwards.
- Buffers "should either be sent or freed" (latency_client.c:118). Packets the NIC does not take, and packets that come
  with the poll that times out, are neither; `BatchPromise.BuffersReleasedIff` shows that these are the only ones, and
  `BatchPromise.LeakingRun` that they occur.
- The latency at latency_client.c:216 is in nanoseconds, not in microseconds as its comment says.
- The server's queue table is indexed by queue id but has one slot per managed queue of the worker;
  `Polling.QueueIdsFit` shows that this fits the first worker only. The service time of a full transmit list is
  computed in 32 bits; `Polling.CapacityIff` shows that the capacity bound holds if and only if it does not wrap.
- The list of echoes has room for 64 packets; `Server.WritesInRangeIff` shows that the loop over a burst stays inside it
  if and only if the burst has no more echoes than that, and `ServerRuns.OverfullBurst` is one that does not.
- An ARP resolver that looks up two destinations can take a late answer for the first for an answer of the
  second, as the test at utils/arp.c:128-130 ignores who answers (`Arp.RightIffOneDestination`).
- A packet sent while the clock still reads the start time is missing from the `Tx` total
  (`TransmitLaws.TxReportExact`, with `TransmitLaws.UnreportedPacket` as an instance).
- Frames carry their port in 16 bits, so F flows use F different ports exactly if F is at most 2^16
  (`TransmitLaws.WirePortsOnceIff`).
- Client addresses are distinct exactly up to 2^16 ports per address or 2^16 clients (`Burst.ClientsDistinctIff`).

## Model

| member | source | states |
|---|---|---|
| Lcg.SumDivisibility | utils/zipf.c:50-57 | the displacement of the generator after n steps and n itself are divisible by the same powers of two |
| Lcg.SeedPeriod | utils/zipf.c:50-57 | for every j up to 32, the low j bits of two seeds agree if and only if their call numbers agree modulo 2^j |
| Lcg.SeedsDistinct | utils/zipf.c:50-57 | any 2^32 consecutive seeds are pairwise distinct: the seed has full period |
| Lcg.SeedHits | utils/zipf.c:50-57 | every value of the low j bits occurs in every window of 2^j calls |
| Lcg.OutputRepeats | utils/zipf.c:50-57 | in 2^32 consecutive calls `__myrand` returns a value at most twice, 0 and 1 at most three times |
| Lcg.OutputRepeatsExactly | utils/zipf.c:50-57 | every value below RAND_MAX is returned exactly that often in every such window |
| Rand.Replay.NextOutput | utils/zipf.c:50-57 | one call moves the seed from number t to t + 1 and returns its remainder |
| Rand.Replay.MyRand | utils/zipf.c:59-71 | call number t, whether it fills the ring or replays it, returns generator output (t mod 2^25) + 1 |
| Rand.RingHasNoZero | utils/zipf.c:50-71 | none of the 2^25 values in the ring is 0 |
| Rand.DrawRange | utils/zipf.c:56-71 | every value of `myrand` lies between 1 and RAND_MAX - 1, and the sequence repeats after 2^25 calls |
| Rand.DrawRepeats | utils/zipf.c:56-71 | in a lap of the ring a value occurs at most twice, 1 at most three times |
| Zipf.HarmonicSum | utils/zipf.c:15-16 | the first loop computes the sum of 1/i^s |
| Zipf.CumulativeCounts | utils/zipf.c:18-25 | the second loop stores at k the truncated exact cumulative probability of the first k ranks, times RAND_MAX |
| Zipf.ZipfGen.constructor | utils/zipf.c:7-35 | a new sampler holds that table |
| Zipf.TableShape | utils/zipf.c:18-25 | the table starts at 0, never decreases and ends at RAND_MAX |
| Zipf.EntryError | utils/zipf.c:20-25 | entry k is RAND_MAX times the exact cumulative share of the first k ranks, less a fraction below one |
| Zipf.WidthError | utils/zipf.c:20-25 | the number of draws of each rank differs from its exact share by less than one |
| Zipf.WidthStep | utils/zipf.c:20-25 | for s >= 0 a rank is given at most one draw more than the rank before it |
| Zipf.PowGrows | utils/zipf.c:16-24 | pow is positive and does not decrease for every exponent s >= 0 that is a fraction, as every double is |
| Zipf.Search | utils/zipf.c:82-106 | the binary search returns k with c[k-1] < rnd <= c[k], and -1 exactly when rnd <= 0 or rnd > c[n] |
| Zipf.RankUnique | utils/zipf.c:91-104 | a draw belongs to one rank only, even when the table has ties |
| Zipf.RankExists | utils/zipf.c:91-106 | exactly the draws 1 to c[n] belong to a rank |
| Zipf.RankShare | utils/zipf.c:91-104 | exactly c[k] - c[k-1] draws map to rank k |
| Zipf.RankFrequency | utils/zipf.c:59-107 | in a lap of the ring rank k is drawn at most 2 (c[k] - c[k-1]) + 1 times |
| Zipf.ZipfGen.Gen | utils/zipf.c:77-107 | a sample is the rank of the next `myrand` value, between 1 and n; -1 only for an empty table |
| Zipf.SamplingNeverFails | utils/zipf.c:73-107 | for n >= 1, every call of the sampler finds a rank |
| Histogram.LogIndexBracket | utils/percentile.c:33-37 | the index of a value is i if and only if the edges r2^i and r2^(i+1) enclose it |
| Histogram.PHist.FromMaxValue | utils/percentile.c:18-22 | a new histogram is empty and has one bucket more than the index of its largest value |
| Histogram.PHist.Add | utils/percentile.c:30-42 | every bucket keeps counting exactly the samples that fall into it |
| Histogram.PHist.GetPercentile | utils/percentile.c:45-79 | the scan computes the percentile of the specification, whose value `PercentileLaws.PercentileValue` gives in closed form; without samples there is no number |
| Histogram.BucketsOfMultiset | utils/percentile.c:30-42 | the buckets depend on the multiset of samples, not on their order |
| Histogram.SortedPrefix | utils/percentile.c:52-59 | in sorted order, the samples of the buckets up to i are a prefix, whose length is the cumulative count |
| PercentileLaws.BucketsSumToCount | utils/percentile.c:40-41 | the buckets add up to count_values |
| PercentileLaws.SizedForMax | utils/percentile.c:18-22 | a histogram made for a maximum value never clamps a value up to it |
| PercentileLaws.StopIsQuantileBucket | utils/percentile.c:52-59 | the scan stops in the bucket of the ceil(y N)-th smallest sample |
| PercentileLaws.PercentileValue | utils/percentile.c:52-79 | the level that divides the counts a to b of a bucket by the fraction f gives the value that divides the bucket by f, between 0 or r2^i and the smaller of r2^(i+1) and N |
| PercentileLaws.LevelHasFraction | utils/percentile.c:52-77 | every level between 0 and 1 is of that form, with f = (y N - a) / (b - a) for one occupied bucket |
| PercentileLaws.PercentileInBucket | utils/percentile.c:62-77 | the result lies between the edges of its bucket i if and only if there are at least r2^i samples (any number, for bucket 0) |
| PercentileLaws.PercentileApproximates | utils/percentile.c:62-77 | a quantile of at least r2, not in the overflow and at most r2 N, comes out within a factor r2 both ways |
| PercentileLaws.AccurateIff | utils/percentile.c:45-79 | for samples below the overflow, all quantiles of at least r2 come out within a factor r2 if and only if no sample of at least r2 exceeds r2 N |
| PercentileLaws.OrderedInBucket | utils/percentile.c:70-77 | two levels in one bucket come out in order if and only if there are at least r2^i samples |
| PercentileLaws.MonotoneIffEnoughSamples | utils/percentile.c:45-79 | percentiles are monotone in y if and only if every occupied bucket i > 0 has r2^i <= N |
| PercentileLaws.FewSamplesBreakPercentile | utils/percentile.c:70-72 | a sample of 2 on its own: the 99th percentile is below the 50th and off by more than r2 |
| Echo.SwapHeaders | server.c:288-301 | the three swaps in the packet buffer give the frame with both ends exchanged |
| Echo.SwapFields | server.c:299-301 | two fields of a buffer trade places and every other byte stays |
| Echo.SwapExchangesEnds | server.c:288-301 | the echo has addresses and ports exchanged at all three layers, and the same type and payload |
| Echo.SwapTwice | server.c:288-301 | echoing twice is the identity |
| Echo.OnesSumFolds | server.c:288-301 | the one's-complement sum with end-around carry is a function of the plain sum of words, so their order does not matter |
| Echo.EchoKeepsChecksums | server.c:288-301 | for every well-formed frame, with or without IP options or padding, both checksums are valid after the echo exactly when they were before |
| Prepare.AppendEthernet | include/client/prepare_packet.h:39-45 | the Ethernet header is appended, whatever the buffer held there |
| Prepare.AppendIpv4 | include/client/prepare_packet.h:47-58 | all of the IPv4 header but length and protocol, whose three bytes stay stale |
| Prepare.FinishIpv4 | include/client/prepare_packet.h:130-131 | filling in those three completes the header |
| Prepare.AppendL2 | include/client/prepare_packet.h:70-84 | an Ethernet header, or one with a VLAN tag |
| Prepare.SelectClient | include/client/prepare_packet.h:86-104 | the source address is left alone, or moved to the client that the next draw picks; a draw up to the first entry of the table leaves it at the base address |
| Prepare.FirstClient | include/client/prepare_packet.h:93-98 | the first client is the base address itself |
| Prepare.NextClient | include/client/prepare_packet.h:93-98 | each further client has the next port modulo 2^16, or, when the ports of an IP are used up, the base port and the next IP modulo 2^32; nothing else changes |
| Prepare.BaseClient | include/client/prepare_packet.h:90-99 | every draw up to the first entry of the table picks the base address |
| Prepare.LengthsTruncate | include/client/prepare_packet.h:128-131 | computing the lengths in 16 bits stores the same bytes as computing them exactly |
| Prepare.PrepareUdp | include/client/prepare_packet.h:116-148 | the whole of the headers with the chosen client, no stale byte left, and room for the payload |
| Prepare.PayloadTimestamp | include/client/write_payload.h:11-22 | the payload is the clock as a 64-bit number, then filler |
| FrameLaws.PayloadBytes | include/client/write_payload.h:11-22 | byte i of the payload is digit i of the number to base 256, the filler follows from its start, and a reader gets the number back |
| FrameLaws.UdpFrameHeaders | include/client/prepare_packet.h:39-148 | every header field of a UDP packet, the VLAN tag and its inner type included |
| Burst.FillBurst | client.c:315-340 | packet i of a burst is the base packet moved to the client of draw i: offsets never accumulate, and pkt_info ends as it began |
| Burst.ClientsDistinctIff | include/client/prepare_packet.h:93-98 | source indices give pairwise distinct (IP, port) pairs, wrap-around included, if and only if there are at most 2^16 ports per IP or at most 2^16 indices |
| Tcp.AppendTcp | include/client/prepare_tcp_pkt.h:52-64 | the TCP header is appended, the fields of which `FrameLaws.TcpFrameFields` reads back |
| Tcp.WriteNops | include/client/prepare_tcp_pkt.h:68-71 | the loop writes the padding and nothing else |
| Tcp.AppendOptions | include/client/prepare_tcp_pkt.h:66-78 | two NOPs and the server-id option with an id from the next draw |
| Tcp.PrepareTcp | include/client/prepare_tcp_pkt.h:35-90 | the whole of the headers and options, no stale byte left, with the client draw before the server draw |
| FrameLaws.TcpFrameFields | include/client/prepare_tcp_pkt.h:35-90 | every header field of a TCP packet: both ends at all three layers, protocol, lengths, the numbers stored in host order, data offset, flags; then the options and the payload |
| Tcp.OptionsWalk | include/client/prepare_tcp_pkt.h:66-78 | an option walk finds two NOPs and one option of kind 0xB7 whose id is between 1 and max(1, N - 1); none when N is 0 |
| Tcp.ServerOfDraw | include/client/prepare_tcp_pkt.h:76-78 | the remainder of the draw is the server's id, and remainder 0 goes to server 1 |
| Tcp.TcpLengthsAgree | include/client/prepare_tcp_pkt.h:39-60 | total_length is the number of bytes after layer 2, and the data offset covers header and options exactly |
| Receiver.UdpFrameFields | client.c:484-571 | a reader finds in a built frame the addresses, ports and payload put there |
| Receiver.Stats.FindPeer | client.c:536-543 | the lookup finds the first destination with the address, or none |
| Receiver.Stats.Handle | client.c:484-576 | a counted packet adds one to its destination's total and, on the base port, one latency to its histogram; nothing else changes |
| Receiver.LatencyExact | client.c:567-568 | the latency is exact in microseconds if and only if the scaled difference fits 64 bits |
| Receiver.EchoOfBuilt | server.c:226-301 | a built frame is echoed with its ends exchanged and its payload intact |
| Receiver.BuiltFrameWellFormed | include/client/prepare_packet.h:128-139 | a frame whose length fits 16 bits is well formed, so its checksums survive the echo |
| FrameLaws.ChecksumsRightIff | latency_client.c:164-165 | the two checksums of a UDP packet are right if and only if each completes the sum taken with zero in its place to all ones |
| FrameLaws.ClassifyUdp | client.c:484-571 | of UDP packets, those for another host are invalid, those wrongly tagged or untagged are of the wrong type, those from no destination are unknown, and all others are counted with their timestamp, measured on the base port only |
| FrameLaws.AcceptsIff | server.c:214-259 | the server takes an IPv4 packet if and only if it has the server's address, is tagged as the server expects and, where the server answers ARP, is for the server or for everybody |
| FrameLaws.AcceptsUdpIff | server.c:214-259 | so for every UDP packet the client can build |
| FrameLaws.ArpNotTaken | utils/exp.c:53-68 | no receiver takes an ARP packet |
| Receiver.WireRoundTrip | client.c:491-575 | a built packet is accepted and echoed by the server, and the receiver gets the timestamp, the right destination index, and the destination port as source port |
| Transmit.Transmitter.ClearCounters | client.c:277-282 | every counter is 0 |
| Transmit.Transmitter.Push | client.c:344-361 | counts what was sent, frees what was not, and charges the flow |
| Transmit.Transmitter.Iterate | client.c:229-371 | one iteration is the transition of the specification (deadline, drain, rotation, window, limit, burst), which does what `TransmitLaws.EveryTurnAsDue` and `TransmitLaws.TurnsUntilDeadline` say is due |
| Transmit.Transmitter.Loop | client.c:228-371 | the loop is the run of the specification |
| TransmitLaws.Rotation | client.c:244-271 | with one destination, sending iteration k uses port offset (k+1) mod F, counter k mod F and that counter's queue, rate-limited or not; the assertion never fires and nothing is sent once draining has begun |
| TransmitLaws.EveryPortOnce | client.c:257-260 | any F consecutive sending iterations visit every port offset exactly once |
| TransmitLaws.WirePortsOnceIff | client.c:297-308 | the 16-bit ports in the frames of F consecutive iterations are all different if and only if F is at most 2^16 |
| TransmitLaws.PortIsOneCounter | client.c:270-271 | what is sent to a port is what is charged to one counter, also by the 16-bit port in the frames while F is at most 2^16 |
| TransmitLaws.SecondDestinationAborts | client.c:253-268 | with two or more destinations only the first iteration can send |
| TransmitLaws.RateStep | client.c:273-289 | every iteration keeps the window invariant |
| TransmitLaws.EveryTurnAsDue | client.c:229-361 | in every run a sending iteration is held back if and only if there is a limit and the packets charged to its flow since the last reset, by the history of the run, exceed rate times the window so far; otherwise it sends what the NIC takes, or nothing if there are no buffers |
| TransmitLaws.UnlimitedSends | client.c:286-289 | without a limit no iteration is held back |
| TransmitLaws.TurnsUntilDeadline | client.c:230-243 | with one destination an iteration is a sending one if and only if the deadline has not passed |
| TransmitLaws.NoTurnAfterDeadline | client.c:230-243 | there is no sending iteration after the deadline |
| TransmitLaws.WholeRunRateBound | client.c:228-361 | over a run of D >= 1 seconds at most D (rate + burst) packets are charged to a flow; in general rate times span plus a burst for each window |
| TransmitLaws.PortRateBound | client.c:228-361 | the same for the packets sent to a port, also by the 16-bit port in the frames while F is at most 2^16 |
| TransmitLaws.BuffersAndTotals | client.c:292-358 | every buffer of every burst is sent or freed, and the totals count all that happened after the start time |
| TransmitLaws.TxReportExact | client.c:346-349 | the total is the number of packets sent if and only if none was sent at the start time itself |
| TransmitLaws.UnreportedPacket | client.c:346-349 | a burst sent at the start time is in no total |
| TransmitLaws.DrainEnds | client.c:230-241 | the loop drains after the deadline and ends exactly when the clock is more than two seconds past the start of the drain |
| Polling.RoundRobin | server.c:142-145 | iteration t looks at managed queue t mod count_queues, ready or not |
| Polling.EveryIterationAsDue | server.c:142-326 | in every run each iteration stops, skips, finds nothing or serves exactly as the history of the run asks for |
| Polling.NeverSkips | server.c:322-326 | a unidirectional server never skips a queue |
| Polling.StopsOnlyWhenIdle | server.c:150-200 | the server stops only after a minute without a first packet, or at an empty poll two seconds after the last one |
| Polling.RunPaced | server.c:181-186 | while the product fits 32 bits, no queue is served before its accepted packets have had their service time |
| Polling.WrappedDelay | server.c:326 | otherwise a run in which the first queue is served too early |
| Polling.CapacityIff | server.c:325-326 | in all runs and for all queues, delay times the packets accepted before a service is at most the time since the first service, if and only if 64 delays fit in 32 bits |
| Polling.QueueIdsFit | main.c:233-235 | queue ids index queue_status in range exactly for worker 0 |
| Server.EachPacketOnce | server.c:208-306 | every packet is freed or echoed, never both, never twice, in arrival order |
| Server.AcceptedOnce | server.c:208-306 | in either mode each accepted packet is counted once, and no other |
| Server.EchoServer.HandlePacket | server.c:208-306 | an accepted packet is, in bidirectional mode, swapped in its buffer and put next on the list of echoes; any other is left as it is, among them all with another destination address |
| Server.EchoServer.EchoBurst | server.c:207-306 | the loop frees and lists exactly those packets, in that order, and handles the bytes of each |
| Server.WritesInRangeIff | server.c:304-305 | every echo of a burst finds a slot of the list if and only if the burst has at most as many echoes as there are slots |
| ServerRuns.OverfullBurst | server.c:304-305 | for every bidirectional server, a burst of 65 packets that has none for the last |
| Server.EchoServer.MoveToFront | server.c:331-334 | unsent packets move to the front in order |
| Server.EchoServer.SendEchoes | server.c:328-336 | whatever counts the NIC returns, packets leave in order and none is lost; the loop is done if and only if the counts add up to the whole list |
| Server.TotalAtLeast | server.c:328-336 | which is so after as many calls as there are packets if each call takes at least one |
| Server.EchoServer.Iterate | server.c:142-339 | one iteration is the polling step; a served burst is freed and echoed as above |
| Server.EchoServer.Loop | server.c:142-339 | the main loop is the polling run the capacity bound speaks of; every served burst is freed or sent in arrival order, what is sent being the swapped bytes of the accepted packets |
| ServerRuns.BurstIsServes | server.c:208-336 | handling a burst of probes is that many Serve steps of the transition system: the client's queue grows by the bytes the server leaves in the buffers, in order |
| ServerRuns.BurstIsEchoed | server.c:208-306 | and all packets of such a burst are echoed, none is freed |
| Latency.LatencyClient.BuildProbe | latency_client.c:125-166 | the frame built in the buffer, checksums patched in, is the probe, whose bytes are those of `FrameLaws.ProbeChecksums` and `FrameLaws.ProbePayload` |
| Latency.ProbeFacts | latency_client.c:197-215 | the server accepts a probe, the client accepts its echo, and both carry the timestamp |
| FrameLaws.ProbeChecksums | latency_client.c:125-166 | the probe has the header checksum at byte 24 and the UDP checksum at byte 40; there and in the echo each is right if and only if it completes its sum |
| FrameLaws.ProbePayload | latency_client.c:150-157 | the probe carries the timestamp in little-endian order behind its headers and 0xAB in every byte after it |
| FrameLaws.HandleUdp | latency_client.c:194-221 | of UDP packets, one for another host changes nothing, a tagged one is counted off without a sample, any other is counted off with the number in its payload as timestamp |
| Latency.PhaseEndsAt | latency_client.c:169-225 | a receive phase ends at the first poll that finds more than a second gone since its wait began, with what was counted before it, or whose packets bring the count to 0 |
| Latency.PhaseWaits | latency_client.c:169-225 | and goes on as long as there is no such poll |
| Latency.LatencyClient.SendBatch | latency_client.c:124-168 | every buffer of a batch holds its probe, and the count is what the NIC took |
| Latency.LatencyClient.HandleBurst | latency_client.c:194-222 | a burst updates the outstanding count and the measurements as the specification says, and each buffer is freed once |
| Latency.LatencyExactNs | latency_client.c:216 | the latency is exact in nanoseconds if and only if the scaled difference fits 64 bits |
| Latency.LatencyClient.Receive | latency_client.c:169-225 | the receive phase, its timeout per wait included, is that of the specification; all buffers are freed but those of the poll that times out |
| Latency.LatencyClient.Loop | latency_client.c:117-232 | the main loop has the count, the samples and the outcomes of the specification, and loses as many buffers as that says |
| ClientRuns.PhaseIsSteps | latency_client.c:169-225 | every receive phase of the client, whatever server and network do between its polls, is a sequence of steps of the transition system with the same count, samples and outcome |
| ClientRuns.LoopIsSteps | latency_client.c:117-232 | so is the main loop, and the run loses the buffers and gives up the packets the loop reports |
| ClientRuns.LoopPromiseIff | latency_client.c:117-232 | the main loop sends every batch, and ends, with all earlier packets recorded if and only if no receive phase ended by timeout with packets missing; and it loses no buffer if and only if it reports none |
| StopAndWait.RunContent | latency_client.c:117-228 | in all runs, with loss, reordering and timeouts, each packet sent is in flight, lost or recorded exactly once, and each sample has a timestamp that was written, not later than its arrival |
| BatchPromise.PromiseIff | latency_client.c:117-232 | in every run that ends outside a receive phase, all packets sent are recorded whenever a batch is sent and at the end, if and only if no timeout was taken with a count above 0 |
| BatchPromise.NothingGivenUp | latency_client.c:168-225 | until such a timeout the count is the number of packets in flight or lost, it does not underflow, and outside a receive phase everything is recorded |
| BatchPromise.EarlyTimeout | latency_client.c:177-188 | a run from the start, with a timeout after more than a second, that breaks the promise and from which the count can wrap |
| BatchPromise.RunMeasurements | latency_client.c:210-221 | in all runs each reported value is the elapsed time of a sample whose timestamp was sent, exact if and only if it fits |
| StopAndWait.StopAndWaitSafety | latency_client.c:168-225 | with loss: if timeouts give up only on packets that are gone, the count never underflows, and a new batch starts only when all earlier packets are recorded or lost |
| BatchPromise.SafeIffNothingInFlight | latency_client.c:185-188 | a client about to send is safe from underflow from then on if and only if nothing is in flight |
| BatchPromise.LateArrival | latency_client.c:203 | a packet given up too early makes the count wrap when it comes with the next batch |
| BatchPromise.BuffersReleasedIff | latency_client.c:118-188 | in all runs every buffer is sent or freed if and only if the NIC takes whole batches and no timed-out poll has found packets |
| BatchPromise.LeakingRun | latency_client.c:168 | a run that loses a whole batch of buffers |
| Arp.PrepareArp | utils/arp.c:12-41 | the ARP frame is written over whatever the buffer held |
| Arp.ArpFields | utils/arp.c:12-41 | a reader finds every field, the fixed ones included |
| Arp.CheckEthHdr | utils/exp.c:37-71 | who passes, and the reply sent to a request for this address |
| FrameLaws.RepliesIff | utils/exp.c:38-71 | a request is answered if and only if it is for this address and reaches this host or everybody, and the answer goes to the sender it names |
| FrameLaws.TakesReplyIff | utils/arp.c:117-134 | the resolver takes a packet if and only if it is a reply to both its own addresses, whatever sender it names |
| Arp.ScanBurst | utils/arp.c:108-139 | every buffer read is freed exactly once, and the first accepted reply decides |
| Arp.PollQueues | utils/arp.c:102-143 | queues are polled up to the first answer, and exactly their buffers are freed |
| Arp.Resolve | utils/arp.c:97-145 | each round sends the request; the address is that of the first accepted reply of the first burst, in polling order, that has one; exactly the buffers read are freed, in order |
| Arp.ResolveIsRun | utils/arp.c:97-145 | the loop is a run of the protocol: in whatever surroundings, it has no result yet, or one more, the address returned |
| Arp.RequestIsAnswered | utils/exp.c:55-64 | the owner answers a request with a reply that the requester accepts and that names the owner's address |
| Arp.AcceptedIsReply | utils/arp.c:117-134 | an accepted frame is the reply of the host whose address it gives as sender |
| Arp.RunInv | utils/arp.c:97-145 | in all runs every result is the hardware address of some destination that was resolved |
| Arp.OneDestination | utils/arp.c:97-145 | with one destination, any loss, delay and repetition, every result is the address of the host that owns it |
| Arp.StaleAnswer | utils/arp.c:97-134 | with two, a late answer to a repeated request for the first is taken for the second |
| Arp.RightIffOneDestination | client.c:175-188 | all results in all runs are right if and only if there is at most one destination |

## Left out

- DPDK itself: port and queue setup, memory pools, checksum offload. Receiving, sending and allocating are inputs,
  limited only by what the calls can return. `rte_pktmbuf_append` always succeeds.
- main.c and config.c: option parsing and filling the contexts. utils/flow_rules.c only fills library structs.
- Printing and statistics, including the throughput counter of the server, which nothing reads
  (its `rate_limit` is the constant 0, so that branch is never taken).
- utils/exponential.c, `wait` and `apply_delay_cycles`: thin wrappers over libm and the clock.
- `str_to_ip` and `ip_to_str`: conversions by sscanf and snprintf.
- Floating point is exact real arithmetic. The histogram uses one base, 1.4142, for its edges and for its index; the
  source's index constant belongs to the square root of 2, which differs from it in the fifth decimal. Single-precision counts
  above 2^24 are not modelled. The rate limit is compared by cross-multiplying.
- `pow` is a parameter that is positive and, where a lemma says so, does not decrease; `Zipf.PowGrows` proves both for
  exact powers. RAND_MAX is 2^31 - 1, as in glibc; the C library is not part of this model.
- Counters of calls, packets and bytes are unbounded, and the 64-bit clock does not wrap. Truncations that the
  code can reach are modelled: 16-bit lengths and ports, 32-bit addresses and penalties, the outstanding count.
- Data races between the sender, receiver and signal handlers, and threads sharing the generator: one thread
  per object. `running` stays set; stopping early only cuts a run short.
- `DIST_ZIPF` for queues and destinations and numbers as payload: only round robin and timestamps.
- `_USE_TCP` receivers: the receiver reads its timestamp at the UDP offset, and so does its model.
- Histogram.PHist.FromMaxValue: requires a maximum of at least 1; the program only passes MAX_EXPECTED_LATENCY.
- Prepare.SelectClient: requires at least one port per client address, by which the source divides.
- Frames shorter than the headers the code reads: the source reads past their end, the model requires the bytes (for the
  server only of frames that pass its tests of the Ethernet header).
- `hdr_encp_sz` is 0: a server that moves the timestamp is not modelled.
- Server.EchoServer.EchoBurst: requires at most 64 echoes in a burst, the size of tx_buf, although a burst may hold 1024
  packets; by `Server.WritesInRangeIff` that is exactly when the writes stay inside the array.
- Server.EchoServer.Iterate: requires the same of its burst.
- Polling.CapacityIff: assumes queue ids in range; `Polling.QueueIdsFit` says when they are.
- Server.EchoServer.Loop: assumes that bursts share no buffers, so that each keeps its final bytes, that every burst fits
  the list of echoes, and that the NIC takes the whole list in the end (the source would retry for ever).
- Server.EchoServer.SendEchoes: follows as many transmit calls as it is given; the source retries for ever.
- ARP replies sent while the server handles a burst are modelled in `Arp` and not in `Server`.
- StopAndWait.RunContent: the network neither duplicates nor invents packets, and reordering comes from the server
  taking packets in any order; a poll takes what has arrived in order. ARP requests that reach the latency client
  during a run are left out.
- Transmit.Transmitter.Iterate: preparing the packets is in `Prepare` and `Burst`; here a burst is a number.
- The filler text of a payload is a parameter, and the host is little-endian.
