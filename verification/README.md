# A model of the RTP stack, and what it keeps

The library turns media into RTP packets and back: it reorders, repairs, retransmits, protects and frames them.
This project models its state machines and codecs in Dafny and proves what they promise over whole runs. Each
source file has one or two modules here. A module describes its transitions as functions on values, proves the
properties of all runs as lemmas about these, and holds a class or loop methods that perform the same transitions
in place and are verified against the functions.

- `JitterBuffer.dfy` (src/jitter_buffer.js): the reordering buffer over a circular 16-bit number space. An
  observer of the emitted events carries the unbounded position of play-out. The invariant that keeps 16-bit
  keys unambiguous is stated on the circle itself: every packet lies at most 0x8000 ahead of the play-out
  position or of another packet played before it. It holds for every capacity, not only up to the default 256.
- `Srtp.dfy` (src/srtp.js): sender index, receiver guess, and the 128-bit replay window in four words.
  Authentication is ideal: it succeeds exactly when the guessed rollover count is the sender's.
- `JitterTiming.dfy`: when that buffer plays, waits and gives up.
- `FlexFec.dfy`, `FlexFecCodec.dfy`, `FlexFecDecoder.dfy`, `FlexFecRuns.dfy` (src/flexfec.js): the XOR algebra of
  sums of packets of different lengths, the mask and packet codec, the peeling decoder, and what it must recover.
- `Ranges.dfy`, `Histogram.dfy`, `NackGenerator.dfy`, `NackRuns.dfy` (src/retransmit.js): gap detection, eviction and request
  pacing, with a ghost log of arrivals and requests. The `flat-ranges` package is modelled by what it promises:
  sorted half-open ranges, with insertion and membership; the in-place clipping is modelled as written.
- `SenderBuffer.dfy`, `Rtx.dfy` (src/retransmit.js): the ring of sent packets and the retransmission wrapping.
- `TransportCc.dfy`, `TccGenerator.dfy`, `NackFci.dfy` (src/rtcp.js, src/bandwidth.js): transport-wide feedback
  with its three chunk forms, the generator in front of it, and the NACK packing.
- `Red.dfy` (src/red.js): redundant audio. `H264Split.dfy`, `H264.dfy` (src/h264.js): H.264 framing.
- `HeaderExt.dfy`, `Rtp.dfy` (src/rtp.js): one-byte header extensions, the parser and the packet builder.
- `SeqNum.dfy`, `Bits.dfy`, `Wire.dfy`, `Buffers.dfy`, `JsMap.dfy`, `Options.dfy`: circular numbers, bit
  operations on words, big-endian fields, buffers written in place, the insertion-ordered Map, absent values.

Clock readings, random initial numbers and the receiver's knowledge of what arrived are parameters. Timers are
calls with a time. Emitted events and callbacks are returned lists or ghost logs. Milliseconds of the jitter
buffer are real numbers. Numbers wrap where the source wraps them.

## Where the code and its promises part

Each of these is a lemma below, with the exact condition under which the code does what is promised.

- H.264: a NAL unit that ends in a zero byte loses it when a 3-byte start code follows (00 | 00 00 01 is read as
  a 4-byte code). Units come back whole exactly when no such pair occurs (`H264Split.SplitExact`).
- H.264: the comment on unframed input says the whole buffer becomes one unit; the code keeps only its last three
  bytes. It comes back whole exactly up to three bytes (`H264Split.UnframedCut`).
- H.264: length-prefixed input whose first length is 1 or 256 to 511 is taken for Annex-B (`H264Split.AvccSplits`).
  The units come back exactly when that is not so or all are single bytes (`H264Split.AvccExact`); lengths 1 and 2
  are lost (`H264Split.AvccMisread`).
- Header extensions: the one-pass editor is said to equal the chain of single edits; without a valid entry it
  still rewrites an existing block (`Rtp.OnePassExact`, `Rtp.NothingSetRewrites`).
- Retransmission store: the last `size` packets are available in every run exactly when `size` divides 2^16
  (`SenderBufferModel.RingExact`); the default 512 does.
- Retransmission wrapping: two kinds of malformed packets are lost rather than restored (`RtxModel.UnwrapExact`).
- NACK: the time 0 also marks an entry as never requested. A feedback keeps the retry limit and the pacing exactly
  unless it is made at time 0 and lists something (`NackModel.FeedbackTally`); what it then lists is listed again at
  once, in every state (`NackModel.ZeroListedAgain`, `NackModel.ZeroClockRepeats`). Clocks below 0 keep both.
- SRTP: a comment calls the sender's index strictly monotonic; a number sent again keeps its old index exactly
  when it lies in the rollover of the highest one and does not look like rolling over (`SrtpModel.SenderBack`).
- FlexFEC: a group spanning more than 109 numbers is not named by its mask (`FlexFecCodec.MaskNames`).

## Model

| member | source | states |
|---|---|---|
| `SeqNum.ForwardWrap` | src/flexfec.js:26 | the number at forward distance d from a base is base + d modulo 2^16, and the only one at that distance |
| `JsMap.WithoutExact` | src/red.js:173-176 | deleting a key from the key list of a Map removes that key and no other, and leaves the keys distinct |
| `Bits.OrBits` | src/flexfec.js:118-140 | the loops that or single bits into a mask word build the word whose bits, most significant first, are the prefix and the given bits |
| `Bits.UnpackPack` | src/flexfec.js:269-287 | reading back the bits of a packed word gives the bits it was packed from |
| `Bits.BitXor` | src/flexfec.js:98-107 | each bit of the exclusive or is set exactly when the operands differ there |
| `Bits.XorAssoc` | src/flexfec.js:98-107 | XOR of the recovery fields is associative; with XorComm and XorSelf the fields form a group in which every element is its own inverse |
| `JitterBufferModel.Run` | src/jitter_buffer.js:105-209 | for any sequence of pushes, timer ticks, resets and setting changes and any maxSize: the state keeps its invariant (at most maxSize packets, every packet reachable from the play-out position), the events are one well-formed play-out, and packets that entered equal packets held plus played plus dropped, as multisets |
| `JitterBufferModel.ApplyConsistent` | src/jitter_buffer.js:105-161 | one call, of any kind, keeps the whole account of the run |
| `JitterBufferModel.RunPlaysInOrder` | src/jitter_buffer.js:175-232 | in any run, packets and losses between two other events carry consecutive numbers modulo 2^16 |
| `JitterBufferModel.Consecutive` | src/jitter_buffer.js:175-232 | a stretch of packets and losses counts up by one, in numbers and in unbounded positions |
| `JitterBufferModel.NoRepeat` | src/jitter_buffer.js:175-232 | between two resyncs or resets no position is played or lost twice, however many gaps lie between |
| `JitterBufferModel.GapAnnounced` | src/jitter_buffer.js:214-232 | a gap event follows the losses of exactly its first 512 numbers, names where the gap starts and ends, and the packet at its end is the next event |
| `JitterBufferModel.EarliestNear` | src/jitter_buffer.js:214-216 | in every sound state the earliest packet lies at most 0x8000 ahead, so its distance never reads as negative |
| `JitterBufferModel.GapSound` | src/jitter_buffer.js:214-232 | declaring a gap to the earliest packet never takes the negative branch, keeps the invariant, and moves the play-out exactly to that packet |
| `JitterBufferModel.ChainedRewind` | src/jitter_buffer.js:135-142 | moving the start back by at most 128 before anything was emitted keeps every packet reachable |
| `JitterBufferModel.FlushSound` | src/jitter_buffer.js:175-209 | the flush loop keeps the invariant and its events continue the play-out, for any clock and any emission budget |
| `JitterBufferModel.StoreSound` | src/jitter_buffer.js:149-160 | storing, with the forced advance when over capacity, leaves at most maxSize packets and continues the play-out |
| `JitterBufferModel.PushSound` | src/jitter_buffer.js:105-147 | every push - first, late, rewinding, replacing, resyncing or rejected - keeps the invariant and continues the play-out |
| `JitterBufferModel.FlushConserves` | src/jitter_buffer.js:175-209 | a flush plays some of the held packets once each and keeps the others |
| `JitterBufferModel.PushConserves` | src/jitter_buffer.js:105-161 | what a push offers is afterwards held or has been played exactly once |
| `JitterBufferModel.JitterBuffer.FindNextAvailable` | src/jitter_buffer.js:255-270 | the windowed lookup finds the same packet as the full circular scan, and nothing only when the buffer is empty |
| `JitterBufferModel.JitterBuffer.FindEarliest` | src/jitter_buffer.js:273-281 | the full scan finds a packet no other packet is nearer than, whatever the key order |
| `JitterBufferModel.JitterBuffer.DeclareGap` | src/jitter_buffer.js:214-232 | the loop performs the gap transition and counts how often the negative branch is taken |
| `JitterBufferModel.JitterBuffer.DoFlush` | src/jitter_buffer.js:175-209 | the loop ends in the state and with the events of the flush transition |
| `JitterBufferModel.JitterBuffer.DoForceAdvance` | src/jitter_buffer.js:239-245 | skips to the earliest packet and flushes, as the transition says |
| `JitterBufferModel.JitterBuffer.PushPacket` | src/jitter_buffer.js:105-161 | performs the push transition in place; the object stays valid, so the negative branch is never taken |
| `JitterBufferModel.JitterBuffer.OnTimer` | src/jitter_buffer.js:175-209 | performs one run of the flush timer in place and keeps the object valid |
| `JitterBufferModel.JitterBuffer.ResetState` | src/jitter_buffer.js:301-307 | returns to the state before the first packet |
| `JitterBufferModel.JitterBuffer.Size` | src/jitter_buffer.js:284 | the counter equals the number of buffered packets and never exceeds maxSize |
| `JitterTiming.TickRight` | src/jitter_buffer.js:94-209 | a run of the timer gives up a gap only before a held packet that waited at least the latency, and with a known round-trip time also two round trips and the margin, and that packet follows; at most max(64, maxSize) packets leave; when fewer do, nothing is held or the next number is missing and the nearest packet held has not waited that long; what stays is untouched |
| `JitterTiming.PushRight` | src/jitter_buffer.js:105-161 | by how far its number lies behind the next one, a packet starts the stream, is dropped and counted (129 to 32768 behind), as the eighth such in a row moves the stream to itself, is dropped as late, moves the start back, or is stored |
| `JitterTiming.StoreRight` | src/jitter_buffer.js:149-161 | within the capacity storing does nothing else; above it the gap up to the nearest packet is reported, 512 losses and then one event, whatever its age, and the timer's work is done at once |
| `JitterTiming.LateFills` | src/jitter_buffer.js:131-193 | a packet that comes while its number is waited for is the next to leave, and nothing is reported lost before it |
| `SrtpModel.ShiftedSeen` | src/srtp.js:662-674 | shifting the four words moves every seen distance up by n, across word boundaries, and forgets what leaves the window |
| `SrtpModel.WindowRefinesSet` | src/srtp.js:639-660 | a window that stands for a set of accepted indices accepts an index exactly when it is new and fewer than 128 below the maximum, and afterwards stands for the set with it |
| `SrtpModel.HistoryRefined` | src/srtp.js:639-674 | after any history of indices the packed bitmap decides the next one exactly as the set of all accepted indices does |
| `SrtpModel.SenderExact` | src/srtp.js:230-245 | a forward step is indexed correctly exactly when it stays within the rollover or rolls over from above 0xC000 to below 0x8000; every step below 0x4000 does |
| `SrtpModel.SenderBack` | src/srtp.js:230-245 | a packet sent again keeps its index exactly when it lies in the rollover of the highest one and does not look like rolling over |
| `SrtpModel.SenderWraps` | src/srtp.js:233 | after the last rollover of 32 bits indices start again at 0, under the same condition on the step |
| `SrtpModel.SenderHighest` | src/srtp.js:230-242 | in any run the maximum the sender keeps is the highest index it gave |
| `SrtpModel.SenderTracksPositions` | src/srtp.js:230-245 | a whole run of forward steps below 0x4000 gives every packet its position as index, over any number of rollovers |
| `SrtpModel.GuessExact` | src/srtp.js:300-316 | the receiver's rollover guess is right exactly for indices within reach of its maximum; every index nearer than 2^15 is |
| `SrtpModel.DecryptTracks` | src/srtp.js:300-376 | with authentication that succeeds exactly on the right guess, one packet is delivered exactly when in reach and fresh, and the state then stands for the indices delivered |
| `SrtpModel.ExactDelivery` | src/srtp.js:300-376 | under any loss, repetition and reordering an arrival is delivered exactly when its index is within reach, was not delivered before, and is fewer than 128 behind the highest delivered |
| `SrtpModel.AtMostOnce` | src/srtp.js:365-376 | no packet is delivered twice |
| `SrtpModel.DecryptUnguarded` | src/srtp.js:300-376 | with replay protection off everything within reach is delivered, however old and however often, and the maximum is the highest delivered |
| `SrtpModel.EndToEnd` | src/srtp.js:230-376 | sender and receiver together: while arrivals stay within 2^15 of the highest delivered, an arrival is delivered exactly when its packet was not delivered before and is fewer than 128 behind the highest delivered |
| `SrtpModel.ReplayState.ShiftLeft` | src/srtp.js:662-674 | the loop from the top word down, overwriting the words it reads from, leaves the shifted bitmap |
| `SrtpModel.ReplayState.CheckIndex` | src/srtp.js:639-660 | the in-place check and update is the window transition |
| `SrtpModel.ReplayTable.CheckIndex` | src/srtp.js:528-533 | with replay protection off every index passes and no window changes; otherwise each SSRC is checked against a window of its own, made on its first packet, and no other window changes |
| `SrtpModel.ReplayTable.Receive` | src/srtp.js:293-379 | the receive state of one SSRC makes the delivery step; a packet that fails to authenticate changes and creates nothing |
| `SrtpModel.SrtpSender.Protect` | src/srtp.js:230-245 | the index given, and the per-SSRC maximum kept, are those of the sender's step |
| `FlexFecModel.AddSwap` | src/flexfec.js:98-107 | adding packets of different lengths to a sum commutes, in every recovery field and every repair byte |
| `FlexFecModel.TotalAnyOrder` | src/flexfec.js:98-107 | the sum over a group does not depend on the order of its members |
| `FlexFecModel.Cancel` | src/flexfec.js:236-247 | adding all members but one to the group's sum leaves the sum of that one |
| `FlexFecModel.RebuildExact` | src/flexfec.js:248-258 | a packet comes back byte for byte out of its own sum, SSRC, number and recovered length |
| `FlexFecModel.RecoverExact` | src/flexfec.js:225-259 | for an honest FEC packet and genuine media: no member missing is satisfied, more than one waits, exactly one yields that very packet |
| `FlexFecCodec.MaskRoundTrip` | src/flexfec.js:269-287 | a mask in its 15-, 46- or 109-position form parses back to exactly its positions |
| `FlexFecCodec.FormHolds` | src/flexfec.js:84-92 | the chosen form has room for every set position |
| `FlexFecCodec.MaskNames` | src/flexfec.js:84-147 | the numbers parsed from the written mask are distinct, in circular order from the base, also across 65535, and are exactly the group's exactly when the group spans at most 109 numbers |
| `FlexFecCodec.ParseBuilt` | src/flexfec.js:261-295 | parsing a built FEC packet gives the protected SSRC, the numbers the mask names and the group's sum |
| `FlexFecCodec.GroupHonest` | src/flexfec.js:80-162 | the FEC packet of a good group, whatever it wraps across, is parsed as an honest one for exactly that group |
| `FlexFecCodec.FecHeader` | src/flexfec.js:150-161 | the RTP header of a FEC packet: version 2, its payload type, its own number, the timestamp of the group's last packet, the SSRC of the FEC stream |
| `FlexFecCodec.FecShape` | src/flexfec.js:80-161 | a FEC packet has the shortest mask form that reaches the furthest number of the group, one protected stream, nothing in the reserved bytes, and as many repair bytes as the longest payload |
| `FlexFecCodec.GroupParity` | src/flexfec.js:98-113 | every bit of the recovery fields and the repair bytes tells whether an odd number of the group's packets have it, packets shorter than the longest counting as zero past their end |
| `FlexFecCodec.FecRead` | src/flexfec.js:261-295 | for every buffer: what makes it a FEC packet, each number its mask names, position by position in the three parts, and the fields it carries |
| `FlexFecCodec.FlexFecEncoder.Protect` | src/flexfec.js:64-72 | ignores foreign and short packets, collects the others, and emits the FEC packet of a full group |
| `FlexFecCodec.FlexFecEncoder.Flush` | src/flexfec.js:75-78 | a partial group leaves as a FEC packet of its own |
| `FlexFecCodec.FlexFecEncoder.Emit` | src/flexfec.js:80-162 | the emitted bytes are the FEC packet of the group; the group is cleared and the number steps modulo 2^16 |
| `FlexFecCodec.FlexFecEncoder.WriteMask` | src/flexfec.js:115-141 | the words built bit by bit are the mask in the chosen form |
| `FlexFecDecoding.RecoverAllPeels` | src/flexfec.js:207-222 | with honest packets the restarting loop ends with every pending packet missing at least two members, every dropped one missing none, and every output genuine |
| `FlexFecDecoding.RecoverAllLeast` | src/flexfec.js:207-222 | it recovers nothing that is not forced: any set of packets closed under recovery contains the result |
| `FlexFecDecoding.Confluence` | src/flexfec.js:207-222 | whatever order the pending packets are held in, the known packets at the end are the same |
| `FlexFecDecoding.ReceiveFaithful` | src/flexfec.js:186-222 | any arrival of the sender's media or FEC packets leaves only genuine packets known and outputs only original ones |
| `FlexFecDecoding.RunExact` | src/flexfec.js:186-259 | under any loss, repetition and interleaving every packet the decoder ever outputs is byte for byte one that was sent, also when rebuilt from rebuilt packets |
| `FlexFecRuns.LastUnknownRecovered` | src/flexfec.js:198-259 | the arrival of the FEC packet of a group of which one member is unknown outputs that member |
| `FlexFecRuns.FecWaits` | src/flexfec.js:198-222 | that of a group of which two are unknown is kept, and only when 64 are pending does the oldest leave; that of a complete group is not kept, though the oldest leaves all the same |
| `FlexFecRuns.MediaRight` | src/flexfec.js:186-222 | a media packet leaves known the last `win` packets in the order in which they became known, and after them exactly what is recovered, in the order it is output; every pending FEC packet stays or is complete |
| `FlexFecRuns.RunRecovers` | src/flexfec.js:186-259 | in a run that lets at most `win` packets become known - at most `win` arrivals, or any number that lead to no more than some `win` packets - and with at most 64 FEC packets, in any order and with any loss and repetition, the packets known at the end are the least set that holds what arrived and leaves no group one short whose FEC packet arrived; every one of them arrived or was output |
| `FlexFecRuns.GroupRecovered` | src/flexfec.js:186-259 | in such a run a group whose FEC packet and all members but one arrived has that one known and, if it did not arrive itself, output |
| `FlexFecRuns.AnyOrder` | src/flexfec.js:186-259 | two such runs over the same arrivals, in any order and multiplicity, end with the same packets |
| `FlexFecRuns.FewSent` | src/flexfec.js:186-195 | a stream of at most `win` packets lets no more become known in any run |
| `FlexFecRuns.RecoveredTakesPlace` | src/flexfec.js:186-222 | that at most `win` media packets arrive is not enough: a recovered packet takes a place in the window, so that with `win` 2 a known member is pushed out and a second packet not recovered |
| `FlexFecDecoding.FlexFecDecoder.AddMediaPacket` | src/flexfec.js:186-195 | remembers the packet, trims the window from the oldest, and settles the pending packets |
| `FlexFecDecoding.FlexFecDecoder.AddFecPacket` | src/flexfec.js:198-205 | queues a well-formed FEC packet, keeps the newest, and settles |
| `FlexFecDecoding.FlexFecDecoder.TryRecoverAll` | src/flexfec.js:207-222 | the backward loop that splices and restarts computes the settling step |
| `FlexFecDecoding.FlexFecDecoder.Attempt` | src/flexfec.js:225-259 | the member scan and the XOR loop compute one recovery attempt, also on a corrupt length |
| `Ranges.AddOneContains` | src/retransmit.js:577-587 | adding a number to the sorted half-open ranges adds exactly that number |
| `Ranges.AddOneSorted` | src/retransmit.js:577-587 | the ranges stay sorted, non-empty and apart |
| `Ranges.ClipExact` | src/retransmit.js:781-806 | clipping keeps exactly the members at or above the cutoff |
| `Ranges.ClipInPlace` | src/retransmit.js:781-806 | the in-place loop over range ends performs the clip |
| `HistogramModel.BelowCounts` | src/retransmit.js:448-461 | the buckets below b sum to the number of held samples below b |
| `HistogramModel.QuantileExact` | src/retransmit.js:436-461 | the quantile is the smallest boundary below which at least the asked fraction, held to 0 to 1, of the samples lies |
| `HistogramModel.RingQuantile` | src/retransmit.js:418-461 | where the ring of the latest samples currently starts does not change its quantiles |
| `HistogramModel.RingStep` | src/retransmit.js:418-434 | overwriting the oldest slot keeps the ring equal to the newest samples |
| `HistogramModel.Histogram.AddSample` | src/retransmit.js:418-434 | the ring holds the latest maxNumValues samples in order, clamped to the buckets, and each bucket counts them |
| `HistogramModel.Histogram.InverseCdf` | src/retransmit.js:448-461 | the accumulating loop finds the quantile of the latest maxNumValues samples, 0 without samples |
| `NackModel.EvictExact` | src/retransmit.js:762-774 | deleting from the front while keys are below the cutoff deletes exactly the entries below it, because keys ascend |
| `NackModel.DropBelowExact` | src/retransmit.js:781-806 | the keyframe list loses exactly the numbers below the cutoff |
| `NackModel.AddKeyframeExact` | src/retransmit.js:739-755 | a keyframe number is inserted in order and without repetition |
| `NackModel.InsertExact` | src/retransmit.js:659-737 | the gap's numbers that were not received, and no others, become missing, newest last, never requested so far |
| `NackModel.EvictOldKeeps` | src/retransmit.js:781-806 | ageing out keeps the invariant, forgets nothing above the highest number, and leaves nothing missing older than the window |
| `NackModel.ObserveKeeps` | src/retransmit.js:577-646 | every arrival, recovered or not, keyframe or not, keeps the state invariant (missing ascending, below the highest, disjoint from received, at most maxNackEntries), the ledger of what was requested, and the tally of how often and when |
| `NackModel.FeedbackKeeps` | src/retransmit.js:843-897 | every feedback, at any clock, keeps state and ledger and lists numbers ascending, inside the window and below the highest; at any time but 0 it keeps the tally |
| `NackModel.FeedbackTally` | src/retransmit.js:857-890 | a feedback keeps the tally of requests exactly when it is not made at time 0 or lists nothing |
| `NackModel.ZeroListedAgain` | src/retransmit.js:857-890 | in every state, what is listed at time 0 is listed again by the next feedback that lies the delay past its creation, whatever the round-trip time and the retry limit |
| `NackModel.Run` | src/retransmit.js:577-897 | state invariant and ledger hold after any sequence of arrivals, feedbacks and setting changes at any clock, and the tally as long as nothing was requested at time 0 |
| `NackModel.ClockNotZero` | src/retransmit.js:843-897 | a run whose feedbacks are not made at time 0 requests nothing at time 0 |
| `NackModel.RunRequests` | src/retransmit.js:843-897 | in any run, no number is requested after it arrived, and none first requested before sendNackDelayMs have passed since it was found missing and the highest number lies past it by the median of the late packets so far; when nothing was requested at time 0, none is requested more than max(1, maxNackRetries) times in all, and two requests for one number are at least the then-current RTT apart |
| `NackModel.NeverAfterArrival` | src/retransmit.js:577-604 | no request for a number follows its arrival, direct or as a recovery |
| `NackModel.RoundTripApart` | src/retransmit.js:868-890 | the time between two consecutive requests for a number is at least the RTT known at the second |
| `NackModel.ZeroClockRepeats` | src/retransmit.js:857-890 | a run that shows it: with one retry allowed a number is requested twice at time 0, which also marks an entry as never sent |
| `NackModel.DistinctOnWire` | src/retransmit.js:843-897 | with maxPacketAge at most 65536 the 16-bit numbers of one feedback, at any clock, are distinct |
| `NackRuns.GapNoted` | src/retransmit.js:659-737 | a direct packet that is no keyframe, past a gap: when what is missing and the gap's unreceived numbers fit maxNackEntries, or fit once what the latest keyframe supersedes is let go, exactly these are missing afterwards, those in the window, the new ones dated now and to wait for the median; otherwise, and only then, the list is emptied and a keyframe is asked for |
| `NackRuns.NoGapNoted` | src/retransmit.js:577-646 | every other arrival: a first, recovered or late one takes only its own number off the list; the next number in turn lets those older than the window leave; a keyframe past a gap empties the list; no keyframe is asked for |
| `NackRuns.ArrivalRest` | src/retransmit.js:577-646 | the highest number rises exactly with a first or a direct higher packet; received numbers and keyframes gain the packet and lose exactly what is older than the window |
| `NackRuns.FeedbackRight` | src/retransmit.js:843-897 | a feedback lists exactly the missing numbers in the window that were never requested and are past delay and wait, or were requested a round trip ago and have a retry left; it marks them with the time and one more retry, drops exactly those out of retries, and leaves the others alone |
| `NackRuns.ReceivedArrived` | src/retransmit.js:577-806 | in any run, only numbers that arrived count as received |
| `NackRuns.ListedWhenDue` | src/retransmit.js:565-897 | in any run, a number found missing, and since then not arrived, aged, superseded or overflowed and not requested, is listed by a feedback at which the delay has passed since it was found and the highest number lies past it by the median of the late distances known then |
| `NackModel.NackGenerator.ObservePacket` | src/retransmit.js:577-646 | performs the arrival step in place: the gap waits for the median of the late distances sampled before, and the distance is sampled exactly for packets that come late |
| `NackModel.NackGenerator.NoteGap` | src/retransmit.js:659-737 | counts, makes room, gives up and asks for a keyframe, or inserts the gap with the current median as its wait, as the arrival step says |
| `NackModel.NackGenerator.InsertKeyframe` | src/retransmit.js:739-755 | the binary search inserts where the ordered insertion does |
| `NackModel.NackGenerator.AgeOut` | src/retransmit.js:781-806 | clips, trims and evicts in place as the ageing step says |
| `NackModel.NackGenerator.BuildFeedback` | src/retransmit.js:843-897 | at any clock, sends the feedback step's numbers as 16-bit numbers, logs each request, and keeps the object valid |
| `NackModel.NackGenerator.Visit` | src/retransmit.js:853-896 | the loop that updates entries in place and defers deletion makes the sweep's decisions in order |
| `NackModel.NackGenerator.WaitNumberOfPackets` | src/retransmit.js:565-568 | the waiting distance is the median of the latest late distances, 0 while no packet came late |
| `NackModel.WaitIsMedian` | src/retransmit.js:436-461 | of the latest distances at least half are below the wait, and fewer than half below any smaller number; 0 without any |
| `NackModel.NackGenerator.SetRtt` | src/retransmit.js:816-819 | the RTT is held at 20 ms or more, and nothing else changes |
| `NackModel.NackGenerator.AcknowledgeKeyframeRequested` | src/retransmit.js:908-910 | clears the keyframe request and nothing else |
| `SenderBufferModel.GetIsLast` | src/retransmit.js:92-125 | after any run a packet is fetched exactly when it is the last of its SSRC in its slot and carries the asked number; other SSRCs never matter |
| `SenderBufferModel.LastSizeFetched` | src/retransmit.js:92-125 | with a ring size dividing 2^16, any of the last size consecutively numbered packets of an SSRC is fetched, whatever other SSRCs stored in between |
| `SenderBufferModel.RingExact` | src/retransmit.js:86-125 | the last size packets can be fetched in every run exactly when the size divides 2^16 |
| `SenderBufferModel.LastSizeLost` | src/retransmit.js:92-125 | for every other size the run over positions 0 to 65536 has lost a packet among its last size |
| `SenderBufferModel.ApartExact` | src/retransmit.js:98 | numbers fewer than size positions apart never share a slot exactly when the size divides 2^16 |
| `SenderBufferModel.SenderBuffer.Store` | src/retransmit.js:92-102 | writes one slot of one ring in place and leaves every other ring as it was |
| `SenderBufferModel.SenderBuffer.Get` | src/retransmit.js:119-125 | gives the slot's packet exactly when its number matches |
| `SenderBufferModel.SenderBuffer.Clear` | src/retransmit.js:127-133 | forgets one SSRC or all |
| `RtxModel.UnwrapExact` | src/retransmit.js:150-273 | unwrapping a wrapped packet gives the original without its padding exactly when it is not one whose extension bit is set with only two or three bytes of the block header left, and has no pad count one or two above its payload; otherwise it gives nothing |
| `RtxModel.StrippedParses` | src/rtp.js:168-233 | the packet without its padding parses to the same header, extensions and payload, with the padding bit off |
| `RtxModel.WellFormedWrappable` | src/retransmit.js:207-273 | a well-formed extension block and valid padding are enough for the round trip, whatever the CSRC list |
| `RtxModel.WrappedParses` | src/retransmit.js:150-189 | a wrapped packet parses as the original, under the retransmission's type, number and SSRC, with the two bytes of the original number in front of the payload; marker, timestamp, CSRCs and extensions are the original's |
| `RtxModel.UnwrappedParses` | src/retransmit.js:213-273 | any packet that parses and has two payload bytes is restored to one that parses as it does, without padding, under the given type and SSRC, with the number from its payload; one with fewer is refused |
| `RtxModel.WrappedBytes` | src/retransmit.js:150-189 | whatever the packet, wrapping keeps first byte, marker, timestamp, header and payload bytes and replaces type, number and SSRC |
| `RtxModel.UnwrappedBytes` | src/retransmit.js:213-273 | whatever the packet, unwrapping keeps marker, version, CSRC count and extension bit, clears the padding bit, and takes the number from behind the header |
| `RtxModel.WrappedCarries` | src/retransmit.js:307-314 | the k-th packet wrapped by a stream carries the k-th number after the start modulo 2^16 and the stream's SSRC, and unwraps to its original |
| `RtxModel.Repairs` | src/retransmit.js:92-314 | store to receiver: any of the last size packets of an SSRC is fetched, wrapped under the next number and unwrapped to the original without padding |
| `RtxModel.BuildRtxPacket` | src/retransmit.js:150-189 | the copies and patches of the buffer build the wrapped packet |
| `RtxModel.ParseRtxPacket` | src/retransmit.js:213-273 | the copies and patches of the buffer rebuild the original, and the same inputs are refused |
| `RtxModel.RtxStream.Wrapped` | src/retransmit.js:307-314 | each call wraps under the next number, which moves on even when the packet cannot be wrapped |
| `TransportCcModel.PieceExpands` | src/rtcp.js:280-325 | whichever of the three chunk forms the encoder picks, the parser's reading of the chunk is exactly the symbols it took, then not-received in the places a last chunk has over |
| `TransportCcModel.ChunksRoundTrip` | src/bandwidth.js:92-121 | reading chunks until the count is reached gives back all symbols, for any mixture of forms |
| `TransportCcModel.DeltasRoundTrip` | src/bandwidth.js:123-146 | the deltas read back give every packet's number, flag and rounded delta |
| `TransportCcModel.LengthFits` | src/rtcp.js:336-351 | the length field never overflows, up to 65535 packets |
| `TransportCcModel.BuildParses` | src/rtcp.js:215-384 | parsing a built packet's FCI gives base number, count, feedback count, the reference time floored to 64 ms and held to 24 bits, and every packet's flag and rounded delta |
| `TransportCcModel.HeaderTells` | src/rtcp.js:343-353 | the RTCP header of a built packet: format 15, type 205, its length in words, sender SSRC before media SSRC |
| `TransportCcModel.ToldNearest` | src/rtcp.js:240-265 | a receiver is told every delta from -8192125 to below 8191875 microseconds, to the nearest 250 with halves up; a packet with any other is told as lost |
| `TransportCcModel.DeltaWraps` | src/rtcp.js:246 | deltas count modulo 2^32, so that ToldNearest tells what becomes of every delta |
| `TransportCcModel.DeltaSize` | src/rtcp.js:250-264 | deltas from -125 to below 63875 microseconds take one byte, other told ones two |
| `TransportCcModel.RefNearest` | src/rtcp.js:223-229 | the reference time is the 24-bit count of 64 ms units nearest to the clock's |
| `TransportCcModel.PieceTakes` | src/rtcp.js:280-325 | the encoder takes a run of up to 8191 when fourteen symbols are alike, else fourteen symbols when none needs two bits, else seven |
| `TransportCcModel.ExpandExact` | src/bandwidth.js:95-121 | any chunk of any sender stands for the symbols its bits say, in all three forms |
| `TransportCcModel.SymbolsRead` | src/bandwidth.js:92-121 | of any report just as many chunks are read as are needed; too few give no report |
| `TransportCcModel.DeltasRead` | src/bandwidth.js:123-146 | of any report every packet's delta is read from its place, one unsigned byte or two signed ones; deltas cut short give no report |
| `TransportCcModel.EncodeChunks` | src/rtcp.js:278-325 | the greedy loop produces the chunks of the recursive description |
| `TransportCcModel.EncodePiece` | src/rtcp.js:280-325 | one turn: a run when it is long enough, else the narrowest vector that fits |
| `TransportCcModel.BuildTransportCC` | src/rtcp.js:215-384 | the packet BuildParses is about, for packetCount & 0xFFFF statuses: those past the end of the list count as not received, those beyond the count are left out |
| `TransportCcModel.ParseTransportCC` | src/bandwidth.js:75-155 | the parser's loops compute the parsing function, also on truncated input |
| `TransportCcModel.ParseDeltas` | src/bandwidth.js:123-146 | the second pass computes the delta-reading function |
| `TccGeneratorModel.SortExact` | src/bandwidth.js:490-494 | sorting keeps the arrivals and orders them by number |
| `TccGeneratorModel.UnwrapExact` | src/bandwidth.js:494-517 | when the numbers span less than 32768, raising those below the widest gap lays them out in circular order from the base |
| `TccGeneratorModel.LineStands` | src/bandwidth.js:494-517 | a position of the unwrapped line is taken exactly when its number was recorded |
| `TccGeneratorModel.StatusesRelayed` | src/bandwidth.js:532-546 | statuses written and read back keep every flag, and the exact delta of steady whole-millisecond steps |
| `TccGeneratorModel.StatusesTold` | src/bandwidth.js:532-546 | such a report tells for every position whether it was received, and its time from the start |
| `TccGeneratorModel.FeedbackExact` | src/bandwidth.js:482-564 | for recorded numbers spanning less than 32768, wrapped or not, and whole-millisecond steps in range, building then parsing names exactly the recorded numbers in circular order and the time between any two exactly |
| `TccGeneratorModel.FirstsExact` | src/bandwidth.js:468-473 | the map of what was heard has a number exactly when it was heard, at the time of its first hearing |
| `TccGeneratorModel.HeardIsReported` | src/bandwidth.js:468-564 | over the numbers heard since the last feedback, spanning less than 32768, with neighbours on the circle at most about eight seconds apart: the parsed report names exactly those numbers, with exact differences between their first times |
| `TccGeneratorModel.TransportCCFeedbackGenerator.RecordArrival` | src/bandwidth.js:468-473 | what is held is what was heard since the last feedback, every number at its first time |
| `TccGeneratorModel.TransportCCFeedbackGenerator.BuildFeedback` | src/bandwidth.js:482-564 | nothing when nothing was heard; otherwise the report of what was heard, which is then forgotten, and the feedback count steps modulo 256 |
| `TccGeneratorModel.TransportCCFeedbackGenerator.UnwrapInPlace` | src/bandwidth.js:497-517 | the loops find the widest gap and raise the numbers below it |
| `TccGeneratorModel.TransportCCFeedbackGenerator.StatusList` | src/bandwidth.js:532-546 | the cursor loop lists a status for every position up to the last |
| `NackFciModel.SortExact` | src/rtcp.js:554-555 | the numeric sort keeps the numbers and orders them |
| `NackFciModel.PackMember` | src/rtcp.js:554-574 | the packed entries name exactly the numbers of the list |
| `NackFciModel.NackRoundTrip` | src/rtcp.js:554-588 | packing and parsing are inverse on sets of 16-bit numbers: duplicates dropped, result ascending |
| `NackFciModel.BytesRoundTrip` | src/rtcp.js:65-83 | the entries written as bytes parse back to the numbers they name |
| `NackFciModel.Fewest` | src/rtcp.js:554-574 | no packing into entries of a base and up to 16 following numbers, without wrapping, is shorter |
| `NackFciModel.BuildNackEntries` | src/rtcp.js:554-574 | the nested loops produce the greedy packing of the sorted list |
| `NackFciModel.ParseNackEntries` | src/rtcp.js:576-588 | the parser's loops read the named numbers, ignoring an incomplete last entry |
| `RedModel.PayloadRoundTrip` | src/red.js:89-109 | parsing a built RED payload gives back every block, its offset and the primary frame |
| `RedModel.PayloadRead` | src/red.js:189-221 | every payload: it reads as these blocks exactly when it is their headers - a bit, 7 of type, 14 of offset and 10 of length each, then the primary one - followed by their bytes; anything else is malformed |
| `RedModel.AnyPacketDelivers` | src/red.js:148-187 | of every packet that parses, in whatever order its blocks are, exactly the blocks of timestamps not delivered before come out, oldest first, those of one timestamp in the order of the packet |
| `RedModel.NothingDelivered` | src/red.js:148-158 | a malformed payload is reported, an empty one is not, and neither changes anything |
| `RedModel.PacketCarries` | src/red.js:70-119 | a packet carries its own frame and the r frames before it, whole and with their exact offsets, also across the 32-bit wrap |
| `RedModel.PacketKeeps` | src/red.js:70-109 | whatever was sent before, a packet carries of the newest `redundancy` frames exactly those whose offset and length fit, in order, then its own; one that does not fit is passed over alone |
| `RedModel.OnlyNew` | src/red.js:160-168 | of the frames a packet carries exactly those not delivered before pass the dedupe window |
| `RedModel.AlreadySorted` | src/red.js:169 | the signed-difference sort leaves the frames of a packet in order, also across the wrap |
| `RedModel.RememberMany` | src/red.js:171-176 | the window then remembers exactly the newest delivered stamps |
| `RedModel.DeliverOne` | src/red.js:148-187 | one packet delivers exactly the frames up to its own that were not delivered, in order, without error |
| `RedModel.DeliversInOrder` | src/red.js:148-187 | late and repeated packets included, a run whose arrivals leave no gap delivers every frame exactly once, in order, when frames at most r + max apart (max the dedupe window) lie less than 2^32 ticks apart |
| `RedModel.EveryFrameOnce` | src/red.js:70-187 | with at most r packets in a row lost, every frame from r before the first received packet to the last is delivered exactly once, in timestamp order, across the 32-bit wrap, when frames at most r + max apart (max the dedupe window) lie less than 2^32 ticks apart |
| `RedModel.REDPacketizer.Do` | src/red.js:70-119 | the payload is built from the newest frames sent before, the history keeps as many as needed, only the first packet is marked |
| `RedModel.REDPacketizer.Assemble` | src/red.js:89-109 | headers and bodies written by offset into one buffer of the exact size are the payload |
| `RedModel.REDDepacketizer.Depacketize` | src/red.js:148-187 | the loops perform the receiving step; a malformed payload changes nothing and is reported |
| `RedModel.REDDepacketizer.Parse` | src/red.js:190-221 | the cursor loops accept and reject exactly what the parsing function does |
| `H264Split.SplitFound` | src/h264.js:378-447 | splitting gives every unit back, short of one last zero byte where a 3-byte start code follows |
| `H264Split.AnyBytesSplit` | src/h264.js:417-447 | whatever the bytes, with a start code in them: what lies before the first code is dropped, and the rest is codes and units up to where the next code begins, of which those that are not empty come out, in order |
| `H264Split.SplitExact` | src/h264.js:378-447 | units come back whole exactly when none that ends in a zero byte stands before a 3-byte start code |
| `H264Split.ZeroLost` | src/h264.js:431-445 | 65 00 before 00 00 01 comes back as 65 |
| `H264Split.JoinSplits` | src/h264.js:452-463 | what the joiner writes always splits back to the same units |
| `H264Split.AvccSplits` | src/h264.js:378-411 | length-prefixed units read as Annex-B exactly when the first length is 1 or 256 to 511; otherwise they come back whole |
| `H264Split.OtherwiseAnnexB` | src/h264.js:378-411 | everything else is read as Annex-B: what starts with a code, and what no length-prefixed units, each with the top bit of its first byte clear, tile |
| `H264Split.AvccExact` | src/h264.js:378-447 | length-prefixed units come back exactly when the first length is not 1 or 256 to 511, or when all of them are single bytes, whose lengths then read as start codes |
| `H264Split.AvccMisread` | src/h264.js:378-447 | units of 1 and 2 bytes behind their lengths come back as one unit of 7 bytes |
| `H264Split.UnframedCut` | src/h264.js:417-447 | without any start code or lengths the buffer comes back whole exactly up to three bytes; of a longer one only its last three |
| `H264Split.SplitLoop` | src/h264.js:417-447 | the two scanning loops compute the splitting function |
| `H264Split.TryAvcc` | src/h264.js:396-411 | the walk accepts exactly the buffers that units tile |
| `H264Split.Join` | src/h264.js:452-463 | the measured and filled buffer holds the units behind 4-byte codes |
| `H264.PiecesFit` | src/h264.js:108-164 | every payload fits the MTU, exactly the last piece of the unit list is marked, and no fragment is start and end at once |
| `H264.WireFit` | src/h264.js:108-164 | the same of the packets on the wire, whose numbers are consecutive modulo 2^16 |
| `H264.FragmentsArrive` | src/h264.js:294-324 | the fragments of a unit, taken in order, rebuild it byte for byte with its header restored |
| `H264.NalusArrive` | src/h264.js:267-344 | an access unit sent as packets comes out as one access unit with the same units, timestamp and key flag, whatever fragments an earlier loss left behind |
| `H264.FrameArrives` | src/h264.js:108-344 | an Annex-B frame with mixed start codes comes out as the units the splitter found, joined with 4-byte codes |
| `H264.RunArrives` | src/h264.js:108-344 | any stream of frames comes out frame by frame, in order, without error |
| `H264.ReceivedExact` | src/h264.js:108-344 | the receiver has the very units that were sent exactly when no unit ending in a zero byte stood before a 3-byte start code |
| `H264.StapADelivers` | src/h264.js:82-103 | an aggregation packet delivers exactly its units, in order, without error: with the marker, which is the default, as one access unit together with the units waiting, its key flag set exactly when one of them is an IDR; without it they wait |
| `H264.SmallWhole` | src/h264.js:126-135 | a unit no longer than the MTU leaves whole, a longer one in fragments |
| `H264.FewestFragments` | src/h264.js:139-164 | in as few fragments as its bytes need |
| `H264.FullFragments` | src/h264.js:139-164 | all fragments but the last have the size of the MTU |
| `H264.StartLost` | src/h264.js:294-325 | of a unit whose first fragments are lost, every later one is reported and nothing is kept or handed on |
| `H264.Unsupported` | src/h264.js:267-330 | types 0, 25 to 27 and 29 to 31, and a fragment of one byte, are reported and change nothing |
| `H264.NothingHeard` | src/h264.js:267-268 | an empty payload, and what is no RTP packet, changes nothing and reports nothing |
| `H264.CutAnywhere` | src/h264.js:294-324 | the fragments of a unit, cut by any sender into any parts, empty ones among them, with any reserved bits, and whatever was held before, give the unit with its header restored |
| `H264.AggregateRead` | src/h264.js:278-293 | of an aggregation packet of any sender the units arrive in order, empty ones are passed over, and a length past the end is reported |
| `H264.KeyIs` | src/h264.js:276-343 | an access unit is a keyframe exactly when one of its units has type 5 |
| `H264.H264Packetizer.Packetize` | src/h264.js:56-137 | splits and packetizes; the numbers used step modulo 2^16 by the number of packets |
| `H264.H264Packetizer.FragmentFUA` | src/h264.js:139-164 | the loop over the computed fragment count emits exactly the fragments |
| `H264.H264Depacketizer.Depacketize` | src/h264.js:267-344 | performs the receiving step in place, with its error reports and early returns |
| `H264.H264Depacketizer.Walk` | src/h264.js:278-292 | the walk over an aggregation packet, skipping empty units and stopping at a truncated one |
| `HeaderExt.BlockRoundTrip` | src/rtp.js:640-700 | a written block is well formed, and parses back to its map exactly when the map has no id 15 and no single byte under id 0 |
| `HeaderExt.ReadSayable` | src/rtp.js:640-655 | whatever the bytes, the parser only yields maps of the kind a block can express |
| `HeaderExt.BlockRead` | src/rtp.js:640-658 | any block, of padding bytes and elements in any order: the last element under each id is read, up to id 15 or an element longer than what is left |
| `HeaderExt.EveryBlock` | src/rtp.js:640-658 | there is no other kind of block |
| `HeaderExt.WriteExtensions` | src/rtp.js:657-700 | a block is written exactly when every value has 1 to 16 bytes; otherwise the source throws |
| `HeaderExt.ParseLoop` | src/rtp.js:640-655 | the cursor loop computes the parsing function, with its three ways to stop or skip |
| `HeaderExt.WriteLoop` | src/rtp.js:657-700 | the measured and filled buffer is the block |
| `Rtp.MadeParses` | src/rtp.js:288-315 | a built packet parses back to its marker, payload type, number, timestamp, SSRC and payload |
| `Rtp.LaidOutParses` | src/rtp.js:168-232 | every packet laid out as the standard says parses to its fields, with CSRC list, extension block of any profile, and padding taken off when valid and left when not |
| `Rtp.CutExtensionParses` | src/rtp.js:186-224 | an extension claiming more than the packet holds leaves no payload and is not read; an extension bit with less than a block header behind it is ignored |
| `Rtp.Unparseable` | src/rtp.js:168-184 | exactly packets shorter than 12 bytes or than their CSRC list, or of another version, do not parse |
| `Rtp.PayloadOffset` | src/rtp.js:151-166 | agrees with the parser on every input, malformed ones included |
| `Rtp.ParsePacket` | src/rtp.js:168-233 | the parser with its CSRC loop, clamped extension and validated padding |
| `Rtp.SpliceAgain` | src/rtp.js:815-855 | a block put into a packet is found again, and putting another in its place gives what putting that one at once would |
| `Rtp.ChainMerges` | src/rtp.js:815-855 | setting entries one at a time, reparsing each time, ends at the packet with one merged block |
| `Rtp.OnePassAnyOrder` | src/rtp.js:870-914 | several extensions, at least one valid, set in one pass give byte for byte what setting them one at a time in any order gives |
| `Rtp.OnePassExact` | src/rtp.js:870-914 | in the same order the two differ exactly when no entry is valid and a block is present that is not as the writer would write it |
| `Rtp.NothingSetRewrites` | src/rtp.js:894-914 | a packet whose block starts with padding is rewritten by the one-pass form though nothing is set |
| `Rtp.EditedParses` | src/rtp.js:870-914 | parsing the result gives the old map overridden by the new one; CSRCs, fixed fields but X, padding and payload are unchanged |
| `Rtp.EditRight` | src/rtp.js:870-914 | for every packet and every list of entries: left alone when too short, when its block is of another kind or cut off, or when it has none and nothing valid is asked for; else the same packet in which every id has the last 1 to 16 bytes asked for it, for ids 1 to 14, else what it had |
| `Rtp.EditOneRight` | src/rtp.js:815-855 | setting one extension is that with one entry, and nothing at all when the entry is not valid |
| `Rtp.SetHeaderExtension` | src/rtp.js:815-855 | the buffer filled in three copies is the one-entry edit, with every early return |
| `Rtp.SetHeaderExtensions` | src/rtp.js:870-914 | the loop over entries and the filled buffer are the one-pass edit, with every early return |

## Left out

- AES, GCM, HMAC, key derivation and the IV layouts of src/srtp.js: calls into cryptography; authentication is ideal here.
- SrtpModel.EndToEnd: does not cover sending old numbers again on one SSRC after a wrap, where the sender gives them new indices (SrtpModel.SenderBack).
- SRTCP packet assembly and its index counter (src/srtp.js:388-480): only the per-SSRC replay check is modelled.
- JitterBufferModel.JitterBuffer.PushPacket: does not model callbacks that call back into the buffer; events are collected in a log.
- `close()` of every class: it ends a run.
- HistogramModel.Histogram.InverseCdf: compares counts with the asked fraction in exact rational arithmetic; the source adds floating-point fractions of the total.
- NackModel.NackGenerator.ObservePacket: does not model `reset()` of the generator, which starts a new run.
- `NackThrottle` (src/retransmit.js:331-360): a time window with a random sweep, short and without a property across calls.
- The `flat-ranges` package: modelled by its contract on sorted half-open pairs, not by its code.
- TccGeneratorModel.FeedbackExact: holds for whole-millisecond steps within the large delta; outside it the encoder marks the packet lost while the generator still measures the next one from it.
- TccGeneratorModel.FeedbackExact: states the absolute time only when it fits 24 bits of 64 ms; `buildTransportCC` holds larger clocks at the limit.
- `BandwidthEstimator` (src/bandwidth.js:237-400): empirical thresholds in floating point.
- Sender and receiver reports, REMB, PLI, FIR, SDES, BYE, compound packets and SDP: fixed layouts and strings.
- FlexFecRuns.RunRecovers: does not cover runs in which more than `win` packets become known or over 64 FEC packets arrive; older ones are then forgotten as FlexFecRuns.MediaRight and FlexFecRuns.FecWaits state.
- RedModel.EveryFrameOnce: does not cover frames at most r + max apart that lie 2^32 ticks or more apart, where a 32-bit stamp still in the dedupe window can come round again.
- RedModel.EveryFrameOnce: does not cover frames over 1023 bytes or offsets over 16383 ticks; the packetizer sends their redundant copies in no packet.
- RedModel.REDPacketizer.Do: does not model the RTP header around the payload; `Rtp.MadeParses` is about that.
- H264.H264Packetizer.Packetize: takes the RTP timestamp as given; the conversion from microseconds is floating point.
- `peekKeyframe` of src/h264.js: a stateless look at one payload.
- Rtp.SetHeaderExtension: assumes the packet is at least as long as its CSRC list; for a shorter one the source copies uninitialised memory into the result.
- Rtp.SetHeaderExtensions: takes the entries as a list of integer ids with their values; other property names of a JavaScript object are not modelled.
- `serialize`, `readExtension`, `remapExtensionIds` and the one-byte readers of src/rtp.js: the same fields and walk as the modelled parser and writer.
- SenderBufferModel.SenderBuffer.Store: also stands for `storeOwned`, whose caller promises not to modify the packet; sharing of that memory is not modelled.
- Writers that fill a freshly allocated buffer front to back are modelled as appending in FlexFEC, transport feedback and NACK packing; the other writers fill an array.
- src/h265.js, src/aac.js, src/vp8.js, src/vp9.js, src/av1.js, src/opus.js, src/g711.js, src/g722.js, src/dtmf.js, src/forward.js: the same shapes with easier members.
