# MPEG-TS demuxer: seeking, framing, clocks and codecs

A Dafny model of the hard parts of an MPEG transport stream demuxer, with proofs over every input, every run or
every stream. `dafny verify dfyconfig.toml` checks the whole project.

**Seek engine** (`StreamGrid`, `Locator`, `AccessPoints`, `AccessPointScan`, `SeekRefinement`, `SeekWindow`,
`SeekLanding`, `SeekChoice`, `SeekExamples`, `Timeline`, `Demuxer`). A stream is a sequence of packet events on a
grid of 188, 192 or 204 bytes, with a shorter tail: PID, optional PCR, random-access indicator, and a PES start with
optional PTS and alignment bit, or a packet that does not parse. The class `Demuxer` keeps the byte cursor, the PCR
bracket, the cached index, the per-PID trackers and the splitters, and its methods are the loops of the program over
byte offsets. Each is proved against a specification on packets, and the theorems are about that specification:
where the bisection lands and when its documentation is right, how few rounds the back-off takes, that the windowed
seek refines the full index, that a landing is followed by the announced PES under the sought time, and that every
timestamp stays on one timeline through seeks and reads in any order.

**Audio access units** (`AudioHeaders`, `AudioSplitter`, `AudioLaws`, `AudioFeed`, `AudioRun`, `AudioStamps`,
`AudioGeometry`, `AudioEmit`). The three header parsers in full, the splitter as a class whose `Push` is the
source's loop, byte conservation on arbitrary input, framing that does not depend on how the stream is cut into
payloads, and which frames get the time they are due.

**Clocks and counters** (`Timestamps`, `Continuity`, `PcrClock`). The three ways 33-bit times are unwrapped, the
4-bit continuity counter and PCR jitter, each as a class plus what it reports over whole runs.

**Huffman text** (`Kraft`, `Huffman`, `HuffmanLaws`, `HuffmanSamples`). The order-1 decoder over any table: which
tables decode every input, which texts come back from every table, and what truncation does.

**Codecs that undo each other** (`AnnexB`, `ExpGolomb`, `Descriptors`) and the **packet reader** with its resync and
put-back (`PacketReader`, in `Resync.dfy`, over an input whose reads may be short; `HeaderScan` for opening).
`Arithmetic`, `Bytes` and `Wrappers` hold what several share.

## Where the program and its documentation part

- The bisection does not always find "the last PCR at or before" the target: the guard leaves the packet at `lo`
  unexamined (`Locator.StopsOneShort`). `Locator.LandingExact` says exactly when it does.
- Interpolated audio stamps stall when frame after frame commences with less than a header before its payload ends
  and no header has been seen since the first PES stamp: the anchor then has rate 0, and each frame repeats the PES
  stamp (`AudioStamps.StampsStall`). For frames of one geometry
  `AudioStamps.StampExact` says exactly when stamps are right.
- Where frames differ in samples, a stamp counts all frames since the anchor as if they were like the last one seen,
  so frames behind longer or shorter ones are off (`AudioGeometry.LongFrameLostTicks`); `AudioGeometry.SoundExact`
  gives the condition.
- A byte 27 in Huffman text does not survive encoding under the shipped tables unless it follows a byte of 128 or
  above, since the decoder reads its code as the escape (`HuffmanLaws.EncodableExactly`).
- Opening a stream does not always resume where the header scan stopped: the byte count covers the packets returned,
  not the garbage a resync skipped, and a put-back is left in front (`HeaderScan.ReadsAgain`).
  `HeaderScan.ResumesExactly` gives the condition.
- Audio whose first payload ends inside its first frame is not split: the payload goes through whole and its bytes
  do not join the next (`AudioEmit.HandedThrough`). `AudioEmit.FramedExactly` gives the condition.
- The continuity gap is exact to 14 lost packets, or 15 behind a duplicate (`Continuity.GapIsExact`).
- The tail probe's way out at the start of the file is never taken, because the head PCR is found first
  (`Demuxer.Demuxer.FindTail`).
- An access-point seek that ends in Unsupported leaves the input cursor where the window from the head ended, while
  the byte count stays (`SeekExamples.RefusedSeekMovesCursor`), if and only if windows were scanned
  (`SeekChoice.CursorKeptExactly`). The plain `seek_to` repositions afterwards and does not show it.

## Assumptions of the main seek theorem

`SeekWindow.WindowedSeekRefinesIndex` holds for every stream on whose PID each PES start parses; consecutive
PTS-bearing PES lie less than 2^32 ticks apart in true time and the first lies in epoch 0 (`SeekRefinement.Timed`);
none presents more than 90000 ticks before an earlier one (`SeekRefinement.Reordered`); and every PCR lies within
2^32 ticks of the next PES on the PID (`SeekRefinement.PcrsNear`). `SeekExamples.GraceIsNeeded` shows a stream
beyond the third where the two differ.

## Model

| member | source | states |
|---|---|---|
| Demuxer.Demuxer.LocatePcrAtOrBefore | src/demuxer.rs:620-641 | without a head or tail PCR the locator is Unsupported; otherwise it returns byte offset and extended time of the packet `Locate` names, clamped to the bracket |
| Demuxer.Demuxer.Search | src/demuxer.rs:643-673 | the loop over byte offsets, halving and rounding to the grid, ends at the packet the packet-level bisection ends at |
| Demuxer.Demuxer.Narrow | src/demuxer.rs:649-672 | one round moves `lo` behind a PCR at or before the target, `hi` to one past it, or `hi` to the middle of a PCR-free upper half |
| StreamGrid.Midpoint | src/demuxer.rs:649-652 | halving a byte range and rounding down to the packet size halves the packet range, and the byte guard `hi - lo > psize` is "more than one packet" |
| Locator.Lands | src/demuxer.rs:620-674 | on every stream the landing carries a PCR between head and tail, at or before the target unless the head clamp was taken |
| Locator.LandingGuarantee | src/demuxer.rs:609-674 | if PCR times do not run backward, every PCR past the landing is after the target except perhaps the one in the very next packet; "last PCR at or before the target" holds if and only if the final bracket does not leave one unexamined packet with a PCR at or before the target |
| Locator.LandingExact | src/demuxer.rs:609-674 | for a target past the head whose last PCR is in packet p the landing is p, or p - 1 with a PCR of its own; it is p if and only if p ends the bracket or halving the packet numbers comes upon p, which the placement of the PCRs alone decides |
| Locator.HeadTarget | src/demuxer.rs:636-638 | a target equal to the head's time lands on the head, which is the last such PCR if and only if no later PCR repeats the time |
| Locator.SpacedPcrs | src/demuxer.rs:609-674 | when the packet before the last PCR at or before the target carries none, the documented promise holds for that target |
| Locator.StopsOneShort | src/demuxer.rs:649-673 | the documented promise fails on eleven back-to-back PCR packets: target 27000 lands on 18000 although packet 5 carries 27000, which halving never comes upon |
| Locator.BackOffIsLogarithmic | src/demuxer.rs:924-966 | for every bracketed stream and every target the back-off makes at most 18 rounds n, with 90000 * (2^(n-2) - 1) at most the time from the head to the first landing |
| Locator.RoundStart | src/demuxer.rs:924-966 | while no round has reached the head, round n searches at or before target - 90000 * (2^n - 1) and steps back 90000 * 2^n: neither saturating operation ever saturates |
| Demuxer.Demuxer.ScanPcrForward | src/demuxer.rs:1149-1164 | the first PCR in the byte range with its packet's offset, or none |
| Demuxer.Demuxer.ScanPcrBackward | src/demuxer.rs:1169-1186 | the last PCR in the byte range with its packet's offset, or none |
| Demuxer.Demuxer.FindTail | src/demuxer.rs:557-572 | doubling windows from the end find the last PCR of the whole file; given a head PCR the give-up at the start of the file is never taken |
| Demuxer.Demuxer.ProbeAnchors | src/demuxer.rs:533-577 | head and tail anchors are the first and last PCR of the file, the tail only if it lies behind the head, and none without a PCR PID or two packets |
| Demuxer.Demuxer.constructor | src/demuxer.rs:428-474 | an opened demuxer is valid: blank trackers and reassemblers for every elementary PID, splitters for the audio ones, the bracket probed, the put-back of the header scan kept, and the cursor at its byte count |
| HeaderScan.ResumesExactly | src/demuxer.rs:464-474 | what streaming goes on with after opening is what lies behind the header scan if and only if no read of the scan had to resync; after a resync it is longer by at least one packet and the put-back |
| HeaderScan.ReadsAgain | src/demuxer.rs:464-474 | one packet of zeros before two clean ones: after a scan of one packet one clean packet is left, and the opened stream holds a stray sync byte and both clean packets |
| AccessPointScan.ScannedStep | src/demuxer.rs:753-805 | after each packet the records are the index of the packets so far, the unresolved lists hold exactly the flags that have met no PES start, and the reference per PID is the last extended PTS |
| Demuxer.Demuxer.ScanRandomAccessPoints | src/demuxer.rs:725-811 | the one-pass scan with its three mutable tables returns the index: per flag the PTS of the next PES to start on its PID, per unannounced aligned timed PES its own; the cursor is restored |
| Demuxer.Demuxer.IndexPacket | src/demuxer.rs:757-805 | the loop body: push a flag, resolve or drop what a PES start announces, else record an aligned start |
| Demuxer.Demuxer.Resolve | src/demuxer.rs:785-790 | the announced PES's PTS, or none, goes to exactly the records that waited for it |
| Demuxer.Demuxer.RandomAccessPoints | src/demuxer.rs:716-722 | the index is built once and cached, and no call moves the cursor |
| Demuxer.Demuxer.ScanAccessPointsWindow | src/demuxer.rs:988-1060 | the window loop returns both tiers of `OpenWindow` from the packet at the given offset, the reference clamped at zero |
| Demuxer.Demuxer.TakePacket | src/demuxer.rs:1022-1057 | the loop body: first pending flag kept, unparsable PES skipped, PTS-less PES consumes the flag, tiers updated at or before the target, stop past the grace |
| SeekRefinement.IndexTimes | src/demuxer.rs:742-778 | the index extends every PTS of a PID to its true time when consecutive ones lie under 2^32 apart and the first is in epoch 0 |
| SeekRefinement.IndexBest | src/demuxer.rs:1070-1092 | the index's indicator choice is the last flagged packet whose announced PES is at or before the target, and none only if there is no such packet |
| SeekChoice.ChoiceExact | src/demuxer.rs:1067-1101 | on every stream the index seek fails if and only if its PID has no PES with a PTS that is aligned or announced, and lands at or before the target if and only if such a PES is there |
| SeekChoice.ChoiceMeaning | src/demuxer.rs:1072-1098 | a successful choice is the last timed point at or before the target, or when there is none the first of all, indicators before alignment both times |
| SeekWindow.WindowFinds | src/demuxer.rs:988-1060 | the scan finds the last announced PES at or before the target of the whole rest of the stream although it stops early; on PIDs without flags the last aligned one |
| SeekWindow.SameAnnounced | src/demuxer.rs:988-1060 | flags before the window do not matter: the PES the window's best flag announces is the one the index's best flag announces |
| SeekWindow.WindowedSeekRefinesIndex | src/demuxer.rs:909-972 | for every stream, target and back-off state under the timing assumptions, bisect-scan-back-off fails exactly when the index seek fails, or lands on the same PTS with the same PES the next to start |
| Demuxer.Demuxer.SeekIsIndexSeek | src/demuxer.rs:909-972 | the same for the demuxer in any state: what an access-point seek lands on does not depend on whether the index is cached or a PCR bracket exists |
| SeekExamples.AnchorsDiffer | src/demuxer.rs:1032-1034 | why only PTS and next PES are promised: with two flags before one PES the window lands on the first flag's packet and the index on the last |
| SeekExamples.GraceIsNeeded | src/demuxer.rs:995-999 | without the reordering bound the two disagree: the scan stops behind a PES at 200000 and misses the access point at 5000 the index finds |
| SeekLanding.LandingPicksUp | src/demuxer.rs:174-186 | on every stream, after a landing from the index the first PES to start on the PID is the announced one and the re-seeded tracker gives it the PTS the seek returned |
| Demuxer.Demuxer.SeekPicksUp | src/demuxer.rs:909-972 | after any successful access-point seek, by window or index, the first PES to start on the PID presents at the returned PTS and the re-seeded tracker stamps it with that |
| Demuxer.Demuxer.SeekViaIndex | src/demuxer.rs:1067-1101 | lands on indicator before alignment and on at-or-before before clamp-up, with the whole state re-homed there; or Unsupported with nothing but the cached index changed |
| Demuxer.Demuxer.DecideTier | src/demuxer.rs:939-958 | an aligned candidate is taken only if no indicator exists anywhere on the PID, else the index decides |
| Demuxer.Demuxer.BackOff | src/demuxer.rs:924-971 | the loop lands where the specification of the windowed seek says, in no more rounds than `Rounds` and so 18, and a failure leaves everything but the cached index and the cursor, which is where the window from the head ended |
| Demuxer.Demuxer.SeekToAccessPoint | src/demuxer.rs:909-972 | an unknown stream is an error; a cached index or a missing bracket sends the seek to the index; otherwise the windowed seek; on every failing path the cursor is `FailedCursor` of the one before |
| SeekChoice.CursorKeptExactly | src/demuxer.rs:918-922 | a failed seek leaves every prior cursor where it was if and only if an index is cached or no bracket exists |
| SeekChoice.AlignedMeansSuccess | src/demuxer.rs:939-958 | on every stream a window holding an aligned landing means the index seek succeeds, so a failed seek got to the window from the head |
| SeekExamples.RefusedSeekMovesCursor | src/demuxer.rs:924-971 | a stream without access points: the seek is Unsupported and the cursor ends at the end of the file, which is where it was only if it was there |
| Demuxer.Demuxer.SeekByPcr | src/demuxer.rs:690-694 | lands on the located PCR's packet and returns its extended time |
| Demuxer.Demuxer.SeekTo | src/demuxer.rs:1456-1471 | the PCR landing is used exactly when no access point qualifies; an error leaves the cursor |
| Demuxer.Demuxer.Reposition | src/demuxer.rs:1118-1142 | cursor and byte count at the offset, put-back and queue empty, the PCR tracker and every splitter reset, every reassembler new, every PTS and DTS tracker seeded with a non-negative hint or reset |
| Demuxer.Demuxer.SeedEach | src/demuxer.rs:1131-1141 | all trackers of a map, and no other entry, are seeded or reset |
| Demuxer.Demuxer.FinishPes | src/demuxer.rs:1247-1293 | a PES's PTS and DTS are extended through its PID's trackers, a blank DTS tracker first seeded with this PTS; the first PTS of a stream becomes its start time |
| Demuxer.Demuxer.EmitPes | src/demuxer.rs:1195-1226 | one PES becomes one packet, or the splitter's frames with their stamps, durations and the first one's keyframe flag, or goes through whole while the splitter is unlocked and cuts nothing |
| Timeline.TimelineIsSeekStable | src/demuxer.rs:1118-1142 | over every interleaving of repositions and PES reads on any PIDs every PTS and DTS comes out as its true time, for steps under 2^32, hints within 2^32 and hint-less starts in epoch 0 |
| Timeline.FreshTimeline | src/demuxer.rs:1247-1293 | the same from a newly opened demuxer |
| Timeline.ReentryExact | src/clock.rs:686-689 | the first time after a reposition is right if and only if it lies half a wrap around the hint (any lower one in epoch 0), or in epoch 0 without a hint |
| Timestamps.NearestEpoch | src/clock.rs:700-714 | three candidates suffice: no epoch at all is nearer, and ties go to the smaller |
| Timestamps.NearestEpochMinimises | src/clock.rs:691-714 | the closed form of the search minimises the distance over all epochs |
| Timestamps.NearestEpochFitsU64 | src/clock.rs:700-714 | the search stays within 64 bits if and only if the hint is below the topmost epoch |
| Timestamps.ExtendNearRecovers | src/clock.rs:725-728 | a time is recovered from its 33-bit residue if and only if the reference is at most half a wrap above it, and less than half below it unless it lies in epoch 0 |
| Timestamps.PcrExtRecovers | src/demuxer.rs:598-607 | a PCR is extended to its true time if and only if that lies within one wrap from the head |
| Timestamps.PtsTracker.Observe | src/clock.rs:602-640 | the fields and the event after one observation |
| Timestamps.PtsTracker.Seed | src/clock.rs:686-689 | all history is dropped and the hint held for the next observation |
| Timestamps.FirstObservation | src/clock.rs:602-614 | the exact set of times a fresh or seeded tracker reports truly |
| Timestamps.NextObservation | src/clock.rs:616-640 | for steps under half a wrap the tracker stays true if and only if the step is not backward, or ends in epoch 0; Backward and Wrapped are reported exactly for backward steps and epoch changes |
| Timestamps.SequentialUnwrap | src/clock.rs:602-650 | a whole non-decreasing run comes out as its true times |
| Timestamps.UnwrappersAgree | src/clock.rs:602-728 | sequential tracker, nearest-reference unwrap and head-PCR delta all return the true times of one steady run |
| Continuity.ContinuityTracker.Observe | src/clock.rs:465-516 | the fields and the event after one packet |
| Continuity.GapIsExact | src/clock.rs:488-515 | a gap of n lost packets is reported as n if and only if n is at most 14, or 15 behind a packet received twice |
| Continuity.LossAccounting | src/clock.rs:465-516 | over every whole reception, with payload-less packets and duplicates anywhere, the reported gaps add up to the packets lost and the Duplicate events to the packets received twice |
| PcrClock.BaseExtRoundTrip | src/clock.rs:115-137 | base and extension are the two digits of the 27 MHz ring |
| PcrClock.DeltaRecovers | src/clock.rs:143-154 | the ring difference is the true one of either sign below half a wrap |
| PcrClock.PcrTracker.Observe | src/clock.rs:278-365 | the fields and the event after one packet; no reachable state has `prev` without `last` |
| PcrClock.JitterOfThree | src/clock.rs:322-346 | for floors of a constant rational rate the jitter is below 2 + current gap / previous gap, and 0 at integer rates |
| PcrClock.JitterBound | src/clock.rs:278-365 | over a whole such run no jump is reported while the bound is inside the window, and every sample obeys it |
| AudioHeaders.ParseIsLocal | src/audio_frame.rs:163-441 | each of the three header parsers depends only on the first `header_len` bytes |
| AudioHeaders.ShortFramesAreEac3 | src/audio_frame.rs:163-409 | only an E-AC-3 header announces a frame shorter than the header the splitter waits for; rates are positive and a frame never shorter than one tick |
| AudioSplitter.AudioFrameSplitter.Push | src/audio_frame.rs:568-665 | the loop over the carried bytes and the payload leaves the state, and returns the frames, that the recursive scan describes |
| AudioSplitter.AudioFrameSplitter.FrameStamp | src/audio_frame.rs:628-640 | a carried frame takes the stamp recorded when it was buffered, else interpolates; a fresh one takes the pending PTS or interpolates |
| AudioSplitter.AudioFrameSplitter.Flush | src/audio_frame.rs:719-727 | a buffered partial frame comes out as it is when its header parses, otherwise nothing changes |
| AudioSplitter.AudioFrameSplitter.Reset | src/audio_frame.rs:553-557 | partial frame and anchor forgotten, lock and discard count kept |
| AudioSplitter.AudioFrameSplitter.Unlock | src/audio_frame.rs:561-564 | the lock is forgotten as well |
| AudioLaws.PushConserves | src/audio_frame.rs:568-665 | on arbitrary input, carried plus payload bytes are emitted, newly discarded or kept; frames are disjoint in-order slices that parse to their own length |
| AudioRun.FragmentationIndependence | src/audio_frame.rs:568-665 | for every run of whole frames, of any lengths and geometries, and every cut of it into payloads whose first parses, the pushes emit exactly the completed frames in order, discard nothing and keep the unfinished prefix |
| AudioRun.ScanFeed | src/audio_frame.rs:585-665 | from any frame boundary inside any push the scan emits each completing frame under its own stamp and carries the next over, whole header in view or not |
| AudioEmit.FramedExactly | src/demuxer.rs:1195-1226 | on a run of whole frames the demuxer emits exactly what the pushes cut if and only if the first payload completes a frame; otherwise that payload goes through whole and the splitter is as new |
| AudioEmit.HandedThrough | src/demuxer.rs:1206-1217 | a first payload of seven bytes of a 128-byte frame goes through whole |
| AudioStamps.StampMeaning | src/audio_frame.rs:503-713 | in any fragmentation and for frames of any geometry the anchor holds the last PES stamp taken, the frames counted from it, and the geometry of the last frame whose header was in view where it commenced; the stamp is the count times that geometry |
| AudioStamps.AnchorFrameIsLast | src/audio_frame.rs:670-682 | the anchor frame is the last one that a PES header stamps |
| AudioStamps.StampExact | src/audio_frame.rs:606-713 | among frames of one geometry frame j gets anchor + floor(k * samples * 90000 / rate) if and only if nothing is anchored, a PES stamps it, or a header was in view since the first PES stamp; otherwise it repeats the anchor's stamp |
| AudioStamps.FirstFrameTakesPts | src/audio_frame.rs:670-682 | the first frame to commence in a payload with a PTS gets that PTS, whole, partial or shorter than a header |
| AudioStamps.NoDrift | src/audio_frame.rs:103-109 | consecutive stamps from one anchor differ from the frame duration by at most one tick |
| AudioStamps.StampsStall | src/audio_frame.rs:650-713 | a stream where interpolation fails: two frames commence as sub-header tails and the second, due 2880 ticks later, repeats the first stamp |
| AudioGeometry.SoundExact | src/audio_frame.rs:496-513 | at one sampling rate but with frames of different lengths, frame j gets the time of all the samples since its anchor if and only if nothing is anchored, a PES stamps it, or a header was seen and those frames hold k times the samples of the last frame seen |
| AudioGeometry.UniformIsPlain | src/audio_frame.rs:496-513 | for frames of one geometry the time due by sound is the one due by count, and the condition is met as soon as a header is seen |
| AudioGeometry.LongFrameLostTicks | src/audio_frame.rs:464-473 | an AAC frame of two blocks before one of one block: the second is due 3840 ticks after the first and stamped 1920 after it |
| Huffman.ContextIsExact | src/atsc.rs:205-209 | two partition points select exactly the entries of a sorted table with the given prior byte |
| Huffman.ReadCodeOf | src/atsc.rs:233-259 | reading bit by bit finds exactly the prefix-free entry whose codeword starts the bits |
| Huffman.HuffmanDecodeText | src/atsc.rs:220-275 | the loop returns the decoding of all bits, or None exactly when that is corrupt |
| Kraft.KraftCompleteness | src/atsc.rs:2919-2957 | a prefix-free set has Kraft sum at most one, and exactly one if and only if every string of the maximal length starts with a codeword |
| Kraft.PairwiseApart | src/atsc.rs:2938-2951 | prefix-freeness means that of any two codes neither starts the other |
| HuffmanLaws.ContextTotal | src/atsc.rs:233-259 | in one context no bits are unmatched if and only if its tree is complete |
| HuffmanLaws.DecodingIsTotal | src/atsc.rs:220-275 | a well-formed table decodes all byte strings from the start if and only if all its contexts are complete trees |
| HuffmanLaws.OnlyLoneEscapesFail | src/atsc.rs:2939-2957 | tables of the shipped shape fail only on a 0 bit in a context that is the escape alone |
| HuffmanLaws.HuffmanRoundTrip | src/atsc.rs:2881-2916 | decoding the encoded, padded text returns it for every well-formed table and every encodable text, through escapes and raw characters |
| HuffmanLaws.EncodableExactly | src/atsc.rs:2881-2916 | under every well-formed table whose context 27 is the lone escape, as in both shipped ones, a text comes back if and only if it has no 0 and no 27 except directly behind a byte of 128 or above |
| HuffmanSamples.EncodableUnderAll | src/atsc.rs:2881-2916 | so these are the texts that come back under all well-formed tables |
| HuffmanSamples.SampleIsShipped | src/atsc_huffman.rs:124-171 | contexts 33, 36, 42 and 48 of the title table are complete trees with an escape, and a table with them and lone escapes elsewhere has the shipped shape |
| HuffmanLaws.TruncatedStream | src/atsc.rs:220-275 | decoding a byte prefix of a stream that decodes yields a prefix of its text |
| AnnexB.StartCodeUnits | src/es_params.rs:35-59 | the scan and the slices return the units between the start codes |
| AnnexB.NalToRbsp | src/es_params.rs:105-116 | the loop with its zero count removes exactly the emulation prevention bytes |
| AnnexB.UnescapeEscape | src/es_params.rs:529-539 | removing undoes escaping from any zero count, trailing zeros included |
| AnnexB.EscapeIsClean | src/es_params.rs:529-539 | escaped bytes contain no start code |
| AnnexB.AnnexBRoundTrip | src/es_params.rs:35-116 | for every list of NAL units behind three- or four-byte start codes, framing and unescaping recover each header and RBSP, but for the zeros before the next start code |
| ExpGolomb.Bits.Ue | src/es_params.rs:81-92 | the reader returns the field at its position, or none at the end of the data or beyond 31 leading zeros |
| ExpGolomb.Bits.Se | src/es_params.rs:93-100 | the signed reader returns the signed value of the field at its position |
| ExpGolomb.UeRoundTrip | src/es_params.rs:81-92 | a written value is read back, with exactly 2 * floor(log2(v + 1)) + 1 bits, if and only if it is below 2^32 - 1 |
| ExpGolomb.FieldsRoundTrip | src/es_params.rs:454-477 | sequences of fields read back in order |
| ExpGolomb.FieldAtAnyPosition | src/es_params.rs:62-92 | a field reads back at any bit position of the packed bytes |
| ExpGolomb.SignedRoundTrip | src/es_params.rs:93-100 | the signed mapping is inverted on every value it covers |
| ExpGolomb.Writer.Ue | src/es_params.rs:471-476 | the writer appends the code of the value to the bits written |
| Descriptors.DescriptorIter.Next | src/descriptor.rs:2030-2061 | the rest shrinks by one descriptor, or is emptied by an error |
| Descriptors.ParseDescriptors | src/descriptor.rs:2066-2068 | the loop returns all descriptors, or the first error |
| Descriptors.LoopRoundTrip | src/descriptor.rs:2030-2068 | a block parses to a list if and only if it is the printed list and every body fits its length byte |
| Descriptors.RunRoundTrip | src/descriptor.rs:2985-3018 | a length-prefixed run is read exactly where it was printed |
| Descriptors.ExtendedEventDecodes | src/descriptor.rs:3051-3127 | decoding yields an event if and only if the data begin with its printed body and every field fits |
| Descriptors.ReadItems | src/descriptor.rs:3084-3106 | the loop over the item block returns the items, or fails where a run overruns |
| Descriptors.BuildExtendedEvent | src/build.rs:305-332 | the builder writes the item loop and the text behind their truncated lengths |
| Descriptors.ExtendedEventRoundTrip | src/build.rs:305-332 | what the builder writes parses and decodes to the same numbers, language, items and text if and only if everything fits |
| Descriptors.ServiceRoundTrip | src/build.rs:97-108 | built service descriptors decode to the same fields if and only if they fit one descriptor |
| Descriptors.ShortEventRoundTrip | src/build.rs:123-135 | the same for short events |
| PacketReader.Reader.ReadOnePacket | src/demuxer.rs:1563-1603 | from put-back and input, with reads of any length, the outcome and the bytes left are those of the whole remaining stream; the put-back holds sync offset + 1 bytes after a confirmed resync and none otherwise |
| PacketReader.ResyncExact | src/demuxer.rs:1563-1693 | on every stream of clean packets and recoverable garbage runs repeated reads return exactly the clean packets, then the end |
| PacketReader.ResyncCeiling | src/demuxer.rs:1619-1693 | a run before two clean packets is crossed if and only if it has at most 256 packets |

## Left out

- Byte-level TS, adaptation-field and PES parsing, CRC, PSI sections, PAT/PMT discovery and the parameter probe:
  packets are the events listed above.
- What a reassembler does with the packets fed to it, and the end-of-stream flush: `EmitPes` takes a reassembled
  PES.
- Input errors other than the end of the file and short reads; seek calls on the input always succeed.
- The PCR extension in the seek engine, where only the 90 kHz base is used; `PcrClock` models it.
- The duration value computed from the PCR span (`src/demuxer.rs:578-583`): only the anchors it leaves behind.
- `seek_to_random_access` (`src/demuxer.rs:838-888`): the indicator tier of the index choice alone.
- 64-bit limits of offsets, counts and extended times: naturals throughout, except where the source saturates
  (back-off, window bound), wraps or truncates (jitter prediction, bit rate, Huffman accumulator, Exp-Golomb), or
  where `Timestamps.NearestEpochFitsU64` states the limit. `Anchor.framesSince` does not wrap at 2^32.
- Timeline.TimelineIsSeekStable: non-decreasing times per PID only, because the tracker re-anchors on a small
  backward step by design; `Timestamps.NextObservation` gives the exact condition for one step.
- AudioRun.FragmentationIndependence: a first payload that parses, as the pass-through rule demands.
- AudioGeometry.SoundExact: one sampling rate; across a change of rate `AudioStamps.StampMeaning` says what is
  stamped.
- The PID tables are values in the class `Demuxer`, not tracker or splitter objects of their own; the loop bodies of
  the bisection, the window and the index scan are methods of their own.
- The order in which a hash map is walked: loops over PIDs take any order, and the PID of a stream is unique.
- The shipped Huffman tables: any table is covered, their shape is the predicate `HuffmanLaws.Shipped`.
- The other descriptor decoders and builders, of fixed width and each settled by one function; descriptors carry tag
  and data.
- SPS and sequence-header parsing, multiple string structures, PSIP tables, calendar times, muxing, T-STD and
  validation.
