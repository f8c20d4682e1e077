# H.264 over RTP in libstreaming, modelled in Dafny

This project models the H.264 packetizer of libstreaming (`H264Packetizer`) and
the byte handling in its screen-capture stream (`ScreenStream`).

The packetizer reads H.264 NAL units from an input stream and sends them as RTP
payloads following RFC 3984:

- a single NAL unit packet (section 5.6 of RFC 3984) when the unit fits;
- FU-A fragments (section 5.8) when it does not;
- a STAP-A aggregation packet (section 5.7.1) holding the SPS and PPS in front
  of every IDR slice, while both parameter sets are known.

It understands three framings of the input:

- a 4-octet signed big-endian length before each unit (the MediaRecorder
  stream), with `resync` sliding a five-octet window when the length is
  implausible;
- `00 00 00 01` start codes (the MediaCodec stream, section B.1 of ITU-T H.264);
- no framing at all.

The screen stream contributes four pure pieces:

- the capture size chosen by `adaptiveAspectRatio`;
- the SPS/PPS taken from the encoder's `csd-0`/`csd-1` buffers;
- the start-code splitter that finds the SPS and PPS in the encoder's first
  small output buffer;
- the loop that skips the MP4 header up to the `mdat` box (section 8.1.1 of
  ISO/IEC 14496-12).

The model works as follows:

- The input stream is a finite sequence of octets with a read position.
- The RTP socket is a log of packets: payload, timestamp, and whether
  `markNextPacket` was requested.
- `MAXPACKETSIZE` and `RTPHL` are a `Config`, with `MAXPACKETSIZE - RTPHL - 2 > 0`.
- The packetizer's fields are a `State` value. `send` is a pure function from
  state and input to packets, the new read position, the new state, and how the
  call ended.
- The collaborators' values are a `Timing` parameter: the statistics' `delay`,
  the codec's last presentation time, and `available()`.

Where the code differs from what a reader might expect, the model follows the
code:

- The STAP-A packet is sent with the marker requested, because `markNextPacket`
  is called for it.
- `STREAM_TYPE_UNKNOWN` is not a stop. It takes the raw branch of `send`: one
  header octet is read, and the length is `available() + 1`.
- A length prefix of 0 is accepted by `send`. It yields one packet with an empty
  payload, since `fill` is asked for -1 octets and returns 0.
- The FU indicator keeps only the NRI bits of the header (`& 0x60`). A receiver
  therefore rebuilds the header without its F bit.
- The `0xFF` comparisons in `resync` compare a signed byte with 255 and never
  hold. They only choose a log message, so they are not modelled.
- `fill(...) < 0` never happens, because `fill` throws at the end of the stream.
  A short read is the `EndOfStream` outcome.

## Model

| member | source | states |
|---|---|---|
| Bytes.Int32BE | src/net/majorkernelpanic/streaming/rtp/H264Packetizer.java:212-215 | the length prefix read as a Java `int`: within 32 bits, negative exactly when the top octet has its high bit set, equal to the unsigned value or that minus 2^32 |
| Bytes.Int32BERoundTrip | src/net/majorkernelpanic/streaming/rtp/H264Packetizer.java:212-215 | every 32-bit length written big-endian in two's complement is read back as itself |
| Bytes.Int32BEInjective | src/net/majorkernelpanic/streaming/rtp/H264Packetizer.java:212-215 | writing back the length read from four octets gives those four octets, so distinct prefixes give distinct lengths |
| Bytes.Int32BEOctets | src/net/majorkernelpanic/streaming/rtp/H264Packetizer.java:212-215 | the shifts and masks that built the length take it apart again: the low three octets come back under `>> 8k & 0xFF`, and `>> 24` gives the top octet sign-extended |
| Bytes.Size16BERoundTrip | src/net/majorkernelpanic/streaming/rtp/H264Packetizer.java:151-156 | the two size octets of an aggregation unit read back as the size modulo 2^16 |
| Nal.NalType | src/net/majorkernelpanic/streaming/rtp/H264Packetizer.java:244 | `header[4] & 0x1F` is a type in 0..31 |
| Nal.Nri | src/net/majorkernelpanic/streaming/rtp/H264Packetizer.java:323 | `h & 0x60` is one of 0, 0x20, 0x40, 0x60 |
| Nal.NalTypeMask | src/net/majorkernelpanic/streaming/rtp/H264Packetizer.java:244 | on every octet the type field agrees with the mask `& 0x1F` |
| Nal.NriMask | src/net/majorkernelpanic/streaming/rtp/H264Packetizer.java:323 | on every octet the NRI field agrees with the mask `& 0x60` |
| Nal.FuIndicator | src/net/majorkernelpanic/streaming/rtp/H264Packetizer.java:323-324 | the FU indicator has type 28 (FU-A) |
| Nal.FuHeader | src/net/majorkernelpanic/streaming/rtp/H264Packetizer.java:314-315 | the FU header carries the NAL type, and its start and end bits are set exactly when requested |
| Nal.FuHeaderBits | src/net/majorkernelpanic/streaming/rtp/H264Packetizer.java:314-339 | the FU header equals the type or-ed with 0x80 for a start and 0x40 for an end |
| Nal.FuHeaderClearStart | src/net/majorkernelpanic/streaming/rtp/H264Packetizer.java:344 | masking the first fragment's header with `~0x80` gives the header of a later fragment with the same end flag |
| Nal.RebuiltHeaderDropsFBit | src/net/majorkernelpanic/streaming/rtp/H264Packetizer.java:314-324 | a receiver rebuilding the header from the indicator and FU header gets the original header with the F bit cleared |
| StapA.BuildStapA | src/net/majorkernelpanic/streaming/rtp/H264Packetizer.java:138-161 | the STAP-A buffer is `|sps| + |pps| + 5` long: type 24, the SPS size, the SPS, the PPS size, the PPS, at the offsets the source writes |
| StapA.UnitsOfJoin | src/net/majorkernelpanic/streaming/rtp/H264Packetizer.java:151-160 | aggregation units shorter than 2^16 octets are read back exactly and in order |
| StapA.JoinOfUnits | src/net/majorkernelpanic/streaming/rtp/H264Packetizer.java:151-160 | whatever a receiver reads out of a buffer of units, joining it again gives that buffer |
| StapA.StapARoundTrip | src/net/majorkernelpanic/streaming/rtp/H264Packetizer.java:138-161 | parsing the STAP-A built from an SPS and PPS each shorter than 2^16 octets gives back exactly the SPS and the PPS |
| StapA.StapAParseInjective | src/net/majorkernelpanic/streaming/rtp/H264Packetizer.java:138-161 | a STAP-A buffer that parses into two units is the buffer built from those units |
| FuA.Fragments | src/net/majorkernelpanic/streaming/rtp/H264Packetizer.java:326-346 | the FU-A loop gives every packet both FU octets; it completes exactly when the input holds the remaining `naluLength - sum` octets, and then stops right after them; otherwise it stops at the end of the input |
| FuA.FragmentsStep | src/net/majorkernelpanic/streaming/rtp/H264Packetizer.java:326-346 | one round sends `min(naluLength - sum, cap)` octets behind the indicator and FU header, the end flag and marker exactly when `sum` reaches `naluLength`; the later rounds go out with the start flag cleared |
| FuA.FragmentsPayload | src/net/majorkernelpanic/streaming/rtp/H264Packetizer.java:326-361 | the fragment payloads concatenated are a prefix of the input from the read position; when complete they are all `naluLength - sum` octets, and a short read leaves fewer |
| FuA.FragmentsShape | src/net/majorkernelpanic/streaming/rtp/H264Packetizer.java:323-342 | every fragment is 3 to `cap + 2` octets, carries the same indicator and the NAL's type, and has the NAL's timestamp |
| FuA.FragmentsFlags | src/net/majorkernelpanic/streaming/rtp/H264Packetizer.java:314-344 | the start bit is set only on the first fragment; the end bit only on the last, and only when complete; the marker exactly with the end bit; every fragment but the last is full |
| FuA.FragmentsCount | src/net/majorkernelpanic/streaming/rtp/H264Packetizer.java:326-342 | a complete run of n fragments carries more than `(n - 1) * cap` and at most `n * cap` of the remaining octets |
| Payload.Packetize | src/net/majorkernelpanic/streaming/rtp/H264Packetizer.java:269-346 | no packet exceeds `MAXPACKETSIZE`; all carry `ts`; a NAL within `MAXPACKETSIZE - RTPHL - 2` gives one packet of `naluLength + RTPHL` octets, starting with the header, with the marker; the marker is requested only on the last packet, and only when the NAL was read whole |
| Payload.SingleNal | src/net/majorkernelpanic/streaming/rtp/H264Packetizer.java:285-290 | the single NAL unit packet is one marked packet of `naluLength` octets, the header followed by the `naluLength - 1` input octets (empty when `naluLength` is 0), at `ts`; when the input ends first nothing is sent and reading stops at its end |
| Payload.PacketizeRoundTrip | src/net/majorkernelpanic/streaming/rtp/H264Packetizer.java:269-346 | a receiver reassembling the packets gets the header octet followed by the `naluLength - 1` input octets; for FU-A the header comes back without its F bit |
| Payload.PacketizeFuHeaders | src/net/majorkernelpanic/streaming/rtp/H264Packetizer.java:314-344 | every fragment of a large NAL carries `(h & 0x60) + 28` and the NAL's type; the start bit is set exactly on the first, the end bit exactly on the last of a complete run; the count is the ceiling of the remaining length over `cap` |
| Payload.FragmentsRoundTrip | src/net/majorkernelpanic/streaming/rtp/H264Packetizer.java:309-346 | a receiver reassembling the FU-A fragments of a NAL read whole gets the header without its F bit and then the `naluLength - 1` input octets |
| Payload.PacketizeLoneFragment | src/net/majorkernelpanic/streaming/rtp/H264Packetizer.java:269-344 | a NAL one octet longer than `MAXPACKETSIZE - RTPHL - 2` goes out as one FU-A fragment with both the start and the end bit set |
| Payload.PacketizeFixed | src/net/majorkernelpanic/streaming/rtp/H264Packetizer.java:269-346 | with the single-packet threshold at `MAXPACKETSIZE - RTPHL`, no packet exceeds `MAXPACKETSIZE`, all carry `ts`, and the read completes exactly when the input holds the NAL |
| Payload.PacketizeFixedNoLoneFragment | src/net/majorkernelpanic/streaming/rtp/H264Packetizer.java:269-344 | with that threshold a fragmented NAL read whole takes two fragments or more, and no FU header has both the start and the end bit |
| Payload.PacketizeFixedRoundTrip | src/net/majorkernelpanic/streaming/rtp/H264Packetizer.java:269-346 | with that threshold the packets still reassemble to the NAL, the header without its F bit when fragmented |
| Demux.ShiftedOne | src/net/majorkernelpanic/streaming/rtp/H264Packetizer.java:369-373 | one step of `resync` drops the oldest octet of the window and appends the one read |
| Demux.ShiftedFull | src/net/majorkernelpanic/streaming/rtp/H264Packetizer.java:369-373 | after five or more steps the window is the last five octets read |
| Demux.ShiftedStep | src/net/majorkernelpanic/streaming/rtp/H264Packetizer.java:368-373 | k + 1 steps are one step followed by k steps |
| Demux.Resync | src/net/majorkernelpanic/streaming/rtp/H264Packetizer.java:363-396 | `resync` stops at the first step whose window has type 1 or 5 and a length strictly between 0 and 100000, with the window it shifted there; it finds nothing exactly when no step of the remaining input qualifies |
| Demux.ReadHeader | src/net/majorkernelpanic/streaming/rtp/H264Packetizer.java:205-241 | length-prefixed: the length is kept in 0..100000, else `resync` decides; start code: a header with nonzero octets among the first three turns the stream type to unknown, else the length is `available + 1`; raw and unknown: one octet is read and the length is `available + 1`; a read past the end is a short read |
| Demux.LengthPrefixedAccepted | src/net/majorkernelpanic/streaming/rtp/H264Packetizer.java:210-218 | an accepted length prefix yields `header[4]` and the signed big-endian length of `header[0..3]`, and reading resumes right after the five octets |
| Demux.LengthPrefixedResync | src/net/majorkernelpanic/streaming/rtp/H264Packetizer.java:216-218 | a rejected length prefix resumes exactly where `resync` stops, with a slice or IDR type and a length strictly inside (0, 100000) |
| Packetizer.Initial | src/net/majorkernelpanic/streaming/rtp/H264Packetizer.java:78-82 | the fields start as the MediaCodec type, no parameter sets and a zero count, which satisfies the STAP-A invariant |
| Packetizer.SetStreamParameters | src/net/majorkernelpanic/streaming/rtp/H264Packetizer.java:114-161 | both parameter sets are stored as given; the STAP-A buffer is rebuilt only when both are given and is otherwise left as it was; afterwards the buffer matches any stored pair |
| Packetizer.Begin | src/net/majorkernelpanic/streaming/rtp/H264Packetizer.java:167-176 | `run` resets the counter and chooses the MediaCodec type exactly for a codec input stream, the length-prefixed type otherwise; the stored SPS, PPS, STAP-A and timestamp are kept |
| Packetizer.CountParameterSet | src/net/majorkernelpanic/streaming/rtp/H264Packetizer.java:248-255 | a type 7 or 8 raises the count by one and drops both parameter sets once the count passes 4; other types change nothing |
| Packetizer.Emit | src/net/majorkernelpanic/streaming/rtp/H264Packetizer.java:244-346 | the STAP-A goes first, with the NAL's timestamp and the marker, when an IDR slice meets both stored parameter sets; the NAL's own packets follow; the call completes exactly when the input holds the whole NAL |
| Packetizer.Send | src/net/majorkernelpanic/streaming/rtp/H264Packetizer.java:202-348 | one call keeps the STAP-A invariant and reads forward; every packet has the call's timestamp and fits `MAXPACKETSIZE`, except possibly a leading STAP-A; framing is lost exactly when a start-code header has a nonzero octet among the first three; a completed call ends with the marker |
| Packetizer.SendRoundTrip | src/net/majorkernelpanic/streaming/rtp/H264Packetizer.java:202-348 | a NAL unit framed as the stream type expects is consumed whole, and its packets after any STAP-A reassemble to the NAL (without the F bit when fragmented) |
| Packetizer.FramedHeader | src/net/majorkernelpanic/streaming/rtp/H264Packetizer.java:205-241 | a NAL unit behind its length prefix, its start code or nothing is found with its first octet as header and its own length, reading on right after that octet |
| Packetizer.EmitRoundTrip | src/net/majorkernelpanic/streaming/rtp/H264Packetizer.java:244-346 | once a NAL unit's header is read and its other octets follow, the call completes, reads exactly to the unit's end, and its packets after any STAP-A reassemble to the unit |
| Packetizer.SendDelivers | src/net/majorkernelpanic/streaming/rtp/H264Packetizer.java:202-348 | a call whose header read finds a NAL unit, all of whose octets follow, delivers that unit with the call's timestamp |
| Packetizer.SendStapABeforeIdr | src/net/majorkernelpanic/streaming/rtp/H264Packetizer.java:259-265 | an IDR slice with both parameter sets stored is preceded by the STAP-A packet carrying the NAL's timestamp and the marker, from which the SPS and PPS parse back |
| Packetizer.SendNoStapAOtherwise | src/net/majorkernelpanic/streaming/rtp/H264Packetizer.java:259-265 | without an IDR slice and both parameter sets, a call sends exactly the NAL's own packets |
| Packetizer.SendCountsParameterSets | src/net/majorkernelpanic/streaming/rtp/H264Packetizer.java:248-255 | an in-band SPS or PPS raises the count by one; the fifth and later ones drop the stored parameter sets, earlier ones keep them; any other NAL unit changes neither |
| Packetizer.SendExample | src/net/majorkernelpanic/streaming/rtp/H264Packetizer.java:202-291 | the length-prefixed IDR slice `00 00 00 02 65 AA`, with SPS `67 01` and PPS `68 02` stored, gives the STAP-A `18 00 02 67 01 00 02 68 02` and then `65 AA`, both at timestamp 40 and both marked |
| ScreenStream.JavaDiv | src/net/majorkernelpanic/streaming/video/ScreenStream.java:129 | Java's integer division by a positive divisor rounds toward zero: for a non-negative dividend the quotient times the divisor is at most the dividend and within one divisor of it, and for a negative dividend it is at least the dividend and within one divisor of it |
| ScreenStream.AdaptiveAspectRatio | src/net/majorkernelpanic/streaming/video/ScreenStream.java:127-138 | without display metrics the quality is unchanged; with them each dimension is even and is half the display size or one more; frame rate and bit rate are kept |
| ScreenStream.HalfEvenLeast | src/net/majorkernelpanic/streaming/video/ScreenStream.java:129-136 | for a non-negative display size the chosen dimension is the least even number not below half of it |
| ScreenStream.StripCsd | src/net/majorkernelpanic/streaming/video/ScreenStream.java:253-260 | the SPS and PPS are `csd-0` and `csd-1` without their first four octets; the buffers are refused exactly when one is shorter than four |
| ScreenStream.StripCsdRoundTrip | src/net/majorkernelpanic/streaming/video/ScreenStream.java:250-260 | codec-specific data made of a start code and a parameter set gives back the parameter sets |
| CsdSplitter.SegmentEnd | src/net/majorkernelpanic/streaming/video/ScreenStream.java:272-281 | a segment ends between its start and `len`, and when it ends before `len` the four octets of a start code fit there |
| CsdSplitter.SegmentEndSpec | src/net/majorkernelpanic/streaming/video/ScreenStream.java:272-281 | a segment ends at the first start code at or after its start lying wholly within the first `len` octets, or at `len` when there is none |
| CsdSplitter.SegmentEndIs | src/net/majorkernelpanic/streaming/video/ScreenStream.java:272-281 | any position with no start code between the segment's start and it, and a start code at it unless it is `len`, is the segment end |
| CsdSplitter.SegmentsFrom | src/net/majorkernelpanic/streaming/video/ScreenStream.java:271-291 | where a buffer continues with a NAL unit and then start-code-framed units, the segments from that point are exactly those units |
| CsdSplitter.ClassifyKeepsLast | src/net/majorkernelpanic/streaming/video/ScreenStream.java:282-288 | the SPS kept is the last segment whose first octet has type 7; the PPS kept is the last segment of any other type, empty segments included; with no such segment the earlier value stays |
| CsdSplitter.SegmentsOfAnnexB | src/net/majorkernelpanic/streaming/video/ScreenStream.java:271-291 | the segments of a start-code byte stream are exactly its NAL units, in order, when no unit contains a start code and the last is not empty |
| CsdSplitter.SplitCsdFindsBoth | src/net/majorkernelpanic/streaming/video/ScreenStream.java:271-291 | a buffer holding one SPS and one other unit, in either order, yields that SPS and that unit as the PPS |
| CsdSplitter.JavaStartCodeAt | src/net/majorkernelpanic/streaming/video/ScreenStream.java:272-275 | the short-circuit start-code test on the 128-octet array agrees with the start-code predicate, and it indexes past the array only when the four octets do not fit in it |
| CsdSplitter.RemainingStep | src/net/majorkernelpanic/streaming/video/ScreenStream.java:279-290 | one turn of the outer loop classifies the segment `csd[q..p)` and resumes four octets past its end |
| CsdSplitter.ScanSegment | src/net/majorkernelpanic/streaming/video/ScreenStream.java:272-281 | the inner loop and the clamp after it find the segment end, and cannot index past the array when `len + 2 < 128` |
| CsdSplitter.SplitCsdBuffer | src/net/majorkernelpanic/streaming/video/ScreenStream.java:271-291 | the loops as written, when they do not index past the array, find the SPS and PPS of the segment definition; for `len + 2 < 128` they always finish |
| CsdSplitter.ParseOutputBuffer | src/net/majorkernelpanic/streaming/video/ScreenStream.java:263-291 | a buffer of 128 octets or more, or one not starting with `00 00 00 01`, contributes nothing; one of at most 125 octets that starts with it yields the SPS and PPS of its segments, and a longer one does so whenever it does not index past the array |
| Mdat.NextM | src/net/majorkernelpanic/streaming/video/ScreenStream.java:486 | the inner loop stops at the first `m` from the read position; none means no `m` remains |
| Mdat.SkipToMdat | src/net/majorkernelpanic/streaming/video/ScreenStream.java:485-491 | the loop as written stops only right after an occurrence of `mdat` |
| Mdat.SkipToMdatMissesOverlap | src/net/majorkernelpanic/streaming/video/ScreenStream.java:486-490 | `mmdat` contains `mdat`, but the loop as written does not find it |
| Mdat.SkipToMdatMissesSizedBox | src/net/majorkernelpanic/streaming/video/ScreenStream.java:486-490 | an `mdat` box of 109 octets, whose size field ends in `m`, is not found by the loop as written |
| Mdat.FindMdat | src/net/majorkernelpanic/streaming/video/ScreenStream.java:484-491 | the intended scan stops right after the first `mdat` from the read position, and finds nothing exactly when none occurs |
| Mdat.SkipToMdatAfterFirst | src/net/majorkernelpanic/streaming/video/ScreenStream.java:485-491 | wherever the loop as written stops, the intended scan stops there or earlier |
| Mdat.SkipToMdatFindsClearMdat | src/net/majorkernelpanic/streaming/video/ScreenStream.java:485-491 | when no `m` occurs in the three octets before the first `mdat`, the loop as written finds that first `mdat` |

## Left out

- Thread lifecycle (`start`, `stop`, `run`'s loop, `interrupt`, `join`) and the
  `System.nanoTime` measurements: concurrency and clocks. `run`'s reset of the
  counter and its choice of stream type are in `Begin`.
- `Statistics`, `MediaCodecInputStream` and the RTP socket internals: these
  classes are not part of this model. Their values (`delay`, the presentation
  time, `available()`) are parameters. The socket is the packet log.
- AbstractPacketizer is not part of this model. So the STAP-A buffer is not
  checked against the capacity of the socket's packet buffer, and the STAP-A
  packet is exempt from the size bound.
- Demux.Resync: at the end of the stream the source reads -1 forever and never
  returns. The model has a finite input, and `ResyncExhausted` stands for that
  hang.
- Packetizer.Send: the `int` overflow of `available() + 1` and of `count` is not
  modelled. Both need more than 2^31 octets or calls.
- Packetizer.SendRoundTrip: for the start-code and raw types the length comes
  from `available() + 1`. The lemma assumes the input reports exactly the NAL's
  remaining octets.
- CsdSplitter.ParseOutputBuffer: models one output buffer copied into a fresh,
  zeroed array. The source reuses `csd`, `p` and `q` across output buffers, so a
  second buffer starts scanning where the first stopped, over stale octets.
- The 3-second timeout and the `dequeueOutputBuffer` loop of
  `testMediaCodecAPI`: timing and codec plumbing. The format-changed path is
  `StripCsd`, and one output buffer is `ParseOutputBuffer`.
- Base64 encoding and SharedPreferences caching of the parameter sets: foreign
  calls.
- Packetizer.SetStreamParameters: the source stores the caller's `sps` and
  `pps` arrays by reference, and the model stores their values. A caller that
  changed an array after the call would change the source's parameter sets
  but not the model's. The caller in ScreenStream.java passes fresh arrays.
- Payload.PacketizeFixed is not what `send` runs. `Send` keeps the threshold
  as written, so the lone start-and-end fragment recorded under Findings is
  part of the model of `send`.
- `getSessionDescription`: depends on `MP4Config`, which is not part of this
  model.
- MediaRecorder, MediaCodec and VirtualDisplay setup, and permissions: Android
  plumbing with no logic to state.
- Mdat.SkipToMdat: assumes `read(buffer, 0, 3)` returns three octets. When
  fewer than three remain, the model ends the scan with nothing found. The
  source would then spin at the end of the stream, unless stale octets left in
  the buffer happen to spell `dat`.
- The `IOException` path of the `mdat` loop (log, `stop()`, rethrow) and
  `Thread.interrupted()`: error plumbing and concurrency.

## Findings

| source | as written | input that shows it | evidently intended | confidence | as-written member | corrected member |
|---|---|---|---|---|---|---|
| src/net/majorkernelpanic/streaming/video/ScreenStream.java:485-491 | after an `m` the next three octets are consumed even when they are not `dat`, so an `m` among them is never tried as the start of `mdat` | `00 00 00 6D 6D 64 61 74`: an `mdat` box header of size 109, whose last size octet is `m` (also `6D 6D 64 61 74`) | skip to just after the first `mdat` of the stream | not executed | Mdat.SkipToMdatMissesSizedBox | Mdat.FindMdat |
| src/net/majorkernelpanic/streaming/rtp/H264Packetizer.java:269-344 | a NAL of `MAXPACKETSIZE - RTPHL - 1` octets is too long for the single NAL unit branch, and its `MAXPACKETSIZE - RTPHL - 2` remaining octets fill exactly one FU-A fragment, which gets both the start bit and the end bit; section 5.8 of RFC 3984 says the two must not both be set in one FU header | `MAXPACKETSIZE` 20, `RTPHL` 12 and a 7-octet NAL: one fragment whose FU header is `0x80 + 0x40 + type` | every NAL that fits in one packet, up to `MAXPACKETSIZE - RTPHL` octets, goes out as a single NAL unit packet, so a fragmented NAL always has two fragments or more | not executed | Payload.PacketizeLoneFragment | Payload.PacketizeFixed |
