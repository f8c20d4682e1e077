/**
 * H264Packetizer's state between calls and its `send`: read one NAL unit's
 * header, count in-band parameter sets, put the STAP-A of the SPS and PPS in
 * front of an IDR slice, then send the NAL whole or as FU-A fragments.
 */
module Packetizer {
  import opened Wrappers
  import opened Bytes
  import opened Nal
  import opened Rtp
  import opened StapA
  import opened FuA
  import opened Payload
  import opened Demux

  /** The fields `send` reads or writes; `ts` is the timestamp field it inherits. */
  datatype State = State(streamType: StreamType, sps: Option<Bytes>, pps: Option<Bytes>,
                         stapa: Option<Bytes>, count: nat, ts: int)

  /** The class invariant: while both parameter sets are set, `stapa` is the STAP-A built from them. */
  predicate StapaCurrent(st: State)
  {
    st.sps.Some? && st.pps.Some? ==> st.stapa == Some(BuildStapA(st.sps.value, st.pps.value))
  }

  /** The field initialisers; the timestamp's initial value belongs to the base class and is a parameter. */
  function Initial(ts: int): (st: State)
    ensures StapaCurrent(st)
    ensures st.streamType == MediaCodec && st.sps.None? && st.pps.None? && st.count == 0
  {
    State(MediaCodec, None, None, None, 0, ts)
  }

  /** `setStreamParameters(pps, sps)`: the buffer is rebuilt only when both are given. */
  function SetStreamParameters(st: State, pps: Option<Bytes>, sps: Option<Bytes>): (r: State)
    ensures StapaCurrent(r)
    ensures r.sps == sps && r.pps == pps
    ensures sps.None? || pps.None? ==> r.stapa == st.stapa
    ensures r.streamType == st.streamType && r.count == st.count && r.ts == st.ts
  {
    if pps.Some? && sps.Some? then st.(pps := pps, sps := sps, stapa := Some(BuildStapA(sps.value, pps.value)))
    else st.(pps := pps, sps := sps)
  }

  /** What `run` does before its loop: reset the counter and pick the stream type from the kind of input. */
  function Begin(st: State, codecInput: bool): (r: State)
    ensures StapaCurrent(st) ==> StapaCurrent(r)
    ensures r.count == 0 && (r.streamType == MediaCodec <==> codecInput)
    ensures r.streamType != Unknown
    ensures r.sps == st.sps && r.pps == st.pps && r.stapa == st.stapa && r.ts == st.ts
  {
    st.(count := 0, streamType := if codecInput then MediaCodec else MediaRecorder)
  }

  /**
   * What the collaborators supply to one call: the smoothed `delay`, the
   * presentation time of the codec's last buffer in microseconds, and
   * `is.available()`.
   */
  datatype Timing = Timing(delay: int, presentationTimeUs: int, available: nat)

  /** How a call of `send` ended: normally, by giving up on start codes, at the end of the stream, or inside `resync`. */
  datatype Status = Sent | FramingLost | EndOfStream | Stalled

  datatype SendResult = SendResult(packets: seq<Packet>, next: nat, state: State, status: Status)

  /** The counter of in-band SPS/PPS units; past four the stored parameter sets are dropped. */
  function CountParameterSet(st: State, typ: int): (r: State)
    ensures StapaCurrent(st) ==> StapaCurrent(r)
    ensures typ == NAL_SPS || typ == NAL_PPS ==> r.count == st.count + 1
    ensures typ != NAL_SPS && typ != NAL_PPS ==> r == st
    ensures r.count > 4 && r.count != st.count ==> r.sps.None? && r.pps.None?
    ensures r.count <= 4 ==> r.sps == st.sps && r.pps == st.pps
    ensures r.streamType == st.streamType && r.ts == st.ts && r.stapa == st.stapa
  {
    if typ == NAL_SPS || typ == NAL_PPS then
      if st.count + 1 > 4 then st.(count := st.count + 1, sps := None, pps := None)
      else st.(count := st.count + 1)
    else st
  }

  /** An IDR slice is preceded by the STAP-A while both parameter sets are still stored. */
  predicate InjectsStapA(st: State, h: byte)
  {
    NalType(h) == NAL_IDR_SLICE && st.sps.Some? && st.pps.Some?
  }

  /** The second half of `send`, once the header octet and length are known and `ts` is set. */
  function Emit(cfg: Config, st: State, nal: NalStart, input: Bytes): (r: SendResult)
    requires cfg.Valid() && StapaCurrent(st) && 0 <= nal.naluLength && nal.next <= |input|
    ensures StapaCurrent(r.state)
    ensures r.state == CountParameterSet(st, NalType(nal.header))
    ensures r.next == Packetize(cfg, nal.header, nal.naluLength, input, nal.next, st.ts).next
    ensures r.status == Sent || r.status == EndOfStream
    ensures r.status == Sent <==> nal.next + Max(nal.naluLength - 1, 0) <= |input|
    ensures InjectsStapA(r.state, nal.header) ==>
              |r.packets| >= 1 && r.packets[0] == Packet(r.state.stapa.value, st.ts, true)
    ensures var k := if InjectsStapA(r.state, nal.header) then 1 else 0;
            r.packets[k..] == Packetize(cfg, nal.header, nal.naluLength, input, nal.next, st.ts).packets
    ensures forall i :: 0 <= i < |r.packets| ==> r.packets[i].ts == st.ts
    ensures forall i :: 0 <= i < |r.packets| ==>
              cfg.Size(r.packets[i]) <= cfg.maxPacketSize || (i == 0 && r.state.stapa == Some(r.packets[0].payload))
    ensures r.status == Sent ==> |r.packets| >= 1 && r.packets[|r.packets| - 1].marker
  {
    var st1 := CountParameterSet(st, NalType(nal.header));
    var body := Packetize(cfg, nal.header, nal.naluLength, input, nal.next, st1.ts);
    var status := if body.complete then Sent else EndOfStream;
    if InjectsStapA(st1, nal.header) then
      var stap := Packet(st1.stapa.value, st1.ts, true);
      PrependPacket(cfg, stap, body.packets, st1.ts);
      SendResult([stap] + body.packets, body.next, st1, status)
    else
      SendResult(body.packets, body.next, st1, status)
  }

  /** Putting a packet with the same timestamp in front of a run of packets that fit the socket. */
  lemma PrependPacket(cfg: Config, p: Packet, ps: seq<Packet>, ts: int)
    requires p.ts == ts
    requires forall i :: 0 <= i < |ps| ==> cfg.Size(ps[i]) <= cfg.maxPacketSize && ps[i].ts == ts
    ensures var r := [p] + ps;
            && r[0] == p && r[1..] == ps
            && (forall i :: 0 <= i < |r| ==> r[i].ts == ts)
            && (forall i :: 0 < i < |r| ==> cfg.Size(r[i]) <= cfg.maxPacketSize)
            && (|ps| >= 1 ==> r[|r| - 1] == ps[|ps| - 1])
  {
    var r := [p] + ps;
    assert forall i :: 0 < i < |r| ==> r[i] == ps[i - 1];
  }

  /** The timestamp `send` gives the NAL: `ts += delay` for a length-prefixed stream, the buffer's time in ns otherwise. */
  function NextTimestamp(st: State, t: Timing): int
  {
    if st.streamType == MediaRecorder then st.ts + t.delay else t.presentationTimeUs * 1000
  }

  /** How many octets `send` reads before it knows the header: `fill(header, 0, 5)` or `fill(header, 0, 1)`. */
  function HeaderOctets(streamType: StreamType): nat
  {
    if streamType == Unknown then 1 else 5
  }

  /** One call of `send` on the input from `pos`. */
  function Send(cfg: Config, st: State, input: Bytes, pos: nat, t: Timing): (r: SendResult)
    requires cfg.Valid() && StapaCurrent(st) && pos <= |input|
    ensures StapaCurrent(r.state)
    ensures pos <= r.next <= |input|
    ensures forall i :: 0 <= i < |r.packets| ==> r.packets[i].ts == r.state.ts
    ensures forall i :: 0 <= i < |r.packets| ==>
              cfg.Size(r.packets[i]) <= cfg.maxPacketSize || (i == 0 && r.state.stapa == Some(r.packets[0].payload))
    ensures r.status == FramingLost <==>
              && st.streamType == MediaCodec && pos + 5 <= |input|
              && !(input[pos] == 0 && input[pos + 1] == 0 && input[pos + 2] == 0)
    ensures r.status == FramingLost ==> r.packets == [] && r.state == st.(streamType := Unknown, ts := r.state.ts)
    ensures r.status != FramingLost ==> r.state.streamType == st.streamType
    ensures r.status == Stalled ==> st.streamType == MediaRecorder && r.packets == []
    ensures r.status == Sent ==> |r.packets| >= 1 && r.packets[|r.packets| - 1].marker
    ensures pos + HeaderOctets(st.streamType) > |input| ==>
              r.status == EndOfStream && r.packets == [] && r.state == st
    ensures r.state.count == st.count || r.state.count == st.count + 1
    ensures (r.state.sps == st.sps && r.state.pps == st.pps) || (r.state.sps.None? && r.state.pps.None?)
  {
    var ts := NextTimestamp(st, t);
    match ReadHeader(st.streamType, input, pos, t.available)
    case ShortRead => SendResult([], |input|, st, EndOfStream)
    case NoStartCode(next) => SendResult([], next, st.(streamType := Unknown, ts := ts), FramingLost)
    case ResyncExhausted => SendResult([], |input|, st.(ts := ts), Stalled)
    case Found(nal) => Emit(cfg, st.(ts := ts), nal, input)
  }

  /** The framing each stream type expects in front of a NAL unit. */
  function Framing(streamType: StreamType, nal: Bytes): (f: Bytes)
    requires streamType == MediaRecorder ==> |nal| < TWO_31
    ensures |f| + 1 == HeaderOctets(streamType)
  {
    match streamType
    case MediaRecorder => EncodeInt32BE(|nal|)
    case MediaCodec => [0, 0, 0, 1]
    case Unknown => []
  }

  /** What a receiver gets for a NAL unit: the unit itself, without the F bit when it was fragmented. */
  function Delivered(cfg: Config, nal: Bytes): Bytes
    requires |nal| >= 1
  {
    [if |nal| <= cfg.Cap() then nal[0] else nal[0] % 0x80] + nal[1..]
  }

  /**
   * A NAL unit framed the way the stream type expects is sent whole and read
   * back by a receiver, behind the STAP-A when one is injected.  For the
   * start-code and raw types the source takes the length from
   * `available() + 1`, so the lemma assumes the input reports the NAL's own
   * remaining octets.
   */
  lemma SendRoundTrip(cfg: Config, st: State, pre: Bytes, nal: Bytes, rest: Bytes, t: Timing)
    requires cfg.Valid() && StapaCurrent(st)
    requires 1 <= |nal|
    requires st.streamType == MediaRecorder ==> |nal| <= MAX_NALU_LENGTH
    requires st.streamType != MediaRecorder ==> t.available == |nal| - 1
    requires |nal| <= cfg.Cap() ==> NalType(nal[0]) != FU_A
    ensures var input := pre + Framing(st.streamType, nal) + nal + rest;
            var r := Send(cfg, st, input, |pre|, t);
            var k := if InjectsStapA(r.state, nal[0]) then 1 else 0;
            && r.status == Sent
            && r.next == |pre| + |Framing(st.streamType, nal)| + |nal|
            && r.state.ts == NextTimestamp(st, t)
            && k <= |r.packets|
            && Depacketize(r.packets[k..]) == Some(Delivered(cfg, nal))
  {
    var f := Framing(st.streamType, nal);
    var input := pre + f + nal + rest;
    var hp := |pre| + |f|;
    FramedHeader(st.streamType, pre, nal, rest, t.available);
    var found := NalStart(nal[0], |nal|, hp + 1);
    assert input[found.next..found.next + found.naluLength - 1] == nal[1..] by {
      assert input == (pre + f) + nal + rest;
    }
    SendDelivers(cfg, st, input, |pre|, t, found, nal);
  }

  /** A call that finds a NAL unit whose octets all follow in the input delivers that unit. */
  lemma SendDelivers(cfg: Config, st: State, input: Bytes, pos: nat, t: Timing, found: NalStart, nal: Bytes)
    requires cfg.Valid() && StapaCurrent(st) && pos <= |input|
    requires ReadHeader(st.streamType, input, pos, t.available) == Found(found)
    requires 1 <= |nal| && found.header == nal[0] && found.naluLength == |nal|
    requires found.next + |nal| - 1 <= |input| && input[found.next..found.next + found.naluLength - 1] == nal[1..]
    requires |nal| <= cfg.Cap() ==> NalType(nal[0]) != FU_A
    ensures var r := Send(cfg, st, input, pos, t);
            var k := if InjectsStapA(r.state, nal[0]) then 1 else 0;
            && r.status == Sent
            && r.next == found.next + |nal| - 1
            && r.state.ts == NextTimestamp(st, t)
            && k <= |r.packets|
            && Depacketize(r.packets[k..]) == Some(Delivered(cfg, nal))
  {
    SendFound(cfg, st, input, pos, t, found);
    EmitRoundTrip(cfg, st.(ts := NextTimestamp(st, t)), found, input, nal);
  }

  /** When the header is found, `send` goes on with the NAL's timestamp. */
  lemma SendFound(cfg: Config, st: State, input: Bytes, pos: nat, t: Timing, nal: NalStart)
    requires cfg.Valid() && StapaCurrent(st) && pos <= |input|
    requires ReadHeader(st.streamType, input, pos, t.available) == Found(nal)
    ensures Send(cfg, st, input, pos, t) == Emit(cfg, st.(ts := NextTimestamp(st, t)), nal, input)
  {
  }

  /** The packets of a NAL unit read whole reassemble to it, behind the STAP-A when one is injected. */
  lemma EmitRoundTrip(cfg: Config, st: State, found: NalStart, input: Bytes, nal: Bytes)
    requires cfg.Valid() && StapaCurrent(st)
    requires 1 <= |nal| && found.header == nal[0] && found.naluLength == |nal|
    requires found.next + |nal| - 1 <= |input| && input[found.next..found.next + found.naluLength - 1] == nal[1..]
    requires |nal| <= cfg.Cap() ==> NalType(nal[0]) != FU_A
    ensures var r := Emit(cfg, st, found, input);
            var k := if InjectsStapA(r.state, nal[0]) then 1 else 0;
            && r.status == Sent
            && r.next == found.next + |nal| - 1
            && r.state.ts == st.ts
            && k <= |r.packets|
            && Depacketize(r.packets[k..]) == Some(Delivered(cfg, nal))
  {
    PacketizeRoundTrip(cfg, found.header, found.naluLength, input, found.next, st.ts);
  }

  /** The header of a NAL unit framed the way the stream type expects is found, with the unit's own length. */
  lemma FramedHeader(streamType: StreamType, pre: Bytes, nal: Bytes, rest: Bytes, available: nat)
    requires 1 <= |nal|
    requires streamType == MediaRecorder ==> |nal| <= MAX_NALU_LENGTH
    requires streamType != MediaRecorder ==> available == |nal| - 1
    ensures var f := Framing(streamType, nal);
            ReadHeader(streamType, pre + f + nal + rest, |pre|, available)
            == Found(NalStart(nal[0], |nal|, |pre| + |f| + 1))
  {
    var f := Framing(streamType, nal);
    var input := pre + f + nal + rest;
    var pos := |pre|;
    assert input[pos + |f|] == nal[0];
    if streamType == MediaRecorder {
      var w := input[pos..pos + 5];
      assert w == f + [nal[0]];
      Int32BERoundTrip(|nal|);
      assert WindowLength(w) == |nal|;
    } else if streamType == MediaCodec {
      assert input[pos] == 0 && input[pos + 1] == 0 && input[pos + 2] == 0 by {
        assert input[pos..pos + 4] == [0, 0, 0, 1];
      }
    }
  }

  /**
   * An IDR slice found while both parameter sets are stored is preceded by the
   * STAP-A packet, with the NAL's timestamp and the marker requested (the
   * source calls `markNextPacket` for it); the SPS and PPS can be read back
   * out of it.
   */
  lemma SendStapABeforeIdr(cfg: Config, st: State, input: Bytes, pos: nat, t: Timing, found: NalStart)
    requires cfg.Valid() && StapaCurrent(st) && pos <= |input|
    requires ReadHeader(st.streamType, input, pos, t.available) == Found(found)
    requires NalType(found.header) == NAL_IDR_SLICE
    requires st.sps.Some? && st.pps.Some?
    ensures var r := Send(cfg, st, input, pos, t);
            && |r.packets| >= 1
            && r.packets[0] == Packet(BuildStapA(st.sps.value, st.pps.value), NextTimestamp(st, t), true)
            && (r.status == Sent ==> |r.packets| >= 2)
            && (|st.sps.value| < 0x1_0000 && |st.pps.value| < 0x1_0000 ==>
                  ParseStapA(r.packets[0].payload) == Some([st.sps.value, st.pps.value]))
  {
    var r := Send(cfg, st, input, pos, t);
    if |st.sps.value| < 0x1_0000 && |st.pps.value| < 0x1_0000 {
      StapARoundTrip(st.sps.value, st.pps.value);
    }
  }

  /** Nothing but a found IDR slice, with both parameter sets stored, brings a STAP-A packet. */
  lemma SendNoStapAOtherwise(cfg: Config, st: State, input: Bytes, pos: nat, t: Timing)
    requires cfg.Valid() && StapaCurrent(st) && pos <= |input|
    requires ReadHeader(st.streamType, input, pos, t.available).Found?
    requires var h := ReadHeader(st.streamType, input, pos, t.available).nal.header;
             !InjectsStapA(CountParameterSet(st, NalType(h)), h)
    ensures var nal := ReadHeader(st.streamType, input, pos, t.available).nal;
            Send(cfg, st, input, pos, t).packets
            == Packetize(cfg, nal.header, nal.naluLength, input, nal.next, NextTimestamp(st, t)).packets
  {
  }

  /**
   * Each in-band SPS or PPS raises the counter by one; from the fifth on the
   * stored parameter sets are dropped, so no later IDR slice gets a STAP-A.
   * Any other NAL unit leaves the counter and the parameter sets alone.
   */
  lemma SendCountsParameterSets(cfg: Config, st: State, input: Bytes, pos: nat, t: Timing, found: NalStart)
    requires cfg.Valid() && StapaCurrent(st) && pos <= |input|
    requires ReadHeader(st.streamType, input, pos, t.available) == Found(found)
    ensures var r := Send(cfg, st, input, pos, t);
            var typ := NalType(found.header);
            && (typ == NAL_SPS || typ == NAL_PPS ==>
                  && r.state.count == st.count + 1
                  && (st.count >= 4 ==> r.state.sps.None? && r.state.pps.None?)
                  && (st.count < 4 ==> r.state.sps == st.sps && r.state.pps == st.pps))
            && (typ != NAL_SPS && typ != NAL_PPS ==>
                  r.state.count == st.count && r.state.sps == st.sps && r.state.pps == st.pps)
  {
  }

  /**
   * The worked example of a length-prefixed IDR slice `00 00 00 02 65 AA`
   * with SPS `67 01` and PPS `68 02` stored: the STAP-A
   * `18 00 02 67 01 00 02 68 02` and then the single NAL unit `65 AA`, both
   * with the same timestamp and both with the marker requested.
   */
  lemma SendExample()
    ensures var st := SetStreamParameters(Begin(Initial(0), false), Some([0x68, 0x02]), Some([0x67, 0x01]));
            var r := Send(Config(1400, 12), st, [0x00, 0x00, 0x00, 0x02, 0x65, 0xAA], 0, Timing(40, 0, 0));
            && r.status == Sent
            && r.packets == [Packet([0x18, 0x00, 0x02, 0x67, 0x01, 0x00, 0x02, 0x68, 0x02], 40, true),
                             Packet([0x65, 0xAA], 40, true)]
  {
    var st := SetStreamParameters(Begin(Initial(0), false), Some([0x68, 0x02]), Some([0x67, 0x01]));
    var cfg := Config(1400, 12);
    var t := Timing(40, 0, 0);
    var input: Bytes := [0x00, 0x00, 0x00, 0x02, 0x65, 0xAA];
    var nal := NalStart(0x65, 2, 5);
    ExampleState();
    ExampleHeader(input);
    SendFound(cfg, st, input, 0, t, nal);
    ExampleEmit(cfg, st.(ts := 40), input);
  }

  /** The example's state: a length-prefixed stream with both parameter sets and their STAP-A stored. */
  lemma ExampleState()
    ensures SetStreamParameters(Begin(Initial(0), false), Some([0x68, 0x02]), Some([0x67, 0x01]))
            == State(MediaRecorder, Some([0x67, 0x01]), Some([0x68, 0x02]),
                     Some([0x18, 0x00, 0x02, 0x67, 0x01, 0x00, 0x02, 0x68, 0x02]), 0, 0)
  {
    ExampleStapA();
  }

  /** The example's slice, sent behind the STAP-A. */
  lemma ExampleEmit(cfg: Config, st: State, input: Bytes)
    requires cfg == Config(1400, 12) && input == [0x00, 0x00, 0x00, 0x02, 0x65, 0xAA]
    requires st == State(MediaRecorder, Some([0x67, 0x01]), Some([0x68, 0x02]),
                         Some([0x18, 0x00, 0x02, 0x67, 0x01, 0x00, 0x02, 0x68, 0x02]), 0, 40)
    ensures StapaCurrent(st)
    ensures var r := Emit(cfg, st, NalStart(0x65, 2, 5), input);
            && r.status == Sent
            && r.packets == [Packet([0x18, 0x00, 0x02, 0x67, 0x01, 0x00, 0x02, 0x68, 0x02], 40, true),
                             Packet([0x65, 0xAA], 40, true)]
  {
    ExampleStapA();
    ExamplePacketize(cfg, input);
    assert NalType(0x65) == NAL_IDR_SLICE;
    assert CountParameterSet(st, NalType(0x65)) == st;
  }

  /** The STAP-A of the example's SPS `67 01` and PPS `68 02`. */
  lemma ExampleStapA()
    ensures BuildStapA([0x67, 0x01], [0x68, 0x02]) == [0x18, 0x00, 0x02, 0x67, 0x01, 0x00, 0x02, 0x68, 0x02]
  {
    var u1: Bytes := [0x00, 0x02, 0x67, 0x01];
    var u2: Bytes := [0x00, 0x02, 0x68, 0x02];
    assert Size16BE(2) == [0x00, 0x02];
    assert Unit([0x67, 0x01]) == u1;
    assert Unit([0x68, 0x02]) == u2;
    assert BuildStapA([0x67, 0x01], [0x68, 0x02]) == [0x18] + u1 + u2;
  }

  /** The example's length prefix `00 00 00 02` and header octet `65`. */
  lemma ExampleHeader(input: Bytes)
    requires input == [0x00, 0x00, 0x00, 0x02, 0x65, 0xAA]
    ensures ReadHeader(MediaRecorder, input, 0, 0) == Found(NalStart(0x65, 2, 5))
  {
    assert input[0..5] == [0x00, 0x00, 0x00, 0x02, 0x65];
    assert WindowLength(input[0..5]) == 2;
  }

  /** The example's slice fits one packet: `65 AA`. */
  lemma ExamplePacketize(cfg: Config, input: Bytes)
    requires cfg == Config(1400, 12) && input == [0x00, 0x00, 0x00, 0x02, 0x65, 0xAA]
    ensures Packetize(cfg, 0x65, 2, input, 5, 40) == Fragmented([Packet([0x65, 0xAA], 40, true)], 6, true)
  {
    assert cfg.Cap() == 1386;
    assert input[5..6] == [0xAA];
    assert [0x65 as byte] + input[5..6] == [0x65, 0xAA];
  }
}
