/**
 * One NAL unit onto the wire: the `if (naluLength <= MAXPACKETSIZE - RTPHL - 2)`
 * choice of `send` between a single NAL unit packet and FU-A fragments, and
 * the receiver's reading of those packets back into the NAL unit.
 */
module Payload {
  import opened Wrappers
  import opened Bytes
  import opened Nal
  import opened Rtp
  import opened FuA

  /**
   * The packets `send` emits for a NAL whose header octet `h` is already read
   * and whose remaining `naluLength - 1` octets follow at `pos`.  A single NAL
   * unit packet is `h` and those octets (with `naluLength == 0`, `fill` is asked
   * for -1 octets and the packet is empty); a larger NAL goes out as FU-A
   * fragments with `sum` starting at 1, the header octet already accounted for.
   */
  function Packetize(cfg: Config, h: byte, naluLength: int, input: Bytes, pos: nat, ts: int): (r: Fragmented)
    requires cfg.Valid() && 0 <= naluLength && pos <= |input|
    ensures pos <= r.next <= |input|
    ensures r.complete <==> pos + Max(naluLength - 1, 0) <= |input|
    ensures r.complete ==> r.next == pos + Max(naluLength - 1, 0)
    ensures forall i :: 0 <= i < |r.packets| ==>
              cfg.Size(r.packets[i]) <= cfg.maxPacketSize && r.packets[i].ts == ts
    ensures naluLength <= cfg.Cap() && r.complete ==>
              && |r.packets| == 1
              && cfg.Size(r.packets[0]) == naluLength + cfg.rtpHeaderLength
              && r.packets[0].marker
              && (naluLength >= 1 ==> r.packets[0].payload[0] == h)
    ensures naluLength <= cfg.Cap() && !r.complete ==> r.packets == []
    ensures r.complete ==> |r.packets| >= 1 && r.packets[|r.packets| - 1].marker
    ensures forall i :: 0 <= i < |r.packets| && r.packets[i].marker ==> r.complete && i == |r.packets| - 1
  {
    if naluLength <= cfg.Cap() then SingleNal(h, naluLength, input, pos, ts)
    else
      var f := Fragments(FuIndicator(h), NalType(h), input, pos, 1, naluLength, cfg.Cap(), ts, true);
      FragmentsShape(FuIndicator(h), NalType(h), input, pos, 1, naluLength, cfg.Cap(), ts, true);
      FragmentsFlags(FuIndicator(h), NalType(h), input, pos, 1, naluLength, cfg.Cap(), ts, true);
      f
  }

  /**
   * A single NAL unit packet: `h` and the `naluLength - 1` octets after it, or
   * nothing when the input ends first.
   */
  function SingleNal(h: byte, naluLength: int, input: Bytes, pos: nat, ts: int): (r: Fragmented)
    requires 0 <= naluLength && pos <= |input|
    ensures pos <= r.next <= |input|
    ensures r.complete <==> pos + Max(naluLength - 1, 0) <= |input|
    ensures r.complete ==> r.next == pos + Max(naluLength - 1, 0)
    ensures r.complete ==> |r.packets| == 1 && r.packets[0].ts == ts && r.packets[0].marker
    ensures r.complete ==> |r.packets[0].payload| == naluLength
    ensures r.complete && naluLength >= 1 ==> r.packets[0].payload == [h] + input[pos..pos + naluLength - 1]
    ensures !r.complete ==> r.packets == []
  {
    if naluLength == 0 then Fragmented([Packet([], ts, true)], pos, true)
    else if pos + naluLength - 1 > |input| then Fragmented([], |input|, false)
    else Fragmented([Packet([h] + input[pos..pos + naluLength - 1], ts, true)], pos + naluLength - 1, true)
  }

  /** A run of FU-A fragments a receiver accepts as one NAL unit (section 5.8 of RFC 3984). */
  predicate WellFormedFu(ps: seq<Packet>)
  {
    && |ps| >= 1
    && HasFuHeaders(ps)
    && (forall i :: 0 <= i < |ps| ==>
          && NalType(ps[i].payload[0]) == FU_A
          && ps[i].payload[0] == ps[0].payload[0]
          && NalType(ps[i].payload[1]) == NalType(ps[0].payload[1])
          && (StartBit(ps[i].payload[1]) <==> i == 0)
          && (EndBit(ps[i].payload[1]) <==> i == |ps| - 1))
  }

  /** The receiver's reading of the packets of one NAL unit: a single NAL unit packet, or FU-A fragments. */
  function Depacketize(ps: seq<Packet>): Option<Bytes>
  {
    if |ps| == 1 && |ps[0].payload| >= 1 && NalType(ps[0].payload[0]) != FU_A then Some(ps[0].payload)
    else if WellFormedFu(ps) then Some([RebuiltHeader(ps[0].payload[0], ps[0].payload[1])] + FuPayload(ps))
    else None
  }

  /**
   * Reading the packets back gives the NAL unit: the header octet and the
   * `naluLength - 1` octets after it.  Fragmentation loses the F bit of the
   * header, which the FU indicator does not carry.
   */
  lemma PacketizeRoundTrip(cfg: Config, h: byte, naluLength: int, input: Bytes, pos: nat, ts: int)
    requires cfg.Valid() && 1 <= naluLength && pos + naluLength - 1 <= |input|
    requires naluLength <= cfg.Cap() ==> NalType(h) != FU_A
    ensures Depacketize(Packetize(cfg, h, naluLength, input, pos, ts).packets)
            == Some([if naluLength <= cfg.Cap() then h else h % 0x80] + input[pos..pos + naluLength - 1])
  {
    if naluLength > cfg.Cap() {
      FragmentsRoundTrip(cfg, h, naluLength, input, pos, ts);
    }
  }

  /** The FU-A fragments of a NAL unit read back as the unit without its F bit. */
  lemma FragmentsRoundTrip(cfg: Config, h: byte, naluLength: int, input: Bytes, pos: nat, ts: int)
    requires cfg.Valid() && cfg.Cap() < naluLength && pos + naluLength - 1 <= |input|
    ensures Depacketize(Fragments(FuIndicator(h), NalType(h), input, pos, 1, naluLength, cfg.Cap(), ts, true).packets)
            == Some([h % 0x80] + input[pos..pos + naluLength - 1])
  {
    var ind := FuIndicator(h);
    var f := Fragments(ind, NalType(h), input, pos, 1, naluLength, cfg.Cap(), ts, true);
    FragmentsShape(ind, NalType(h), input, pos, 1, naluLength, cfg.Cap(), ts, true);
    FragmentsFlags(ind, NalType(h), input, pos, 1, naluLength, cfg.Cap(), ts, true);
    FragmentsPayload(ind, NalType(h), input, pos, 1, naluLength, cfg.Cap(), ts, true);
    assert WellFormedFu(f.packets);
    assert |f.packets| > 1 || NalType(f.packets[0].payload[0]) == FU_A;
    RebuiltHeaderDropsFBit(h, true, |f.packets| == 1);
    assert FuPayload(f.packets) == input[pos..pos + naluLength - 1];
  }

  /**
   * As written, a NAL unit one octet longer than `MAXPACKETSIZE - RTPHL - 2`
   * goes out as a single FU-A fragment carrying both the start and the end
   * flag, which section 5.8 of RFC 3984 forbids.
   */
  lemma PacketizeLoneFragment(cfg: Config, h: byte, input: Bytes, pos: nat, ts: int)
    requires cfg.Valid() && pos + cfg.Cap() <= |input|
    ensures var r := Packetize(cfg, h, cfg.Cap() + 1, input, pos, ts);
            && |r.packets| == 1 && |r.packets[0].payload| >= 2
            && StartBit(r.packets[0].payload[1]) && EndBit(r.packets[0].payload[1])
  {
    var cap := cfg.Cap();
    var ind := FuIndicator(h);
    FragmentsFlags(ind, NalType(h), input, pos, 1, cap + 1, cap, ts, true);
    FragmentsCount(ind, NalType(h), input, pos, 1, cap + 1, cap, ts, true);
    var r := Fragments(ind, NalType(h), input, pos, 1, cap + 1, cap, ts, true);
    MulBelow(|r.packets| - 1, cap);
  }

  /** Fewer than one multiple of `d`: no multiple at all. */
  lemma MulBelow(k: int, d: int)
    requires 0 <= k && d > 0 && k * d < d
    ensures k == 0
  {
  }

  /** More than one multiple of `d`: at least two. */
  lemma MulAbove(k: int, d: int)
    requires 0 <= k && d > 0 && k * d > d
    ensures k >= 2
  {
  }

  /**
   * `send` with the single NAL unit threshold at the largest unit one packet
   * holds, `MAXPACKETSIZE - RTPHL`: a unit that needs fragmenting then always
   * needs two fragments or more.
   */
  function PacketizeFixed(cfg: Config, h: byte, naluLength: int, input: Bytes, pos: nat, ts: int): (r: Fragmented)
    requires cfg.Valid() && 0 <= naluLength && pos <= |input|
    ensures pos <= r.next <= |input|
    ensures r.complete <==> pos + Max(naluLength - 1, 0) <= |input|
    ensures forall i :: 0 <= i < |r.packets| ==>
              cfg.Size(r.packets[i]) <= cfg.maxPacketSize && r.packets[i].ts == ts
  {
    if naluLength + cfg.rtpHeaderLength <= cfg.maxPacketSize then SingleNal(h, naluLength, input, pos, ts)
    else
      var f := Fragments(FuIndicator(h), NalType(h), input, pos, 1, naluLength, cfg.Cap(), ts, true);
      FragmentsShape(FuIndicator(h), NalType(h), input, pos, 1, naluLength, cfg.Cap(), ts, true);
      FragmentsFlags(FuIndicator(h), NalType(h), input, pos, 1, naluLength, cfg.Cap(), ts, true);
      f
  }

  /** With the corrected threshold no FU header carries both the start and the end flag. */
  lemma PacketizeFixedNoLoneFragment(cfg: Config, h: byte, naluLength: int, input: Bytes, pos: nat, ts: int)
    requires cfg.Valid() && cfg.maxPacketSize < naluLength + cfg.rtpHeaderLength && pos <= |input|
    ensures var r := PacketizeFixed(cfg, h, naluLength, input, pos, ts);
            && HasFuHeaders(r.packets)
            && (r.complete ==> |r.packets| >= 2)
            && forall i :: 0 <= i < |r.packets| ==>
                 !(StartBit(r.packets[i].payload[1]) && EndBit(r.packets[i].payload[1]))
  {
    var cap := cfg.Cap();
    var ind := FuIndicator(h);
    FragmentsFlags(ind, NalType(h), input, pos, 1, naluLength, cap, ts, true);
    FragmentsCount(ind, NalType(h), input, pos, 1, naluLength, cap, ts, true);
    var r := Fragments(ind, NalType(h), input, pos, 1, naluLength, cap, ts, true);
    if r.complete {
      MulAbove(|r.packets|, cap);
    }
  }

  /** The corrected packets read back as the NAL unit, as the packets as written do. */
  lemma PacketizeFixedRoundTrip(cfg: Config, h: byte, naluLength: int, input: Bytes, pos: nat, ts: int)
    requires cfg.Valid() && 1 <= naluLength && pos + naluLength - 1 <= |input|
    requires naluLength + cfg.rtpHeaderLength <= cfg.maxPacketSize ==> NalType(h) != FU_A
    ensures Depacketize(PacketizeFixed(cfg, h, naluLength, input, pos, ts).packets)
            == Some([if naluLength + cfg.rtpHeaderLength <= cfg.maxPacketSize then h else h % 0x80]
                    + input[pos..pos + naluLength - 1])
  {
    if cfg.maxPacketSize < naluLength + cfg.rtpHeaderLength {
      FragmentsRoundTrip(cfg, h, naluLength, input, pos, ts);
    }
  }

  /** Every FU-A fragment of a NAL larger than one packet carries the same indicator and the NAL's type. */
  lemma PacketizeFuHeaders(cfg: Config, h: byte, naluLength: int, input: Bytes, pos: nat, ts: int)
    requires cfg.Valid() && cfg.Cap() < naluLength && pos <= |input|
    ensures var r := Packetize(cfg, h, naluLength, input, pos, ts);
            && HasFuHeaders(r.packets)
            && (forall i :: 0 <= i < |r.packets| ==>
                  && r.packets[i].payload[0] == Nri(h) + FU_A
                  && NalType(r.packets[i].payload[1]) == NalType(h)
                  && (StartBit(r.packets[i].payload[1]) <==> i == 0)
                  && (EndBit(r.packets[i].payload[1]) <==> r.complete && i == |r.packets| - 1))
            && (r.complete ==> (|r.packets| - 1) * cfg.Cap() < naluLength - 1 <= |r.packets| * cfg.Cap())
  {
    var ind := FuIndicator(h);
    FragmentsShape(ind, NalType(h), input, pos, 1, naluLength, cfg.Cap(), ts, true);
    FragmentsFlags(ind, NalType(h), input, pos, 1, naluLength, cfg.Cap(), ts, true);
    FragmentsCount(ind, NalType(h), input, pos, 1, naluLength, cfg.Cap(), ts, true);
  }
}
