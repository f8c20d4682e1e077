/**
 * The RTP socket as the packetizer sees it: a log of sent packets, each a
 * payload written after the RTP header, the timestamp given to
 * `updateTimestamp` and whether `markNextPacket` was requested for it.
 */
module Rtp {
  import opened Bytes

  datatype Packet = Packet(payload: Bytes, ts: int, marker: bool)

  /** `MAXPACKETSIZE` and `RTPHL` of the socket. */
  datatype Config = Config(maxPacketSize: int, rtpHeaderLength: int) {

    predicate Valid()
    {
      0 <= rtpHeaderLength && maxPacketSize - rtpHeaderLength - 2 > 0
    }

    /** The most NAL bytes an FU-A fragment carries: `MAXPACKETSIZE - RTPHL - 2`. */
    function Cap(): int
    {
      maxPacketSize - rtpHeaderLength - 2
    }

    /** The length passed to `super.send`: RTP header plus payload. */
    function Size(p: Packet): int
    {
      rtpHeaderLength + |p.payload|
    }
  }
}
