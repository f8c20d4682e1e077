/**
 * The body of `send` once the NAL header and length are known: one single
 * NAL unit packet (section 5.6 of RFC 3984) when the NAL fits, otherwise a
 * run of FU-A fragments (section 5.8).  The NAL bytes after the header are
 * read from `input` at `pos`, as `fill` reads them from the input stream.
 */
module FuA {
  import opened Wrappers
  import opened Bytes
  import opened Nal
  import opened Rtp

  /** The packets sent, where reading stopped, and whether every byte requested was available. */
  datatype Fragmented = Fragmented(packets: seq<Packet>, next: nat, complete: bool)

  /** Every packet carries an FU indicator and an FU header. */
  predicate HasFuHeaders(ps: seq<Packet>)
  {
    forall i :: 0 <= i < |ps| ==> |ps[i].payload| >= 2
  }

  /** The fragment payloads (the bytes after the two FU octets) concatenated. */
  function FuPayload(ps: seq<Packet>): Bytes
    requires HasFuHeaders(ps)
  {
    if ps == [] then [] else ps[0].payload[2..] + FuPayload(ps[1..])
  }

  /** The number of NAL bytes one round of the loop asks `fill` for. */
  function ChunkLength(sum: int, naluLength: int, cap: int): int
  {
    Min(naluLength - sum, cap)
  }

  /**
   * The `while (sum < naluLength)` loop of `send`.  Each round sends
   * `min(naluLength - sum, cap)` NAL bytes behind the indicator and the FU
   * header; `start` is the start flag still set in `header[1]`.  A short read
   * ends the loop with the fragments sent so far.
   */
  function Fragments(indicator: byte, typ: int, input: Bytes, pos: nat, sum: int, naluLength: int,
                     cap: int, ts: int, start: bool): (r: Fragmented)
    requires 0 <= typ < 32 && cap > 0 && pos <= |input|
    ensures HasFuHeaders(r.packets)
    ensures pos <= r.next <= |input|
    ensures r.complete <==> pos + Max(naluLength - sum, 0) <= |input|
    ensures r.complete ==> r.next == pos + Max(naluLength - sum, 0)
    ensures !r.complete ==> r.next == |input|
    decreases naluLength - sum
  {
    if sum >= naluLength then Fragmented([], pos, true)
    else
      var len := ChunkLength(sum, naluLength, cap);
      if pos + len > |input| then Fragmented([], |input|, false)
      else
        var last := sum + len >= naluLength;
        var p := Packet([indicator, FuHeader(typ, start, last)] + input[pos..pos + len], ts, last);
        var rest := Fragments(indicator, typ, input, pos + len, sum + len, naluLength, cap, ts, false);
        Fragmented([p] + rest.packets, rest.next, rest.complete)
  }

  /** One round of the loop: the first fragment, and the rest sent with the start flag cleared. */
  lemma FragmentsStep(indicator: byte, typ: int, input: Bytes, pos: nat, sum: int, naluLength: int,
                      cap: int, ts: int, start: bool)
    requires 0 <= typ < 32 && cap > 0 && pos <= |input|
    requires sum < naluLength && pos + ChunkLength(sum, naluLength, cap) <= |input|
    ensures var len := ChunkLength(sum, naluLength, cap);
            var r := Fragments(indicator, typ, input, pos, sum, naluLength, cap, ts, start);
            var rest := Fragments(indicator, typ, input, pos + len, sum + len, naluLength, cap, ts, false);
            && |r.packets| == 1 + |rest.packets|
            && r.packets[0] == Packet([indicator, FuHeader(typ, start, sum + len >= naluLength)]
                                      + input[pos..pos + len], ts, sum + len >= naluLength)
            && r.packets[1..] == rest.packets
            && r.complete == rest.complete && r.next == rest.next
            && (sum + len >= naluLength ==> rest.packets == [] && rest.complete)
  {
  }

  /** The fragments' payloads are NAL bytes read from `pos`: all the bytes up to `r.next` when complete, fewer than `left` otherwise. */
  predicate PayloadRead(input: Bytes, pos: nat, r: Fragmented, left: int)
    requires pos <= |input| && HasFuHeaders(r.packets)
  {
    && FuPayload(r.packets) <= input[pos..]
    && (r.complete ==> pos + |FuPayload(r.packets)| == r.next)
    && (!r.complete ==> |FuPayload(r.packets)| < left)
  }

  /** Reassembly: the fragment payloads are exactly the NAL bytes that were read, all of them when the input sufficed. */
  lemma {:induction false} FragmentsPayload(indicator: byte, typ: int, input: Bytes, pos: nat, sum: int,
                                            naluLength: int, cap: int, ts: int, start: bool)
    requires 0 <= typ < 32 && cap > 0 && pos <= |input|
    ensures PayloadRead(input, pos, Fragments(indicator, typ, input, pos, sum, naluLength, cap, ts, start), naluLength - sum)
    decreases naluLength - sum
  {
    var len := ChunkLength(sum, naluLength, cap);
    if sum < naluLength && pos + len <= |input| {
      FragmentsPayload(indicator, typ, input, pos + len, sum + len, naluLength, cap, ts, false);
      FragmentsPayloadStep(indicator, typ, input, pos, sum, naluLength, cap, ts, start);
    } else {
      FragmentsNone(indicator, typ, input, pos, sum, naluLength, cap, ts, start);
    }
  }

  /** When the loop does not run or its first read is short, nothing is sent. */
  lemma FragmentsNone(indicator: byte, typ: int, input: Bytes, pos: nat, sum: int, naluLength: int,
                      cap: int, ts: int, start: bool)
    requires 0 <= typ < 32 && cap > 0 && pos <= |input|
    requires !(sum < naluLength && pos + ChunkLength(sum, naluLength, cap) <= |input|)
    ensures PayloadRead(input, pos, Fragments(indicator, typ, input, pos, sum, naluLength, cap, ts, start), naluLength - sum)
  {
  }

  /** One chunk read at `pos` followed by payload read after it is payload read at `pos`. */
  lemma PayloadJoin(input: Bytes, pos: nat, len: nat, r: Fragmented, rest: Fragmented, left: int)
    requires HasFuHeaders(r.packets) && HasFuHeaders(rest.packets)
    requires pos + len <= |input| && FuPayload(r.packets) == input[pos..pos + len] + FuPayload(rest.packets)
    requires r.complete == rest.complete && r.next == rest.next
    requires PayloadRead(input, pos + len, rest, left - len)
    ensures PayloadRead(input, pos, r, left)
  {
    PrefixAfterSlice(input, pos, pos + len, FuPayload(rest.packets));
  }

  /** The payload of the fragments is the first chunk read followed by the payload of the rest. */
  lemma FragmentsPayloadStep(indicator: byte, typ: int, input: Bytes, pos: nat, sum: int, naluLength: int,
                             cap: int, ts: int, start: bool)
    requires 0 <= typ < 32 && cap > 0 && pos <= |input|
    requires sum < naluLength && pos + ChunkLength(sum, naluLength, cap) <= |input|
    requires var len := ChunkLength(sum, naluLength, cap);
             PayloadRead(input, pos + len, Fragments(indicator, typ, input, pos + len, sum + len, naluLength, cap, ts, false),
                         naluLength - (sum + len))
    ensures PayloadRead(input, pos, Fragments(indicator, typ, input, pos, sum, naluLength, cap, ts, start), naluLength - sum)
  {
    var len := ChunkLength(sum, naluLength, cap);
    var r := Fragments(indicator, typ, input, pos, sum, naluLength, cap, ts, start);
    var rest := Fragments(indicator, typ, input, pos + len, sum + len, naluLength, cap, ts, false);
    FragmentsStep(indicator, typ, input, pos, sum, naluLength, cap, ts, start);
    FuPayloadCons(r.packets);
    ChunkPayload(indicator, FuHeader(typ, start, sum + len >= naluLength), input, pos, len);
    PayloadJoin(input, pos, len, r, rest, naluLength - sum);
  }

  /** The payload of a run of fragments is the first one's followed by the others'. */
  lemma FuPayloadCons(ps: seq<Packet>)
    requires |ps| >= 1 && HasFuHeaders(ps)
    ensures HasFuHeaders(ps[1..]) && FuPayload(ps) == ps[0].payload[2..] + FuPayload(ps[1..])
  {
  }

  /** The NAL bytes of one fragment are the chunk read. */
  lemma ChunkPayload(indicator: byte, header: byte, input: Bytes, pos: nat, len: nat)
    requires pos + len <= |input|
    ensures ([indicator, header] + input[pos..pos + len])[2..] == input[pos..pos + len]
  {
  }

  lemma PrefixAfterSlice(s: Bytes, a: int, b: int, t: Bytes)
    requires 0 <= a <= b <= |s| && t <= s[b..]
    ensures s[a..b] + t <= s[a..]
  {
    assert s[a..] == s[a..b] + s[b..];
  }

  /** Every fragment carries the indicator, the NAL type, the timestamp, and between 1 and `cap` NAL bytes. */
  lemma {:induction false} FragmentsShape(indicator: byte, typ: int, input: Bytes, pos: nat, sum: int,
                                          naluLength: int, cap: int, ts: int, start: bool)
    requires 0 <= typ < 32 && cap > 0 && pos <= |input|
    ensures var r := Fragments(indicator, typ, input, pos, sum, naluLength, cap, ts, start);
            forall i :: 0 <= i < |r.packets| ==>
              && 3 <= |r.packets[i].payload| <= cap + 2
              && r.packets[i].payload[0] == indicator
              && NalType(r.packets[i].payload[1]) == typ
              && r.packets[i].ts == ts
    decreases naluLength - sum
  {
    var len := ChunkLength(sum, naluLength, cap);
    if sum < naluLength && pos + len <= |input| {
      FragmentsStep(indicator, typ, input, pos, sum, naluLength, cap, ts, start);
      FragmentsShape(indicator, typ, input, pos + len, sum + len, naluLength, cap, ts, false);
    }
  }

  /**
   * The start flag is on the first fragment only, the end flag on the last
   * fragment only and only when the NAL was sent whole, the marker exactly
   * where the end flag is, and a fragment without the end flag is full.
   */
  lemma {:induction false} FragmentsFlags(indicator: byte, typ: int, input: Bytes, pos: nat, sum: int,
                                          naluLength: int, cap: int, ts: int, start: bool)
    requires 0 <= typ < 32 && cap > 0 && pos <= |input|
    ensures var r := Fragments(indicator, typ, input, pos, sum, naluLength, cap, ts, start);
            && (r.complete && sum < naluLength ==> |r.packets| >= 1)
            && (forall i :: 0 <= i < |r.packets| ==> (StartBit(r.packets[i].payload[1]) <==> start && i == 0))
            && (forall i :: 0 <= i < |r.packets| ==>
                  (EndBit(r.packets[i].payload[1]) <==> r.complete && i == |r.packets| - 1))
            && (forall i :: 0 <= i < |r.packets| ==> (r.packets[i].marker <==> EndBit(r.packets[i].payload[1])))
            && (forall i :: 0 <= i < |r.packets| && !EndBit(r.packets[i].payload[1]) ==>
                  |r.packets[i].payload| == cap + 2)
    decreases naluLength - sum
  {
    var len := ChunkLength(sum, naluLength, cap);
    if sum < naluLength && pos + len <= |input| {
      FragmentsStep(indicator, typ, input, pos, sum, naluLength, cap, ts, start);
      FragmentsFlags(indicator, typ, input, pos + len, sum + len, naluLength, cap, ts, false);
      var r := Fragments(indicator, typ, input, pos, sum, naluLength, cap, ts, start);
      var rest := Fragments(indicator, typ, input, pos + len, sum + len, naluLength, cap, ts, false);
      forall i | 0 <= i < |r.packets|
        ensures EndBit(r.packets[i].payload[1]) <==> r.complete && i == |r.packets| - 1
      {
        if i > 0 {
          assert r.packets[i] == rest.packets[i - 1];
        }
      }
    }
  }

  /** The number of fragments of a NAL sent whole: the least n with n * cap >= the bytes after the header. */
  lemma {:induction false} FragmentsCount(indicator: byte, typ: int, input: Bytes, pos: nat, sum: int,
                                          naluLength: int, cap: int, ts: int, start: bool)
    requires 0 <= typ < 32 && cap > 0 && pos <= |input|
    requires sum <= naluLength
    ensures var r := Fragments(indicator, typ, input, pos, sum, naluLength, cap, ts, start);
            r.complete ==> (|r.packets| - 1) * cap < naluLength - sum <= |r.packets| * cap
                           || (sum == naluLength && r.packets == [])
    decreases naluLength - sum
  {
    var len := ChunkLength(sum, naluLength, cap);
    if sum < naluLength && pos + len <= |input| {
      FragmentsStep(indicator, typ, input, pos, sum, naluLength, cap, ts, start);
      FragmentsCount(indicator, typ, input, pos + len, sum + len, naluLength, cap, ts, false);
      var rest := Fragments(indicator, typ, input, pos + len, sum + len, naluLength, cap, ts, false);
      var n := |rest.packets|;
      assert (n + 1) * cap == n * cap + cap;
      assert n * cap == (n - 1) * cap + cap;
    }
  }
}
