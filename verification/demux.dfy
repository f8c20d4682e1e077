/**
 * The first half of `send`: reading a NAL unit's header octet and length under
 * the three stream types, and `resync`, which slides the five-octet header
 * window over a length-prefixed stream that lost its alignment.
 */
module Demux {
  import opened Wrappers
  import opened Bytes
  import opened Nal

  /** The stream types of H264Packetizer.java: 0, 1 and 2. */
  datatype StreamType = MediaRecorder | MediaCodec | Unknown

  const MAX_NALU_LENGTH: int := 100000

  /** `naluLength` as `send` and `resync` compute it from `header[0..3]`. */
  function WindowLength(w: Bytes): int
    requires |w| == 5
  {
    Int32BE(w[0], w[1], w[2], w[3])
  }

  /** `send` keeps a length-prefixed length unless `naluLength > 100000 || naluLength < 0`. */
  predicate LengthAccepted(n: int)
  {
    0 <= n <= MAX_NALU_LENGTH
  }

  /** `resync` stops at a slice or IDR slice type whose length lies strictly between 0 and 100000. */
  predicate ResyncStops(w: Bytes)
    requires |w| == 5
  {
    && (NalType(w[4]) == NAL_IDR_SLICE || NalType(w[4]) == NAL_SLICE)
    && 0 < WindowLength(w) < MAX_NALU_LENGTH
  }

  /** The header window after `k` octets of `input` from `pos` were shifted into `w`. */
  function Shifted(w: Bytes, input: Bytes, pos: nat, k: nat): (r: Bytes)
    requires |w| == 5 && pos + k <= |input|
    ensures |r| == 5
  {
    (w + input[pos..pos + k])[k..k + 5]
  }

  /** One step of the loop: `header[0..3] := header[1..4]` and `header[4] := read()`. */
  lemma ShiftedOne(w: Bytes, input: Bytes, pos: nat)
    requires |w| == 5 && pos < |input|
    ensures Shifted(w, input, pos, 1) == w[1..] + [input[pos]]
  {
    var a := w + input[pos..pos + 1];
    assert a[1..6] == w[1..] + [input[pos]] by {
      forall j | 0 <= j < 5
        ensures a[1..6][j] == (w[1..] + [input[pos]])[j]
      {
        if j < 4 {
          assert a[1..6][j] == w[j + 1];
        } else {
          assert a[1..6][j] == input[pos];
        }
      }
    }
  }

  /** After five or more steps the window holds the last five octets read. */
  lemma ShiftedFull(w: Bytes, input: Bytes, pos: nat, k: nat)
    requires |w| == 5 && 5 <= k && pos + k <= |input|
    ensures Shifted(w, input, pos, k) == input[pos + k - 5..pos + k]
  {
  }

  /** Shifting k + 1 octets is one step followed by k steps. */
  lemma ShiftedStep(w: Bytes, input: Bytes, pos: nat, k: nat)
    requires |w| == 5 && pos + k + 1 <= |input|
    ensures Shifted(w, input, pos, k + 1) == Shifted(w[1..] + [input[pos]], input, pos + 1, k)
  {
    var a := w + input[pos..pos + k + 1];
    var b := (w[1..] + [input[pos]]) + input[pos + 1..pos + 1 + k];
    assert |a| == |b| + 1;
    forall j | 0 <= j < |b|
      ensures a[j + 1] == b[j]
    {
      if j < 4 {
      } else if j == 4 {
      } else {
        assert a[j + 1] == input[pos + j - 4];
      }
    }
    assert a[k + 1..k + 6] == b[k..k + 5];
  }

  /** Where `resync` left the header window and the input. */
  datatype Resynced = Resynced(window: Bytes, next: nat)

  /** Shifting in the octets up to `rs.next` gives `rs.window`, the first window on which `resync` stops. */
  predicate StopsFirstAt(w: Bytes, input: Bytes, pos: nat, rs: Resynced)
    requires |w| == 5 && pos <= |input|
  {
    && pos < rs.next <= |input|
    && rs.window == Shifted(w, input, pos, rs.next - pos)
    && ResyncStops(rs.window)
    && forall k :: 1 <= k < rs.next - pos ==> !ResyncStops(Shifted(w, input, pos, k))
  }

  /** No window reached by shifting in the rest of `input` stops `resync`. */
  predicate NeverStops(w: Bytes, input: Bytes, pos: nat)
    requires |w| == 5 && pos <= |input|
  {
    forall k :: 1 <= k <= |input| - pos ==> !ResyncStops(Shifted(w, input, pos, k))
  }

  /** Every window after the first step is one reached from the shifted window. */
  lemma ShiftedAll(w: Bytes, input: Bytes, pos: nat)
    requires |w| == 5 && pos < |input|
    ensures forall k :: 1 <= k <= |input| - pos ==>
              Shifted(w, input, pos, k) == Shifted(w[1..] + [input[pos]], input, pos + 1, k - 1)
  {
    forall k | 1 <= k <= |input| - pos
      ensures Shifted(w, input, pos, k) == Shifted(w[1..] + [input[pos]], input, pos + 1, k - 1)
    {
      ShiftedStep(w, input, pos, k - 1);
    }
  }

  /** When the first step does not stop, `resync` stops first where it stops first from the shifted window. */
  lemma ResyncStepSome(w: Bytes, input: Bytes, pos: nat, w': Bytes, rs: Resynced)
    requires |w| == 5 && pos < |input| && w' == w[1..] + [input[pos]]
    requires !ResyncStops(w')
    requires StopsFirstAt(w', input, pos + 1, rs)
    ensures StopsFirstAt(w, input, pos, rs)
  {
    ShiftedOne(w, input, pos);
    ShiftedAll(w, input, pos);
    forall k | 1 <= k < rs.next - pos
      ensures !ResyncStops(Shifted(w, input, pos, k))
    {
      if k > 1 {
        assert Shifted(w, input, pos, k) == Shifted(w', input, pos + 1, k - 1);
      }
    }
  }

  /** When the first step does not stop, `resync` never stops exactly when it never stops from the shifted window. */
  lemma ResyncStepNone(w: Bytes, input: Bytes, pos: nat, w': Bytes)
    requires |w| == 5 && pos < |input| && w' == w[1..] + [input[pos]]
    requires !ResyncStops(w')
    ensures NeverStops(w, input, pos) <==> NeverStops(w', input, pos + 1)
  {
    ShiftedOne(w, input, pos);
    ShiftedAll(w, input, pos);
    if NeverStops(w', input, pos + 1) {
      forall k | 1 <= k <= |input| - pos
        ensures !ResyncStops(Shifted(w, input, pos, k))
      {
        if k > 1 {
          assert Shifted(w, input, pos, k) == Shifted(w', input, pos + 1, k - 1);
        }
      }
    }
    if NeverStops(w, input, pos) {
      var next := pos + 1;
      forall k | 1 <= k <= |input| - next
        ensures !ResyncStops(Shifted(w', input, next, k))
      {
        assert Shifted(w, input, pos, k + 1) == Shifted(w', input, next, k);
      }
    }
  }

  /**
   * `resync`: shift one octet of `input` into the window at a time until
   * ResyncStops holds of the window.  The source reads forever at the end of
   * the stream; here the input is finite and None says it ran out.
   */
  function Resync(w: Bytes, input: Bytes, pos: nat): (r: Option<Resynced>)
    requires |w| == 5 && pos <= |input|
    ensures r.Some? ==> StopsFirstAt(w, input, pos, r.value)
    ensures r.None? <==> NeverStops(w, input, pos)
    decreases |input| - pos
  {
    if pos == |input| then None
    else
      var w' := w[1..] + [input[pos]];
      if ResyncStops(w') then
        ShiftedOne(w, input, pos);
        Some(Resynced(w', pos + 1))
      else
        var r := Resync(w', input, pos + 1);
        ResyncStepNone(w, input, pos, w');
        if r.Some? then ResyncStepSome(w, input, pos, w', r.value); r else r
  }

  /** The start of a NAL unit as `send` finds it: `header[4]`, `naluLength`, and the input position after them. */
  datatype NalStart = NalStart(header: byte, naluLength: int, next: nat)

  /** The outcome of reading a NAL header: found, a short read, no start code, or a resync that ran out of input. */
  datatype HeaderRead = Found(nal: NalStart) | ShortRead | NoStartCode(next: nat) | ResyncExhausted

  /**
   * The framing branches of `send`.  Length-prefixed: five octets, a signed
   * big-endian length and the header octet, resync when the length is out of
   * range.  Start-code: five octets of which the first three must be zero;
   * the length is `available + 1`.  Otherwise (raw, and also the unknown
   * type): one octet, the header, with the length `available + 1`.
   */
  function ReadHeader(streamType: StreamType, input: Bytes, pos: nat, available: nat): (r: HeaderRead)
    requires pos <= |input|
    ensures r.Found? ==> pos < r.nal.next <= |input| && 0 <= r.nal.naluLength
    ensures r.ShortRead? <==> pos + (if streamType == Unknown then 1 else 5) > |input|
    ensures r.NoStartCode? ==> r.next == pos + 5 <= |input|
    ensures r.NoStartCode? <==>
              && streamType == MediaCodec && pos + 5 <= |input|
              && !(input[pos] == 0 && input[pos + 1] == 0 && input[pos + 2] == 0)
    ensures r.ResyncExhausted? ==> streamType == MediaRecorder
    ensures r.Found? && streamType == MediaRecorder ==> r.nal.naluLength <= MAX_NALU_LENGTH
    ensures r.Found? && streamType != MediaRecorder ==> r.nal.naluLength == available + 1
  {
    match streamType
    case MediaRecorder =>
      if pos + 5 > |input| then ShortRead
      else
        var w := input[pos..pos + 5];
        if !LengthAccepted(WindowLength(w)) then
          match Resync(w, input, pos + 5)
          case None => ResyncExhausted
          case Some(rs) => Found(NalStart(rs.window[4], WindowLength(rs.window), rs.next))
        else Found(NalStart(w[4], WindowLength(w), pos + 5))
    case MediaCodec =>
      if pos + 5 > |input| then ShortRead
      else if !(input[pos] == 0 && input[pos + 1] == 0 && input[pos + 2] == 0) then NoStartCode(pos + 5)
      else Found(NalStart(input[pos + 4], available + 1, pos + 5))
    case Unknown =>
      if pos + 1 > |input| then ShortRead
      else Found(NalStart(input[pos], available + 1, pos + 1))
  }

  /** A length-prefixed header with an accepted length is taken as it stands: no octet is skipped. */
  lemma LengthPrefixedAccepted(input: Bytes, pos: nat, available: nat)
    requires pos + 5 <= |input| && LengthAccepted(WindowLength(input[pos..pos + 5]))
    ensures ReadHeader(MediaRecorder, input, pos, available)
            == Found(NalStart(input[pos + 4], Int32BE(input[pos], input[pos + 1], input[pos + 2], input[pos + 3]), pos + 5))
  {
  }

  /** A rejected length-prefixed header resumes exactly where `resync` stops, with the window's header octet and length. */
  lemma LengthPrefixedResync(input: Bytes, pos: nat, available: nat)
    requires pos + 5 <= |input| && !LengthAccepted(WindowLength(input[pos..pos + 5]))
    ensures var r := ReadHeader(MediaRecorder, input, pos, available);
            match Resync(input[pos..pos + 5], input, pos + 5)
            case None => r == ResyncExhausted
            case Some(rs) => r == Found(NalStart(rs.window[4], WindowLength(rs.window), rs.next))
                             && 0 < r.nal.naluLength < MAX_NALU_LENGTH
                             && (NalType(r.nal.header) == NAL_IDR_SLICE || NalType(r.nal.header) == NAL_SLICE)
  {
  }
}
