/**
 * The search for the SPS and PPS in the first small output buffer of the
 * encoder, inside `testMediaCodecAPI`: the buffer is an H.264 byte stream
 * (Annex B, section B.1 of ITU-T H.264) of NAL units behind `00 00 00 01`
 * start codes, copied into a 128-octet array `csd`.
 */
module CsdSplitter {
  import opened Wrappers
  import opened Bytes
  import opened Nal

  const CSD_CAPACITY: int := 128
  const START_CODE: Bytes := [0, 0, 0, 1]

  predicate StartCodeAt(b: Bytes, i: int)
    requires 0 <= i && i + 3 < |b|
  {
    b[i] == 0 && b[i + 1] == 0 && b[i + 2] == 0 && b[i + 3] == 1
  }

  /** The end of the segment starting at `p`: the first start code at or after `p` lying wholly in `b`, else `|b|`. */
  function SegmentEnd(b: Bytes, p: nat): (e: nat)
    requires p <= |b|
    ensures p <= e <= |b| && (e < |b| ==> e + 3 < |b|)
    decreases |b| - p
  {
    if p + 3 >= |b| then |b|
    else if StartCodeAt(b, p) then p
    else SegmentEnd(b, p + 1)
  }

  /** SegmentEnd is the first start code at or after `p` lying wholly in `b`, and `|b|` when there is none. */
  lemma {:induction false} SegmentEndSpec(b: Bytes, p: nat)
    requires p <= |b|
    ensures var e := SegmentEnd(b, p);
            (e < |b| ==> StartCodeAt(b, e)) && forall i :: p <= i < e && i + 3 < |b| ==> !StartCodeAt(b, i)
    decreases |b| - p
  {
    if p + 3 < |b| && !StartCodeAt(b, p) {
      SegmentEndSpec(b, p + 1);
    }
  }

  /** The segments from `q` on: each runs to its SegmentEnd; the next one starts after the start code found, and none starts at or past the end. */
  function Segments(b: Bytes, q: nat): seq<Bytes>
    decreases |b| - q
  {
    if q >= |b| then []
    else
      var e := SegmentEnd(b, q);
      [b[q..e]] + Segments(b, e + 4)
  }

  /** A segment is taken for the SPS when its first octet has type 7; any other segment, an empty one too, for the PPS. */
  predicate IsSps(seg: Bytes)
  {
    |seg| > 0 && NalType(seg[0]) == NAL_SPS
  }

  /** Every segment of a class overwrites the earlier one of that class, starting from `sps` and `pps`. */
  function Classify(segs: seq<Bytes>, sps: Option<Bytes>, pps: Option<Bytes>): (Option<Bytes>, Option<Bytes>)
    decreases |segs|
  {
    if segs == [] then (sps, pps)
    else if IsSps(segs[0]) then Classify(segs[1..], Some(segs[0]), pps)
    else Classify(segs[1..], sps, Some(segs[0]))
  }

  /** Segment `i` is of class `sps` (type 7 or not), and no later segment is. */
  predicate LastOfClass(segs: seq<Bytes>, i: int, sps: bool)
  {
    0 <= i < |segs| && IsSps(segs[i]) == sps && forall j :: i < j < |segs| ==> IsSps(segs[j]) != sps
  }

  /** No segment is of class `sps`. */
  predicate NoneOfClass(segs: seq<Bytes>, sps: bool)
  {
    forall i :: 0 <= i < |segs| ==> IsSps(segs[i]) != sps
  }

  /** What Classify keeps for a class. */
  function Kept(r: (Option<Bytes>, Option<Bytes>), sps: bool): Option<Bytes>
  {
    if sps then r.0 else r.1
  }

  /**
   * The SPS kept is the last segment of type 7, the PPS the last segment of
   * any other type; with no segment of a class, its starting value stays.
   */
  lemma {:induction false} ClassifyKeepsLast(segs: seq<Bytes>, sps: Option<Bytes>, pps: Option<Bytes>, cls: bool)
    ensures forall i :: LastOfClass(segs, i, cls) ==> Kept(Classify(segs, sps, pps), cls) == Some(segs[i])
    ensures NoneOfClass(segs, cls) ==> Kept(Classify(segs, sps, pps), cls) == Kept((sps, pps), cls)
    decreases |segs|
  {
    if segs != [] {
      var rest := segs[1..];
      var p' := if IsSps(segs[0]) then pps else Some(segs[0]);
      var s' := if IsSps(segs[0]) then Some(segs[0]) else sps;
      assert Classify(segs, sps, pps) == Classify(rest, s', p');
      ClassifyKeepsLast(rest, s', p', cls);
      forall i | LastOfClass(segs, i, cls)
        ensures Kept(Classify(segs, sps, pps), cls) == Some(segs[i])
      {
        if i > 0 {
          assert LastOfClass(rest, i - 1, cls) by {
            forall j | i - 1 < j < |rest|
              ensures IsSps(rest[j]) != cls
            {
              assert rest[j] == segs[j + 1];
            }
          }
        } else {
          assert NoneOfClass(rest, cls) by {
            forall j | 0 <= j < |rest|
              ensures IsSps(rest[j]) != cls
            {
              assert rest[j] == segs[j + 1];
            }
          }
        }
      }
      if NoneOfClass(segs, cls) {
        assert NoneOfClass(rest, cls) by {
          forall j | 0 <= j < |rest|
            ensures IsSps(rest[j]) != cls
          {
            assert rest[j] == segs[j + 1];
          }
        }
      }
    }
  }

  /** The SPS and PPS the splitter finds in the first `len` octets, starting past the leading start code. */
  function SplitCsd(b: Bytes): (Option<Bytes>, Option<Bytes>)
    requires |b| >= 4
  {
    Classify(Segments(b, 4), None, None)
  }

  /** The byte stream of `nals`, each behind a start code. */
  function AnnexB(nals: seq<Bytes>): (r: Bytes)
    ensures nals != [] ==> |r| >= 4 && r[..4] == START_CODE
    decreases |nals|
  {
    if nals == [] then [] else START_CODE + nals[0] + AnnexB(nals[1..])
  }

  /** No start code lies wholly inside `n`. */
  predicate FreeOfStartCode(n: Bytes)
  {
    forall i :: 0 <= i && i + 3 < |n| ==> !StartCodeAt(n, i)
  }

  /** SegmentEnd is the only position with its defining properties. */
  lemma {:induction false} SegmentEndIs(b: Bytes, p: nat, e: nat)
    requires p <= e <= |b|
    requires forall i :: p <= i < e && i + 3 < |b| ==> !StartCodeAt(b, i)
    requires e < |b| ==> e + 3 < |b| && StartCodeAt(b, e)
    ensures SegmentEnd(b, p) == e
    decreases e - p
  {
    if p + 3 < |b| && !StartCodeAt(b, p) {
      SegmentEndIs(b, p + 1, e);
    }
  }

  /** When `b` continues at `p` with `nal` and then a start code or nothing, the segment at `p` is `nal`. */
  lemma FirstSegment(b: Bytes, p: nat, nal: Bytes, tail: Bytes)
    requires p <= |b| && b[p..] == nal + tail && FreeOfStartCode(nal)
    requires tail == [] || (|tail| >= 4 && tail[..4] == START_CODE)
    ensures p + |nal| <= |b| && b[p..p + |nal|] == nal && b[p + |nal|..] == tail
    ensures SegmentEnd(b, p) == p + |nal|
  {
    var e := p + |nal|;
    assert forall i :: p <= i < e ==> b[i] == b[p..][i - p] == nal[i - p];
    assert forall i :: e <= i < |b| ==> b[i] == b[p..][i - p] == tail[i - e];
    forall i | p <= i < e && i + 3 < |b|
      ensures !StartCodeAt(b, i)
    {
      if i + 3 < e {
        assert StartCodeAt(b, i) == StartCodeAt(nal, i - p);
      } else {
        assert tail[..4][i + 3 - e] == 0;
      }
    }
    if tail != [] {
      assert tail[..4][0] == 0 && tail[..4][1] == 0 && tail[..4][2] == 0 && tail[..4][3] == 1;
      assert StartCodeAt(b, e);
    }
    SegmentEndIs(b, p, e);
    assert b[p..e] == nal;
    assert b[e..] == tail;
  }

  /** The segments from `p` when the first one is `nal`: it, then those past the start code after it. */
  lemma SegmentsHead(b: Bytes, p: nat, nal: Bytes)
    requires p < |b| && p + |nal| <= |b| && b[p..p + |nal|] == nal
    requires SegmentEnd(b, p) == p + |nal|
    ensures Segments(b, p) == [nal] + Segments(b, p + |nal| + 4)
  {
  }

  /** Past the first start code of an AnnexB stream come the first unit and the stream of the others. */
  lemma AnnexBFirst(pre: Bytes, nals: seq<Bytes>)
    requires nals != []
    ensures (pre + AnnexB(nals))[|pre| + 4..] == nals[0] + AnnexB(nals[1..])
  {
  }

  /** Where `b` continues with the stream of `nals`, past its first start code it continues with the first unit and the rest. */
  lemma DropStartCode(b: Bytes, e: nat, nals: seq<Bytes>)
    requires nals != [] && e <= |b| && b[e..] == AnnexB(nals)
    ensures e + 4 <= |b| && b[e + 4..] == nals[0] + AnnexB(nals[1..])
  {
    assert b[e + 4..] == b[e..][4..];
  }

  /** The conditions on the units carry over to all but the first. */
  lemma ClearTail(nals: seq<Bytes>)
    requires |nals| > 1 && |nals[|nals| - 1]| > 0
    requires forall k :: 0 <= k < |nals| ==> FreeOfStartCode(nals[k])
    ensures var rest := nals[1..];
            |rest[|rest| - 1]| > 0 && forall k :: 0 <= k < |rest| ==> FreeOfStartCode(rest[k])
  {
    var rest := nals[1..];
    assert rest[|rest| - 1] == nals[|nals| - 1];
    forall k | 0 <= k < |rest|
      ensures FreeOfStartCode(rest[k])
    {
      assert rest[k] == nals[k + 1];
    }
  }

  /** The first unit comes back as the segment at `p`; the segments after it start past the next start code. */
  lemma SegmentsStep(b: Bytes, p: nat, nals: seq<Bytes>)
    requires nals != [] && |nals[|nals| - 1]| > 0 && FreeOfStartCode(nals[0])
    requires p <= |b| && b[p..] == nals[0] + AnnexB(nals[1..])
    ensures var e := p + |nals[0]| + 4;
            var rest := nals[1..];
            && Segments(b, p) == [nals[0]] + Segments(b, e)
            && (|nals| == 1 ==> Segments(b, e) == [])
            && (|nals| > 1 ==> e <= |b| && b[e..] == rest[0] + AnnexB(rest[1..]))
  {
    var nal := nals[0];
    var rest := nals[1..];
    FirstSegment(b, p, nal, AnnexB(rest));
    if rest == [] {
      assert nal == nals[|nals| - 1];
    } else {
      DropStartCode(b, p + |nal|, rest);
    }
    SegmentsHead(b, p, nal);
  }

  /** The first segment and the segments after it make up all of them. */
  lemma SegmentsJoin(b: Bytes, p: nat, nals: seq<Bytes>, e: nat)
    requires nals != [] && Segments(b, p) == [nals[0]] + Segments(b, e) && Segments(b, e) == nals[1..]
    ensures Segments(b, p) == nals
  {
    assert nals == [nals[0]] + nals[1..];
  }

  /** The segments of `b` from `p`, where `b` continues with the units `nals`, the first one's start code already passed. */
  lemma {:induction false} SegmentsFrom(b: Bytes, p: nat, nals: seq<Bytes>)
    requires nals != [] && |nals[|nals| - 1]| > 0
    requires forall k :: 0 <= k < |nals| ==> FreeOfStartCode(nals[k])
    requires p <= |b| && b[p..] == nals[0] + AnnexB(nals[1..])
    ensures Segments(b, p) == nals
    decreases |nals|
  {
    var e := p + |nals[0]| + 4;
    assert FreeOfStartCode(nals[0]);
    SegmentsStep(b, p, nals);
    if |nals| > 1 {
      ClearTail(nals);
      SegmentsFrom(b, e, nals[1..]);
    }
    SegmentsJoin(b, p, nals, e);
  }

  /**
   * Splitting undoes AnnexB: NAL units without a start code inside them, the
   * last one not empty, come back one segment each, in order.  No start code
   * can straddle the end of a unit and the next start code, because a start
   * code ends in 1 and begins with three zeros.
   */
  lemma SegmentsOfAnnexB(pre: Bytes, nals: seq<Bytes>)
    requires nals != [] && |nals[|nals| - 1]| > 0
    requires forall k :: 0 <= k < |nals| ==> FreeOfStartCode(nals[k])
    ensures Segments(pre + AnnexB(nals), |pre| + 4) == nals
  {
    AnnexBFirst(pre, nals);
    SegmentsFrom(pre + AnnexB(nals), |pre| + 4, nals);
  }

  /** The splitter finds the SPS and the PPS in a buffer that holds exactly those two units, in either order. */
  lemma SplitCsdFindsBoth(first: Bytes, second: Bytes)
    requires FreeOfStartCode(first) && FreeOfStartCode(second) && |second| > 0
    requires IsSps(first) != IsSps(second)
    ensures var r := SplitCsd(AnnexB([first, second]));
            if IsSps(first) then r == (Some(first), Some(second)) else r == (Some(second), Some(first))
  {
    var nals: seq<Bytes> := [first, second];
    forall k | 0 <= k < |nals|
      ensures FreeOfStartCode(nals[k])
    {
    }
    SegmentsOfAnnexB([], nals);
    assert [] + AnnexB(nals) == AnnexB(nals);
    assert nals[1..] == [second];
    assert [second][1..] == [];
    assert Segments(AnnexB(nals), 4) == nals;
    if IsSps(first) {
      assert Classify(nals, None, None) == Classify([second], Some(first), None);
      assert Classify([second], Some(first), None) == Classify([], Some(first), Some(second));
    } else {
      assert Classify(nals, None, None) == Classify([second], None, Some(first));
      assert Classify([second], None, Some(first)) == Classify([], Some(second), Some(first));
    }
  }

  /** What the splitter makes of one output buffer: the parameter sets found, or the array index exception. */
  datatype CsdOutcome = Parsed(sps: Option<Bytes>, pps: Option<Bytes>) | IndexOutOfBounds

  /**
   * `csd[p + 0] == 0 && csd[p + 1] == 0 && csd[p + 2] == 0 && csd[p + 3] == 1`,
   * evaluated left to right on the 128-octet array; None when it indexes past the end.
   */
  function JavaStartCodeAt(csd: Bytes, p: nat): (r: Option<bool>)
    requires |csd| == CSD_CAPACITY
    ensures p + 3 < |csd| ==> r == Some(StartCodeAt(csd, p))
    ensures r.None? ==> p + 3 >= |csd|
  {
    if p >= |csd| then None
    else if csd[p] != 0 then Some(false)
    else if p + 1 >= |csd| then None
    else if csd[p + 1] != 0 then Some(false)
    else if p + 2 >= |csd| then None
    else if csd[p + 2] != 0 then Some(false)
    else if p + 3 >= |csd| then None
    else Some(csd[p + 3] == 1)
  }

  /** The remaining work of the splitter from `p`, given what it has found so far. */
  function Remaining(b: Bytes, p: nat, sps: Option<Bytes>, pps: Option<Bytes>): (Option<Bytes>, Option<Bytes>)
  {
    Classify(Segments(b, p), sps, pps)
  }

  /** One turn of the outer loop: the segment at `q` is classified, and the search resumes past the next start code. */
  lemma RemainingStep(b: Bytes, q: nat, sps: Option<Bytes>, pps: Option<Bytes>)
    requires q < |b|
    ensures var e := SegmentEnd(b, q);
            var seg := b[q..e];
            Remaining(b, q, sps, pps)
            == if IsSps(seg) then Remaining(b, e + 4, Some(seg), pps) else Remaining(b, e + 4, sps, Some(seg))
  {
    var e := SegmentEnd(b, q);
    ClassifyCons(b[q..e], Segments(b, e + 4), sps, pps);
  }

  /** Classify takes the first segment into its class and goes on with the others. */
  lemma ClassifyCons(seg: Bytes, tail: seq<Bytes>, sps: Option<Bytes>, pps: Option<Bytes>)
    ensures Classify([seg] + tail, sps, pps)
            == if IsSps(seg) then Classify(tail, Some(seg), pps) else Classify(tail, sps, Some(seg))
  {
    assert ([seg] + tail)[1..] == tail;
  }

  /**
   * The segment the splitter copies out of the array is the one of the first
   * `len` octets, and testing the type of `csd[q]` classifies it, even when it
   * is empty.
   */
  lemma SegmentInArray(csd: Bytes, len: nat, q: nat, e: nat)
    requires |csd| == CSD_CAPACITY && q < len < CSD_CAPACITY && e == SegmentEnd(csd[..len], q)
    ensures csd[q..e] == csd[..len][q..e]
    ensures NalType(csd[q]) == NAL_SPS <==> IsSps(csd[q..e])
  {
    var b := csd[..len];
    SegmentEndSpec(b, q);
    assert b[q] == csd[q];
    if e == q {
      assert StartCodeAt(b, q);
    }
  }

  /**
   * The inner `while` loop and the `p + 3 >= len` clamp after it: the end of
   * the segment starting at `q`, or None when the start-code test indexes past
   * the 128-octet array.
   */
  method ScanSegment(csd: Bytes, len: nat, q: nat) returns (r: Option<nat>)
    requires |csd| == CSD_CAPACITY && q < len < CSD_CAPACITY
    ensures r.Some? ==> r.value == SegmentEnd(csd[..len], q)
    ensures len + 2 < CSD_CAPACITY ==> r.Some?
  {
    ghost var b := csd[..len];
    var p := q;
    while true
      invariant q <= p < len
      invariant SegmentEnd(b, p) == SegmentEnd(b, q)
      decreases len - p
    {
      var code := JavaStartCodeAt(csd, p);
      if code.None? {
        return None;
      }
      if code.value || p + 3 >= len {
        break;
      }
      assert !StartCodeAt(b, p);
      p := p + 1;
    }
    if p + 3 >= len {
      p := len;
    } else {
      assert StartCodeAt(b, p);
    }
    return Some(p);
  }

  /**
   * The `while (p < len)` loop with `p = q = 4` on entry, on the array `csd`
   * whose first `len` octets came from the buffer.  It finds what its first
   * `len` octets decide, and it cannot index past the array when
   * `len + 2 < 128`.
   */
  method SplitCsdBuffer(csd: Bytes, len: nat) returns (r: CsdOutcome)
    requires |csd| == CSD_CAPACITY && 4 <= len < CSD_CAPACITY
    ensures r.Parsed? ==> (r.sps, r.pps) == SplitCsd(csd[..len])
    ensures len + 2 < CSD_CAPACITY ==> r.Parsed?
  {
    ghost var b := csd[..len];
    var sps: Option<Bytes> := None;
    var pps: Option<Bytes> := None;
    var p := 4;
    var q := 4;
    while p < len
      invariant 4 <= p <= len + 4 && q == p
      invariant Remaining(b, p, sps, pps) == SplitCsd(b)
      decreases len + 4 - p
    {
      var end := ScanSegment(csd, len, q);
      if end.None? {
        return IndexOutOfBounds;
      }
      p := end.value;
      RemainingStep(b, q, sps, pps);
      SegmentInArray(csd, len, q, p);
      var seg := csd[q..p];
      if NalType(csd[q]) == NAL_SPS {
        sps := Some(seg);
      } else {
        pps := Some(seg);
      }
      p := p + 4;
      q := p;
    }
    return Parsed(sps, pps);
  }

  /** The buffer starts with a start code. */
  predicate BeginsWithStartCode(data: Bytes)
  {
    |data| >= 4 && StartCodeAt(data, 0)
  }

  function Zeros(n: nat): (z: Bytes)
    ensures |z| == n && forall i :: 0 <= i < n ==> z[i] == 0
  {
    seq(n, _ => 0)
  }

  /**
   * One output buffer of `info.size` octets: parsed only when it is shorter
   * than 128 octets and starts with `00 00 00 01`; otherwise it contributes
   * nothing.  The octets are copied into a fresh, zeroed 128-octet array.
   */
  method ParseOutputBuffer(data: Bytes) returns (r: CsdOutcome)
    ensures |data| >= CSD_CAPACITY || !BeginsWithStartCode(data) ==> r == Parsed(None, None)
    ensures |data| + 2 < CSD_CAPACITY && BeginsWithStartCode(data) ==>
              r == Parsed(SplitCsd(data).0, SplitCsd(data).1)
    ensures r.Parsed? && |data| < CSD_CAPACITY && BeginsWithStartCode(data) ==>
              (r.sps, r.pps) == SplitCsd(data)
  {
    if |data| >= CSD_CAPACITY {
      return Parsed(None, None);
    }
    var csd := data + Zeros(CSD_CAPACITY - |data|);
    assert csd[..|data|] == data;
    if |data| > 0 && csd[0] == 0 && csd[1] == 0 && csd[2] == 0 && csd[3] == 1 {
      assert |data| >= 4;
      r := SplitCsdBuffer(csd, |data|);
    } else {
      r := Parsed(None, None);
    }
  }
}
