/**
 * Skipping the MP4 header that MediaRecorder writes before the media data:
 * the stream is scanned for the four octets `mdat`, the type of the box
 * that holds the media (section 8.1.1 of ISO/IEC 14496-12), and the
 * packetizer starts reading right after them.
 *
 * The stream is the finite sequence of octets the recorder will ever write;
 * `None` stands for the stream ending before the scan stops.
 */
module Mdat {
  import opened Wrappers
  import opened Bytes

  const CHAR_M: byte := 0x6D
  const CHAR_D: byte := 0x64
  const CHAR_A: byte := 0x61
  const CHAR_T: byte := 0x74

  /** The box type `mdat` starts at `i`. */
  predicate MdatAt(s: Bytes, i: int)
  {
    0 <= i && i + 4 <= |s| && s[i] == CHAR_M && s[i + 1] == CHAR_D && s[i + 2] == CHAR_A && s[i + 3] == CHAR_T
  }

  /** `while (is.read() != 'm');`: the position of the first `m` at or after `pos`. */
  function NextM(s: Bytes, pos: nat): (r: Option<nat>)
    requires pos <= |s|
    ensures r.Some? ==> pos <= r.value < |s| && s[r.value] == CHAR_M
    ensures r.Some? ==> forall i :: pos <= i < r.value ==> s[i] != CHAR_M
    ensures r.None? ==> forall i :: pos <= i < |s| ==> s[i] != CHAR_M
    decreases |s| - pos
  {
    if pos == |s| then None
    else if s[pos] == CHAR_M then Some(pos)
    else NextM(s, pos + 1)
  }

  /**
   * The skip loop as written: after each `m` the next three octets are read
   * into the buffer and consumed whether or not they spell `dat`, so the scan
   * never looks at them again.  Some(k) is where the packetizer starts.
   */
  function SkipToMdat(s: Bytes, pos: nat): (r: Option<nat>)
    requires pos <= |s|
    ensures r.Some? ==> pos + 4 <= r.value <= |s| && MdatAt(s, r.value - 4)
    decreases |s| - pos
  {
    match NextM(s, pos)
    case None => None
    case Some(i) =>
      if i + 4 > |s| then None
      else if s[i + 1] == CHAR_D && s[i + 2] == CHAR_A && s[i + 3] == CHAR_T then Some(i + 4)
      else SkipToMdat(s, i + 4)
  }

  /** An `m` followed by `mdat`: the second `m` is consumed with the first one's three octets. */
  lemma SkipToMdatMissesOverlap()
    ensures MdatAt([CHAR_M, CHAR_M, CHAR_D, CHAR_A, CHAR_T], 1)
    ensures SkipToMdat([CHAR_M, CHAR_M, CHAR_D, CHAR_A, CHAR_T], 0) == None
  {
    var s: Bytes := [CHAR_M, CHAR_M, CHAR_D, CHAR_A, CHAR_T];
    assert NextM(s, 0) == Some(0);
    assert NextM(s, 4) == None;
  }

  /**
   * An `mdat` box of 109 octets: the last octet of its 32-bit size field is
   * 0x6D, an `m`, so the scan takes `mda` for the three octets after it and
   * resumes after the type.
   */
  lemma SkipToMdatMissesSizedBox()
    ensures MdatAt([0, 0, 0, 0x6D, CHAR_M, CHAR_D, CHAR_A, CHAR_T], 4)
    ensures SkipToMdat([0, 0, 0, 0x6D, CHAR_M, CHAR_D, CHAR_A, CHAR_T], 0) == None
  {
    var s: Bytes := [0, 0, 0, 0x6D, CHAR_M, CHAR_D, CHAR_A, CHAR_T];
    assert NextM(s, 2) == Some(3);
    assert NextM(s, 1) == Some(3);
    assert NextM(s, 0) == Some(3);
    assert NextM(s, 7) == None;
  }

  /** The scan as intended: the position right after the first `mdat` at or after `pos`. */
  function FindMdat(s: Bytes, pos: nat): (r: Option<nat>)
    requires pos <= |s|
    ensures r.Some? ==> pos + 4 <= r.value <= |s| && MdatAt(s, r.value - 4)
    ensures r.Some? ==> forall i :: pos <= i < r.value - 4 ==> !MdatAt(s, i)
    ensures r.None? <==> forall i :: pos <= i ==> !MdatAt(s, i)
    decreases |s| - pos
  {
    if pos + 4 > |s| then None
    else if MdatAt(s, pos) then Some(pos + 4)
    else FindMdat(s, pos + 1)
  }

  /** Whatever the skip loop stops at, the intended scan stops there or earlier. */
  lemma SkipToMdatAfterFirst(s: Bytes, pos: nat)
    requires pos <= |s|
    ensures SkipToMdat(s, pos).Some? ==>
              FindMdat(s, pos).Some? && FindMdat(s, pos).value <= SkipToMdat(s, pos).value
  {
  }

  /** When no `m` occurs in the three octets before the first `mdat`, the skip loop finds that `mdat`. */
  lemma {:induction false} SkipToMdatFindsClearMdat(s: Bytes, pos: nat)
    requires pos <= |s| && FindMdat(s, pos).Some?
    requires forall i :: FindMdat(s, pos).value - 7 <= i < FindMdat(s, pos).value - 4 && pos <= i ==> s[i] != CHAR_M
    ensures SkipToMdat(s, pos) == FindMdat(s, pos)
    decreases |s| - pos
  {
    var k := FindMdat(s, pos).value;
    var i := NextM(s, pos).value;
    assert s[k - 4] == CHAR_M;
    if i < k - 4 {
      assert !MdatAt(s, i);
      assert i + 4 <= k - 4;
      assert FindMdat(s, i + 4) == FindMdat(s, pos) by {
        FindMdatSkips(s, pos, i + 4);
      }
      SkipToMdatFindsClearMdat(s, i + 4);
    }
  }

  /** Starting the intended scan later, but no later than the `mdat` it finds, finds the same one. */
  lemma {:induction false} FindMdatSkips(s: Bytes, pos: nat, later: nat)
    requires pos <= later <= |s| && FindMdat(s, pos).Some? && later <= FindMdat(s, pos).value - 4
    ensures FindMdat(s, later) == FindMdat(s, pos)
    decreases later - pos
  {
    if pos < later {
      assert !MdatAt(s, pos);
      FindMdatSkips(s, pos + 1, later);
    }
  }
}
