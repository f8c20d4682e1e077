/**
 * NAL unit header fields and the constants of H264Packetizer.java
 * (section 5.2 and 5.8 of RFC 3984).  The source reads these fields with
 * masks on a signed Java byte; on an octet 0..255 the masks are arithmetic.
 */
module Nal {
  import opened Bytes

  const NAL_SLICE: int := 1
  const NAL_IDR_SLICE: int := 5
  const NAL_SPS: int := 7
  const NAL_PPS: int := 8
  const STAP_A: int := 24
  const FU_A: int := 28

  const NAL_SLICE_START_FLAG: int := 0x80
  const NAL_SLICE_END_FLAG: int := 0x40

  /** `h & 0x1F`: the nal_unit_type field. */
  function NalType(h: byte): (t: int)
    ensures 0 <= t < 32
  {
    h % 32
  }

  /** `h & 0x60`: the NRI field, left in place. */
  function Nri(h: byte): (r: int)
    ensures r == 0 || r == 0x20 || r == 0x40 || r == 0x60
  {
    h % 0x80 - h % 0x20
  }

  /** The FU indicator the source builds: `(h & 0x60) + FU_A`. */
  function FuIndicator(h: byte): (r: byte)
    ensures NalType(r) == FU_A
  {
    Nri(h) + FU_A
  }

  /** An FU header: type in the low five bits (read with `NalType`, as in a NAL header), start flag 0x80, end flag 0x40. */
  function FuHeader(typ: int, start: bool, end: bool): (r: byte)
    requires 0 <= typ < 32
    ensures NalType(r) == typ && (StartBit(r) <==> start) && (EndBit(r) <==> end)
  {
    typ + (if start then NAL_SLICE_START_FLAG else 0) + (if end then NAL_SLICE_END_FLAG else 0)
  }

  predicate StartBit(b: byte)
  {
    b >= 0x80
  }

  predicate EndBit(b: byte)
  {
    b % 0x80 >= 0x40
  }


  /*
   * The arithmetic field readings agree with the source's masks on every
   * octet: each lemma is stated for every eight-bit value `x`, whose value
   * as an octet is `x as int`.
   */

  /** `h & 0x1F`. */
  lemma NalTypeMask(x: bv8)
    ensures NalType(x as int) == (x & 0x1F) as int
  {
  }

  /** `h & 0x60`. */
  lemma NriMask(x: bv8)
    ensures Nri(x as int) == (x & 0x60) as int
  {
  }

  /** The FU header is the type with the start and end flags or-ed in, as `header[1]` is built. */
  lemma FuHeaderBits(x: bv8, start: bool, end: bool)
    requires x < 32
    ensures FuHeader(x as int, start, end) == (x | (if start then 0x80 else 0) | (if end then 0x40 else 0)) as int
  {
  }

  /** `header[1] & ~NAL_SLICE_START_FLAG`: clearing the start bit gives the header of a later fragment. */
  lemma FuHeaderClearStart(x: bv8, end: bool)
    requires x < 32
    ensures var first := x | 0x80 | (if end then 0x40 else 0);
            FuHeader(x as int, true, end) == first as int && FuHeader(x as int, false, end) == (first & 0x7F) as int
  {
    FuHeaderBits(x, true, end);
    FuHeaderBits(x, false, end);
  }

  /** The NAL header a receiver rebuilds from an FU indicator and FU header: F and NRI from one, type from the other. */
  function RebuiltHeader(indicator: byte, fuHeader: byte): byte
  {
    indicator - indicator % 0x20 + NalType(fuHeader)
  }

  /** The header rebuilt from the indicator the source sends is the original header without its F bit. */
  lemma RebuiltHeaderDropsFBit(h: byte, start: bool, end: bool)
    ensures RebuiltHeader(FuIndicator(h), FuHeader(NalType(h), start, end)) == h % 0x80
  {
  }
}
