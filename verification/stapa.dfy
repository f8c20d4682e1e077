/**
 * The STAP-A packet `setStreamParameters` prepares (section 5.7.1 of RFC 3984):
 * a STAP-A NAL header followed by one aggregation unit for the SPS and one for
 * the PPS, each unit being a 16-bit big-endian size and the NAL bytes.
 */
module StapA {
  import opened Bytes
  import opened Nal
  import opened Wrappers

  /** One aggregation unit: the size as the source writes it, then the NAL. */
  function Unit(nal: Bytes): Bytes
  {
    Size16BE(|nal|) + nal
  }

  /** The aggregation units of `nals`, back to back. */
  function Join(nals: seq<Bytes>): Bytes
  {
    if nals == [] then [] else Unit(nals[0]) + Join(nals[1..])
  }

  /**
   * The `stapa` buffer built from `sps` and `pps`: byte 0 is the STAP-A type,
   * bytes 1-2 and |sps|+3, |sps|+4 the two sizes, the SPS at 3 and the PPS at |sps|+5.
   */
  function BuildStapA(sps: Bytes, pps: Bytes): (r: Bytes)
    ensures |r| == |sps| + |pps| + 5
    ensures r[0] == STAP_A
    ensures r[1] == (|sps| / 0x100) % 0x100 && r[2] == |sps| % 0x100
    ensures r[|sps| + 3] == (|pps| / 0x100) % 0x100 && r[|sps| + 4] == |pps| % 0x100
    ensures r[3..|sps| + 3] == sps && r[|sps| + 5..] == pps
    ensures r == [STAP_A] + Join([sps, pps])
  {
    assert Join([pps]) == Unit(pps);
    [STAP_A] + Unit(sps) + Unit(pps)
  }

  /** A receiver's reading of back-to-back aggregation units; None when a size overruns the buffer. */
  function Units(s: Bytes): Option<seq<Bytes>>
    decreases |s|
  {
    if |s| == 0 then Some([])
    else if |s| < 2 then None
    else
      var n := Uint16BE(s[0], s[1]);
      if |s| < 2 + n then None
      else
        match Units(s[2 + n..])
        case None => None
        case Some(rest) => Some([s[2..2 + n]] + rest)
  }

  /** A receiver's reading of a STAP-A payload: the type must be STAP-A, the rest must split into units. */
  function ParseStapA(b: Bytes): Option<seq<Bytes>>
  {
    if |b| >= 1 && NalType(b[0]) == STAP_A then Units(b[1..]) else None
  }

  /** Units shorter than 2^16 bytes are read back exactly. */
  lemma {:induction false} UnitsOfJoin(nals: seq<Bytes>)
    requires forall i :: 0 <= i < |nals| ==> |nals[i]| < 0x1_0000
    ensures Units(Join(nals)) == Some(nals)
  {
    if nals != [] {
      var a := nals[0];
      var rest := nals[1..];
      forall i | 0 <= i < |rest|
        ensures |rest[i]| < 0x1_0000
      {
        assert rest[i] == nals[i + 1];
      }
      UnitsOfJoin(rest);
      var e := Size16BE(|a|);
      Size16BERoundTrip(|a|);
      ModUnique(|a|, 0, |a|);
      assert Uint16BE(e[0], e[1]) == |a|;
      assert Join(nals) == e + a + Join(rest);
      UnitsCons(e, a, Join(rest));
      assert nals == [a] + rest;
    }
  }

  /** A size field that matches the unit, then the unit, then a buffer that parses. */
  lemma UnitsCons(e: Bytes, a: Bytes, t: Bytes)
    requires |e| == 2 && Uint16BE(e[0], e[1]) == |a| && Units(t).Some?
    ensures Units(e + a + t) == Some([a] + Units(t).value)
  {
    var s := e + a + t;
    assert s[0] == e[0] && s[1] == e[1];
    assert s[2..2 + |a|] == a;
    assert s[2 + |a|..] == t;
  }

  /** Whatever a receiver reads out of a buffer, joining it again gives that buffer. */
  lemma {:induction false} JoinOfUnits(s: Bytes, nals: seq<Bytes>)
    requires Units(s) == Some(nals)
    ensures Join(nals) == s
    decreases |s|
  {
    if |s| > 0 {
      var n := Uint16BE(s[0], s[1]);
      var head := s[2..2 + n];
      var tail := s[2 + n..];
      var rest := UnitsHead(s);
      JoinOfUnits(tail, rest);
      Uint16BESize(s[0], s[1]);
      assert Join(nals) == Size16BE(|head|) + head + Join(rest) by {
        assert nals[0] == head && nals[1..] == rest;
      }
      SplitAfterSize(s, n);
    }
  }

  /** A nonempty buffer that parses starts with one unit and parses after it. */
  lemma UnitsHead(s: Bytes) returns (rest: seq<Bytes>)
    requires |s| > 0 && Units(s).Some?
    ensures |s| >= 2 + Uint16BE(s[0], s[1])
    ensures var n := Uint16BE(s[0], s[1]);
            Units(s[2 + n..]) == Some(rest) && Units(s).value == [s[2..2 + n]] + rest
  {
    rest := Units(s[2 + Uint16BE(s[0], s[1])..]).value;
  }

  lemma SplitAfterSize(s: Bytes, n: nat)
    requires 2 + n <= |s|
    ensures s == [s[0], s[1]] + s[2..2 + n] + s[2 + n..]
  {
    assert s == s[..2] + s[2..2 + n] + s[2 + n..];
  }

  /** Parsing the buffer `setStreamParameters` builds recovers the SPS and the PPS when each is shorter than 2^16 bytes. */
  lemma StapARoundTrip(sps: Bytes, pps: Bytes)
    requires |sps| < 0x1_0000 && |pps| < 0x1_0000
    ensures ParseStapA(BuildStapA(sps, pps)) == Some([sps, pps])
  {
    var b := BuildStapA(sps, pps);
    assert b[1..] == Join([sps, pps]);
    UnitsOfJoin([sps, pps]);
  }

  /** A STAP-A buffer that parses into two units is exactly the buffer built from them. */
  lemma StapAParseInjective(b: Bytes, sps: Bytes, pps: Bytes)
    requires |b| >= 1 && b[0] == STAP_A
    requires ParseStapA(b) == Some([sps, pps])
    ensures b == BuildStapA(sps, pps)
  {
    JoinOfUnits(b[1..], [sps, pps]);
    assert b == [b[0]] + b[1..];
  }
}
