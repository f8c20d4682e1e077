/**
 * Octets and the big-endian integer readings the packetizer performs on them.
 * A Java `byte` is signed; every place the source reads one it masks it with
 * `& 0xFF` or only looks at low bits, so an octet is modelled as 0..255.
 */
module Bytes {

  type byte = x: int | 0 <= x < 256
  type Bytes = seq<byte>

  const TWO_31: int := 0x8000_0000
  const TWO_32: int := 0x1_0000_0000

  function Min(a: int, b: int): int
  {
    if a <= b then a else b
  }

  function Max(a: int, b: int): int
  {
    if a >= b then a else b
  }

  /** The four octets as an unsigned big-endian number. */
  function Uint32BE(b0: byte, b1: byte, b2: byte, b3: byte): nat
  {
    b0 * 0x100_0000 + b1 * 0x1_0000 + b2 * 0x100 + b3
  }

  /**
   * `(b0 & 0xFF) << 24 | (b1 & 0xFF) << 16 | (b2 & 0xFF) << 8 | b3 & 0xFF`
   * evaluated in Java's 32-bit two's-complement `int`.
   */
  function Int32BE(b0: byte, b1: byte, b2: byte, b3: byte): (r: int)
    ensures -TWO_31 <= r < TWO_31
    ensures r < 0 <==> b0 >= 0x80
    ensures r == Uint32BE(b0, b1, b2, b3) || r == Uint32BE(b0, b1, b2, b3) - TWO_32
  {
    var u := Uint32BE(b0, b1, b2, b3);
    if u < TWO_31 then u else u - TWO_32
  }

  /** Two's-complement big-endian encoding of a 32-bit value: the writer's side of Int32BE. */
  function EncodeInt32BE(n: int): (r: Bytes)
    requires -TWO_31 <= n < TWO_31
    ensures |r| == 4
  {
    var u := if n < 0 then n + TWO_32 else n;
    var q1 := u / 0x100;
    var q2 := q1 / 0x100;
    [q2 / 0x100, q2 % 0x100, q1 % 0x100, u % 0x100]
  }

  /** Reading back an encoded 32-bit value gives the value. */
  lemma Int32BERoundTrip(n: int)
    requires -TWO_31 <= n < TWO_31
    ensures var e := EncodeInt32BE(n); Int32BE(e[0], e[1], e[2], e[3]) == n
  {
    var u := if n < 0 then n + TWO_32 else n;
    var q1 := u / 0x100;
    var q2 := q1 / 0x100;
    DivMod(u, 0x100);
    DivMod(q1, 0x100);
    DivMod(q2, 0x100);
    assert u == Uint32BE(q2 / 0x100, q2 % 0x100, q1 % 0x100, u % 0x100);
  }

  /** Encoding the value read from four octets gives those octets back. */
  lemma Int32BEInjective(b0: byte, b1: byte, b2: byte, b3: byte)
    ensures EncodeInt32BE(Int32BE(b0, b1, b2, b3)) == [b0, b1, b2, b3]
  {
    var u := Uint32BE(b0, b1, b2, b3);
    var q1 := b0 * 0x1_0000 + b1 * 0x100 + b2;
    var q2 := b0 * 0x100 + b1;
    Div256Unique(u, q1, b3);
    Div256Unique(q1, q2, b2);
    Div256Unique(q2, b0, b1);
  }

  /**
   * The shifts and masks that built the `int` take it apart again: with Java's
   * arithmetic `>>` (a floor division by a power of two), `r & 0xFF`,
   * `r >> 8 & 0xFF` and `r >> 16 & 0xFF` are the three low octets, and `r >> 24`
   * is the top octet sign-extended.
   */
  lemma Int32BEOctets(b0: byte, b1: byte, b2: byte, b3: byte)
    ensures var r := Int32BE(b0, b1, b2, b3);
            && r % 0x100 == b3
            && (r / 0x100) % 0x100 == b2
            && (r / 0x1_0000) % 0x100 == b1
            && r / 0x100_0000 == (if b0 < 0x80 then b0 else b0 - 0x100)
  {
    var r := Int32BE(b0, b1, b2, b3);
    var s0 := if b0 < 0x80 then b0 else b0 - 0x100;
    var t2 := s0 * 0x100 + b1;
    var t1 := t2 * 0x100 + b2;
    assert r == t1 * 0x100 + b3;
    Div256Unique(r, t1, b3);
    Div256Unique(t1, t2, b2);
    Div256Unique(t2, s0, b1);
    assert r == t2 * 0x1_0000 + (b2 * 0x100 + b3);
    DivUnique(r, t2, b2 * 0x100 + b3, 0x1_0000);
    assert r == s0 * 0x100_0000 + (b1 * 0x1_0000 + b2 * 0x100 + b3);
    DivUnique(r, s0, b1 * 0x1_0000 + b2 * 0x100 + b3, 0x100_0000);
  }

  lemma DivUnique(n: int, t: int, m: int, d: int)
    requires d > 0 && n == t * d + m && 0 <= m < d
    ensures n / d == t
  {
    DivMod(n, d);
    var q := n / d;
    if q < t {
      assert n - q * d == (t - q) * d + m;
      Mul(t - q, d);
    } else if q > t {
      assert n - t * d == (q - t) * d + n % d;
      Mul(q - t, d);
    }
  }

  lemma Mul(k: int, d: int)
    requires k >= 1 && d > 0
    ensures k * d >= d
  {
  }

  lemma Div256Unique(n: int, t: int, m: int)
    requires n == t * 0x100 + m && 0 <= m < 0x100
    ensures n / 0x100 == t && n % 0x100 == m
  {
  }

  /** The 16-bit size field of an aggregation unit as the source writes it: `(byte)(n >> 8)`, `(byte)(n & 0xFF)`. */
  function Size16BE(n: nat): (r: Bytes)
    ensures |r| == 2
  {
    [(n / 0x100) % 0x100, n % 0x100]
  }

  /** The unsigned big-endian value of two octets. */
  function Uint16BE(b0: byte, b1: byte): (r: nat)
    ensures r < 0x1_0000
  {
    b0 * 0x100 + b1
  }

  /** A size below 2^16 survives the 16-bit field; a larger one is truncated to its low 16 bits. */
  lemma Size16BERoundTrip(n: nat)
    ensures var e := Size16BE(n); Uint16BE(e[0], e[1]) == n % 0x1_0000
  {
    var q := n / 0x100;
    var lo := n % 0x100;
    var hi := q % 0x100;
    var t := q / 0x100;
    DivMod(n, 0x100);
    DivMod(q, 0x100);
    var m := hi * 0x100 + lo;
    assert n == t * 0x1_0000 + m;
    ModUnique(n, t, m);
  }

  lemma DivMod(n: int, d: int)
    requires d > 0
    ensures n == (n / d) * d + n % d && 0 <= n % d < d
  {
  }

  lemma ModUnique(n: int, t: int, m: int)
    requires n == t * 0x1_0000 + m && 0 <= m < 0x1_0000
    ensures n % 0x1_0000 == m
  {
  }

  /** Writing the size read from two octets gives those octets back. */
  lemma Uint16BESize(b0: byte, b1: byte)
    ensures Size16BE(Uint16BE(b0, b1)) == [b0, b1]
  {
    var n := b0 * 0x100 + b1;
    assert n / 0x100 == b0;
    assert n % 0x100 == b1;
  }
}
