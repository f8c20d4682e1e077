/**
 * The arithmetic and byte handling of ScreenStream.java that is not Android
 * plumbing: the capture size chosen by `adaptiveAspectRatio`, and the SPS/PPS
 * taken from the `csd-0` and `csd-1` buffers of the encoder's output format.
 */
module ScreenStream {
  import opened Wrappers
  import opened Bytes

  datatype VideoQuality = VideoQuality(resX: int, resY: int, framerate: int, bitrate: int)

  datatype DisplayMetrics = DisplayMetrics(widthPixels: int, heightPixels: int)

  /** Java's `int` division, which rounds toward zero. */
  function JavaDiv(a: int, b: int): (r: int)
    requires b > 0
    ensures 0 <= a ==> 0 <= r * b <= a < r * b + b
    ensures a < 0 ==> r * b - b < a <= r * b <= 0
  {
    if a >= 0 then
      DivBounds(a, b);
      a / b
    else
      DivBounds(-a, b);
      -((-a) / b)
  }

  /** Euclidean division of a natural number: the quotient times the divisor is within one divisor below it. */
  lemma DivBounds(n: nat, b: int)
    requires b > 0
    ensures 0 <= (n / b) * b <= n < (n / b) * b + b
  {
    var q := n / b;
    assert n == q * b + n % b;
  }

  /** `x / 2`, then incremented when `(x & 1) == 1`. */
  function HalfEven(pixels: int): int
  {
    var half := JavaDiv(pixels, 2);
    if half % 2 == 1 then half + 1 else half
  }

  /**
   * `adaptiveAspectRatio`: with display metrics, each dimension becomes the
   * even one of half the display size and that plus one; without them the
   * quality is left as it is.  Frame rate and bit rate are never touched.
   */
  function AdaptiveAspectRatio(metrics: Option<DisplayMetrics>, q: VideoQuality): (r: VideoQuality)
    ensures metrics.None? ==> r == q
    ensures r.framerate == q.framerate && r.bitrate == q.bitrate
    ensures metrics.Some? ==>
              && r.resX % 2 == 0 && JavaDiv(metrics.value.widthPixels, 2) <= r.resX <= JavaDiv(metrics.value.widthPixels, 2) + 1
              && r.resY % 2 == 0 && JavaDiv(metrics.value.heightPixels, 2) <= r.resY <= JavaDiv(metrics.value.heightPixels, 2) + 1
  {
    match metrics
    case None => q
    case Some(m) => q.(resX := HalfEven(m.widthPixels), resY := HalfEven(m.heightPixels))
  }

  /** For a real (non-negative) display size the result is the least even number not below half of it. */
  lemma HalfEvenLeast(pixels: nat, e: int)
    requires e % 2 == 0 && pixels / 2 <= e
    ensures pixels / 2 <= HalfEven(pixels) <= e
  {
  }

  /** The SPS and PPS taken from `csd-0` and `csd-1`: each buffer without its first four octets. */
  function StripCsd(csd0: Bytes, csd1: Bytes): (r: Option<(Bytes, Bytes)>)
    ensures r.Some? <==> |csd0| >= 4 && |csd1| >= 4
    ensures r.Some? ==> csd0 == csd0[..4] + r.value.0 && csd1 == csd1[..4] + r.value.1
  {
    if |csd0| < 4 || |csd1| < 4 then None else Some((csd0[4..], csd1[4..]))
  }

  /** Codec-specific data arrives as a start code followed by the parameter set; stripping gives the parameter sets back. */
  lemma StripCsdRoundTrip(sps: Bytes, pps: Bytes)
    ensures StripCsd([0, 0, 0, 1] + sps, [0, 0, 0, 1] + pps) == Some((sps, pps))
  {
    assert ([0, 0, 0, 1] + sps)[4..] == sps;
    assert ([0, 0, 0, 1] + pps)[4..] == pps;
  }
}
