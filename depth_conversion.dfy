/**
 * The depth-to-grayscale conversion performed by the depth-frame handler:
 * the intensity of one pixel, and the buffer the handler leaves behind
 * for one frame, including the partially written buffer it leaves when
 * the division by the depth range throws.
 */
module DepthConversion {
  import opened CSharpInts
  import opened Options

  /** An XNA `Color`: red, green, blue and alpha bytes. */
  datatype Color = Color(r: byte, g: byte, b: byte, a: byte)

  /** `Color.Black`: opaque black. */
  const Black: Color := Color(0, 0, 0, 255)

  /**
   * One depth frame as the sensor delivers it: one signed 16-bit depth per
   * pixel, row-major, and the frame's minimum and maximum reliable depth.
   */
  datatype DepthFrame = DepthFrame(depths: seq<int16>, minDepth: int32, maxDepth: int32)

  /** The intensity computed for one pixel, or the DivideByZeroException. */
  datatype Intensity = Value(level: byte) | DivideByZero

  /** What one call of the frame handler ends with. */
  datatype HandlerOutcome =
    | NoFrame            // the event carried no frame; nothing was done
    | Converted          // every pixel of the frame was written
    | Faulted(index: nat) // the division threw at this pixel; earlier pixels were written

  /** The handler's range test: inclusive at both ends. */
  predicate InRange(depth: int16, minDepth: int32, maxDepth: int32)
  {
    minDepth as int <= depth as int <= maxDepth as int
  }

  /**
   * `(byte)((depth * byte.MaxValue) / depthDelta)`: the absolute depth
   * (not its offset from the minimum) scaled by 255, divided with
   * truncation, and cast to a byte by keeping the low eight bits. For a
   * non-negative depth and a positive range this is the floor quotient
   * modulo 256: large quotients wrap around instead of saturating.
   */
  function Scale(depth: int16, depthDelta: int32): (r: byte)
    requires depthDelta != 0
    ensures 0 <= depth && 0 < depthDelta ==>
              r as int == (depth as int * ByteMax / depthDelta as int) % 256
  {
    var q := TruncDiv(depth as int * ByteMax, depthDelta as int);
    QuotientIsFloor(depth as int * ByteMax, depthDelta as int, q);
    ByteCast(q)
  }

  /** For a non-negative dividend and a positive divisor, truncation and floor agree. */
  lemma QuotientIsFloor(n: int, d: int, q: int)
    requires d != 0 && q == TruncDiv(n, d)
    ensures 0 <= n && 0 < d ==> q == n / d
  {
  }

  /**
   * The intensity the handler computes for one pixel. A depth outside
   * `[minDepth, maxDepth]` gives 0 without dividing. An in-range depth is
   * divided by `maxDepth - minDepth` (32-bit unchecked), which throws
   * exactly when the two bounds are equal.
   */
  function DepthToIntensity(depth: int16, minDepth: int32, maxDepth: int32): (r: Intensity)
    ensures !InRange(depth, minDepth, maxDepth) ==> r == Value(0)
    ensures r == DivideByZero <==> InRange(depth, minDepth, maxDepth) && minDepth == maxDepth
    ensures 0 <= minDepth && InRange(depth, minDepth, maxDepth) && minDepth < maxDepth ==>
              r.Value? &&
              r.level as int == (depth as int * ByteMax / (maxDepth as int - minDepth as int)) % 256
  {
    if InRange(depth, minDepth, maxDepth) then
      var depthDelta := Sub32(maxDepth, minDepth);
      if depthDelta == 0 then DivideByZero else Value(Scale(depth, depthDelta))
    else
      Value(0)
  }

  /**
   * The index of the first pixel whose conversion throws, if any: the
   * point at which the handler's loop is cut short.
   */
  function FirstFault(depths: seq<int16>, minDepth: int32, maxDepth: int32): (k: Option<nat>)
    ensures k.Some? ==>
              k.value < |depths| &&
              DepthToIntensity(depths[k.value], minDepth, maxDepth) == DivideByZero &&
              forall j :: 0 <= j < k.value ==> DepthToIntensity(depths[j], minDepth, maxDepth).Value?
    ensures k.None? ==>
              forall j :: 0 <= j < |depths| ==> DepthToIntensity(depths[j], minDepth, maxDepth).Value?
  {
    if |depths| == 0 then None
    else if DepthToIntensity(depths[0], minDepth, maxDepth) == DivideByZero then Some(0)
    else match FirstFault(depths[1..], minDepth, maxDepth)
      case None => None
      case Some(k) => Some(k + 1)
  }

  /** How many pixels of the frame the handler writes. */
  function ConvertedCount(frame: DepthFrame): (n: nat)
    ensures n <= |frame.depths|
    ensures forall i :: 0 <= i < n ==>
              DepthToIntensity(frame.depths[i], frame.minDepth, frame.maxDepth).Value?
    ensures n < |frame.depths| ==>
              DepthToIntensity(frame.depths[n], frame.minDepth, frame.maxDepth) == DivideByZero
  {
    match FirstFault(frame.depths, frame.minDepth, frame.maxDepth)
    case None => |frame.depths|
    case Some(k) => k
  }

  /** A pixel with its red, green and blue channels set to one level; alpha is kept. */
  function Gray(c: Color, level: byte): Color
  {
    c.(r := level, g := level, b := level)
  }

  /**
   * The buffer after the handler has written the first `n` pixels of
   * `frame` (none of which throws) into `pixels`: those pixels become
   * gray with their alpha kept, the rest are untouched.
   */
  function Shade(pixels: seq<Color>, frame: DepthFrame, n: nat): (r: seq<Color>)
    requires n <= |frame.depths| <= |pixels|
    requires forall i :: 0 <= i < n ==>
               DepthToIntensity(frame.depths[i], frame.minDepth, frame.maxDepth).Value?
    ensures |r| == |pixels|
    ensures forall i :: 0 <= i < n ==> r[i].r == r[i].g == r[i].b && r[i].a == pixels[i].a
    ensures forall i :: 0 <= i < n && !InRange(frame.depths[i], frame.minDepth, frame.maxDepth) ==>
              r[i] == Gray(pixels[i], 0)
    ensures forall i :: n <= i < |pixels| ==> r[i] == pixels[i]
  {
    seq(|pixels|, i requires 0 <= i < |pixels| =>
      if i < n then Gray(pixels[i], DepthToIntensity(frame.depths[i], frame.minDepth, frame.maxDepth).level)
      else pixels[i])
  }

  /** The grayscale invariant of the pixel buffer: red, green and blue agree. */
  predicate Grayscale(pixels: seq<Color>)
  {
    forall i :: 0 <= i < |pixels| ==> pixels[i].r == pixels[i].g == pixels[i].b
  }

  /** What the handler reports for an event carrying `frame`. */
  function FrameOutcome(frame: Option<DepthFrame>): HandlerOutcome
  {
    match frame
    case None => NoFrame
    case Some(f) =>
      match FirstFault(f.depths, f.minDepth, f.maxDepth)
      case None => Converted
      case Some(k) => Faulted(k)
  }

  /** The buffer the handler leaves for an event carrying `frame`. */
  function FrameResult(pixels: seq<Color>, frame: Option<DepthFrame>): (r: seq<Color>)
    requires frame.Some? ==> |frame.value.depths| <= |pixels|
    ensures |r| == |pixels|
    ensures frame.None? ==> r == pixels
  {
    match frame
    case None => pixels
    case Some(f) => Shade(pixels, f, ConvertedCount(f))
  }

  /**
   * Every converted pixel is the gray level of its own depth, computed by
   * C#'s truncating division and unchecked byte cast, or black when the
   * depth is out of range; nothing is clamped.
   */
  lemma ConvertedPixel(pixels: seq<Color>, f: DepthFrame, i: nat)
    requires |f.depths| <= |pixels| && i < ConvertedCount(f)
    ensures InRange(f.depths[i], f.minDepth, f.maxDepth) ==>
              f.minDepth != f.maxDepth &&
              FrameResult(pixels, Some(f))[i] ==
                Gray(pixels[i], ByteCast(TruncDiv(f.depths[i] as int * ByteMax,
                                                  Sub32(f.maxDepth, f.minDepth) as int)))
    ensures !InRange(f.depths[i], f.minDepth, f.maxDepth) ==>
              FrameResult(pixels, Some(f))[i] == Gray(pixels[i], 0)
  {
  }

  /** Handling a frame keeps a grayscale buffer grayscale, whether or not the division throws. */
  lemma FrameKeepsGrayscale(pixels: seq<Color>, frame: Option<DepthFrame>)
    requires frame.Some? ==> |frame.value.depths| <= |pixels|
    requires Grayscale(pixels)
    ensures Grayscale(FrameResult(pixels, frame))
  {
  }

  /**
   * The conversion throws exactly when the range is degenerate and some
   * pixel has that very depth; then the handler stops at the first such pixel.
   */
  lemma FaultIffDegenerate(f: DepthFrame)
    ensures FrameOutcome(Some(f)) != Converted <==>
              f.minDepth == f.maxDepth &&
              exists i :: 0 <= i < |f.depths| && f.depths[i] as int == f.minDepth as int
  {
  }

  /**
   * With the maximum below the minimum no depth is in range: nothing is
   * divided and every pixel of the frame is written black.
   */
  lemma InvertedRangeAllBlack(pixels: seq<Color>, f: DepthFrame)
    requires |f.depths| <= |pixels| && f.maxDepth < f.minDepth
    ensures FrameOutcome(Some(f)) == Converted
    ensures forall i :: 0 <= i < |f.depths| ==> FrameResult(pixels, Some(f))[i] == Gray(pixels[i], 0)
  {
  }

  /**
   * A pixel's new colour depends only on its depth, the frame's bounds and
   * its own alpha: whatever colour it had before is overwritten.
   */
  lemma OldColourIgnored(p: seq<Color>, q: seq<Color>, f: DepthFrame, i: nat)
    requires |f.depths| <= |p| && |f.depths| <= |q|
    requires i < ConvertedCount(f) && p[i].a == q[i].a
    ensures FrameResult(p, Some(f))[i] == FrameResult(q, Some(f))[i]
  {
  }

  /** Handling the same event twice leaves the same buffer as handling it once. */
  lemma HandlerIdempotent(pixels: seq<Color>, frame: Option<DepthFrame>)
    requires frame.Some? ==> |frame.value.depths| <= |pixels|
    ensures FrameResult(FrameResult(pixels, frame), frame) == FrameResult(pixels, frame)
  {
  }

  /**
   * With a zero minimum the quotient never exceeds 255, so for such
   * frames the byte cast does not wrap and the level is the floor of
   * `depth * 255 / maxDepth`.
   */
  lemma ZeroMinNeverWraps(depth: int16, maxDepth: int32)
    requires 0 <= depth as int <= maxDepth as int && 0 < maxDepth
    ensures depth as int * ByteMax / maxDepth as int <= ByteMax
    ensures DepthToIntensity(depth, 0, maxDepth) == Value((depth as int * ByteMax / maxDepth as int) as byte)
  {
  }

  /** No in-range depth of a frame with these bounds has its quotient wrapped by the byte cast. */
  ghost predicate NoPixelWraps(minDepth: int32, maxDepth: int32)
    requires minDepth < maxDepth
  {
    forall d: int16 :: InRange(d, minDepth, maxDepth) ==>
      DepthToIntensity(d, minDepth, maxDepth).level as int ==
        d as int * ByteMax / (maxDepth as int - minDepth as int)
  }

  /**
   * For `0 <= minDepth < maxDepth` within the range of a depth sample, no
   * pixel wraps exactly when `maxDepth > 256 * minDepth`; otherwise the
   * maximum depth itself wraps.
   */
  lemma NoWrapIff(minDepth: int32, maxDepth: int32)
    requires 0 <= minDepth < maxDepth && maxDepth as int < 0x8000
    ensures NoPixelWraps(minDepth, maxDepth) <==> 256 * minDepth as int < maxDepth as int
  {
    var range := maxDepth as int - minDepth as int;
    if 256 * minDepth as int < maxDepth as int {
      forall d: int16 | InRange(d, minDepth, maxDepth)
        ensures DepthToIntensity(d, minDepth, maxDepth).level as int == d as int * ByteMax / range
      {
        assert d as int * ByteMax <= maxDepth as int * ByteMax < 256 * range;
        QuotientBelow(d as int * ByteMax, range, 256);
      }
    } else {
      var top := maxDepth as int16;
      assert maxDepth as int * ByteMax >= 256 * range;
      QuotientAtLeast(maxDepth as int * ByteMax, range, 256);
      assert DepthToIntensity(top, minDepth, maxDepth).level as int != top as int * ByteMax / range;
    }
  }

  /** A dividend below `k` divisors has a floor quotient below `k`. */
  lemma QuotientBelow(n: nat, d: int, k: nat)
    requires 0 < d && n < k * d
    ensures n / d < k
  {
  }

  /** A dividend of at least `k` divisors has a floor quotient of at least `k`. */
  lemma QuotientAtLeast(n: nat, d: int, k: nat)
    requires 0 < d && n >= k * d
    ensures n / d >= k
  {
    var q, r := n / d, n % d;
    assert n == q * d + r && r < d;
    assert k * d < (q + 1) * d;
  }

  /**
   * Sample pixels for a frame reporting the range [800, 4000]: the middle
   * of the range, an unknown depth of 0, and the maximum itself, whose
   * quotient 318 wraps to 62.
   */
  lemma IntensityExamples()
    ensures DepthToIntensity(2400, 800, 4000) == Value(191)
    ensures DepthToIntensity(0, 800, 4000) == Value(0)
    ensures DepthToIntensity(4000, 800, 4000) == Value(62)
  {
  }
}
