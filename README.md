# DepthBasics (Kinect + MonoGame): depth-to-grayscale model

This project models the game class of a small Kinect/MonoGame program. The
program shows the sensor's depth stream as a 640x480 grayscale image. The
model covers three parts of the class:

- **Loading** fills the persistent colour buffer with black. It then picks the
  first sensor whose status is `Connected`. For that sensor it enables the depth
  stream, allocates the depth scratch array, subscribes the frame handler,
  enables the skeleton stream and starts it. A start that throws an
  IOException clears the sensor field.
- **The depth-frame handler** copies a frame's samples into the scratch array
  and rewrites the colour buffer in place, one pixel at a time. A pixel whose
  depth lies outside the frame's `[minDepth, maxDepth]` becomes black. Any other
  pixel becomes gray with level `(byte)((depth * 255) / (maxDepth - minDepth))`.
  Alpha is kept.
- **Unloading** stops the sensor when the field holds one.

Modules:

- `CSharpInts` (`csharp_ints.dfy`): C# `short`, `int` and `byte`. It also has
  unchecked 32-bit subtraction, integer division that truncates toward zero,
  and the unchecked `(byte)` cast, which reduces modulo 256.
- `Options` (`options.dfy`): an optional value that stands for a nullable reference.
- `DepthConversion` (`depth_conversion.dfy`): the per-pixel intensity, the
  first pixel whose division throws, the buffer the handler leaves, and the
  lemmas about them.
- `SensorLifecycle` (`sensor_lifecycle.dfy`): sensor statuses, discovery
  (`FindConnected`, the loop over the sensor collection), the start outcome
  and the calls the game makes on a sensor.
- `Game` (`game.dfy`): the class `Game1`. It holds the colour buffer and the
  depth scratch array as arrays, the sensor as an optional position in the
  sensor collection, and the calls made on sensors so far as a sequence. Its
  methods `LoadContent`, `UnloadContent` and `SensorDepthFrameReady` are proved
  against the functions of the two modules above.

The model follows the code exactly, including three behaviours a reader might not expect:

- The intensity numerator is the absolute depth, not `depth - minDepth`. The
  `(byte)` cast keeps the low eight bits, so levels wrap and are not clamped.
  For a frame reporting `[800, 4000]`, depth 2400 gives 191. Depth 4000 gives
  318, which wraps to 62 (`IntensityExamples`). No level can wrap when the
  minimum is 0 (`ZeroMinNeverWraps`). For `0 <= min < max <= 32767`, no pixel wraps
  exactly when `max > 256 * min` (`NoWrapIff`).
- Equal bounds are not special-cased. An in-range pixel of such a frame throws
  DivideByZeroException, and the handler stops at the first such pixel. The
  pixels before it have already been written (`HandlerOutcome.Faulted`,
  `FaultIffDegenerate`).
- Stopping does not clear the sensor field. Discovery assigns the field only
  when it finds a connected sensor, so with none connected the field keeps its
  earlier value. From a freshly constructed game that value is null.

## Model

| member | source | states |
|---|---|---|
| `CSharpInts.Sub32` | Game1.cs:174 | `maxDepth - minDepth` on ints: agrees with the true difference modulo 2^32, equals it when it fits, and is zero exactly when the bounds are equal |
| `CSharpInts.TruncDiv` | Game1.cs:186 | C# `/`: the quotient times the divisor is no larger than the dividend in magnitude, short of it by less than the divisor, and never of opposite sign (rounding toward zero) |
| `CSharpInts.ByteCast` | Game1.cs:186 | the unchecked `(byte)` cast is congruent to its argument modulo 256 and keeps values already in `0..255` |
| `DepthConversion.Scale` | Game1.cs:186 | for a non-negative depth and a positive range, the level is `floor(depth * 255 / range) mod 256`, wrapping rather than clamping |
| `DepthConversion.DepthToIntensity` | Game1.cs:180-187 | an out-of-range depth gives 0 without dividing; the result is a division fault exactly when the depth is in range and `minDepth == maxDepth`; for `0 <= minDepth < maxDepth` an in-range depth gives `floor(depth*255/(max-min)) mod 256` |
| `DepthConversion.FirstFault` | Game1.cs:177-187 | the index found is the first pixel whose conversion throws, with every earlier pixel converting; no index means every pixel converts |
| `DepthConversion.ConvertedCount` | Game1.cs:177-193 | the number of pixels the loop writes is at most the frame size, none of them throws, and when it is short of the frame size the very next pixel throws, so a frame without a fault is written in full |
| `DepthConversion.Shade` | Game1.cs:189-192 | after writing the first n pixels, the length is unchanged, each written pixel has R = G = B and its old alpha, an out-of-range pixel is black, and every later pixel is untouched |
| `DepthConversion.FrameResult` | Game1.cs:162-196 | the handler keeps the buffer length, and an event without a frame leaves the buffer unchanged |
| `DepthConversion.ConvertedPixel` | Game1.cs:183-192 | every written pixel is gray at `(byte)(depth*255 / (max-min))` with C# division when its depth is in range, and black otherwise |
| `DepthConversion.FrameKeepsGrayscale` | Game1.cs:189-192 | a buffer whose channels are all equal stays so after any event, including one whose division throws |
| `DepthConversion.FaultIffDegenerate` | Game1.cs:174-186 | handling a frame throws if and only if `minDepth == maxDepth` and some pixel has exactly that depth |
| `DepthConversion.InvertedRangeAllBlack` | Game1.cs:183-192 | when `maxDepth < minDepth` nothing is divided and every pixel of the frame is written black |
| `DepthConversion.OldColourIgnored` | Game1.cs:177-193 | a written pixel's new colour does not depend on its old red, green or blue, only on its depth, the bounds and its alpha |
| `DepthConversion.HandlerIdempotent` | Game1.cs:177-193 | handling the same event twice leaves the same buffer as handling it once |
| `DepthConversion.ZeroMinNeverWraps` | Game1.cs:184-186 | with `minDepth == 0` the quotient is at most 255 and the level is exactly `floor(depth*255/maxDepth)` |
| `DepthConversion.NoWrapIff` | Game1.cs:184-186 | for `0 <= minDepth < maxDepth` (within the range of a depth sample), every in-range level equals the unwrapped floor quotient exactly when `maxDepth > 256 * minDepth` |
| `DepthConversion.IntensityExamples` | Game1.cs:183-187 | for bounds [800, 4000]: depth 2400 gives 191, depth 0 gives 0, depth 4000 wraps to 62 |
| `SensorLifecycle.FirstConnected` | Game1.cs:75-82 | the position chosen has status `Connected` and no earlier sensor does; none is chosen only when no sensor is connected |
| `SensorLifecycle.FindConnected` | Game1.cs:75-82 | the discovery loop with its early break returns the first connected sensor |
| `SensorLifecycle.Discovered` | Game1.cs:75-84 | when some sensor is connected, the field holds a position whose status is `Connected` with no connected sensor before it; when none is connected, the field keeps its earlier value |
| `SensorLifecycle.AfterStart` | Game1.cs:98-106 | the field still holds a sensor after the start attempt exactly when there was one and the start did not throw, and it is the same sensor |
| `SensorLifecycle.StopOnlyStartedSensor` | Game1.cs:75-124 | over a session a sensor is stopped exactly when it is the first connected one and its start succeeded; the stop is the last call and a start of that sensor precedes it |
| `SensorLifecycle.NoConnectedSensorNoCalls` | Game1.cs:75-124 | with no connected sensor the game makes no sensor call at all |
| `SensorLifecycle.FailedStartNoStop` | Game1.cs:98-124 | after a start that throws, the field is null and unloading adds no stop |
| `Game.Game1.constructor` | Game1.cs:36-40 | a new game has no sensor, no buffers and no sensor calls |
| `Game.Game1.LoadContent` | Game1.cs:59-113 | the colour buffer is a fresh array of 640*480 black pixels; the sensor field and the calls made are those of discovery and the start attempt; the scratch array is allocated exactly when a sensor was discovered |
| `Game.Game1.UnloadContent` | Game1.cs:119-125 | a stop is issued on the field's sensor when it holds one and nothing otherwise; the class invariant is kept |
| `Game.RunSession` | Game1.cs:36-125 | a freshly constructed game that loads and then unloads makes exactly the calls `SessionCalls` describes, so the session lemmas hold of the class, and ends with the sensor left by the start attempt |
| `Game.Game1.SensorDepthFrameReady` | Game1.cs:160-196 | the outcome and the new buffer are those of `FrameOutcome` and `FrameResult` on the old buffer; the scratch array holds the frame; the buffer keeps its length and stays grayscale |

## Left out

- Kinect SDK calls are not executed. Enabling the depth and skeleton streams,
  subscribing the handler, starting and stopping are recorded in the
  `calls` sequence. The frame's samples and bounds and the start's outcome are
  inputs. The sensor collection is a sequence of statuses.
- `CopyDepthImagePixelDataTo` is a `forall` copy. Its own length check is
  replaced by a precondition: a frame has as many samples as the scratch array,
  which is what the SDK delivers for the enabled 640x480 format.
- The `using` disposal of the frame and what the SDK does with an exception
  escaping the handler are not modelled. The handler reports `Faulted(i)`.
- MonoGame rendering is not modelled. This covers the graphics device, the
  texture, `SetData`, the sprite batch and `Draw`, as well as the empty
  `Initialize` and `Update` overrides.
- Concurrency between the handler writing the colour buffer and `Draw` reading
  it is not modelled. Each handler call runs as one sequential step, so tearing
  across pixels or channels is not captured.
