/**
 * The game object: it owns the persistent colour buffer that is drawn
 * every frame, the scratch array the depth samples are copied into, and
 * the active sensor. Loading clears the buffer to black and discovers and
 * starts a sensor; the depth-frame handler converts each frame into the
 * buffer in place; unloading stops the sensor.
 */
module Game {
  import opened CSharpInts
  import opened Options
  import opened DepthConversion
  import opened SensorLifecycle

  /** Size of the texture and of the colour buffer. */
  const Width: nat := 640
  const Height: nat := 480

  /** `DepthStream.FramePixelDataLength` once the stream is enabled at 640x480, 30 fps. */
  const FramePixelDataLength: nat := Width * Height

  class Game1 {
    /** The active sensor, by position in the sensor collection; None stands for null. */
    var sensor: Option<nat>
    /** Scratch storage the depth samples of a frame are copied into; null until a sensor is found. */
    var depthPixels: array?<int16>
    /** The colour buffer uploaded to the texture on every draw; null until loading. */
    var pixelData: array?<Color>
    /** The calls made so far on sensors, oldest first. */
    var calls: seq<SensorCall>

    /** Both buffers, once allocated, have the frame's pixel count, and the colour buffer is gray. */
    ghost predicate Valid()
      reads this, pixelData
    {
      && (pixelData != null ==> pixelData.Length == Width * Height && Grayscale(pixelData[..]))
      && (depthPixels != null ==> depthPixels.Length == FramePixelDataLength)
    }

    constructor ()
      ensures Valid()
      ensures sensor == None && depthPixels == null && pixelData == null && calls == []
    {
      sensor := None;
      depthPixels := null;
      pixelData := null;
      calls := [];
    }

    /**
     * Allocates the colour buffer and paints it black, then discovers the
     * first connected sensor and, if there is a sensor, enables its depth
     * stream, allocates the depth scratch array, subscribes the frame
     * handler, enables the skeleton stream and starts it. A start that
     * throws an IOException clears the sensor field.
     */
    method LoadContent(statuses: seq<KinectStatus>, startOutcome: StartOutcome)
      requires Valid()
      modifies this
      ensures Valid()
      ensures pixelData != null && fresh(pixelData)
      ensures pixelData[..] == seq(Width * Height, _ => Black)
      ensures sensor == AfterStart(Discovered(old(sensor), statuses), startOutcome)
      ensures calls == old(calls) + LoadCalls(Discovered(old(sensor), statuses))
      ensures Discovered(old(sensor), statuses).Some? ==> depthPixels != null && fresh(depthPixels)
      ensures Discovered(old(sensor), statuses).None? ==> depthPixels == old(depthPixels)
    {
      var buffer := new Color[Width * Height];
      var i := 0;
      while i < buffer.Length
        invariant 0 <= i <= buffer.Length
        invariant forall j :: 0 <= j < i ==> buffer[j] == Black
        modifies buffer
      {
        buffer[i] := Black;
        i := i + 1;
      }
      assert buffer[..] == seq(Width * Height, _ => Black);
      assert Grayscale(buffer[..]);
      pixelData := buffer;

      var found := FindConnected(statuses);
      if found.Some? {
        sensor := found;
      }

      if sensor.Some? {
        var k := sensor.value;
        calls := calls + [EnableDepthStream(k)];
        depthPixels := new int16[FramePixelDataLength];
        calls := calls + [SubscribeDepthFrameReady(k)];
        calls := calls + [EnableSkeletonStream(k)];
        calls := calls + [Start(k)];
        match startOutcome {
          case StartSucceeded =>
          case StartIOException => sensor := None;
        }
      }
    }

    /** Stops the sensor if the field holds one; the field itself is left as it is. */
    method UnloadContent()
      requires Valid()
      modifies this`calls
      ensures Valid()
      ensures calls == old(calls) + StopCalls(sensor)
    {
      if sensor.Some? {
        calls := calls + [Stop(sensor.value)];
      }
    }

    /**
     * The depth-frame handler. Without a frame nothing happens. Otherwise
     * the samples are copied into the scratch array and each pixel in turn
     * is written gray with the intensity of its depth; the first in-range
     * pixel of a frame whose bounds are equal throws DivideByZeroException,
     * which abandons the loop with the earlier pixels already written.
     */
    method SensorDepthFrameReady(frame: Option<DepthFrame>) returns (outcome: HandlerOutcome)
      requires Valid() && pixelData != null && depthPixels != null
      requires frame.Some? ==> |frame.value.depths| == depthPixels.Length
      modifies pixelData, depthPixels
      ensures Valid()
      ensures outcome == FrameOutcome(frame)
      ensures pixelData[..] == FrameResult(old(pixelData[..]), frame)
      ensures frame.Some? ==> depthPixels[..] == frame.value.depths
      ensures frame.None? ==> depthPixels[..] == old(depthPixels[..])
    {
      if frame.None? {
        return NoFrame;
      }
      var f := frame.value;
      forall i | 0 <= i < depthPixels.Length {
        depthPixels[i] := f.depths[i];
      }
      assert depthPixels[..] == f.depths;

      var minDepth := f.minDepth;
      var maxDepth := f.maxDepth;
      var depthDelta := Sub32(maxDepth, minDepth);

      var depthIndex := 0;
      while depthIndex < depthPixels.Length
        invariant 0 <= depthIndex <= depthPixels.Length
        invariant depthPixels[..] == f.depths
        invariant forall j :: 0 <= j < depthIndex ==> DepthToIntensity(f.depths[j], minDepth, maxDepth).Value?
        invariant pixelData[..] == Shade(old(pixelData[..]), f, depthIndex)
      {
        var depth := depthPixels[depthIndex];
        var intensity: byte := 0;
        if depth as int >= minDepth as int && depth as int <= maxDepth as int {
          if depthDelta == 0 {
            outcome := Faulted(depthIndex);
            FrameKeepsGrayscale(old(pixelData[..]), frame);
            return;
          }
          intensity := Scale(depth, depthDelta);
        }
        pixelData[depthIndex] := pixelData[depthIndex].(r := intensity);
        pixelData[depthIndex] := pixelData[depthIndex].(g := intensity);
        pixelData[depthIndex] := pixelData[depthIndex].(b := intensity);
        depthIndex := depthIndex + 1;
      }
      outcome := Converted;
      FrameKeepsGrayscale(old(pixelData[..]), frame);
    }
  }

  /**
   * A whole session of a freshly constructed game: load with the given
   * sensor statuses and start outcome, then unload. The calls it makes on
   * sensors are exactly `SessionCalls`, so the session lemmas about that
   * function speak about the class.
   */
  method RunSession(statuses: seq<KinectStatus>, outcome: StartOutcome) returns (g: Game1)
    ensures fresh(g) && g.Valid()
    ensures g.calls == SessionCalls(statuses, outcome)
    ensures g.sensor == AfterStart(FirstConnected(statuses), outcome)
  {
    g := new Game1();
    g.LoadContent(statuses, outcome);
    g.UnloadContent();
  }
}
