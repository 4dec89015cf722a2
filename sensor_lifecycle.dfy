/**
 * Discovery, start and stop of the depth sensor. The sensor collection is
 * a sequence of statuses; a sensor is named by its position in it, and the
 * calls the game makes on a sensor are recorded as `SensorCall`s.
 */
module SensorLifecycle {
  import opened Options

  /** `KinectStatus` as the sensor collection reports it. */
  datatype KinectStatus =
    | Undefined | Disconnected | Connected | Initializing | Error
    | NotPowered | NotReady | DeviceNotGenuine | DeviceNotSupported | InsufficientBandwidth

  /** Whether `KinectSensor.Start()` returned normally or threw an IOException. */
  datatype StartOutcome = StartSucceeded | StartIOException

  /** A call the game makes on the sensor with the given position. */
  datatype SensorCall =
    | EnableDepthStream(sensor: nat)        // DepthStream.Enable(Resolution640x480Fps30)
    | SubscribeDepthFrameReady(sensor: nat) // DepthFrameReady += SensorDepthFrameReady
    | EnableSkeletonStream(sensor: nat)     // SkeletonStream.Enable()
    | Start(sensor: nat)
    | Stop(sensor: nat)

  /** The first connected sensor in the collection, if there is one. */
  function FirstConnected(statuses: seq<KinectStatus>): (r: Option<nat>)
    ensures r.Some? ==>
              r.value < |statuses| && statuses[r.value] == Connected &&
              forall j :: 0 <= j < r.value ==> statuses[j] != Connected
    ensures r.None? ==> forall j :: 0 <= j < |statuses| ==> statuses[j] != Connected
  {
    if |statuses| == 0 then None
    else if statuses[0] == Connected then Some(0)
    else match FirstConnected(statuses[1..])
      case None => None
      case Some(k) => Some(k + 1)
  }

  /**
   * The discovery loop: walk the collection in order and stop at the first
   * sensor whose status is `Connected`.
   */
  method FindConnected(statuses: seq<KinectStatus>) returns (found: Option<nat>)
    ensures found == FirstConnected(statuses)
  {
    found := None;
    var i := 0;
    while i < |statuses|
      invariant 0 <= i <= |statuses|
      invariant found.None?
      invariant forall j :: 0 <= j < i ==> statuses[j] != Connected
    {
      if statuses[i] == Connected {
        found := Some(i);
        break;
      }
      i := i + 1;
    }
  }

  /**
   * The sensor field after discovery: the first connected sensor, or the
   * field's earlier value when no sensor is connected (discovery assigns
   * the field only when it finds one).
   */
  function Discovered(prior: Option<nat>, statuses: seq<KinectStatus>): (r: Option<nat>)
    ensures (exists j :: 0 <= j < |statuses| && statuses[j] == Connected) ==>
              r.Some? && r.value < |statuses| && statuses[r.value] == Connected &&
              forall j :: 0 <= j < r.value ==> statuses[j] != Connected
    ensures (forall j :: 0 <= j < |statuses| ==> statuses[j] != Connected) ==> r == prior
  {
    match FirstConnected(statuses)
    case Some(k) => Some(k)
    case None => prior
  }

  /** The calls made on the discovered sensor while loading, in order; none when there is no sensor. */
  function LoadCalls(discovered: Option<nat>): seq<SensorCall>
  {
    match discovered
    case None => []
    case Some(k) => [EnableDepthStream(k), SubscribeDepthFrameReady(k), EnableSkeletonStream(k), Start(k)]
  }

  /** The sensor field after the start attempt: an IOException discards the sensor. */
  function AfterStart(discovered: Option<nat>, outcome: StartOutcome): (r: Option<nat>)
    ensures r.Some? <==> discovered.Some? && outcome == StartSucceeded
    ensures r.Some? ==> r == discovered
  {
    match outcome
    case StartSucceeded => discovered
    case StartIOException => None
  }

  /** The calls made while unloading: `Stop` on the sensor field, only when it is set. */
  function StopCalls(sensor: Option<nat>): seq<SensorCall>
  {
    match sensor
    case None => []
    case Some(k) => [Stop(k)]
  }

  /** Every call a freshly constructed game makes on sensors from loading to unloading. */
  function SessionCalls(statuses: seq<KinectStatus>, outcome: StartOutcome): seq<SensorCall>
  {
    var discovered := Discovered(None, statuses);
    LoadCalls(discovered) + StopCalls(AfterStart(discovered, outcome))
  }

  /**
   * Over a whole session, a sensor is stopped exactly when it is the first
   * connected one and it started without an IOException; it was then
   * started before being stopped, and is the only sensor ever stopped.
   */
  lemma StopOnlyStartedSensor(statuses: seq<KinectStatus>, outcome: StartOutcome, k: nat)
    ensures Stop(k) in SessionCalls(statuses, outcome) <==>
              FirstConnected(statuses) == Some(k) && outcome == StartSucceeded
    ensures Stop(k) in SessionCalls(statuses, outcome) ==>
              SessionCalls(statuses, outcome)[|SessionCalls(statuses, outcome)| - 1] == Stop(k) &&
              Start(k) in SessionCalls(statuses, outcome)[..|SessionCalls(statuses, outcome)| - 1]
  {
  }

  /** With no connected sensor the game makes no sensor call at all. */
  lemma NoConnectedSensorNoCalls(statuses: seq<KinectStatus>, outcome: StartOutcome)
    requires forall j :: 0 <= j < |statuses| ==> statuses[j] != Connected
    ensures SessionCalls(statuses, outcome) == []
  {
  }

  /** A start that throws leaves no sensor, so nothing is stopped when unloading. */
  lemma FailedStartNoStop(statuses: seq<KinectStatus>)
    ensures AfterStart(Discovered(None, statuses), StartIOException) == None
    ensures SessionCalls(statuses, StartIOException) == LoadCalls(FirstConnected(statuses))
  {
  }
}
