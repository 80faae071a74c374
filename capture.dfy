/**
 * The reconnect state machine of the capture worker (`VideoStream.capture`).
 * Each iteration reads once from the capture device; the device and the
 * clock are inputs: an `Event` is either a successful read carrying its frame
 * or a failed read carrying the clock reading (whole seconds) of that
 * iteration.
 */
module StreamCapture {
  import opened FrameChannel

  /** A failed read more than this many seconds after the last reset is fatal. */
  const FATAL_TIMEOUT := 60

  /** The four local variables of the capture loop. */
  datatype CaptureState = CaptureState(
    errorReported: bool,
    lastSuccessTime: int,
    videoCount: nat,
    initialConnectionMade: bool)

  datatype Event = ReadOk(frame: Frame) | ReadFailed(now: int)

  /** What one iteration does besides updating the state. */
  datatype Action =
    | Exit              // leave the loop: the source is considered dead
    | Reconnect(announced: bool)
                        // release and reopen the capture device; `announced` when the
                        // outage's messages are printed (first failure of an outage)
    | Enqueue(f: Frame) // hand the frame to the channel
    | Drop(f: Frame)    // the channel is full: discard the frame

  datatype StepResult = StepResult(next: CaptureState, action: Action)

  /** The state before the first iteration; `start` is the clock at entry. */
  function Init(start: int): (s: CaptureState)
    ensures !s.errorReported && !s.initialConnectionMade
    ensures s.videoCount == 0 && s.lastSuccessTime == start
  {
    CaptureState(false, start, 0, false)
  }

  predicate TimedOut(s: CaptureState, now: int) {
    now - s.lastSuccessTime > FATAL_TIMEOUT
  }

  /**
   * One loop iteration. `busFull` is what `frames.full()` answers at that
   * point. The timeout test precedes the first-failure bookkeeping, and a
   * successful read does not touch `lastSuccessTime`.
   */
  function Step(s: CaptureState, e: Event, busFull: bool): (r: StepResult)
    // the loop is left exactly on a failed read strictly more than 60 s after the last reset
    ensures r.action == Exit <==> e.ReadFailed? && e.now - s.lastSuccessTime > FATAL_TIMEOUT
    ensures r.action == Exit ==> r.next == s
    // a failed read that is not fatal always reconnects and marks the outage as reported
    ensures e.ReadFailed? && r.action != Exit ==> r.action == Reconnect(!s.errorReported) && r.next.errorReported
    // a successful read is enqueued exactly when the channel is not full, and clears the report flag
    ensures e.ReadOk? ==> r.action == (if busFull then Drop(e.frame) else Enqueue(e.frame))
    ensures e.ReadOk? ==> r.next.initialConnectionMade && !r.next.errorReported
    // a finished video is only ever counted (and its message printed) by an announced reconnect
    ensures r.next.videoCount != s.videoCount ==> r.action == Reconnect(true)
    // the video counter grows by one exactly on the first failure of an outage after some success
    ensures r.next.videoCount ==
      if e.ReadFailed? && r.action != Exit && !s.errorReported && s.initialConnectionMade
      then s.videoCount + 1 else s.videoCount
    // lastSuccessTime moves only on the first failure of an outage, to that failure's time
    ensures r.next.lastSuccessTime != s.lastSuccessTime ==>
      e.ReadFailed? && !s.errorReported && r.next.lastSuccessTime == e.now
    ensures e.ReadFailed? && r.action != Exit && !s.errorReported ==> r.next.lastSuccessTime == e.now
    // the initial-connection flag never goes back to false, and only a success sets it
    ensures s.initialConnectionMade ==> r.next.initialConnectionMade
    ensures e.ReadFailed? ==> r.next.initialConnectionMade == s.initialConnectionMade
    // only a successful read clears the report flag
    ensures s.errorReported && !r.next.errorReported ==> e.ReadOk?
  {
    match e
    case ReadFailed(now) =>
      if TimedOut(s, now) then
        StepResult(s, Exit)
      else if !s.errorReported then
        var count := if s.initialConnectionMade then s.videoCount + 1 else s.videoCount;
        StepResult(s.(videoCount := count, errorReported := true, lastSuccessTime := now), Reconnect(true))
      else
        StepResult(s, Reconnect(false))
    case ReadOk(frame) =>
      StepResult(s.(initialConnectionMade := true, errorReported := false),
                 if busFull then Drop(frame) else Enqueue(frame))
  }

  /** The channel after an action: only `Enqueue` puts, and only into a non-full channel. */
  function Deliver(items: seq<Frame>, maxsize: int, a: Action): seq<Frame> {
    if a.Enqueue? then Offer(items, maxsize, a.f) else items
  }

  /**
   * The outcome of running the loop over a finite prefix of device behaviour:
   * the final locals, the channel, how many reads were consumed and whether
   * the loop was left through the timeout.
   */
  datatype RunResult = RunResult(state: CaptureState, bus: seq<Frame>, consumed: nat, exited: bool)

  function Advance(r: RunResult, n: nat): RunResult {
    r.(consumed := r.consumed + n)
  }

  function Run(s: CaptureState, bus: seq<Frame>, maxsize: int, events: seq<Event>): (r: RunResult)
    ensures r.consumed <= |events|
    ensures !r.exited ==> r.consumed == |events|
    // the loop is only ever left on a fatal failed read, which is the last one consumed
    ensures r.exited ==>
      0 < r.consumed && events[r.consumed - 1].ReadFailed? &&
      events[r.consumed - 1].now - r.state.lastSuccessTime > FATAL_TIMEOUT
    decreases |events|
  {
    if events == [] then
      RunResult(s, bus, 0, false)
    else
      var step := Step(s, events[0], Full(bus, maxsize));
      if step.action == Exit then
        RunResult(s, bus, 1, true)
      else
        Advance(Run(step.next, Deliver(bus, maxsize, step.action), maxsize, events[1..]), 1)
  }

  /** One unfolding of `Run`. */
  lemma RunFirst(s: CaptureState, bus: seq<Frame>, maxsize: int, events: seq<Event>)
    requires events != []
    ensures var step := Step(s, events[0], Full(bus, maxsize));
      Run(s, bus, maxsize, events) ==
      if step.action == Exit then RunResult(s, bus, 1, true)
      else Advance(Run(step.next, Deliver(bus, maxsize, step.action), maxsize, events[1..]), 1)
  {
  }

  /**
   * The capture loop itself, over the reads `events` delivered by the device.
   * It stops when the timeout fires or when the given reads run out.
   */
  method Capture(bus: FrameBus, start: int, events: seq<Event>)
    returns (last: CaptureState, consumed: nat, exited: bool)
    requires bus.Valid()
    modifies bus
    ensures bus.Valid()
    ensures Run(Init(start), old(bus.items), bus.capacity, events) == RunResult(last, bus.items, consumed, exited)
  {
    var errorReported := false;
    var lastSuccessTime := start;
    var videoCount: nat := 0;
    var initialConnectionMade := false;
    ghost var total := Run(Init(start), bus.items, bus.capacity, events);
    var i := 0;
    exited := false;
    while i < |events| && !exited
      invariant 0 <= i <= |events|
      invariant bus.Valid()
      invariant !exited ==>
        total == Advance(Run(CaptureState(errorReported, lastSuccessTime, videoCount, initialConnectionMade),
                             bus.items, bus.capacity, events[i..]), i)
      invariant exited ==>
        total == RunResult(CaptureState(errorReported, lastSuccessTime, videoCount, initialConnectionMade),
                           bus.items, i, true)
    {
      ghost var s := CaptureState(errorReported, lastSuccessTime, videoCount, initialConnectionMade);
      ghost var q := bus.items;
      ghost var step := Step(s, events[i], Full(q, bus.capacity));
      RunFirst(s, q, bus.capacity, events[i..]);
      assert events[i..][0] == events[i] && events[i..][1..] == events[i + 1..];
      match events[i] {
        case ReadFailed(now) =>
          if now - lastSuccessTime > FATAL_TIMEOUT {
            exited := true;
          } else {
            if !errorReported {
              if initialConnectionMade {
                videoCount := videoCount + 1;
              }
              errorReported := true;
              lastSuccessTime := now;
            }
          }
        case ReadOk(frame) =>
          if !initialConnectionMade {
            initialConnectionMade := true;
          }
          errorReported := false;
          var accepted := bus.TryPut(frame);
      }
      assert !exited ==>
        step.action != Exit &&
        CaptureState(errorReported, lastSuccessTime, videoCount, initialConnectionMade) == step.next &&
        bus.items == Deliver(q, bus.capacity, step.action);
      i := i + 1;
    }
    last := CaptureState(errorReported, lastSuccessTime, videoCount, initialConnectionMade);
    consumed := i;
  }
}
