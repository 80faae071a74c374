/**
 * Properties of whole runs of the capture loop, stated over `Run` and
 * proved by induction on the sequence of reads.
 */
module CaptureLemmas {
  import opened FrameChannel
  import opened StreamCapture

  /** A stretch of reads that all failed: an outage as the loop sees it. */
  predicate AllFailed(events: seq<Event>) {
    forall i :: 0 <= i < |events| ==> events[i].ReadFailed?
  }

  predicate AllSucceeded(events: seq<Event>) {
    forall i :: 0 <= i < |events| ==> events[i].ReadOk?
  }

  /** The index of the first failed read strictly more than 60 s after `t`, or `|events|` if none is. */
  function FirstLate(events: seq<Event>, t: int): (k: nat)
    ensures k <= |events|
    ensures k < |events| ==> events[k].ReadFailed? && events[k].now - t > FATAL_TIMEOUT
    ensures forall j :: 0 <= j < k ==> !(events[j].ReadFailed? && events[j].now - t > FATAL_TIMEOUT)
    decreases |events|
  {
    if events == [] then 0
    else if events[0].ReadFailed? && events[0].now - t > FATAL_TIMEOUT then 0
    else 1 + FirstLate(events[1..], t)
  }

  /**
   * Once an outage has been reported, further failed reads change nothing:
   * not the counter, not the reset time, not the channel. The loop is left
   * at the first of them that comes more than 60 s after the reset, and at
   * no earlier one.
   */
  lemma {:induction false} ReportedOutageIsStable(s: CaptureState, bus: seq<Frame>, maxsize: int, events: seq<Event>)
    requires s.errorReported && AllFailed(events)
    ensures var r := Run(s, bus, maxsize, events);
      var k := FirstLate(events, s.lastSuccessTime);
      r.state == s && r.bus == bus &&
      r.exited == (k < |events|) &&
      r.consumed == (if k < |events| then k + 1 else |events|)
    decreases |events|
  {
    if events != [] {
      RunFirst(s, bus, maxsize, events);
      if !TimedOut(s, events[0].now) {
        ReportedOutageIsStable(s, bus, maxsize, events[1..]);
      }
    }
  }

  /**
   * An outage that starts while streaming (the flag is clear): its first
   * failed read is fatal if it comes more than 60 s after the last reset;
   * otherwise it counts a finished video (if one was ever streamed), moves
   * the reset time to itself, and the loop is left at the first later
   * failure more than 60 s after that first failure.
   */
  lemma {:induction false} OutageTimeout(s: CaptureState, bus: seq<Frame>, maxsize: int, events: seq<Event>)
    requires !s.errorReported && AllFailed(events) && events != []
    ensures var r := Run(s, bus, maxsize, events);
      if events[0].now - s.lastSuccessTime > FATAL_TIMEOUT then
        r == RunResult(s, bus, 1, true)
      else
        var k := FirstLate(events[1..], events[0].now);
        r.bus == bus &&
        r.state.errorReported &&
        r.state.lastSuccessTime == events[0].now &&
        r.state.videoCount == (if s.initialConnectionMade then s.videoCount + 1 else s.videoCount) &&
        r.state.initialConnectionMade == s.initialConnectionMade &&
        r.exited == (k < |events| - 1) &&
        r.consumed == (if k < |events| - 1 then k + 2 else |events|)
  {
    RunFirst(s, bus, maxsize, events);
    var step := Step(s, events[0], Full(bus, maxsize));
    if step.action != Exit {
      assert AllFailed(events[1..]) by {
        forall i | 0 <= i < |events[1..]| ensures events[1..][i].ReadFailed? {
          assert events[1..][i] == events[i + 1];
        }
      }
      ReportedOutageIsStable(step.next, bus, maxsize, events[1..]);
    }
  }

  /** However long an outage lasts, it adds at most one finished video. */
  lemma OutageCountsAtMostOnce(s: CaptureState, bus: seq<Frame>, maxsize: int, events: seq<Event>)
    requires AllFailed(events)
    ensures var r := Run(s, bus, maxsize, events);
      s.videoCount <= r.state.videoCount <= s.videoCount + 1 &&
      (r.state.videoCount == s.videoCount + 1 ==> !s.errorReported && s.initialConnectionMade)
  {
    if s.errorReported {
      ReportedOutageIsStable(s, bus, maxsize, events);
    } else if events != [] {
      OutageTimeout(s, bus, maxsize, events);
    }
  }

  /**
   * Failed reads before any successful one never count as a finished
   * video: the first connection attempt is not the end of a video.
   */
  lemma {:induction false} FailuresBeforeFirstSuccessNeverCount(
    s: CaptureState, bus: seq<Frame>, maxsize: int, events: seq<Event>)
    requires !s.initialConnectionMade && AllFailed(events)
    ensures var r := Run(s, bus, maxsize, events);
      r.state.videoCount == s.videoCount && !r.state.initialConnectionMade
    decreases |events|
  {
    if events != [] {
      RunFirst(s, bus, maxsize, events);
      var step := Step(s, events[0], Full(bus, maxsize));
      if step.action != Exit {
        assert AllFailed(events[1..]) by {
          forall i | 0 <= i < |events[1..]| ensures events[1..][i].ReadFailed? {
            assert events[1..][i] == events[i + 1];
          }
        }
        FailuresBeforeFirstSuccessNeverCount(step.next, Deliver(bus, maxsize, step.action), maxsize, events[1..]);
      }
    }
  }

  /**
   * After a run, the initial-connection flag is set exactly when it was set
   * before or some consumed read succeeded.
   */
  lemma {:induction false} InitialConnectionIff(s: CaptureState, bus: seq<Frame>, maxsize: int, events: seq<Event>)
    ensures var r := Run(s, bus, maxsize, events);
      r.state.initialConnectionMade <==>
      s.initialConnectionMade || exists i :: 0 <= i < r.consumed && events[i].ReadOk?
    decreases |events|
  {
    if events != [] {
      RunFirst(s, bus, maxsize, events);
      var step := Step(s, events[0], Full(bus, maxsize));
      if step.action != Exit {
        var rest := events[1..];
        var q := Deliver(bus, maxsize, step.action);
        InitialConnectionIff(step.next, q, maxsize, rest);
        var r' := Run(step.next, q, maxsize, rest);
        if exists i :: 0 <= i < r'.consumed && rest[i].ReadOk? {
          var i :| 0 <= i < r'.consumed && rest[i].ReadOk?;
          assert events[i + 1] == rest[i];
        }
        if exists i :: 0 <= i < r'.consumed + 1 && events[i].ReadOk? {
          var i :| 0 <= i < r'.consumed + 1 && events[i].ReadOk?;
          if i > 0 {
            assert rest[i - 1] == events[i];
          }
        }
      }
    }
  }

  /**
   * After a run that was not left through the timeout, the report flag says
   * whether the last read failed: a failure sets it and only a success
   * clears it.
   */
  lemma {:induction false} ReportFlagFollowsLastRead(s: CaptureState, bus: seq<Frame>, maxsize: int, events: seq<Event>)
    ensures var r := Run(s, bus, maxsize, events);
      (r.consumed > 0 && !r.exited ==> (r.state.errorReported <==> events[r.consumed - 1].ReadFailed?)) &&
      (r.consumed == 0 ==> r.state.errorReported == s.errorReported)
    decreases |events|
  {
    if events != [] {
      RunFirst(s, bus, maxsize, events);
      var step := Step(s, events[0], Full(bus, maxsize));
      if step.action != Exit {
        var rest := events[1..];
        var q := Deliver(bus, maxsize, step.action);
        ReportFlagFollowsLastRead(step.next, q, maxsize, rest);
        var r' := Run(step.next, q, maxsize, rest);
        if r'.consumed > 0 {
          assert events[r'.consumed] == rest[r'.consumed - 1];
        }
      }
    }
  }

  /** The read at index `i` comes after a success, or is the first read while no outage is reported. */
  predicate OpensOutage(s: CaptureState, events: seq<Event>, i: int)
    requires 0 <= i < |events|
  {
    if i == 0 then !s.errorReported else events[i - 1].ReadOk?
  }

  /**
   * The reset time only ever moves to the time of a failed read that opened
   * an outage: one that follows a successful read, or the first read of the
   * run while no outage was reported. Successful reads never move it.
   */
  lemma {:induction false} ResetOnlyAtOutageStart(s: CaptureState, bus: seq<Frame>, maxsize: int, events: seq<Event>)
    ensures var r := Run(s, bus, maxsize, events);
      r.state.lastSuccessTime != s.lastSuccessTime ==>
      exists i :: 0 <= i < r.consumed && events[i] == ReadFailed(r.state.lastSuccessTime) &&
        OpensOutage(s, events, i)
    decreases |events|
  {
    if events != [] {
      RunFirst(s, bus, maxsize, events);
      var step := Step(s, events[0], Full(bus, maxsize));
      if step.action != Exit {
        var rest := events[1..];
        var q := Deliver(bus, maxsize, step.action);
        ResetOnlyAtOutageStart(step.next, q, maxsize, rest);
        var r := Run(s, bus, maxsize, events);
        var r' := Run(step.next, q, maxsize, rest);
        assert r == Advance(r', 1);
        if r'.state.lastSuccessTime != step.next.lastSuccessTime {
          var i :| 0 <= i < r'.consumed && rest[i] == ReadFailed(r'.state.lastSuccessTime) &&
            OpensOutage(step.next, rest, i);
          assert events[i + 1] == rest[i];
          assert events[i].ReadOk? by {
            if i > 0 { assert events[i] == rest[i - 1]; }
          }
          assert events[i + 1] == ReadFailed(r.state.lastSuccessTime);
        } else if r.state.lastSuccessTime != s.lastSuccessTime {
          assert events[0] == ReadFailed(r.state.lastSuccessTime) && !s.errorReported;
        }
      }
    }
  }

  /**
   * Because a successful read never moves the reset time, a stream that has
   * been read successfully for more than 60 s after the last reset is given
   * up on its very first failed read, without reconnecting and without
   * counting the video.
   */
  lemma {:induction false} LongStreamExitsOnFirstFailure(
    s: CaptureState, bus: seq<Frame>, maxsize: int, oks: seq<Event>, now: int)
    requires AllSucceeded(oks) && now - s.lastSuccessTime > FATAL_TIMEOUT
    ensures var r := Run(s, bus, maxsize, oks + [ReadFailed(now)]);
      r.exited && r.consumed == |oks| + 1 &&
      r.state.videoCount == s.videoCount && r.state.lastSuccessTime == s.lastSuccessTime
    decreases |oks|
  {
    var events := oks + [ReadFailed(now)];
    RunFirst(s, bus, maxsize, events);
    if oks != [] {
      var step := Step(s, events[0], Full(bus, maxsize));
      assert events[0] == oks[0];
      assert events[1..] == oks[1..] + [ReadFailed(now)];
      assert AllSucceeded(oks[1..]) by {
        forall i | 0 <= i < |oks[1..]| ensures oks[1..][i].ReadOk? {
          assert oks[1..][i] == oks[i + 1];
        }
      }
      LongStreamExitsOnFirstFailure(step.next, Deliver(bus, maxsize, step.action), maxsize, oks[1..], now);
    }
  }

  /**
   * The capture loop only ever appends to the channel and keeps it within
   * its capacity; every frame it appends is one of the frames it read.
   */
  lemma {:induction false} RunOnlyAppendsReadFrames(s: CaptureState, bus: seq<Frame>, maxsize: int, events: seq<Event>)
    requires Bounded(bus, maxsize)
    ensures var r := Run(s, bus, maxsize, events);
      Bounded(r.bus, maxsize) && bus <= r.bus &&
      forall j :: |bus| <= j < |r.bus| ==> exists i :: 0 <= i < r.consumed && events[i] == ReadOk(r.bus[j])
    decreases |events|
  {
    if events != [] {
      RunFirst(s, bus, maxsize, events);
      var step := Step(s, events[0], Full(bus, maxsize));
      if step.action != Exit {
        var rest := events[1..];
        var q := Deliver(bus, maxsize, step.action);
        RunOnlyAppendsReadFrames(step.next, q, maxsize, rest);
        var r' := Run(step.next, q, maxsize, rest);
        forall j | |bus| <= j < |r'.bus|
          ensures exists i :: 0 <= i < r'.consumed + 1 && events[i] == ReadOk(r'.bus[j])
        {
          if j < |q| {
            assert q == bus + [step.action.f];
            assert events[0] == ReadOk(r'.bus[j]);
          } else {
            var i :| 0 <= i < r'.consumed && rest[i] == ReadOk(r'.bus[j]);
            assert events[i + 1] == rest[i];
          }
        }
      }
    }
  }

  /**
   * Backpressure: while the channel stays full (nothing drains it), every
   * frame read is dropped and the queued content is left as it was.
   */
  lemma {:induction false} FullBusDropsEverything(s: CaptureState, bus: seq<Frame>, maxsize: int, events: seq<Event>)
    requires Full(bus, maxsize)
    ensures Run(s, bus, maxsize, events).bus == bus
    decreases |events|
  {
    if events != [] {
      RunFirst(s, bus, maxsize, events);
      var step := Step(s, events[0], Full(bus, maxsize));
      if step.action != Exit {
        FullBusDropsEverything(step.next, Deliver(bus, maxsize, step.action), maxsize, events[1..]);
      }
    }
  }

  /**
   * How many failed reads of a run print the reconnect announcement
   * ("Attempting to reconnect ..."): the non-fatal ones the report flag
   * does not suppress.
   */
  function Announcements(s: CaptureState, bus: seq<Frame>, maxsize: int, events: seq<Event>): nat
    decreases |events|
  {
    if events == [] then 0
    else
      var step := Step(s, events[0], Full(bus, maxsize));
      if step.action == Exit then 0
      else
        (if step.action == Reconnect(true) then 1 else 0) +
        Announcements(step.next, Deliver(bus, maxsize, step.action), maxsize, events[1..])
  }

  /** Once an outage is reported, no further failed read announces it again. */
  lemma {:induction false} ReportedOutageIsSilent(s: CaptureState, bus: seq<Frame>, maxsize: int, events: seq<Event>)
    requires s.errorReported && AllFailed(events)
    ensures Announcements(s, bus, maxsize, events) == 0
    decreases |events|
  {
    if events != [] {
      var step := Step(s, events[0], Full(bus, maxsize));
      if step.action != Exit {
        assert AllFailed(events[1..]) by {
          forall i | 0 <= i < |events[1..]| ensures events[1..][i].ReadFailed? {
            assert events[1..][i] == events[i + 1];
          }
        }
        ReportedOutageIsSilent(step.next, Deliver(bus, maxsize, step.action), maxsize, events[1..]);
      }
    }
  }

  /**
   * However long an outage lasts, it is announced at most once: exactly
   * when no outage was reported yet and its first failed read is not fatal.
   */
  lemma OutageAnnouncedAtMostOnce(s: CaptureState, bus: seq<Frame>, maxsize: int, events: seq<Event>)
    requires AllFailed(events)
    ensures Announcements(s, bus, maxsize, events) <= 1
    ensures Announcements(s, bus, maxsize, events) == 1 <==>
      !s.errorReported && events != [] && events[0].now - s.lastSuccessTime <= FATAL_TIMEOUT
  {
    if s.errorReported {
      ReportedOutageIsSilent(s, bus, maxsize, events);
    } else if events != [] {
      var step := Step(s, events[0], Full(bus, maxsize));
      if step.action != Exit {
        assert AllFailed(events[1..]) by {
          forall i | 0 <= i < |events[1..]| ensures events[1..][i].ReadFailed? {
            assert events[1..][i] == events[i + 1];
          }
        }
        ReportedOutageIsSilent(step.next, Deliver(bus, maxsize, step.action), maxsize, events[1..]);
      }
    }
  }

  /**
   * With the pipeline's capacity and nothing draining the channel, a run
   * that starts from an empty channel leaves it empty or holding a single
   * frame, one the loop read.
   */
  lemma PipelineRunHoldsOneReadFrame(s: CaptureState, events: seq<Event>)
    ensures var r := Run(s, [], PIPELINE_CAPACITY, events);
      |r.bus| <= 1 &&
      (r.bus != [] ==> exists i :: 0 <= i < r.consumed && events[i] == ReadOk(r.bus[0]))
  {
    RunOnlyAppendsReadFrames(s, [], PIPELINE_CAPACITY, events);
  }
}
