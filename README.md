# Capture, frame channel and display loop of a live video pipeline

This project models the decision logic of `video_streaming.py`, the streaming
part of a small multi-process video pipeline: a capture worker reads frames
from an RTSP source, reconnects on failed reads and gives up when the source
has been dead for more than a minute. It hands frames over a one-slot
manager queue (created in `main.py` with `maxsize=1`) to consumers. One of
them is a display loop that stops on a `None` frame, a closed window or the
`q` key.

- `FrameChannel` (`frame_bus.dfy`): the bounded queue. `Full` follows Python's
  `Queue.full()`: a `maxsize` of 0 or less means unbounded. `Offer` is the
  producer's "put unless full". The class `FrameBus` holds the queued frames
  in a `seq` field. Its methods are `TryPut` (lines 42-43 of the capture
  loop) and `GetFrame` (`get_frame`).
- `StreamCapture` (`capture.dfy`): the capture loop. `CaptureState` holds its
  four local variables. `Step` is one iteration and `Run` runs the loop over
  a finite sequence of device reads. `Capture` is the loop itself: a `while`
  loop over those locals that puts frames into a `FrameBus`, proved equal to
  `Run`.
- `CaptureLemmas` (`capture_lemmas.dfy`): properties of whole runs, proved
  by induction. They cover outages, the timeout, the video counter, the
  connection and report flags, the reset time and the channel.
- `Display` (`display.dfy`): the display loop's stop rule (`StopCheck`, with
  `MaskKey` for Python's `key & 0xFF`) and the loop itself (`DisplayLoop`).
- `Endpoint` (`endpoint.dfy`): the reachability probe's port default.

The capture device and the clock are inputs. Each iteration is an `Event`.
It is either `ReadOk(frame)` or `ReadFailed(now)`, where `now` is the clock
reading in whole seconds. For the display loop, the window and the keyboard
are inputs too: a `Tick` holds the frame received, the window's visibility
value and the key code.

Three behaviours of the code worth noting:

- A successful read does not update `last_success_time`. It changes only at
  entry and on the first failed read of an outage (video_streaming.py:17, 33).
  So a stream that has played for more than 60 s after the last reset is
  abandoned on its first failed read, with no reconnect and no video counted.
  `CaptureLemmas.LongStreamExitsOnFirstFailure` states this.
- The timeout is strict: the loop exits only when more than 60 s have passed
  (`> 60`). A failure at exactly 60 s reconnects.
- No code in the repository ever puts the `None` sentinel into the queue.
  The display loop's `None` check is modelled, but the capture loop only
  ever enqueues frames it read.

## Model

| member | source | states |
|---|---|---|
| `StreamCapture.Init` | video_streaming.py:15-19 | the loop starts with no outage reported, no connection made, no video counted and the reset time set to the clock at entry |
| `StreamCapture.Step` | video_streaming.py:21-43 | an iteration exits exactly on a failed read more than 60 s after the last reset, and the state is then unchanged; any other failure reconnects, announced (the outage's messages printed) exactly when no outage was reported yet, and sets the report flag; a success is enqueued exactly when the channel is not full, otherwise dropped, and sets the connection flag and clears the report flag; the counter grows by one exactly on the first failure of an outage after a success; the reset time moves only on that first failure, to its time; the connection flag never returns to false; a video is counted only by an announced reconnect |
| `StreamCapture.Run` | video_streaming.py:21-43 | a run consumes at most the given reads, all of them unless it exits, and exits only on a consumed failed read more than 60 s after the final reset time |
| `StreamCapture.Capture` | video_streaming.py:14-43 | the imperative loop over the four locals and the channel ends in exactly the state, channel content, consumed count and exit flag that `Run` gives from `Init` |
| `CaptureLemmas.ReportedOutageIsStable` | video_streaming.py:23-36 | once an outage is reported, failed reads change neither the state nor the channel, and the loop exits at the first failure more than 60 s after the reset and at no earlier one |
| `CaptureLemmas.OutageTimeout` | video_streaming.py:23-36 | in an outage that starts while streaming, the first failure exits at once if it is more than 60 s after the reset; otherwise it counts one video (only if a connection was made), resets the time to itself, and the loop exits exactly at the first later failure more than 60 s after it |
| `CaptureLemmas.OutageCountsAtMostOnce` | video_streaming.py:27-32 | however many consecutive reads fail, the video counter grows by at most one, and only when no outage was reported and a connection had been made |
| `CaptureLemmas.FailuresBeforeFirstSuccessNeverCount` | video_streaming.py:27-30 | failed reads before any successful one never count a finished video and leave the connection flag false |
| `CaptureLemmas.InitialConnectionIff` | video_streaming.py:38-39 | after a run, the connection flag is set if and only if it was set before or some consumed read succeeded |
| `CaptureLemmas.ReportFlagFollowsLastRead` | video_streaming.py:27-41 | after a run that did not exit, the report flag is set if and only if the last consumed read failed |
| `CaptureLemmas.ResetOnlyAtOutageStart` | video_streaming.py:27-41 | if the reset time changed, it is the time of a consumed failed read that opened an outage (the first read while no outage was reported, or a read after a success) |
| `CaptureLemmas.LongStreamExitsOnFirstFailure` | video_streaming.py:24-26 | after any number of successful reads, a failure more than 60 s after the reset exits the loop at once, without counting a video or moving the reset time |
| `CaptureLemmas.ReportedOutageIsSilent` | video_streaming.py:27-33 | once an outage is reported, no further failed read prints the reconnect announcement again |
| `CaptureLemmas.OutageAnnouncedAtMostOnce` | video_streaming.py:23-33 | however many consecutive reads fail, the reconnect announcement is printed at most once, and exactly when no outage was reported yet and the first failure is not fatal |
| `CaptureLemmas.PipelineRunHoldsOneReadFrame` | video_streaming.py:42-43 | with the pipeline's capacity of 1 and an empty starting channel, a run leaves at most one frame queued, and that frame is one the loop read |
| `CaptureLemmas.RunOnlyAppendsReadFrames` | video_streaming.py:42-43 | within a run, the capture loop only appends to the channel, keeps the channel within its capacity, and appends only frames it read |
| `CaptureLemmas.FullBusDropsEverything` | video_streaming.py:42-43 | while the channel is full, every frame read is dropped and the queued content stays as it was |
| `FrameChannel.Offer` | video_streaming.py:42-43 | a put on a non-full queue appends the frame after the existing content; on a full queue it changes nothing; capacity is never exceeded |
| `FrameChannel.FrameBus.constructor` | main.py:14 | the channel starts empty with the requested `maxsize` |
| `FrameChannel.FrameBus.TryPut` | video_streaming.py:42-43 | the frame is accepted exactly when the queue was not full, and is then appended; otherwise the queue is unchanged; the capacity invariant is kept |
| `FrameChannel.FrameBus.GetFrame` | video_streaming.py:46-48 | on a non-empty queue it returns and removes the oldest frame; on an empty queue it returns `None` and changes nothing |
| `FrameChannel.PipelineChannelIsSingleSlot` | main.py:14 | a valid channel object created with the pipeline's capacity of 1 is empty or holds one frame |
| `Display.MaskKey` | video_streaming.py:96 | `key & 0xFF` is the residue of the key code modulo 256, in 0..255, so the "no key" code -1 gives 255 |
| `Display.StopCheck` | video_streaming.py:84-97 | an iteration stops if and only if the frame is `None`, the window's visibility is below 1, or the masked key is `q`; the reason is the sentinel exactly for a `None` frame and the window exactly for a frame with visibility below 1; with no key pressed and the window visible, the loop goes on |
| `Display.DisplayLoop` | video_streaming.py:81-97 | the loop stops at the first tick that meets the stop rule, for that tick's reason, or runs through all ticks; it shows every frame it received in order, including the one whose window or key check stops it, and never the sentinel |
| `Endpoint.DefaultPort` | video_streaming.py:57 | the probe uses the URL's port when one is given and non-zero, otherwise 554, and never port 0 |

## Left out

- cv2 calls (`VideoCapture`, `read`, `release`, `imshow`, `putText`, `getWindowProperty`, `waitKey`): foreign I/O. The model keeps only their results, as inputs: the read result, the window visibility and the key code.
- `calculate_fps`, `display_fps` and the FPS updates in the display loop (video_streaming.py:70-79, 87-91): floating-point division on wall-clock time, and text rendering.
- The socket connect and `urlparse` in `check_rtsp_url` (video_streaming.py:54-64): network I/O and a library parser. Only the port default at line 57 is modelled.
- Endpoint.DefaultPort: the `Port` type (0..65535) stands for the parser's own range check. The `ValueError` that `parsed_url.port` raises for an out-of-range or non-numeric port is not modelled; it is raised at line 57, outside the `try`, and escapes `check_rtsp_url`.
- `read_url_from_file` (video_streaming.py:66-68): file I/O.
- `VideoStream.__init__` and `VideoStream.release` (process start, terminate, join), main.py's `ConcurrencyManager` (process and manager setup, device probing, model loading, the busy retry loop around the probe, join order) and imgAlgSelect.py's `YOLOProcessor`: concurrency, orchestration and calls into the detection model.
- Concurrency on the channel: the blocking of `Queue.get`, and the gaps on the shared queue between a consumer's get and the capture loop's `full()`/`put`. `Run` and `Capture` model the capture loop alone, so no consumer drains the channel during a run. A `put` on a full queue would block; it cannot happen here because a put is always guarded by `full()`.
- The `Manager.Value` FPS cells shared across processes: their point is concurrency.
- StreamCapture.Step: the console messages (video_streaming.py:25, 30, 31) are not modelled as output. `Reconnect(announced)` records whether an iteration prints the reconnect announcement (line 31), and `Announcements` counts them over a run. The "Finished streaming video number N" message (line 30) goes with the growth of `videoCount`. The exit message (line 25) goes with `Exit`.
- StreamCapture.Step: a failed iteration reads the clock twice (lines 24 and 33). The model uses one reading per iteration for both.
- StreamCapture.Step: clock readings are floating-point seconds in the source and whole seconds in the model, so `> 60` is compared on integers.
- StreamCapture.Capture: the source loop is `while True` and ends only through the timeout. The model runs over a finite sequence of reads and also stops when that sequence runs out.
- Display.DisplayLoop: the source loop is `while True` around a blocking `frames.get()` (video_streaming.py:83-84). The model runs over a finite sequence of ticks and also stops, with no stop reason, when that sequence runs out.
- Display.StopCheck: the window visibility property is a floating-point value in the source and an integer in the model.
- The queue's frames are modelled as byte sequences (`seq<bv8>`); their image content is never inspected by the modelled code.
