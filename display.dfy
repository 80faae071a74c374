/**
 * The display consumer's loop (`display_and_save_frame`) and its three ways
 * of stopping. The window and the keyboard are inputs: for each iteration a
 * `Tick` says what `frames.get()` returned, what the window's visibility
 * property read and which key code `waitKey` returned.
 */
module Display {
  import opened Wrappers
  import opened FrameChannel

  /** The key code of `'q'`. */
  const QUIT_KEY := 'q' as int

  datatype Tick = Tick(frame: Option<Frame>, visible: int, key: int)

  datatype StopReason = Sentinel | WindowClosed | QuitPressed

  /**
   * Python's `key & 0xFF` on an arbitrary-precision integer: the low eight
   * bits in two's complement, so the "no key" code -1 masks to 255.
   */
  function MaskKey(key: int): (r: int)
    ensures 0 <= r < 256
    ensures exists q :: key == 256 * q + r
  {
    var r := key % 256;
    assert key == 256 * (key / 256) + r;
    r
  }

  /**
   * The checks one iteration makes, in the order the loop makes them: a
   * `None` frame first, then a window no longer visible (`< 1`), then the
   * quit key; `None` means the loop goes on.
   */
  function StopCheck(t: Tick): (r: Option<StopReason>)
    ensures r.Some? <==> t.frame.None? || t.visible < 1 || MaskKey(t.key) == QUIT_KEY
    ensures r == Some(Sentinel) <==> t.frame.None?
    ensures r == Some(WindowClosed) <==> t.frame.Some? && t.visible < 1
    ensures r == Some(QuitPressed) ==> MaskKey(t.key) == QUIT_KEY
    ensures t.frame.Some? && t.visible >= 1 && t.key == -1 ==> r == None
  {
    if t.frame.None? then Some(Sentinel)
    else if t.visible < 1 then Some(WindowClosed)
    else if MaskKey(t.key) == QUIT_KEY then Some(QuitPressed)
    else None
  }

  /**
   * The loop over the ticks it is given. It returns the frames it showed,
   * why it stopped (`None` if the ticks ran out first) and how many ticks it
   * consumed. A frame is shown before the window and key checks, so a tick
   * that stops the loop through those checks is still shown; the sentinel is not.
   */
  method DisplayLoop(ticks: seq<Tick>) returns (shown: seq<Frame>, stop: Option<StopReason>, used: nat)
    ensures used <= |ticks|
    ensures stop.None? ==> used == |ticks|
    ensures stop.Some? ==> 0 < used && StopCheck(ticks[used - 1]) == stop
    ensures forall i :: 0 <= i < used && (stop.None? || i < used - 1) ==> StopCheck(ticks[i]).None?
    ensures |shown| == if stop == Some(Sentinel) then used - 1 else used
    ensures forall i :: 0 <= i < |shown| ==> ticks[i].frame == Some(shown[i])
  {
    shown := [];
    stop := None;
    used := 0;
    while used < |ticks|
      invariant used <= |ticks|
      invariant |shown| == used
      invariant forall i :: 0 <= i < used ==> StopCheck(ticks[i]).None?
      invariant forall i :: 0 <= i < |shown| ==> ticks[i].frame == Some(shown[i])
    {
      var t := ticks[used];
      used := used + 1;
      if t.frame.None? {
        stop := Some(Sentinel);
        break;
      }
      shown := shown + [t.frame.value];
      if t.visible < 1 {
        stop := Some(WindowClosed);
        break;
      }
      if MaskKey(t.key) == QUIT_KEY {
        stop := Some(QuitPressed);
        break;
      }
    }
  }
}
