/** The port rule of the reachability probe (`check_rtsp_url`). */
module Endpoint {
  import opened Wrappers

  /** The RTSP port the probe falls back to. */
  const RTSP_DEFAULT_PORT := 554

  /** A port as the URL parser reports it. */
  type Port = p: int | 0 <= p < 0x1_0000

  /**
   * `parsed_url.port if parsed_url.port else 554`: the URL's port unless it
   * is missing or zero (zero is falsy), in which case 554. The probe never
   * targets port 0.
   */
  function DefaultPort(port: Option<Port>): (r: Port)
    ensures r != 0
    ensures port.Some? && port.value != 0 ==> r == port.value
    ensures port.None? || port.value == 0 ==> r == RTSP_DEFAULT_PORT
  {
    match port
    case Some(p) => if p != 0 then p else RTSP_DEFAULT_PORT
    case None => RTSP_DEFAULT_PORT
  }
}
