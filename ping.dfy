/**
 * The two latency probes of the speed test window and the way each reports a failure.
 * The ICMP echo itself is network I/O; its outcome is an input to these functions.
 */
module Ping {
  import opened Wrappers

  /** The range of a C# `long`. */
  type Int64 = x: int | -0x8000_0000_0000_0000 <= x <= 0x7FFF_FFFF_FFFF_FFFF

  /** `long.MaxValue`, the sentinel the asynchronous probe returns on failure. */
  const LongMaxValue: Int64 := 0x7FFF_FFFF_FFFF_FFFF

  /** A round-trip time in milliseconds, as `PingReply.RoundtripTime` reports it. */
  type Millis = x: int | 0 <= x <= 0x7FFF_FFFF_FFFF_FFFF

  /** `IPStatus`: success, or any other status code the echo request can end with. */
  datatype IpStatus = Success | NonSuccess(code: int)

  /** What one echo request does: it replies with a status and a round-trip time, or it throws. */
  datatype PingOutcome = Replied(status: IpStatus, roundtripTime: Millis) | Threw

  /** The echo request came back with status `Success`. */
  predicate Reached(o: PingOutcome) {
    o.Replied? && o.status == Success
  }

  /**
   * `MeasurePingTimeAsync`: the round-trip time of a successful reply; a non-success
   * status or a caught exception both fall through to `long.MaxValue`.
   */
  function MeasurePingTimeAsync(o: PingOutcome): (r: Int64)
    ensures 0 <= r
    ensures Reached(o) ==> r == o.roundtripTime
    ensures !Reached(o) ==> r == LongMaxValue
    ensures r < LongMaxValue ==> Reached(o)
  {
    match o
    case Replied(status, rtt) => if status == Success then rtt else LongMaxValue
    case Threw => LongMaxValue
  }

  /**
   * `MeasurePingTime`, the synchronous probe of the chosen server: the round-trip time on
   * success, -1 for any other status. It has no handler, so an exception reaches its caller.
   */
  function MeasurePingTime(o: PingOutcome): (r: Thrown<Int64>)
    ensures r.Raised? <==> o.Threw?
    ensures r.Returned? ==> (r.value == -1 <==> !Reached(o))
    ensures r.Returned? ==> (0 <= r.value <==> Reached(o))
    ensures Reached(o) ==> r == Returned(o.roundtripTime)
  {
    match o
    case Threw => Raised
    case Replied(status, rtt) => if status == Success then Thrown<Int64>.Returned(rtt) else Thrown<Int64>.Returned(-1)
  }
}
