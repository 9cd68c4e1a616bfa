/** The records the service produces. */
module Hops {

  /** Which route-tracing tool printed the output: Windows `tracert` or
      Unix `traceroute`. The service decides this from the operating
      system it runs on; here it is an explicit input. */
  datatype Dialect = Windows | Unix

  /** One hop of the path, as the service returns it:
      `hop` and `ttl` are both the hop number printed at the start of the line. */
  datatype Hop = Hop(hop: nat, ttl: nat, hostname: string, ip: string, pingTime: int)

  const LocalhostName := "localhost"
  const LoopbackIp := "127.0.0.1"
  const TimeoutName := "Timeout"
  const NoReplyIp := "*"

  /** The record for a hop none of whose probes was answered. */
  function TimeoutHop(n: nat): (h: Hop)
    ensures h.hop == n && h.ttl == n && h.pingTime == 0
  {
    Hop(n, n, TimeoutName, NoReplyIp, 0)
  }
}
