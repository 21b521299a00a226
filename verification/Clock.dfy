/** Elapsed time as a monotonic clock reports it: never negative. */
module Clock {

  function Elapsed(now: nat, since: nat): nat {
    if now >= since then now - since else 0
  }

  /** The same in seconds as real numbers. */
  function ElapsedSeconds(now: real, since: real): real {
    if now >= since then now - since else 0.0
  }
}
