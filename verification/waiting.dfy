/** The bounded waits around mounting and unmounting (pkg/mounter/utils/mounter_utils.go).
    Durations are in milliseconds. */
module Waiting {
  import opened Arithmetic

  const INTERVAL := 500
  const MOUNT_TIMEOUT := 30000
  const LAST_BACKOFF := 120

  datatype PollResult = Mounted | TimedOut | Cancelled

  /** How often waitForMount can look: at least once, then until the sleeps add up to the timeout. */
  function MaxChecks(interval: int, timeout: int): (n: nat)
    requires interval > 0
    ensures n >= 1
  {
    if timeout <= interval then 1 else (timeout + interval - 1) / interval
  }

  /** The sleeps after k looks reach the timeout exactly when k is the last. */
  lemma LastCheck(interval: int, timeout: int, k: nat)
    requires interval > 0 && k >= 1
    ensures k * interval >= timeout <==> k >= MaxChecks(interval, timeout)
  {
    var max := MaxChecks(interval, timeout);
    if timeout <= interval {
      MulLe(1, k, interval);
    } else {
      CeilingBounds(timeout, interval);
      if k < max {
        MulLe(k, max - 1, interval);
      } else {
        MulLe(max, k, interval);
      }
    }
  }

  /** waitForMount after its initial delay. `done(i)` is whether the context is done when turn i of
      the loop begins, `mounted(i)` whether look i finds a mount without an error. */
  method WaitForMount(done: nat -> bool, mounted: nat -> bool, interval: int, timeout: int)
    returns (r: PollResult, checks: nat, elapsed: int)
    requires interval > 0
    ensures checks <= MaxChecks(interval, timeout)
    ensures elapsed == (if r == Mounted then checks - 1 else checks) * interval
    ensures forall i: nat | i < checks :: !done(i)
    ensures forall i: nat | i < checks && !(r == Mounted && i == checks - 1) :: !mounted(i)
    ensures r == Mounted ==> checks >= 1 && mounted(checks - 1)
    ensures r == TimedOut ==> checks == MaxChecks(interval, timeout)
    ensures r == Cancelled ==> done(checks) && checks < MaxChecks(interval, timeout)
  {
    elapsed, checks := 0, 0;
    while true
      invariant checks < MaxChecks(interval, timeout) && elapsed == checks * interval
      invariant forall i: nat | i < checks :: !done(i) && !mounted(i)
      decreases MaxChecks(interval, timeout) - checks
    {
      if done(checks) {
        return Cancelled, checks, elapsed;
      }
      checks := checks + 1;
      if mounted(checks - 1) {
        return Mounted, checks, elapsed;
      }
      elapsed := elapsed + interval;
      LastCheck(interval, timeout, checks);
      if elapsed >= timeout {
        return TimedOut, checks, elapsed;
      }
    }
  }

  /** The same with the settings FuseMount passes: 60 looks, half a second apart, and a timeout only
      after all of them and the whole 30 seconds. */
  method WaitForFuseMount(done: nat -> bool, mounted: nat -> bool) returns (r: PollResult, checks: nat, elapsed: int)
    ensures checks <= 60 && elapsed <= MOUNT_TIMEOUT
    ensures r == TimedOut <==> forall i: nat | i < 60 :: !done(i) && !mounted(i)
    ensures r == TimedOut ==> checks == 60 && elapsed == MOUNT_TIMEOUT
  {
    r, checks, elapsed := WaitForMount(done, mounted, INTERVAL, MOUNT_TIMEOUT);
    assert MaxChecks(INTERVAL, MOUNT_TIMEOUT) == 60;
  }

  /** waitForProcess. `alive(i)` is whether the probe at backoff i finds the process running. From a
      backoff past 120 it would not time out at all; the driver starts at 1. */
  method WaitForProcess(alive: nat -> bool, backoff: nat) returns (timedOut: bool, sleeps: nat)
    requires backoff <= LAST_BACKOFF
    ensures sleeps <= LAST_BACKOFF - backoff
    ensures timedOut <==> forall i: nat | backoff <= i < LAST_BACKOFF :: alive(i)
    ensures timedOut ==> sleeps == LAST_BACKOFF - backoff
    ensures !timedOut ==> !alive(backoff + sleeps) && forall i: nat | backoff <= i < backoff + sleeps :: alive(i)
    decreases LAST_BACKOFF - backoff
  {
    if backoff == LAST_BACKOFF {
      return true, 0;
    }
    if !alive(backoff) {
      return false, 0;
    }
    timedOut, sleeps := WaitForProcess(alive, backoff + 1);
    sleeps := sleeps + 1;
  }

  datatype Search = SearchFailed | NotFound | Found

  /** FuseUnmount: plain, then lazy, then forced unmount; then wait for the process and kill it as a
      last resort. `unmounts(i)` is whether attempt i works. */
  method FuseUnmount(isMount: bool, checkFailed: bool, unmounts: nat -> bool, search: Search, alive: nat -> bool, killWorks: bool)
    returns (ok: bool, attempts: nat, killed: bool)
    ensures attempts <= 3
    ensures attempts == 0 <==> !isMount && !checkFailed
    ensures forall i: nat | i < attempts - 1 :: !unmounts(i)
    ensures attempts > 0 && !unmounts(attempts - 1) ==> attempts == 3 && !ok && !killed
    ensures killed <==> (attempts == 0 || unmounts(attempts - 1)) && search == Found && forall i: nat | 1 <= i < 120 :: alive(i)
    ensures ok <==> (attempts == 0 || unmounts(attempts - 1)) && (killed ==> killWorks)
  {
    attempts, killed := 0, false;
    if isMount || checkFailed {
      attempts := 1;
      if !unmounts(0) {
        attempts := 2;
        if !unmounts(1) {
          attempts := 3;
          if !unmounts(2) {
            return false, attempts, killed;
          }
        }
      }
    }
    if search == SearchFailed {
      return true, attempts, killed;
    }
    if search == NotFound {
      return true, attempts, killed;
    }
    var timedOut, _ := WaitForProcess(alive, 1);
    if timedOut {
      return killWorks, attempts, true;
    }
    return true, attempts, killed;
  }
}
