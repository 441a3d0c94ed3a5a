/** Health monitoring and supervision in streamserver.py: StreamWatchdog, the failure
  * counter of monitor_stream_health and the restart loop of run_stream_server.
  *
  * Sleeping, threads and the camera are left out: the monitor's ticks come as a
  * sequence of checks (the time of the check, the output's last_frame_time then, and
  * what the restart attempt did), and the supervisor's attempts as a sequence of how
  * each one ended. */
module Supervision {

  /** The health rule of is_stream_healthy: a running watchdog whose last frame is younger than
    * the timeout, strictly. */
  predicate Healthy(isRunning: bool, timeout: real, lastFrameTime: real, now: real)
    ensures !isRunning ==> !Healthy(isRunning, timeout, lastFrameTime, now)
    ensures isRunning && now <= lastFrameTime && timeout > 0.0 ==> Healthy(isRunning, timeout, lastFrameTime, now)
    ensures isRunning && timeout <= 0.0 && lastFrameTime <= now ==> !Healthy(isRunning, timeout, lastFrameTime, now)
  {
    isRunning && now - lastFrameTime < timeout
  }

  /** Health is lost by waiting and regained only by a fresher frame. */
  lemma HealthMonotone(isRunning: bool, timeout: real, last: real, now: real, last': real, now': real)
    requires last <= last' && now' <= now
    ensures Healthy(isRunning, timeout, last, now) ==> Healthy(isRunning, timeout, last', now')
    ensures !Healthy(false, timeout, last, now)
  {
  }

  class StreamWatchdog {
    const timeout: real
    var isRunning: bool

    /** StreamWatchdog(timeout=10.0). */
    constructor (timeout: real)
      ensures this.timeout == timeout && isRunning
    {
      this.timeout := timeout;
      isRunning := true;
    }

    function IsStreamHealthy(lastFrameTime: real, now: real): (healthy: bool)
      reads this
      ensures healthy == Healthy(isRunning, timeout, lastFrameTime, now)
    {
      if !isRunning then false else now - lastFrameTime < timeout
    }

    method Stop()
      modifies this
      ensures !isRunning
    {
      isRunning := false;
    }
  }

  // ---------------------------------------------------------------------------
  // monitor_stream_health
  // ---------------------------------------------------------------------------

  /** What the stop-and-restart of the camera did: start_recording_with_recovery returned True,
    * returned False, or picam2.stop_recording raised. */
  datatype Recovery = Restarted | RestartFailed | RestartRaised

  /** One tick of the monitor: when it looked, the output's last frame time then, and what the
    * recovery would do if it runs. */
  datatype Check = Check(now: real, lastFrameTime: real, recovery: Recovery)

  /** A check that leaves the stream broken: unhealthy, and the restart did not succeed. */
  predicate Unrecovered(timeout: real, c: Check)
  {
    !Healthy(true, timeout, c.lastFrameTime, c.now) && c.recovery != Restarted
  }

  /** The number of unrecovered checks at the end of `cs`, back to the last healthy or recovered one. */
  function TrailingFailures(timeout: real, cs: seq<Check>): (k: nat)
    ensures k <= |cs|
  {
    if cs == [] then 0
    else if Unrecovered(timeout, cs[|cs| - 1]) then TrailingFailures(timeout, cs[..|cs| - 1]) + 1
    else 0
  }

  /** TrailingFailures is the length of the maximal run of unrecovered checks ending the sequence. */
  lemma {:induction false} TrailingFailuresIsRun(timeout: real, cs: seq<Check>)
    ensures var k := TrailingFailures(timeout, cs);
      (forall j :: |cs| - k <= j < |cs| ==> Unrecovered(timeout, cs[j])) &&
      (k < |cs| ==> !Unrecovered(timeout, cs[|cs| - k - 1]))
  {
    if cs != [] && Unrecovered(timeout, cs[|cs| - 1]) {
      var init := cs[..|cs| - 1];
      TrailingFailuresIsRun(timeout, init);
      var k := TrailingFailures(timeout, init);
      assert forall j :: |init| - k <= j < |init| ==> cs[j] == init[j];
    }
  }

  /** The critical message is logged on a check exactly when it makes three or more unrecovered
    * failures in a row; it then follows three consecutive unrecovered checks. */
  lemma AlertFollowsThreeFailures(timeout: real, cs: seq<Check>, i: nat)
    requires i < |cs| && TrailingFailures(timeout, cs[..i + 1]) >= 3
    ensures i >= 2
    ensures Unrecovered(timeout, cs[i]) && Unrecovered(timeout, cs[i - 1]) && Unrecovered(timeout, cs[i - 2])
  {
    var p := cs[..i + 1];
    TrailingFailuresIsRun(timeout, p);
    assert p[i] == cs[i] && p[i - 1] == cs[i - 1] && p[i - 2] == cs[i - 2];
  }

  /** The while loop of monitor_stream_health over the ticks it makes before the watchdog stops:
    * `failures` is the final consecutive_failures and `alerts[i]` says whether tick i logged the
    * critical "manual intervention" message. Reaching three failures only logs; the loop goes on. */
  method MonitorStreamHealth(watchdog: StreamWatchdog, checks: seq<Check>) returns (failures: nat, alerts: seq<bool>)
    ensures !watchdog.isRunning ==> failures == 0 && alerts == []
    ensures watchdog.isRunning ==>
      failures == TrailingFailures(watchdog.timeout, checks) && |alerts| == |checks| &&
      forall i :: 0 <= i < |checks| ==> (alerts[i] <==> TrailingFailures(watchdog.timeout, checks[..i + 1]) >= 3)
  {
    failures := 0;
    alerts := [];
    var i := 0;
    while i < |checks| && watchdog.isRunning
      invariant 0 <= i <= |checks|
      invariant !watchdog.isRunning ==> i == 0 && alerts == []
      invariant failures == TrailingFailures(watchdog.timeout, checks[..i])
      invariant |alerts| == i
      invariant forall j :: 0 <= j < i ==> (alerts[j] <==> TrailingFailures(watchdog.timeout, checks[..j + 1]) >= 3)
    {
      assert checks[..i + 1][..i] == checks[..i];
      var check := checks[i];
      var alert := false;
      if !watchdog.IsStreamHealthy(check.lastFrameTime, check.now) {
        failures := failures + 1;
        if check.recovery == Restarted {
          failures := 0;
        }
        if failures >= 3 {
          alert := true;
        }
      } else {
        if failures > 0 {
          failures := 0;
        }
      }
      alerts := alerts + [alert];
      i := i + 1;
    }
    if watchdog.isRunning {
      assert checks[..|checks|] == checks;
    }
  }

  // ---------------------------------------------------------------------------
  // run_stream_server
  // ---------------------------------------------------------------------------

  /** How one pass of the server loop ended: serve_forever returned, a KeyboardInterrupt, or any
    * other exception (camera, output, server start-up or serving). */
  datatype Attempt = Returned | Interrupted | Raised

  /** Why the loop left: the interrupt, the restart budget, or it is still going when the
    * given attempts run out. */
  datatype Exit = ShutdownSignal | TooManyRestarts | StillRunning

  const MaxRestarts: nat := 3

  /** Whether attempt `i` (0-based; restart_count is i + 1 during it) ends the loop. */
  predicate EndsLoop(attempts: seq<Attempt>, i: nat)
    requires i < |attempts|
  {
    attempts[i] == Interrupted || (attempts[i] == Raised && i + 1 >= MaxRestarts)
  }

  /** The while loop of run_stream_server: `restartCount` is the number of attempts begun. */
  method RunStreamServer(attempts: seq<Attempt>) returns (restartCount: nat, exit: Exit)
    ensures restartCount <= |attempts|
    ensures exit == StillRunning <==> forall i :: 0 <= i < |attempts| ==> !EndsLoop(attempts, i)
    ensures exit == StillRunning ==> restartCount == |attempts|
    ensures exit != StillRunning ==>
      restartCount > 0 && EndsLoop(attempts, restartCount - 1) &&
      forall i :: 0 <= i < restartCount - 1 ==> !EndsLoop(attempts, i)
    ensures exit == ShutdownSignal ==> attempts[restartCount - 1] == Interrupted
    ensures exit == TooManyRestarts ==> attempts[restartCount - 1] == Raised && restartCount >= MaxRestarts
  {
    restartCount := 0;
    exit := StillRunning;
    while restartCount < |attempts|
      invariant restartCount <= |attempts|
      invariant forall i :: 0 <= i < restartCount ==> !EndsLoop(attempts, i)
    {
      restartCount := restartCount + 1;
      match attempts[restartCount - 1]
      case Returned =>
      case Interrupted =>
        exit := ShutdownSignal;
        assert EndsLoop(attempts, restartCount - 1);
        return;
      case Raised =>
        if restartCount >= MaxRestarts {
          exit := TooManyRestarts;
          assert EndsLoop(attempts, restartCount - 1);
          return;
        }
    }
  }

  /** When every attempt raises, the supervisor makes exactly three attempts and gives up. */
  lemma {:induction false} AllFailuresGiveUpAfterThree(attempts: seq<Attempt>)
    requires |attempts| >= MaxRestarts
    requires forall i :: 0 <= i < |attempts| ==> attempts[i] == Raised
    ensures forall i :: 0 <= i < MaxRestarts - 1 ==> !EndsLoop(attempts, i)
    ensures EndsLoop(attempts, MaxRestarts - 1)
  {
  }
}
