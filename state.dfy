/**
 * Application state (src/core/state.py): the page the application shows,
 * the mutable timer record shared by the session and its ticking loop, and
 * the rest configuration.
 */
module State {
  import Formatting

  /** AppState: the page being shown. */
  datatype AppState = Starting | Working | Resting

  /**
   * TimerState: whether the timer counts and is paused, the work seconds
   * counted up, the rest seconds left, and the last whole hour of work a
   * milestone was reported for. Python integers are unbounded, like `int`.
   */
  class TimerState {
    var isRunning: bool
    var isPaused: bool
    var elapsedSeconds: int
    var restSeconds: int
    var lastHourNotified: int

    /** All flags false and all counters zero: the dataclass defaults, and what reset() restores. */
    predicate IsCleared()
      reads this
    {
      !isRunning && !isPaused && elapsedSeconds == 0 && restSeconds == 0 && lastHourNotified == 0
    }

    constructor ()
      ensures IsCleared()
    {
      isRunning, isPaused := false, false;
      elapsedSeconds, restSeconds, lastHourNotified := 0, 0, 0;
    }

    method Reset()
      modifies this
      ensures IsCleared()
    {
      isRunning := false;
      isPaused := false;
      elapsedSeconds := 0;
      restSeconds := 0;
      lastHourNotified := 0;
    }

    /** Counting on, not paused; the counters are left for the caller to set. */
    method Start()
      modifies this
      ensures isRunning && !isPaused
      ensures elapsedSeconds == old(elapsedSeconds) && restSeconds == old(restSeconds)
      ensures lastHourNotified == old(lastHourNotified)
    {
      isRunning := true;
      isPaused := false;
    }

    method Pause()
      modifies this
      ensures isPaused
      ensures isRunning == old(isRunning) && elapsedSeconds == old(elapsedSeconds)
      ensures restSeconds == old(restSeconds) && lastHourNotified == old(lastHourNotified)
    {
      isPaused := true;
    }

    method Resume()
      modifies this
      ensures !isPaused
      ensures isRunning == old(isRunning) && elapsedSeconds == old(elapsedSeconds)
      ensures restSeconds == old(restSeconds) && lastHourNotified == old(lastHourNotified)
    {
      isPaused := false;
    }

    /** Flips the pause flag and returns its new value; nothing else changes. */
    method TogglePause() returns (paused: bool)
      modifies this
      ensures paused == !old(isPaused) && isPaused == paused
      ensures isRunning == old(isRunning) && elapsedSeconds == old(elapsedSeconds)
      ensures restSeconds == old(restSeconds) && lastHourNotified == old(lastHourNotified)
    {
      isPaused := !isPaused;
      paused := isPaused;
    }

    /** One more second of work; nothing else changes. */
    method IncrementWork()
      modifies this
      ensures elapsedSeconds == old(elapsedSeconds) + 1
      ensures isRunning == old(isRunning) && isPaused == old(isPaused)
      ensures restSeconds == old(restSeconds) && lastHourNotified == old(lastHourNotified)
    {
      elapsedSeconds := elapsedSeconds + 1;
    }

    /** One second less of rest; reports whether the rest is used up. Nothing else changes. */
    method DecrementRest() returns (complete: bool)
      modifies this
      ensures restSeconds == old(restSeconds) - 1
      ensures complete <==> restSeconds <= 0
      ensures isRunning == old(isRunning) && isPaused == old(isPaused)
      ensures elapsedSeconds == old(elapsedSeconds) && lastHourNotified == old(lastHourNotified)
    {
      restSeconds := restSeconds - 1;
      complete := restSeconds <= 0;
    }

    /** current_work_hour: the number of whole hours of work counted so far. */
    function CurrentWorkHour(): (h: int)
      reads this
      ensures h * 3600 <= elapsedSeconds < (h + 1) * 3600
    {
      elapsedSeconds / 3600
    }

    /**
     * should_notify_hour, the hourly milestone edge detector: fires exactly
     * when the current hour is past the last one reported, and then records
     * it. Afterwards the current hour is reported, so an immediate second
     * call does not fire, and the recorded hour never goes down.
     */
    method ShouldNotifyHour() returns (fire: bool)
      modifies this
      ensures fire <==> CurrentWorkHour() > old(lastHourNotified)
      ensures lastHourNotified == if fire then CurrentWorkHour() else old(lastHourNotified)
      ensures old(lastHourNotified) <= lastHourNotified && CurrentWorkHour() <= lastHourNotified
      ensures isRunning == old(isRunning) && isPaused == old(isPaused)
      ensures elapsedSeconds == old(elapsedSeconds) && restSeconds == old(restSeconds)
    {
      var currentHour := CurrentWorkHour();
      if currentHour > lastHourNotified {
        lastHourNotified := currentHour;
        fire := true;
      } else {
        fire := false;
      }
    }
  }

  /**
   * Counts the seconds of a fresh timer one by one, checking for a
   * milestone after each: the check after the k-th second fires exactly
   * when k is a whole number of hours.
   */
  method HourlyChecks(n: nat) returns (fires: seq<bool>)
    ensures |fires| == n
    ensures forall k :: 0 <= k < n ==> (fires[k] <==> (k + 1) % 3600 == 0)
  {
    var t := new TimerState();
    fires := [];
    while |fires| < n
      invariant |fires| <= n
      invariant t.elapsedSeconds == |fires| && t.lastHourNotified == |fires| / 3600
      invariant forall k :: 0 <= k < |fires| ==> (fires[k] <==> (k + 1) % 3600 == 0)
    {
      t.IncrementWork();
      var fire := t.ShouldNotifyHour();
      fires := fires + [fire];
    }
  }

  /** In the first hour of counting exactly one check fires: the 3600th. */
  method FirstHourChecks() returns (fires: seq<bool>)
    ensures |fires| == 3600 && fires[3599]
    ensures forall k :: 0 <= k < 3599 ==> !fires[k]
  {
    fires := HourlyChecks(3600);
  }

  /** Calling the edge detector twice in a row: the second call never fires. */
  method CheckTwice(t: TimerState) returns (first: bool, second: bool)
    modifies t
    ensures !second
    ensures t.lastHourNotified >= old(t.lastHourNotified)
  {
    first := t.ShouldNotifyHour();
    second := t.ShouldNotifyHour();
  }

  /** Toggling the pause of a fresh timer n times yields true, false, true, ... */
  method PauseToggles(n: nat) returns (results: seq<bool>)
    ensures |results| == n
    ensures forall k :: 0 <= k < n ==> results[k] == (k % 2 == 0)
  {
    var t := new TimerState();
    results := [];
    while |results| < n
      invariant |results| <= n
      invariant t.isPaused == (|results| % 2 == 1)
      invariant forall k :: 0 <= k < |results| ==> results[k] == (k % 2 == 0)
    {
      var paused := t.TogglePause();
      results := results + [paused];
    }
  }

  /** Toggling the pause twice restores every field. */
  method ToggleTwice(t: TimerState)
    modifies t
    ensures t.isPaused == old(t.isPaused) && t.isRunning == old(t.isRunning)
    ensures t.elapsedSeconds == old(t.elapsedSeconds) && t.restSeconds == old(t.restSeconds)
    ensures t.lastHourNotified == old(t.lastHourNotified)
  {
    var _ := t.TogglePause();
    var _ := t.TogglePause();
  }

  /**
   * AppConfig: the window option and the rest rule's three numbers, with
   * the application's defaults. The calculation needs a positive work ratio.
   */
  datatype AppConfig = AppConfig(alwaysOnTop: bool, minRestMinutes: int, restRatio: int, workRatio: int)
  {
    /** AppConfig.calculate_rest_duration: the rest rule of the formatting module, with this configuration. */
    function CalculateRestDuration(workSeconds: int): (r: int)
      requires workRatio > 0
      ensures r == Formatting.CalculateRestDuration(workSeconds, minRestMinutes, restRatio, workRatio)
    {
      var workMinutes := workSeconds / 60;
      var restMinutes := (workMinutes / workRatio) * restRatio;
      var restMinutes := if workMinutes % workRatio > 0 then restMinutes + restRatio else restMinutes;
      Formatting.Max(minRestMinutes, restMinutes) * 60
    }
  }

  const DefaultConfig: AppConfig := AppConfig(false, 5, 5, 25)
}
