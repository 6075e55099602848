/**
 * The application object (src/core/app.py) with its widgets abstracted
 * away: which page is shown, the timer record it shares with its
 * controllers, the configuration, and the controller of the timer last
 * started. The page handlers are the methods below.
 */
module App {
  import opened Text
  import opened State
  import opened Timer
  import Formatting

  class TaskPomodoroApp {
    var appState: AppState
    const timerState: TimerState
    var config: AppConfig
    var controller: TimerController?

    /**
     * A controller, once there is one, drives the application's own timer
     * record; the configured work ratio, which no handler changes, is positive.
     */
    predicate Valid()
      reads this
    {
      && config.workRatio > 0
      && (controller != null ==> controller.timerState == timerState)
    }

    /** __init__: the starting page, a cleared timer, the default configuration, no controller yet. */
    constructor ()
      ensures Valid()
      ensures appState == Starting && timerState.IsCleared()
      ensures config == DefaultConfig && controller == null
      ensures fresh(timerState)
    {
      timerState := new TimerState();
      config := DefaultConfig;
      controller := null;
      appState := Starting;
    }

    /** _show_starting_page: only the page changes. */
    method ShowStartingPage()
      modifies this`appState
      ensures appState == Starting
    {
      appState := Starting;
    }

    /** _toggle_always_on_top: records the option in the configuration. */
    method ToggleAlwaysOnTop(checked: bool)
      requires Valid()
      modifies this`config
      ensures Valid()
      ensures config == old(config).(alwaysOnTop := checked)
    {
      config := config.(alwaysOnTop := checked);
    }

    /**
     * _show_working_page: the working page with a cleared timer; a running
     * loop is asked to stop.
     */
    method ShowWorkingPage()
      requires Valid()
      modifies this`appState, timerState, controller
      ensures Valid()
      ensures appState == Working && timerState.IsCleared()
      ensures controller != null ==> controller.stopFlag && controller.loop == None
      ensures controller != null ==> controller.Trace == old(controller.Trace)
    {
      appState := Working;
      timerState.Reset();
      if controller != null {
        controller.Stop();
      }
    }

    /**
     * _show_resting_page: stops the work loop, shows the resting page and
     * seeds the rest from the work counted, under the configured rule; the
     * rest timer is left stopped until started.
     */
    method ShowRestingPage()
      requires Valid()
      modifies this`appState, timerState, controller
      ensures Valid()
      ensures appState == Resting
      ensures timerState.restSeconds == config.CalculateRestDuration(old(timerState.elapsedSeconds))
      ensures !timerState.isRunning && !timerState.isPaused
      ensures timerState.elapsedSeconds == old(timerState.elapsedSeconds)
      ensures timerState.lastHourNotified == old(timerState.lastHourNotified)
      ensures controller != null ==> controller.stopFlag && controller.loop == None
      ensures controller != null ==> controller.Trace == old(controller.Trace)
    {
      if controller != null {
        controller.Stop();
      }
      appState := Resting;
      timerState.restSeconds := config.CalculateRestDuration(timerState.elapsedSeconds);
      timerState.isRunning := false;
      timerState.isPaused := false;
    }

    /**
     * _start_work_timer: a new controller with on_tick only, whose work
     * loop starts. A controller it replaces is not stopped.
     */
    method StartWorkTimer()
      requires Valid()
      modifies this`controller, timerState
      ensures Valid() && controller != null && fresh(controller)
      ensures controller.hasOnTick && !controller.hasOnComplete && !controller.hasOnHour
      ensures controller.loop == Some(Work) && !controller.stopFlag && controller.Trace == []
      ensures timerState.isRunning && !timerState.isPaused && timerState.lastHourNotified == 0
      ensures timerState.elapsedSeconds == old(timerState.elapsedSeconds)
      ensures timerState.restSeconds == old(timerState.restSeconds)
    {
      var c := new TimerController(timerState, true, false, false);
      c.StartWorkTimer();
      controller := c;
    }

    /**
     * _start_rest_timer: a new controller with on_tick and on_complete,
     * whose rest loop starts. A controller it replaces is not stopped.
     */
    method StartRestTimer()
      requires Valid()
      modifies this`controller, timerState
      ensures Valid() && controller != null && fresh(controller)
      ensures controller.hasOnTick && controller.hasOnComplete && !controller.hasOnHour
      ensures controller.loop == Some(Rest) && !controller.stopFlag && controller.Trace == []
      ensures timerState.isRunning && !timerState.isPaused
      ensures timerState.elapsedSeconds == old(timerState.elapsedSeconds)
      ensures timerState.restSeconds == old(timerState.restSeconds)
      ensures timerState.lastHourNotified == old(timerState.lastHourNotified)
    {
      var c := new TimerController(timerState, true, true, false);
      c.StartRestTimer();
      controller := c;
    }

    /** _toggle_pause: flips the pause flag; nothing else in the timer or the page changes. */
    method TogglePause() returns (paused: bool)
      modifies timerState
      ensures paused == !old(timerState.isPaused) && timerState.isPaused == paused
      ensures timerState.isRunning == old(timerState.isRunning)
      ensures timerState.elapsedSeconds == old(timerState.elapsedSeconds)
      ensures timerState.restSeconds == old(timerState.restSeconds)
      ensures timerState.lastHourNotified == old(timerState.lastHourNotified)
    {
      paused := timerState.TogglePause();
    }

    /** _stop_and_reset: stops the loop, clears the timer and returns to the starting page. */
    method StopAndReset()
      requires Valid()
      modifies this`appState, timerState, controller
      ensures Valid()
      ensures appState == Starting && timerState.IsCleared()
      ensures controller != null ==> controller.stopFlag && controller.loop == None
      ensures controller != null ==> controller.Trace == old(controller.Trace)
    {
      if controller != null {
        controller.Stop();
      }
      timerState.Reset();
      ShowStartingPage();
    }

    /** _skip_resting: stops the loop, clears the timer and goes back to the working page. */
    method SkipResting()
      requires Valid()
      modifies this`appState, timerState, controller
      ensures Valid()
      ensures appState == Working && timerState.IsCleared()
      ensures controller != null ==> controller.stopFlag && controller.loop == None
      ensures controller != null ==> controller.Trace == old(controller.Trace)
    {
      if controller != null {
        controller.Stop();
      }
      timerState.Reset();
      ShowWorkingPage();
    }

    /** on_closing: stops the loop; the window itself is not modelled. */
    method OnClosing()
      requires Valid()
      modifies timerState, controller
      ensures Valid()
      ensures controller != null ==> controller.stopFlag && controller.loop == None
      ensures controller != null ==> controller.Trace == old(controller.Trace)
      ensures controller != null ==> !timerState.isRunning && !timerState.isPaused
      ensures controller == null ==>
        timerState.isRunning == old(timerState.isRunning) && timerState.isPaused == old(timerState.isPaused)
      ensures timerState.elapsedSeconds == old(timerState.elapsedSeconds)
      ensures timerState.restSeconds == old(timerState.restSeconds)
      ensures timerState.lastHourNotified == old(timerState.lastHourNotified)
    {
      if controller != null {
        controller.Stop();
      }
    }
  }

  /**
   * The first half of a session on a fresh application: the working page,
   * the work timer started and stopped by the owner after `workTicks`
   * seconds, then the resting page with the rest earned by that work.
   */
  method WorkPhase(workTicks: nat) returns (app: TaskPomodoroApp, ghost workEvents: seq<Event>)
    ensures fresh(app) && fresh(app.timerState) && app.Valid()
    ensures app.appState == Resting && app.config == DefaultConfig
    ensures app.timerState.restSeconds == DefaultConfig.CalculateRestDuration(workTicks)
    ensures !app.timerState.isRunning && !app.timerState.isPaused
    ensures workEvents == WorkRunEvents(0, 0, workTicks, false, true)
  {
    app := new TaskPomodoroApp();
    app.ShowWorkingPage();
    app.StartWorkTimer();
    var work := app.controller;
    work.RunWorkLoop(workTicks);
    assert app.timerState.elapsedSeconds == workTicks;
    workEvents := work.Trace;
    app.ShowRestingPage();
  }

  /**
   * A whole session on a fresh application: the work phase above, then the
   * rest timer started and stopped after `restTicks` seconds unless the
   * rest runs out first, in which case on_complete brings the working page
   * back. The rest earned is the configured rule applied to the work
   * counted; the rest ends at zero exactly when it was used up, and then
   * the working page is shown. The two controllers' traces are those of
   * the corresponding runs.
   */
  method Session(workTicks: nat, restTicks: nat)
      returns (earned: int, left: int, page: AppState, ghost workEvents: seq<Event>, ghost restEvents: seq<Event>)
    ensures workEvents == WorkRunEvents(0, 0, workTicks, false, true)
    ensures restEvents == RestRunEvents(earned, restTicks, true, true)
    ensures earned == DefaultConfig.CalculateRestDuration(workTicks)
    ensures 300 <= earned && earned % 60 == 0
    ensures 0 <= left <= earned && (left == 0 <==> earned <= restTicks)
    ensures page == (if earned <= restTicks then Working else Resting)
  {
    var app;
    app, workEvents := WorkPhase(workTicks);
    earned := app.timerState.restSeconds;
    assert earned == Formatting.CalculateRestDuration(workTicks, 5, 5, 25);
    app.StartRestTimer();
    var rest := app.controller;
    rest.RunRestLoop(restTicks);
    restEvents := rest.Trace;
    left := app.timerState.restSeconds;
    assert left == RestLeft(earned, restTicks);
    RestRunOutcome(earned, restTicks, true, true);
    if left == 0 {
      // on_complete: the rest loop asked the window to show the working page.
      app.ShowWorkingPage();
    }
    page := app.appState;
  }
}
