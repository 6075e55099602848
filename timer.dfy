/**
 * The ticking engine (src/core/timer.py). The background thread and its
 * one-second sleep are replaced by sequential loops; what the loops make
 * observable (notifications handed to send_notification and callbacks
 * invoked) is recorded, in order, in a ghost trace of events.
 */
module Timer {
  import opened Text
  import opened State
  import Notifications
  import Formatting

  /** The loop a controller's thread runs: counting work up or rest down. */
  datatype Mode = Work | Rest

  /** What a tick makes observable. */
  datatype Event =
    | HourlyNotice(hours: int)  // send_notification of NotificationMessages.hourly_update(hours)
    | RestNotice                // send_notification of NotificationMessages.rest_complete()
    | HourCallback(hours: int)  // on_hour(hours)
    | TickCallback              // on_tick()
    | CompleteCallback          // on_complete()

  /** The (title, message) pair a notice hands to send_notification; nothing for a callback. */
  function NoteOf(e: Event): seq<Notifications.Notification> {
    match e
    case HourlyNotice(hours) => [Notifications.HourlyUpdate(hours)]
    case RestNotice => [Notifications.RestComplete()]
    case _ => []
  }

  function Min(a: int, b: int): int {
    if a < b then a else b
  }

  // ---------------------------------------------------------------------
  // What runs of the loops produce
  // ---------------------------------------------------------------------

  /** The last hour reported after k work ticks from `elapsed`, starting from `last`. */
  function LastHourAfter(elapsed: int, last: int, k: nat): int {
    if k == 0 then last else Formatting.Max(last, (elapsed + k) / 3600)
  }

  /** One more tick raises the last reported hour to the hour it reaches, if that is higher. */
  lemma LastHourStep(elapsed: int, last: int, k: nat)
    ensures LastHourAfter(elapsed, last, k + 1)
         == Formatting.Max(LastHourAfter(elapsed, last, k), (elapsed + k + 1) / 3600)
  {
    if k > 0 {
      DivStep(elapsed + k);
    }
  }

  lemma DivStep(a: int)
    ensures a / 3600 <= (a + 1) / 3600 <= a / 3600 + 1
  {
  }

  /** The events of one work tick that counts the second after `elapsed`, `last` being the hour last reported. */
  function WorkTickEvents(elapsed: int, last: int, onHour: bool, onTick: bool): seq<Event> {
    var hour := (elapsed + 1) / 3600;
    (if hour > last then [HourlyNotice(hour)] + (if onHour then [HourCallback(hour)] else []) else [])
    + (if onTick then [TickCallback] else [])
  }

  /** The events of n work ticks from `elapsed` and `last`, tick after tick. */
  function WorkRunEvents(elapsed: int, last: int, n: nat, onHour: bool, onTick: bool): seq<Event>
    decreases n
  {
    if n == 0 then
      []
    else
      WorkRunEvents(elapsed, last, n - 1, onHour, onTick)
      + WorkTickEvents(elapsed + n - 1, LastHourAfter(elapsed, last, n - 1), onHour, onTick)
  }

  lemma WorkRunUnfold(elapsed: int, last: int, i: nat, onHour: bool, onTick: bool)
    ensures WorkRunEvents(elapsed, last, i + 1, onHour, onTick)
         == WorkRunEvents(elapsed, last, i, onHour, onTick)
          + WorkTickEvents(elapsed + i, LastHourAfter(elapsed, last, i), onHour, onTick)
  {
  }

  /** Appending the events of the next tick to a run of i ticks gives the run of i + 1 ticks. */
  lemma WorkRunStep(elapsed: int, last: int, i: nat, onHour: bool, onTick: bool,
                    trace0: seq<Event>, before: seq<Event>, e: int, l: int, after: seq<Event>)
    requires before == trace0 + WorkRunEvents(elapsed, last, i, onHour, onTick)
    requires e == elapsed + i && l == LastHourAfter(elapsed, last, i)
    requires after == before + WorkTickEvents(e, l, onHour, onTick)
    ensures after == trace0 + WorkRunEvents(elapsed, last, i + 1, onHour, onTick)
  {
    WorkRunUnfold(elapsed, last, i, onHour, onTick);
    AppendAssoc(trace0, WorkRunEvents(elapsed, last, i, onHour, onTick), WorkTickEvents(e, l, onHour, onTick));
  }

  lemma AppendAssoc(a: seq<Event>, b: seq<Event>, c: seq<Event>)
    ensures (a + b) + c == a + (b + c)
  {
  }

  /** k tick callbacks, or none when no on_tick was given. */
  function Ticks(k: nat, onTick: bool): seq<Event> {
    if onTick then seq(k, _ => TickCallback) else []
  }

  /** What a finished rest sends: the rest-complete notification, then on_complete if given. */
  function CompletionEvents(onComplete: bool): seq<Event> {
    [RestNotice] + (if onComplete then [CompleteCallback] else [])
  }

  /**
   * The events of a rest loop started with `rest` seconds left whose owner
   * asks it to stop after n ticks: nothing when no rest is left; otherwise
   * one on_tick per second counted and, once the rest reaches zero before
   * the stop, the completion events.
   */
  function RestRunEvents(rest: int, n: nat, onTick: bool, onComplete: bool): seq<Event> {
    if rest <= 0 then []
    else if n < rest then Ticks(n, onTick)
    else Ticks(rest, onTick) + CompletionEvents(onComplete)
  }

  /** The tick that uses the rest up closes the rest run. */
  lemma RestFinishStep(rest: int, i: nat, n: nat, onTick: bool, onComplete: bool,
                       trace0: seq<Event>, before: seq<Event>, after: seq<Event>)
    requires i + 1 == rest && i < n
    requires before == trace0 + Ticks(i, onTick)
    requires after == before + (if onTick then [TickCallback] else []) + CompletionEvents(onComplete)
    ensures after == trace0 + RestRunEvents(rest, n, onTick, onComplete)
  {
    var tick: seq<Event> := if onTick then [TickCallback] else [];
    assert Ticks(i + 1, onTick) == Ticks(i, onTick) + tick;
    assert after == trace0 + (Ticks(i, onTick) + tick) + CompletionEvents(onComplete);
  }

  /** The rest left after a rest run of n ticks from `rest`, the timer running unpaused. */
  function RestLeft(rest: int, n: nat): int {
    if rest <= 0 then rest else rest - Min(n, rest)
  }

  /** What each event contributes, concatenated in the order of the events. */
  function Collect<T>(f: Event -> seq<T>, events: seq<Event>): seq<T>
    decreases |events|
  {
    if events == [] then [] else Collect(f, events[..|events| - 1]) + f(events[|events| - 1])
  }

  /** The hour count an hourly notice names; nothing for any other event. */
  function HourOf(e: Event): seq<int> {
    if e.HourlyNotice? then [e.hours] else []
  }

  /** The hour counts named by the hourly notices, in order. */
  function HourNotices(events: seq<Event>): seq<int> {
    Collect(HourOf, events)
  }

  /** The notifications handed to send_notification, in order. */
  function Notes(events: seq<Event>): seq<Notifications.Notification> {
    Collect(NoteOf, events)
  }

  /** The number of occurrences of one event. */
  function CountOf(events: seq<Event>, x: Event): nat
    decreases |events|
  {
    if events == [] then 0
    else CountOf(events[..|events| - 1], x) + (if events[|events| - 1] == x then 1 else 0)
  }

  /** The hours after `lo` up to and including `hi`, in increasing order. */
  function HoursBetween(lo: int, hi: int): seq<int>
    decreases hi - lo
  {
    if hi <= lo then [] else HoursBetween(lo, hi - 1) + [hi]
  }

  /** The hourly updates for a sequence of hour counts. */
  function HourlyUpdates(hours: seq<int>): seq<Notifications.Notification>
    decreases |hours|
  {
    if hours == [] then []
    else HourlyUpdates(hours[..|hours| - 1]) + [Notifications.HourlyUpdate(hours[|hours| - 1])]
  }

  // ---------------------------------------------------------------------
  // Properties of the runs
  // ---------------------------------------------------------------------

  /** HoursBetween lists lo + 1, lo + 2, ..., hi, each once. */
  lemma {:induction false} HoursBetweenContents(lo: int, hi: int)
    ensures |HoursBetween(lo, hi)| == Formatting.Max(0, hi - lo)
    ensures forall k :: 0 <= k < |HoursBetween(lo, hi)| ==> HoursBetween(lo, hi)[k] == lo + 1 + k
    decreases hi - lo
  {
    if lo < hi {
      HoursBetweenContents(lo, hi - 1);
    }
  }

  lemma {:induction false} CollectAppend<T>(f: Event -> seq<T>, a: seq<Event>, b: seq<Event>)
    ensures Collect(f, a + b) == Collect(f, a) + Collect(f, b)
    decreases |b|
  {
    if b == [] {
      assert a + b == a;
    } else {
      var ab := a + b;
      assert ab[..|ab| - 1] == a + b[..|b| - 1];
      assert ab[|ab| - 1] == b[|b| - 1];
      CollectAppend(f, a, b[..|b| - 1]);
    }
  }

  lemma {:induction false} CountAppend(a: seq<Event>, b: seq<Event>, x: Event)
    ensures CountOf(a + b, x) == CountOf(a, x) + CountOf(b, x)
    decreases |b|
  {
    if b == [] {
      assert a + b == a;
    } else {
      var ab := a + b;
      assert ab[..|ab| - 1] == a + b[..|b| - 1];
      assert ab[|ab| - 1] == b[|b| - 1];
      CountAppend(a, b[..|b| - 1], x);
    }
  }

  lemma Single(e: Event, x: Event)
    ensures HourNotices([e]) == if e.HourlyNotice? then [e.hours] else []
    ensures Notes([e]) == NoteOf(e)
    ensures CountOf([e], x) == if e == x then 1 else 0
  {
    assert [e][..0] == [];
    assert HourNotices([e]) == HourNotices([]) + HourOf(e);
    assert Notes([e]) == Notes([]) + NoteOf(e);
  }

  /** A work tick names the hour it reaches exactly when that hour is past the last one reported. */
  lemma WorkTickNotices(elapsed: int, last: int, onHour: bool, onTick: bool)
    ensures var hour := (elapsed + 1) / 3600;
      HourNotices(WorkTickEvents(elapsed, last, onHour, onTick)) == if hour > last then [hour] else []
  {
    var hour := (elapsed + 1) / 3600;
    var cb: seq<Event> := if onHour then [HourCallback(hour)] else [];
    var sent: seq<Event> := if hour > last then [HourlyNotice(hour)] + cb else [];
    var tick: seq<Event> := if onTick then [TickCallback] else [];
    Single(HourCallback(hour), TickCallback);
    Single(TickCallback, TickCallback);
    CollectAppend(HourOf, sent, tick);
    assert HourNotices(tick) == [];
    if hour > last {
      Single(HourlyNotice(hour), TickCallback);
      CollectAppend(HourOf, [HourlyNotice(hour)], cb);
      assert HourNotices(sent) == [hour];
    }
  }

  /** A work tick calls on_tick once if given, and never sends the rest notice or calls on_complete. */
  lemma WorkTickCounts(elapsed: int, last: int, onHour: bool, onTick: bool, x: Event)
    requires x == TickCallback || x == RestNotice || x == CompleteCallback
    ensures CountOf(WorkTickEvents(elapsed, last, onHour, onTick), x) == if x == TickCallback && onTick then 1 else 0
  {
    var hour := (elapsed + 1) / 3600;
    var cb: seq<Event> := if onHour then [HourCallback(hour)] else [];
    var sent: seq<Event> := if hour > last then [HourlyNotice(hour)] + cb else [];
    var tick: seq<Event> := if onTick then [TickCallback] else [];
    Single(HourCallback(hour), x);
    Single(TickCallback, x);
    CountAppend(sent, tick, x);
    if hour > last {
      Single(HourlyNotice(hour), x);
      CountAppend([HourlyNotice(hour)], cb, x);
      assert CountOf(sent, x) == 0;
    }
  }

  /**
   * When the hour reached at the start has been reported, the last hour
   * reported after k ticks is the higher of the starting one and the hour
   * reached: it never goes down and never lags behind.
   */
  lemma LastHourClosedForm(elapsed: int, last: int, k: nat)
    requires elapsed / 3600 <= last
    ensures LastHourAfter(elapsed, last, k) == Formatting.Max(last, (elapsed + k) / 3600)
  {
  }

  /**
   * The hourly notices of a work run, when the hour reached at the start
   * has been reported: one per hour newly reached, in increasing order,
   * none repeated and none skipped, up to the last hour reported.
   */
  lemma {:induction false} WorkRunNotices(elapsed: int, last: int, n: nat, onHour: bool, onTick: bool)
    requires elapsed / 3600 <= last
    ensures HourNotices(WorkRunEvents(elapsed, last, n, onHour, onTick)) == HoursBetween(last, LastHourAfter(elapsed, last, n))
    decreases n
  {
    if n > 0 {
      var k := n - 1;
      var lh := LastHourAfter(elapsed, last, k);
      var run, tick := WorkRunEvents(elapsed, last, k, onHour, onTick), WorkTickEvents(elapsed + k, lh, onHour, onTick);
      var hour := (elapsed + k + 1) / 3600;
      WorkRunNotices(elapsed, last, k, onHour, onTick);
      WorkTickNotices(elapsed + k, lh, onHour, onTick);
      WorkRunUnfold(elapsed, last, k, onHour, onTick);
      LastHourStep(elapsed, last, k);
      LastHourClosedForm(elapsed, last, k);
      DivStep(elapsed + k);
      NoticesStep(run, tick, WorkRunEvents(elapsed, last, n, onHour, onTick), last, lh, hour);
    }
  }

  /** A tick that reaches at most one hour past the last reported extends the hours noticed by that hour. */
  lemma NoticesStep(run: seq<Event>, tick: seq<Event>, whole: seq<Event>, lo: int, lh: int, hour: int)
    requires whole == run + tick && lo <= lh && hour <= lh + 1
    requires HourNotices(run) == HoursBetween(lo, lh)
    requires HourNotices(tick) == if hour > lh then [hour] else []
    ensures HourNotices(whole) == HoursBetween(lo, Formatting.Max(lh, hour))
  {
    CollectAppend(HourOf, run, tick);
    if hour <= lh {
      assert HourNotices(whole) == HoursBetween(lo, lh) + [];
    }
  }

  /** A work run calls on_tick once per tick, and never sends the rest notice or calls on_complete. */
  lemma {:induction false} WorkRunCounts(elapsed: int, last: int, n: nat, onHour: bool, onTick: bool, x: Event)
    requires x == TickCallback || x == RestNotice || x == CompleteCallback
    ensures CountOf(WorkRunEvents(elapsed, last, n, onHour, onTick), x) == if x == TickCallback && onTick then n else 0
    decreases n
  {
    if n > 0 {
      var k := n - 1;
      var lh := LastHourAfter(elapsed, last, k);
      var run, tick := WorkRunEvents(elapsed, last, k, onHour, onTick), WorkTickEvents(elapsed + k, lh, onHour, onTick);
      WorkRunCounts(elapsed, last, k, onHour, onTick, x);
      WorkTickCounts(elapsed + k, lh, onHour, onTick, x);
      WorkRunUnfold(elapsed, last, k, onHour, onTick);
      CountAppend(run, tick, x);
    }
  }

  /** Without rest notices, the notifications sent are the hourly updates for the hours noticed. */
  lemma {:induction false} NotesOfHourlyNotices(events: seq<Event>)
    requires CountOf(events, RestNotice) == 0
    ensures Notes(events) == HourlyUpdates(HourNotices(events))
    decreases |events|
  {
    if events != [] {
      var init, last := events[..|events| - 1], events[|events| - 1];
      assert CountOf(init, RestNotice) == 0 && last != RestNotice;
      NotesOfHourlyNotices(init);
      var hs := HourNotices(init);
      if last.HourlyNotice? {
        assert HourNotices(events) == hs + [last.hours];
        assert (hs + [last.hours])[..|hs|] == hs;
      } else {
        assert HourNotices(events) == hs && Notes(events) == Notes(init);
      }
    }
  }

  /** Counting from zero, the hourly updates sent name hours 1, 2, ... up to the hours completed. */
  lemma FreshWorkNotices(n: nat, onHour: bool, onTick: bool)
    ensures HourNotices(WorkRunEvents(0, 0, n, onHour, onTick)) == seq(n / 3600, k => k + 1)
  {
    WorkRunNotices(0, 0, n, onHour, onTick);
    LastHourClosedForm(0, 0, n);
    HoursBetweenContents(0, n / 3600);
  }

  /** The first hour of work sends exactly one notification, the one-hour update, on its last second. */
  lemma FirstHourNotes(onHour: bool, onTick: bool)
    ensures Notes(WorkRunEvents(0, 0, 3599, onHour, onTick)) == []
    ensures Notes(WorkRunEvents(0, 0, 3600, onHour, onTick)) == [Notifications.HourlyUpdate(1)]
  {
    FreshWorkNotices(3599, onHour, onTick);
    FreshWorkNotices(3600, onHour, onTick);
    WorkRunCounts(0, 0, 3599, onHour, onTick, RestNotice);
    WorkRunCounts(0, 0, 3600, onHour, onTick, RestNotice);
    NotesOfHourlyNotices(WorkRunEvents(0, 0, 3599, onHour, onTick));
    NotesOfHourlyNotices(WorkRunEvents(0, 0, 3600, onHour, onTick));
    assert HourlyUpdates([1]) == [Notifications.HourlyUpdate(1)] by {
      assert [1][..0] == [];
    }
  }

  /** k on_tick calls send no notification. */
  lemma {:induction false} TicksNotes(k: nat, onTick: bool)
    ensures Notes(Ticks(k, onTick)) == []
    decreases k
  {
    if k > 0 && onTick {
      assert Ticks(k, onTick) == Ticks(k - 1, onTick) + [TickCallback];
      TicksNotes(k - 1, onTick);
      CollectAppend(NoteOf, Ticks(k - 1, onTick), [TickCallback]);
      Single(TickCallback, TickCallback);
    }
  }

  /** k on_tick calls: k tick callbacks when on_tick is given, and nothing else. */
  lemma {:induction false} TicksCount(k: nat, onTick: bool, x: Event)
    ensures CountOf(Ticks(k, onTick), x) == if x == TickCallback && onTick then k else 0
    decreases k
  {
    if k > 0 && onTick {
      assert Ticks(k, onTick) == Ticks(k - 1, onTick) + [TickCallback];
      TicksCount(k - 1, onTick, x);
      CountAppend(Ticks(k - 1, onTick), [TickCallback], x);
      Single(TickCallback, x);
    }
  }

  /** A finished rest: the rest-complete notification once, and on_complete once if given. */
  lemma CompletionTally(onComplete: bool, x: Event)
    ensures Notes(CompletionEvents(onComplete)) == [Notifications.RestComplete()]
    ensures CountOf(CompletionEvents(onComplete), x)
         == (if x == RestNotice || (x == CompleteCallback && onComplete) then 1 else 0)
  {
    var cb: seq<Event> := if onComplete then [CompleteCallback] else [];
    Single(RestNotice, x);
    Single(CompleteCallback, x);
    CollectAppend(NoteOf, [RestNotice], cb);
    CountAppend([RestNotice], cb, x);
  }

  /**
   * What a rest run makes observable: one on_tick per second counted; the
   * rest-complete notification, and on_complete, exactly once when the
   * rest ran out before the stop and never otherwise; and a rest that
   * started positive ends at zero exactly when it completed, never below.
   */
  lemma RestRunOutcome(rest: int, n: nat, onTick: bool, onComplete: bool)
    ensures var events := RestRunEvents(rest, n, onTick, onComplete);
      && Notes(events) == (if 0 < rest <= n then [Notifications.RestComplete()] else [])
      && CountOf(events, CompleteCallback) == (if onComplete && 0 < rest <= n then 1 else 0)
      && CountOf(events, TickCallback) == (if onTick && 0 < rest then Min(n, rest) else 0)
    ensures 0 <= rest ==> 0 <= RestLeft(rest, n) <= rest
    ensures 0 < rest ==> (RestLeft(rest, n) == 0 <==> rest <= n)
  {
    if 0 < rest {
      if n < rest {
        TicksNotes(n, onTick);
        TicksCount(n, onTick, CompleteCallback);
        TicksCount(n, onTick, TickCallback);
      } else {
        var ticks, done := Ticks(rest, onTick), CompletionEvents(onComplete);
        TicksNotes(rest, onTick);
        TicksCount(rest, onTick, CompleteCallback);
        TicksCount(rest, onTick, TickCallback);
        CompletionTally(onComplete, CompleteCallback);
        CompletionTally(onComplete, TickCallback);
        CollectAppend(NoteOf, ticks, done);
        CountAppend(ticks, done, CompleteCallback);
        CountAppend(ticks, done, TickCallback);
      }
    }
  }

  // ---------------------------------------------------------------------
  // The controller
  // ---------------------------------------------------------------------

  /**
   * TimerController: drives a TimerState it shares with its owner. Each
   * callback is either given or not; `loop` is the loop of the background
   * thread while that thread is alive.
   */
  class TimerController {
    const timerState: TimerState
    const hasOnTick: bool
    const hasOnComplete: bool
    const hasOnHour: bool
    var stopFlag: bool
    var loop: Option<Mode>
    ghost var Trace: seq<Event>

    constructor (timerState: TimerState, hasOnTick: bool, hasOnComplete: bool, hasOnHour: bool)
      ensures this.timerState == timerState
      ensures this.hasOnTick == hasOnTick && this.hasOnComplete == hasOnComplete && this.hasOnHour == hasOnHour
      ensures !stopFlag && loop == None && Trace == []
    {
      this.timerState := timerState;
      this.hasOnTick, this.hasOnComplete, this.hasOnHour := hasOnTick, hasOnComplete, hasOnHour;
      stopFlag := false;
      loop := None;
      Trace := [];
    }

    /** _stop: raises the stop flag; the loop sees it at its next check and its thread ends. */
    method StopLoop()
      modifies this`stopFlag, this`loop
      ensures stopFlag && loop == None
    {
      stopFlag := true;
      loop := None;
    }

    /** start_work_timer: ends any running loop, starts the timer with no hour reported, and launches the work loop. */
    method StartWorkTimer()
      modifies this`stopFlag, this`loop, timerState
      ensures timerState.isRunning && !timerState.isPaused && timerState.lastHourNotified == 0
      ensures timerState.elapsedSeconds == old(timerState.elapsedSeconds)
      ensures timerState.restSeconds == old(timerState.restSeconds)
      ensures !stopFlag && loop == Some(Work)
    {
      StopLoop();
      timerState.Start();
      timerState.lastHourNotified := 0;
      stopFlag := false;
      loop := Some(Work);
    }

    /** start_rest_timer: ends any running loop, starts the timer and launches the rest loop; no counter changes. */
    method StartRestTimer()
      modifies this`stopFlag, this`loop, timerState
      ensures timerState.isRunning && !timerState.isPaused
      ensures timerState.elapsedSeconds == old(timerState.elapsedSeconds)
      ensures timerState.restSeconds == old(timerState.restSeconds)
      ensures timerState.lastHourNotified == old(timerState.lastHourNotified)
      ensures !stopFlag && loop == Some(Rest)
    {
      StopLoop();
      timerState.Start();
      stopFlag := false;
      loop := Some(Rest);
    }

    /** stop: ends the loop, then marks the timer neither running nor paused; the counters stay. */
    method Stop()
      modifies this`stopFlag, this`loop, timerState
      ensures !timerState.isRunning && !timerState.isPaused
      ensures timerState.elapsedSeconds == old(timerState.elapsedSeconds)
      ensures timerState.restSeconds == old(timerState.restSeconds)
      ensures timerState.lastHourNotified == old(timerState.lastHourNotified)
      ensures stopFlag && loop == None
    {
      StopLoop();
      timerState.isRunning := false;
      timerState.isPaused := false;
    }

    /**
     * One pass of _work_loop's body. While the timer runs unpaused it counts
     * a second, reports a newly reached hour (notification, then on_hour),
     * then calls on_tick; otherwise it does nothing. The rest counter is
     * never touched.
     */
    method WorkTick()
      requires loop == Some(Work) && !stopFlag
      modifies this`Trace, timerState
      ensures timerState.isRunning == old(timerState.isRunning) && timerState.isPaused == old(timerState.isPaused)
      ensures timerState.restSeconds == old(timerState.restSeconds)
      ensures old(timerState.isRunning && !timerState.isPaused) ==>
        && timerState.elapsedSeconds == old(timerState.elapsedSeconds) + 1
        && timerState.lastHourNotified == Formatting.Max(old(timerState.lastHourNotified), timerState.elapsedSeconds / 3600)
        && Trace == old(Trace) + WorkTickEvents(old(timerState.elapsedSeconds), old(timerState.lastHourNotified), hasOnHour, hasOnTick)
      ensures !old(timerState.isRunning && !timerState.isPaused) ==>
        && timerState.elapsedSeconds == old(timerState.elapsedSeconds)
        && timerState.lastHourNotified == old(timerState.lastHourNotified)
        && Trace == old(Trace)
    {
      if timerState.isRunning && !timerState.isPaused {
        timerState.IncrementWork();
        var fire := timerState.ShouldNotifyHour();
        if fire {
          var hours := timerState.CurrentWorkHour();
          Trace := Trace + [HourlyNotice(hours)];
          if hasOnHour {
            Trace := Trace + [HourCallback(hours)];
          }
        }
        if hasOnTick {
          Trace := Trace + [TickCallback];
        }
      }
    }

    /**
     * One pass of _rest_loop's body, entered with rest left. While the timer
     * runs unpaused it counts a second down and calls on_tick; when that
     * used the rest up it sends the rest-complete notification, calls
     * on_complete and the loop returns (`finished`). Work counters are
     * never touched.
     */
    method RestTick() returns (finished: bool)
      requires loop == Some(Rest) && !stopFlag && timerState.restSeconds > 0
      modifies this`Trace, this`loop, timerState
      ensures timerState.isRunning == old(timerState.isRunning) && timerState.isPaused == old(timerState.isPaused)
      ensures timerState.elapsedSeconds == old(timerState.elapsedSeconds)
      ensures timerState.lastHourNotified == old(timerState.lastHourNotified)
      ensures old(timerState.isRunning && !timerState.isPaused) ==>
        && timerState.restSeconds == old(timerState.restSeconds) - 1
        && (finished <==> timerState.restSeconds == 0)
        && Trace == old(Trace) + (if hasOnTick then [TickCallback] else [])
                                + (if finished then CompletionEvents(hasOnComplete) else [])
      ensures !old(timerState.isRunning && !timerState.isPaused) ==>
        !finished && timerState.restSeconds == old(timerState.restSeconds) && Trace == old(Trace)
      ensures loop == if finished then None else old(loop)
    {
      finished := false;
      if timerState.isRunning && !timerState.isPaused {
        var isComplete := timerState.DecrementRest();
        if hasOnTick {
          Trace := Trace + [TickCallback];
        }
        if isComplete {
          Trace := Trace + [RestNotice];
          if hasOnComplete {
            Trace := Trace + [CompleteCallback];
          }
          finished := true;
          loop := None;
        }
      }
    }

    /**
     * _work_loop, run to its end. The owner's stop request reaches the
     * loop after n ticks (while it sleeps, or before its first check when
     * n is 0); no one else changes the timer meanwhile. Work seconds grow
     * by one per tick while the timer runs unpaused, and the events are
     * those of n work ticks.
     */
    method RunWorkLoop(n: nat)
      requires loop == Some(Work) && !stopFlag
      modifies this`Trace, this`stopFlag, this`loop, timerState
      ensures stopFlag && loop == None
      ensures timerState.isRunning == old(timerState.isRunning) && timerState.isPaused == old(timerState.isPaused)
      ensures timerState.restSeconds == old(timerState.restSeconds)
      ensures old(timerState.isRunning && !timerState.isPaused) ==>
        && timerState.elapsedSeconds == old(timerState.elapsedSeconds) + n
        && timerState.lastHourNotified == LastHourAfter(old(timerState.elapsedSeconds), old(timerState.lastHourNotified), n)
        && Trace == old(Trace) + WorkRunEvents(old(timerState.elapsedSeconds), old(timerState.lastHourNotified), n, hasOnHour, hasOnTick)
      ensures !old(timerState.isRunning && !timerState.isPaused) ==>
        && timerState.elapsedSeconds == old(timerState.elapsedSeconds)
        && timerState.lastHourNotified == old(timerState.lastHourNotified)
        && Trace == old(Trace)
    {
      ghost var active := timerState.isRunning && !timerState.isPaused;
      ghost var elapsed0, last0, trace0 := timerState.elapsedSeconds, timerState.lastHourNotified, Trace;
      if n == 0 {
        stopFlag := true;
      }
      var i := 0;
      while !stopFlag
        invariant 0 <= i <= n && (stopFlag <==> i == n)
        invariant loop == Some(Work)
        invariant timerState.isRunning == old(timerState.isRunning) && timerState.isPaused == old(timerState.isPaused)
        invariant timerState.restSeconds == old(timerState.restSeconds)
        invariant active ==>
          && timerState.elapsedSeconds == elapsed0 + i
          && timerState.lastHourNotified == LastHourAfter(elapsed0, last0, i)
          && Trace == trace0 + WorkRunEvents(elapsed0, last0, i, hasOnHour, hasOnTick)
        invariant !active ==>
          timerState.elapsedSeconds == elapsed0 && timerState.lastHourNotified == last0 && Trace == trace0
        decreases n - i
      {
        ghost var before, e, l := Trace, timerState.elapsedSeconds, timerState.lastHourNotified;
        WorkTick();
        if active {
          LastHourStep(elapsed0, last0, i);
          WorkRunStep(elapsed0, last0, i, hasOnHour, hasOnTick, trace0, before, e, l, Trace);
        }
        i := i + 1;
        if i == n {
          stopFlag := true;
        }
      }
      loop := None;
    }

    /**
     * _rest_loop, run to its end. It ticks while rest is left and no stop
     * has been requested; the owner's stop request reaches it after n ticks
     * (before its first check when n is 0). With the timer running unpaused
     * it counts the rest down to exactly zero when it completes and never
     * below; when no rest is left at the start it sends nothing.
     */
    method RunRestLoop(n: nat)
      requires loop == Some(Rest) && !stopFlag
      modifies this`Trace, this`stopFlag, this`loop, timerState
      ensures loop == None
      ensures timerState.isRunning == old(timerState.isRunning) && timerState.isPaused == old(timerState.isPaused)
      ensures timerState.elapsedSeconds == old(timerState.elapsedSeconds)
      ensures timerState.lastHourNotified == old(timerState.lastHourNotified)
      ensures old(timerState.isRunning && !timerState.isPaused) ==>
        && timerState.restSeconds == RestLeft(old(timerState.restSeconds), n)
        && Trace == old(Trace) + RestRunEvents(old(timerState.restSeconds), n, hasOnTick, hasOnComplete)
      ensures !old(timerState.isRunning && !timerState.isPaused) ==>
        timerState.restSeconds == old(timerState.restSeconds) && Trace == old(Trace)
      ensures old(timerState.restSeconds) > 0 ==>
        (stopFlag <==> !old(timerState.isRunning && !timerState.isPaused) || n < old(timerState.restSeconds))
      ensures old(timerState.restSeconds) <= 0 ==> (stopFlag <==> n == 0)
    {
      ghost var active := timerState.isRunning && !timerState.isPaused;
      ghost var rest0, trace0 := timerState.restSeconds, Trace;
      if n == 0 {
        stopFlag := true;
      }
      var i := 0;
      var finished := false;
      while !stopFlag && timerState.restSeconds > 0
        invariant 0 <= i <= n && (stopFlag <==> i == n)
        invariant loop == Some(Rest)
        invariant timerState.isRunning == old(timerState.isRunning) && timerState.isPaused == old(timerState.isPaused)
        invariant timerState.elapsedSeconds == old(timerState.elapsedSeconds)
        invariant timerState.lastHourNotified == old(timerState.lastHourNotified)
        invariant active && rest0 > 0 ==>
          i < rest0 && timerState.restSeconds == rest0 - i && Trace == trace0 + Ticks(i, hasOnTick)
        invariant !active || rest0 <= 0 ==> timerState.restSeconds == rest0 && Trace == trace0
        invariant rest0 <= 0 ==> i == 0
        decreases n - i
      {
        ghost var before := Trace;
        finished := RestTick();
        if finished {
          RestFinishStep(rest0, i, n, hasOnTick, hasOnComplete, trace0, before, Trace);
          break;
        }
        i := i + 1;
        if i == n {
          stopFlag := true;
        }
        assert active ==> Ticks(i, hasOnTick) == Ticks(i - 1, hasOnTick) + (if hasOnTick then [TickCallback] else []);
      }
      if active && rest0 > 0 && !finished {
        assert i == n && n < rest0;
      }
      loop := None;
    }
  }

  /** Stopping twice leaves the controller and the timer as stopping once does. */
  method StopTwice(c: TimerController)
    modifies c`stopFlag, c`loop, c.timerState
    ensures !c.timerState.isRunning && !c.timerState.isPaused
    ensures c.timerState.elapsedSeconds == old(c.timerState.elapsedSeconds)
    ensures c.timerState.restSeconds == old(c.timerState.restSeconds)
    ensures c.timerState.lastHourNotified == old(c.timerState.lastHourNotified)
    ensures c.stopFlag && c.loop == None
  {
    c.Stop();
    c.Stop();
  }
}
