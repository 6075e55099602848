# TaskPomodoro timer engine in Dafny

A model of the timer engine of TaskPomodoro, a Pomodoro desktop application.
The Tk widgets and threads are left out. The model covers:

- **Duration arithmetic** (`formatting.dfy`, module `Formatting`):
  - the `HH:MM:SS` clock string and a reader for it;
  - the rest allowance a work session earns;
  - the "N hour(s)" phrase.
- **Shared timer record** (`state.dfy`, module `State`):
  - `TimerState` as a class whose methods update its five fields in place;
  - the hourly milestone edge detector;
  - `AppConfig` and its rest rule.
- **Timer controller** (`timer.dfy`, module `Timer`):
  - `TimerController` as a class with a stop flag and the loop its thread runs;
  - one method per pass of the work loop and the rest loop;
  - the two loops as `while` loops over ticks.
  - Everything the loops make observable is recorded in a ghost `Trace` of events: hourly and rest-complete notifications handed to `send_notification`, and the `on_hour`, `on_tick` and `on_complete` callbacks.
  - Each loop is proved against a specification function of its inputs: `WorkRunEvents` or `RestRunEvents`. Lemmas then count and order the notifications and callbacks these produce.
- **Application page handlers** (`app.dfy`, module `App`), with their effect on:
  - the page shown;
  - the shared timer record;
  - the configuration;
  - the current controller.
  - A whole work-then-rest session is also run end to end.
- **Notification texts** (`notifications.dfy`, module `Notifications`):
  - the three message templates;
  - the quoting applied before a title or message is placed in a PowerShell or AppleScript string literal.
- **String primitives** (`text.dfy`, module `Text`):
  - decimal rendering as Python's f-strings produce it, and its inverse;
  - `str.replace` for a one-character pattern.

Python integers are unbounded, so `int` models them without wrap-around. Python's `//` and `%` with a positive divisor agree with Dafny's, and every division in the core has a positive divisor.

## Model

| member | source | states |
|---|---|---|
| `Text.IntToString` | src/utils/formatting.py:71 | The rendering of `{n}` in an f-string: `-` before the digits of a negative number. Its contract is stated by `Text.IntToStringRoundTrip`. |
| `Text.IntToStringRoundTrip` | src/utils/formatting.py:71 | The decimal rendering of any integer reads back as that integer, so `{n}` in the message templates names `n` exactly. |
| `Text.Replace` | src/core/notifications.py:43-44 | `str.replace` with a one-character pattern: every occurrence replaced, left to right. `Text.ReplaceAppend` shows it distributes over concatenation, `Text.ReplaceAbsent` that it keeps a text without the character, and `Text.ReplaceLength` gives the new length. |
| `Formatting.Pad2` | src/utils/formatting.py:21 | `{n:02d}` is all digits and denotes `n`. It is at least two characters long, and exactly two when `n < 100`. From 10 on it is the plain decimal rendering of `n`, with no extra leading zero. |
| `Formatting.FormatDuration` | src/utils/formatting.py:18-21 | The result is laid out as hours, ':', two-digit minutes, ':', two-digit seconds. The fields denote `seconds // 3600`, `(seconds % 3600) // 60` (below 60) and `seconds % 60`. The hour field is `{hours:02d}` of the hours, so it widens past 99 hours instead of wrapping and carries no extra leading zero. The string has length 8 exactly when `seconds < 360000`. |
| `Formatting.FormatDurationRoundTrip` | src/utils/formatting.py:18-21 | Reading a formatted duration back as h * 3600 + m * 60 + s recovers the second count. |
| `Formatting.ClockArithmetic` | src/utils/formatting.py:18-20 | The three fields recombine into the original second count. |
| `Formatting.ClockOfSmall` | src/utils/formatting.py:18-21 | Below 100 hours the clock string is exactly the eight characters HH:MM:SS of the two decimal digits of each field. |
| `Formatting.FormatDurationExamples` | tests/test_formatting.py:10-17 | 0, 45 and 125 seconds render as "00:00:00", "00:00:45" and "00:02:05". |
| `Formatting.FormatDurationHourExamples` | tests/test_formatting.py:19-23 | 3661 and 36000 seconds render as "01:01:01" and "10:00:00". |
| `Formatting.CalculateRestDuration` | src/utils/formatting.py:44-56 | The rest allowance is a whole number of minutes in seconds, and never below the minimum rest. |
| `Formatting.RestDurationIsCeiling` | src/utils/formatting.py:44-56 | The allowance is max(minimum, ceil(whole work minutes / work_ratio) * rest_ratio) minutes, so a partial block earns a full one. |
| `Formatting.CeilBlocks` | src/utils/formatting.py:47-51 | The count of started blocks is the ceiling of minutes / block size. |
| `Formatting.RestIgnoresLeftoverSeconds` | src/utils/formatting.py:44 | Seconds beyond the last whole minute of work earn nothing. |
| `Formatting.RestDurationMonotone` | src/utils/formatting.py:44-56 | More work never earns less rest, for a non-negative rest_ratio. |
| `Formatting.RestDurationExamples` | tests/test_formatting.py:29-47 | With the defaults 5, 5 and 25: 0, 600 and 1500 s of work give 300 s of rest; 3000 and 1800 s give 600 s. |
| `Formatting.FormatHoursText` | src/utils/formatting.py:69-71 | The "N hour(s)" phrase. Its contract is stated by `Formatting.HoursTextIsFString` and `Formatting.HoursTextRoundTrip`. |
| `Formatting.HoursTextIsFString` | src/utils/formatting.py:69-71 | The phrase is the decimal rendering of the count followed by " hour" for 1 and " hours" otherwise, so the special case for 1 agrees with the general f-string. |
| `Formatting.HoursTextRoundTrip` | src/utils/formatting.py:69-71 | The phrase reads back as its hour count, and ends in " hours" for every count but 1. |
| `Notifications.HourlyUpdate` | src/core/notifications.py:128-134 | The hourly title and message. Its contract is stated by `Notifications.HourlyMessageUsesHoursText` and `Notifications.HourlyUpdateNamesHours`. |
| `Notifications.WorkSessionComplete` | src/core/notifications.py:145-150 | The work-session title and message. Its contract is stated by `Notifications.WorkSessionNamesMinutes`. |
| `Notifications.RestComplete` | src/core/notifications.py:137-142 | The rest-complete pair is one fixed pair, different from every hourly update. |
| `Notifications.HourlyMessageUsesHoursText` | src/core/notifications.py:128-134 | The hourly message is the phrase of format_hours_text between a fixed lead and a fixed tail. It says "hour" for 1 and "hours" otherwise. |
| `Notifications.HourlyUpdateNamesHours` | src/core/notifications.py:128-134 | An hourly update always has the work-update title, and its message reads back as its hour count. The message ends in " hours" followed by the fixed tail exactly when the count is not 1. |
| `Notifications.WorkSessionNamesMinutes` | src/core/notifications.py:145-150 | The work-session message has the fixed title and reads back as its minute count. |
| `Notifications.EscapeWindows` | src/core/notifications.py:43-44 | The two chained replacements, as written. Its contract is stated by `Notifications.EscapeWindowsPerChar`, `Notifications.EscapeWindowsRoundTrip`, `Notifications.EscapeWindowsShowsDoubledApostrophe`, `Notifications.EscapeWindowsLeavesDollar` and `Notifications.EscapeWindowsEndsAtTypographicQuote`. |
| `Notifications.EscapeWindowsPerChar` | src/core/notifications.py:43-44 | The two chained replacements act character by character: every `'` doubled, every `"` becomes `` `" ``, every other character kept, all in their original order. |
| `Notifications.EscapeWindowsNoLeadingQuote` | src/core/notifications.py:43-44 | Quoted Windows text never starts with a bare `"`. |
| `Notifications.EscapeWindowsRoundTrip` | src/core/notifications.py:43-44 | The Windows quoting loses nothing: reading `''` as `'` and `` `" `` as `"` gives back the original text. |
| `Notifications.EscapeWindowsShowsDoubledApostrophe` | src/core/notifications.py:43-44 | As written, a PowerShell double-quoted literal shows "It's" as "It''s". |
| `Notifications.EscapeWindowsLeavesDollar` | src/core/notifications.py:43-44 | As written, "$5" is passed through with its `$` unquoted, and the literal is not read as the text. |
| `Notifications.EscapeWindowsEndsAtTypographicQuote` | src/core/notifications.py:43-44 | As written, the typographic quote U+201C in "a“b" is passed through unquoted, and PowerShell ends the literal there, so the literal is not read as the text. |
| `Notifications.EscapeWindowsFixedRoundTrip` | src/core/notifications.py:43-44 | The corrected quoting puts a backtick before every backtick, `$` and double quote, the typographic quotes U+201C, U+201D and U+201E included, and keeps every other character. PowerShell then reads every text back exactly. |
| `Notifications.EscapeMacos` | src/core/notifications.py:92-93 | The single replacement, as written. Its contract is stated by `Notifications.EscapeMacosLength`, `Notifications.EscapeMacosRoundTrip` and `Notifications.EscapeMacosBreaksOnBackslash`. |
| `Notifications.EscapeMacosLength` | src/core/notifications.py:92-93 | The macOS quoting adds exactly one character per `"`. |
| `Notifications.EscapeMacosRoundTrip` | src/core/notifications.py:92-93 | The macOS quoting can be undone exactly: `\"` reads back as `"`. |
| `Notifications.EscapeMacosBreaksOnBackslash` | src/core/notifications.py:92-93 | As written, "C:\" is passed through unchanged. Its final backslash then escapes the closing quote of the AppleScript literal. |
| `Notifications.EscapeMacosFixedPerChar` | src/core/notifications.py:92-93 | The corrected quoting acts character by character: a backslash goes before every backslash and every `"`. |
| `Notifications.EscapeMacosFixedRoundTrip` | src/core/notifications.py:92-93 | With backslashes quoted too, AppleScript reads every text back exactly. |
| `State.TimerState.constructor` | src/core/state.py:34-38 | A new record is cleared: both flags false and all three counters 0. |
| `State.TimerState.Reset` | src/core/state.py:40-46 | After reset both flags are false and all three counters are 0. |
| `State.TimerState.Start` | src/core/state.py:48-51 | Running and not paused; the three counters are unchanged. |
| `State.TimerState.Pause` | src/core/state.py:53-55 | Paused; every other field is unchanged. |
| `State.TimerState.Resume` | src/core/state.py:57-59 | Not paused; every other field is unchanged. |
| `State.TimerState.TogglePause` | src/core/state.py:61-64 | Returns the new pause flag, the negation of the old one; nothing else changes. |
| `State.TimerState.IncrementWork` | src/core/state.py:66-68 | Work seconds go up by exactly one; no other field changes. |
| `State.TimerState.DecrementRest` | src/core/state.py:70-73 | Rest seconds go down by exactly one. The result is true iff the new count is at most 0. No other field changes. |
| `State.TimerState.CurrentWorkHour` | src/core/state.py:75-78 | The whole hours of work counted: h * 3600 <= elapsed < (h + 1) * 3600. |
| `State.TimerState.ShouldNotifyHour` | src/core/state.py:80-86 | Fires iff the current hour is past the last reported one, and then records it. The recorded hour never goes down and afterwards is at least the current hour. Only that field may change. |
| `State.CheckTwice` | src/core/state.py:80-86 | A second check right after a first never fires. |
| `State.HourlyChecks` | src/core/state.py:66-86 | Counting a fresh timer up second by second with a check after each, the check after the k-th second fires iff k is a whole number of hours. |
| `State.FirstHourChecks` | src/core/state.py:66-86 | Of the first 3600 checks, exactly one fires: the 3600th. |
| `State.PauseToggles` | src/core/state.py:61-64 | Toggling a fresh timer's pause repeatedly yields true, false, true, ... |
| `State.ToggleTwice` | src/core/state.py:61-64 | Two toggles in a row restore every field. |
| `State.AppConfig.CalculateRestDuration` | src/core/state.py:106-112 | The configuration's rest rule equals the formatting module's rule with the configured minimum and ratios. |
| `Timer.NoteOf` | src/core/timer.py:87-88 | The notification an event hands to send_notification: the hourly update for an hourly notice, the rest-complete pair for the rest notice (lines 108-109), none for a callback. `Timer.NotesOfHourlyNotices`, `Timer.FirstHourNotes`, `Timer.CompletionTally` and `Timer.RestRunOutcome` state what the runs send. |
| `Timer.LastHourStep` | src/core/state.py:80-86 | One more work tick raises the last reported hour to the hour reached, if that is higher. |
| `Timer.LastHourClosedForm` | src/core/timer.py:85 | When the starting hour has been reported, the last reported hour after k ticks is the higher of the starting one and the hour reached. |
| `Timer.WorkTickNotices` | src/core/timer.py:84-91 | A work tick sends the hourly notice for the hour it reaches exactly when that hour is past the last one reported. |
| `Timer.WorkTickCounts` | src/core/timer.py:81-94 | A work tick calls on_tick once if given. It never sends the rest notice and never calls on_complete. |
| `Timer.WorkRunNotices` | src/core/timer.py:78-96 | When the hour reached at the start has been reported, the hourly notices of a work run name each hour newly reached exactly once, in increasing order, skipping none, up to the last hour reported. |
| `Timer.WorkRunCounts` | src/core/timer.py:78-96 | A work run of n ticks calls on_tick n times if given. It never sends the rest notice and never calls on_complete. |
| `Timer.NotesOfHourlyNotices` | src/core/timer.py:85-88 | Without rest notices, the notifications sent are the hourly updates for the hours noticed, in order. |
| `Timer.FreshWorkNotices` | src/core/timer.py:78-96 | From a fresh start, n ticks notice hours 1, 2, ..., n // 3600. |
| `Timer.FirstHourNotes` | src/core/timer.py:78-96 | The first 3599 seconds of work send nothing; the 3600th sends the single update for one hour. |
| `Timer.TicksNotes` | src/core/timer.py:104-105 | Tick callbacks alone send no notification. |
| `Timer.TicksCount` | src/core/timer.py:104-105 | k rest ticks call on_tick k times if given, and nothing else. |
| `Timer.CompletionTally` | src/core/timer.py:107-112 | A completed rest sends the rest-complete notification once and calls on_complete once if given. |
| `Timer.RestRunOutcome` | src/core/timer.py:98-115 | A rest run calls on_tick once per second counted. It sends the rest-complete notification, and calls on_complete, exactly once if the rest ran out before the stop, and never otherwise. A rest starting at n >= 0 stays within 0..n, and a positive rest ends at 0 exactly when it completed. |
| `Timer.TimerController.constructor` | src/core/timer.py:23-45 | A new controller shares the given timer record and keeps which callbacks were given. No loop runs yet and no stop is requested. |
| `Timer.TimerController.StopLoop` | src/core/timer.py:72-76 | The stop flag is raised and no loop runs. |
| `Timer.TimerController.StartWorkTimer` | src/core/timer.py:47-55 | Running, not paused, no hour reported yet; work and rest seconds unchanged; the work loop runs with the stop flag clear. |
| `Timer.TimerController.StartRestTimer` | src/core/timer.py:57-64 | Running and not paused, with all three counters unchanged. The rest loop runs with the stop flag clear. |
| `Timer.TimerController.Stop` | src/core/timer.py:66-76 | No loop runs; the timer is neither running nor paused; the counters are unchanged. |
| `Timer.StopTwice` | src/core/timer.py:66-76 | Stopping twice ends in the same state as stopping once. |
| `Timer.TimerController.WorkTick` | src/core/timer.py:80-94 | Running unpaused: work seconds +1 and the last hour raised to the hour reached. Events in order: the hourly notice (and on_hour if given) when a new hour is reached, then on_tick if given. Paused or stopped: no field changes and no event. Rest seconds are never touched. |
| `Timer.TimerController.RestTick` | src/core/timer.py:100-113 | Running unpaused: rest seconds -1, then on_tick if given. When that reaches 0: the rest-complete notice, on_complete if given, and the loop ends. Paused or stopped: nothing changes. Work seconds and the last hour are never touched. |
| `Timer.TimerController.RunWorkLoop` | src/core/timer.py:78-96 | Stopped after n ticks, running unpaused: work seconds grow by n. The last reported hour is the one reached, and the trace grows by exactly the events of n work ticks. Paused or stopped: nothing changes. Rest seconds are never touched. |
| `Timer.TimerController.RunRestLoop` | src/core/timer.py:98-115 | Running unpaused: the rest left is the rest minus the ticks counted, never below 0, and the trace grows by exactly the events of the rest run. A rest starting at 0 or below sends nothing. With rest left, the stop flag ends up raised exactly when the owner's stop came first (or the timer was idle), and clear when the rest ran out. Work seconds and the last hour are never touched. |
| `App.TaskPomodoroApp.constructor` | src/core/app.py:61-74 | The application starts on the starting page with a cleared timer, the default configuration and no controller. |
| `App.TaskPomodoroApp.ShowStartingPage` | src/core/app.py:110-113 | The starting page is shown. |
| `App.TaskPomodoroApp.ToggleAlwaysOnTop` | src/core/app.py:89-91 | Only the always-on-top option of the configuration changes, to the value given. |
| `App.TaskPomodoroApp.ShowWorkingPage` | src/core/app.py:121-129 | The working page is shown with a fully reset timer, and any controller is stopped without adding to its trace. |
| `App.TaskPomodoroApp.ShowRestingPage` | src/core/app.py:141-155 | The resting page is shown. The rest seconds are the configured rule applied to the work seconds. The timer is neither running nor paused, the work seconds and last hour are unchanged, and any controller is stopped without adding to its trace. |
| `App.TaskPomodoroApp.StartWorkTimer` | src/core/app.py:171-177 | A new controller with on_tick only drives the application's timer. Its work loop runs, the timer runs unpaused with no hour reported, and the counters are unchanged. |
| `App.TaskPomodoroApp.StartRestTimer` | src/core/app.py:182-189 | A new controller with on_tick and on_complete drives the application's timer. Its rest loop runs, the timer runs unpaused, and the counters are unchanged. |
| `App.TaskPomodoroApp.TogglePause` | src/core/app.py:194-196 | The pause flag flips and the new value is returned; nothing else in the timer changes. |
| `App.TaskPomodoroApp.StopAndReset` | src/core/app.py:205-210 | Any controller is stopped without adding to its trace, the timer is fully reset, and the starting page is shown. |
| `App.TaskPomodoroApp.SkipResting` | src/core/app.py:212-217 | Any controller is stopped without adding to its trace, the timer is fully reset, and the working page is shown. |
| `App.TaskPomodoroApp.OnClosing` | src/core/app.py:219-222 | Any controller is stopped without adding to its trace, and the timer is then neither running nor paused. With no controller the flags are untouched. The three counters are always kept. |
| `App.WorkPhase` | src/core/app.py:121-177 | Working page, work timer run for n seconds, then the resting page: the rest earned is the default rule applied to n, and the trace is that of n work ticks with on_tick only. |
| `App.Session` | src/core/app.py:141-189 | A full session earns a rest of at least 5 minutes, a whole number of minutes, equal to the default rule. The rest left is 0 exactly when it was used up, in which case the working page is back; otherwise the resting page stays. Both traces are those of the corresponding runs. |

## Left out

- Threads, `time.sleep(1)`, `join(timeout=1.0)` and the `is_running` property, which tests whether the thread is alive: the loops run sequentially. The owner's stop request is modelled as arriving after a given number of ticks.
- Timer.TimerController.RunWorkLoop: no other party changes the timer during a run, so a pause or resume in the middle of a run is not modelled. A run is either all active or all idle.
- Timer.TimerController.RunRestLoop: likewise, pausing during a rest run is not modelled.
- `send_notification`, the three platform senders and the fallback to win10toast: subprocess calls outside the model. A notification is an event in the trace; the text it carries is given by `NoteOf`. The Linux sender passes the texts unchanged.
- Notifications.EscapeWindowsRoundTrip: it shows only that the Windows quoting loses no information. How PowerShell reads the literal is `PowerShellText`, under "Findings".
- `PowerShellText` and `AppleScriptText` cover only the escape sequences the quoting can produce or needs. Other sequences read as None.
- Notifications.PowerShellText: every unquoted `$` reads as None, although PowerShell keeps a `$` before a space or at the end of the literal as it is. U+201C, U+201D and U+201E count as double quotes, as they do in PowerShell.
- The Tk widgets, the pages, `_create_bottom_bar`, `_clear_page`, `show_toast`, `_update_display`, the icon and the window attributes.
- `after(0, ...)` marshalling: on_complete of the rest controller is modelled as showing the working page right after the rest loop ends.
- The `current_page` field is not modelled.
- `on_hour` is never passed by the application; the controller still models it as an optional callback.
- `work_session_complete` has no caller in the application. Its text is modelled, not its use.
- Formatting.FormatDuration: takes a natural number; negative second counts are excluded.
- Formatting.CalculateRestDuration: requires a positive work ratio. A zero ratio raises ZeroDivisionError in Python.
- `Valid`, on the application, states that a controller drives the application's own timer record and that the configured work ratio is positive, as it is for the only configuration the application uses. Every handler keeps it, and the handlers that stop the controller or compute the rest require it.

## Findings

| source | as written | input that shows it | evidently intended | confidence | as-written member | corrected member |
|---|---|---|---|---|---|---|
| src/core/notifications.py:92-93 | only `"` is quoted before the text goes into an AppleScript string literal | a title or message ending in a backslash, such as "C:\" | the text shown is exactly the text given | not executed | `Notifications.EscapeMacosBreaksOnBackslash` | `Notifications.EscapeMacosFixedRoundTrip` |
| src/core/notifications.py:43-44 | `'` is doubled and `"` gets a backtick, but the text goes into a double-quoted PowerShell literal | "It's" shows as "It''s" | the text shown is exactly the text given | not executed | `Notifications.EscapeWindowsShowsDoubledApostrophe` | `Notifications.EscapeWindowsFixedRoundTrip` |
| src/core/notifications.py:43-44 | `$` is not quoted, but the text goes into a double-quoted PowerShell literal, where `$` starts a variable reference | "$5" | the text shown is exactly the text given | not executed | `Notifications.EscapeWindowsLeavesDollar` | `Notifications.EscapeWindowsFixedRoundTrip` |
| src/core/notifications.py:43-44 | typographic double quotes (U+201C, U+201D, U+201E), which PowerShell also takes as double quotes, are left unquoted | "a“b" | the text shown is exactly the text given | not executed | `Notifications.EscapeWindowsEndsAtTypographicQuote` | `Notifications.EscapeWindowsFixedRoundTrip` |

The application's own notification texts contain no apostrophe, backslash, `$` or typographic quote, so none of these findings shows up in the messages it sends itself.
