# Activity monitor: the segment tracker, modelled in Dafny

The activity monitor watches which macOS application has focus and keeps a log
of `{app, time}` rows, one per stretch of time the user spent in one
application. This project models its core, the `AppMonitor` object of
`activity_monitor.py`, and proves what it does with the observations it gets.

- `log_activity` turns a stream of "which application is focused now"
  observations into rows. A repeat of the open application changes nothing.
  The first observation opens a segment. Any other change logs the open
  segment's application with the time since that segment was first observed,
  then opens a new segment.
- `output_log` and `stop` finalise the log. With an open segment they overwrite
  the time of the last row (which belongs to the previously closed segment) with
  the open segment's elapsed time, or append a row when the log is empty.
  `stop` then forgets the open segment and clears the monitoring flag.
- `start` only sets the monitoring flag.
- `format_duration` writes a second count as `H:MM:SS`, truncated to whole seconds.
- `get_active_app` reports the front application's name, the active tab's title
  for a browser, or `None` when a lookup failed.
- The log file is named `<base>_HH-MM-SS.csv` after the time of day.

Files, one module each:

- `wrappers.dfy`: `Option`, standing for Python's `None` or a value.
- `duration.dfy`: `FormatSeconds` (whole seconds) and `FormatDuration` (the
  float routine), and `ParseDuration`, which reads an `H:MM:SS` string back.
- `probe.dfy`: `ActiveApp`, the choice `get_active_app` makes over the results
  of the workspace query and the tab lookup.
- `log_path.dfy`: `CsvPath`, the file name `output_log` writes to.
- `activity_log.dfy`: the monitor's state as a value, each operation as a
  function of it, and the lemmas. The functions take the duration renderer as a
  parameter, so the lemmas about segments hold for any renderer. The object
  uses `FormatSeconds`. It also holds an independent reference: `Segments`
  groups the observations into maximal runs of one application, and
  `ExpectedLog` lists the rows those runs should produce.
- `activity_monitor.dfy`: the class `AppMonitor`. Its fields are updated in
  place by the methods. Each method's postcondition equates the new state with
  the matching `ActivityLog` function applied to the old state.

Three behaviours of the code are easy to misread, and the model keeps each:

- A failed probe gives `None`, not a placeholder application. A `None`
  observation closes the open segment, and the time spent under `None` is never
  logged (`FailedProbeGap`).
- `output_log` and `stop` re-time the last row, which names the previous application.
  Once the log is non-empty they never add a row for the still-open
  application (`FinaliseOverwritesLastRow`, `FinaliseKeepsApps`). For the
  session A at 0 s, A at 5 s, B at 10 s, stop at 15 s, the final log is
  `[{A, 0:00:05}]`: A's row carries B's time and B gets no row
  (`SessionExample`).
- `log_activity` itself never reads `monitoring`, and neither does any other
  code (`IgnoresMonitoring`). What ends logging after `stop` is that `stop`
  stops the input listeners (line 209), which the model leaves out. In the
  model, `LogActivity` after `Stop` still logs.

Every logged row names an application: `Entry.app` is a `string`, not an
`Option`. A row can only be built from an open segment's application, which the
methods must prove present.

## Model

| member | source | states |
|---|---|---|
| Duration.FormatSecondsRoundTrip | activity_monitor.py:134-137 | `H:MM:SS` output reads back as exactly the second count it was made from, for every integer, negative ones included |
| Duration.FormatSecondsFields | activity_monitor.py:134-137 | the output is hours, two-digit minutes and two-digit seconds; minutes and seconds are in 0..59, and hours*3600 + minutes*60 + seconds equals the input |
| Duration.FormatSecondsInjective | activity_monitor.py:134-137 | different second counts are rendered as different strings |
| Duration.FormatDurationTruncates | activity_monitor.py:134-137 | the float routine (floor `divmod`, `int` truncation) equals the whole-second routine applied to the floor of its input; sub-second parts are dropped, never rounded |
| Duration.FormatExamples | activity_monitor.py:134-137 | 3725 s gives "1:02:05", 59 s gives "0:00:59", 90.9 s gives "0:01:30", and 10 s and 5 s as used in the session example |
| Probe.ActiveApp | activity_monitor.py:69-93 | the result is `None` exactly when the workspace query failed or the front application is a browser whose tab lookup gave nothing; a non-browser is reported by name; a browser by its tab title |
| ActivityMonitor.AppMonitor.GetActiveApp | activity_monitor.py:69-81 | returns the application `ActiveApp` chooses, `None` exactly on the failure cases |
| LogPath.CsvPathDistinct | activity_monitor.py:148 | two outputs write the same file name exactly when they happen in the same second of the day |
| ActivityLog.LogActivity | activity_monitor.py:119-132 | `log_activity` keeps the invariant that an open segment has a start time, and leaves the monitoring flag alone |
| ActivityLog.OutputLog | activity_monitor.py:139-146 | `output_log` keeps the invariant and never changes the open segment or the flag |
| ActivityLog.Stop | activity_monitor.py:199-210 | `stop` keeps the invariant and leaves no open segment, no start time and monitoring off |
| ActivityLog.Start | activity_monitor.py:178-184 | `start` raises the flag and keeps the open segment, its start time and the log |
| ActivityLog.Run | activity_monitor.py:119-132 | any sequence of `log_activity` calls keeps the invariant and the flag |
| ActivityLog.DuplicateSuppressed | activity_monitor.py:123 | observing the open segment's application again, `None` after `None` included, changes nothing |
| ActivityLog.FirstObservation | activity_monitor.py:124-127 | with no open segment, a new application opens one starting now and logs no row |
| ActivityLog.SegmentClosed | activity_monitor.py:128-132 | a change of application appends exactly one row, naming the previous application, whose time reads back as the time since that segment opened; earlier rows are kept; the new segment opens now |
| ActivityLog.IgnoresMonitoring | activity_monitor.py:119-132 | `log_activity` acts the same whether or not monitoring is on |
| ActivityLog.FailedProbeGap | activity_monitor.py:119-132 | a `None` observation closes the open application's segment, and the next application opens a fresh segment; the `None` interval is never logged |
| ActivityLog.RunSameApp | activity_monitor.py:123 | any number of repeats of the open application leave the whole state unchanged |
| ActivityLog.SpanFromFirstObservation | activity_monitor.py:123-132 | after repeats, a change logs one row timed from the segment's first observation, not the last repeat |
| ActivityLog.SegmentsMaximal | activity_monitor.py:123 | the reference segments are maximal: neighbouring segments name different applications |
| ActivityLog.RunFollowsSegments | activity_monitor.py:119-132 | from any valid state, the rows appended are exactly those the maximal segments dictate (open segment first): one row per closed segment with an application, timed to the next segment's start; the run ends in the last segment |
| ActivityLog.FreshRunFollowsSegments | activity_monitor.py:119-132 | from a fresh monitor, the log is exactly the rows the maximal segments of the observations dictate |
| ActivityLog.RunAppendOnly | activity_monitor.py:130 | `log_activity` only appends: the old log is a prefix of the log after any run |
| ActivityLog.FinaliseOverwritesLastRow | activity_monitor.py:141-144 | with an open segment and a non-empty log, only the last row's time changes, to the open segment's elapsed time; its application, the other rows and the length stay |
| ActivityLog.FinaliseAppendsToEmptyLog | activity_monitor.py:145-146 | with an open segment and an empty log, exactly one row is added, for the open application, timed since its start |
| ActivityLog.OutputLogWithoutSegment | activity_monitor.py:141 | with no open segment, `output_log` changes nothing |
| ActivityLog.OutputLogTwice | activity_monitor.py:139-146 | outputting twice adds no row; the result is that of the second output alone |
| ActivityLog.OutputLogMonotone | activity_monitor.py:142-144 | a later output gives the last row a time that reads back no smaller |
| ActivityLog.FinaliseKeepsApps | activity_monitor.py:143-146 | once the log has rows, finalising leaves the sequence of logged applications unchanged; the open application is not added |
| ActivityLog.StopFinalises | activity_monitor.py:199-210 | `stop` leaves the log `output_log` would produce and otherwise the initial state |
| ActivityLog.StopThenStart | activity_monitor.py:199-210 | after `stop` and `start`, the first observed application opens a segment and logs nothing |
| ActivityLog.SessionRows | activity_monitor.py:119-210 | a session logs one row for A timed 10 s; `stop` re-times that row to B's 5 s and adds no row for B |
| ActivityLog.SessionExample | activity_monitor.py:119-210 | the same session with `format_duration`: `[{A, 0:00:10}]`, then `[{A, 0:00:05}]` after `stop` |
| ActivityMonitor.AppMonitor.constructor | activity_monitor.py:56-63 | a new monitor has no open segment, no start time, an empty log and monitoring off |
| ActivityMonitor.AppMonitor.LogActivity | activity_monitor.py:119-132 | the fields end as `ActivityLog.LogActivity` of the old state gives, for the probed application, with `format_duration` |
| ActivityMonitor.AppMonitor.OutputLog | activity_monitor.py:139-151 | the fields end as `ActivityLog.OutputLog` gives; the rows returned are the log; the path is `CsvPath` of the clock |
| ActivityMonitor.AppMonitor.Start | activity_monitor.py:178-184 | only the monitoring flag changes, to on |
| ActivityMonitor.AppMonitor.Stop | activity_monitor.py:199-210 | the fields end as `ActivityLog.Stop` of the old state gives |
| ActivityMonitor.Session | activity_monitor.py:119-210 | a session driven through the object leaves one row for the first application, re-timed by `stop` to the second application's 5 s |

## Left out

- The AppleScript runner and its `osascript` calls (lines 16-53) are foreign process I/O. The tab title comes in as an `Option<string>`.
- The workspace query `NSWorkspace.activeApplication()` (line 71) is a foreign macOS call. Its outcome comes in as `FrontApp`.
- `get_active_chrome_tab` and `get_active_vscode_file` (lines 95-117) are never called by the monitor.
- The input listeners and their callbacks (`on_press`, `on_click`, `on_scroll`, `key_listener`, `mouse_listener`, `_start_listeners`, `_stop_listeners`, lines 153-197) hook input devices on threads. A run of `log_activity` calls (`ActivityLog.Run`) stands for what they trigger. Because `stop` stops the listeners (lines 195-197, 209) and `start` creates new ones (lines 180, 187-189), the code makes no `log_activity` call between `stop` and the next `start`. The model does not capture this: any observation can follow `Stop`.
- The `KeyboardInterrupt` path of `start` (lines 182-184) depends on the listener threads.
- The UI class `AppMonitorUI`, the `info` status text and the `print` calls are presentation only.
- Writing the CSV file with pandas (lines 147, 151) is file I/O. `AppMonitor.OutputLog` returns the rows and the file name instead.
- The unused `current_app` field (line 58) is not modelled.
- The clock `datetime.now()` is a parameter counting whole seconds since local midnight of the first day. Microsecond resolution, daylight-saving shifts and float rounding of `total_seconds()` are not modelled. `Duration.FormatDurationTruncates` proves that the float routine on `x` gives the same text as the whole-second one on `floor(x)`. Because both clock readings are whole seconds, the model's elapsed time is `floor(now) - floor(start)`. The code formats `floor(now - start)`, and the two can differ by up to 1 s: start 0.7 s and now 10.2 s give `0:00:09` in the code and `0:00:10` in the model.
- `log_activity`, `output_log`, `stop` and `start` are modelled as atomic steps. The code calls them from the input-listener threads (lines 156-161, 171-176) and from the Tk UI thread (lines 221-223, 238-240) with no lock, and those interleavings are not modelled. For example, a `stop` between lines 123 and 124 leaves a segment reopened while `monitoring` is off. A `stop` between lines 124 and 129 makes `start_time` `None` and the subtraction raises `TypeError`.
- `LOG_FILE_PATH` depends on the user's home directory, so the base path is a parameter of `CsvPath`.
