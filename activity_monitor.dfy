/**
  `AppMonitor`: the object the UI drives. Its fields are updated in place by
  `log_activity`, `output_log`, `stop` and `start`; each method is proved to
  leave the object in the state the matching function of `ActivityLog` gives,
  with `format_duration` (`Duration.FormatSeconds`) writing the durations.

  The clock reading (`datetime.now()`, whole seconds since local midnight of
  the first day) and the probe results are parameters.
 */
module ActivityMonitor {
  import opened Wrappers
  import opened Duration
  import opened Probe
  import opened LogPath
  import Spec = ActivityLog

  class AppMonitor {
    var lastApp: Option<string>
    var startTime: Option<nat>
    var activityLog: seq<Spec.Entry>
    var monitoring: bool

    /** The monitor's fields as a value of the specification. */
    function State(): Spec.MonitorState
      reads this
    {
      Spec.MonitorState(lastApp, startTime, activityLog, monitoring)
    }

    ghost predicate Valid()
      reads this
    {
      Spec.Valid(State())
    }

    constructor ()
      ensures Valid()
      ensures State() == Spec.Initial()
    {
      lastApp := None;
      startTime := None;
      activityLog := [];
      monitoring := false;
    }

    /** The application `get_active_app` reports for the probe results. */
    method GetActiveApp(front: FrontApp, tabTitle: Option<string>) returns (app: Option<string>)
      ensures app == ActiveApp(front, tabTitle)
      ensures app.None? <==> front.QueryFailed? || (front.name in Browsers && tabTitle.None?)
    {
      match front {
        case QueryFailed =>
          app := None;
        case Front(name) =>
          app := Some(name);
          if name in Browsers {
            app := tabTitle;
          }
      }
    }

    /** `log_activity`: probe, then suppress a repeat, open a segment or close one. */
    method LogActivity(front: FrontApp, tabTitle: Option<string>, now: nat)
      requires Valid()
      modifies this
      ensures Valid()
      ensures State() == Spec.LogActivity(old(State()), ActiveApp(front, tabTitle), now, FormatSeconds)
    {
      var app := GetActiveApp(front, tabTitle);
      if app != lastApp {
        if lastApp.None? {
          lastApp := app;
          startTime := Some(now);
          return;
        }
        var activeTime := now - startTime.value;
        activityLog := activityLog + [Spec.Entry(lastApp.value, FormatSeconds(activeTime))];
        lastApp := app;
        startTime := Some(now);
      }
    }

    /**
      `output_log`: finalise the log (re-time its last row, or add the open
      segment's row to an empty log) and name the file it is written to. The
      rows handed to the writer are the log itself.
     */
    method OutputLog(base: string, now: nat) returns (rows: seq<Spec.Entry>, path: string)
      requires Valid()
      modifies this`activityLog
      ensures Valid()
      ensures State() == Spec.OutputLog(old(State()), now, FormatSeconds)
      ensures rows == activityLog
      ensures path == CsvPath(base, now)
    {
      if lastApp.Some? && startTime.Some? {
        var activeTime := now - startTime.value;
        if |activityLog| > 0 {
          var last := |activityLog| - 1;
          activityLog := activityLog[last := activityLog[last].(time := FormatSeconds(activeTime))];
        } else {
          activityLog := activityLog + [Spec.Entry(lastApp.value, FormatSeconds(activeTime))];
        }
      }
      rows := activityLog;
      path := CsvPath(base, now);
    }

    /** `start`: raise the monitoring flag; the open segment is left as it is. */
    method Start()
      requires Valid()
      modifies this`monitoring
      ensures Valid()
      ensures State() == Spec.Start(old(State()))
    {
      monitoring := true;
    }

    /** `stop`: finalise the log as `output_log` does, then forget the open segment. */
    method Stop(now: nat)
      requires Valid()
      modifies this
      ensures Valid()
      ensures State() == Spec.Stop(old(State()), now, FormatSeconds)
    {
      if lastApp.Some? && startTime.Some? {
        var activeTime := now - startTime.value;
        if |activityLog| > 0 {
          var last := |activityLog| - 1;
          activityLog := activityLog[last := activityLog[last].(time := FormatSeconds(activeTime))];
        } else {
          activityLog := activityLog + [Spec.Entry(lastApp.value, FormatSeconds(activeTime))];
        }
      }
      lastApp := None;
      startTime := None;
      monitoring := false;
    }
  }

  /**
    A session driven through the object: the first application logs nothing, a
    change logs the first one with its whole duration, and `stop` re-times that
    row instead of logging the second application.
   */
  method Session() returns (log: seq<Spec.Entry>)
    ensures log == [Spec.Entry("Mail", FormatSeconds(5))]
  {
    var monitor := new AppMonitor();
    monitor.Start();
    monitor.LogActivity(Front("Mail"), None, 0);
    assert monitor.lastApp == Some("Mail") && monitor.startTime == Some(0) && monitor.activityLog == [];
    monitor.LogActivity(Front("Mail"), None, 5);
    assert monitor.lastApp == Some("Mail") && monitor.startTime == Some(0) && monitor.activityLog == [];
    monitor.LogActivity(Front("Google Chrome"), Some("Docs"), 10);
    assert monitor.lastApp == Some("Docs") && monitor.startTime == Some(10);
    assert |monitor.activityLog| == 1 && monitor.activityLog[0].app == "Mail";
    monitor.Stop(15);
    log := monitor.activityLog;
  }
}
