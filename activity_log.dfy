/**
  The segment-tracking state of `AppMonitor` as a value, and the effect of each
  operation on it as a function. The class in `ActivityMonitor` is proved to
  follow these functions; the lemmas here state what they guarantee.

  The state is the open segment (`lastApp`, `startTime`), the list of logged rows
  and the `monitoring` flag. A row's application is a `string`, never `None`:
  appending a row for an absent application does not type-check, so "every
  logged row names an application" holds by construction.
 */
module ActivityLog {
  import opened Wrappers
  import opened Duration

  /** One row of the activity log: an application and its duration as `H:MM:SS`. */
  datatype Entry = Entry(app: string, time: string)

  datatype MonitorState = MonitorState(
    lastApp: Option<string>,   // the open segment's application, if any
    startTime: Option<nat>,    // when the open segment was first observed
    log: seq<Entry>,
    monitoring: bool)

  /**
    How an elapsed second count is written in the `time` column. The monitor
    uses `Duration.FormatSeconds` (`format_duration`); the functions below take
    it as a parameter so that the lemmas about segments do not depend on it.
   */
  type Renderer = int -> string

  /** An observation: the probed application at a clock reading. */
  datatype Observation = Observation(app: Option<string>, time: nat)

  /** The invariant every operation keeps: an open segment has a start time. */
  predicate Valid(m: MonitorState)
  {
    m.lastApp.Some? ==> m.startTime.Some?
  }

  /** The freshly constructed monitor. */
  function Initial(): (m: MonitorState)
    ensures Valid(m) && m.log == [] && m.lastApp.None? && !m.monitoring
  {
    MonitorState(None, None, [], false)
  }

  /**
    `log_activity` after the probe: an unchanged application (both `None`
    included) changes nothing; a first observation opens a segment; otherwise
    the open segment is logged with its duration and a new one opens.
   */
  function LogActivity(m: MonitorState, app: Option<string>, now: nat, format: Renderer): (r: MonitorState)
    requires Valid(m)
    ensures Valid(r)
    ensures r.monitoring == m.monitoring
  {
    if app == m.lastApp then m
    else if m.lastApp.None? then m.(lastApp := app, startTime := Some(now))
    else
      var row := Entry(m.lastApp.value, format(now - m.startTime.value));
      m.(log := m.log + [row], lastApp := app, startTime := Some(now))
  }

  /**
    The log after the finalisation shared by `output_log` and `stop`: with an open
    segment, the LAST ROW's time is overwritten by the open segment's elapsed
    time, or, if the log is empty, a row for the open segment is appended.
   */
  function Finalised(m: MonitorState, now: nat, format: Renderer): (log: seq<Entry>)
  {
    if m.lastApp.Some? && m.startTime.Some? then
      var time := format(now - m.startTime.value);
      if |m.log| > 0 then m.log[|m.log| - 1 := m.log[|m.log| - 1].(time := time)]
      else m.log + [Entry(m.lastApp.value, time)]
    else m.log
  }

  /** `output_log`: finalise the log and keep tracking. */
  function OutputLog(m: MonitorState, now: nat, format: Renderer): (r: MonitorState)
    requires Valid(m)
    ensures Valid(r)
    ensures r.lastApp == m.lastApp && r.startTime == m.startTime && r.monitoring == m.monitoring
  {
    m.(log := Finalised(m, now, format))
  }

  /** `stop`: finalise the log, close the open segment and stop monitoring. */
  function Stop(m: MonitorState, now: nat, format: Renderer): (r: MonitorState)
    requires Valid(m)
    ensures Valid(r)
    ensures r.lastApp.None? && r.startTime.None? && !r.monitoring
  {
    MonitorState(None, None, Finalised(m, now, format), false)
  }

  /** `start`: only raises the flag; the open segment, if any, is kept. */
  function Start(m: MonitorState): (r: MonitorState)
    ensures r.monitoring
    ensures r.lastApp == m.lastApp && r.startTime == m.startTime && r.log == m.log
  {
    m.(monitoring := true)
  }

  /** A sequence of `log_activity` calls. */
  function Run(m: MonitorState, obs: seq<Observation>, format: Renderer): (r: MonitorState)
    requires Valid(m)
    ensures Valid(r)
    ensures r.monitoring == m.monitoring
    decreases |obs|
  {
    if |obs| == 0 then m else Run(LogActivity(m, obs[0].app, obs[0].time, format), obs[1..], format)
  }

  // ---------------------------------------------------------------------------
  // An independent reference: the maximal segments of an observation stream

  /** A maximal stretch of equal observations and the time of its first one. */
  datatype Segment = Segment(app: Option<string>, start: nat)

  /** The observations grouped into maximal runs of the same application. */
  function Segments(obs: seq<Observation>): (segs: seq<Segment>)
    ensures |segs| <= |obs|
    ensures |obs| > 0 ==> |segs| > 0 && segs[0] == Segment(obs[0].app, obs[0].time)
  {
    if |obs| == 0 then []
    else
      var rest := Segments(obs[1..]);
      var first := Segment(obs[0].app, obs[0].time);
      if |rest| > 0 && rest[0].app == obs[0].app then [first] + rest[1..] else [first] + rest
  }

  /**
    The rows the segments should produce: each segment but the last, if it has an
    application, logged with the time until the next segment began.
   */
  function ExpectedLog(segs: seq<Segment>, format: Renderer): (log: seq<Entry>)
  {
    if |segs| < 2 then []
    else
      var row := if segs[0].app.Some?
        then [Entry(segs[0].app.value, format(segs[1].start - segs[0].start))]
        else [];
      row + ExpectedLog(segs[1..], format)
  }

  /** The open segment of a state as an observation (its time matters only when open). */
  function OpenObservation(m: MonitorState): (o: Observation)
  {
    Observation(m.lastApp, if m.startTime.Some? then m.startTime.value else 0)
  }

  // ---------------------------------------------------------------------------
  // Properties of log_activity

  /** Duplicate suppression: the same application again (both `None` included) changes nothing. */
  lemma DuplicateSuppressed(m: MonitorState, app: Option<string>, now: nat, format: Renderer)
    requires Valid(m) && app == m.lastApp
    ensures LogActivity(m, app, now, format) == m
  {
  }

  /** The first observation opens a segment and logs nothing. */
  lemma FirstObservation(m: MonitorState, app: Option<string>, now: nat, format: Renderer)
    requires Valid(m) && m.lastApp.None? && app.Some?
    ensures var r := LogActivity(m, app, now, format);
      r.lastApp == app && r.startTime == Some(now) && r.log == m.log
  {
  }

  /**
    A change of application logs exactly one row, for the previous application,
    whose time reads back as the whole time since that segment opened; earlier
    rows stay as they were and a new segment opens now.
   */
  lemma SegmentClosed(m: MonitorState, app: Option<string>, now: nat)
    requires Valid(m) && m.lastApp.Some? && app != m.lastApp
    ensures var r := LogActivity(m, app, now, FormatSeconds);
      |r.log| == |m.log| + 1 && r.log[..|m.log|] == m.log &&
      r.log[|m.log|].app == m.lastApp.value &&
      ParseDuration(r.log[|m.log|].time) == Some(now - m.startTime.value) &&
      r.lastApp == app && r.startTime == Some(now)
  {
    var d := now - m.startTime.value;
    var r := LogActivity(m, app, now, FormatSeconds);
    assert r.log[|m.log|].time == FormatSeconds(d);
    FormatSecondsRoundTrip(d);
  }

  /** `log_activity` does not look at the `monitoring` flag. */
  lemma IgnoresMonitoring(m: MonitorState, app: Option<string>, now: nat, flag: bool, format: Renderer)
    requires Valid(m)
    ensures LogActivity(m.(monitoring := flag), app, now, format)
         == LogActivity(m, app, now, format).(monitoring := flag)
  {
  }

  /**
    A failed probe after a real application closes that application's segment
    and forgets it; the next application then opens a fresh segment, and the
    time spent under `None` is logged for nobody.
   */
  lemma FailedProbeGap(m: MonitorState, failedAt: nat, next: string, nextAt: nat, format: Renderer)
    requires Valid(m) && m.lastApp.Some?
    ensures var r := Run(m, [Observation(None, failedAt), Observation(Some(next), nextAt)], format);
      r.log == m.log + [Entry(m.lastApp.value, format(failedAt - m.startTime.value))] &&
      r.lastApp == Some(next) && r.startTime == Some(nextAt)
  {
    var obs := [Observation(None, failedAt), Observation(Some(next), nextAt)];
    var m1 := LogActivity(m, None, failedAt, format);
    assert obs[1..] == [Observation(Some(next), nextAt)];
    assert Run(m1, obs[1..], format) == Run(LogActivity(m1, Some(next), nextAt, format), [], format);
  }

  // ---------------------------------------------------------------------------
  // Properties of runs

  lemma {:induction false} RunAppend(m: MonitorState, xs: seq<Observation>, ys: seq<Observation>, format: Renderer)
    requires Valid(m)
    ensures Run(m, xs + ys, format) == Run(Run(m, xs, format), ys, format)
    decreases |xs|
  {
    if |xs| > 0 {
      assert (xs + ys)[1..] == xs[1..] + ys;
      RunAppend(LogActivity(m, xs[0].app, xs[0].time, format), xs[1..], ys, format);
    } else {
      assert xs + ys == ys;
    }
  }

  /** Repeated observations of the open segment's application change nothing at all. */
  lemma {:induction false} RunSameApp(m: MonitorState, obs: seq<Observation>, format: Renderer)
    requires Valid(m)
    requires forall i :: 0 <= i < |obs| ==> obs[i].app == m.lastApp
    ensures Run(m, obs, format) == m
    decreases |obs|
  {
    if |obs| > 0 {
      DuplicateSuppressed(m, obs[0].app, obs[0].time, format);
      RunSameApp(m, obs[1..], format);
    }
  }

  /**
    A segment's duration runs from its FIRST observation: after any number of
    repeats of the open application, a different application logs one row for
    the open one, timed from the segment's start, not from the last repeat.
   */
  lemma SpanFromFirstObservation(m: MonitorState, repeats: seq<Observation>, b: Option<string>, now: nat, format: Renderer)
    requires Valid(m) && m.lastApp.Some? && b != m.lastApp
    requires forall i :: 0 <= i < |repeats| ==> repeats[i].app == m.lastApp
    ensures Run(m, repeats + [Observation(b, now)], format).log
         == m.log + [Entry(m.lastApp.value, format(now - m.startTime.value))]
  {
    RunAppend(m, repeats, [Observation(b, now)], format);
    RunSameApp(m, repeats, format);
    assert Run(m, [Observation(b, now)], format) == Run(LogActivity(m, b, now, format), [], format);
  }

  /** Prepending an observation either extends the first segment or starts a new one. */
  lemma SegmentsCons(o: Observation, xs: seq<Observation>)
    requires |xs| > 0
    ensures var S := Segments(xs);
      Segments([o] + xs) == if S[0].app == o.app then [Segment(o.app, o.time)] + S[1..]
                            else [Segment(o.app, o.time)] + S
  {
    assert ([o] + xs)[1..] == xs;
  }

  /** Neighbouring segments have different applications. */
  predicate Maximal(segs: seq<Segment>)
  {
    forall i :: 0 < i < |segs| ==> segs[i - 1].app != segs[i].app
  }

  /** The segments are maximal: no two neighbours could have been merged. */
  lemma {:induction false} SegmentsMaximal(obs: seq<Observation>)
    ensures Maximal(Segments(obs))
    decreases |obs|
  {
    if |obs| > 0 {
      SegmentsMaximal(obs[1..]);
      var rest := Segments(obs[1..]);
      var segs := Segments(obs);
      if |rest| > 0 && rest[0].app == obs[0].app {
        forall i | 1 < i < |segs| ensures segs[i - 1].app != segs[i].app {
          assert segs[i - 1] == rest[i - 1] && segs[i] == rest[i];
        }
        if |segs| > 1 {
          assert segs[1] == rest[1] && rest[0].app != rest[1].app;
        }
      } else {
        forall i | 1 < i < |segs| ensures segs[i - 1].app != segs[i].app {
          assert segs[i - 1] == rest[i - 2] && segs[i] == rest[i - 1];
        }
      }
    }
  }

  lemma ExpectedLogCons(s: Segment, S: seq<Segment>, format: Renderer)
    requires |S| > 0
    ensures ExpectedLog([s] + S, format)
         == (if s.app.Some? then [Entry(s.app.value, format(S[0].start - s.start))] else [])
            + ExpectedLog(S, format)
  {
    assert ([s] + S)[1..] == S;
  }

  /** A repeat of the open segment's application merges into the open segment. */
  lemma RepeatMergesSegment(o: Observation, e: Observation, rest: seq<Observation>)
    requires e.app == o.app
    ensures Segments([o] + ([e] + rest)) == Segments([o] + rest)
  {
    SegmentsCons(o, [e] + rest);
    if |rest| == 0 {
      assert [o] + rest == [o];
    } else {
      SegmentsCons(o, rest);
      SegmentsCons(e, rest);
    }
  }

  /** A different application closes the open segment and its expected row comes first. */
  lemma ChangeClosesSegment(o: Observation, e: Observation, rest: seq<Observation>, format: Renderer)
    requires e.app != o.app
    ensures var first := Segment(o.app, o.time);
      var S := Segments([e] + rest);
      Segments([o] + ([e] + rest)) == [first] + S &&
      ExpectedLog([first] + S, format)
        == (if o.app.Some? then [Entry(o.app.value, format(e.time - o.time))] else [])
           + ExpectedLog(S, format)
  {
    SegmentsCons(o, [e] + rest);
    ExpectedLogCons(Segment(o.app, o.time), Segments([e] + rest), format);
  }

  /** A repeat of the open application: the step changes nothing and the segments merge. */
  lemma StepRepeat(m: MonitorState, e: Observation, rest: seq<Observation>, format: Renderer)
    requires Valid(m) && e.app == m.lastApp
    ensures var m' := LogActivity(m, e.app, e.time, format);
      m' == m &&
      Segments([OpenObservation(m)] + ([e] + rest)) == Segments([OpenObservation(m')] + rest)
  {
    RepeatMergesSegment(OpenObservation(m), e, rest);
  }

  /** A change of application: the step logs the open segment's expected row, if any. */
  lemma StepChange(m: MonitorState, e: Observation, rest: seq<Observation>, format: Renderer)
    requires Valid(m) && e.app != m.lastApp
    ensures var m' := LogActivity(m, e.app, e.time, format);
      var A := Segments([OpenObservation(m)] + ([e] + rest));
      var B := Segments([OpenObservation(m')] + rest);
      m.log + ExpectedLog(A, format) == m'.log + ExpectedLog(B, format) && A[|A| - 1] == B[|B| - 1]
  {
    var o := OpenObservation(m);
    ChangeClosesSegment(o, e, rest, format);
    var first := Segment(o.app, o.time);
    var S := Segments([e] + rest);
    assert ([first] + S)[|S|] == S[|S| - 1];
    assert OpenObservation(LogActivity(m, e.app, e.time, format)) == e;
  }

  /**
    The log is exactly what the maximal segments of the observations dictate,
    the open segment counting as the first observation: one row per closed
    segment that has an application, timed to the start of the next segment.
    The run ends in the last segment.
   */
  lemma {:induction false} RunFollowsSegments(m: MonitorState, obs: seq<Observation>, format: Renderer)
    requires Valid(m)
    ensures var segs := Segments([OpenObservation(m)] + obs);
      var r := Run(m, obs, format);
      r.log == m.log + ExpectedLog(segs, format) &&
      r.lastApp == segs[|segs| - 1].app &&
      (r.lastApp.Some? ==> r.startTime == Some(segs[|segs| - 1].start))
    decreases |obs|
  {
    var o := OpenObservation(m);
    if |obs| == 0 {
      assert [o] + obs == [o];
    } else {
      var e, rest := obs[0], obs[1..];
      var m' := LogActivity(m, e.app, e.time, format);
      RunFollowsSegments(m', rest, format);
      assert obs == [e] + rest;
      if e.app == m.lastApp {
        StepRepeat(m, e, rest, format);
      } else {
        StepChange(m, e, rest, format);
      }
    }
  }

  /** From a fresh monitor, the log is exactly the rows the segments dictate. */
  lemma FreshRunFollowsSegments(obs: seq<Observation>, format: Renderer)
    ensures Run(Initial(), obs, format).log == ExpectedLog(Segments(obs), format)
  {
    var o := OpenObservation(Initial());
    RunFollowsSegments(Initial(), obs, format);
    if |obs| > 0 {
      var S := Segments(obs);
      SegmentsCons(o, obs);
      if S[0].app.None? {
        if |S| >= 2 {
          ExpectedLogCons(Segment(None, 0), S[1..], format);
          assert S == [S[0]] + S[1..];
          ExpectedLogCons(S[0], S[1..], format);
        }
      } else {
        ExpectedLogCons(Segment(None, 0), S, format);
      }
    } else {
      assert [o] + obs == [o];
    }
  }

  /** The log only grows at its end: every earlier row survives any number of `log_activity` calls. */
  lemma RunAppendOnly(m: MonitorState, obs: seq<Observation>, format: Renderer)
    requires Valid(m)
    ensures m.log <= Run(m, obs, format).log
  {
    RunFollowsSegments(m, obs, format);
  }

  // ---------------------------------------------------------------------------
  // Properties of output_log and stop

  /**
    With an open segment and a non-empty log, finalisation rewrites only the time
    of the last row, to the open segment's elapsed time; its application, the
    other rows and the length stay, and the open segment's own application is
    not added.
   */
  lemma FinaliseOverwritesLastRow(m: MonitorState, now: nat)
    requires Valid(m) && m.lastApp.Some? && |m.log| > 0
    ensures var r := OutputLog(m, now, FormatSeconds).log; var k := |m.log| - 1;
      |r| == |m.log| && r[..k] == m.log[..k] && r[k].app == m.log[k].app &&
      ParseDuration(r[k].time) == Some(now - m.startTime.value)
  {
    var d := now - m.startTime.value;
    var r := OutputLog(m, now, FormatSeconds).log;
    assert r[|m.log| - 1].time == FormatSeconds(d);
    FormatSecondsRoundTrip(d);
  }

  /** With an open segment and an empty log, finalisation appends one row for the open segment. */
  lemma FinaliseAppendsToEmptyLog(m: MonitorState, now: nat)
    requires Valid(m) && m.lastApp.Some? && m.log == []
    ensures var r := OutputLog(m, now, FormatSeconds).log;
      |r| == 1 && r[0].app == m.lastApp.value &&
      ParseDuration(r[0].time) == Some(now - m.startTime.value)
  {
    var d := now - m.startTime.value;
    var r := OutputLog(m, now, FormatSeconds).log;
    assert r[0].time == FormatSeconds(d);
    FormatSecondsRoundTrip(d);
  }

  /** Without an open segment, `output_log` changes nothing. */
  lemma OutputLogWithoutSegment(m: MonitorState, now: nat, format: Renderer)
    requires Valid(m) && m.lastApp.None?
    ensures OutputLog(m, now, format) == m
  {
  }

  /**
    Outputting twice adds no row: the second output simply re-times the row the
    first one produced, so the result is that of the second output alone.
   */
  lemma OutputLogTwice(m: MonitorState, t1: nat, t2: nat, format: Renderer)
    requires Valid(m)
    ensures OutputLog(OutputLog(m, t1, format), t2, format) == OutputLog(m, t2, format)
    ensures |OutputLog(m, t1, format).log| == |OutputLog(m, t2, format).log|
  {
    if m.lastApp.Some? && |m.log| == 0 {
      var r1 := OutputLog(m, t1, format);
      assert r1.log == [Entry(m.lastApp.value, format(t1 - m.startTime.value))];
    }
  }

  /** The provisional duration never shrinks: a later output never gives the last row a shorter time. */
  lemma OutputLogMonotone(m: MonitorState, t1: nat, t2: nat)
    requires Valid(m) && m.lastApp.Some? && t1 <= t2
    ensures var a := OutputLog(m, t1, FormatSeconds).log; var b := OutputLog(m, t2, FormatSeconds).log;
      |a| == |b| > 0 &&
      ParseDuration(a[|a| - 1].time) == Some(t1 - m.startTime.value) &&
      ParseDuration(b[|b| - 1].time) == Some(t2 - m.startTime.value) &&
      t1 - m.startTime.value <= t2 - m.startTime.value
  {
    if |m.log| > 0 {
      FinaliseOverwritesLastRow(m, t1);
      FinaliseOverwritesLastRow(m, t2);
    } else {
      FinaliseAppendsToEmptyLog(m, t1);
      FinaliseAppendsToEmptyLog(m, t2);
    }
  }

  /** The applications named in the log, in order. */
  function Apps(log: seq<Entry>): (apps: seq<string>)
    ensures |apps| == |log|
  {
    seq(|log|, i requires 0 <= i < |log| => log[i].app)
  }

  /**
    Once the log has a row, finalising never records the open segment's own
    application: the applications in the log are exactly those already there.
   */
  lemma FinaliseKeepsApps(m: MonitorState, now: nat, format: Renderer)
    requires Valid(m) && |m.log| > 0
    ensures Apps(Finalised(m, now, format)) == Apps(m.log)
  {
    var r := Finalised(m, now, format);
    assert forall i :: 0 <= i < |r| ==> r[i].app == m.log[i].app;
  }

  /** `stop` finalises like `output_log`, then closes the segment and stops monitoring. */
  lemma StopFinalises(m: MonitorState, now: nat, format: Renderer)
    requires Valid(m)
    ensures Stop(m, now, format) == Initial().(log := OutputLog(m, now, format).log)
  {
  }

  /**
    After `stop` and a later `start`, the first observed application opens a
    fresh segment and logs nothing, whatever was open before.
   */
  lemma StopThenStart(m: MonitorState, stopAt: nat, app: string, now: nat, format: Renderer)
    requires Valid(m)
    ensures var s := Stop(m, stopAt, format);
      var r := LogActivity(Start(s), Some(app), now, format);
      r.log == s.log && r.lastApp == Some(app) && r.startTime == Some(now) && r.monitoring
  {
  }

  /**
    A session: `start`; A at 0 s; A at 5 s; B at 10 s; `stop` at 15 s,
    for any renderer: after B the log is one row for A timed 10 s; `stop` then
    re-times that row with B's 5 s and logs no row for B.
   */
  lemma SessionRows(format: Renderer)
    ensures var s := Run(Start(Initial()),
        [Observation(Some("A"), 0), Observation(Some("A"), 5), Observation(Some("B"), 10)], format);
      s.log == [Entry("A", format(10))] &&
      Stop(s, 15, format).log == [Entry("A", format(5))]
  {
    var obs := [Observation(Some("A"), 0), Observation(Some("A"), 5), Observation(Some("B"), 10)];
    var m0 := Start(Initial());
    var m1 := LogActivity(m0, Some("A"), 0, format);
    assert m1 == MonitorState(Some("A"), Some(0), [], true);
    assert obs == [obs[0]] + (obs[1..2] + [obs[2]]);
    assert Run(m0, obs, format) == Run(m1, obs[1..2] + [obs[2]], format);
    SpanFromFirstObservation(m1, obs[1..2], Some("B"), 10, format);
    RunFollowsSegments(m1, obs[1..2] + [obs[2]], format);
  }

  /** The same session with `format_duration`: the rows the source writes. */
  lemma SessionExample()
    ensures var s := Run(Start(Initial()),
        [Observation(Some("A"), 0), Observation(Some("A"), 5), Observation(Some("B"), 10)], FormatSeconds);
      s.log == [Entry("A", "0:00:10")] &&
      Stop(s, 15, FormatSeconds).log == [Entry("A", "0:00:05")]
  {
    SessionRows(FormatSeconds);
    FormatExamples();
  }
}
