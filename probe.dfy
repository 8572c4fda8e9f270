/**
  `AppMonitor.get_active_app`: which application the tracker sees.

  The macOS workspace query and the AppleScript tab lookup are foreign calls;
  they come in as their results. `FrontApp` is the outcome of the workspace
  query (its failure is an exception that `get_active_app` catches), and the tab
  lookup yields `None` when its script fails.
 */
module Probe {
  import opened Wrappers

  /** The outcome of asking the workspace for the front application's name. */
  datatype FrontApp = QueryFailed | Front(name: string)

  /** The applications whose name is replaced by the active tab's title. */
  const Browsers: seq<string> := ["Google Chrome"]

  /**
    The observed application: the front application's name, or, for a browser,
    the title of its active tab; `None` when the workspace query failed or the
    tab lookup gave nothing (there is no named placeholder for a failure).
   */
  function ActiveApp(front: FrontApp, tabTitle: Option<string>): (app: Option<string>)
    ensures app.None? <==> front.QueryFailed? || (front.name in Browsers && tabTitle.None?)
    ensures front.Front? && front.name !in Browsers ==> app == Some(front.name)
    ensures front.Front? && front.name in Browsers ==> app == tabTitle
  {
    match front
    case QueryFailed => None
    case Front(name) =>
      if name in Browsers then tabTitle else Some(name)
  }
}
