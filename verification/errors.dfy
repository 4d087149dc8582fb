/** The fatal errors of one monitor run and the exit status each ends it with. */
module Errors {
  import opened Wrappers

  datatype Error =
    | InvalidMetricState   // the metric-state mask has the wrong number of tokens
    | MalformedWatchList   // a watch-list record has no `;`, so `tokens[1]` is undefined
    | UnableToGetMetrics   // the process listing could not be obtained

  /** The status `process.exit` is called with. */
  function ExitCode(e: Error): (code: int)
    ensures code == 30 <==> e == UnableToGetMetrics
    ensures code == 1 <==> e != UnableToGetMetrics
  {
    if e == UnableToGetMetrics then 30 else 1
  }

  /** The message printed before exiting, where the script fixes it; the text
      of the `TypeError` raised for a malformed record is the engine's. */
  function Message(e: Error): Option<string> {
    match e
    case InvalidMetricState => Some("Invalid number of metric state")
    case MalformedWatchList => None
    case UnableToGetMetrics => Some("Unable to get cpu metrics")
  }
}
