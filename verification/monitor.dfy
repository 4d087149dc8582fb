/** One run of the monitor: read the two arguments, take a snapshot of the
    process listing, and print the metric lines or end with an error. */
module Monitor {
  import opened Wrappers
  import opened JsString
  import opened Errors
  import opened Metrics
  import opened WatchList
  import opened Matcher
  import opened Output
  import opened Seqs

  /** What listing the processes gave: its standard output, or a failure
      (an error from the command, or a non-zero exit status). */
  datatype Listing = Listed(stdout: string) | ListingFailed

  /** How a run ends: with nothing done when an argument is missing, with
      the metric lines printed, or with an error, whose message and exit
      status `Errors` gives. */
  datatype Outcome = Idle | Printed(lines: seq<string>) | Aborted(error: Error)

  /** The listing's rows: its output with surrounding white space trimmed,
      split at line breaks. */
  function SnapshotRows(stdout: string): (rows: seq<string>)
    ensures |rows| >= 1
    ensures forall i :: 0 <= i < |rows| ==> '\n' !in rows[i]
  {
    Split(Trim(stdout), '\n')
  }

  /** Splitting into rows loses nothing of the trimmed output. */
  lemma SnapshotRowsRejoin(stdout: string)
    ensures Join(SnapshotRows(stdout), '\n') == Trim(stdout)
  {
    JoinSplit(Trim(stdout), '\n');
  }

  /** The lines a run prints once both arguments have parsed and the
      listing has given its rows. */
  function Report(specs: seq<WatchSpec>, rows: seq<string>, filename: string, mask: Mask): seq<string> {
    Emit(ParseResult(specs, rows, filename), mask)
  }

  /** The run, step by step. Errors are checked in the order the script
      meets them: the metric-state mask first, then the watch list, then
      the listing; each stops the run before anything is printed. */
  function Run(args: seq<string>, listing: Listing, filename: string): (o: Outcome)
    ensures o.Idle? <==> |args| < 2
    ensures |args| >= 2 ==> (o == Aborted(InvalidMetricState) <==> ParseMask(args[0]).Failure?)
    ensures |args| >= 2 && ParseMask(args[0]).Success? ==>
      (o == Aborted(MalformedWatchList) <==> ParseProcesses(args[1]).Failure?)
    ensures o == Aborted(UnableToGetMetrics) <==>
      |args| >= 2 && ParseMask(args[0]).Success? && ParseProcesses(args[1]).Success? && listing.ListingFailed?
    ensures o.Printed? <==>
      |args| >= 2 && ParseMask(args[0]).Success? && ParseProcesses(args[1]).Success? && listing.Listed?
    ensures o.Printed? ==>
      o.lines == Report(ParseProcesses(args[1]).value, SnapshotRows(listing.stdout), filename, ParseMask(args[0]).value)
  {
    if |args| < 2 then Idle
    else
      match ParseMask(args[0])
      case Failure(e) => Aborted(e)
      case Success(mask) =>
        match ParseProcesses(args[1])
        case Failure(e) => Aborted(e)
        case Success(specs) =>
          if listing.ListingFailed? then Aborted(UnableToGetMetrics)
          else Printed(Report(specs, SnapshotRows(listing.stdout), filename, mask))
  }

  /** A run stopped by an argument error exits with status 1, from the
      `catch` around the whole run; it prints the mask error's message, and
      for a malformed record the engine's `TypeError` text. */
  lemma ArgumentErrorStatus(args: seq<string>, listing: Listing, filename: string)
    requires |args| >= 2
    requires ParseMask(args[0]).Failure? || ParseProcesses(args[1]).Failure?
    ensures var o := Run(args, listing, filename);
            && o.Aborted?
            && ExitCode(o.error) == 1
            && Message(o.error) == (if ParseMask(args[0]).Failure? then Some("Invalid number of metric state") else None)
  {
  }

  /** A stopped run exits with status 30 exactly when both arguments parsed
      and the listing failed, printing the listing error's message; every
      other stopped run exits with status 1. */
  lemma AbortedExitStatus(args: seq<string>, listing: Listing, filename: string)
    requires Run(args, listing, filename).Aborted?
    ensures var e := Run(args, listing, filename).error;
            && |args| >= 2
            && (ExitCode(e) == 30 <==>
                  ParseMask(args[0]).Success? && ParseProcesses(args[1]).Success? && listing.ListingFailed?)
            && (ExitCode(e) == 30 ==> Message(e) == Some("Unable to get cpu metrics"))
            && (ExitCode(e) != 30 ==> ExitCode(e) == 1)
  {
  }

  /** The run as the script performs it, with the matching loop of
      `parseResult`; it ends the same way as `Run`. */
  method Monitor(args: seq<string>, listing: Listing, filename: string) returns (o: Outcome)
    ensures o == Run(args, listing, filename)
  {
    if |args| < 2 {
      return Idle;
    }
    var mask := ParseMask(args[0]);
    if mask.Failure? {
      return Aborted(mask.error);
    }
    var specs := ParseProcesses(args[1]);
    if specs.Failure? {
      return Aborted(specs.error);
    }
    if listing.ListingFailed? {
      return Aborted(UnableToGetMetrics);
    }
    var matched := MatchRows(specs.value, SnapshotRows(listing.stdout), filename);
    o := Printed(Emit(Records(matched), mask.value));
    assert o == Printed(Report(specs.value, SnapshotRows(listing.stdout), filename, mask.value));
  }

  /** With every metric enabled, a run prints every record: one STATUS line
      per watched process, and four more for each process that is up. */
  lemma AllMetricsPrinted(specs: seq<WatchSpec>, rows: seq<string>, filename: string, mask: Mask)
    requires forall k :: Enabled(mask, k)
    ensures var matched := Assigned(specs, rows, filename);
            && Report(specs, rows, filename, mask) == Map(Records(matched), Line)
            && |Report(specs, rows, filename, mask)| == |specs| + 4 * CountUp(matched)
  {
    var matched := Assigned(specs, rows, filename);
    EmitAll(Records(matched), mask);
    RecordCounts(matched, Status);
  }

  /** With only STATUS enabled, a run prints exactly one line per watched
      process, up or down. */
  lemma StatusOnlyPrinted(specs: seq<WatchSpec>, rows: seq<string>, filename: string, mask: Mask)
    requires forall k :: Enabled(mask, k) <==> k == Status
    ensures |Report(specs, rows, filename, mask)| == |specs|
  {
    var matched := Assigned(specs, rows, filename);
    EmitCount(Records(matched), mask);
    CountEnabledOnly(Records(matched), mask, Status);
    RecordCounts(matched, Status);
  }

  /** Every printed line reads back, and is labelled with the path of one
      of the watched processes, when no path holds a `|`. */
  lemma PrintedLinesRead(specs: seq<WatchSpec>, rows: seq<string>, filename: string, mask: Mask)
    requires forall p :: 0 <= p < |specs| ==> '|' !in specs[p].path
    ensures var lines := Report(specs, rows, filename, mask);
            forall j :: 0 <= j < |lines| ==>
              && ReadLine(lines[j]).Some?
              && exists p :: 0 <= p < |specs| && ReadLine(lines[j]).value.objectLabel == specs[p].path
  {
    var matched := Assigned(specs, rows, filename);
    var records := Records(matched);
    var lines := Emit(records, mask);
    RecordLabels(matched);
    forall j | 0 <= j < |lines|
      ensures ReadLine(lines[j]).Some?
      ensures exists p :: 0 <= p < |specs| && ReadLine(lines[j]).value.objectLabel == specs[p].path
    {
      EmitMembers(records, mask, lines[j]);
      var i :| 0 <= i < |records| && Enabled(mask, records[i].kind) && lines[j] == Line(records[i]);
      var p :| 0 <= p < |matched| && records[i].objectLabel == matched[p].path;
      assert matched[p].path == specs[p].path;
      LineRoundTrip(records[i]);
    }
  }
}
