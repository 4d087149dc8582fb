# Process monitor: matching and aggregation

A Dafny model of the core of `lib/osx_process_monitor.js`. The script is
run with two arguments.

- The first is a metric-state mask such as `1,1,0,1,1`.
- The second is a watch list such as `ssh service;/usr/sbin/sshd#1`.

The script lists the processes (`ps auxww`) and gives each listing row to
every watch spec whose path it contains, skipping rows that contain the
script's own file name. A spec is *up* when exactly `count` rows matched it.

- An up spec reports STATUS=1 plus the sums of its rows' `%CPU`, `%MEM`,
  `VSZ` and `RSS` columns; the two sizes are converted from kilobytes to
  megabytes.
- A down spec reports STATUS=0 alone.

Each record whose metric the mask enables is printed as `id|value|object`.

The modules follow the script:

| module | file | models |
|---|---|---|
| `Wrappers` | wrappers.dfy | `Option` and `Result` |
| `Seqs` | seqs.dfy | generic map, filter and flatten, the left folds every pass is made of |
| `JsString` | js_string.dfy | `split`, `indexOf(…) >= 0`, `trim`, `replace(/\"/g, '')`, `replace(/\s+/g, ' ')` |
| `JsNumber` | js_number.dfy | `parseInt` with and without a radix, `parseFloat`, `+` with `NaN`, `toFixed(2)` |
| `Errors` | errors.dfy | the three fatal errors and their exit statuses |
| `Metrics` | metrics.dfy | the five metric definitions and the positional mask (`monitorInputProcess`) |
| `WatchList` | watch_list.dfy | `parseProcesses` |
| `Matcher` | matcher.dfy | `parseResult`: row matching, status decision, column sums, records |
| `Output` | output.dfy | `output`: the mask filter and the line format |
| `Monitor` | monitor.dfy | one whole run, from the arguments and the listing to the printed lines or the error |

Numbers are exact. A finite JavaScript number is a Dafny `real` and `NaN`
is a separate case, so the model states sums exactly. `parseInt` and
`parseFloat` are modelled character by character, with the same prefix
rules as the engine. So is `toFixed(2)`: round half up on an exact value,
with a `-` in front of negative values.

The model keeps these behaviours of the code, which a reader of the usage
text might not expect:

- A count that is missing or does not parse is not an error. `parseInt`
  makes it `NaN`, which no row count equals, so the spec stays down.
- Any count is accepted, including zero and negative ones.
- A record without `;` is an error. The `split` on the undefined second
  token throws, and the top-level `catch` ends the run with status 1.
- The printed object is the spec's `path`, not its label; the label is
  dropped while parsing.
- A fatal error prints one line, the error's message, before exiting. No
  metric line is printed.
- A listing failure ends the run with status 30 only after both arguments
  have parsed; an argument error comes first and ends it with status 1.
- When either argument is missing the script does nothing at all; `Run`
  returns `Idle`.
- The CPU and memory columns are read with `parseFloat`. They are modelled
  as exact reals, not as integers, so fractional percentages are kept.

## Model

All source cells are lines of `lib/osx_process_monitor.js`.

| member | source | states |
|---|---|---|
| Metrics.Position | lib/osx_process_monitor.js:22-26 | every metric has a place in the declaration order STATUS, VM_MEM, PH_MEM, MEM_US, CPU_US, which is the order `for … in` visits them |
| Metrics.OrderIsPermutation | lib/osx_process_monitor.js:22-26 | the order lists each metric exactly once, and no two metrics share an identifier |
| Metrics.IdHasNoBar | lib/osx_process_monitor.js:22-26 | no metric identifier contains the `|` the output lines are split at |
| Metrics.ParseMask | lib/osx_process_monitor.js:53-67 | the mask fails with the metric-state error exactly when the argument, with quotes removed, does not split into five comma tokens; otherwise the i-th metric's flag is `parseInt` of the i-th token and nothing else sets a flag |
| Metrics.ParseMaskAcceptsFourCommas | lib/osx_process_monitor.js:53-57 | the mask is accepted exactly when the argument holds four commas, whatever quotes it holds |
| Metrics.RenderMaskRoundTrip | lib/osx_process_monitor.js:53-67 | writing any on/off choice as `0`/`1` tokens and parsing it back enables exactly the chosen metrics |
| WatchList.ParseRecord | lib/osx_process_monitor.js:80-87 | a record fails exactly when it has no `;`; a parsed spec has no matched rows yet, and a path that holds neither `;` nor `#` |
| WatchList.ParseRecords | lib/osx_process_monitor.js:76-90 | the list fails exactly when one of its records does; otherwise there is one spec per record, in order, each the parse of its record |
| WatchList.ParseProcesses | lib/osx_process_monitor.js:73-91 | the watch list splits at commas and each record is parsed in turn |
| WatchList.MalformedExactly | lib/osx_process_monitor.js:76-87 | the watch list is malformed exactly when one of its comma-separated records has no `;`; otherwise there is one spec per record |
| WatchList.RenderCountParses | lib/osx_process_monitor.js:85 | `parseInt` reads back the decimal text of any integer, negative ones included |
| WatchList.RecordRoundTrip | lib/osx_process_monitor.js:80-85 | parsing a record `name;path#count` gives back its path and count, and drops the name |
| WatchList.WatchListRoundTrip | lib/osx_process_monitor.js:73-91 | parsing a comma-joined list of records gives one spec per entry, in order, with the entry's path and count and no rows |
| WatchList.MissingCountIsNaN | lib/osx_process_monitor.js:81-85 | a record without `#` parses with a `NaN` count, and is not an error |
| JsString.Split | lib/osx_process_monitor.js:54 | `split` always gives at least one piece, and no piece contains the separator |
| JsString.SplitCount | lib/osx_process_monitor.js:54-56 | there is one more piece than there are separators |
| JsString.SplitJoin | lib/osx_process_monitor.js:76 | splitting a join of separator-free pieces gives back the pieces |
| JsString.JoinSplit | lib/osx_process_monitor.js:124 | joining the pieces of a split gives back the text |
| JsString.SplitPieceChars | lib/osx_process_monitor.js:80-81 | a character absent from the text is absent from every piece of its split |
| JsString.RemoveAllKeepsOrder | lib/osx_process_monitor.js:53 | removing the quotes keeps exactly the other characters, in their order |
| JsString.ContainsIff | lib/osx_process_monitor.js:134 | `indexOf(t) >= 0` holds exactly when `t` occurs at some position |
| JsString.Contains | lib/osx_process_monitor.js:134 | `indexOf(t) >= 0`: the text is found at some position, the empty text everywhere |
| JsString.TrimStartSuffix | lib/osx_process_monitor.js:107 | trimming the start drops a run of white space and keeps the rest unchanged |
| JsString.TrimEnd | lib/osx_process_monitor.js:107 | trimming the end drops a run of white space and keeps the rest unchanged |
| JsString.Trim | lib/osx_process_monitor.js:107 | the trimmed output is the slice of the output left once the white space at both ends is dropped; it neither starts nor ends with white space, and white space inside it is kept |
| JsString.CollapseShape | lib/osx_process_monitor.js:167 | collapsing white space never lengthens a row, empties only the empty row, keeps the first character unless it is white space, and leaves white space only as single blanks |
| JsString.CollapseIdempotent | lib/osx_process_monitor.js:167 | collapsing a collapsed row changes nothing |
| JsString.Collapse | lib/osx_process_monitor.js:167 | each maximal run of white space becomes one blank and every other character is kept in order |
| JsString.CollapseKeepsText | lib/osx_process_monitor.js:167 | collapsing keeps every character that is not white space, in order |
| JsString.CollapseSpaced | lib/osx_process_monitor.js:167 | words separated by any non-empty runs of white space collapse to the words joined by single blanks |
| JsNumber.DigitRun | lib/osx_process_monitor.js:85 | the digit run `parseInt` reads is the longest prefix of digits |
| JsNumber.ParseInt | lib/osx_process_monitor.js:85 | `parseInt` skips leading white space and one sign, takes base 16 after `0x` only without a radix, reads the longest digit run, and is `NaN` when that run is empty |
| JsNumber.ParseIntRendered | lib/osx_process_monitor.js:64 | `parseInt` reads back the decimal text of any natural number, with or without a radix |
| JsNumber.ParseIntRenderedNegative | lib/osx_process_monitor.js:85 | `parseInt` reads back `-` followed by the decimal text of a natural number as its negation |
| JsNumber.ParseFloatRendered | lib/osx_process_monitor.js:171-172 | `parseFloat` reads back the decimal text of any natural number |
| JsNumber.ParseFloat | lib/osx_process_monitor.js:171-172 | `parseFloat` skips leading white space and one sign and reads the longest decimal literal, with optional fraction and exponent; `NaN` when there is none |
| JsNumber.DecimalInt | lib/osx_process_monitor.js:173-174 | text whose unsigned start is all decimal digits reads, with either radix rule, as the signed value of those digits |
| JsNumber.Hundredths | lib/osx_process_monitor.js:188 | `toFixed(2)` picks the hundredths count nearest to the value, the larger one on a tie |
| JsNumber.FixedAbs | lib/osx_process_monitor.js:188 | `toFixed(2)` of a non-negative value is digits, a point, and exactly two more digits |
| JsNumber.Fixed2 | lib/osx_process_monitor.js:188 | `toFixed(2)` of a negative value is `-` followed by that of its magnitude |
| JsNumber.Fixed2RoundTrip | lib/osx_process_monitor.js:188 | `parseFloat` of `x.toFixed(2)` is `x` rounded to hundredths, for negative values too |
| JsNumber.Round2Bound | lib/osx_process_monitor.js:188 | rounding to hundredths moves a value by at most half a hundredth |
| Matcher.SelectMembers | lib/osx_process_monitor.js:134-136 | a spec's rows are exactly the listing rows that contain its path and not the script's file name |
| Matcher.SelectInOrder | lib/osx_process_monitor.js:126-139 | a spec's rows are the subsequence of the listing made of its matching rows: listing order is kept, and a row is taken exactly when it matches |
| Matcher.SelectAppend | lib/osx_process_monitor.js:126-139 | matching two listings one after the other is matching their concatenation |
| Matcher.SelectStep | lib/osx_process_monitor.js:134-136 | one more listing row adds that row to a spec's rows exactly when it matches |
| Matcher.OfferRow | lib/osx_process_monitor.js:132-138 | the inner loop gives a row to every spec it matches and to no other, changing nothing else |
| Matcher.OfferExtends | lib/osx_process_monitor.js:126-138 | after one more row, each spec's rows are those selected from one row more of the listing |
| Matcher.MatchRows | lib/osx_process_monitor.js:126-139 | the row-by-row, spec-by-spec loop gives every spec its selected rows, appended to the rows it had |
| Matcher.UpWhenCountMatches | lib/osx_process_monitor.js:141-143 | after matching, a freshly parsed spec is up exactly when its count equals the number of listing rows that contain its path and not the file name |
| Matcher.SelectCount | lib/osx_process_monitor.js:134-136 | a spec gets as many rows as there are matching listing rows, counted one by one from the first |
| Matcher.FieldsOfColumns | lib/osx_process_monitor.js:167 | a row laid out as columns separated by any runs of white space splits into exactly those columns, the first ten of them, so field k is the k-th column |
| Matcher.RowValue | lib/osx_process_monitor.js:171-174 | a row adds `parseFloat` of its CPU and memory fields, and `parseInt(_, 10) / 1024` of its VSZ and RSS fields, `NaN` for a missing field |
| Matcher.SumAppend | lib/osx_process_monitor.js:158-175 | the running sum of two runs of values adds their sums |
| Matcher.SumNaN | lib/osx_process_monitor.js:158-175 | a running sum is `NaN` exactly when one of its terms is |
| Matcher.TotalAppend | lib/osx_process_monitor.js:163-175 | a column's total over two runs of rows adds their totals |
| Matcher.TotalNaN | lib/osx_process_monitor.js:171-174 | a column's total is `NaN` exactly when some row's field is missing or does not parse |
| Matcher.SumConverts | lib/osx_process_monitor.js:173-174 | converting counts to megabytes one by one and summing gives the converted exact sum |
| Matcher.SizeTotalIsSumThenConvert | lib/osx_process_monitor.js:173-174 | a size total is `NaN` exactly when some count does not parse, and otherwise is the exact kilobyte sum divided by 1024 |
| Matcher.Aggregate | lib/osx_process_monitor.js:141-211 | a down spec yields STATUS=0 alone; an up spec yields STATUS=1, then CPU_US, MEM_US, VM_MEM, PH_MEM with their columns' totals; all are labelled with the spec's path |
| Matcher.RecordsAppend | lib/osx_process_monitor.js:141-212 | the records of two runs of specs are the records of the first, then of the second |
| Matcher.RecordsOfSpec | lib/osx_process_monitor.js:141-212 | each spec's records stand, in spec order, between those of the specs before it and after it |
| Matcher.RecordsOne | lib/osx_process_monitor.js:141-212 | a single spec's records are its own block |
| Matcher.CountKindAggregate | lib/osx_process_monitor.js:143-210 | a spec yields one STATUS record, and one record of each aggregate metric when it is up and none when it is down |
| Matcher.RecordCounts | lib/osx_process_monitor.js:141-212 | over all specs there is one STATUS record per spec and one record of each aggregate metric per up spec, so no spec is missed, repeated or half reported |
| Matcher.RecordLabels | lib/osx_process_monitor.js:150-208 | every record is labelled with the path of one of the specs |
| Output.EmitInOrder | lib/osx_process_monitor.js:230-247 | the printed lines are the lines of the enabled records, in record order: a record is printed exactly when its flag is the number 1 |
| Output.EmitMembers | lib/osx_process_monitor.js:234-244 | a line is printed exactly when it is the line of some enabled record |
| Output.EmitAppend | lib/osx_process_monitor.js:230-247 | printing two runs of records prints the first run's lines, then the second's |
| Output.EmitOne | lib/osx_process_monitor.js:236-244 | a single record prints its line when its metric is enabled and nothing otherwise |
| Output.Line | lib/osx_process_monitor.js:240-242 | a line is the identifier, `|`, the value text, `|`, and the object |
| Output.EmitCount | lib/osx_process_monitor.js:236 | one line is printed per enabled record |
| Output.CountEnabledOnly | lib/osx_process_monitor.js:236 | with one metric enabled, as many records are enabled as there are records of that metric |
| Output.KeptOnly | lib/osx_process_monitor.js:236 | with one metric enabled, the records kept for printing are exactly the records of that metric, in record order |
| Output.KeptAll | lib/osx_process_monitor.js:236 | with every metric enabled, no record is filtered out |
| Output.EmitAll | lib/osx_process_monitor.js:236-244 | with every metric enabled, every record is printed, in order |
| Output.DownSpecSilent | lib/osx_process_monitor.js:143-153 | a down spec prints nothing when STATUS is disabled, whatever else is enabled |
| Output.ValueTextHasNoBar | lib/osx_process_monitor.js:241 | a printed value never contains `|` |
| Output.ValueTextRoundTrip | lib/osx_process_monitor.js:241 | a printed value reads back with `parseFloat` as 1 or 0 for STATUS, and as the total rounded to hundredths, or `NaN`, for an aggregate |
| Output.LineRoundTrip | lib/osx_process_monitor.js:240-242 | splitting a printed line at `|` gives back the metric's identifier, its value to two decimals and the object, when the object holds no `|` |
| Monitor.SnapshotRows | lib/osx_process_monitor.js:124 | the trimmed listing splits into at least one row, and no row holds a line break |
| Monitor.SnapshotRowsRejoin | lib/osx_process_monitor.js:124 | the rows joined with line breaks are the trimmed listing |
| Monitor.Run | lib/osx_process_monitor.js:48-114 | a run does nothing when an argument is missing; otherwise it stops with the mask error exactly when the mask fails, then with the watch-list error, then with the listing error exactly when the listing fails; it prints exactly when all three succeed, and then prints the report of the parsed specs over the trimmed listing's rows |
| Monitor.Monitor | lib/osx_process_monitor.js:120-139 | the run with the script's nested matching loop ends exactly as `Run` does |
| Monitor.ArgumentErrorStatus | lib/osx_process_monitor.js:31-43 | a run stopped by a bad mask or a malformed record exits with status 1 and prints the mask message, or the engine's text for a record |
| Monitor.AbortedExitStatus | lib/osx_process_monitor.js:255-278 | a stopped run exits with status 30, printing "Unable to get cpu metrics", exactly when both arguments parsed and the listing failed; otherwise it exits with status 1 |
| Monitor.AllMetricsPrinted | lib/osx_process_monitor.js:141-247 | with every metric enabled, the report is every record's line in record order: one per spec plus four per up spec |
| Monitor.StatusOnlyPrinted | lib/osx_process_monitor.js:141-247 | with only STATUS enabled, the report has exactly one line per watched process, up or down |
| Monitor.PrintedLinesRead | lib/osx_process_monitor.js:141-247 | every line of the report reads back as three fields, labelled with the path of one of the watched processes, when no path holds `|` |

## Left out

- Running `ps auxww` through `child_process.exec`, and the exit listener
  (lines 98-114). I/O: the listing is a parameter, either the command's
  standard output or a failure. An error from the command and a non-zero
  exit status are the same failure.
- In which order the exec callback and the `exit` event run. Concurrency:
  either one ends the run with status 30 before anything is printed.
- `console.log` and `process.exit` (lines 36-40, 255-267). I/O: a run ends
  in an `Outcome`, and `Errors` gives each error's message and exit status.
- `getFilename` (lines 217-221). It reads `__filename` and `path.sep`, so
  the script's file name is a parameter.
- The message text of the `TypeError` a record without `;` raises. The
  JavaScript engine writes it; `Errors.Message` gives `None` for it.
- Binary floating point. Sums and the division by 1024 are exact, so a run
  whose float sum rounds differently at the second decimal is not modelled.
- JsNumber.Fixed2: leaves out the branch of `toFixed` for magnitudes of
  10^21 and more, which prints exponent notation.
- JsNumber.ParseFloat: does not recognise the text `Infinity`, which no
  `ps` column holds.
- JsNumber.ParseInt: integers are unbounded, so digit strings past 2^53 are
  read exactly instead of being rounded.
- JsString.CollapseShape: states only the shape of the collapsed text.
  CollapseKeepsText and CollapseSpaced state what it keeps.
- Matcher.FieldsOfColumns: covers rows that start and end with a column.
  A row with leading white space gets an empty first field, and no lemma
  states that case.
- `metrics.hasOwnProperty` (lines 62, 234). It holds for every key the
  loops visit, so it is always true.
- The commented-out `split(' ', 11)` (line 128) and the unused
  `variableName` beyond selecting the metric's flag.
