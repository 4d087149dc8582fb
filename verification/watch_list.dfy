/** The watch list: the second argument, comma-separated records of the
    form `label;path#count`. */
module WatchList {
  import opened Wrappers
  import opened JsString
  import opened JsNumber
  import opened Errors

  /** One process to watch: the text a listing row must contain, the number
      of instances expected (`None` is `NaN`), and the rows matched so far. */
  datatype WatchSpec = WatchSpec(path: string, count: Option<int>, lines: seq<string>)

  /** One record. The label before the first `;` is dropped; the path is what
      follows it up to the next `#` (or the next `;`), and the count is
      `parseInt` of the text after that `#`, `NaN` when there is no `#`.
      A record with no `;` makes `tokens[1]` undefined, and calling `split`
      on it throws. */
  function ParseRecord(record: string): (r: Result<WatchSpec, Error>)
    ensures r.Failure? <==> ';' !in record
    ensures r.Failure? ==> r.error == MalformedWatchList
    ensures r.Success? ==> r.value.lines == [] && ';' !in r.value.path && '#' !in r.value.path
  {
    var tokens := Split(record, ';');
    SplitCount(record, ';');
    if |tokens| < 2 then Failure(MalformedWatchList)
    else
      var pieces := Split(tokens[1], '#');
      SplitPieceChars(tokens[1], '#', ';');
      var count := if |pieces| >= 2 then ParseInt(pieces[1], true) else None;
      Success(WatchSpec(pieces[0], count, []))
  }

  /** The records in order; the first malformed one stops the parse. */
  function ParseRecords(records: seq<string>): (r: Result<seq<WatchSpec>, Error>)
    ensures r.Failure? <==> exists i :: 0 <= i < |records| && ParseRecord(records[i]).Failure?
    ensures r.Failure? ==> r.error == MalformedWatchList
    ensures r.Success? ==> |r.value| == |records|
    ensures r.Success? ==> forall i :: 0 <= i < |records| ==> Success(r.value[i]) == ParseRecord(records[i])
  {
    if |records| == 0 then Success([])
    else
      var first :- ParseRecord(records[0]);
      var rest :- ParseRecords(records[1..]);
      assert forall i :: 1 <= i < |records| ==> records[i] == records[1..][i - 1];
      Success([first] + rest)
  }

  /** `parseProcesses`: one watch spec per comma-separated record, in order. */
  function ParseProcesses(arg: string): Result<seq<WatchSpec>, Error> {
    ParseRecords(Split(arg, ','))
  }

  /** The watch list is malformed exactly when some comma-separated record
      has no `;`; otherwise there is one spec per record. */
  lemma MalformedExactly(arg: string)
    ensures var r := ParseProcesses(arg);
            && (r.Failure? <==> exists i :: 0 <= i < |Split(arg, ',')| && ';' !in Split(arg, ',')[i])
            && (r.Failure? ==> r.error == MalformedWatchList)
            && (r.Success? ==> |r.value| == Occurrences(arg, ',') + 1)
  {
    SplitCount(arg, ',');
  }

  // ---------------------------------------------------------------------
  // Rendering a watch list, and reading it back.

  /** What a caller means by one record. */
  datatype Entry = Entry(name: string, path: string, count: int)

  /** An entry that can be written as a record: the separators do not occur
      in the name or the path. */
  predicate Writable(e: Entry) {
    ',' !in e.name && ';' !in e.name
    && ',' !in e.path && ';' !in e.path && '#' !in e.path
  }

  function RenderCount(c: int): (r: string)
    ensures |r| >= 1
    ensures forall i :: 0 <= i < |r| ==> r[i] == '-' || IsDigit(r[i], Decimal)
  {
    if c < 0 then "-" + NatToString(-c) else NatToString(c)
  }

  function RenderRecord(e: Entry): string {
    e.name + ";" + e.path + "#" + RenderCount(e.count)
  }

  function RenderWatchList(entries: seq<Entry>): string
    requires |entries| >= 1
  {
    Join(seq(|entries|, i requires 0 <= i < |entries| => RenderRecord(entries[i])), ',')
  }

  lemma RenderCountParses(c: int)
    ensures ParseInt(RenderCount(c), true) == Some(c)
  {
    if c < 0 {
      ParseIntRenderedNegative(-c, true);
    } else {
      ParseIntRendered(c, true);
    }
  }

  lemma RenderCountPlain(c: int)
    ensures ',' !in RenderCount(c) && ';' !in RenderCount(c) && '#' !in RenderCount(c)
  {
    var r := RenderCount(c);
    assert forall i :: 0 <= i < |r| ==> r[i] != ',' && r[i] != ';' && r[i] != '#';
  }

  /** The pieces a rendered record splits into. */
  lemma RecordPieces(name: string, path: string, countText: string)
    requires ';' !in name && ';' !in path && ';' !in countText
    requires '#' !in path && '#' !in countText
    ensures Split(name + ";" + (path + "#" + countText), ';') == [name, path + "#" + countText]
    ensures Split(path + "#" + countText, '#') == [path, countText]
  {
    var rest := path + "#" + countText;
    assert ';' !in rest;
    SplitJoin([name, rest], ';');
    assert Join([name, rest], ';') == name + ";" + rest;
    SplitJoin([path, countText], '#');
    assert Join([path, countText], '#') == path + "#" + countText;
  }

  /** Reading back a rendered record gives its path and count. */
  lemma RecordRoundTrip(e: Entry)
    requires Writable(e)
    ensures ParseRecord(RenderRecord(e)) == Success(WatchSpec(e.path, Some(e.count), []))
  {
    var countText := RenderCount(e.count);
    RenderCountPlain(e.count);
    RecordPieces(e.name, e.path, countText);
    assert RenderRecord(e) == e.name + ";" + (e.path + "#" + countText);
    RenderCountParses(e.count);
  }

  /** Reading back a rendered watch list gives one spec per entry, in order,
      with the entry's path and count and no matched rows. */
  lemma {:induction false} WatchListRoundTrip(entries: seq<Entry>)
    requires |entries| >= 1
    requires forall i :: 0 <= i < |entries| ==> Writable(entries[i])
    ensures ParseProcesses(RenderWatchList(entries)).Success?
    ensures var specs := ParseProcesses(RenderWatchList(entries)).value;
            |specs| == |entries|
            && forall i :: 0 <= i < |entries| ==>
                 specs[i] == WatchSpec(entries[i].path, Some(entries[i].count), [])
  {
    var records := seq(|entries|, i requires 0 <= i < |entries| => RenderRecord(entries[i]));
    forall i | 0 <= i < |records|
      ensures ',' !in records[i]
      ensures ParseRecord(records[i]) == Success(WatchSpec(entries[i].path, Some(entries[i].count), []))
    {
      RenderCountPlain(entries[i].count);
      RecordRoundTrip(entries[i]);
    }
    SplitJoin(records, ',');
  }

  /** A record without `#` has a `NaN` count, which no number of rows
      equals; this is not an error. */
  lemma MissingCountIsNaN(name: string, path: string)
    requires ';' !in name && ';' !in path && '#' !in path
    ensures ParseRecord(name + ";" + path) == Success(WatchSpec(path, None, []))
  {
    SplitJoin([name, path], ';');
    assert Join([name, path], ';') == name + ";" + path;
    SplitJoin([path], '#');
  }
}
