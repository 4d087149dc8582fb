/** `parseResult`: assigning listing rows to watch specs, deciding each
    spec's status, and summing the resource columns of the specs that are up. */
module Matcher {
  import opened Wrappers
  import opened JsString
  import opened JsNumber
  import opened Metrics
  import opened WatchList
  import opened Seqs

  // ---------------------------------------------------------------------
  // Row matching.

  /** A listing row belongs to a spec when it contains the spec's path and
      does not contain the script's own file name. */
  predicate Matches(row: string, path: string, filename: string) {
    Contains(row, path) && !Contains(row, filename)
  }

  /** The rows that belong to a spec with this path, in listing order. */
  function Select(rows: seq<string>, path: string, filename: string): (r: seq<string>)
    ensures |r| <= |rows|
  {
    Filter(rows, row => Matches(row, path, filename))
  }

  /** A spec's selection holds exactly the listing rows that belong to it. */
  lemma SelectMembers(rows: seq<string>, path: string, filename: string, x: string)
    ensures x in Select(rows, path, filename) <==> x in rows && Matches(x, path, filename)
  {
    FilterMembers(rows, row => Matches(row, path, filename), x);
  }

  /** A spec's selection is the subsequence of the listing made of the rows
      that belong to it: it keeps them in listing order, with repeats. */
  lemma SelectInOrder(rows: seq<string>, path: string, filename: string)
    ensures var sel := Select(rows, path, filename);
            var idx := Picks(rows, row => Matches(row, path, filename));
            && |idx| == |sel|
            && (forall j :: 0 <= j < |idx| ==> idx[j] < |rows| && sel[j] == rows[idx[j]])
            && (forall j, k :: 0 <= j < k < |idx| ==> idx[j] < idx[k])
            && (forall i :: 0 <= i < |rows| ==> (Matches(rows[i], path, filename) <==> i in idx))
  {
    FilterPicks(rows, row => Matches(row, path, filename));
  }

  /** Selecting from two listings one after the other is selecting from
      their concatenation. */
  lemma SelectAppend(a: seq<string>, b: seq<string>, path: string, filename: string)
    ensures Select(a + b, path, filename) == Select(a, path, filename) + Select(b, path, filename)
  {
    FilterAppend(a, b, row => Matches(row, path, filename));
  }

  lemma SelectOne(row: string, path: string, filename: string)
    ensures Select([row], path, filename) == (if Matches(row, path, filename) then [row] else [])
  {
    FilterOne(row, r => Matches(r, path, filename));
  }

  /** Every spec with its matching rows appended to the rows it already has. */
  function Assigned(specs: seq<WatchSpec>, rows: seq<string>, filename: string): (r: seq<WatchSpec>)
    ensures |r| == |specs|
  {
    seq(|specs|, p requires 0 <= p < |specs| =>
      specs[p].(lines := specs[p].lines + Select(rows, specs[p].path, filename)))
  }

  /** A spec after one row has been offered to it. */
  function Offer(spec: WatchSpec, row: string, filename: string): WatchSpec {
    spec.(lines := spec.lines + (if Matches(row, spec.path, filename) then [row] else []))
  }

  /** The inner loop of the matching pass: one row is offered to every spec
      in turn, and each spec takes it exactly when it matches. */
  method OfferRow(specs: seq<WatchSpec>, row: string, filename: string)
    returns (offered: seq<WatchSpec>)
    ensures |offered| == |specs|
    ensures forall q :: 0 <= q < |specs| ==> offered[q] == Offer(specs[q], row, filename)
  {
    offered := specs;
    for p := 0 to |specs|
      invariant |offered| == |specs|
      invariant forall q :: 0 <= q < p ==> offered[q] == Offer(specs[q], row, filename)
      invariant forall q :: p <= q < |specs| ==> offered[q] == specs[q]
    {
      if Contains(row, offered[p].path) && !Contains(row, filename) {
        offered := offered[p := offered[p].(lines := offered[p].lines + [row])];
      }
    }
  }

  /** Selecting from one more row adds that row exactly when it matches. */
  lemma SelectStep(rows: seq<string>, i: nat, path: string, filename: string)
    requires i < |rows|
    ensures Select(rows[..i + 1], path, filename)
         == Select(rows[..i], path, filename) + (if Matches(rows[i], path, filename) then [rows[i]] else [])
  {
    assert rows[..i + 1] == rows[..i] + [rows[i]];
    SelectAppend(rows[..i], [rows[i]], path, filename);
    SelectOne(rows[i], path, filename);
  }

  /** Offering the next row extends a spec's selection by that row. */
  lemma OfferExtends(spec: WatchSpec, rows: seq<string>, i: nat, filename: string)
    requires i < |rows|
    ensures Offer(spec.(lines := spec.lines + Select(rows[..i], spec.path, filename)), rows[i], filename)
         == spec.(lines := spec.lines + Select(rows[..i + 1], spec.path, filename))
  {
    SelectStep(rows, i, spec.path, filename);
    var before := Select(rows[..i], spec.path, filename);
    var taken := if Matches(rows[i], spec.path, filename) then [rows[i]] else [];
    assert spec.lines + before + taken == spec.lines + (before + taken);
  }

  /** The matching pass as the script runs it: for every row, for every
      spec, append the row to the spec's lines when it matches. Row by row,
      it builds the same lines as selecting spec by spec. */
  method MatchRows(specs: seq<WatchSpec>, rows: seq<string>, filename: string)
    returns (matched: seq<WatchSpec>)
    ensures matched == Assigned(specs, rows, filename)
  {
    matched := specs;
    for i := 0 to |rows|
      invariant |matched| == |specs|
      invariant forall p :: 0 <= p < |specs| ==>
        matched[p] == specs[p].(lines := specs[p].lines + Select(rows[..i], specs[p].path, filename))
    {
      var next := OfferRow(matched, rows[i], filename);
      forall p | 0 <= p < |specs|
        ensures next[p] == specs[p].(lines := specs[p].lines + Select(rows[..i + 1], specs[p].path, filename))
      {
        OfferExtends(specs[p], rows, i, filename);
      }
      matched := next;
    }
    assert rows[..|rows|] == rows;
  }

  // ---------------------------------------------------------------------
  // Columns of a row.

  /** `line.replace(/\s+/g, ' ').split(' ', 10)`. */
  function Fields(row: string): (f: seq<string>)
    ensures |f| <= 10
  {
    var parts := Split(Collapse(row), ' ');
    if |parts| > 10 then parts[..10] else parts
  }

  /** A row laid out as columns separated by runs of white space, as `ps`
      prints it, splits into those columns, the first ten of them. */
  lemma FieldsOfColumns(cols: seq<string>, gaps: seq<string>)
    requires |cols| >= 1 && |gaps| == |cols| - 1
    requires forall i :: 0 <= i < |cols| ==> Word(cols[i])
    requires forall i :: 0 <= i < |gaps| ==> Gap(gaps[i])
    ensures Fields(Spaced(cols, gaps)) == if |cols| > 10 then cols[..10] else cols
  {
    CollapseSpaced(cols, gaps);
    forall i | 0 <= i < |cols| ensures ' ' !in cols[i] {
      assert Word(cols[i]);
    }
    SplitJoin(cols, ' ');
  }

  /** `tokens[k]`, `None` when it is undefined. */
  function Field(row: string, k: nat): Option<string> {
    var f := Fields(row);
    if k < |f| then Some(f[k]) else None
  }

  /** The four summed columns of `USER PID %CPU %MEM VSZ RSS ...`. */
  datatype Column = Cpu | Mem | Vsz | Rss

  function ColumnIndex(c: Column): nat {
    match c
    case Cpu => 2
    case Mem => 3
    case Vsz => 4
    case Rss => 5
  }

  /** The kilobyte count a row shows in a size column, when it parses. */
  function Kilobytes(row: string, c: Column): Option<int> {
    ParseIntOf(Field(row, ColumnIndex(c)), false)
  }

  /** A row's contribution to a column's total: `parseFloat` of the
      percentage columns, and `parseInt(_, 10) / 1024` of the two sizes, so
      that kilobytes become megabytes. */
  function RowValue(row: string, c: Column): Num {
    if c.Cpu? || c.Mem? then ParseFloatOf(Field(row, ColumnIndex(c)))
    else
      var kb := Kilobytes(row, c);
      if kb.None? then NaN else Finite(kb.value as real / 1024.0)
  }

  /** The column's value in each row, in listing order. */
  function Values(rows: seq<string>, c: Column): seq<Num> {
    Map(rows, row => RowValue(row, c))
  }

  /** The running sum `total += value`, starting at 0. */
  function Sum(values: seq<Num>): Num {
    if |values| == 0 then Finite(0.0)
    else Add(Sum(values[..|values| - 1]), values[|values| - 1])
  }

  /** A column's total over a spec's rows. */
  function Total(rows: seq<string>, c: Column): Num {
    Sum(Values(rows, c))
  }

  /** The sum of a concatenation is the sum of the two sums. */
  lemma {:induction false} SumAppend(a: seq<Num>, b: seq<Num>)
    ensures Sum(a + b) == Add(Sum(a), Sum(b))
    decreases |b|
  {
    if |b| == 0 {
      assert a + b == a;
    } else {
      var b' := b[..|b| - 1];
      assert (a + b)[..|a + b| - 1] == a + b';
      assert (a + b)[|a + b| - 1] == b[|b| - 1];
      SumAppend(a, b');
    }
  }

  /** A sum is `NaN` exactly when one of its terms is; otherwise it is the
      real sum of the terms. */
  lemma {:induction false} SumNaN(values: seq<Num>)
    ensures Sum(values).NaN? <==> exists i :: 0 <= i < |values| && values[i].NaN?
  {
    if |values| > 0 {
      var front := values[..|values| - 1];
      SumNaN(front);
      assert forall i :: 0 <= i < |front| ==> front[i] == values[i];
    }
  }

  /** The total of two listings one after the other combines their totals. */
  lemma TotalAppend(a: seq<string>, b: seq<string>, c: Column)
    ensures Total(a + b, c) == Add(Total(a, c), Total(b, c))
  {
    MapAppend(a, b, row => RowValue(row, c));
    SumAppend(Values(a, c), Values(b, c));
  }

  /** A total is `NaN` exactly when some row's column does not parse. */
  lemma TotalNaN(rows: seq<string>, c: Column)
    ensures Total(rows, c).NaN? <==> exists i :: 0 <= i < |rows| && RowValue(rows[i], c).NaN?
  {
    SumNaN(Values(rows, c));
    forall i | 0 <= i < |rows| ensures Values(rows, c)[i] == RowValue(rows[i], c) {
      MapAt(rows, row => RowValue(row, c), i);
    }
  }

  /** The exact sum of some counts, `None` when one of them is missing. */
  function CountSum(counts: seq<Option<int>>): Option<int> {
    if |counts| == 0 then Some(0)
    else
      var front := CountSum(counts[..|counts| - 1]);
      var last := counts[|counts| - 1];
      if front.None? || last.None? then None else Some(front.value + last.value)
  }

  /** The exact sum of the kilobyte counts of a size column, `None` when
      some row's count does not parse. */
  function KilobyteSum(rows: seq<string>, c: Column): Option<int>
    requires c.Vsz? || c.Rss?
  {
    CountSum(Map(rows, row => Kilobytes(row, c)))
  }

  /** `v` is the kilobyte count `k` in megabytes, `NaN` when it is missing. */
  predicate Converts(k: Option<int>, v: Num) {
    && (k.None? <==> v.NaN?)
    && (k.Some? ==> v == Finite(k.value as real / 1024.0))
  }

  /** Converting term by term and summing gives the converted sum. */
  lemma {:induction false} SumConverts(counts: seq<Option<int>>, values: seq<Num>)
    requires |counts| == |values|
    requires forall i :: 0 <= i < |counts| ==> Converts(counts[i], values[i])
    ensures Converts(CountSum(counts), Sum(values))
  {
    if |counts| > 0 {
      var n := |counts| - 1;
      SumConverts(counts[..n], values[..n]);
    }
  }

  /** A size column's total is `NaN` exactly when some count does not
      parse, and otherwise it is the exact kilobyte sum converted to
      megabytes once: converting row by row loses nothing. */
  lemma SizeTotalIsSumThenConvert(rows: seq<string>, c: Column)
    requires c.Vsz? || c.Rss?
    ensures KilobyteSum(rows, c).None? <==> Total(rows, c).NaN?
    ensures KilobyteSum(rows, c).Some? ==> Total(rows, c) == Finite(KilobyteSum(rows, c).value as real / 1024.0)
  {
    var counts := Map(rows, row => Kilobytes(row, c));
    var values := Values(rows, c);
    forall i | 0 <= i < |rows| ensures Converts(counts[i], values[i]) {
      MapAt(rows, row => Kilobytes(row, c), i);
      MapAt(rows, row => RowValue(row, c), i);
      SizeValue(rows[i], c);
    }
    SumConverts(counts, values);
  }

  lemma SizeValue(row: string, c: Column)
    requires c.Vsz? || c.Rss?
    ensures Converts(Kilobytes(row, c), RowValue(row, c))
  {
  }

  // ---------------------------------------------------------------------
  // Status decision and metric records.

  /** The value a record carries: 1 or 0 for STATUS, a column total for the
      other metrics. */
  datatype Value = Liveness(up: bool) | Amount(total: Num)

  /** One metric record: which metric, its value, and the spec's path, which
      labels the record in the output. */
  datatype MetricRecord = MetricRecord(kind: MetricKind, value: Value, objectLabel: string)

  /** A spec is up when exactly `count` rows matched it; a `NaN` count is
      never equal to a number of rows. */
  predicate IsUp(spec: WatchSpec) {
    spec.count == Some(|spec.lines|)
  }

  /** The column an aggregate metric sums. */
  function ColumnOf(k: MetricKind): Column
    requires k != Status
  {
    match k
    case CpuUs => Cpu
    case MemUs => Mem
    case VmMem => Vsz
    case PhMem => Rss
  }

  /** The aggregate metrics of an up spec, in the order they are reported. */
  const Aggregated: seq<MetricKind> := [CpuUs, MemUs, VmMem, PhMem]

  /** The record of aggregate metric `k` for a spec. */
  function AmountRecord(k: MetricKind, spec: WatchSpec): MetricRecord
    requires k != Status
  {
    MetricRecord(k, Amount(Total(spec.lines, ColumnOf(k))), spec.path)
  }

  /** The records one spec produces: STATUS=0 alone when it is down;
      STATUS=1 followed by CPU_US, MEM_US, VM_MEM and PH_MEM, each carrying
      its column's total over the spec's rows, when it is up. */
  function Aggregate(spec: WatchSpec): (r: seq<MetricRecord>)
    ensures |r| == (if IsUp(spec) then 5 else 1)
    ensures r[0] == MetricRecord(Status, Liveness(IsUp(spec)), spec.path)
    ensures forall i :: 0 <= i < |r| ==> r[i].objectLabel == spec.path
    ensures forall i :: 1 <= i < |r| ==>
      r[i].kind == Aggregated[i - 1] && r[i].value == Amount(Total(spec.lines, ColumnOf(r[i].kind)))
  {
    [MetricRecord(Status, Liveness(IsUp(spec)), spec.path)]
      + (if IsUp(spec) then seq(4, i requires 0 <= i < 4 => AmountRecord(Aggregated[i], spec)) else [])
  }

  /** The records of all specs, spec by spec in order. */
  function Records(specs: seq<WatchSpec>): seq<MetricRecord> {
    Flatten(specs, Aggregate)
  }

  lemma RecordsAppend(a: seq<WatchSpec>, b: seq<WatchSpec>)
    ensures Records(a + b) == Records(a) + Records(b)
  {
    FlattenAppend(a, b, Aggregate);
  }

  /** Spec `i`'s records stand between those of the specs before it and
      those of the specs after it. */
  lemma RecordsOfSpec(specs: seq<WatchSpec>, i: nat)
    requires i < |specs|
    ensures Records(specs) == Records(specs[..i]) + Aggregate(specs[i]) + Records(specs[i + 1..])
  {
    Around(specs, i);
    RecordsAppend(specs[..i] + [specs[i]], specs[i + 1..]);
    RecordsAppend(specs[..i], [specs[i]]);
    RecordsOne(specs[i]);
  }

  lemma RecordsOne(spec: WatchSpec)
    ensures Records([spec]) == Aggregate(spec)
  {
    assert [spec][..0] == [];
    assert Records([spec]) == Records([]) + Aggregate(spec);
  }

  /** How many records are of metric `k`. */
  function CountKind(records: seq<MetricRecord>, k: MetricKind): nat {
    if |records| == 0 then 0
    else CountKind(records[..|records| - 1], k) + (if records[|records| - 1].kind == k then 1 else 0)
  }

  /** How many specs are up. */
  function CountUp(specs: seq<WatchSpec>): nat {
    if |specs| == 0 then 0
    else CountUp(specs[..|specs| - 1]) + (if IsUp(specs[|specs| - 1]) then 1 else 0)
  }

  lemma {:induction false} CountKindAppend(a: seq<MetricRecord>, b: seq<MetricRecord>, k: MetricKind)
    ensures CountKind(a + b, k) == CountKind(a, k) + CountKind(b, k)
    decreases |b|
  {
    if |b| == 0 {
      assert a + b == a;
    } else {
      var b' := b[..|b| - 1];
      assert (a + b)[..|a + b| - 1] == a + b';
      assert (a + b)[|a + b| - 1] == b[|b| - 1];
      CountKindAppend(a, b', k);
    }
  }

  lemma CountKindOne(x: MetricRecord, k: MetricKind)
    ensures CountKind([x], k) == if x.kind == k then 1 else 0
  {
    assert [x][..0] == [];
  }

  /** Four records of the four aggregate metrics hold one record of each. */
  lemma CountKindAggregated(t: seq<MetricRecord>, k: MetricKind)
    requires |t| == 4 && forall i :: 0 <= i < 4 ==> t[i].kind == Aggregated[i]
    ensures CountKind(t, k) == if k == Status then 0 else 1
  {
    assert t == [t[0]] + [t[1]] + [t[2]] + [t[3]];
    CountKindAppend([t[0]] + [t[1]] + [t[2]], [t[3]], k);
    CountKindAppend([t[0]] + [t[1]], [t[2]], k);
    CountKindAppend([t[0]], [t[1]], k);
    CountKindOne(t[0], k);
    CountKindOne(t[1], k);
    CountKindOne(t[2], k);
    CountKindOne(t[3], k);
  }

  lemma CountKindAggregate(spec: WatchSpec, k: MetricKind)
    ensures CountKind(Aggregate(spec), k) == if k == Status then 1 else if IsUp(spec) then 1 else 0
  {
    var r := Aggregate(spec);
    assert r == [r[0]] + r[1..];
    CountKindAppend([r[0]], r[1..], k);
    CountKindOne(r[0], k);
    if IsUp(spec) {
      CountKindAggregated(r[1..], k);
    } else {
      assert r[1..] == [];
    }
  }

  /** Every spec yields exactly one STATUS record, and exactly one record
      of each aggregate metric when it is up and none when it is down: no
      spec is reported twice, missed, or reported with partial aggregates. */
  lemma {:induction false} RecordCounts(specs: seq<WatchSpec>, k: MetricKind)
    ensures CountKind(Records(specs), k) == if k == Status then |specs| else CountUp(specs)
    ensures |Records(specs)| == |specs| + 4 * CountUp(specs)
  {
    if |specs| > 0 {
      var front := specs[..|specs| - 1];
      RecordCounts(front, k);
      CountKindAppend(Records(front), Aggregate(specs[|specs| - 1]), k);
      CountKindAggregate(specs[|specs| - 1], k);
    }
  }

  /** Every record is labelled with the path of one of the specs. */
  lemma {:induction false} RecordLabels(specs: seq<WatchSpec>)
    ensures forall i :: 0 <= i < |Records(specs)| ==>
      exists p :: 0 <= p < |specs| && Records(specs)[i].objectLabel == specs[p].path
  {
    if |specs| > 0 {
      var n := |specs| - 1;
      var front := specs[..n];
      RecordLabels(front);
      var r := Records(specs);
      assert r == Records(front) + Aggregate(specs[n]);
      forall i | 0 <= i < |r|
        ensures exists p :: 0 <= p < |specs| && r[i].objectLabel == specs[p].path
      {
        if i < |Records(front)| {
          var p :| 0 <= p < |front| && Records(front)[i].objectLabel == front[p].path;
          assert specs[p] == front[p];
        } else {
          assert r[i] == Aggregate(specs[n])[i - |Records(front)|];
          assert r[i].objectLabel == specs[n].path;
        }
      }
    } else {
      assert Records(specs) == [];
    }
  }

  /** `parseResult` up to printing: match the rows, then build the records. */
  function ParseResult(specs: seq<WatchSpec>, rows: seq<string>, filename: string): seq<MetricRecord> {
    Records(Assigned(specs, rows, filename))
  }

  /** How many listing rows match a path, counted from the first row. */
  function MatchCount(rows: seq<string>, path: string, filename: string): nat {
    if |rows| == 0 then 0
    else (if Matches(rows[0], path, filename) then 1 else 0) + MatchCount(rows[1..], path, filename)
  }

  lemma {:induction false} SelectCount(rows: seq<string>, path: string, filename: string)
    ensures |Select(rows, path, filename)| == MatchCount(rows, path, filename)
  {
    if |rows| > 0 {
      SelectCount(rows[1..], path, filename);
      assert rows == [rows[0]] + rows[1..];
      SelectAppend([rows[0]], rows[1..], path, filename);
      SelectOne(rows[0], path, filename);
    }
  }

  /** After matching, a freshly parsed spec is up exactly when its count is
      the number of listing rows that match its path. */
  lemma UpWhenCountMatches(specs: seq<WatchSpec>, rows: seq<string>, filename: string, p: nat)
    requires p < |specs| && specs[p].lines == []
    ensures IsUp(Assigned(specs, rows, filename)[p]) <==> specs[p].count == Some(MatchCount(rows, specs[p].path, filename))
  {
    assert [] + Select(rows, specs[p].path, filename) == Select(rows, specs[p].path, filename);
    SelectCount(rows, specs[p].path, filename);
  }
}
