/** `output`: the metric records that pass the mask, one `id|value|object`
    line each, in record order. */
module Output {
  import opened Wrappers
  import opened JsString
  import opened JsNumber
  import opened Metrics
  import opened WatchList
  import opened Matcher
  import opened Seqs

  /** How a record's value prints: STATUS as `1` or `0`, an aggregate as its
      total after `toFixed(2)`, which prints `NaN` for `NaN`. */
  function ValueText(v: Value): string {
    match v
    case Liveness(up) => NatToString(if up then 1 else 0)
    case Amount(NaN) => "NaN"
    case Amount(Finite(x)) => Fixed2(x)
  }

  /** The printed line of one record: identifier, value and object, each
      followed by a `|` but the last. */
  function Line(rec: MetricRecord): string {
    Join([Id(rec.kind), ValueText(rec.value), rec.objectLabel], '|')
  }

  /** Whether the mask lets a record through. */
  function Shown(mask: Mask): MetricRecord -> bool {
    (rec: MetricRecord) => Enabled(mask, rec.kind)
  }

  /** The records whose metric is enabled in the mask, in order. */
  function Kept(records: seq<MetricRecord>, mask: Mask): (kept: seq<MetricRecord>)
    ensures |kept| <= |records|
  {
    Filter(records, Shown(mask))
  }

  /** The lines printed for the records, in order: a record is printed only
      when its metric is enabled in the mask. */
  function Emit(records: seq<MetricRecord>, mask: Mask): (lines: seq<string>)
    ensures |lines| <= |records|
  {
    Map(Kept(records, mask), Line)
  }

  /** Printing two runs of records prints the lines of the first, then those
      of the second. */
  lemma EmitAppend(a: seq<MetricRecord>, b: seq<MetricRecord>, mask: Mask)
    ensures Emit(a + b, mask) == Emit(a, mask) + Emit(b, mask)
  {
    FilterAppend(a, b, Shown(mask));
    MapAppend(Kept(a, mask), Kept(b, mask), Line);
  }

  lemma EmitOne(rec: MetricRecord, mask: Mask)
    ensures Emit([rec], mask) == if Enabled(mask, rec.kind) then [Line(rec)] else []
  {
    FilterOne(rec, Shown(mask));
    if Enabled(mask, rec.kind) {
      MapAt(Kept([rec], mask), Line, 0);
    }
  }

  /** The printed lines are the lines of the enabled records, in record
      order: the j-th line is that of the j-th picked record, the picked
      positions increase, and a record is picked exactly when its metric is
      enabled. */
  lemma EmitInOrder(records: seq<MetricRecord>, mask: Mask)
    ensures var lines := Emit(records, mask);
            var idx := Picks(records, Shown(mask));
            && |idx| == |lines|
            && (forall j :: 0 <= j < |idx| ==> idx[j] < |records| && lines[j] == Line(records[idx[j]]))
            && (forall j, k :: 0 <= j < k < |idx| ==> idx[j] < idx[k])
            && (forall i :: 0 <= i < |records| ==> (Enabled(mask, records[i].kind) <==> i in idx))
  {
    FilterPicks(records, Shown(mask));
    var kept := Kept(records, mask);
    forall j | 0 <= j < |kept| ensures Emit(records, mask)[j] == Line(kept[j]) {
      MapAt(kept, Line, j);
    }
  }

  /** A line is printed exactly when it is the line of some record whose
      metric is enabled. */
  lemma EmitMembers(records: seq<MetricRecord>, mask: Mask, line: string)
    ensures line in Emit(records, mask) <==>
      exists i :: 0 <= i < |records| && Enabled(mask, records[i].kind) && line == Line(records[i])
  {
    var kept := Kept(records, mask);
    MapMembers(kept, Line, line);
    if line in Emit(records, mask) {
      var rec :| rec in kept && line == Line(rec);
      FilterMembers(records, Shown(mask), rec);
    }
    if exists i :: 0 <= i < |records| && Enabled(mask, records[i].kind) && line == Line(records[i]) {
      var i :| 0 <= i < |records| && Enabled(mask, records[i].kind) && line == Line(records[i]);
      FilterMembers(records, Shown(mask), records[i]);
    }
  }

  /** How many records are of a metric enabled in the mask. */
  function CountEnabled(records: seq<MetricRecord>, mask: Mask): nat {
    if |records| == 0 then 0
    else CountEnabled(records[..|records| - 1], mask) + (if Enabled(mask, records[|records| - 1].kind) then 1 else 0)
  }

  /** One line per enabled record. */
  lemma {:induction false} EmitCount(records: seq<MetricRecord>, mask: Mask)
    ensures |Emit(records, mask)| == CountEnabled(records, mask)
  {
    if |records| > 0 {
      EmitCount(records[..|records| - 1], mask);
    }
  }

  /** With exactly one metric enabled, one line per record of that metric. */
  lemma {:induction false} CountEnabledOnly(records: seq<MetricRecord>, mask: Mask, k: MetricKind)
    requires forall k' :: Enabled(mask, k') <==> k' == k
    ensures CountEnabled(records, mask) == CountKind(records, k)
  {
    if |records| > 0 {
      CountEnabledOnly(records[..|records| - 1], mask, k);
    }
  }

  /** Whether a record is of metric `k`. */
  function OfKind(k: MetricKind): MetricRecord -> bool {
    (rec: MetricRecord) => rec.kind == k
  }

  /** With exactly one metric enabled, the kept records are the records of
      that metric, in order. */
  lemma {:induction false} KeptOnly(records: seq<MetricRecord>, mask: Mask, k: MetricKind)
    requires forall k' :: Enabled(mask, k') <==> k' == k
    ensures Kept(records, mask) == Filter(records, OfKind(k))
  {
    if |records| > 0 {
      KeptOnly(records[..|records| - 1], mask, k);
    }
  }

  /** With every metric enabled, every record is kept, in order. */
  lemma {:induction false} KeptAll(records: seq<MetricRecord>, mask: Mask)
    requires forall k :: Enabled(mask, k)
    ensures Kept(records, mask) == records
  {
    if |records| > 0 {
      KeptAll(records[..|records| - 1], mask);
      assert records == records[..|records| - 1] + [records[|records| - 1]];
    }
  }

  /** With every metric enabled, every record is printed, in order. */
  lemma EmitAll(records: seq<MetricRecord>, mask: Mask)
    requires forall k :: Enabled(mask, k)
    ensures Emit(records, mask) == Map(records, Line)
  {
    KeptAll(records, mask);
  }

  /** Where STATUS is disabled, a down spec prints nothing at all. */
  lemma DownSpecSilent(spec: WatchSpec, mask: Mask)
    requires !IsUp(spec) && !Enabled(mask, Status)
    ensures Emit(Aggregate(spec), mask) == []
  {
    var r := Aggregate(spec);
    assert r == [r[0]];
    EmitOne(r[0], mask);
  }

  // ---------------------------------------------------------------------
  // Reading a printed line back.

  /** What a reader of the output recovers from one line. */
  datatype Reading = Reading(id: string, value: Num, objectLabel: string)

  /** Splitting a line at `|` and reading its value with `parseFloat`. */
  function ReadLine(line: string): Option<Reading> {
    var parts := Split(line, '|');
    if |parts| != 3 then None else Some(Reading(parts[0], ParseFloat(parts[1]), parts[2]))
  }

  /** The number a record's printed value stands for: 1 or 0 for STATUS,
      an aggregate rounded to hundredths, or `NaN`. */
  function Meaning(v: Value): Num {
    match v
    case Liveness(up) => Finite(if up then 1.0 else 0.0)
    case Amount(NaN) => NaN
    case Amount(Finite(x)) => Finite(Round2(x))
  }

  /** A printed value never contains the field separator. */
  lemma ValueTextHasNoBar(v: Value)
    ensures '|' !in ValueText(v)
  {
    match v
    case Liveness(up) =>
      var s := NatToString(if up then 1 else 0);
      assert forall i :: 0 <= i < |s| ==> IsDigit(s[i], Decimal);
    case Amount(NaN) =>
    case Amount(Finite(x)) =>
      var a := FixedAbs(if x < 0.0 then -x else x);
      assert forall i :: 0 <= i < |a| ==> a[i] != '|' by {
        forall i | 0 <= i < |a| ensures a[i] != '|' {
          if i != |a| - 3 { assert IsDigit(a[i], Decimal); }
        }
      }
      if x < 0.0 {
        assert Fixed2(x) == "-" + a;
        assert forall i :: 0 <= i < |Fixed2(x)| ==> Fixed2(x)[i] != '|' by {
          forall i | 0 <= i < |Fixed2(x)| ensures Fixed2(x)[i] != '|' {
            if i > 0 { assert Fixed2(x)[i] == a[i - 1]; }
          }
        }
      }
  }

  /** `NaN` reads back as `NaN`. */
  lemma ParseFloatNaN()
    ensures ParseFloat("NaN") == NaN
  {
    var s := "NaN";
    assert !IsSpace(s[0]) && !IsDigit(s[0], Decimal);
    assert TrimStart(s) == s;
  }

  /** The value text reads back as the number it stands for. */
  lemma ValueTextRoundTrip(v: Value)
    ensures ParseFloat(ValueText(v)) == Meaning(v)
  {
    match v
    case Liveness(up) =>
      ParseFloatRendered(if up then 1 else 0);
    case Amount(NaN) =>
      ParseFloatNaN();
    case Amount(Finite(x)) =>
      Fixed2RoundTrip(x);
  }

  /** Reading a printed line gives back the metric's identifier, the
      record's value to two decimals, and the object label, provided the
      label itself holds no `|`. */
  lemma LineRoundTrip(rec: MetricRecord)
    requires '|' !in rec.objectLabel
    ensures ReadLine(Line(rec)) == Some(Reading(Id(rec.kind), Meaning(rec.value), rec.objectLabel))
  {
    var parts := [Id(rec.kind), ValueText(rec.value), rec.objectLabel];
    IdHasNoBar(rec.kind);
    ValueTextHasNoBar(rec.value);
    SplitJoin(parts, '|');
    ValueTextRoundTrip(rec.value);
  }
}
