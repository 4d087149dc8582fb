/** The five metric definitions, their protocol identifiers, and the
    positional on/off mask read from the first argument. */
module Metrics {
  import opened Wrappers
  import opened JsString
  import opened JsNumber
  import opened Errors

  datatype MetricKind = Status | VmMem | PhMem | MemUs | CpuUs

  /** The order in which the definitions are declared, which is the order a
      `for ... in` walk visits them and so the order of the mask tokens. */
  const Order: seq<MetricKind> := [Status, VmMem, PhMem, MemUs, CpuUs]

  /** The identifier the output protocol uses for each metric. */
  function Id(k: MetricKind): string {
    match k
    case Status => "27:Status:9"
    case VmMem => "94:Proc Virtual Memory:4"
    case PhMem => "18:Proc Physical Memory:4"
    case MemUs => "92:% Proc Memory Utilization:6"
    case CpuUs => "53:% Proc CPU Utilization:6"
  }

  /** Where a metric stands in `Order`. */
  function Position(k: MetricKind): (i: nat)
    ensures i < |Order| && Order[i] == k
  {
    match k
    case Status => 0
    case VmMem => 1
    case PhMem => 2
    case MemUs => 3
    case CpuUs => 4
  }

  /** `Order` lists every metric exactly once, and the identifiers tell the
      metrics apart and never contain the `|` the output lines use. */
  lemma OrderIsPermutation()
    ensures forall i :: 0 <= i < |Order| ==> Position(Order[i]) == i
    ensures forall k, l :: Id(k) == Id(l) ==> k == l
  {
    forall k, l | Id(k) == Id(l) ensures k == l {
      assert |Id(k)| == |Id(l)|;
    }
  }

  lemma IdHasNoBar(k: MetricKind)
    ensures '|' !in Id(k)
  {
    match k
    case Status => assert '|' !in "27:Status:9";
    case VmMem => assert '|' !in "94:Proc Virtual Memory:4";
    case PhMem => assert '|' !in "18:Proc Physical Memory:4";
    case MemUs => assert '|' !in "92:% Proc Memory Utilization:6";
    case CpuUs => assert '|' !in "53:% Proc CPU Utilization:6";
  }

  /** The `retrieveMetric` value of every metric, indexed by `Position`:
      whatever `parseInt` made of its token (`None` is `NaN`). */
  type Mask = flags: seq<Option<int>> | |flags| == |Order| witness [None, None, None, None, None]

  function Flag(mask: Mask, k: MetricKind): Option<int> {
    mask[Position(k)]
  }

  /** A metric is printed only when its flag is exactly the number 1. */
  predicate Enabled(mask: Mask, k: MetricKind) {
    Flag(mask, k) == Some(1)
  }

  /** The comma-separated tokens of the metric-state argument once every `"`
      is removed. */
  function MaskTokens(metricState: string): seq<string> {
    Split(RemoveAll(metricState, '"'), ',')
  }

  /** Reads the metric-state argument: the i-th token sets the flag of the
      i-th metric of `Order`, and a token count other than the number of
      metrics is a fatal error. */
  function ParseMask(metricState: string): (r: Result<Mask, Error>)
    ensures r.Failure? <==> |MaskTokens(metricState)| != |Order|
    ensures r.Failure? ==> r.error == InvalidMetricState
    ensures r.Success? ==> forall i :: 0 <= i < |Order| ==>
              Flag(r.value, Order[i]) == ParseInt(MaskTokens(metricState)[i], true)
  {
    var tokens := MaskTokens(metricState);
    if |tokens| != |Order| then Failure(InvalidMetricState)
    else
      var flags := seq(|Order|, i requires 0 <= i < |Order| => ParseInt(tokens[i], true));
      OrderIsPermutation();
      Success(flags)
  }

  /** The mask is accepted exactly when the argument holds four commas;
      quotes do not count. */
  lemma ParseMaskAcceptsFourCommas(metricState: string)
    ensures ParseMask(metricState).Success? <==> Occurrences(metricState, ',') == 4
  {
    var cleaned := RemoveAll(metricState, '"');
    SplitCount(cleaned, ',');
    assert Occurrences(cleaned, ',') == Occurrences(metricState, ',');
  }

  /** The metric-state text that switches on exactly the metrics `on` marks,
      in `Order`. */
  function RenderMask(on: seq<bool>): string
    requires |on| == |Order|
  {
    Join(seq(|on|, i requires 0 <= i < |on| => if on[i] then "1" else "0"), ',')
  }

  lemma RemoveAllAbsent(s: string, c: char)
    requires c !in s
    ensures RemoveAll(s, c) == s
  {
    if |s| > 0 {
      assert c !in s[1..];
      RemoveAllAbsent(s[1..], c);
      assert s == [s[0]] + s[1..];
    }
  }

  lemma FlagTokens()
    ensures ParseInt("1", true) == Some(1)
    ensures ParseInt("0", true) == Some(0)
  {
    ParseIntRendered(1, true);
    ParseIntRendered(0, true);
    assert NatToString(1) == "1";
    assert NatToString(0) == "0";
  }

  /** Rendering a choice of metrics and reading it back enables exactly the
      chosen metrics. */
  lemma {:induction false} RenderMaskRoundTrip(on: seq<bool>)
    requires |on| == |Order|
    ensures ParseMask(RenderMask(on)).Success?
    ensures forall i :: 0 <= i < |Order| ==> (Enabled(ParseMask(RenderMask(on)).value, Order[i]) <==> on[i])
  {
    var tokens := seq(|on|, i requires 0 <= i < |on| => if on[i] then "1" else "0");
    var text := Join(tokens, ',');
    assert '"' !in text by {
      JoinFree(tokens, '"', ',');
    }
    RemoveAllAbsent(text, '"');
    SplitJoin(tokens, ',');
    assert MaskTokens(text) == tokens;
    FlagTokens();
  }

  /** A join contains a character only if a piece or the separator does. */
  lemma {:induction false} JoinFree(parts: seq<string>, c: char, sep: char)
    requires |parts| >= 1 && c != sep
    requires forall i :: 0 <= i < |parts| ==> c !in parts[i]
    ensures c !in Join(parts, sep)
  {
    if |parts| > 1 {
      JoinFree(parts[1..], c, sep);
    }
  }
}
