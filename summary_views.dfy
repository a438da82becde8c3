/**
 * The per-dataset summary endpoint. Its summary calculation keeps a column
 * resolver of its own: for each metric it takes the first header, in the
 * file's column order, whose lower-cased (not trimmed) text is an alias, and
 * it uses a different alias list for the equipment column than the upload
 * pipeline does.
 */
module SummaryViews {
  import opened Common
  import opened Text
  import opened Frame
  import opened Numeric
  import EquipmentUtils
  import Models

  /** The three metrics, each with its aliases (all already in lower case), in dict order. */
  const MetricAliases: seq<(string, seq<string>)> := [
    ("flowrate", ["flowrate", "flow_rate", "flow", "rate"]),
    ("pressure", ["pressure", "press", "psi", "bar"]),
    ("temperature", ["temperature", "temp", "celsius", "fahrenheit"])
  ]

  const EquipmentAliases: seq<string> := ["equipment_type", "equipment", "type", "device_type", "machine_type"]

  /**
   * The position of the first header whose lower-cased text is one of the
   * aliases: header order decides, not the order of the aliases.
   */
  function HeaderMatch(headers: seq<string>, aliases: seq<string>): (r: Option<nat>)
    ensures r.None? <==> forall k :: 0 <= k < |headers| ==> Lower(headers[k]) !in aliases
    ensures r.Some? ==> r.value < |headers| && Lower(headers[r.value]) in aliases
                        && forall k :: 0 <= k < r.value ==> Lower(headers[k]) !in aliases
  {
    if headers == [] then None
    else if Lower(headers[0]) in aliases then Some(0)
    else
      var r := HeaderMatch(headers[1..], aliases);
      assert forall k :: 1 <= k < |headers| ==> headers[k] == headers[1..][k - 1];
      if r.Some? then Some(r.value + 1) else None
  }

  /** `pd.to_numeric(column, errors='coerce')`, then the values that are not NaN. */
  function Coerced(cells: seq<Cell>): seq<real> {
    Numbers(seq(|cells|, i requires 0 <= i < |cells| => ToNumeric(cells[i])))
  }

  /**
   * One entry of `averages`: the rounded mean of the coercible values of the
   * matched column. None when no header matches, when nothing is coercible,
   * and when the matched name labels several columns (then `df[col]` is a
   * frame, `to_numeric` raises and the handler stores None).
   */
  function MetricAverage(t: Table, aliases: seq<string>): Option<real>
    requires WellFormed(t)
  {
    match HeaderMatch(t.headers, aliases)
    case None => None
    case Some(j) =>
      if EquipmentUtils.Duplicated(t.headers, t.headers[j]) then None
      else
        var xs := Coerced(Column(t, j));
        if xs == [] then None else Some(Round2(Mean(xs)))
  }

  /** `averages` once the first m metrics have been looked at. */
  function AveragesAfter(t: Table, m: nat): (d: Dict<Option<real>>)
    requires WellFormed(t) && m <= |MetricAliases|
    ensures |d| == |MetricAliases|
  {
    seq(|MetricAliases|, i requires 0 <= i < |MetricAliases| =>
      (MetricAliases[i].0, if i < m then MetricAverage(t, MetricAliases[i].1) else None))
  }

  /**
   * The equipment distribution: the value counts of the first matching
   * column, keyed by the text of each value, missing values left out.
   */
  function EquipmentDistribution(t: Table, render: real -> string): Dict<nat>
    requires WellFormed(t)
  {
    match HeaderMatch(t.headers, EquipmentAliases)
    case None => []
    case Some(j) => ValueCounts(PresentTexts(Column(t, j), render))
  }

  datatype DataSummary = DataSummary(totalRecords: nat, averages: Dict<Option<real>>, distribution: Dict<nat>)

  function DataSummaryOf(t: Table, render: real -> string): DataSummary
    requires WellFormed(t)
  {
    DataSummary(|t.rows|, AveragesAfter(t, |MetricAliases|), EquipmentDistribution(t, render))
  }

  // ---------------------------------------------------------------------
  // The endpoint

  /** The responses of `data_summary_api`. */
  datatype SummaryApiResponse =
    | Summary(summary: DataSummary)
    | BadRequest(error: string, message: string)
    | NotFound(error: string, message: string)
    | ServerError(error: string, message: string)

  /**
   * `data_summary_api` for dataset `id`: `dataset` is the stored record, if
   * any, and `file` the outcome of reading its CSV (None when the file is
   * gone, `Err` with the message when `read_csv` raises). Storing the
   * summary record is left out.
   */
  function DataSummaryApi(id: int, dataset: Option<Models.Dataset>, file: Option<Result<Table>>,
                          render: real -> string): (r: SummaryApiResponse)
    requires file.Some? && file.value.Ok? ==> WellFormed(file.value.value)
    ensures dataset.None? ==> r == NotFound("Dataset not found", "Dataset with ID " + IntToString(id) + " does not exist")
    ensures dataset.Some? && !dataset.value.isProcessed ==>
      r == BadRequest("Dataset not yet processed", "Please wait for dataset processing to complete")
    ensures r.Summary? <==> dataset.Some? && dataset.value.isProcessed && file.Some? && file.value.Ok?
    ensures r.Summary? ==> r.summary == DataSummaryOf(file.value.value, render)
                           && r.summary.totalRecords == |file.value.value.rows|
  {
    match dataset
    case None => NotFound("Dataset not found", "Dataset with ID " + IntToString(id) + " does not exist")
    case Some(d) =>
      if !d.isProcessed then
        BadRequest("Dataset not yet processed", "Please wait for dataset processing to complete")
      else
        match file
        case None => NotFound("Dataset file not found", "The original CSV file is no longer available")
        case Some(Err(e)) => ServerError("Failed to read CSV file", e)
        case Some(Ok(t)) => Summary(DataSummaryOf(t, render))
  }

  /** An unprocessed dataset is refused the same way whatever its file holds, before any file is read. */
  lemma UnprocessedIgnoresFile(id: int, d: Models.Dataset, f1: Option<Result<Table>>, f2: Option<Result<Table>>,
                               render: real -> string)
    requires !d.isProcessed
    requires f1.Some? && f1.value.Ok? ==> WellFormed(f1.value.value)
    requires f2.Some? && f2.value.Ok? ==> WellFormed(f2.value.value)
    ensures DataSummaryApi(id, Some(d), f1, render) == DataSummaryApi(id, Some(d), f2, render)
    ensures DataSummaryApi(id, Some(d), f1, render).BadRequest?
  {
  }

  /** The scan `for col in df.columns: if col.lower() in names: ...; break`. */
  method FindHeader(headers: seq<string>, aliases: seq<string>) returns (found: Option<nat>)
    ensures found == HeaderMatch(headers, aliases)
  {
    found := None;
    var j := 0;
    while j < |headers|
      invariant 0 <= j <= |headers|
      invariant forall k :: 0 <= k < j ==> Lower(headers[k]) !in aliases
    {
      if Lower(headers[j]) in aliases {
        found := Some(j);
        break;
      }
      j := j + 1;
    }
  }

  /** One pass of the metric loop: look the metric's column up and store its average. */
  method UpdateAverage(t: Table, averages: Dict<Option<real>>, m: nat) returns (next: Dict<Option<real>>)
    requires WellFormed(t) && m < |MetricAliases| && averages == AveragesAfter(t, m)
    ensures next == AveragesAfter(t, m + 1)
  {
    var metric := MetricAliases[m].0;
    var found := FindHeader(t.headers, MetricAliases[m].1);
    AveragesStep(t, m);
    PutAt(averages, m, MetricAverage(t, MetricAliases[m].1));
    next := averages;
    if found.Some? {
      var col := t.headers[found.value];
      if EquipmentUtils.Duplicated(t.headers, col) {
        next := Put(next, metric, None);
      } else {
        var xs := Coerced(Column(t, found.value));
        if xs != [] {
          next := Put(next, metric, Some(Round2(Mean(xs))));
        }
      }
    }
  }

  /** Averaging metric `m` fills in its slot, which held None, and leaves the others alone. */
  lemma AveragesStep(t: Table, m: nat)
    requires WellFormed(t) && m < |MetricAliases|
    ensures AveragesAfter(t, m)[m] == (MetricAliases[m].0, None)
    ensures forall j :: 0 <= j < m ==> AveragesAfter(t, m)[j].0 != AveragesAfter(t, m)[m].0
    ensures AveragesAfter(t, m + 1)
            == AveragesAfter(t, m)[m := (MetricAliases[m].0, MetricAverage(t, MetricAliases[m].1))]
  {
    var a := AveragesAfter(t, m);
    assert forall j :: 0 <= j < |MetricAliases| ==> a[j].0 == MetricAliases[j].0;
    assert MetricAliases[0].0[0] == 'f' && MetricAliases[1].0[0] == 'p' && MetricAliases[2].0[0] == 't';
  }

  /** `for k, c in counts.items(): dist[str(k)] = int(c)` over counts with distinct keys. */
  method CopyCounts(counts: Dict<nat>) returns (dist: Dict<nat>)
    requires DistinctKeys(counts)
    ensures dist == counts
  {
    dist := [];
    for k := 0 to |counts|
      invariant dist == counts[..k]
    {
      assert !HasKey(counts[..k], counts[k].0);
      PutNew(counts[..k], counts[k].0, counts[k].1);
      assert counts[..k + 1] == counts[..k] + [counts[k]];
      dist := Put(dist, counts[k].0, counts[k].1);
    }
    assert counts[..|counts|] == counts;
  }

  /** `calculate_data_summary`. */
  method CalculateDataSummary(t: Table, render: real -> string) returns (s: DataSummary)
    requires WellFormed(t)
    ensures s == DataSummaryOf(t, render)
    ensures s.totalRecords == |t.rows|
    ensures Keys(s.averages) == ["flowrate", "pressure", "temperature"]
  {
    var averages: Dict<Option<real>> := [("flowrate", None), ("pressure", None), ("temperature", None)];
    assert averages == AveragesAfter(t, 0);
    for m := 0 to |MetricAliases|
      invariant averages == AveragesAfter(t, m)
    {
      averages := UpdateAverage(t, averages, m);
    }
    var distribution: Dict<nat> := [];
    var eq := FindHeader(t.headers, EquipmentAliases);
    if eq.Some? {
      var xs := PresentTexts(Column(t, eq.value), render);
      ValueCountsDistinct(xs);
      distribution := CopyCounts(ValueCounts(xs));
    }
    s := DataSummary(|t.rows|, averages, distribution);
    assert Keys(averages) == ["flowrate", "pressure", "temperature"] by {
      assert Keys(averages)[0] == averages[0].0 == "flowrate";
      assert Keys(averages)[1] == averages[1].0 == "pressure";
      assert Keys(averages)[2] == averages[2].0 == "temperature";
    }
  }

  // ---------------------------------------------------------------------
  // What the summary states

  /**
   * An average is present exactly when the first matching header names a
   * single column with some coercible value; it is then that column's mean
   * rounded to two decimals, so it lies within half a hundredth of the range
   * of the values.
   */
  lemma MetricAverageMeaning(t: Table, aliases: seq<string>)
    requires WellFormed(t)
    ensures MetricAverage(t, aliases).Some? <==>
      (HeaderMatch(t.headers, aliases).Some?
       && !EquipmentUtils.Duplicated(t.headers, t.headers[HeaderMatch(t.headers, aliases).value])
       && Coerced(Column(t, HeaderMatch(t.headers, aliases).value)) != [])
    ensures MetricAverage(t, aliases).Some? ==>
      var xs := Coerced(Column(t, HeaderMatch(t.headers, aliases).value));
      && MetricAverage(t, aliases).value == Round2(Mean(xs))
      && MinOf(xs) - 0.005 < MetricAverage(t, aliases).value <= MaxOf(xs) + 0.005
  {
    if MetricAverage(t, aliases).Some? {
      var xs := Coerced(Column(t, HeaderMatch(t.headers, aliases).value));
      MeanBetweenMinMax(xs);
    }
  }

  /** `averages` holds the three metrics, in order, each with its own average. */
  lemma AveragesMeaning(t: Table, render: real -> string, i: nat)
    requires WellFormed(t) && i < |MetricAliases|
    ensures Keys(DataSummaryOf(t, render).averages) == ["flowrate", "pressure", "temperature"]
    ensures Get(DataSummaryOf(t, render).averages, MetricAliases[i].0) == Some(MetricAverage(t, MetricAliases[i].1))
  {
    var d := DataSummaryOf(t, render).averages;
    assert d[0].0 == "flowrate" && d[1].0 == "pressure" && d[2].0 == "temperature";
    assert Keys(d) == ["flowrate", "pressure", "temperature"];
    assert DistinctKeys(d);
    GetDistinct(d, i);
  }

  /**
   * The distribution is empty when no header matches. Otherwise it holds
   * each present value of the matched column once, with its number of
   * occurrences, most frequent first, and its counts add up to the number of
   * present cells, at most the number of rows.
   */
  lemma EquipmentDistributionMeaning(t: Table, render: real -> string)
    requires WellFormed(t)
    ensures HeaderMatch(t.headers, EquipmentAliases).None? ==> EquipmentDistribution(t, render) == []
    ensures HeaderMatch(t.headers, EquipmentAliases).Some? ==>
      var col := Column(t, HeaderMatch(t.headers, EquipmentAliases).value);
      var xs := PresentTexts(col, render);
      var d := EquipmentDistribution(t, render);
      && DistinctKeys(d)
      && CountsDescending(d)
      && SumValues(d) == |t.rows| - CountMissing(col) <= |t.rows|
      && (forall k :: 0 <= k < |d| ==> d[k].0 in xs && d[k].1 == Occurrences(xs, d[k].0))
      && (forall x :: x in xs ==> HasKey(d, x))
  {
    if HeaderMatch(t.headers, EquipmentAliases).Some? {
      var xs := PresentTexts(Column(t, HeaderMatch(t.headers, EquipmentAliases).value), render);
      ValueCountsCorrect(xs);
      ValueCountsDistinct(xs);
    }
  }

  // ---------------------------------------------------------------------
  // How this resolver differs from the upload pipeline's

  /** The pipeline's resolver takes the header of the first alias, in priority order, that matches. */
  lemma {:induction false} PickAt(headers: seq<string>, n: seq<string>, aliases: seq<string>, q: nat, idx: nat)
    requires |n| == |headers| && q < |aliases|
    requires forall i :: 0 <= i < q ==> Lower(aliases[i]) !in n
    requires IndexOf(n, Lower(aliases[q])) == Some(idx)
    ensures EquipmentUtils.Pick(headers, n, aliases) == Some(headers[idx])
  {
    if q > 0 {
      PickAt(headers, n, aliases[1..], q - 1, idx);
    }
  }

  lemma NotInPair(n: seq<string>, x: string)
    requires |n| == 2 && x != n[0] && x != n[1]
    ensures x !in n
  {
  }

  /** With two normalised headers, the second matching the first alias found, the pipeline takes the second. */
  lemma PickSecond(headers: seq<string>, n: seq<string>, aliases: seq<string>, q: nat)
    requires |n| == |headers| == 2 && q < |aliases|
    requires n[1] == Lower(aliases[q]) && n[0] != Lower(aliases[q])
    requires forall i :: 0 <= i < q ==> Lower(aliases[i]) != n[0] && Lower(aliases[i]) != n[1]
    ensures EquipmentUtils.Pick(headers, n, aliases) == Some(headers[1])
  {
    forall i | 0 <= i < q
      ensures Lower(aliases[i]) !in n
    {
      NotInPair(n, Lower(aliases[i]));
    }
    assert Lower(aliases[q]) in n;
    PickAt(headers, n, aliases, q, 1);
  }

  /**
   * Header order decides here: when a header matching a lower-priority alias
   * comes before one matching a higher-priority alias, this resolver takes
   * the first header and the upload pipeline the second (with `rate` before
   * `flowrate`, `rate` is averaged while the pipeline maps `flowrate`).
   */
  lemma HeaderOrderBeatsPriority(headers: seq<string>, aliases: seq<string>, p: nat, q: nat)
    requires |headers| == 2 && q < p < |aliases| && aliases[p] != aliases[q]
    requires Lower(headers[0]) == aliases[p] && Lower(headers[1]) == aliases[q]
    requires Strip(aliases[p]) == aliases[p] && Strip(aliases[q]) == aliases[q]
    requires Lower(aliases[q]) == aliases[q]
    requires forall i :: 0 <= i < q ==> Lower(aliases[i]) != aliases[p] && Lower(aliases[i]) != aliases[q]
    ensures HeaderMatch(headers, aliases) == Some(0)
    ensures EquipmentUtils.Resolve(headers, aliases) == Some(headers[1])
  {
    assert aliases[p] in aliases;
    var n := EquipmentUtils.NormalizedHeaders(headers);
    assert n[0] == aliases[p] && n[1] == aliases[q];
    PickSecond(headers, n, aliases, q);
  }

  /**
   * Headers are not trimmed here: a header that matches an alias only once
   * its surrounding spaces are removed (such as ` flowrate`) is found by the
   * upload pipeline and missed by this resolver.
   */
  lemma UntrimmedHeaderMissed(h: string, aliases: seq<string>, q: nat)
    requires q < |aliases| && Strip(Lower(h)) == aliases[q] && Lower(aliases[q]) == aliases[q]
    requires Lower(h) !in aliases
    requires forall i :: 0 <= i < q ==> Lower(aliases[i]) != aliases[q]
    ensures HeaderMatch([h], aliases).None?
    ensures EquipmentUtils.Resolve([h], aliases) == Some(h)
  {
    var n := EquipmentUtils.NormalizedHeaders([h]);
    assert n == [aliases[q]];
    PickAt([h], n, aliases, q, 0);
  }

  /** The metric alias lists are the pipeline's; only the equipment list differs. */
  lemma SharedMetricAliases()
    ensures forall i :: 0 <= i < |MetricAliases| ==>
      MetricAliases[i] == EquipmentUtils.RequiredColumns[i + 2]
    ensures "category" in EquipmentUtils.RequiredColumns[1].1 && "category" !in EquipmentAliases
    ensures "device_type" in EquipmentAliases && "device_type" !in EquipmentUtils.RequiredColumns[1].1
  {
  }
}
