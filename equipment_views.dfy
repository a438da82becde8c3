/**
 * The equipment endpoints: the combined summary over every processed
 * dataset (record-weighted averages, summed type distributions, the most
 * common type overall), the conversion of a summary into JSON-ready values,
 * the decision flow of CSV validation, and how an upload failure is reported.
 */
module EquipmentViews {
  import opened Common
  import opened Text
  import opened Frame
  import opened Py
  import opened Numeric
  import Utils
  import EquipmentUtils

  // ---------------------------------------------------------------------
  // data_summary, combined branch

  /** The stored summary of one processed dataset, as far as the combined summary reads it. */
  datatype StoredSummary = StoredSummary(datasetId: nat, name: string, totalRecords: nat,
                                         avgFlowrate: Option<real>, avgPressure: Option<real>,
                                         avgTemperature: Option<real>, distribution: Dict<nat>)

  datatype Metric = Flowrate | Pressure | Temperature

  function Average(s: StoredSummary, m: Metric): Option<real> {
    match m
    case Flowrate => s.avgFlowrate
    case Pressure => s.avgPressure
    case Temperature => s.avgTemperature
  }

  /** `sum(s.total_records for s in summaries)`. */
  function TotalRecords(ss: seq<StoredSummary>): nat {
    if ss == [] then 0 else ss[0].totalRecords + TotalRecords(ss[1..])
  }

  /** One summary's share of the weighted sum: its average times its record count, or 0 without an average. */
  function Term(s: StoredSummary, m: Metric): real {
    match Average(s, m)
    case Some(a) => Scale(a, s.totalRecords)
    case None => 0.0
  }

  /** One summary's share of the weight: its record count, or 0 without an average. */
  function Share(s: StoredSummary, m: Metric): nat {
    if Average(s, m).Some? then s.totalRecords else 0
  }

  /** `sum(s.avg * s.total_records for s in summaries if s.avg is not None)`. */
  function WeightedSum(ss: seq<StoredSummary>, m: Metric): real {
    if ss == [] then 0.0 else Term(ss[0], m) + WeightedSum(ss[1..], m)
  }

  /** `sum(s.total_records for s in summaries if s.avg is not None)`. */
  function Weight(ss: seq<StoredSummary>, m: Metric): nat {
    if ss == [] then 0 else Share(ss[0], m) + Weight(ss[1..], m)
  }

  /** The combined average: None when the weights add up to 0. */
  function CombinedAverage(ss: seq<StoredSummary>, m: Metric): Option<real> {
    var w := Weight(ss, m);
    if w > 0 then Some(WeightedSum(ss, m) / w as real) else None
  }

  /** The averages that take part, in order. */
  function Contributing(ss: seq<StoredSummary>, m: Metric): seq<real> {
    if ss == [] then []
    else if Average(ss[0], m).Some? then [Average(ss[0], m).value] + Contributing(ss[1..], m)
    else Contributing(ss[1..], m)
  }

  lemma {:induction false} WeightZero(ss: seq<StoredSummary>, m: Metric)
    ensures Weight(ss, m) == 0 <==> forall i :: 0 <= i < |ss| && Average(ss[i], m).Some? ==> ss[i].totalRecords == 0
  {
    if ss != [] {
      WeightZero(ss[1..], m);
      assert forall i :: 1 <= i < |ss| ==> ss[i] == ss[1..][i - 1];
    }
  }

  /** The combined average is None exactly when every summary with an average has no records. */
  lemma CombinedAverageNone(ss: seq<StoredSummary>, m: Metric)
    ensures CombinedAverage(ss, m).None? <==>
            forall i :: 0 <= i < |ss| && Average(ss[i], m).Some? ==> ss[i].totalRecords == 0
  {
    WeightZero(ss, m);
  }

  /** With one shared record count w, the weighted sum is w times the sum of the averages. */
  lemma {:induction false} EqualWeightSum(ss: seq<StoredSummary>, m: Metric, w: nat)
    requires forall i :: 0 <= i < |ss| && Average(ss[i], m).Some? ==> ss[i].totalRecords == w
    ensures WeightedSum(ss, m) == Scale(Sum(Contributing(ss, m)), w)
  {
    if ss == [] {
      ScaleZero(w);
    } else {
      var tail := ss[1..];
      assert forall i :: 0 <= i < |tail| ==> tail[i] == ss[i + 1];
      EqualWeightSum(tail, m, w);
      var rest := Contributing(tail, m);
      if Average(ss[0], m).Some? {
        var a := Average(ss[0], m).value;
        assert Contributing(ss, m) == [a] + rest;
        assert ([a] + rest)[1..] == rest;
        assert Sum([a] + rest) == a + Sum(rest);
        assert ss[0].totalRecords == w;
        assert Term(ss[0], m) == Scale(a, w);
        ScaleAddValues(a, Sum(rest), w);
      } else {
        assert Contributing(ss, m) == rest;
        assert Term(ss[0], m) == 0.0;
      }
      assert WeightedSum(ss, m) == Term(ss[0], m) + WeightedSum(tail, m);
    }
  }

  /** With one shared record count w, the weight is w once per average. */
  lemma {:induction false} EqualWeightCount(ss: seq<StoredSummary>, m: Metric, w: nat)
    requires forall i :: 0 <= i < |ss| && Average(ss[i], m).Some? ==> ss[i].totalRecords == w
    ensures Weight(ss, m) == w * |Contributing(ss, m)|
  {
    if ss != [] {
      var tail := ss[1..];
      assert forall i :: 0 <= i < |tail| ==> tail[i] == ss[i + 1];
      EqualWeightCount(tail, m, w);
      var rest := Contributing(tail, m);
      if Average(ss[0], m).Some? {
        assert |Contributing(ss, m)| == 1 + |rest|;
        assert ss[0].totalRecords == w;
        DistributeNat(w, |rest|);
      } else {
        assert Contributing(ss, m) == rest;
      }
    }
  }

  lemma DistributeNat(w: nat, n: nat)
    ensures w + w * n == w * (1 + n)
  {
  }

  /** (s·w) / (w·n) = s / n for positive w and n. */
  lemma Ratio(s: real, w: nat, n: nat)
    requires w > 0 && n > 0
    ensures w * n > 0
    ensures Scale(s, w) / (w * n) as real == s / n as real
  {
    ScaleIsProduct(s, w);
    var x := s * w as real;
    var d := (w * n) as real;
    assert d == w as real * n as real;
    assert d > 0.0;
    assert x / d * d == x;
    assert s / n as real * d == x;
  }

  /**
   * When every contributing summary has the same positive record count, the
   * combined average is the plain mean of the averages.
   */
  lemma EqualWeightsGiveMean(ss: seq<StoredSummary>, m: Metric, w: nat)
    requires w > 0
    requires forall i :: 0 <= i < |ss| && Average(ss[i], m).Some? ==> ss[i].totalRecords == w
    requires Contributing(ss, m) != []
    ensures CombinedAverage(ss, m) == Some(Mean(Contributing(ss, m)))
  {
    var c := Contributing(ss, m);
    EqualWeightSum(ss, m, w);
    EqualWeightCount(ss, m, w);
    Ratio(Sum(c), w, |c|);
  }

  /** One summary's term lies between lo and hi times its share. */
  lemma TermBetween(s: StoredSummary, m: Metric, lo: real, hi: real)
    requires Average(s, m).Some? && s.totalRecords > 0 ==> lo <= Average(s, m).value <= hi
    ensures Scale(lo, Share(s, m)) <= Term(s, m) <= Scale(hi, Share(s, m))
  {
    if Average(s, m).Some? && s.totalRecords > 0 {
      ScaleMonotone(lo, Average(s, m).value, s.totalRecords);
      ScaleMonotone(Average(s, m).value, hi, s.totalRecords);
    }
  }

  lemma {:induction false} WeightedSumBounds(ss: seq<StoredSummary>, m: Metric, lo: real, hi: real)
    requires forall i :: 0 <= i < |ss| && Average(ss[i], m).Some? && ss[i].totalRecords > 0 ==>
               lo <= Average(ss[i], m).value <= hi
    ensures Scale(lo, Weight(ss, m)) <= WeightedSum(ss, m) <= Scale(hi, Weight(ss, m))
  {
    if ss != [] {
      assert forall i :: 0 <= i < |ss[1..]| ==> ss[1..][i] == ss[i + 1];
      WeightedSumBounds(ss[1..], m, lo, hi);
      TermBetween(ss[0], m, lo, hi);
      ScaleAddCounts(lo, Share(ss[0], m), Weight(ss[1..], m));
      ScaleAddCounts(hi, Share(ss[0], m), Weight(ss[1..], m));
    }
  }

  /** Dividing a total that lies between w·lo and w·hi by w lands between lo and hi. */
  lemma DivideScaled(t: real, w: nat, lo: real, hi: real)
    requires w > 0 && Scale(lo, w) <= t <= Scale(hi, w)
    ensures lo <= t / w as real <= hi
  {
    ScaleIsProduct(lo, w);
    ScaleIsProduct(hi, w);
    DivideBounds(t, w as real, lo, hi);
  }

  /** A combined average lies within any bounds of the averages of the summaries that carry weight. */
  lemma CombinedAverageBetween(ss: seq<StoredSummary>, m: Metric, lo: real, hi: real)
    requires forall i :: 0 <= i < |ss| && Average(ss[i], m).Some? && ss[i].totalRecords > 0 ==>
               lo <= Average(ss[i], m).value <= hi
    ensures CombinedAverage(ss, m).Some? ==> lo <= CombinedAverage(ss, m).value <= hi
  {
    WeightedSumBounds(ss, m, lo, hi);
    if Weight(ss, m) > 0 {
      DivideScaled(WeightedSum(ss, m), Weight(ss, m), lo, hi);
    }
  }

  /** How many times `k` is counted in `d`, over all its entries. */
  function KeyTotal(d: Dict<nat>, k: string): nat {
    if d == [] then 0 else KeyTotal(d[..|d| - 1], k) + (if d[|d| - 1].0 == k then d[|d| - 1].1 else 0)
  }

  /** `acc[k] = acc.get(k, 0) + c`. */
  function AddCount(acc: Dict<nat>, k: string, c: nat): Dict<nat> {
    var v: nat := GetOr<nat>(acc, k, 0) + c;
    Put<nat>(acc, k, v)
  }

  /** `for k, c in d.items(): acc[k] = acc.get(k, 0) + c`. */
  function AddCounts(acc: Dict<nat>, d: Dict<nat>): Dict<nat> {
    if d == [] then acc
    else AddCount(AddCounts(acc, d[..|d| - 1]), d[|d| - 1].0, d[|d| - 1].1)
  }

  lemma AddCountsSnoc(acc: Dict<nat>, d: Dict<nat>, j: nat)
    requires j < |d|
    ensures AddCounts(acc, d[..j + 1]) == AddCount(AddCounts(acc, d[..j]), d[j].0, d[j].1)
  {
    assert d[..j + 1][..j] == d[..j];
  }

  /** The combined distribution: each summary's counts added in turn. */
  function CombinedDistribution(ss: seq<StoredSummary>): Dict<nat> {
    if ss == [] then []
    else AddCounts(CombinedDistribution(ss[..|ss| - 1]), ss[|ss| - 1].distribution)
  }

  /** The nested loop building `combined_equipment_dist`. */
  method CombineDistributions(ss: seq<StoredSummary>) returns (combined: Dict<nat>)
    ensures combined == CombinedDistribution(ss)
  {
    combined := [];
    for i := 0 to |ss|
      invariant combined == CombinedDistribution(ss[..i])
    {
      assert ss[..i + 1][..i] == ss[..i];
      var d := ss[i].distribution;
      ghost var start := combined;
      for j := 0 to |d|
        invariant combined == AddCounts(start, d[..j])
      {
        AddCountsSnoc(start, d, j);
        var v: nat := GetOr<nat>(combined, d[j].0, 0) + d[j].1;
        combined := Put<nat>(combined, d[j].0, v);
      }
      assert d[..|d|] == d;
    }
    assert ss[..|ss|] == ss;
  }

  lemma AddCountGet(acc: Dict<nat>, k: string, c: nat, k': string)
    ensures GetOr<nat>(AddCount(acc, k, c), k', 0) == GetOr<nat>(acc, k', 0) + (if k' == k then c else 0)
    ensures HasKey(AddCount(acc, k, c), k') <==> HasKey(acc, k') || k' == k
  {
    var v: nat := GetOr<nat>(acc, k, 0) + c;
    PutGet<nat>(acc, k, v);
  }

  lemma {:induction false} AddCountsGet(acc: Dict<nat>, d: Dict<nat>, k: string)
    ensures GetOr<nat>(AddCounts(acc, d), k, 0) == GetOr<nat>(acc, k, 0) + KeyTotal(d, k)
    ensures HasKey(AddCounts(acc, d), k) <==> HasKey(acc, k) || HasKey(d, k)
  {
    if d != [] {
      var n := |d|;
      var init := d[..n - 1];
      AddCountsGet(acc, init, k);
      AddCountGet(AddCounts(acc, init), d[n - 1].0, d[n - 1].1, k);
      assert HasKey(d, k) <==> HasKey(init, k) || d[n - 1].0 == k by {
        if HasKey(d, k) {
          var i :| 0 <= i < n && d[i].0 == k;
          if i < n - 1 { assert init[i].0 == k; }
        }
        if HasKey(init, k) {
          var i :| 0 <= i < n - 1 && init[i].0 == k;
          assert d[i].0 == k;
        }
      }
    }
  }

  lemma {:induction false} SumValuesAdd(d: Dict<nat>, k: string, c: nat)
    ensures SumValues(AddCount(d, k, c)) == SumValues(d) + c
  {
    if d != [] && d[0].0 != k {
      SumValuesAdd(d[1..], k, c);
      assert GetOr<nat>(d, k, 0) == GetOr<nat>(d[1..], k, 0);
      assert AddCount(d, k, c) == [d[0]] + AddCount(d[1..], k, c);
    }
  }

  lemma {:induction false} AddCountsSum(acc: Dict<nat>, d: Dict<nat>)
    ensures SumValues(AddCounts(acc, d)) == SumValues(acc) + KeyTotalAll(d)
  {
    if d != [] {
      var n := |d|;
      var init := d[..n - 1];
      AddCountsSum(acc, init);
      var prev := AddCounts(acc, init);
      assert AddCounts(acc, d) == AddCount(prev, d[n - 1].0, d[n - 1].1);
      assert KeyTotalAll(d) == KeyTotalAll(init) + d[n - 1].1;
      SumValuesAdd(prev, d[n - 1].0, d[n - 1].1);
    }
  }

  lemma {:induction false} AddCountsDistinct(acc: Dict<nat>, d: Dict<nat>)
    requires DistinctKeys(acc)
    ensures DistinctKeys(AddCounts(acc, d))
  {
    if d != [] {
      var n := |d|;
      var init := d[..n - 1];
      AddCountsDistinct(acc, init);
      var prev := AddCounts(acc, init);
      assert AddCounts(acc, d) == AddCount(prev, d[n - 1].0, d[n - 1].1);
      PutDistinct<nat>(prev, d[n - 1].0, GetOr<nat>(prev, d[n - 1].0, 0) + d[n - 1].1);
    }
  }

  /** All counts of `d` added up, entry by entry from the end. */
  function KeyTotalAll(d: Dict<nat>): nat {
    if d == [] then 0 else KeyTotalAll(d[..|d| - 1]) + d[|d| - 1].1
  }

  lemma {:induction false} KeyTotalAllIsSum(d: Dict<nat>)
    ensures KeyTotalAll(d) == SumValues(d)
  {
    if d != [] {
      var n := |d|;
      KeyTotalAllIsSum(d[..n - 1]);
      SumValuesSnoc(d[..n - 1], d[n - 1]);
      assert d == d[..n - 1] + [d[n - 1]];
    }
  }

  lemma {:induction false} SumValuesSnoc(d: Dict<nat>, e: (string, nat))
    ensures SumValues(d + [e]) == SumValues(d) + e.1
  {
    if d != [] {
      assert (d + [e])[1..] == d[1..] + [e];
      SumValuesSnoc(d[1..], e);
    }
  }

  /** The count of `k` over all summaries. */
  function TypeTotal(ss: seq<StoredSummary>, k: string): nat {
    if ss == [] then 0 else TypeTotal(ss[..|ss| - 1], k) + KeyTotal(ss[|ss| - 1].distribution, k)
  }

  /** The counts of all summaries added up. */
  function AllCounts(ss: seq<StoredSummary>): nat {
    if ss == [] then 0 else AllCounts(ss[..|ss| - 1]) + SumValues(ss[|ss| - 1].distribution)
  }

  /** The combined distribution maps each type to the sum of its counts over all summaries. */
  lemma {:induction false} CombinedDistributionGet(ss: seq<StoredSummary>, k: string)
    ensures GetOr<nat>(CombinedDistribution(ss), k, 0) == TypeTotal(ss, k)
  {
    if ss != [] {
      var n := |ss|;
      var init := ss[..n - 1];
      CombinedDistributionGet(init, k);
      AddCountsGet(CombinedDistribution(init), ss[n - 1].distribution, k);
    }
  }

  /** The combined distribution holds exactly the types some summary counts. */
  lemma {:induction false} CombinedDistributionKeys(ss: seq<StoredSummary>, k: string)
    ensures HasKey(CombinedDistribution(ss), k) <==> exists i :: 0 <= i < |ss| && HasKey(ss[i].distribution, k)
  {
    if ss != [] {
      var n := |ss|;
      var init := ss[..n - 1];
      CombinedDistributionKeys(init, k);
      var d := ss[n - 1].distribution;
      AddCountsGet(CombinedDistribution(init), d, k);
      assert (exists i :: 0 <= i < n && HasKey(ss[i].distribution, k))
             <==> (exists i :: 0 <= i < n - 1 && HasKey(init[i].distribution, k)) || HasKey(d, k) by {
        if exists i :: 0 <= i < n && HasKey(ss[i].distribution, k) {
          var i :| 0 <= i < n && HasKey(ss[i].distribution, k);
          if i < n - 1 { assert init[i] == ss[i]; }
        }
        if exists i :: 0 <= i < n - 1 && HasKey(init[i].distribution, k) {
          var i :| 0 <= i < n - 1 && HasKey(init[i].distribution, k);
          assert init[i] == ss[i];
        }
      }
    }
  }

  /** Each type appears once in the combined distribution, and its counts add up to all the per-dataset counts. */
  lemma {:induction false} CombinedDistributionTotals(ss: seq<StoredSummary>)
    ensures DistinctKeys(CombinedDistribution(ss))
    ensures SumValues(CombinedDistribution(ss)) == AllCounts(ss)
  {
    if ss != [] {
      var n := |ss|;
      var init := ss[..n - 1];
      CombinedDistributionTotals(init);
      var prev := CombinedDistribution(init);
      var d := ss[n - 1].distribution;
      AddCountsSum(prev, d);
      AddCountsDistinct(prev, d);
      KeyTotalAllIsSum(d);
    }
  }

  /** `max(d.items(), key=lambda x: x[1])`: the first entry of maximal count. */
  function FirstMaximal(d: Dict<nat>): (i: nat)
    requires d != []
    ensures i < |d|
    ensures forall j :: 0 <= j < |d| ==> d[j].1 <= d[i].1
    ensures forall j :: 0 <= j < i ==> d[j].1 < d[i].1
  {
    if |d| == 1 then 0
    else
      var n := |d|;
      var i := FirstMaximal(d[..n - 1]);
      assert forall j :: 0 <= j < n - 1 ==> d[..n - 1][j] == d[j];
      if d[n - 1].1 > d[i].1 then n - 1 else i
  }

  /** The most common type overall, None for an empty distribution. */
  function MostCommon(d: Dict<nat>): (r: Option<string>)
    ensures r.None? <==> d == []
    ensures r.Some? ==> HasKey(d, r.value)
  {
    if d == [] then None else
      var i := FirstMaximal(d);
      assert d[i].0 == d[i].0;
      Some(d[i].0)
  }

  datatype CombinedSummary = CombinedSummary(
    totalRecordCount: nat,
    averageFlowrate: Option<real>, averagePressure: Option<real>, averageTemperature: Option<real>,
    distribution: Dict<nat>,
    datasetsIncluded: nat, totalEquipmentTypes: nat,
    mostCommonOverall: Option<string>,
    included: seq<(nat, string)>)

  datatype SummaryResponse = NoneProcessed(error: string, totalDatasets: nat) | Combined(summary: CombinedSummary)

  function Included(ss: seq<StoredSummary>): (r: seq<(nat, string)>)
    ensures |r| == |ss|
    ensures forall i :: 0 <= i < |ss| ==> r[i] == (ss[i].datasetId, ss[i].name)
  {
    seq(|ss|, i requires 0 <= i < |ss| => (ss[i].datasetId, ss[i].name))
  }

  /** The combined branch of `data_summary`, over the processed summaries (a 404 when there is none). */
  method DataSummaryCombined(ss: seq<StoredSummary>) returns (r: SummaryResponse)
    ensures ss == [] <==> r.NoneProcessed?
    ensures r.NoneProcessed? ==> r == NoneProcessed("No processed datasets found", 0)
    ensures r.Combined? ==>
      var c := r.summary;
      && c.totalRecordCount == TotalRecords(ss)
      && c.averageFlowrate == CombinedAverage(ss, Flowrate)
      && c.averagePressure == CombinedAverage(ss, Pressure)
      && c.averageTemperature == CombinedAverage(ss, Temperature)
      && c.distribution == CombinedDistribution(ss)
      && c.datasetsIncluded == |ss|
      && c.totalEquipmentTypes == |c.distribution|
      && c.mostCommonOverall == MostCommon(c.distribution)
      && c.included == Included(ss)
  {
    if |ss| == 0 {
      return NoneProcessed("No processed datasets found", 0);
    }
    var dist := CombineDistributions(ss);
    r := Combined(CombinedSummary(TotalRecords(ss), CombinedAverage(ss, Flowrate), CombinedAverage(ss, Pressure),
                                  CombinedAverage(ss, Temperature), dist, |ss|, |dist|, MostCommon(dist),
                                  Included(ss)));
  }

  /**
   * The most common type overall has the largest combined count, and every
   * type before it in the distribution has a strictly smaller one.
   */
  lemma MostCommonIsFirstMaximal(d: Dict<nat>)
    requires d != []
    ensures exists i :: 0 <= i < |d| && MostCommon(d) == Some(d[i].0)
              && (forall j :: 0 <= j < |d| ==> d[j].1 <= d[i].1)
              && (forall j :: 0 <= j < i ==> d[j].1 < d[i].1)
  {
    var i := FirstMaximal(d);
    assert MostCommon(d) == Some(d[i].0);
  }

  // ---------------------------------------------------------------------
  // make_json_serializable

  /**
   * `obj.tolist()` for one element of an array: NumPy scalars become Python
   * numbers, nested arrays lists, and objects stay as they are.
   */
  function ToListElement(p: Py): Py {
    match p
    case NpInt(i) => PInt(i)
    case NpFloat(f) => PFloat(f)
    case NdArray(xs) => PList(seq(|xs|, i requires 0 <= i < |xs| => ToListElement(xs[i])))
    case _ => p
  }

  /** `make_json_serializable`. */
  function MakeJsonSerializable(p: Py): Py {
    match p
    case PDict(es) => PDict(seq(|es|, i requires 0 <= i < |es| => (es[i].0, MakeJsonSerializable(es[i].1))))
    case PList(xs) => PList(seq(|xs|, i requires 0 <= i < |xs| => MakeJsonSerializable(xs[i])))
    case NpInt(i) => PInt(i)
    case NpFloat(f) => PFloat(f)
    case NdArray(xs) => ToListElement(p)
    case PFloat(NaN) => PNone
    case _ => p
  }

  /** A value with no NumPy scalar or array in it and no NaN float. */
  predicate Native(p: Py) {
    match p
    case PDict(es) => forall i :: 0 <= i < |es| ==> Native(es[i].1)
    case PList(xs) => forall i :: 0 <= i < |xs| ==> Native(xs[i])
    case NpInt(_) => false
    case NpFloat(_) => false
    case NdArray(_) => false
    case PFloat(f) => f.Fin?
    case _ => true
  }

  /** An array element `tolist` turns into plain Python: a finite number or an array of them. */
  predicate NumericElement(p: Py) {
    match p
    case NpInt(_) => true
    case NpFloat(f) => f.Fin?
    case PInt(_) => true
    case PFloat(f) => f.Fin?
    case NdArray(xs) => forall i :: 0 <= i < |xs| ==> NumericElement(xs[i])
    case _ => false
  }

  /** Arrays hold only finite numbers, and no NumPy float is NaN. */
  predicate PlainArrays(p: Py) {
    match p
    case PDict(es) => forall i :: 0 <= i < |es| ==> PlainArrays(es[i].1)
    case PList(xs) => forall i :: 0 <= i < |xs| ==> PlainArrays(xs[i])
    case NdArray(_) => NumericElement(p)
    case NpFloat(f) => f.Fin?
    case _ => true
  }

  lemma {:induction false} ToListNative(p: Py)
    requires NumericElement(p)
    ensures Native(ToListElement(p))
  {
    match p
    case NdArray(xs) =>
      var r := ToListElement(p);
      forall i | 0 <= i < |xs| ensures Native(r.items[i]) {
        ToListNative(xs[i]);
      }
    case _ =>
  }

  /**
   * Once arrays hold only finite numbers and no NumPy float is NaN, the
   * result is plain Python: no NumPy value and no NaN float remains.
   */
  lemma {:induction false} SerializableIsNative(p: Py)
    requires PlainArrays(p)
    ensures Native(MakeJsonSerializable(p))
  {
    match p
    case PDict(es) =>
      var r := MakeJsonSerializable(p);
      forall i | 0 <= i < |es| ensures Native(r.entries[i].1) {
        SerializableIsNative(es[i].1);
      }
    case PList(xs) =>
      var r := MakeJsonSerializable(p);
      forall i | 0 <= i < |xs| ensures Native(r.items[i]) {
        SerializableIsNative(xs[i]);
      }
    case NdArray(xs) => ToListNative(p);
    case _ =>
  }

  /** Plain Python values are left as they are. */
  lemma {:induction false} NativeUnchanged(p: Py)
    requires Native(p)
    ensures MakeJsonSerializable(p) == p
  {
    match p
    case PDict(es) =>
      forall i | 0 <= i < |es| ensures MakeJsonSerializable(es[i].1) == es[i].1 {
        NativeUnchanged(es[i].1);
      }
      assert MakeJsonSerializable(p).entries == es;
    case PList(xs) =>
      forall i | 0 <= i < |xs| ensures MakeJsonSerializable(xs[i]) == xs[i] {
        NativeUnchanged(xs[i]);
      }
      assert MakeJsonSerializable(p).items == xs;
    case _ =>
  }

  /**
   * The shape is kept: a dict keeps its keys in order, a list and an array
   * their length; NumPy scalars become the same Python number, and a NaN
   * Python float or None becomes None. A NumPy NaN stays a NaN float, since
   * the NumPy check comes before the missing-value check.
   */
  lemma MakeJsonSerializableShape(p: Py)
    ensures p.PDict? ==> MakeJsonSerializable(p).PDict? && Keys(MakeJsonSerializable(p).entries) == Keys(p.entries)
    ensures p.PList? ==> MakeJsonSerializable(p).PList? && |MakeJsonSerializable(p).items| == |p.items|
    ensures p.NdArray? ==> MakeJsonSerializable(p).PList? && |MakeJsonSerializable(p).items| == |p.elems|
    ensures p.NpInt? ==> MakeJsonSerializable(p) == PInt(p.i)
    ensures p.NpFloat? ==> MakeJsonSerializable(p) == PFloat(p.f)
    ensures p == PFloat(NaN) || p == PNone ==> MakeJsonSerializable(p) == PNone
    ensures p.PStr? || p.PInt? || p.PBool? || (p.PFloat? && p.x.Fin?) ==> MakeJsonSerializable(p) == p
  {
  }

  /**
   * Serialising twice is serialising once when arrays hold only finite
   * numbers; a NumPy NaN is the exception, becoming a NaN float first and
   * None on a second pass.
   */
  lemma SerializeTwice(p: Py)
    requires PlainArrays(p)
    ensures MakeJsonSerializable(MakeJsonSerializable(p)) == MakeJsonSerializable(p)
    ensures MakeJsonSerializable(NpFloat(NaN)) == PFloat(NaN)
    ensures MakeJsonSerializable(MakeJsonSerializable(NpFloat(NaN))) == PNone
  {
    SerializableIsNative(p);
    NativeUnchanged(MakeJsonSerializable(p));
  }

  // ---------------------------------------------------------------------
  // validate_csv

  /** An uploaded file: its name, its size in bytes and what `pd.read_csv` makes of it. */
  datatype Upload = Upload(name: string, size: nat, read: EquipmentUtils.CsvRead)

  datatype UploadInfo = UploadInfo(fileName: string, size: nat, rows: nat, columns: nat)

  /** The 200 body of `validate_csv`; the preview is attached only after a passed check. */
  datatype ValidationResponse = ValidationResponse(
    isValid: bool, columnMapping: Dict<string>, missingColumns: seq<string>, foundColumns: seq<string>,
    errors: seq<string>, fileInfo: UploadInfo, dataPreview: Option<EquipmentUtils.EquipmentPreview>)

  /** 200 with the validation, 400 with an error message, or 500 with an error message. */
  datatype ValidateOutcome = Validated(response: ValidationResponse) | BadRequest(error: string) | ServerError(error: string)

  /** The number of cleaned rows the validation response previews. */
  const PreviewRowCount := 5

  /**
   * `validate_csv` once `pd.read_csv` has produced the table `t` from the
   * file `name` of `size` bytes.
   */
  method ValidateTable(name: string, size: nat, t: Table, render: real -> string, cleanFailure: string -> string)
    returns (r: ValidateOutcome)
    requires WellFormed(t)
    ensures var v := EquipmentUtils.ValidationOf(t.headers);
      var cleaned := EquipmentUtils.CleanTable(t, v.columnMapping, render);
      if IsEmpty(t) then r == BadRequest("CSV file is empty")
      else if v.isValid && cleaned.Err? then r == ServerError("Failed to validate CSV: " + cleanFailure(cleaned.message))
      else if v.isValid && !DistinctTexts(cleaned.value.headers) then
        r == ServerError("Failed to validate CSV: " + EquipmentUtils.AmbiguousSeriesTruth)
      else
        && r.Validated?
        && r.response.isValid == v.isValid
        && r.response.columnMapping == v.columnMapping
        && r.response.missingColumns == v.missingColumns
        && r.response.foundColumns == t.headers
        && r.response.errors == v.errors
        && r.response.fileInfo == UploadInfo(name, size, |t.rows|, |t.headers|)
        && (r.response.dataPreview.Some? <==> v.isValid)
        && (r.response.dataPreview.Some? ==>
              && EquipmentUtils.IsPreviewOf(r.response.dataPreview.value, cleaned.value, PreviewRowCount, render)
              && Utils.HasObjectColumn(cleaned.value)
              && r.response.dataPreview.value.totalRowsInDataset == |t.rows|)
  {
    if IsEmpty(t) {
      return BadRequest("CSV file is empty");
    }
    var v := EquipmentUtils.ValidateCsvColumns(t.headers);
    var preview: Option<EquipmentUtils.EquipmentPreview> := None;
    if v.isValid {
      var cleaned := EquipmentUtils.CleanAndValidateData(t, v.columnMapping, render);
      if cleaned.Err? {
        return ServerError("Failed to validate CSV: " + cleanFailure(cleaned.message));
      }
      EquipmentUtils.CleanTableShape(t, v.columnMapping, render);
      EquipmentUtils.CleanedHasObjectColumn(t, render);
      var p := EquipmentUtils.GetEquipmentDataPreview(cleaned.value, PreviewRowCount, render);
      if p.Err? {
        return ServerError("Failed to validate CSV: " + p.message);
      }
      preview := Some(p.value);
    }
    r := Validated(ValidationResponse(v.isValid, v.columnMapping, v.missingColumns, v.foundColumns, v.errors,
                                      UploadInfo(name, size, |t.rows|, |t.headers|), preview));
  }

  /**
   * `validate_csv`. `render` is how pandas turns a number into text and
   * `cleanFailure(col)` the text of what the cleaner raises when the handled
   * name `col` labels more than one column.
   */
  method ValidateCsv(file: Option<Upload>, render: real -> string, cleanFailure: string -> string)
    returns (r: ValidateOutcome)
    requires file.Some? && file.value.read.Parsed? ==> WellFormed(file.value.read.table)
    ensures file.None? ==> r == BadRequest("No file provided")
    ensures file.Some? && !EndsWith(Lower(file.value.name), ".csv") ==> r == BadRequest("Only CSV files are supported")
    ensures file.Some? && EndsWith(Lower(file.value.name), ".csv") ==>
      match file.value.read
      case EmptyData => r == BadRequest("CSV file is empty or corrupted")
      case ParserFailure(e) => r == BadRequest("CSV parsing error: " + e)
      case ReadFailure(e) => r == ServerError("Failed to validate CSV: " + e)
      case Parsed(t) =>
        var v := EquipmentUtils.ValidationOf(t.headers);
        var cleaned := EquipmentUtils.CleanTable(t, v.columnMapping, render);
        if IsEmpty(t) then r == BadRequest("CSV file is empty")
        else if v.isValid && cleaned.Err? then r == ServerError("Failed to validate CSV: " + cleanFailure(cleaned.message))
        else if v.isValid && !DistinctTexts(cleaned.value.headers) then
          r == ServerError("Failed to validate CSV: " + EquipmentUtils.AmbiguousSeriesTruth)
        else
          && r.Validated?
          && r.response.isValid == v.isValid
          && r.response.columnMapping == v.columnMapping
          && r.response.missingColumns == v.missingColumns
          && r.response.foundColumns == t.headers
          && r.response.errors == v.errors
          && r.response.fileInfo == UploadInfo(file.value.name, file.value.size, |t.rows|, |t.headers|)
          && (r.response.dataPreview.Some? <==> v.isValid)
          && (r.response.dataPreview.Some? ==>
                && EquipmentUtils.IsPreviewOf(r.response.dataPreview.value, cleaned.value, PreviewRowCount, render)
                && Utils.HasObjectColumn(cleaned.value)
                && r.response.dataPreview.value.totalRowsInDataset == |t.rows|)
  {
    if file.None? {
      return BadRequest("No file provided");
    }
    var f := file.value;
    if !EndsWith(Lower(f.name), ".csv") {
      return BadRequest("Only CSV files are supported");
    }
    match f.read {
      case EmptyData => r := BadRequest("CSV file is empty or corrupted");
      case ParserFailure(e) => r := BadRequest("CSV parsing error: " + e);
      case ReadFailure(e) => r := ServerError("Failed to validate CSV: " + e);
      case Parsed(t) => r := ValidateTable(f.name, f.size, t, render, cleanFailure);
    }
  }

  // ---------------------------------------------------------------------
  // equipment_csv_upload, failure responses

  /** The 400 body of a failed upload: error, details and status. */
  datatype UploadFailure = UploadFailure(error: string, details: string, status: string)

  /**
   * The two handlers of `equipment_csv_upload`: ValidationError, then every
   * other exception. Both send `str(e)` as details, which for Django's
   * ValidationError is the repr of its one-message list.
   */
  function UploadFailureOf(f: EquipmentUtils.Failure): (u: UploadFailure)
    ensures u.status == "validation_error" <==> f.ValidationError?
    ensures f.ValidationError? ==> u.details == EquipmentUtils.ValidationErrorText(f.message)
    ensures f.ValueError? ==> u.details == f.message
  {
    match f
    case ValidationError(m) => UploadFailure("CSV validation failed", EquipmentUtils.ValidationErrorText(m), "validation_error")
    case ValueError(m) => UploadFailure("Failed to process equipment CSV", m, "processing_error")
  }

  /**
   * An unparsable CSV whose parser message has no quote, backslash or
   * control character is reported with that message inside `['…']`.
   */
  lemma ParserFailureDetails(e: string, fileName: string, render: real -> string, cleanFailure: string -> string)
    requires forall i :: 0 <= i < |e| ==> e[i] != '\'' && e[i] != '\\' && ' ' <= e[i] && e[i] != '\U{7F}'
    ensures UploadFailureOf(EquipmentUtils.ProcessEquipmentCsvAsWritten(EquipmentUtils.ParserFailure(e), fileName, render, cleanFailure).failure)
            == UploadFailure("CSV validation failed", "['" + EquipmentUtils.ParserErrorPrefix + e + "']", "validation_error")
  {
    PlainPrefixed(EquipmentUtils.ParserErrorPrefix, e);
    PlainValidationDetails(EquipmentUtils.ParserErrorPrefix + e);
  }

  /** A ValidationError with a plain message is reported with that message inside `['…']`. */
  lemma PlainValidationDetails(m: string)
    requires forall i :: 0 <= i < |m| ==> m[i] != '\'' && m[i] != '\\' && ' ' <= m[i] && m[i] != '\U{7F}'
    ensures UploadFailureOf(EquipmentUtils.ValidationError(m)) == UploadFailure("CSV validation failed", "['" + m + "']", "validation_error")
  {
    EquipmentUtils.ValidationErrorTextPlain(m);
  }

  /** A plain prefix followed by a plain text is plain. */
  lemma PlainPrefixed(p: string, e: string)
    requires forall i :: 0 <= i < |p| ==> p[i] != '\'' && p[i] != '\\' && ' ' <= p[i] && p[i] != '\U{7F}'
    requires forall i :: 0 <= i < |e| ==> e[i] != '\'' && e[i] != '\\' && ' ' <= e[i] && e[i] != '\U{7F}'
    ensures var m := p + e; forall i :: 0 <= i < |m| ==> m[i] != '\'' && m[i] != '\\' && ' ' <= m[i] && m[i] != '\U{7F}'
  {
    var m := p + e;
    forall i | 0 <= i < |m| ensures m[i] != '\'' && m[i] != '\\' && ' ' <= m[i] && m[i] != '\U{7F}' {
      if i >= |p| { assert m[i] == e[i - |p|]; } else { assert m[i] == p[i]; }
    }
  }

  /**
   * A non-empty frame whose required columns do not all resolve is reported
   * as a validation error by the documented processing, but as written it
   * reaches the upload view as a processing error.
   */
  lemma UploadOfInvalidFrame(t: Table, fileName: string, render: real -> string, cleanFailure: string -> string)
    requires WellFormed(t) && !IsEmpty(t) && !EquipmentUtils.ValidationOf(t.headers).isValid
    ensures EquipmentUtils.ProcessEquipmentCsv(EquipmentUtils.Parsed(t), fileName, render, cleanFailure).Raised?
    ensures UploadFailureOf(EquipmentUtils.ProcessEquipmentCsv(EquipmentUtils.Parsed(t), fileName, render, cleanFailure).failure).status
            == "validation_error"
    ensures EquipmentUtils.ProcessEquipmentCsvAsWritten(EquipmentUtils.Parsed(t), fileName, render, cleanFailure).Raised?
    ensures UploadFailureOf(EquipmentUtils.ProcessEquipmentCsvAsWritten(EquipmentUtils.Parsed(t), fileName, render, cleanFailure).failure).status
            == "processing_error"
  {
    var m := EquipmentUtils.RejectionOf(t).value;
    assert EquipmentUtils.ProcessEquipmentCsv(EquipmentUtils.Parsed(t), fileName, render, cleanFailure)
           == EquipmentUtils.Raised(EquipmentUtils.ValidationError(m));
    assert EquipmentUtils.ProcessEquipmentCsvAsWritten(EquipmentUtils.Parsed(t), fileName, render, cleanFailure)
           == EquipmentUtils.Raised(EquipmentUtils.ValueError("Error processing CSV file: " + EquipmentUtils.ValidationErrorText(m)));
  }
}
