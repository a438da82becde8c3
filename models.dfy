/**
 * The ORM records the backend reads and writes, as values, and the
 * queries defined on them: dtype classification of a column and the
 * numeric and categorical views of a stored statistics document.
 */
module Models {
  import opened Common
  import opened Py

  /**
   * A stored dataset. `uploadDate` is the upload timestamp (larger is
   * newer); `summary` says whether a summary-statistics record is attached.
   */
  datatype Dataset = Dataset(
    id: nat, name: string, description: Option<string>, fileName: string, fileSize: int, fileType: string,
    uploadDate: int, totalRows: Option<int>, totalColumns: Option<int>, columnNames: seq<string>,
    isProcessed: bool, summary: Option<Summary>)

  /** The equipment-specific fields of a summary-statistics record. */
  datatype Summary = Summary(
    statisticsData: Dict<Py>, missingValuesCount: int, totalRecords: int,
    avgFlowrate: Option<real>, avgPressure: Option<real>, avgTemperature: Option<real>,
    equipmentTypeDistribution: Dict<int>)

  /** A column record of a dataset; the numeric and categorical details are absent when not computed. */
  datatype Column = Column(
    name: string, dataType: string, position: int, nonNullCount: int, nullCount: int, uniqueCount: int,
    meanValue: Option<real>, medianValue: Option<real>, stdValue: Option<real>,
    minValue: Option<real>, maxValue: Option<real>,
    mostFrequentValue: Option<string>, mostFrequentCount: Option<int>)

  // ---------------------------------------------------------------------
  // Column dtypes

  const NumericDtypes: seq<string> := ["int64", "float64", "int32", "float32"]
  const CategoricalDtypes: seq<string> := ["object", "category", "string"]

  /** `DatasetColumn.is_numeric`. */
  predicate IsNumeric(dataType: string) {
    dataType in NumericDtypes
  }

  /** `DatasetColumn.is_categorical`. */
  predicate IsCategorical(dataType: string) {
    dataType in CategoricalDtypes
  }

  /** No dtype is both numeric and categorical. */
  lemma NumericNotCategorical(dataType: string)
    ensures !(IsNumeric(dataType) && IsCategorical(dataType))
  {
  }

  // ---------------------------------------------------------------------
  // Views of the statistics document

  /** The recorded types the numeric and the categorical summary keep. */
  const SummaryNumericTypes: seq<string> := ["int64", "float64", "numeric"]
  const SummaryCategoricalTypes: seq<string> := ["object", "category", "string"]

  /** `col_stats.get(key)`, None when absent. */
  function Lookup(stats: Dict<Py>, key: string): Py {
    GetOr(stats, key, PNone)
  }

  /** Whether a column's stats record a `type` the chosen summary keeps. */
  predicate Kept(stats: Dict<Py>, numeric: bool) {
    var t := Lookup(stats, "type");
    t.PStr? && t.s in (if numeric then SummaryNumericTypes else SummaryCategoricalTypes)
  }

  /** `col_stats.get('missing_count', 0)`. */
  function MissingOf(stats: Dict<Py>): (r: Py)
    ensures !HasKey(stats, "missing_count") ==> r == PInt(0)
    ensures HasKey(stats, "missing_count") ==> Get(stats, "missing_count") == Some(r)
  {
    GetOr(stats, "missing_count", PInt(0))
  }

  /** The entry one column contributes to the chosen summary. */
  function Entry(stats: Dict<Py>, numeric: bool): Dict<Py> {
    if numeric then
      [("mean", Lookup(stats, "mean")), ("median", Lookup(stats, "median")), ("std", Lookup(stats, "std")),
       ("min", Lookup(stats, "min")), ("max", Lookup(stats, "max")), ("count", Lookup(stats, "count")),
       ("missing", MissingOf(stats))]
    else
      [("unique_count", Lookup(stats, "unique_count")), ("most_frequent", Lookup(stats, "most_frequent")),
       ("frequency", Lookup(stats, "frequency")), ("missing", MissingOf(stats))]
  }

  /** Both summaries report a column's `missing` as its `missing_count`, 0 when that is absent. */
  lemma EntryMissing(stats: Dict<Py>, numeric: bool)
    ensures Get(Entry(stats, numeric), "missing") == Some(MissingOf(stats))
    ensures !HasKey(stats, "missing_count") ==> Get(Entry(stats, numeric), "missing") == Some(PInt(0))
  {
    var e := Entry(stats, numeric);
    assert e[|e| - 1] == ("missing", MissingOf(stats));
    assert forall j :: 0 <= j < |e| - 1 ==> e[j].0 != "missing";
    GetDistinctLast(e);
  }

  /** The summary filled by the loop over `columns.items()`. */
  function SummaryOf(cols: Dict<Dict<Py>>, numeric: bool): Dict<Dict<Py>> {
    Select(cols, s => Kept(s, numeric), s => Entry(s, numeric))
  }

  /** `get_numeric_summary` (numeric) and `get_categorical_summary` (not numeric), on the `columns` entry. */
  method CollectSummary(cols: Dict<Dict<Py>>, numeric: bool) returns (r: Dict<Dict<Py>>)
    ensures r == SummaryOf(cols, numeric)
  {
    r := [];
    var i := 0;
    while i < |cols|
      invariant 0 <= i <= |cols|
      invariant r == Select(cols[..i], s => Kept(s, numeric), s => Entry(s, numeric))
    {
      assert cols[..i + 1][..i] == cols[..i];
      var (k, s) := cols[i];
      if Kept(s, numeric) {
        r := Put(r, k, Entry(s, numeric));
      }
      i := i + 1;
    }
    assert cols[..|cols|] == cols;
  }

  /** `get_column_statistics`: the stats of one column, an empty mapping for an unknown one. */
  function ColumnStatistics(cols: Dict<Dict<Py>>, name: string): (r: Dict<Py>)
    ensures !HasKey(cols, name) ==> r == []
    ensures HasKey(cols, name) ==> Get(cols, name) == Some(r)
  {
    GetOr(cols, name, [])
  }

  /**
   * A summary holds exactly the columns whose recorded type it keeps, each
   * with the entry built from that column's stats, and no other key.
   */
  lemma SummaryContents(cols: Dict<Dict<Py>>, numeric: bool)
    requires DistinctKeys(cols)
    ensures forall k :: HasKey(SummaryOf(cols, numeric), k) ==> HasKey(cols, k)
    ensures forall i :: 0 <= i < |cols| ==>
      Get(SummaryOf(cols, numeric), cols[i].0) == if Kept(cols[i].1, numeric) then Some(Entry(cols[i].1, numeric)) else None
  {
    SelectGet(cols, s => Kept(s, numeric), s => Entry(s, numeric));
  }

  /** No recorded type is kept by both summaries. */
  lemma KeptExclusive(stats: Dict<Py>)
    ensures !(Kept(stats, true) && Kept(stats, false))
  {
  }

  /** The numeric and the categorical summary never share a key. */
  lemma SummariesDisjoint(cols: Dict<Dict<Py>>, k: string)
    requires DistinctKeys(cols)
    ensures !(HasKey(SummaryOf(cols, true), k) && HasKey(SummaryOf(cols, false), k))
  {
    SummaryContents(cols, true);
    SummaryContents(cols, false);
    if HasKey(SummaryOf(cols, true), k) {
      var i :| 0 <= i < |cols| && cols[i].0 == k;
      KeptExclusive(cols[i].1);
    }
  }

  /**
   * A column recorded as `int32` is numeric by `is_numeric` and yet left
   * out of the numeric summary.
   */
  lemma Int32NotSummarised(stats: Dict<Py>)
    requires Lookup(stats, "type") == PStr("int32")
    ensures IsNumeric("int32")
    ensures !Kept(stats, true)
  {
    assert "int32" == NumericDtypes[2];
  }
}
