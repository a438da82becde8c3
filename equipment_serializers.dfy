/**
 * The equipment serializers: the CSV upload check, the views of a stored
 * statistics document (operational metrics, type distribution, data
 * quality) with their defaults, and the key set of the validation response.
 */
module EquipmentSerializers {
  import opened Common
  import opened Text
  import opened Py
  import Models
  import Serializers
  import Utils
  import EquipmentViews

  const CsvOnlyError := "Only CSV files are supported for equipment data"

  /** `EquipmentCSVUploadSerializer.validate_file`: the size first, then a `.csv` ending in any case. */
  function ValidateFile(name: string, size: int): (r: Serializers.Check)
    ensures size > Serializers.MaxUploadSize ==> r == Serializers.Rejected(Serializers.SizeError)
    ensures size <= Serializers.MaxUploadSize ==> (r.Accepted? <==> EndsWith(Lower(name), ".csv"))
  {
    if size > Serializers.MaxUploadSize then Serializers.Rejected(Serializers.SizeError)
    else if !EndsWith(Lower(name), ".csv") then Serializers.Rejected(CsvOnlyError)
    else Serializers.Accepted
  }

  /** A text ending in `.csv` has `csv` after its last dot. */
  lemma CsvSuffixSegment(s: string)
    requires EndsWith(s, ".csv")
    ensures LastSegment(s, '.') == "csv"
  {
    var n := |s|;
    var r := LastSegment(s, '.');
    assert s[n - 4..] == ".csv";
    assert s[n - 4] == '.' && s[n - 3] == 'c' && s[n - 2] == 's' && s[n - 1] == 'v';
    assert forall i :: n - |r| <= i < n ==> s[i] == r[i - (n - |r|)];
    assert |r| < 4;
    assert |r| >= 3;
    assert s[n - 3..] == ".csv"[1..];
  }

  /** What the equipment check accepts, the generic upload check accepts too. */
  lemma EquipmentCheckStricter(name: string, size: int)
    requires ValidateFile(name, size).Accepted?
    ensures Serializers.ValidateFile(name, size).Accepted?
  {
    CsvSuffixSegment(Lower(name));
    CsvExtensionAllowed(name);
  }

  /** A name whose extension is `csv` has an allowed dotted extension. */
  lemma CsvExtensionAllowed(name: string)
    requires Utils.FileExtension(name) == "csv"
    ensures Serializers.DottedExtension(name) in Serializers.AllowedExtensions
  {
    assert Serializers.DottedExtension(name) == Serializers.AllowedExtensions[0];
  }

  /** A file called `csv` passes the generic check and fails the equipment check. */
  lemma DotlessCsvDiffers(name: string, size: int)
    requires '.' !in name && Lower(name) == "csv" && size <= Serializers.MaxUploadSize
    ensures Serializers.ValidateFile(name, size).Accepted?
    ensures ValidateFile(name, size) == Serializers.Rejected(CsvOnlyError)
  {
    Serializers.DotlessNameAccepted(name, size);
  }

  // ---------------------------------------------------------------------
  // get_operational_summary

  const Metrics: seq<string> := ["flowrate", "pressure", "temperature"]

  /** The block one metric contributes; `missing_count` defaults to 0. */
  function MetricEntry(m: Dict<Py>): Dict<Py> {
    [("average", Models.Lookup(m, "average")), ("min", Models.Lookup(m, "min")), ("max", Models.Lookup(m, "max")),
     ("count", Models.Lookup(m, "count")), ("missing_count", Models.MissingOf(m))]
  }

  /** The reported `missing_count` is the stored one, 0 when it is absent. */
  lemma MetricEntryMissing(m: Dict<Py>)
    ensures Get(MetricEntry(m), "missing_count") == Some(Models.MissingOf(m))
    ensures !HasKey(m, "missing_count") ==> Get(MetricEntry(m), "missing_count") == Some(PInt(0))
  {
    var e := MetricEntry(m);
    assert forall j :: 0 <= j < |e| - 1 ==> e[j].0 != "missing_count";
    GetDistinctLast(e);
  }

  /**
   * `get_operational_summary`, given the `operational_metrics` entry of
   * the statistics document (`{}` when absent): the loop over the three
   * metric names.
   */
  method GetOperationalSummary(om: Dict<Dict<Py>>) returns (summary: Dict<Dict<Py>>)
    ensures forall k :: HasKey(summary, k) <==> k in Metrics && HasKey(om, k)
    ensures forall k :: HasKey(summary, k) ==> Get(summary, k) == Some(MetricEntry(Get(om, k).value))
    ensures |summary| <= |Metrics|
  {
    summary := [];
    for i := 0 to |Metrics|
      invariant forall k :: HasKey(summary, k) <==> k in Metrics[..i] && HasKey(om, k)
      invariant forall k :: HasKey(summary, k) ==> Get(summary, k) == Some(MetricEntry(Get(om, k).value))
      invariant |summary| <= i
    {
      var metric := Metrics[i];
      assert Metrics[..i + 1] == Metrics[..i] + [metric];
      assert !HasKey(summary, metric) by {
        assert metric !in Metrics[..i];
      }
      if HasKey(om, metric) {
        var entry := MetricEntry(Get(om, metric).value);
        PutGet(summary, metric, entry);
        ghost var before := summary;
        summary := Put(summary, metric, entry);
        forall k ensures HasKey(summary, k) <==> k in Metrics[..i + 1] && HasKey(om, k) {
          if k != metric {
            assert Get(summary, k) == Get(before, k);
          }
        }
      }
    }
    assert Metrics[..|Metrics|] == Metrics;
  }

  // ---------------------------------------------------------------------
  // get_equipment_distribution and get_data_quality_metrics

  datatype EquipmentDistribution = EquipmentDistribution(totalTypes: Py, distribution: Py, percentages: Py, mostCommon: Py)

  /** `get_equipment_distribution`, given the `equipment_analysis` entry (`{}` when absent). */
  function GetEquipmentDistribution(ea: Dict<Py>): (r: EquipmentDistribution)
    ensures ea == [] ==> r == EquipmentDistribution(PInt(0), PDict([]), PDict([]), PNone)
    ensures HasKey(ea, "total_equipment_types") ==> Get(ea, "total_equipment_types") == Some(r.totalTypes)
    ensures HasKey(ea, "equipment_type_distribution") ==> Get(ea, "equipment_type_distribution") == Some(r.distribution)
    ensures HasKey(ea, "equipment_type_percentages") ==> Get(ea, "equipment_type_percentages") == Some(r.percentages)
    ensures HasKey(ea, "most_common_equipment") ==> Get(ea, "most_common_equipment") == Some(r.mostCommon)
    ensures !HasKey(ea, "total_equipment_types") ==> r.totalTypes == PInt(0)
    ensures !HasKey(ea, "equipment_type_distribution") ==> r.distribution == PDict([])
    ensures !HasKey(ea, "equipment_type_percentages") ==> r.percentages == PDict([])
    ensures !HasKey(ea, "most_common_equipment") ==> r.mostCommon == PNone
  {
    EquipmentDistribution(GetOr(ea, "total_equipment_types", PInt(0)), GetOr(ea, "equipment_type_distribution", PDict([])),
                          GetOr(ea, "equipment_type_percentages", PDict([])), GetOr(ea, "most_common_equipment", PNone))
  }

  datatype DataQualityMetrics = DataQualityMetrics(totalRows: Py, completeRows: Py, missingDataPercentage: Py,
                                                   columnsWithMissingData: Py)

  /** `get_data_quality_metrics`, given the `data_quality` entry (`{}` when absent). */
  function GetDataQualityMetrics(dq: Dict<Py>): (r: DataQualityMetrics)
    ensures dq == [] ==> r == DataQualityMetrics(PInt(0), PInt(0), PInt(0), PList([]))
    ensures HasKey(dq, "total_rows") ==> Get(dq, "total_rows") == Some(r.totalRows)
    ensures HasKey(dq, "complete_rows") ==> Get(dq, "complete_rows") == Some(r.completeRows)
    ensures HasKey(dq, "missing_data_percentage") ==> Get(dq, "missing_data_percentage") == Some(r.missingDataPercentage)
    ensures HasKey(dq, "columns_with_missing_data") ==> Get(dq, "columns_with_missing_data") == Some(r.columnsWithMissingData)
    ensures !HasKey(dq, "total_rows") ==> r.totalRows == PInt(0)
    ensures !HasKey(dq, "complete_rows") ==> r.completeRows == PInt(0)
    ensures !HasKey(dq, "missing_data_percentage") ==> r.missingDataPercentage == PInt(0)
    ensures !HasKey(dq, "columns_with_missing_data") ==> r.columnsWithMissingData == PList([])
  {
    DataQualityMetrics(GetOr(dq, "total_rows", PInt(0)), GetOr(dq, "complete_rows", PInt(0)),
                       GetOr(dq, "missing_data_percentage", PInt(0)), GetOr(dq, "columns_with_missing_data", PList([])))
  }

  // ---------------------------------------------------------------------
  // CSVValidationResponseSerializer

  const ValidationFields: seq<string> := ["is_valid", "column_mapping", "missing_columns", "found_columns", "errors", "file_info"]

  /** The keys of a serialized validation response: the six fixed ones, then `data_preview` if attached. */
  function ValidationResponseKeys(r: EquipmentViews.ValidationResponse): (ks: seq<string>)
    ensures |ks| == |ValidationFields| + (if r.dataPreview.Some? then 1 else 0)
    ensures ks[..|ValidationFields|] == ValidationFields
    ensures ("data_preview" in ks) <==> r.dataPreview.Some?
  {
    assert "data_preview" !in ValidationFields;
    ValidationFields + (if r.dataPreview.Some? then ["data_preview"] else [])
  }
}
