/**
 * The report endpoints: one PDF, a preview of what the PDF would hold, and
 * a batch of PDFs. Building the document is a parameter `render`, giving
 * the size in bytes of the PDF or the message of the exception it raised.
 */
module PdfViews {
  import opened Common
  import opened Text
  import Models
  import PdfUtils
  import Py

  /** The response of a single-report endpoint, with the dataset id echoed in errors. */
  datatype Response<T> =
    | Ok200(body: T)
    | BadRequest400(error: string, datasetId: int)
    | NotFound404(error: string, datasetId: int)
    | ServerError500(error: string, details: string, datasetId: int)

  datatype PdfFile = PdfFile(filename: string, sizeBytes: nat)

  const NoSummaryError := "Dataset does not have summary statistics available"
  const NotFoundError := "Dataset not found or not processed"
  /** The text of the `Http404` that `get_object_or_404` raises for the Dataset model. */
  const Http404Message := "No Dataset matches the given query."
  const GenerateFailed := "Failed to generate PDF report"
  const PreviewFailed := "Failed to generate PDF preview"

  /** The lookup `id=dataset_id, is_processed=True`: the first processed dataset with that id. */
  function ProcessedWithId(ds: seq<Models.Dataset>, id: int): (r: Option<Models.Dataset>)
    ensures r.None? <==> forall i :: 0 <= i < |ds| ==> !(ds[i].id == id && ds[i].isProcessed)
    ensures r.Some? ==> r.value in ds && r.value.id == id && r.value.isProcessed
  {
    if ds == [] then None
    else if ds[0].id == id && ds[0].isProcessed then Some(ds[0])
    else
      var r := ProcessedWithId(ds[1..], id);
      assert forall i :: 1 <= i < |ds| ==> ds[i] == ds[1..][i - 1];
      r
  }

  // ---------------------------------------------------------------------
  // generate_pdf_report

  /** What `generate_pdf_report` does once the dataset is found. */
  function GenerateFound(d: Models.Dataset, id: int, render: Models.Dataset -> Result<nat>): Response<PdfFile> {
    if d.summary.None? then BadRequest400(NoSummaryError, id)
    else match render(d)
      case Ok(size) => Ok200(PdfFile(PdfUtils.ReportFilename(d, None), size))
      case Err(e) => ServerError500(GenerateFailed, e, id)
  }

  /**
   * `generate_pdf_report` as written: the `Http404` raised for a missing or
   * unprocessed dataset is not `Dataset.DoesNotExist`, so the generic
   * handler turns it into a 500.
   */
  function GeneratePdfReportAsWritten(ds: seq<Models.Dataset>, id: int, render: Models.Dataset -> Result<nat>)
    : (r: Response<PdfFile>)
    ensures ProcessedWithId(ds, id).None? ==> r == ServerError500(GenerateFailed, Http404Message, id)
    ensures ProcessedWithId(ds, id).Some? ==> r == GenerateFound(ProcessedWithId(ds, id).value, id, render)
  {
    match ProcessedWithId(ds, id)
    case None => ServerError500(GenerateFailed, Http404Message, id)
    case Some(d) => GenerateFound(d, id, render)
  }

  /**
   * `generate_pdf_report` with the missing dataset answered by the 404 its
   * `Dataset.DoesNotExist` handler was written for.
   */
  function GeneratePdfReport(ds: seq<Models.Dataset>, id: int, render: Models.Dataset -> Result<nat>)
    : (r: Response<PdfFile>)
    ensures ProcessedWithId(ds, id).None? ==> r == NotFound404(NotFoundError, id)
    ensures r.Ok200? <==> ProcessedWithId(ds, id).Some? && ProcessedWithId(ds, id).value.summary.Some?
                          && render(ProcessedWithId(ds, id).value).Ok?
    ensures r.Ok200? ==> r.body == PdfFile(PdfUtils.DefaultFilename(ProcessedWithId(ds, id).value),
                                           render(ProcessedWithId(ds, id).value).value)
    ensures r.BadRequest400? <==> ProcessedWithId(ds, id).Some? && ProcessedWithId(ds, id).value.summary.None?
    ensures r.BadRequest400? ==> r == BadRequest400(NoSummaryError, id)
    ensures ProcessedWithId(ds, id).Some? && ProcessedWithId(ds, id).value.summary.Some?
            && render(ProcessedWithId(ds, id).value).Err? ==>
              r == ServerError500(GenerateFailed, render(ProcessedWithId(ds, id).value).message, id)
  {
    match ProcessedWithId(ds, id)
    case None => NotFound404(NotFoundError, id)
    case Some(d) => GenerateFound(d, id, render)
  }

  /** The two agree on every dataset that is found, and differ on every id that is not. */
  lemma GenerateDiffersOnlyWhenMissing(ds: seq<Models.Dataset>, id: int, render: Models.Dataset -> Result<nat>)
    ensures GeneratePdfReportAsWritten(ds, id, render) == GeneratePdfReport(ds, id, render)
            <==> ProcessedWithId(ds, id).Some?
  {
  }

  /** An empty store and any id: the endpoint as written answers 500, not 404. */
  lemma UnknownIdGives500(render: Models.Dataset -> Result<nat>)
    ensures GeneratePdfReportAsWritten([], 7, render).ServerError500?
    ensures GeneratePdfReport([], 7, render) == NotFound404(NotFoundError, 7)
  {
  }

  // ---------------------------------------------------------------------
  // preview_pdf_report

  datatype ReportSections = ReportSections(
    titlePage: bool, datasetOverview: bool, operationalMetrics: bool,
    equipmentAnalysis: bool, dataQualityMetrics: bool, columnAnalysis: bool)

  datatype MetricsIncluded = MetricsIncluded(
    totalRecords: int, avgFlowrate: Option<real>, avgPressure: Option<real>, avgTemperature: Option<real>,
    equipmentTypes: nat, missingValues: int, columnsAnalyzed: nat)

  datatype Preview = Preview(
    dataset: Models.Dataset, sections: ReportSections, metrics: MetricsIncluded,
    estimatedPages: int, pdfFilename: string)

  /** Python truthiness of an optional float: None and 0.0 are false. */
  predicate TruthyReal(x: Option<real>) {
    x.Some? && x.value != 0.0
  }

  /** `bool(avg_flowrate or avg_pressure or avg_temperature)`. */
  predicate HasOperationalMetrics(s: Models.Summary) {
    TruthyReal(s.avgFlowrate) || TruthyReal(s.avgPressure) || TruthyReal(s.avgTemperature)
  }

  /** The filename the preview announces: the raw name, not the sanitised one. */
  function PreviewFilename(d: Models.Dataset): string {
    PdfUtils.ReportPrefix + d.name + "_" + NatToString(d.id) + PdfUtils.ReportSuffix
  }

  /** The preview body of a found dataset with a summary; `cols` are its column records. */
  function PreviewOf(d: Models.Dataset, s: Models.Summary, cols: seq<Models.Column>): (p: Preview)
    ensures p.sections.titlePage && p.sections.datasetOverview
    ensures p.sections.operationalMetrics <==> HasOperationalMetrics(s)
    ensures p.sections.equipmentAnalysis <==> s.equipmentTypeDistribution != []
    ensures p.sections.dataQualityMetrics <==>
      s.statisticsData != [] && Py.Truthy(GetOr(s.statisticsData, "data_quality", Py.PNone))
    ensures p.sections.columnAnalysis <==> cols != []
    ensures p.metrics.equipmentTypes == |s.equipmentTypeDistribution|
    ensures p.metrics.columnsAnalyzed == |cols|
    ensures 3 <= p.estimatedPages <= 5
    ensures p.estimatedPages == 5 <==> s.equipmentTypeDistribution != [] && |cols| > 10
    ensures p.estimatedPages == 3 <==> s.equipmentTypeDistribution == [] && |cols| <= 10
  {
    var dist := s.equipmentTypeDistribution;
    var sd := s.statisticsData;
    Preview(
      d,
      ReportSections(true, true, HasOperationalMetrics(s), dist != [],
                     sd != [] && Py.Truthy(GetOr(sd, "data_quality", Py.PNone)), cols != []),
      MetricsIncluded(s.totalRecords, s.avgFlowrate, s.avgPressure, s.avgTemperature,
                      if dist != [] then |dist| else 0, s.missingValuesCount, |cols|),
      3 + (if dist != [] then 1 else 0) + (if |cols| > 10 then 1 else 0),
      PreviewFilename(d))
  }

  /** What `preview_pdf_report` does once the dataset is found. */
  function PreviewFound(d: Models.Dataset, id: int, cols: seq<Models.Column>): Response<Preview> {
    if d.summary.None? then BadRequest400(NoSummaryError, id) else Ok200(PreviewOf(d, d.summary.value, cols))
  }

  /** `preview_pdf_report` as written: a missing or unprocessed dataset gives a 500. */
  function PreviewPdfReportAsWritten(ds: seq<Models.Dataset>, id: int, cols: seq<Models.Column>)
    : (r: Response<Preview>)
    ensures ProcessedWithId(ds, id).None? ==> r == ServerError500(PreviewFailed, Http404Message, id)
    ensures ProcessedWithId(ds, id).Some? ==> r == PreviewFound(ProcessedWithId(ds, id).value, id, cols)
  {
    match ProcessedWithId(ds, id)
    case None => ServerError500(PreviewFailed, Http404Message, id)
    case Some(d) => PreviewFound(d, id, cols)
  }

  /** `preview_pdf_report` with the missing dataset answered by a 404. */
  function PreviewPdfReport(ds: seq<Models.Dataset>, id: int, cols: seq<Models.Column>): (r: Response<Preview>)
    ensures ProcessedWithId(ds, id).None? ==> r == NotFound404(NotFoundError, id)
    ensures r.Ok200? <==> ProcessedWithId(ds, id).Some? && ProcessedWithId(ds, id).value.summary.Some?
    ensures r.Ok200? ==> r.body.dataset == ProcessedWithId(ds, id).value
    ensures r.Ok200? ==>
      r.body == PreviewOf(ProcessedWithId(ds, id).value, ProcessedWithId(ds, id).value.summary.value, cols)
    ensures r.BadRequest400? <==> ProcessedWithId(ds, id).Some? && ProcessedWithId(ds, id).value.summary.None?
    ensures r.BadRequest400? ==> r == BadRequest400(NoSummaryError, id)
  {
    match ProcessedWithId(ds, id)
    case None => NotFound404(NotFoundError, id)
    case Some(d) => PreviewFound(d, id, cols)
  }

  /** The preview as written and the corrected one differ exactly on the ids that are not found. */
  lemma PreviewDiffersOnlyWhenMissing(ds: seq<Models.Dataset>, id: int, cols: seq<Models.Column>)
    ensures PreviewPdfReportAsWritten(ds, id, cols) == PreviewPdfReport(ds, id, cols)
            <==> ProcessedWithId(ds, id).Some?
  {
  }

  /**
   * Averages of exactly 0.0 read as absent: the preview leaves the
   * operational section out, although the report emits its table with the
   * three average rows.
   */
  lemma ZeroAveragesHideOperationalSection(d: Models.Dataset, s: Models.Summary, cols: seq<Models.Column>)
    requires s.avgFlowrate == Some(0.0) && s.avgPressure == Some(0.0) && s.avgTemperature == Some(0.0)
    ensures !PreviewOf(d, s, cols).sections.operationalMetrics
    ensures PdfUtils.RowFor(PdfUtils.OperationalRows(s), PdfUtils.FlowrateLabel).Some?
    ensures PdfUtils.RowFor(PdfUtils.OperationalRows(s), PdfUtils.PressureLabel).Some?
    ensures PdfUtils.RowFor(PdfUtils.OperationalRows(s), PdfUtils.TemperatureLabel).Some?
  {
    PdfUtils.OperationalRowsPresence(s);
  }

  /** For a name that needs no sanitising, the announced filename is the one the report gets. */
  lemma PreviewFilenameOfCleanName(d: Models.Dataset)
    requires forall i :: 0 <= i < |d.name| ==> PdfUtils.SafeChar(d.name[i])
    requires d.name == [] || !IsSpace(d.name[|d.name| - 1])
    ensures PreviewFilename(d) == PdfUtils.DefaultFilename(d)
  {
    PdfUtils.SafeNameOfClean(d.name);
  }

  /** A name with a character outside the safe set is announced with it, and the report drops it. */
  lemma PreviewFilenameKeepsUnsafeName(d: Models.Dataset)
    requires d.name == "a/b"
    ensures PreviewFilename(d) != PdfUtils.DefaultFilename(d)
  {
    SafeNameDropsSlash();
    var k := |PdfUtils.ReportPrefix| + 1;
    var f := PdfUtils.DefaultFilename(d);
    assert f[|PdfUtils.ReportPrefix|..|PdfUtils.ReportPrefix| + 2] == "ab";
    assert f[k] == 'b';
    var g := PreviewFilename(d);
    var rest := "_" + NatToString(d.id) + PdfUtils.ReportSuffix;
    assert g == PdfUtils.ReportPrefix + d.name + rest;
    assert g[k] == d.name[1] == '/';
  }

  /** `a/b` sanitises to `ab`. */
  lemma SafeNameDropsSlash()
    ensures PdfUtils.SafeName("a/b") == "ab"
  {
    var n := "a/b";
    assert n[..2] == "a/" && n[..2][..1] == "a" && n[..2][..1][..0] == [];
    assert PdfUtils.SafeChar('a') && !PdfUtils.SafeChar('/') && PdfUtils.SafeChar('b');
    assert PdfUtils.SafeChars(n[..2][..1]) == "a";
    assert PdfUtils.SafeChars(n[..2]) == "a";
    assert PdfUtils.SafeChars(n) == "ab";
  }

  // ---------------------------------------------------------------------
  // batch_generate_reports

  datatype BatchItem =
    | Succeeded(datasetId: int, filename: string, sizeBytes: nat, downloadUrl: string)
    | Failed(datasetId: int, error: string)

  datatype BatchResponse =
    | BatchRejected(error: string)
    | Batch(totalRequested: nat, successful: nat, failed: nat, results: seq<BatchItem>)

  const NoIdsError := "No dataset IDs provided"
  const TooManyIdsError := "Maximum 10 datasets allowed per batch"
  const MaxBatch := 10
  const NoSummaryItemError := "No summary statistics available"

  /** The result one requested id gets. */
  function BatchItemOf(ds: seq<Models.Dataset>, id: int, render: Models.Dataset -> Result<nat>): (b: BatchItem)
    ensures b.datasetId == id
  {
    match ProcessedWithId(ds, id)
    case None => Failed(id, NotFoundError)
    case Some(d) =>
      if d.summary.None? then Failed(id, NoSummaryItemError)
      else match render(d)
        case Ok(size) => Succeeded(id, PdfUtils.ReportFilename(d, None), size, DownloadUrl(id))
        case Err(e) => Failed(id, e)
  }

  /** An id succeeds exactly when it names a processed dataset with a summary whose report builds; an unknown id fails as not found. */
  lemma BatchItemOutcome(ds: seq<Models.Dataset>, id: int, render: Models.Dataset -> Result<nat>)
    ensures BatchItemOf(ds, id, render).Succeeded? <==>
      ProcessedWithId(ds, id).Some? && ProcessedWithId(ds, id).value.summary.Some? && render(ProcessedWithId(ds, id).value).Ok?
    ensures ProcessedWithId(ds, id).None? ==> BatchItemOf(ds, id, render) == Failed(id, NotFoundError)
  {
  }

  /** The download link of a generated report. */
  function DownloadUrl(id: int): string {
    "/api/reports/pdf/" + IntToString(id) + "/"
  }

  function CountSucceeded(items: seq<BatchItem>): (n: nat)
    ensures n <= |items|
  {
    if items == [] then 0 else CountSucceeded(items[..|items| - 1]) + (if items[|items| - 1].Succeeded? then 1 else 0)
  }

  /**
   * `batch_generate_reports`: an empty id list and one longer than ten are
   * refused; otherwise every id gets its result, in request order, while the
   * loop counts successes and failures.
   */
  method BatchGenerateReports(ds: seq<Models.Dataset>, ids: seq<int>, render: Models.Dataset -> Result<nat>)
    returns (r: BatchResponse)
    ensures ids == [] ==> r == BatchRejected(NoIdsError)
    ensures |ids| > MaxBatch ==> r == BatchRejected(TooManyIdsError)
    ensures 0 < |ids| <= MaxBatch ==> r.Batch?
    ensures r.Batch? ==>
      && r.totalRequested == |ids|
      && |r.results| == |ids|
      && (forall k :: 0 <= k < |ids| ==> r.results[k] == BatchItemOf(ds, ids[k], render))
      && r.successful == CountSucceeded(r.results)
      && r.successful + r.failed == r.totalRequested
  {
    if ids == [] {
      return BatchRejected(NoIdsError);
    }
    if |ids| > MaxBatch {
      return BatchRejected(TooManyIdsError);
    }
    var results, successful, failed := BatchLoop(ds, ids, render);
    r := Batch(|ids|, successful, failed, results);
  }

  /** The loop of `batch_generate_reports` over the accepted ids. */
  method BatchLoop(ds: seq<Models.Dataset>, ids: seq<int>, render: Models.Dataset -> Result<nat>)
    returns (results: seq<BatchItem>, successful: nat, failed: nat)
    ensures |results| == |ids|
    ensures forall k :: 0 <= k < |ids| ==> results[k] == BatchItemOf(ds, ids[k], render)
    ensures successful == CountSucceeded(results)
    ensures successful + failed == |ids|
  {
    ghost var f := id => BatchItemOf(ds, id, render);
    results := [];
    successful := 0;
    failed := 0;
    for i := 0 to |ids|
      invariant results == Mapped(ids[..i], f)
      invariant successful == CountSucceeded(results)
      invariant successful + failed == i
    {
      var item := BatchItemFor(ds, ids[i], render);
      assert ids[..i + 1] == ids[..i] + [ids[i]];
      MappedSnoc(ids[..i], ids[i], f);
      CountSucceededSnoc(results, item);
      results := results + [item];
      if item.Succeeded? {
        successful := successful + 1;
      } else {
        failed := failed + 1;
      }
    }
    assert ids[..|ids|] == ids;
  }

  lemma CountSucceededSnoc(items: seq<BatchItem>, item: BatchItem)
    ensures CountSucceeded(items + [item]) == CountSucceeded(items) + (if item.Succeeded? then 1 else 0)
  {
    assert (items + [item])[..|items|] == items;
  }

  /** The body of the batch loop for one id: look it up, then build its report. */
  method BatchItemFor(ds: seq<Models.Dataset>, id: int, render: Models.Dataset -> Result<nat>) returns (item: BatchItem)
    ensures item == BatchItemOf(ds, id, render)
  {
    var found := ProcessedWithId(ds, id);
    if found.None? {
      item := Failed(id, NotFoundError);
    } else if found.value.summary.None? {
      item := Failed(id, NoSummaryItemError);
    } else {
      var built := render(found.value);
      if built.Err? {
        item := Failed(id, built.message);
      } else {
        item := Succeeded(id, PdfUtils.ReportFilename(found.value, None), built.value, DownloadUrl(id));
      }
    }
  }

  /** The successes counted are the results that succeeded, and their number is at most the batch. */
  lemma {:induction false} CountSucceededAll(items: seq<BatchItem>)
    ensures CountSucceeded(items) == |items| <==> forall k :: 0 <= k < |items| ==> items[k].Succeeded?
    ensures CountSucceeded(items) == 0 <==> forall k :: 0 <= k < |items| ==> items[k].Failed?
  {
    if items != [] {
      var init := items[..|items| - 1];
      CountSucceededAll(init);
      assert forall k :: 0 <= k < |init| ==> init[k] == items[k];
    }
  }
}
