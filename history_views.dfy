/**
 * The history endpoints over the retention store: the paginated dataset
 * list, deletion of one dataset with confirmation, and the status report.
 */
module HistoryViews {
  import opened Common
  import opened Py
  import opened Models
  import opened HistoryUtils

  /** The largest page size a client may ask for. */
  const MaxPageSize := 50

  /** Python's `a // b` (floor division), for a non-zero divisor. */
  function FloorDiv(a: int, b: int): (q: int)
    requires b != 0
    ensures b > 0 ==> q * b <= a < q * b + b
    ensures b < 0 ==> q * b >= a > q * b + b
  {
    if b > 0 then a / b else (-a) / (-b)
  }

  /**
   * `queryset[start:stop]` for non-negative bounds: the rows from `start`
   * up to `stop`, empty when `stop <= start` or `start` is past the end.
   */
  function Slice<T>(s: seq<T>, start: nat, stop: nat): (r: seq<T>)
    ensures |r| <= stop - start || (stop <= start && r == [])
    ensures forall k :: 0 <= k < |r| ==> start + k < |s| && r[k] == s[start + k]
  {
    if stop <= start || start >= |s| then [] else s[start..Min(stop, |s|)]
  }

  /** The pagination block of a `dataset_history` response. */
  datatype Pagination = Pagination(
    page: int, pageSize: int, totalCount: nat, totalPages: int, hasNext: bool, hasPrevious: bool,
    nextPage: Option<int>, previousPage: Option<int>)

  /** The summary fields added to a dataset's entry when it has a summary. */
  datatype SummaryInfo = SummaryInfo(totalRecords: int, avgFlowrate: Option<real>, avgPressure: Option<real>,
                                     avgTemperature: Option<real>, equipmentTypes: nat)

  /** One entry of the dataset list. */
  datatype DatasetInfo = DatasetInfo(
    id: nat, name: string, description: Option<string>, fileName: string, fileType: string, uploadDate: int,
    totalRows: Option<int>, totalColumns: Option<int>, isProcessed: bool, fileSize: int, summary: Option<SummaryInfo>)

  function SummaryInfoOf(s: Summary): SummaryInfo {
    SummaryInfo(s.totalRecords, s.avgFlowrate, s.avgPressure, s.avgTemperature,
                if s.equipmentTypeDistribution != [] then |s.equipmentTypeDistribution| else 0)
  }

  function InfoOf(d: Dataset): (r: DatasetInfo)
    ensures r.id == d.id && r.uploadDate == d.uploadDate
    ensures r.summary.Some? <==> d.summary.Some?
    ensures d.summary.Some? ==> r.summary.value.equipmentTypes == |d.summary.value.equipmentTypeDistribution|
  {
    DatasetInfo(d.id, d.name, d.description, d.fileName, d.fileType, d.uploadDate, d.totalRows, d.totalColumns,
                d.isProcessed, d.fileSize, match d.summary case Some(s) => Some(SummaryInfoOf(s)) case None => None)
  }

  /** The append loop that builds `dataset_list` from the page's datasets. */
  method DatasetList(page: seq<Dataset>) returns (list: seq<DatasetInfo>)
    ensures |list| == |page|
    ensures forall k :: 0 <= k < |page| ==> list[k] == InfoOf(page[k])
  {
    list := [];
    var i := 0;
    while i < |page|
      invariant 0 <= i <= |page| && |list| == i
      invariant forall k :: 0 <= k < i ==> list[k] == InfoOf(page[k])
    {
      list := list + [InfoOf(page[i])];
      i := i + 1;
    }
  }

  /** The responses of `dataset_history`. */
  datatype HistoryResponse =
    | Page(pagination: Pagination, datasets: seq<DatasetInfo>)
    | InvalidParameters(details: string)
    | Failed(details: string)

  /** The message Django raises for a negative slice bound. */
  const NegativeIndexing := "Negative indexing is not supported."
  /** The message of Python's ZeroDivisionError for `//`. */
  const DivisionByZero := "integer division or modulo by zero"

  /** The pagination arithmetic once the page and page size are known. */
  function PaginationOf(page: int, pageSize: int, totalCount: nat): (p: Pagination)
    requires pageSize != 0
    ensures p.hasNext <==> page < p.totalPages
    ensures p.hasPrevious <==> page > 1
    ensures p.nextPage == (if p.hasNext then Some(page + 1) else None)
    ensures p.previousPage == (if p.hasPrevious then Some(page - 1) else None)
  {
    var totalPages := FloorDiv(totalCount + pageSize - 1, pageSize);
    var hasNext := page < totalPages;
    var hasPrevious := page > 1;
    Pagination(page, pageSize, totalCount, totalPages, hasNext, hasPrevious,
               if hasNext then Some(page + 1) else None, if hasPrevious then Some(page - 1) else None)
  }

  /**
   * `dataset_history` over the store `ds` (newest first). `page` and
   * `pageSize` are the outcomes of `int(...)` on the query parameters, with
   * the defaults 1 and 10 already applied.
   */
  function DatasetHistory(ds: seq<Dataset>, page: Result<int>, pageSize: Result<int>): (r: HistoryResponse)
    ensures page.Err? ==> r == InvalidParameters(page.message)
    ensures page.Ok? && pageSize.Err? ==> r == InvalidParameters(pageSize.message)
    ensures r.Page? ==> page.Ok? && pageSize.Ok? && r.pagination.page == page.value
                        && r.pagination.pageSize == Min(pageSize.value, MaxPageSize) != 0
                        && r.pagination.totalCount == |ds|
  {
    match page
    case Err(e) => InvalidParameters(e)
    case Ok(p) =>
      match pageSize
      case Err(e) => InvalidParameters(e)
      case Ok(requested) =>
        var size := Min(requested, MaxPageSize);
        var offset := (p - 1) * size;
        if offset < 0 || offset + size < 0 then InvalidParameters(NegativeIndexing)
        else
          var items := Slice(ds, offset, offset + size);
          if size == 0 then Failed(DivisionByZero)
          else Page(PaginationOf(p, size, |ds|), seq(|items|, k requires 0 <= k < |items| => InfoOf(items[k])))
  }

  // ---------------------------------------------------------------------
  // Properties of the pagination

  /**
   * For a positive page and page size, the page holds the datasets starting
   * at offset `(page - 1) * pageSize`, in the store's newest-first order: a
   * full page while enough remain, then whatever is left, then nothing.
   */
  lemma PageContents(ds: seq<Dataset>, page: int, requested: int)
    requires page >= 1 && requested >= 1
    ensures var r := DatasetHistory(ds, Ok(page), Ok(requested));
      var size := Min(requested, MaxPageSize);
      && r.Page?
      && r.pagination.pageSize == size
      && |r.datasets| == Min(size, Max(0, |ds| - (page - 1) * size))
      && (forall k :: 0 <= k < |r.datasets| ==>
            (page - 1) * size + k < |ds| && r.datasets[k] == InfoOf(ds[(page - 1) * size + k]))
  {
    var size := Min(requested, MaxPageSize);
    assert (page - 1) * size >= 0 by {
      ProductNonNegative(page - 1, size);
    }
  }

  lemma ProductNonNegative(a: int, b: int)
    requires a >= 0 && b >= 0
    ensures a * b >= 0
  {
  }

  /** `total_pages` is the ceiling of the count over a positive page size. */
  lemma TotalPagesIsCeiling(totalCount: nat, pageSize: int)
    requires pageSize > 0
    ensures var t := PaginationOf(1, pageSize, totalCount).totalPages;
      && t >= 0
      && (t - 1) * pageSize < totalCount <= t * pageSize
      && (t == 0 <==> totalCount == 0)
  {
    var t := FloorDiv(totalCount + pageSize - 1, pageSize);
    assert t * pageSize <= totalCount + pageSize - 1 < t * pageSize + pageSize;
    assert (t - 1) * pageSize == t * pageSize - pageSize;
  }

  /** Every dataset is on exactly one page: position `i` is item `i % size` of page `i / size + 1`. */
  lemma ItemOnItsPage(ds: seq<Dataset>, requested: int, i: nat)
    requires 1 <= requested <= MaxPageSize && i < |ds|
    ensures var r := DatasetHistory(ds, Ok(i / requested + 1), Ok(requested));
      r.Page? && i % requested < |r.datasets| && r.datasets[i % requested] == InfoOf(ds[i])
  {
    var q := i / requested;
    var size := requested;
    assert q * size + i % size == i;
    assert (q + 1 - 1) * size == q * size;
    var items := Slice(ds, q * size, q * size + size);
    assert q * size <= i < |ds|;
    assert items == ds[q * size..Min(q * size + size, |ds|)];
    assert |items| > i % size;
    PageContents(ds, q + 1, requested);
  }

  /** A page size of 0 reaches the division and fails with a server error. */
  lemma ZeroPageSizeFails(ds: seq<Dataset>, page: int)
    requires page >= 1
    ensures DatasetHistory(ds, Ok(page), Ok(0)) == Failed(DivisionByZero)
  {
  }

  /** A negative page size on the first page makes the slice's end negative: a bad request. */
  lemma NegativePageSizeRejected(ds: seq<Dataset>, requested: int)
    requires requested < 0
    ensures DatasetHistory(ds, Ok(1), Ok(requested)) == InvalidParameters(NegativeIndexing)
  {
  }

  // ---------------------------------------------------------------------
  // Deleting one dataset

  /** The information echoed after a deletion, captured before it. */
  datatype DeletedInfo = DeletedInfo(id: nat, name: string, fileName: string, uploadDate: int)

  /** The responses of `delete_specific_dataset`. */
  datatype DeleteResponse = NeedsConfirmation(datasetId: nat) | NotFound(datasetId: nat) | Deleted(deleted: DeletedInfo)

  /** `Dataset.objects.get(id=...)`: the dataset with that key, if any. */
  function Find(ds: seq<Dataset>, id: nat): (r: Option<Dataset>)
    ensures r.None? <==> !Stored(ds, id)
    ensures r.Some? ==> r.value in ds && r.value.id == id
  {
    if ds == [] then None
    else if ds[0].id == id then Some(ds[0])
    else
      var r := Find(ds[1..], id);
      assert Stored(ds, id) <==> Stored(ds[1..], id) by {
        if Stored(ds, id) {
          var i :| 0 <= i < |ds| && ds[i].id == id;
          assert ds[1..][i - 1] == ds[i];
        }
        if Stored(ds[1..], id) {
          var i :| 0 <= i < |ds[1..]| && ds[1..][i].id == id;
          assert ds[i + 1] == ds[1..][i];
        }
      }
      r
  }

  /**
   * `delete_specific_dataset`: `confirm` is the body's `confirm` value
   * (`False` when absent). Without a truthy confirmation, or for an unknown
   * key, nothing is deleted.
   */
  method DeleteSpecificDataset(store: DatasetStore, id: nat, confirm: Py) returns (r: DeleteResponse)
    requires store.Valid()
    modifies store
    ensures store.Valid()
    ensures !Truthy(confirm) ==> r == NeedsConfirmation(id) && store.datasets == old(store.datasets)
    ensures Truthy(confirm) && !Stored(old(store.datasets), id) ==>
      r == NotFound(id) && store.datasets == old(store.datasets)
    ensures Truthy(confirm) && Stored(old(store.datasets), id) ==>
      var d := Find(old(store.datasets), id).value;
      r == Deleted(DeletedInfo(d.id, d.name, d.fileName, d.uploadDate))
      && store.datasets == Without(old(store.datasets), id)
  {
    if !Truthy(confirm) {
      return NeedsConfirmation(id);
    }
    var found := Find(store.datasets, id);
    if found.None? {
      return NotFound(id);
    }
    var d := found.value;
    var info := DeletedInfo(d.id, d.name, d.fileName, d.uploadDate);
    store.Delete(id);
    r := Deleted(info);
  }

  // ---------------------------------------------------------------------
  // Status

  /** What `history_status` returns. */
  datatype HistoryStatus = HistoryStatus(info: HistoryInfo, datasetsToBeDeleted: nat,
                                         datasets: seq<PreviewEntry>, maxDatasetsAllowed: nat)

  /** `history_status`: the history report and the cleanup preview, with its length. */
  method GetHistoryStatus(store: DatasetStore) returns (r: HistoryStatus)
    ensures r.info == store.Info()
    ensures r.datasetsToBeDeleted == |r.datasets| == |ToDelete(store.datasets, store.maxDatasets)|
    ensures forall k :: 0 <= k < |r.datasets| ==> r.datasets[k] == PreviewOf(ToDelete(store.datasets, store.maxDatasets)[k])
    ensures r.maxDatasetsAllowed == store.maxDatasets
  {
    var info := store.Info();
    var preview := store.CleanupPreview();
    r := HistoryStatus(info, |preview|, preview, store.maxDatasets);
  }
}
