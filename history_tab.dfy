/**
 * The desktop history tab: the pager over the server's dataset history,
 * the table rows built from one loaded page, and the delete button's
 * enabling. The loaded data is the JSON the history endpoint sent.
 */
module HistoryTab {
  import opened Common
  import opened Py
  import HistoryViews

  const InitialPage := 1
  const PageSize := 10

  // ---------------------------------------------------------------------
  // Page navigation

  /** The page `prev_page` moves to: one back, unless already on the first. */
  function PrevPageOf(current: int): int {
    if current > 1 then current - 1 else current
  }

  /** The page `next_page` moves to: one on, unless already on the last. */
  function NextPageOf(current: int, total: int): int {
    if current < total then current + 1 else current
  }

  /** Both moves keep the current page within `1..total`. */
  lemma PagerStaysInRange(current: int, total: int)
    requires 1 <= current <= total
    ensures 1 <= PrevPageOf(current) <= total
    ensures 1 <= NextPageOf(current, total) <= total
  {
  }

  /** A move changes the page exactly when the source's guard holds, by one page. */
  lemma PagerMoves(current: int, total: int)
    ensures PrevPageOf(current) != current <==> current > 1
    ensures NextPageOf(current, total) != current <==> current < total
    ensures PrevPageOf(current) == current || PrevPageOf(current) == current - 1
    ensures NextPageOf(current, total) == current || NextPageOf(current, total) == current + 1
  {
  }

  /** Going one page back and one page on again ends where it started, and vice versa. */
  lemma PagerMovesUndo(current: int, total: int)
    ensures 1 < current <= total ==> NextPageOf(PrevPageOf(current), total) == current
    ensures 1 <= current < total ==> PrevPageOf(NextPageOf(current, total)) == current
  {
  }

  // ---------------------------------------------------------------------
  // Table cells

  const MaxDescription := 50
  const KeptDescription := 47
  const Ellipsis := "..."

  /** A description longer than 50 characters is cut to its first 47 and `...`. */
  function Truncate(desc: string): (r: string)
    ensures |r| <= MaxDescription
    ensures |desc| <= MaxDescription ==> r == desc
    ensures |desc| > MaxDescription ==>
      |r| == MaxDescription && r[..KeptDescription] == desc[..KeptDescription] && r[KeptDescription..] == Ellipsis
  {
    if |desc| > MaxDescription then desc[..KeptDescription] + Ellipsis else desc
  }

  /** Truncating twice is truncating once. */
  lemma TruncateIdempotent(desc: string)
    ensures Truncate(Truncate(desc)) == Truncate(desc)
  {
  }

  /**
   * The description cell: the entry's description (`''` when absent),
   * truncated. Any value other than a string, such as a JSON null, makes
   * `len` or the table item raise: None.
   */
  function DescriptionCell(e: Dict<Py>): (r: Option<string>)
    ensures r.Some? <==> GetOr(e, "description", PStr("")).PStr?
    ensures r.Some? ==> r.value == Truncate(GetOr(e, "description", PStr("")).s)
    ensures !HasKey(e, "description") ==> r == Some("")
  {
    match GetOr(e, "description", PStr(""))
    case PStr(s) => Some(Truncate(s))
    case _ => None
  }

  const NoSize := "N/A"
  const MegabyteSuffix := " MB"
  const BytesPerMegabyte := 1024 * 1024

  /**
   * The size cell: `N/A` for a falsy or absent size, otherwise the size in
   * megabytes as `fmt` (the `.2f` format) writes it, followed by ` MB`. A
   * size that cannot be divided (a string, a list) raises: None.
   */
  function SizeCell(e: Dict<Py>, fmt: real -> string): (r: Option<string>)
    ensures var v := GetOr(e, "file_size", PInt(0));
      && (r == Some(NoSize) <==> !Truthy(v))
      && (r.None? <==> Truthy(v) && !(v.PInt? || v.PBool? || v.PFloat?))
      && (v.PInt? && v.n != 0 ==> r == Some(fmt(v.n as real / BytesPerMegabyte as real) + MegabyteSuffix))
    ensures !HasKey(e, "file_size") ==> r == Some(NoSize)
  {
    var v := GetOr(e, "file_size", PInt(0));
    if !Truthy(v) then Some(NoSize)
    else
      var mb: Option<string> := match v
        case PInt(n) => Some(fmt(n as real / BytesPerMegabyte as real))
        case PBool(_) => Some(fmt(1.0 / BytesPerMegabyte as real))
        case PFloat(Fin(x)) => Some(fmt(x / BytesPerMegabyte as real))
        case PFloat(NaN) => Some("nan")
        case _ => None;
      if mb.None? then None
      else
        var cell := mb.value + MegabyteSuffix;
        assert cell[|cell| - 1] == 'B' != NoSize[2];
        Some(cell)
  }

  const Processed := "Processed"
  const Processing := "Processing"

  /** The status cell: `Processed` for a truthy `is_processed`, `Processing` otherwise. */
  function StatusCell(e: Dict<Py>): (r: string)
    ensures r == Processed <==> Truthy(GetOr(e, "is_processed", PNone))
    ensures r == Processed || r == Processing
  {
    if Truthy(GetOr(e, "is_processed", PNone)) then Processed else Processing
  }

  /**
   * One table row. The name, file name, row and column counts and upload
   * date are shown as the entry holds them (their text formatting is not
   * modelled).
   */
  datatype HistoryRow = HistoryRow(
    name: Py, fileName: Py, size: string, totalRows: Py, totalColumns: Py, uploadDate: Py,
    status: string, description: string)

  /** The row for one entry, or None when building it raises. */
  function RowOf(e: Dict<Py>, fmt: real -> string): (r: Option<HistoryRow>)
    ensures r.Some? <==> SizeCell(e, fmt).Some? && DescriptionCell(e).Some?
    ensures r.Some? ==> r.value.size == SizeCell(e, fmt).value && r.value.description == DescriptionCell(e).value
                        && r.value.status == StatusCell(e)
  {
    match (SizeCell(e, fmt), DescriptionCell(e))
    case (Some(size), Some(desc)) =>
      Some(HistoryRow(GetOr(e, "name", PStr("Unnamed")), GetOr(e, "file_name", PStr("")), size,
                      GetOr(e, "total_rows", PInt(0)), GetOr(e, "total_columns", PInt(0)),
                      GetOr(e, "upload_date", PStr("")), StatusCell(e), desc))
    case _ => None
  }

  /**
   * The results a loop collects from `f` over `xs`, in order, up to the
   * first element where `f` fails, where the loop ends.
   */
  function Filled<A, B>(xs: seq<A>, f: A -> Option<B>): (r: seq<B>)
    ensures |r| <= |xs|
    ensures forall i :: 0 <= i < |r| ==> f(xs[i]) == Some(r[i])
    ensures |r| < |xs| ==> f(xs[|r|]).None?
  {
    if xs == [] then []
    else
      var init := xs[..|xs| - 1];
      assert forall i :: 0 <= i < |init| ==> init[i] == xs[i];
      var r := Filled(init, f);
      var last := f(xs[|xs| - 1]);
      if |r| == |init| && last.Some? then r + [last.value] else r
  }

  /** Every element has a result exactly when `f` fails nowhere. */
  lemma FilledComplete<A, B>(xs: seq<A>, f: A -> Option<B>)
    ensures |Filled(xs, f)| == |xs| <==> forall i :: 0 <= i < |xs| ==> f(xs[i]).Some?
  {
  }

  /** Once `f` fails, the elements after it add nothing. */
  lemma {:induction false} FilledAfterFailure<A, B>(xs: seq<A>, i: nat, f: A -> Option<B>)
    requires i < |xs| && |Filled(xs[..i], f)| == i && f(xs[i]).None?
    ensures Filled(xs, f) == Filled(xs[..i], f)
  {
    var init := xs[..|xs| - 1];
    if |xs| == i + 1 {
      assert init == xs[..i];
    } else {
      assert init[..i] == xs[..i];
      assert init[i] == xs[i];
      FilledAfterFailure(init, i, f);
    }
  }

  /** `RowOf` for one format, as a function value. */
  function RowFor(fmt: real -> string): Dict<Py> -> Option<HistoryRow> {
    e => RowOf(e, fmt)
  }

  /** The table rows `on_history_loaded` fills: one per entry, in order, up to the first entry whose row raises. */
  function TableRows(ds: seq<Dict<Py>>, fmt: real -> string): (r: seq<HistoryRow>)
    ensures |r| <= |ds|
    ensures forall i :: 0 <= i < |r| ==> RowOf(ds[i], fmt) == Some(r[i])
    ensures |r| < |ds| ==> RowOf(ds[|r|], fmt).None?
    ensures |r| == |ds| <==> forall i :: 0 <= i < |ds| ==> RowOf(ds[i], fmt).Some?
  {
    FilledComplete(ds, RowFor(fmt));
    Filled(ds, RowFor(fmt))
  }

  /** The loop of `on_history_loaded` filling the table, row by row, until a row raises. */
  method BuildRows(entries: seq<Dict<Py>>, fmt: real -> string) returns (rows: seq<HistoryRow>)
    ensures rows == TableRows(entries, fmt)
  {
    var f := RowFor(fmt);
    rows := [];
    var i := 0;
    while i < |entries|
      invariant 0 <= i <= |entries|
      invariant rows == Filled(entries[..i], f) && |rows| == i
    {
      assert entries[..i + 1][..i] == entries[..i];
      var row := RowOf(entries[i], fmt);
      if row.None? {
        FilledAfterFailure(entries, i, f);
        return;
      }
      rows := rows + [row.value];
      i := i + 1;
    }
    assert entries[..i] == entries;
  }

  // ---------------------------------------------------------------------
  // The pagination block

  /** The key holds an integer when present. */
  predicate IntShaped(d: Dict<Py>, k: string) {
    HasKey(d, k) ==> Get(d, k).value.PInt?
  }

  /** `d.get(k, default)` for an integer entry. */
  function IntOr(d: Dict<Py>, k: string, default: int): (n: int)
    requires IntShaped(d, k)
    ensures !HasKey(d, k) ==> n == default
    ensures HasKey(d, k) ==> Get(d, k) == Some(PInt(n))
  {
    GetOr(d, k, PInt(default)).n
  }

  /** An optional page number as JSON: the number or null. */
  function OptionalPage(n: Option<int>): Py {
    match n
    case Some(k) => PInt(k)
    case None => PNone
  }

  /** The pagination block as the history endpoint writes it. */
  function PaginationJson(p: HistoryViews.Pagination): Dict<Py> {
    [("page", PInt(p.page)), ("page_size", PInt(p.pageSize)), ("total_count", PInt(p.totalCount)),
     ("total_pages", PInt(p.totalPages)), ("has_next", PBool(p.hasNext)), ("has_previous", PBool(p.hasPrevious)),
     ("next_page", OptionalPage(p.nextPage)), ("previous_page", OptionalPage(p.previousPage))]
  }

  /** The four values the tab reads back out of the server's block are the server's own. */
  lemma ReadPaginationJson(p: HistoryViews.Pagination)
    ensures Get(PaginationJson(p), "page") == Some(PInt(p.page))
    ensures Get(PaginationJson(p), "total_pages") == Some(PInt(p.totalPages))
    ensures Get(PaginationJson(p), "has_next") == Some(PBool(p.hasNext))
    ensures Get(PaginationJson(p), "has_previous") == Some(PBool(p.hasPrevious))
  {
    var j := PaginationJson(p);
    assert |j[1].0| == 9 && |j[4].0| == 8 && |j[5].0| == 12;
    assert j[2].0[6] != j[3].0[6];
    GetFirstAt(j, 3);
    GetFirstAt(j, 4);
    GetFirstAt(j, 5);
  }

  /** `Get` finds an entry when no entry before it has its key. */
  lemma {:induction false} GetFirstAt<V>(d: Dict<V>, i: nat)
    requires i < |d| && forall j :: 0 <= j < i ==> d[j].0 != d[i].0
    ensures Get(d, d[i].0) == Some(d[i].1)
  {
    if i > 0 {
      assert forall j :: 0 <= j < i - 1 ==> d[1..][j] == d[j + 1];
      GetFirstAt(d[1..], i - 1);
    }
  }

  /**
   * After the server's block for a page within `1..total_pages` is
   * loaded, the pager is in range, and each button is enabled exactly
   * when its move would change the page.
   */
  lemma LoadedButtonsMatchMoves(page: int, pageSize: int, totalCount: nat)
    requires pageSize > 0
    requires var p := HistoryViews.PaginationOf(page, pageSize, totalCount); 1 <= page <= p.totalPages
    ensures var p := HistoryViews.PaginationOf(page, pageSize, totalCount);
      && 1 <= p.page <= p.totalPages
      && (p.hasPrevious <==> PrevPageOf(p.page) != p.page)
      && (p.hasNext <==> NextPageOf(p.page, p.totalPages) != p.page)
  {
  }

  /**
   * An empty history is reported as page 1 of 0: after loading it the
   * pager is out of range, but neither button is enabled.
   */
  lemma EmptyHistoryPager()
    ensures var p := HistoryViews.PaginationOf(InitialPage, PageSize, 0);
      && p.totalPages == 0 && p.page == 1 && !(p.page <= p.totalPages)
      && !p.hasNext && !p.hasPrevious
  {
    var p := HistoryViews.PaginationOf(InitialPage, PageSize, 0);
    assert HistoryViews.FloorDiv(0 + PageSize - 1, PageSize) == 0;
  }

  // ---------------------------------------------------------------------
  // The tab

  class HistoryTab {
    var currentPage: int
    var pageSize: int
    var totalPages: int
    var prevEnabled: bool
    var nextEnabled: bool
    var deleteEnabled: bool
    var datasets: seq<Dict<Py>>
    var rows: seq<HistoryRow>

    /** The pager state of a fresh tab, before its first load completes; all three buttons start disabled. */
    constructor ()
      ensures currentPage == InitialPage && pageSize == PageSize && totalPages == 1
      ensures !prevEnabled && !nextEnabled && !deleteEnabled
      ensures datasets == [] && rows == []
    {
      currentPage := InitialPage;
      pageSize := PageSize;
      totalPages := 1;
      prevEnabled := false;
      nextEnabled := false;
      deleteEnabled := false;
      datasets := [];
      rows := [];
    }

    /** The current page lies within `1..totalPages`. */
    predicate PagerInRange()
      reads this
    {
      1 <= currentPage <= totalPages
    }

    /**
     * `prev_page`: back one page when not on the first; `reload` says whether `load_history` is
     * called (which itself returns at once while a load is still running).
     */
    method PrevPage() returns (reload: bool)
      modifies this`currentPage
      ensures currentPage == PrevPageOf(old(currentPage))
      ensures reload <==> old(currentPage) > 1
      ensures old(PagerInRange()) ==> PagerInRange()
    {
      reload := false;
      if currentPage > 1 {
        currentPage := currentPage - 1;
        reload := true;
      }
    }

    /**
     * `next_page`: on one page when not on the last; `reload` says whether `load_history` is
     * called (which itself returns at once while a load is still running).
     */
    method NextPage() returns (reload: bool)
      modifies this`currentPage
      ensures currentPage == NextPageOf(old(currentPage), totalPages)
      ensures reload <==> old(currentPage) < totalPages
      ensures old(PagerInRange()) ==> PagerInRange()
    {
      reload := false;
      if currentPage < totalPages {
        currentPage := currentPage + 1;
        reload := true;
      }
    }

    /**
     * `on_history_loaded`, given the response's `pagination` block (`{}`
     * when absent) and its `datasets` list: the pager takes the block's
     * page and page count (1 when absent), the buttons its flags (off when
     * absent), and the table the entries' rows up to the first that raises.
     */
    method OnHistoryLoaded(pagination: Dict<Py>, entries: seq<Dict<Py>>, fmt: real -> string)
      requires IntShaped(pagination, "page") && IntShaped(pagination, "total_pages")
      modifies this`currentPage, this`totalPages, this`prevEnabled, this`nextEnabled, this`datasets, this`rows
      ensures currentPage == IntOr(pagination, "page", 1)
      ensures totalPages == IntOr(pagination, "total_pages", 1)
      ensures prevEnabled == Truthy(GetOr(pagination, "has_previous", PBool(false)))
      ensures nextEnabled == Truthy(GetOr(pagination, "has_next", PBool(false)))
      ensures datasets == entries
      ensures rows == TableRows(entries, fmt)
    {
      currentPage := IntOr(pagination, "page", 1);
      totalPages := IntOr(pagination, "total_pages", 1);
      prevEnabled := Truthy(GetOr(pagination, "has_previous", PBool(false)));
      nextEnabled := Truthy(GetOr(pagination, "has_next", PBool(false)));
      datasets := entries;
      rows := BuildRows(entries, fmt);
    }

    /** `on_selection_changed`: delete is enabled exactly when some row is selected. */
    method OnSelectionChanged(selectedRows: nat)
      modifies this`deleteEnabled
      ensures deleteEnabled <==> selectedRows > 0
    {
      deleteEnabled := selectedRows > 0;
    }
  }
}
