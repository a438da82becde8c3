/**
 * The desktop dashboard: the statistics its worker computes from the
 * dataset list the API returns, and where the four stat cards go.
 * Each dataset is the JSON object the API sent.
 */
module DashboardTab {
  import opened Common
  import opened Py

  /**
   * The value `sum` adds for `d.get(key, 0)`: 0 when absent, the number when an int or a bool.
   * A float is counted as a value `+` rejects here, although Python's `sum` would add it; the
   * server sends these counters as integers, so a float never reaches this tab.
   */
  function Summand(d: Dict<Py>, key: string): Option<int> {
    match GetOr(d, key, PInt(0))
    case PInt(n) => Some(n)
    case PBool(b) => Some(if b then 1 else 0)
    case _ => None
  }

  /**
   * `sum(d.get(key, 0) for d in datasets)`: None when some entry holds a
   * value `+` rejects (a JSON null, say), which raises out of the worker.
   */
  function SumField(ds: seq<Dict<Py>>, key: string): (r: Option<int>)
    ensures r.Some? <==> forall i :: 0 <= i < |ds| ==> Summand(ds[i], key).Some?
    ensures (forall i :: 0 <= i < |ds| ==> !HasKey(ds[i], key)) ==> r == Some(0)
  {
    if ds == [] then Some(0)
    else
      var init := ds[..|ds| - 1];
      var r := SumField(init, key);
      assert forall i :: 0 <= i < |init| ==> init[i] == ds[i];
      var x := Summand(ds[|ds| - 1], key);
      if r.Some? && x.Some? then Some(r.value + x.value) else None
  }

  /** Entries lacking the key add nothing: the sum over all is the sum over the ones that have it. */
  lemma {:induction false} SumFieldAbsentAsZero(ds: seq<Dict<Py>>, d: Dict<Py>, key: string)
    requires !HasKey(d, key)
    ensures SumField(ds + [d], key) == SumField(ds, key)
  {
    assert (ds + [d])[..|ds|] == ds;
  }

  /** `len([d for d in datasets if d.get('is_processed')])`. */
  function ProcessedCount(ds: seq<Dict<Py>>): (n: nat)
    ensures n <= |ds|
    ensures n == |ds| <==> forall i :: 0 <= i < |ds| ==> Truthy(GetOr(ds[i], "is_processed", PNone))
    ensures n == 0 <==> forall i :: 0 <= i < |ds| ==> !Truthy(GetOr(ds[i], "is_processed", PNone))
  {
    if ds == [] then 0
    else
      var init := ds[..|ds| - 1];
      assert forall i :: 0 <= i < |init| ==> init[i] == ds[i];
      ProcessedCount(init) + (if Truthy(GetOr(ds[|ds| - 1], "is_processed", PNone)) then 1 else 0)
  }

  /** `total_columns // total_datasets if total_datasets > 0 else 0`, with Python's floor division. */
  function AvgColumns(totalColumns: int, totalDatasets: nat): (avg: int)
    ensures totalDatasets == 0 ==> avg == 0
    ensures totalDatasets > 0 ==> avg * totalDatasets <= totalColumns < (avg + 1) * totalDatasets
  {
    if totalDatasets > 0 then totalColumns / totalDatasets else 0
  }

  const RecentCount := 5

  /** `datasets[:5]`. */
  function Recent(ds: seq<Dict<Py>>): (r: seq<Dict<Py>>)
    ensures |r| == Min(RecentCount, |ds|)
    ensures forall i :: 0 <= i < |r| ==> r[i] == ds[i]
  {
    ds[..Min(RecentCount, |ds|)]
  }

  datatype Stats = Stats(totalDatasets: nat, processedDatasets: nat, totalRows: int, avgColumns: int)

  datatype DashboardData = DashboardData(stats: Stats, recent: seq<Dict<Py>>)

  /** `DashboardWorker.run` after the fetch: the four statistics and the recent entries, or None when a sum raises. */
  function DashboardOf(ds: seq<Dict<Py>>): (r: Option<DashboardData>)
    ensures r.Some? <==> SumField(ds, "total_rows").Some? && SumField(ds, "total_columns").Some?
    ensures r.Some? ==>
      && r.value.stats.totalDatasets == |ds|
      && r.value.stats.processedDatasets == ProcessedCount(ds) <= r.value.stats.totalDatasets
      && r.value.stats.totalRows == SumField(ds, "total_rows").value
      && r.value.stats.avgColumns == AvgColumns(SumField(ds, "total_columns").value, |ds|)
      && r.value.recent == Recent(ds)
  {
    var rows := SumField(ds, "total_rows");
    var cols := SumField(ds, "total_columns");
    if rows.None? || cols.None? then None
    else Some(DashboardData(Stats(|ds|, ProcessedCount(ds), rows.value, AvgColumns(cols.value, |ds|)), Recent(ds)))
  }

  /** With no datasets every statistic is 0 and nothing is recent. */
  lemma EmptyDashboard()
    ensures DashboardOf([]) == Some(DashboardData(Stats(0, 0, 0, 0), []))
  {
  }

  // ---------------------------------------------------------------------
  // Stat-card placement

  const CardCount := 4

  /** The grid cell of the `i`-th stat card: row `i // 2`, column `i % 2`. */
  function CardCell(i: nat): (nat, nat) {
    (i / 2, i % 2)
  }

  /** The four cells of the 2 × 2 grid, each once, in reading order. */
  const GridCells: seq<(nat, nat)> := [(0, 0), (0, 1), (1, 0), (1, 1)]

  /** The four cards go to distinct cells of the 2 × 2 grid. */
  lemma CardsDistinct()
    ensures forall i :: 0 <= i < CardCount ==> CardCell(i).0 < 2 && CardCell(i).1 < 2
    ensures forall i, j :: 0 <= i < j < CardCount ==> CardCell(i) != CardCell(j)
  {
    forall i, j | 0 <= i < j < CardCount ensures CardCell(i) != CardCell(j) {
      CardCellAt(i);
      CardCellAt(j);
    }
  }

  /** The cards fill the grid in reading order: card i goes to the i-th cell, so every cell is used. */
  lemma CardsInReadingOrder()
    ensures forall i :: 0 <= i < CardCount ==> CardCell(i) == GridCells[i]
  {
    forall i | 0 <= i < CardCount ensures CardCell(i) == GridCells[i] {
      CardCellAt(i);
    }
  }

  /** The cell of each of the first four cards, written out. */
  lemma CardCellAt(i: nat)
    requires i < CardCount
    ensures CardCell(i) == GridCells[i]
  {
    if i == 0 {
    } else if i == 1 {
    } else if i == 2 {
    } else {
      assert i == 3;
    }
  }
}
