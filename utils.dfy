/**
 * The generic upload path: choosing a reader by file extension, per-column
 * statistics, the whole-dataset summary and the row preview.
 */
module Utils {
  import opened Common
  import opened Text
  import opened Frame
  import opened Py
  import Numeric

  datatype Reader = CsvReader | JsonReader | ExcelReader

  /** What the chosen reader produced: a table, or the text of the exception it raised. */
  datatype ReadOutcome = Read(table: Table) | ReadRaised(message: string)

  /** The lower-cased text after the last '.', or the whole lower-cased name when it has none. */
  function FileExtension(fileName: string): string {
    LastSegment(Lower(fileName), '.')
  }

  /** The reader for an extension; csv, json, xlsx and xls are the only ones. */
  function ReaderFor(ext: string): (r: Option<Reader>)
    ensures r.Some? <==> ext in ["csv", "json", "xlsx", "xls"]
    ensures r == Some(CsvReader) <==> ext == "csv"
    ensures r == Some(JsonReader) <==> ext == "json"
    ensures r == Some(ExcelReader) <==> ext == "xlsx" || ext == "xls"
  {
    if ext == "csv" then Some(CsvReader)
    else if ext == "json" then Some(JsonReader)
    else if ext == "xlsx" || ext == "xls" then Some(ExcelReader)
    else None
  }

  datatype Metadata = Metadata(totalRows: nat, totalColumns: nat, columnNames: seq<string>,
                               columnTypes: Dict<string>)

  /** `{col: str(df[col].dtype) for col in df.columns}`. */
  function ColumnTypes(t: Table): Dict<string>
    requires WellFormed(t)
  {
    FromPairs(t.headers, seq(|t.headers|, j requires 0 <= j < |t.headers| => DType(Column(t, j))))
  }

  function MetadataOf(t: Table): Metadata
    requires WellFormed(t)
  {
    Metadata(|t.rows|, |t.headers|, t.headers, ColumnTypes(t))
  }

  /**
   * `process_uploaded_file`: `read` stands for the readers, which this model
   * does not contain. Every failure, including an unsupported extension,
   * surfaces as "Error processing file: " followed by the original message.
   */
  function ProcessUploadedFile(fileName: string, read: Reader -> ReadOutcome): (r: Result<(Table, Metadata)>)
    requires forall k :: read(k).Read? ==> WellFormed(read(k).table)
  {
    match ReaderFor(FileExtension(fileName))
    case None => Err("Error processing file: Unsupported file type: " + FileExtension(fileName))
    case Some(k) =>
      match read(k)
      case ReadRaised(m) => Err("Error processing file: " + m)
      case Read(t) => Ok((t, MetadataOf(t)))
  }

  /**
   * An extension outside csv, json, xlsx and xls is refused with the
   * unsupported-type message; otherwise the reader's exception is wrapped,
   * or its table comes back with its metadata.
   */
  lemma ProcessUploadedFileOutcome(fileName: string, read: Reader -> ReadOutcome)
    requires forall k :: read(k).Read? ==> WellFormed(read(k).table)
    ensures var ext := FileExtension(fileName);
      ext !in ["csv", "json", "xlsx", "xls"] ==>
        ProcessUploadedFile(fileName, read) == Err("Error processing file: Unsupported file type: " + ext)
    ensures var ext := FileExtension(fileName);
      ext in ["csv", "json", "xlsx", "xls"] && read(ReaderFor(ext).value).ReadRaised? ==>
        ProcessUploadedFile(fileName, read) == Err("Error processing file: " + read(ReaderFor(ext).value).message)
    ensures var ext := FileExtension(fileName);
      ext in ["csv", "json", "xlsx", "xls"] && read(ReaderFor(ext).value).Read? ==>
        ProcessUploadedFile(fileName, read) == Ok((read(ReaderFor(ext).value).table, MetadataOf(read(ReaderFor(ext).value).table)))
  {
  }

  /**
   * The metadata counts the rows and columns, lists the headers in order
   * and records each header's dtype. The clause for a header's last column
   * covers tables with repeated headers, which pandas' readers never produce
   * (they rename a repeated `a` to `a.1`); for their tables every column is
   * its header's last.
   */
  lemma MetadataOfMeaning(t: Table)
    requires WellFormed(t)
    ensures MetadataOf(t).totalRows == |t.rows| && MetadataOf(t).totalColumns == |t.headers|
    ensures MetadataOf(t).columnNames == t.headers
    ensures forall h :: HasKey(MetadataOf(t).columnTypes, h) <==> h in t.headers
    ensures forall j :: 0 <= j < |t.headers| && (forall i :: j < i < |t.headers| ==> t.headers[i] != t.headers[j]) ==>
              Get(MetadataOf(t).columnTypes, t.headers[j]) == Some(DType(Column(t, j)))
  {
    var types := seq(|t.headers|, j requires 0 <= j < |t.headers| => DType(Column(t, j)));
    FromPairsKeys(t.headers, types);
    forall j | 0 <= j < |t.headers| && (forall i :: j < i < |t.headers| ==> t.headers[i] != t.headers[j])
      ensures Get(ColumnTypes(t), t.headers[j]) == Some(DType(Column(t, j)))
    {
      FromPairsGet(t.headers, types, j);
    }
  }

  /** The extension is the text after the last '.', so a name without a dot is its own extension. */
  lemma FileExtensionShape(fileName: string)
    ensures var ext := FileExtension(fileName); var low := Lower(fileName);
      && '.' !in ext && ext == low[|low| - |ext|..]
      && (|ext| < |low| ==> low[|low| - |ext| - 1] == '.')
    ensures '.' !in fileName ==> FileExtension(fileName) == Lower(fileName)
  {
    var low := Lower(fileName);
    var ext := FileExtension(fileName);
    if '.' !in fileName {
      assert forall i :: 0 <= i < |low| ==> low[i] != '.' by {
        forall i | 0 <= i < |low| ensures low[i] != '.' {
          assert low[i] == LowerChar(fileName[i]);
          assert fileName[i] != '.';
        }
      }
      assert !(|ext| < |low|);
    }
  }

  /** Statistics of a numeric column, each None for an empty column. */
  datatype NumericDetail = NumericDetail(mean: Option<Flt>, median: Option<Flt>, variance: Option<Flt>,
                                         min: Option<Flt>, max: Option<Flt>, q25: Option<Flt>, q75: Option<Flt>)

  datatype CategoricalDetail = CategoricalDetail(mostFrequent: string, frequency: nat, topValues: Dict<nat>)

  datatype ColumnStats = ColumnStats(name: string, dtype: string, count: nat, missingCount: nat,
                                     uniqueCount: nat, numeric: Option<NumericDetail>,
                                     categorical: Option<CategoricalDetail>)

  function NumericDetailOf(cells: seq<Cell>): (d: NumericDetail) {
    var xs := Numbers(cells);
    if cells == [] then NumericDetail(None, None, None, None, None, None, None)
    else if xs == [] then NumericDetail(Some(NaN), Some(NaN), Some(NaN), Some(NaN), Some(NaN), Some(NaN), Some(NaN))
    else
      var variance := match Numeric.SampleVariance(xs) case Some(v) => Fin(v) case None => NaN;
      NumericDetail(Some(Fin(Numeric.Mean(xs))), Some(Fin(Numeric.Median(xs))), Some(variance),
                    Some(Fin(Numeric.MinOf(xs))), Some(Fin(Numeric.MaxOf(xs))),
                    Some(Fin(Numeric.Quantile(xs, 1, 4))), Some(Fin(Numeric.Quantile(xs, 3, 4))))
  }

  /** `series.nunique()`: the number of distinct present cells. */
  function UniqueCount(cells: seq<Cell>): nat {
    |set i | 0 <= i < |cells| && !cells[i].Missing? :: cells[i]|
  }

  /** Distinct cells make a set of their own number. */
  lemma {:induction false} DistinctCells(u: seq<Cell>)
    requires forall a, b :: 0 <= a < b < |u| ==> u[a] != u[b]
    ensures |set x | x in u| == |u|
  {
    if u != [] {
      var init := u[..|u| - 1];
      var last := u[|u| - 1];
      assert forall a, b :: 0 <= a < b < |init| ==> init[a] != init[b] by {
        assert forall a :: 0 <= a < |init| ==> init[a] == u[a];
      }
      DistinctCells(init);
      assert u == init + [last];
      assert (set x | x in u) == (set x | x in init) + {last};
      assert last !in init;
    }
  }

  /** `len(series.value_counts())` is `series.nunique()`. */
  lemma CellValueCountsSize(cells: seq<Cell>)
    ensures |CellValueCounts(cells)| == UniqueCount(cells)
  {
    var u := Uniques(cells);
    var t := CellTally(cells);
    var r := CellValueCounts(cells);
    assert |r| == |multiset(r)| == |multiset(t)| == |t|;
    DistinctCells(u);
    var present := set i | 0 <= i < |cells| && !cells[i].Missing? :: cells[i];
    assert present == set x | x in u;
  }

  /** The first `n` entries (`head(n)` of a Series). */
  function Take<T>(d: seq<T>, n: nat): (r: seq<T>)
    ensures |r| == Min(n, |d|) && r == d[..|r|]
  {
    d[..Min(n, |d|)]
  }

  /** The text `str(k)` of each counted value. */
  function KeyTexts(es: seq<(Cell, nat)>, render: real -> string): (ks: seq<string>)
    ensures |ks| == |es| && forall i :: 0 <= i < |es| ==> ks[i] == ToText(es[i].0, render)
  {
    seq(|es|, i requires 0 <= i < |es| => ToText(es[i].0, render))
  }

  function Counts(es: seq<(Cell, nat)>): (vs: seq<nat>)
    ensures |vs| == |es| && forall i :: 0 <= i < |es| ==> vs[i] == es[i].1
  {
    seq(|es|, i requires 0 <= i < |es| => es[i].1)
  }

  /** `{str(k): int(v) for k, v in es}`. */
  function TextKeyed(es: seq<(Cell, nat)>, render: real -> string): Dict<nat> {
    FromPairs(KeyTexts(es, render), Counts(es))
  }

  /**
   * The categorical part of the statistics: `value_counts()` counts the cells
   * themselves; its first entry gives `str(index[0])` and its count, and the
   * first ten become `{str(k): int(v) ...}`, where texts that coincide
   * overwrite one another.
   */
  function CategoricalDetailOf(cells: seq<Cell>, render: real -> string): Option<CategoricalDetail> {
    var counts := CellValueCounts(cells);
    if counts == [] then None
    else
      var top := Take(counts, 10);
      Some(CategoricalDetail(ToText(counts[0].0, render), counts[0].1, TextKeyed(top, render)))
  }

  /** `calculate_column_statistics` for the column `cells` named `name`. */
  function CalculateColumnStatistics(name: string, cells: seq<Cell>, render: real -> string): (s: ColumnStats)
    ensures s.count + s.missingCount == |cells|
    ensures s.numeric.Some? <==> IsNumericDType(DType(cells))
    ensures s.numeric.None? ==> s.categorical == CategoricalDetailOf(cells, render)
    ensures s.numeric.Some? ==> s.categorical.None?
  {
    var dtype := DType(cells);
    ColumnStats(name, dtype, |cells| - CountMissing(cells), CountMissing(cells), UniqueCount(cells),
                if IsNumericDType(dtype) then Some(NumericDetailOf(cells)) else None,
                if IsNumericDType(dtype) then None else CategoricalDetailOf(cells, render))
  }

  /**
   * A numeric column's detail is all None exactly when the column is empty,
   * all NaN when nothing is present, and otherwise has min <= q25 <= q75 <= max
   * (q25 and q75 and the median each between min and max) and min <= mean <= max.
   */
  lemma NumericDetailBounds(cells: seq<Cell>)
    ensures NumericDetailOf(cells).mean.None? <==> cells == []
    ensures Numbers(cells) != [] ==>
      var d := NumericDetailOf(cells);
      && d.mean.Some? && d.mean.value.Fin? && d.min.Some? && d.min.value.Fin?
      && d.max.Some? && d.max.value.Fin? && d.median.Some? && d.median.value.Fin?
      && d.q25.Some? && d.q25.value.Fin? && d.q75.Some? && d.q75.value.Fin?
      && d.min.value.value <= d.mean.value.value <= d.max.value.value
      && d.min.value.value <= d.median.value.value <= d.max.value.value
      && d.min.value.value <= d.q25.value.value <= d.max.value.value
      && d.min.value.value <= d.q75.value.value <= d.max.value.value
  {
    var xs := Numbers(cells);
    if xs != [] {
      Numeric.MeanBetweenMinMax(xs);
      Numeric.QuantileBetweenMinMax(xs, 1, 2);
      Numeric.QuantileBetweenMinMax(xs, 1, 4);
      Numeric.QuantileBetweenMinMax(xs, 3, 4);
    }
  }

  /** A categorical column has a detail exactly when some value is present. */
  lemma CategoricalDetailPresence(cells: seq<Cell>, render: real -> string)
    ensures CategoricalDetailOf(cells, render).Some? <==> CountMissing(cells) < |cells|
  {
    CellValueCountsCorrect(cells);
  }

  /**
   * The most frequent value is the text of a present cell, the frequency is
   * that cell's own number of occurrences, and no present cell occurs more
   * often.
   */
  lemma CategoricalDetailMost(cells: seq<Cell>, render: real -> string)
    ensures CategoricalDetailOf(cells, render).Some? ==>
      var d := CategoricalDetailOf(cells, render).value;
      && (exists j :: 0 <= j < |cells| && !cells[j].Missing?
                     && d.mostFrequent == ToText(cells[j], render) && d.frequency == Occurrences(cells, cells[j]))
      && (forall j :: 0 <= j < |cells| && !cells[j].Missing? ==> Occurrences(cells, cells[j]) <= d.frequency)
  {
    var r := CellValueCounts(cells);
    if r != [] {
      CellValueCountsCorrect(cells);
      var j :| 0 <= j < |cells| && cells[j] == r[0].0;
      forall j | 0 <= j < |cells| && !cells[j].Missing? ensures Occurrences(cells, cells[j]) <= r[0].1 {
        var i :| 0 <= i < |r| && r[i].0 == cells[j];
        assert r[0].1 >= r[i].1;
      }
    }
  }

  /** The dict has one key per distinct text of the entries, and no other. */
  lemma TextKeyedKeys(es: seq<(Cell, nat)>, render: real -> string)
    ensures |TextKeyed(es, render)| <= |es|
    ensures DistinctKeys(TextKeyed(es, render))
    ensures forall k :: HasKey(TextKeyed(es, render), k) <==> exists i :: 0 <= i < |es| && ToText(es[i].0, render) == k
  {
    var ks := KeyTexts(es, render);
    var vs := Counts(es);
    FromPairsKeys(ks, vs);
    FromPairsSize(ks, vs);
    forall k | HasKey(TextKeyed(es, render), k) ensures exists i :: 0 <= i < |es| && ToText(es[i].0, render) == k {
      var i :| 0 <= i < |ks| && ks[i] == k;
    }
  }

  /** A key's count is that of the last entry that renders to it. */
  lemma TextKeyedLast(es: seq<(Cell, nat)>, render: real -> string, i: nat)
    requires i < |es| && forall m :: i < m < |es| ==> ToText(es[m].0, render) != ToText(es[i].0, render)
    ensures Get(TextKeyed(es, render), ToText(es[i].0, render)) == Some(es[i].1)
  {
    FromPairsGet(KeyTexts(es, render), Counts(es), i);
  }

  /** When no two entries render alike, the dict is the entries with their texts as keys, in order. */
  lemma TextKeyedInOrder(es: seq<(Cell, nat)>, render: real -> string)
    requires forall i, m :: 0 <= i < m < |es| ==> ToText(es[i].0, render) != ToText(es[m].0, render)
    ensures |TextKeyed(es, render)| == |es|
    ensures forall i :: 0 <= i < |es| ==> TextKeyed(es, render)[i] == (ToText(es[i].0, render), es[i].1)
  {
    var ks := KeyTexts(es, render);
    var vs := Counts(es);
    FromPairsZip(ks, vs);
  }

  /**
   * top_values has the texts of the (at most ten) most frequent values as its
   * keys, once each.
   */
  lemma CategoricalDetailTopKeys(cells: seq<Cell>, render: real -> string)
    ensures CategoricalDetailOf(cells, render).Some? ==>
      var r := CellValueCounts(cells);
      var d := CategoricalDetailOf(cells, render).value;
      && |d.topValues| <= 10
      && DistinctKeys(d.topValues)
      && forall k :: HasKey(d.topValues, k) <==> exists i :: 0 <= i < Min(10, |r|) && ToText(r[i].0, render) == k
  {
    var r := CellValueCounts(cells);
    if r != [] {
      var top := Take(r, 10);
      assert forall i :: 0 <= i < |top| ==> top[i] == r[i];
      TextKeyedKeys(top, render);
    }
  }

  /** A top value's count is that of the last of the ten most frequent values rendering to its key. */
  lemma CategoricalDetailTopCounts(cells: seq<Cell>, render: real -> string, i: nat)
    requires i < Min(10, |CellValueCounts(cells)|)
    requires forall m :: i < m < Min(10, |CellValueCounts(cells)|) ==>
      ToText(CellValueCounts(cells)[m].0, render) != ToText(CellValueCounts(cells)[i].0, render)
    ensures CategoricalDetailOf(cells, render).Some?
    ensures Get(CategoricalDetailOf(cells, render).value.topValues, ToText(CellValueCounts(cells)[i].0, render))
            == Some(Occurrences(cells, CellValueCounts(cells)[i].0))
  {
    var r := CellValueCounts(cells);
    CellValueCountsCorrect(cells);
    var top := Take(r, 10);
    assert forall m :: 0 <= m < |top| ==> top[m] == r[m];
    TextKeyedLast(top, render, i);
  }

  /**
   * When none of the ten most frequent values render alike, top_values lists
   * them all with their counts, most frequent first.
   */
  lemma CategoricalDetailTopOrder(cells: seq<Cell>, render: real -> string)
    requires forall i, m :: 0 <= i < m < Min(10, |CellValueCounts(cells)|) ==>
      ToText(CellValueCounts(cells)[i].0, render) != ToText(CellValueCounts(cells)[m].0, render)
    ensures CategoricalDetailOf(cells, render).Some? ==>
      var d := CategoricalDetailOf(cells, render).value;
      |d.topValues| == Min(10, |CellValueCounts(cells)|) && CountsDescending(d.topValues)
  {
    var r := CellValueCounts(cells);
    if r != [] {
      var top := Take(r, 10);
      assert CountsDescending(top) by {
        CellValueCountsCorrect(cells);
      }
      TextKeyedInOrder(top, render);
      var d := TextKeyed(top, render);
      forall i, m | 0 <= i < m < |d| ensures d[i].1 >= d[m].1 {
        assert d[i].1 == top[i].1 && d[m].1 == top[m].1;
      }
    }
  }

  /** A column holding the number 1.0, the text "1.0" and the text "x". */
  predicate IsCollidingColumn(cells: seq<Cell>) {
    |cells| == 3 && cells[0] == Num(1.0) && cells[1] == Str("1.0") && cells[2] == Str("x")
  }

  /** Its three values are distinct. */
  lemma CollidingUnique(cells: seq<Cell>)
    requires IsCollidingColumn(cells)
    ensures UniqueCount(cells) == 3
  {
    var present := set i | 0 <= i < |cells| && !cells[i].Missing? :: cells[i];
    assert cells[0] in present && cells[1] in present && cells[2] in present;
    assert present == {Num(1.0), Str("1.0"), Str("x")};
  }

  /**
   * The number 1.0 and the text "1.0" are counted apart even where `str`
   * renders them alike, so the frequency is 1.
   */
  lemma CollidingFrequency(cells: seq<Cell>, render: real -> string)
    requires IsCollidingColumn(cells) && render(1.0) == "1.0"
    ensures CategoricalDetailOf(cells, render).Some?
    ensures CategoricalDetailOf(cells, render).value.frequency == 1
  {
    var r := CellValueCounts(cells);
    assert r != [] && r[0].0 in cells && r[0].1 == Occurrences(cells, r[0].0) by {
      CellValueCountsCorrect(cells);
    }
    var j :| 0 <= j < 3 && cells[j] == r[0].0;
    CollidingDistinct(cells);
    OccursOnce(cells, j);
  }

  lemma CollidingDistinct(cells: seq<Cell>)
    requires IsCollidingColumn(cells)
    ensures forall a, b :: 0 <= a < b < |cells| ==> cells[a] != cells[b]
  {
    assert "1.0"[0] != "x"[0];
  }

  /** Their texts coincide in top_values, which keeps one "1.0" key beside "x". */
  lemma CollidingKeys(cells: seq<Cell>, render: real -> string)
    requires IsCollidingColumn(cells) && render(1.0) == "1.0"
    ensures CategoricalDetailOf(cells, render).Some?
    ensures var top := CategoricalDetailOf(cells, render).value.topValues;
      && HasKey(top, "1.0") && HasKey(top, "x")
      && forall k :: HasKey(top, k) ==> k == "1.0" || k == "x"
  {
    var r := CellValueCounts(cells);
    var a, b;
    assert |r| <= 3 && forall i :: 0 <= i < |r| ==> r[i].0 in cells by {
      CellValueCountsCorrect(cells);
    }
    a, b := CollidingPositions(cells);
    CategoricalDetailPresence(cells, render);
    var top := CategoricalDetailOf(cells, render).value.topValues;
    assert forall k :: HasKey(top, k) <==> exists i :: 0 <= i < Min(10, |r|) && ToText(r[i].0, render) == k by {
      CategoricalDetailTopKeys(cells, render);
    }
    assert ToText(r[a].0, render) == "1.0" && ToText(r[b].0, render) == "x";
    forall k | HasKey(top, k) ensures k == "1.0" || k == "x" {
      var i :| 0 <= i < Min(10, |r|) && ToText(r[i].0, render) == k;
      var j :| 0 <= j < 3 && cells[j] == r[i].0;
      assert j == 0 || j == 1 || j == 2;
    }
  }

  /** Where the number 1.0 and the text "x" stand in the value counts. */
  lemma CollidingPositions(cells: seq<Cell>) returns (a: nat, b: nat)
    requires IsCollidingColumn(cells)
    ensures a < |CellValueCounts(cells)| && CellValueCounts(cells)[a].0 == Num(1.0)
    ensures b < |CellValueCounts(cells)| && CellValueCounts(cells)[b].0 == Str("x")
  {
    CellValueCountsCorrect(cells);
    var r := CellValueCounts(cells);
    assert !cells[0].Missing? && !cells[2].Missing?;
    a :| 0 <= a < |r| && r[a].0 == cells[0];
    b :| 0 <= b < |r| && r[b].0 == cells[2];
  }

  datatype DatasetInfo = DatasetInfo(totalRows: nat, totalColumns: nat, missingValuesTotal: nat)

  datatype Overall = Overall(numericColumnsCount: nat, categoricalColumnsCount: nat,
                             totalMissingValues: nat, missingPercentage: Flt)

  datatype SummaryStatistics = SummaryStatistics(datasetInfo: DatasetInfo, columns: Dict<ColumnStats>,
                                                 summary: Overall)

  /** `df.isnull().sum().sum()`. */
  function MissingTotal(t: Table): nat {
    MissingInRows(t.rows)
  }

  function MissingInRows(rows: seq<seq<Cell>>): nat {
    if rows == [] then 0 else CountMissing(rows[0]) + MissingInRows(rows[1..])
  }

  /** `missing / (rows * columns) * 100`, NaN for an empty frame (NumPy's 0/0). */
  function MissingPercentage(missing: nat, rows: nat, columns: nat): (p: Flt)
    ensures rows * columns > 0 ==> p.Fin?
  {
    if rows * columns == 0 then NaN else Fin(missing as real / (rows * columns) as real * 100.0)
  }

  /** The statistics of column `j`, as the summary stores them. */
  function StatsOfColumn(t: Table, j: nat, render: real -> string): ColumnStats
    requires WellFormed(t) && j < |t.headers|
  {
    CalculateColumnStatistics(t.headers[j], Column(t, j), render)
  }

  function StatsList(t: Table, render: real -> string): (l: seq<ColumnStats>)
    requires WellFormed(t)
    ensures |l| == |t.headers|
    ensures forall j :: 0 <= j < |t.headers| ==> l[j] == StatsOfColumn(t, j, render)
  {
    seq(|t.headers|, j requires 0 <= j < |t.headers| => StatsOfColumn(t, j, render))
  }

  /**
   * One entry per header; a header's entry describes its last column. Tables
   * from pandas' readers have distinct headers (a repeated `a` is renamed
   * `a.1`), so there every column has its own entry.
   */
  lemma ColumnsEntries(t: Table, render: real -> string)
    requires WellFormed(t)
    ensures DistinctKeys(FromPairs(t.headers, StatsList(t, render)))
    ensures forall h :: HasKey(FromPairs(t.headers, StatsList(t, render)), h) <==> h in t.headers
    ensures forall j :: 0 <= j < |t.headers| && (forall k :: j < k < |t.headers| ==> t.headers[k] != t.headers[j]) ==>
              Get(FromPairs(t.headers, StatsList(t, render)), t.headers[j]) == Some(StatsOfColumn(t, j, render))
  {
    var stats := StatsList(t, render);
    FromPairsKeys(t.headers, stats);
    forall j | 0 <= j < |t.headers| && (forall k :: j < k < |t.headers| ==> t.headers[k] != t.headers[j])
      ensures Get(FromPairs(t.headers, stats), t.headers[j]) == Some(StatsOfColumn(t, j, render))
    {
      FromPairsGet(t.headers, stats, j);
    }
  }

  /** How many of the first `n` columns have a numeric dtype (`select_dtypes(include=[np.number])`). */
  function NumericColumnCount(t: Table, n: nat): (k: nat)
    requires WellFormed(t) && n <= |t.headers|
    ensures k <= n
    ensures k == n <==> forall j :: 0 <= j < n ==> IsNumericDType(DType(Column(t, j)))
    ensures k == 0 <==> forall j :: 0 <= j < n ==> !IsNumericDType(DType(Column(t, j)))
  {
    if n == 0 then 0
    else NumericColumnCount(t, n - 1) + (if IsNumericDType(DType(Column(t, n - 1))) then 1 else 0)
  }

  /** `generate_summary_statistics`; `memory_usage` is not part of this model. */
  method GenerateSummaryStatistics(t: Table, render: real -> string) returns (s: SummaryStatistics)
    requires WellFormed(t)
    ensures s.datasetInfo == DatasetInfo(|t.rows|, |t.headers|, MissingTotal(t))
    ensures DistinctKeys(s.columns)
    ensures forall h :: HasKey(s.columns, h) <==> h in t.headers
    ensures forall j :: 0 <= j < |t.headers| && (forall k :: j < k < |t.headers| ==> t.headers[k] != t.headers[j]) ==>
              Get(s.columns, t.headers[j]) == Some(StatsOfColumn(t, j, render))
    ensures s.summary.totalMissingValues == s.datasetInfo.missingValuesTotal
    ensures s.summary.numericColumnsCount == NumericColumnCount(t, |t.headers|)
    ensures s.summary.numericColumnsCount + s.summary.categoricalColumnsCount == |t.headers|
    ensures s.summary.missingPercentage == MissingPercentage(MissingTotal(t), |t.rows|, |t.headers|)
  {
    var missing := MissingTotal(t);
    var columns: Dict<ColumnStats> := [];
    var numeric := 0;
    var categorical := 0;
    for j := 0 to |t.headers|
      invariant columns == FromPairs(t.headers[..j], StatsList(t, render)[..j])
      invariant numeric == NumericColumnCount(t, j)
      invariant numeric + categorical == j
    {
      FromPairsSnoc(t.headers, StatsList(t, render), j);
      columns := Put(columns, t.headers[j], StatsList(t, render)[j]);
      if IsNumericDType(DType(Column(t, j))) {
        numeric := numeric + 1;
      } else {
        categorical := categorical + 1;
      }
    }
    assert t.headers[..|t.headers|] == t.headers;
    assert StatsList(t, render)[..|t.headers|] == StatsList(t, render);
    ColumnsEntries(t, render);
    s := SummaryStatistics(DatasetInfo(|t.rows|, |t.headers|, missing), columns,
                           Overall(numeric, categorical, missing, MissingPercentage(missing, |t.rows|, |t.headers|)));
  }

  /** How many rows `df.head(n)` keeps: the first n, or all but the last -n when n is negative. */
  function HeadCount(n: int, total: nat): (k: nat)
    ensures k <= total
    ensures n >= 0 ==> k <= n && (k < n ==> k == total)
    ensures n < 0 ==> k + Min(-n, total) == total
  {
    if n >= 0 then Min(n, total) else Max(total + n, 0)
  }

  /**
   * Whether some column has dtype `object`. Then `iterrows` hands out each
   * row through the frame's object array, so the numbers in it arrive as
   * plain Python numbers rather than numpy scalars.
   */
  predicate HasObjectColumn(t: Table)
    requires WellFormed(t)
  {
    exists j :: 0 <= j < |t.headers| && DType(Column(t, j)) == "object"
  }

  /** A frame without an `object` column holds no text at all. */
  lemma NumericFrameNoText(t: Table, i: nat, j: nat)
    requires WellFormed(t) && !HasObjectColumn(t)
    requires i < |t.rows| && j < |t.headers|
    ensures !t.rows[i][j].Str?
  {
    var col := Column(t, j);
    assert DType(col) != "object";
    assert col[i] == t.rows[i][j];
  }

  /**
   * A cell as the preview reports it: None when missing; a float when it is
   * a numpy number (`asText` false); otherwise `str(value)`, with `render`
   * standing for Python's `str` of a number.
   */
  function PreviewValue(c: Cell, asText: bool, render: real -> string): (p: Py)
    ensures p == PNone <==> c.Missing?
    ensures asText && !c.Missing? ==> p == PStr(ToText(c, render))
    ensures !asText && c.Num? ==> p == PFloat(Fin(c.value))
    ensures !asText && c.Str? ==> p == PStr(c.text)
  {
    match c
    case Missing => PNone
    case Num(x) => if asText then PStr(render(x)) else PFloat(Fin(x))
    case Str(s) => PStr(s)
  }

  /** One preview row: `row_data[col] = value` for each column in order. */
  function RowData(headers: seq<string>, row: seq<Cell>, asText: bool, render: real -> string): Dict<Py>
    requires |row| == |headers|
  {
    FromPairs(headers, seq(|row|, j requires 0 <= j < |row| => PreviewValue(row[j], asText, render)))
  }

  datatype Preview = Preview(columns: seq<string>, data: seq<Dict<Py>>, totalRowsShown: nat)

  /** The nested loops of `get_dataset_preview`: one dict per kept row. */
  method PreviewRows(t: Table, rows: int, render: real -> string) returns (data: seq<Dict<Py>>)
    requires WellFormed(t)
    ensures |data| == HeadCount(rows, |t.rows|)
    ensures forall i :: 0 <= i < |data| ==> data[i] == RowData(t.headers, t.rows[i], HasObjectColumn(t), render)
  {
    var n := HeadCount(rows, |t.rows|);
    var asText := HasObjectColumn(t);
    data := [];
    for i := 0 to n
      invariant |data| == i
      invariant forall k :: 0 <= k < i ==> data[k] == RowData(t.headers, t.rows[k], asText, render)
    {
      var row_data: Dict<Py> := [];
      var row := t.rows[i];
      ghost var values := seq(|row|, j requires 0 <= j < |row| => PreviewValue(row[j], asText, render));
      for j := 0 to |t.headers|
        invariant row_data == FromPairs(t.headers[..j], values[..j])
      {
        FromPairsSnoc(t.headers, values, j);
        row_data := Put(row_data, t.headers[j], PreviewValue(row[j], asText, render));
      }
      assert t.headers[..|t.headers|] == t.headers;
      assert values[..|t.headers|] == values;
      data := data + [row_data];
    }
  }

  /** In a preview row every column reads back its own cell, converted. */
  lemma RowDataGet(headers: seq<string>, row: seq<Cell>, asText: bool, render: real -> string, j: nat)
    requires |row| == |headers| && j < |headers|
    requires forall a, b :: 0 <= a < b < |headers| ==> headers[a] != headers[b]
    ensures Get(RowData(headers, row, asText, render), headers[j]) == Some(PreviewValue(row[j], asText, render))
    ensures Keys(RowData(headers, row, asText, render)) == headers
  {
    var values := seq(|row|, k requires 0 <= k < |row| => PreviewValue(row[k], asText, render));
    FromPairsGet(headers, values, j);
    FromPairsDistinctKeys(headers, values);
  }

  /** `get_dataset_preview`. */
  method GetDatasetPreview(t: Table, rows: int, render: real -> string) returns (p: Preview)
    requires WellFormed(t)
    ensures p.columns == t.headers
    ensures p.totalRowsShown == |p.data| == HeadCount(rows, |t.rows|)
    ensures forall i :: 0 <= i < |p.data| ==> p.data[i] == RowData(t.headers, t.rows[i], HasObjectColumn(t), render)
  {
    var data := PreviewRows(t, rows, render);
    p := Preview(t.headers, data, |data|);
  }
}
