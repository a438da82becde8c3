/**
 * The data-dependent part of the PDF report generator: the default report
 * filename and the rows each report section emits. The layout (styles,
 * colours, page build) is rendering and stays outside the model.
 */
module PdfUtils {
  import opened Common
  import opened Text
  import opened Py
  import Models

  // ---------------------------------------------------------------------
  // Report filename

  /** A character the filename keeps: alphanumeric, space, `-` or `_`. */
  predicate SafeChar(c: char) {
    IsAlnum(c) || c == ' ' || c == '-' || c == '_'
  }

  /** The comprehension over the name: its safe characters, in order. */
  function SafeChars(s: string): (r: string)
    ensures |r| <= |s|
    ensures forall i :: 0 <= i < |r| ==> SafeChar(r[i])
  {
    if s == [] then []
    else if SafeChar(s[|s| - 1]) then SafeChars(s[..|s| - 1]) + [s[|s| - 1]]
    else SafeChars(s[..|s| - 1])
  }

  /** Filtering keeps exactly the characters that pass the test. */
  lemma {:induction false} SafeCharsCount(s: string, c: char)
    ensures multiset(SafeChars(s))[c] == if SafeChar(c) then multiset(s)[c] else 0
  {
    if s != [] {
      SafeCharsCount(s[..|s| - 1], c);
      assert s == s[..|s| - 1] + [s[|s| - 1]];
    }
  }

  /** A name made only of safe characters passes the filter unchanged. */
  lemma {:induction false} SafeCharsOfSafe(s: string)
    requires forall i :: 0 <= i < |s| ==> SafeChar(s[i])
    ensures SafeChars(s) == s
  {
    if s != [] {
      SafeCharsOfSafe(s[..|s| - 1]);
      assert s == s[..|s| - 1] + [s[|s| - 1]];
    }
  }

  /** The sanitised name: the safe characters, trailing whitespace removed. */
  function SafeName(name: string): (r: string)
    ensures forall i :: 0 <= i < |r| ==> SafeChar(r[i])
    ensures r == [] || !IsSpace(r[|r| - 1])
    ensures |r| <= |SafeChars(name)| && r == SafeChars(name)[..|r|]
  {
    RStrip(SafeChars(name))
  }

  /** Sanitising twice is sanitising once, and a clean name is its own sanitised form. */
  lemma SafeNameIdempotent(name: string)
    ensures SafeName(SafeName(name)) == SafeName(name)
  {
    SafeNameOfClean(SafeName(name));
  }

  lemma SafeNameOfClean(name: string)
    requires forall i :: 0 <= i < |name| ==> SafeChar(name[i])
    requires name == [] || !IsSpace(name[|name| - 1])
    ensures SafeName(name) == name
  {
    SafeCharsOfSafe(name);
  }

  const ReportPrefix := "dataset_report_"
  const ReportSuffix := ".pdf"

  /** The filename the generator makes up for a dataset. */
  function DefaultFilename(d: Models.Dataset): (r: string)
    ensures |r| >= |ReportPrefix| + |SafeName(d.name)| + |ReportSuffix|
    ensures r[..|ReportPrefix|] == ReportPrefix
    ensures r[|r| - |ReportSuffix|..] == ReportSuffix
    ensures r[|ReportPrefix|..|ReportPrefix| + |SafeName(d.name)|] == SafeName(d.name)
    ensures r[|ReportPrefix| + |SafeName(d.name)|..|r| - |ReportSuffix|] == "_" + NatToString(d.id)
  {
    var safe := SafeName(d.name);
    var id := "_" + NatToString(d.id);
    var tail := id + ReportSuffix;
    var r := ReportPrefix + (safe + tail);
    assert r == ReportPrefix + safe + "_" + NatToString(d.id) + ReportSuffix;
    assert (safe + tail)[..|safe|] == safe;
    assert tail[|tail| - |ReportSuffix|..] == ReportSuffix;
    assert r[|ReportPrefix| + |safe|..] == tail;
    assert tail[..|id|] == id;
    r
  }

  /** `generate_dataset_pdf_report`'s filename: the caller's when given and non-empty, else the default. */
  function ReportFilename(d: Models.Dataset, filename: Option<string>): (r: string)
    ensures filename.Some? && filename.value != "" ==> r == filename.value
    ensures filename.None? || filename.value == "" ==> r == DefaultFilename(d)
  {
    if filename.Some? && filename.value != "" then filename.value else DefaultFilename(d)
  }

  // ---------------------------------------------------------------------
  // Table rows

  /** A table cell before formatting: grouped thousands, two decimals, a percentage with two decimals, or `str` of an int. */
  datatype Cell = Thousands(n: Py) | Fixed2(x: Py) | Percent2(x: Py) | Str(i: int)

  datatype Row = Row(caption: string, value: Cell)

  /** The first row carrying a caption. */
  function RowFor(rows: seq<Row>, caption: string): (r: Option<Cell>)
    ensures r.Some? <==> exists i :: 0 <= i < |rows| && rows[i].caption == caption
  {
    if rows == [] then None
    else if rows[0].caption == caption then Some(rows[0].value)
    else
      var r := RowFor(rows[1..], caption);
      assert forall i :: 1 <= i < |rows| ==> rows[i] == rows[1..][i - 1];
      r
  }

  /** Looking a caption up in a concatenation finds the first part's row first. */
  lemma {:induction false} RowForAppend(a: seq<Row>, b: seq<Row>, caption: string)
    ensures RowFor(a + b, caption) == if RowFor(a, caption).Some? then RowFor(a, caption) else RowFor(b, caption)
  {
    if a != [] {
      assert (a + b)[1..] == a[1..] + b;
      RowForAppend(a[1..], b, caption);
    } else {
      assert a + b == b;
    }
  }

  /** The row one candidate contributes: its row when its test passed. */
  function Piece(c: (bool, Row)): seq<Row> {
    if c.0 then [c.1] else []
  }

  /** The rows a section emits from its candidates: those whose test passed, in order. */
  function Emitted(cs: seq<(bool, Row)>): (rows: seq<Row>)
    ensures |rows| <= |cs|
  {
    if cs == [] then [] else Emitted(cs[..|cs| - 1]) + Piece(cs[|cs| - 1])
  }

  /** Emitting one more candidate appends that candidate's row. */
  lemma EmittedSnoc(cs: seq<(bool, Row)>, c: (bool, Row))
    ensures Emitted(cs + [c]) == Emitted(cs) + Piece(c)
  {
    assert (cs + [c])[..|cs|] == cs;
  }

  lemma EmittedTwo(c0: (bool, Row), c1: (bool, Row))
    ensures Emitted([c0, c1]) == Piece(c0) + Piece(c1)
  {
    EmittedSnoc([], c0);
    assert [] + [c0] == [c0];
    EmittedSnoc([c0], c1);
    assert [c0] + [c1] == [c0, c1];
  }

  lemma EmittedThree(c0: (bool, Row), c1: (bool, Row), c2: (bool, Row))
    ensures Emitted([c0, c1, c2]) == Piece(c0) + Piece(c1) + Piece(c2)
  {
    EmittedTwo(c0, c1);
    EmittedSnoc([c0, c1], c2);
    assert [c0, c1] + [c2] == [c0, c1, c2];
  }

  /** Four candidates emit their pieces in order. */
  lemma EmittedFour(c0: (bool, Row), c1: (bool, Row), c2: (bool, Row), c3: (bool, Row))
    ensures Emitted([c0, c1, c2, c3]) == Piece(c0) + Piece(c1) + Piece(c2) + Piece(c3)
  {
    EmittedThree(c0, c1, c2);
    EmittedSnoc([c0, c1, c2], c3);
    assert [c0, c1, c2] + [c3] == [c0, c1, c2, c3];
  }

  /** Five candidates emit their pieces in order. */
  lemma EmittedFive(c0: (bool, Row), c1: (bool, Row), c2: (bool, Row), c3: (bool, Row), c4: (bool, Row))
    ensures Emitted([c0, c1, c2, c3, c4]) == Piece(c0) + Piece(c1) + Piece(c2) + Piece(c3) + Piece(c4)
  {
    EmittedFour(c0, c1, c2, c3);
    EmittedSnoc([c0, c1, c2, c3], c4);
    assert [c0, c1, c2, c3] + [c4] == [c0, c1, c2, c3, c4];
  }

  /** No candidate carries the caption: no emitted row does either. */
  lemma {:induction false} RowForAbsent(cs: seq<(bool, Row)>, caption: string)
    requires forall j :: 0 <= j < |cs| ==> cs[j].1.caption != caption
    ensures RowFor(Emitted(cs), caption) == None
  {
    if cs != [] {
      var init := cs[..|cs| - 1];
      RowForAbsent(init, caption);
      RowForAppend(Emitted(init), Piece(cs[|cs| - 1]), caption);
    }
  }

  /**
   * With distinct captions, a candidate's caption finds its row exactly
   * when its test passed.
   */
  lemma {:induction false} RowForEmitted(cs: seq<(bool, Row)>, i: nat)
    requires i < |cs|
    requires forall j :: 0 <= j < |cs| && j != i ==> cs[j].1.caption != cs[i].1.caption
    ensures RowFor(Emitted(cs), cs[i].1.caption) == if cs[i].0 then Some(cs[i].1.value) else None
  {
    var c := cs[i].1.caption;
    var init := cs[..|cs| - 1];
    RowForAppend(Emitted(init), Piece(cs[|cs| - 1]), c);
    if i == |cs| - 1 {
      RowForAbsent(init, c);
    } else {
      RowForEmitted(init, i);
    }
  }

  // ---------------------------------------------------------------------
  // Operational metrics

  const TotalRecordsLabel := "Total Records"
  const FlowrateLabel := "Average Flowrate"
  const PressureLabel := "Average Pressure"
  const TemperatureLabel := "Average Temperature"
  const MissingLabel := "Missing Values"

  /** The candidate rows of the quick-metrics table, in the order the generator tests them. */
  function OperationalCandidates(s: Models.Summary): seq<(bool, Row)> {
    [(s.totalRecords != 0, Row(TotalRecordsLabel, Thousands(PInt(s.totalRecords)))),
     (s.avgFlowrate.Some?, Row(FlowrateLabel, Fixed2(OfReal(s.avgFlowrate)))),
     (s.avgPressure.Some?, Row(PressureLabel, Fixed2(OfReal(s.avgPressure)))),
     (s.avgTemperature.Some?, Row(TemperatureLabel, Fixed2(OfReal(s.avgTemperature)))),
     (true, Row(MissingLabel, Thousands(PInt(s.missingValuesCount))))]
  }

  function OperationalRows(s: Models.Summary): seq<Row> {
    Emitted(OperationalCandidates(s))
  }

  /**
   * The quick-metrics table of `_add_operational_metrics`: the rows appended
   * after the header, and whether the table is emitted (it is when a data row
   * exists).
   */
  method OperationalMetricsTable(s: Models.Summary) returns (rows: seq<Row>, emitted: bool)
    ensures rows == OperationalRows(s)
    ensures emitted <==> |rows| > 0
  {
    ghost var cs := OperationalCandidates(s);
    rows := [];
    if s.totalRecords != 0 {
      rows := rows + [Row(TotalRecordsLabel, Thousands(PInt(s.totalRecords)))];
    }
    if s.avgFlowrate.Some? {
      rows := rows + [Row(FlowrateLabel, Fixed2(OfReal(s.avgFlowrate)))];
    }
    if s.avgPressure.Some? {
      rows := rows + [Row(PressureLabel, Fixed2(OfReal(s.avgPressure)))];
    }
    if s.avgTemperature.Some? {
      rows := rows + [Row(TemperatureLabel, Fixed2(OfReal(s.avgTemperature)))];
    }
    rows := rows + [Row(MissingLabel, Thousands(PInt(s.missingValuesCount)))];
    EmittedFive(cs[0], cs[1], cs[2], cs[3], cs[4]);
    emitted := |rows| > 0;
  }

  /**
   * Each quick-metrics row is there exactly when its field is set (the
   * record count when it is non-zero) and carries that field's value.
   */
  lemma OperationalRowsPresence(s: Models.Summary)
    ensures RowFor(OperationalRows(s), TotalRecordsLabel) ==
      if s.totalRecords != 0 then Some(Thousands(PInt(s.totalRecords))) else None
    ensures RowFor(OperationalRows(s), FlowrateLabel) ==
      if s.avgFlowrate.Some? then Some(Fixed2(PFloat(Fin(s.avgFlowrate.value)))) else None
    ensures RowFor(OperationalRows(s), PressureLabel) ==
      if s.avgPressure.Some? then Some(Fixed2(PFloat(Fin(s.avgPressure.value)))) else None
    ensures RowFor(OperationalRows(s), TemperatureLabel) ==
      if s.avgTemperature.Some? then Some(Fixed2(PFloat(Fin(s.avgTemperature.value)))) else None
    ensures RowFor(OperationalRows(s), MissingLabel) == Some(Thousands(PInt(s.missingValuesCount)))
  {
    var cs := OperationalCandidates(s);
    RowForEmitted(cs, 0);
    RowForEmitted(cs, 1);
    RowForEmitted(cs, 2);
    RowForEmitted(cs, 3);
    RowForEmitted(cs, 4);
  }

  /** The missing-values count is never null, so the quick-metrics table is always emitted. */
  lemma OperationalTableAlwaysEmitted(s: Models.Summary)
    ensures |OperationalRows(s)| >= 1
    ensures OperationalRows(s)[|OperationalRows(s)| - 1] == Row(MissingLabel, Thousands(PInt(s.missingValuesCount)))
  {
    EmittedEndsWith(OperationalCandidates(s));
  }

  /** A candidate list whose last test passed ends its emitted rows with that row. */
  lemma EmittedEndsWith(cs: seq<(bool, Row)>)
    requires cs != [] && cs[|cs| - 1].0
    ensures |Emitted(cs)| >= 1 && Emitted(cs)[|Emitted(cs)| - 1] == cs[|cs| - 1].1
  {
  }

  /** The detail lines of one metric of the detailed analysis: its non-None values, in order. */
  function MetricDetails(m: Dict<Py>): (r: Dict<Py>)
    ensures |r| <= |m|
    ensures forall i :: 0 <= i < |r| ==> r[i].1 != PNone
    ensures forall e :: e in r <==> e in m && e.1 != PNone
    ensures (forall i :: 0 <= i < |m| ==> m[i].1 != PNone) ==> r == m
  {
    if m == [] then []
    else if m[0].1 == PNone then MetricDetails(m[1..])
    else [m[0]] + MetricDetails(m[1..])
  }

  /**
   * `r` consists of the entries of `m` at the ascending positions `f`, and
   * these are exactly the positions whose value is not None.
   */
  predicate PresentPositions(f: seq<nat>, r: Dict<Py>, m: Dict<Py>) {
    && |f| == |r|
    && (forall k :: 0 <= k < |f| ==> f[k] < |m| && r[k] == m[f[k]])
    && (forall a, b :: 0 <= a < b < |f| ==> f[a] < f[b])
    && (forall i :: 0 <= i < |m| ==> (m[i].1 != PNone <==> i in f))
  }

  /** The detail lines keep exactly the non-None entries of `m`, in their order in `m`. */
  lemma {:induction false} MetricDetailsPositions(m: Dict<Py>) returns (f: seq<nat>)
    ensures PresentPositions(f, MetricDetails(m), m)
  {
    if m == [] {
      f := [];
    } else {
      var g := MetricDetailsPositions(m[1..]);
      f := PositionsStep(m, g);
    }
  }

  /** One step of `MetricDetailsPositions`: from the positions in `m[1..]` to those in `m`. */
  lemma PositionsStep(m: Dict<Py>, g: seq<nat>) returns (f: seq<nat>)
    requires m != [] && PresentPositions(g, MetricDetails(m[1..]), m[1..])
    ensures PresentPositions(f, MetricDetails(m), m)
  {
    var shifted := ShiftPositions(g);
    ShiftMembers(g);
    ShiftedPositions(m, g, shifted);
    if m[0].1 == PNone {
      f := SkipStep(m, g, shifted);
    } else {
      f := KeepStep(m, g, shifted);
    }
  }

  /** A None value in front adds no detail line. */
  lemma SkipStep(m: Dict<Py>, g: seq<nat>, shifted: seq<nat>) returns (f: seq<nat>)
    requires m != [] && m[0].1 == PNone
    requires |shifted| == |g| == |MetricDetails(m[1..])| && 0 !in shifted
    requires forall k :: 0 <= k < |g| ==> shifted[k] < |m| && MetricDetails(m[1..])[k] == m[shifted[k]]
    requires forall a, b :: 0 <= a < b < |g| ==> shifted[a] < shifted[b]
    requires forall i :: 1 <= i < |m| ==> (m[i].1 != PNone <==> i in shifted)
    ensures PresentPositions(f, MetricDetails(m), m)
  {
    f := shifted;
  }

  /** A present value in front becomes the first detail line. */
  lemma KeepStep(m: Dict<Py>, g: seq<nat>, shifted: seq<nat>) returns (f: seq<nat>)
    requires m != [] && m[0].1 != PNone
    requires |shifted| == |g| == |MetricDetails(m[1..])| && 0 !in shifted
    requires forall k :: 0 <= k < |g| ==> shifted[k] < |m| && MetricDetails(m[1..])[k] == m[shifted[k]]
    requires forall a, b :: 0 <= a < b < |g| ==> shifted[a] < shifted[b]
    requires forall i :: 1 <= i < |m| ==> (m[i].1 != PNone <==> i in shifted)
    ensures PresentPositions(f, MetricDetails(m), m)
  {
    var rt := MetricDetails(m[1..]);
    assert MetricDetails(m) == [m[0]] + rt;
    f := [0] + shifted;
    ConsEntries(m[0], rt, m, shifted);
    ConsAscending(shifted);
    ConsMembers(shifted, |m|);
  }

  /** Putting position 0 and entry `e == m[0]` in front keeps entries and positions paired. */
  lemma ConsEntries(e: (string, Py), rt: Dict<Py>, m: Dict<Py>, shifted: seq<nat>)
    requires m != [] && e == m[0] && |shifted| == |rt|
    requires forall k :: 0 <= k < |rt| ==> shifted[k] < |m| && rt[k] == m[shifted[k]]
    ensures forall k :: 0 <= k < |rt| + 1 ==> ([0] + shifted)[k] < |m| && ([e] + rt)[k] == m[([0] + shifted)[k]]
  {
    forall k | 0 <= k < |rt| + 1 ensures ([0] + shifted)[k] < |m| && ([e] + rt)[k] == m[([0] + shifted)[k]] {
      if k > 0 {
        assert ([0] + shifted)[k] == shifted[k - 1] && ([e] + rt)[k] == rt[k - 1];
      }
    }
  }

  /** Position 0 in front of positive ascending positions keeps them ascending. */
  lemma ConsAscending(shifted: seq<nat>)
    requires 0 !in shifted
    requires forall a, b :: 0 <= a < b < |shifted| ==> shifted[a] < shifted[b]
    ensures forall a, b :: 0 <= a < b < |shifted| + 1 ==> ([0] + shifted)[a] < ([0] + shifted)[b]
  {
    var f := [0] + shifted;
    forall a, b | 0 <= a < b < |f| ensures f[a] < f[b] {
      assert f[b] == shifted[b - 1];
      if a > 0 {
        assert f[a] == shifted[a - 1];
      }
    }
  }

  /** The positions in `[0] + shifted` are 0 and those in `shifted`. */
  lemma ConsMembers(shifted: seq<nat>, n: nat)
    ensures forall i :: 0 <= i < n ==> (i in [0] + shifted <==> i == 0 || i in shifted)
  {
  }

  /** The positions of `m[1..]`, shifted by one, pick the same entries out of `m`. */
  lemma ShiftedPositions(m: Dict<Py>, g: seq<nat>, shifted: seq<nat>)
    requires m != [] && PresentPositions(g, MetricDetails(m[1..]), m[1..])
    requires |shifted| == |g| && forall k :: 0 <= k < |g| ==> shifted[k] == g[k] + 1
    requires forall i :: 1 <= i < |m| ==> (i in shifted <==> i - 1 in g)
    ensures forall k :: 0 <= k < |g| ==> shifted[k] < |m| && MetricDetails(m[1..])[k] == m[shifted[k]]
    ensures forall a, b :: 0 <= a < b < |g| ==> shifted[a] < shifted[b]
    ensures forall i :: 1 <= i < |m| ==> (m[i].1 != PNone <==> i in shifted)
  {
    forall i | 1 <= i < |m| ensures m[i].1 != PNone <==> i in shifted {
      assert m[i] == m[1..][i - 1];
    }
  }

  /** The positions `g`, seen from one element earlier. */
  function ShiftPositions(g: seq<nat>): (s: seq<nat>)
    ensures |s| == |g|
    ensures forall k :: 0 <= k < |g| ==> s[k] == g[k] + 1
  {
    seq(|g|, k requires 0 <= k < |g| => g[k] + 1)
  }

  /** A shifted position list holds `i` exactly when the original holds `i - 1`, and never 0. */
  lemma ShiftMembers(g: seq<nat>)
    ensures forall i :: 1 <= i ==> (i in ShiftPositions(g) <==> i - 1 in g)
    ensures 0 !in ShiftPositions(g)
  {
    var s := ShiftPositions(g);
    forall i | 1 <= i ensures i in s <==> i - 1 in g {
      if i - 1 in g {
        var k :| 0 <= k < |g| && g[k] == i - 1;
        assert s[k] == i;
      }
    }
  }

  // ---------------------------------------------------------------------
  // Equipment analysis

  /** A row of the equipment table: type, count and the count's share in percent. */
  datatype EquipmentRow = EquipmentRow(equipmentType: string, count: int, percentage: real)

  function IntSum(d: Dict<int>): int {
    if d == [] then 0 else d[0].1 + IntSum(d[1..])
  }

  /** `count / total_equipment * 100`, or 0 when the total is not positive. */
  function Percentage(count: int, total: int): real {
    if total > 0 then (count as real) / (total as real) * 100.0 else 0.0
  }

  /**
   * `_add_equipment_analysis`: no section for an empty distribution;
   * otherwise one row per type, in the distribution's order, each share
   * taken of the sum of the distribution's counts.
   */
  method EquipmentTable(dist: Dict<int>) returns (rows: Option<seq<EquipmentRow>>)
    ensures rows.None? <==> dist == []
    ensures rows.Some? ==> |rows.value| == |dist|
    ensures rows.Some? ==> forall i :: 0 <= i < |dist| ==>
      rows.value[i] == EquipmentRow(dist[i].0, dist[i].1, Percentage(dist[i].1, IntSum(dist)))
  {
    if dist == [] {
      return None;
    }
    var total := IntSum(dist);
    var table := [];
    for i := 0 to |dist|
      invariant |table| == i
      invariant forall j :: 0 <= j < i ==> table[j] == EquipmentRow(dist[j].0, dist[j].1, Percentage(dist[j].1, total))
    {
      var (eqType, count) := dist[i];
      table := table + [EquipmentRow(eqType, count, Percentage(count, total))];
    }
    rows := Some(table);
  }

  /** The sum of the shares of the first `n` types. */
  function PercentSum(d: Dict<int>, total: int): real {
    if d == [] then 0.0 else Percentage(d[0].1, total) + PercentSum(d[1..], total)
  }

  lemma {:induction false} PercentSumScaled(d: Dict<int>, total: int)
    requires total > 0
    ensures PercentSum(d, total) == (IntSum(d) as real) * 100.0 / (total as real)
  {
    if d != [] {
      PercentSumScaled(d[1..], total);
      ShareAdd(d[0].1 as real, IntSum(d[1..]) as real, total as real);
    }
  }

  lemma ShareAdd(c: real, s: real, t: real)
    requires t > 0.0
    ensures c / t * 100.0 + s * 100.0 / t == (c + s) * 100.0 / t
  {
    assert c / t * 100.0 == c * 100.0 / t;
  }

  lemma WholeShare(t: real)
    requires t > 0.0
    ensures t * 100.0 / t == 100.0
  {
  }

  /** With a positive total, the shares of the equipment table add up to 100. */
  lemma PercentagesSumTo100(d: Dict<int>)
    requires IntSum(d) > 0
    ensures PercentSum(d, IntSum(d)) == 100.0
  {
    PercentSumScaled(d, IntSum(d));
    WholeShare(IntSum(d) as real);
  }

  // ---------------------------------------------------------------------
  // Data quality

  const TotalRowsLabel := "Total Rows"
  const CompleteRowsLabel := "Complete Rows"
  const MissingPercentLabel := "Missing Data %"
  const MissingColumnsLabel := "Columns with Missing Data"

  /** A value `len` applies to. */
  predicate Sized(p: Py) {
    p.PList? || p.PDict? || p.PStr? || p.NdArray?
  }

  function Len(p: Py): nat
    requires Sized(p)
  {
    match p
    case PList(xs) => |xs|
    case PDict(es) => |es|
    case PStr(s) => |s|
    case NdArray(xs) => |xs|
  }

  /** `statistics_data.get('data_quality', {})`. */
  function QualityOf(sd: Dict<Py>): Py {
    GetOr(sd, "data_quality", PDict([]))
  }

  /**
   * What the section reads of the document: a truthy `data_quality` is a
   * dict, and its `columns_with_missing_data`, when present, has a length.
   */
  predicate QualityShaped(sd: Dict<Py>) {
    var q := QualityOf(sd);
    Truthy(q) ==> q.PDict? && (HasKey(q.entries, "columns_with_missing_data") ==>
                                 Sized(Get(q.entries, "columns_with_missing_data").value))
  }

  /** The cell of the missing-columns row: the length of the list. */
  function MissingColumnsCell(q: Dict<Py>): Cell {
    var v := GetOr(q, "columns_with_missing_data", PNone);
    Str(if Sized(v) then Len(v) else 0)
  }

  /** The candidate rows of the data-quality table, in the order the generator tests the keys. */
  function QualityCandidates(q: Dict<Py>): seq<(bool, Row)> {
    [(HasKey(q, "total_rows"), Row(TotalRowsLabel, Thousands(GetOr(q, "total_rows", PNone)))),
     (HasKey(q, "complete_rows"), Row(CompleteRowsLabel, Thousands(GetOr(q, "complete_rows", PNone)))),
     (HasKey(q, "missing_data_percentage"), Row(MissingPercentLabel, Percent2(GetOr(q, "missing_data_percentage", PNone)))),
     (HasKey(q, "columns_with_missing_data"), Row(MissingColumnsLabel, MissingColumnsCell(q)))]
  }

  function QualityRows(q: Dict<Py>): seq<Row> {
    Emitted(QualityCandidates(q))
  }

  /**
   * `_add_data_quality_metrics`, given the statistics document: no section
   * when the document or its `data_quality` is empty, else the rows appended
   * one key at a time.
   */
  method DataQualityTable(sd: Dict<Py>) returns (table: Option<seq<Row>>)
    requires QualityShaped(sd)
    ensures table.None? <==> sd == [] || !Truthy(QualityOf(sd))
    ensures table.Some? ==> table.value == QualityRows(QualityOf(sd).entries)
  {
    if sd == [] {
      return None;
    }
    var dq := QualityOf(sd);
    if !Truthy(dq) {
      return None;
    }
    var rows := QualityTableRows(dq.entries);
    table := Some(rows);
  }

  /** The rows of the data-quality table, appended one present key at a time. */
  method QualityTableRows(q: Dict<Py>) returns (rows: seq<Row>)
    requires HasKey(q, "columns_with_missing_data") ==> Sized(Get(q, "columns_with_missing_data").value)
    ensures rows == QualityRows(q)
  {
    ghost var cs := QualityCandidates(q);
    rows := [];
    if HasKey(q, "total_rows") {
      rows := rows + [Row(TotalRowsLabel, Thousands(Get(q, "total_rows").value))];
    }
    if HasKey(q, "complete_rows") {
      rows := rows + [Row(CompleteRowsLabel, Thousands(Get(q, "complete_rows").value))];
    }
    if HasKey(q, "missing_data_percentage") {
      rows := rows + [Row(MissingPercentLabel, Percent2(Get(q, "missing_data_percentage").value))];
    }
    if HasKey(q, "columns_with_missing_data") {
      var missingCols := Get(q, "columns_with_missing_data").value;
      rows := rows + [Row(MissingColumnsLabel, Str(Len(missingCols)))];
    }
    EmittedFour(cs[0], cs[1], cs[2], cs[3]);
  }

  /** Each data-quality row is there exactly when its key is in the document, with that key's value. */
  lemma QualityRowsPresence(q: Dict<Py>)
    ensures RowFor(QualityRows(q), TotalRowsLabel) ==
      if HasKey(q, "total_rows") then Some(Thousands(Get(q, "total_rows").value)) else None
    ensures RowFor(QualityRows(q), CompleteRowsLabel) ==
      if HasKey(q, "complete_rows") then Some(Thousands(Get(q, "complete_rows").value)) else None
    ensures RowFor(QualityRows(q), MissingPercentLabel) ==
      if HasKey(q, "missing_data_percentage") then Some(Percent2(Get(q, "missing_data_percentage").value)) else None
    ensures RowFor(QualityRows(q), MissingColumnsLabel).Some? <==> HasKey(q, "columns_with_missing_data")
    ensures HasKey(q, "columns_with_missing_data") && Sized(Get(q, "columns_with_missing_data").value) ==>
      RowFor(QualityRows(q), MissingColumnsLabel) == Some(Str(Len(Get(q, "columns_with_missing_data").value)))
    ensures |QualityRows(q)| <= 4
  {
    var cs := QualityCandidates(q);
    RowForEmitted(cs, 0);
    RowForEmitted(cs, 1);
    RowForEmitted(cs, 2);
    RowForEmitted(cs, 3);
  }

  // ---------------------------------------------------------------------
  // Column analysis

  /** The statistics details of one column; `fixed2` renders a float with two decimals. */
  function StatsParts(c: Models.Column, fixed2: real -> string): (parts: seq<string>)
    ensures forall i :: 0 <= i < |parts| ==> |parts[i]| >= 6
    ensures !Models.IsNumeric(c.dataType) && !Models.IsCategorical(c.dataType) ==> parts == []
    ensures Models.IsNumeric(c.dataType) ==>
      (parts == [] <==> c.meanValue.None? && (c.minValue.None? || c.maxValue.None?))
    ensures Models.IsCategorical(c.dataType) ==>
      (parts == [] <==> (c.mostFrequentValue.None? || c.mostFrequentValue.value == "")
                        && (c.mostFrequentCount.None? || c.mostFrequentCount.value == 0))
  {
    if Models.IsNumeric(c.dataType) then
      (if c.meanValue.Some? then ["Mean: " + fixed2(c.meanValue.value)] else [])
      + (if c.minValue.Some? && c.maxValue.Some?
         then ["Range: " + fixed2(c.minValue.value) + " - " + fixed2(c.maxValue.value)] else [])
    else if Models.IsCategorical(c.dataType) then
      (if c.mostFrequentValue.Some? && c.mostFrequentValue.value != ""
       then ["Most frequent: " + c.mostFrequentValue.value] else [])
      + (if c.mostFrequentCount.Some? && c.mostFrequentCount.value != 0
         then ["Count: " + IntToString(c.mostFrequentCount.value)] else [])
    else []
  }

  const NotAvailable := "N/A"

  /** The statistics cell: the details joined by `; `, or `N/A` when there are none. */
  function StatsText(c: Models.Column, fixed2: real -> string): string {
    var parts := StatsParts(c, fixed2);
    if parts == [] then NotAvailable else Join(parts, "; ")
  }

  lemma {:induction false} JoinLength(parts: seq<string>, sep: string)
    requires parts != []
    ensures |Join(parts, sep)| >= |parts[0]|
  {
  }

  /** The cell reads `N/A` exactly when no numeric or categorical detail applies. */
  lemma StatsTextNotAvailable(c: Models.Column, fixed2: real -> string)
    ensures StatsText(c, fixed2) == NotAvailable <==> StatsParts(c, fixed2) == []
  {
    var parts := StatsParts(c, fixed2);
    if parts != [] {
      JoinLength(parts, "; ");
    }
  }

  /** A row of the column table; the two counts are rendered with `str`. */
  datatype ColumnRow = ColumnRow(name: string, dataType: string, nonNull: int, unique: int, statistics: string)

  function ColumnRowOf(c: Models.Column, fixed2: real -> string): ColumnRow {
    ColumnRow(c.name, c.dataType, c.nonNullCount, c.uniqueCount, StatsText(c, fixed2))
  }

  /**
   * `_add_column_analysis`, given the dataset's columns in position order:
   * no section without columns, else one row per column in that order.
   */
  method ColumnTable(cols: seq<Models.Column>, fixed2: real -> string) returns (table: Option<seq<ColumnRow>>)
    ensures table.None? <==> cols == []
    ensures table.Some? ==> |table.value| == |cols|
    ensures table.Some? ==> forall i :: 0 <= i < |cols| ==> table.value[i] == ColumnRowOf(cols[i], fixed2)
  {
    if cols == [] {
      return None;
    }
    var rows := [];
    for i := 0 to |cols|
      invariant |rows| == i
      invariant forall j :: 0 <= j < i ==> rows[j] == ColumnRowOf(cols[j], fixed2)
    {
      rows := rows + [ColumnRowOf(cols[i], fixed2)];
    }
    table := Some(rows);
  }
}
