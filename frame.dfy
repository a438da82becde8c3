/**
 * A pandas DataFrame as the backend sees it once a file has been parsed:
 * a header row and rows of cells, each cell missing, a number or text.
 * Also the column-wise helpers pandas supplies: `to_numeric(errors='coerce')`,
 * `astype(str)`, dtype inference and `value_counts`.
 */
module Frame {
  import opened Common
  import opened Text

  /** One cell. NaN, None and an empty CSV field are all `Missing`. */
  datatype Cell = Missing | Num(value: real) | Str(text: string)

  datatype Table = Table(headers: seq<string>, rows: seq<seq<Cell>>)

  /** Every row has one cell per header. */
  predicate WellFormed(t: Table) {
    forall i :: 0 <= i < |t.rows| ==> |t.rows[i]| == |t.headers|
  }

  /** `df.empty`: no rows or no columns. */
  predicate IsEmpty(t: Table) {
    |t.rows| == 0 || |t.headers| == 0
  }

  function Column(t: Table, j: nat): (col: seq<Cell>)
    requires WellFormed(t) && j < |t.headers|
    ensures |col| == |t.rows|
    ensures forall i :: 0 <= i < |t.rows| ==> col[i] == t.rows[i][j]
  {
    seq(|t.rows|, i requires 0 <= i < |t.rows| => t.rows[i][j])
  }

  /** `series.isnull().sum()`. */
  function CountMissing(cells: seq<Cell>): (n: nat)
    ensures n <= |cells|
  {
    if cells == [] then 0
    else (if cells[0].Missing? then 1 else 0) + CountMissing(cells[1..])
  }

  /** Every cell is missing exactly when the missing count is the column length. */
  lemma {:induction false} CountMissingAll(cells: seq<Cell>)
    ensures CountMissing(cells) == |cells| <==> forall j :: 0 <= j < |cells| ==> cells[j].Missing?
  {
    if cells != [] {
      CountMissingAll(cells[1..]);
      assert forall j :: 1 <= j < |cells| ==> cells[j] == cells[1..][j - 1];
    }
  }

  /** The numbers of a column in order: `series.dropna()` of a numeric column. */
  function Numbers(cells: seq<Cell>): (xs: seq<real>)
    ensures |xs| <= |cells|
  {
    if cells == [] then []
    else (if cells[0].Num? then [cells[0].value] else []) + Numbers(cells[1..])
  }

  /** A column holding only numbers and missing cells. */
  predicate NoText(cells: seq<Cell>) {
    forall i :: 0 <= i < |cells| ==> !cells[i].Str?
  }

  /** In a numeric column every cell is either counted or missing. */
  lemma {:induction false} NumbersPlusMissing(cells: seq<Cell>)
    requires NoText(cells)
    ensures |Numbers(cells)| + CountMissing(cells) == |cells|
  {
    if cells != [] {
      assert forall i :: 0 <= i < |cells[1..]| ==> cells[1..][i] == cells[i + 1];
      NumbersPlusMissing(cells[1..]);
    }
  }

  lemma {:induction false} NumbersOfNumeric(cells: seq<Cell>)
    requires NoText(cells) && CountMissing(cells) < |cells|
    ensures Numbers(cells) != []
  {
    NumbersPlusMissing(cells);
  }

  /**
   * `str(value)` for a cell under `astype(str)`: a missing value is rendered
   * "nan"; `render` stands for Python's `str` of a number.
   */
  function ToText(c: Cell, render: real -> string): string {
    match c
    case Missing => "nan"
    case Num(x) => render(x)
    case Str(s) => s
  }

  predicate AllDigits(s: string) {
    forall i :: 0 <= i < |s| ==> IsDigit(s[i])
  }

  /** The value of a string of decimal digits, read left to right. */
  function DigitsValue(s: string): nat
    requires AllDigits(s)
  {
    if s == [] then 0
    else 10 * DigitsValue(s[..|s| - 1]) + (s[|s| - 1] as int - '0' as int)
  }

  function Pow10(n: nat): (p: nat)
    ensures p >= 1
  {
    if n == 0 then 1 else 10 * Pow10(n - 1)
  }

  /** Digits with at most one decimal point, and at least one digit. */
  function ParseUnsigned(s: string): Option<real> {
    match IndexOf(s, '.')
    case None =>
      if s != [] && AllDigits(s) then Some(DigitsValue(s) as real) else None
    case Some(d) =>
      var whole := s[..d];
      var fraction := s[d + 1..];
      if AllDigits(whole) && AllDigits(fraction) && |whole| + |fraction| > 0
      then Some(DigitsValue(whole) as real + DigitsValue(fraction) as real / Pow10(|fraction|) as real)
      else None
  }

  /** The exponent after `e`: an optional sign and at least one digit. */
  function ParseExponent(s: string): Option<int> {
    if s != [] && (s[0] == '-' || s[0] == '+') then
      if |s| > 1 && AllDigits(s[1..]) then
        var v: int := DigitsValue(s[1..]);
        Some(if s[0] == '-' then -v else v)
      else None
    else if s != [] && AllDigits(s) then Some(DigitsValue(s))
    else None
  }

  /** `x` times ten to the power `e`, exactly. */
  function ScaleByPow10(x: real, e: int): real {
    if e >= 0 then x * Pow10(e) as real else x / Pow10(-e) as real
  }

  /** An unsigned mantissa, then optionally `e` or `E` and an exponent. */
  function ParseScientific(s: string): Option<real> {
    match IndexOf(Lower(s), 'e')
    case None => ParseUnsigned(s)
    case Some(k) =>
      match (ParseUnsigned(s[..k]), ParseExponent(s[k + 1..]))
      case (Some(m), Some(e)) => Some(ScaleByPow10(m, e))
      case _ => None
  }

  /**
   * The decimal texts `pd.to_numeric` turns into finite numbers: surrounding
   * whitespace, an optional sign, digits with an optional fraction, and an
   * optional exponent.
   */
  function ParseNumber(s: string): Option<real> {
    ParseSigned(Strip(s))
  }

  /** An optional sign, then a mantissa and an optional exponent. */
  function ParseSigned(t: string): Option<real> {
    if t != [] && t[0] == '-' then
      match ParseScientific(t[1..])
      case Some(x) => Some(-x)
      case None => None
    else if t != [] && t[0] == '+' then ParseScientific(t[1..])
    else ParseScientific(t)
  }

  /** A text of digits has no exponent mark, so it reads as its plain value. */
  lemma DigitsScientific(s: string)
    requires AllDigits(s)
    ensures ParseScientific(s) == ParseUnsigned(s)
  {
    assert forall i :: 0 <= i < |s| ==> Lower(s)[i] == s[i];
  }

  /** Whitespace around a number's text does not change what it parses to. */
  lemma {:induction false} PaddedNumber(pad: string, t: string, pad2: string)
    requires forall i :: 0 <= i < |pad| ==> IsSpace(pad[i])
    requires forall i :: 0 <= i < |pad2| ==> IsSpace(pad2[i])
    requires t != [] && !IsSpace(t[0]) && !IsSpace(t[|t| - 1])
    ensures ParseNumber(pad + t + pad2) == ParseNumber(t)
  {
    StripPadded(pad, t, pad2);
    StripClean(t);
  }

  /** Digits, `e` and digits read as the first number times ten to the second. */
  lemma ExponentForm(a: string, b: string)
    requires a != [] && AllDigits(a) && b != [] && AllDigits(b)
    ensures ParseNumber(a + "e" + b) == Some((DigitsValue(a) * Pow10(DigitsValue(b))) as real)
  {
    var s := a + "e" + b;
    assert s[0] == a[0] && s[|s| - 1] == b[|b| - 1];
    NumberOfClean(s);
    DigitsUnsigned(a);
    ExponentOfDigits(b);
    ExponentSplit(a, b);
    var m := DigitsValue(a);
    var p := Pow10(DigitsValue(b));
    ScaleNonNegative(m, DigitsValue(b));
  }

  /** A non-negative exponent multiplies by a whole power of ten. */
  lemma ScaleNonNegative(m: nat, e: nat)
    ensures ScaleByPow10(m as real, e) == (m * Pow10(e)) as real
  {
    RealProduct(m, Pow10(e));
  }

  lemma RealProduct(x: nat, y: nat)
    ensures x as real * y as real == (x * y) as real
  {
  }

  /** Text that starts with a digit and ends with one: nothing to strip, no sign. */
  lemma NumberOfClean(s: string)
    requires s != [] && IsDigit(s[0]) && IsDigit(s[|s| - 1])
    ensures ParseNumber(s) == ParseScientific(s)
  {
    assert !IsSpace(s[0]) && !IsSpace(s[|s| - 1]);
    StripClean(s);
    UnsignedText(s);
  }

  /** Text with no leading sign reads as a mantissa with an optional exponent. */
  lemma UnsignedText(t: string)
    requires t != [] && t[0] != '-' && t[0] != '+'
    ensures ParseSigned(t) == ParseScientific(t)
  {
  }

  /** Digits read as their value. */
  lemma DigitsUnsigned(a: string)
    requires a != [] && AllDigits(a)
    ensures ParseUnsigned(a) == Some(DigitsValue(a) as real)
  {
    assert forall i :: 0 <= i < |a| ==> a[i] != '.';
  }

  lemma ExponentOfDigits(b: string)
    requires b != [] && AllDigits(b)
    ensures ParseExponent(b) == Some(DigitsValue(b))
  {
  }

  /** With digits before it, the first `e` separates mantissa and exponent. */
  lemma ExponentSplit(a: string, b: string)
    requires AllDigits(a) && ParseUnsigned(a).Some? && ParseExponent(b).Some?
    ensures ParseScientific(a + "e" + b) == Some(ScaleByPow10(ParseUnsigned(a).value, ParseExponent(b).value))
  {
    var s := a + "e" + b;
    MarkAfterDigits(a, b);
    assert s[..|a|] == a && s[|a| + 1..] == b;
    ScientificWithMark(s, |a|, ParseUnsigned(a).value, ParseExponent(b).value);
  }

  /** A mantissa before the first mark and an exponent after it give the scaled value. */
  lemma ScientificWithMark(s: string, k: nat, m: real, e: int)
    requires IndexOf(Lower(s), 'e') == Some(k)
    requires ParseUnsigned(s[..k]) == Some(m) && ParseExponent(s[k + 1..]) == Some(e)
    ensures ParseScientific(s) == Some(ScaleByPow10(m, e))
  {
    assert k < |Lower(s)| == |s|;
    var pair := (ParseUnsigned(s[..k]), ParseExponent(s[k + 1..]));
    assert pair == (Some(m), Some(e));
  }

  /** In digits, `e` and more, the first exponent mark is the one after the digits. */
  lemma MarkAfterDigits(a: string, b: string)
    requires AllDigits(a)
    ensures IndexOf(Lower(a + "e" + b), 'e') == Some(|a|)
  {
    var s := a + "e" + b;
    var l := Lower(s);
    assert l[|a|] == 'e';
    assert forall i :: 0 <= i < |a| ==> l[i] == LowerChar(a[i]) == a[i] && a[i] != 'e';
    IndexAfter(l, 'e', |a|);
  }

  lemma {:induction false} DigitsOfNat(n: nat)
    ensures AllDigits(NatToString(n))
    ensures DigitsValue(NatToString(n)) == n
  {
    var s := NatToString(n);
    if n >= 10 {
      DigitsOfNat(n / 10);
      assert s[..|s| - 1] == NatToString(n / 10);
    }
  }

  /** Every non-negative integer's decimal text parses back to that integer. */
  lemma ParseNatToString(n: nat)
    ensures ParseNumber(IntToString(n)) == Some(n as real)
  {
    var s := NatToString(n);
    DigitsOfNat(n);
    DigitsUnsigned(s);
    DigitsScientific(s);
    NumberOfClean(s);
  }

  /** `-` and digits of value `v` read as `-v`. */
  lemma NegativeDigits(s: string, digits: string, v: nat)
    requires s == "-" + digits
    requires digits != [] && AllDigits(digits) && DigitsValue(digits) == v
    ensures ParseNumber(s) == Some(-(v as real))
  {
    DigitsUnsigned(digits);
    DigitsScientific(digits);
    NegativeText(s, digits);
  }

  /** `-` and digits: nothing to strip and a negative sign. */
  lemma NegativeText(s: string, digits: string)
    requires digits != [] && AllDigits(digits) && s == "-" + digits
    ensures ParseScientific(digits).Some? ==> ParseNumber(s) == Some(-ParseScientific(digits).value)
  {
    assert s[0] == '-' && s[1..] == digits;
    assert s[|s| - 1] == digits[|digits| - 1] && IsDigit(digits[|digits| - 1]);
    StripClean(s);
  }

  /** `pd.to_numeric(value, errors='coerce')` for one cell. */
  function ToNumeric(c: Cell): (r: Cell)
    ensures !r.Str?
    ensures r.Num? && c.Num? ==> r == c
    ensures c.Missing? ==> r.Missing?
    ensures c.Str? ==> (r.Num? <==> ParseNumber(c.text).Some?)
    ensures c.Str? && r.Num? ==> ParseNumber(c.text) == Some(r.value)
  {
    match c
    case Missing => Missing
    case Num(_) => c
    case Str(s) =>
      match ParseNumber(s)
      case Some(x) => Num(x)
      case None => Missing
  }

  /** Coercing twice is coercing once. */
  lemma ToNumericIdempotent(c: Cell)
    ensures ToNumeric(ToNumeric(c)) == ToNumeric(c)
  {
  }

  predicate Integral(x: real) {
    x.Floor as real == x
  }

  /**
   * The dtype pandas infers for a parsed column: any text makes it "object",
   * as does having no cells; whole numbers with nothing missing give "int64";
   * anything else numeric is "float64".
   */
  function DType(cells: seq<Cell>): (d: string)
    ensures d == "object" || d == "int64" || d == "float64"
    ensures d == "object" <==> (cells == [] || !NoText(cells))
  {
    if cells == [] || !NoText(cells) then "object"
    else if forall i :: 0 <= i < |cells| ==> cells[i].Num? && Integral(cells[i].value) then "int64"
    else "float64"
  }

  /** `pd.api.types.is_numeric_dtype`. */
  predicate IsNumericDType(d: string) {
    d == "int64" || d == "float64"
  }

  /** The text of every present cell, in column order. */
  function PresentTexts(cells: seq<Cell>, render: real -> string): (xs: seq<string>)
    ensures |xs| + CountMissing(cells) == |cells|
  {
    if cells == [] then []
    else (if cells[0].Missing? then [] else [ToText(cells[0], render)]) + PresentTexts(cells[1..], render)
  }

  /** How often `x` occurs in `xs`. */
  function Occurrences<T(==)>(xs: seq<T>, x: T): (n: nat)
    ensures n <= |xs|
    ensures n > 0 <==> x in xs
  {
    if xs == [] then 0
    else
      var n := Occurrences(xs[..|xs| - 1], x) + (if xs[|xs| - 1] == x then 1 else 0);
      assert xs == xs[..|xs| - 1] + [xs[|xs| - 1]];
      n
  }

  /** In a sequence without repeats every element occurs once. */
  lemma {:induction false} OccursOnce<T>(xs: seq<T>, i: nat)
    requires i < |xs| && forall a, b :: 0 <= a < b < |xs| ==> xs[a] != xs[b]
    ensures Occurrences(xs, xs[i]) == 1
  {
    var init := xs[..|xs| - 1];
    LastOccurrence(xs, xs[i]);
    if i == |xs| - 1 {
      assert xs[i] !in init;
    } else {
      assert init[i] == xs[i];
      OccursOnce(init, i);
    }
  }

  /** `d[k] = d.get(k, 0) + 1`. */
  function Bump(d: Dict<nat>, k: string): Dict<nat> {
    Put(d, k, GetOr(d, k, 0) + 1)
  }

  /** Each distinct value with its count, in order of first appearance. */
  function Tally(xs: seq<string>): Dict<nat> {
    if xs == [] then [] else Bump(Tally(xs[..|xs| - 1]), xs[|xs| - 1])
  }

  lemma {:induction false} TallyGet(xs: seq<string>, x: string)
    ensures Get(Tally(xs), x) == if x in xs then Some(Occurrences(xs, x)) else None
  {
    if xs != [] {
      var init := xs[..|xs| - 1];
      var last := xs[|xs| - 1];
      TallyGet(init, x);
      LastOccurrence(xs, x);
      BumpGet(Tally(init), last, x);
    }
  }

  /** Bumping `k` counts one more `k` and leaves every other key's count alone. */
  lemma BumpGet(d: Dict<nat>, k: string, x: string)
    ensures Get(Bump(d, k), x) == if x == k then Some(GetOr(d, k, 0) + 1) else Get(d, x)
  {
    PutGet(d, k, GetOr(d, k, 0) + 1);
  }

  /** The last element adds one occurrence of itself, and `x` occurs in `xs` exactly when it is the last or occurs before. */
  lemma LastOccurrence<T>(xs: seq<T>, x: T)
    requires xs != []
    ensures Occurrences(xs, x) == Occurrences(xs[..|xs| - 1], x) + (if xs[|xs| - 1] == x then 1 else 0)
    ensures x in xs <==> x == xs[|xs| - 1] || x in xs[..|xs| - 1]
  {
    assert xs == xs[..|xs| - 1] + [xs[|xs| - 1]];
  }

  lemma {:induction false} TallyDistinct(xs: seq<string>)
    ensures DistinctKeys(Tally(xs))
  {
    if xs != [] {
      TallyDistinct(xs[..|xs| - 1]);
      PutDistinct(Tally(xs[..|xs| - 1]), xs[|xs| - 1], GetOr(Tally(xs[..|xs| - 1]), xs[|xs| - 1], 0) + 1);
    }
  }

  lemma {:induction false} SumValuesBump(d: Dict<nat>, k: string)
    ensures SumValues(Bump(d, k)) == SumValues(d) + 1
  {
    if d != [] && d[0].0 != k {
      SumValuesBump(d[1..], k);
      assert Bump(d, k) == [d[0]] + Bump(d[1..], k);
    }
  }

  /** The counts of a tally add up to the number of values counted. */
  lemma {:induction false} TallySum(xs: seq<string>)
    ensures SumValues(Tally(xs)) == |xs|
  {
    if xs != [] {
      TallySum(xs[..|xs| - 1]);
      SumValuesBump(Tally(xs[..|xs| - 1]), xs[|xs| - 1]);
    }
  }

  /** Every entry of a tally is a value of `xs` with its number of occurrences. */
  lemma TallyEntries(xs: seq<string>)
    ensures forall i :: 0 <= i < |Tally(xs)| ==>
      Tally(xs)[i].0 in xs && Tally(xs)[i].1 == Occurrences(xs, Tally(xs)[i].0)
    ensures forall x :: x in xs ==> HasKey(Tally(xs), x)
  {
    var d := Tally(xs);
    TallyDistinct(xs);
    forall i | 0 <= i < |d|
      ensures d[i].0 in xs && d[i].1 == Occurrences(xs, d[i].0)
    {
      GetDistinct(d, i);
      TallyGet(xs, d[i].0);
    }
    forall x | x in xs ensures HasKey(d, x) {
      TallyGet(xs, x);
    }
  }

  /** Counts never increase along the dict. */
  ghost predicate CountsDescending<K>(d: seq<(K, nat)>) {
    forall i, j :: 0 <= i < j < |d| ==> d[i].1 >= d[j].1
  }

  lemma CountAtLeast<K>(y: nat, e: (K, nat), s: seq<(K, nat)>, t: seq<(K, nat)>)
    requires y >= e.1
    requires forall i :: 0 <= i < |s| ==> y >= s[i].1
    requires multiset(t) == multiset(s) + multiset{e}
    ensures forall k :: 0 <= k < |t| ==> y >= t[k].1
  {
    forall k | 0 <= k < |t| ensures y >= t[k].1 {
      assert t[k] in multiset(t);
      if t[k] != e {
        assert t[k] in multiset(s);
        var a :| 0 <= a < |s| && s[a] == t[k];
      }
    }
  }

  function InsertByCount<K>(e: (K, nat), s: seq<(K, nat)>): (r: seq<(K, nat)>)
    requires CountsDescending(s)
    ensures CountsDescending(r)
    ensures multiset(r) == multiset(s) + multiset{e}
    ensures SumValues(r) == SumValues(s) + e.1
  {
    if s == [] then [e]
    else if e.1 >= s[0].1 then
      ConsDescending(e, s);
      [e] + s
    else
      assert s == [s[0]] + s[1..];
      HeadAtLeast(s);
      var t := InsertByCount(e, s[1..]);
      CountAtLeast(s[0].1, e, s[1..], t);
      ConsDescending(s[0], t);
      [s[0]] + t
  }

  /** In a descending dict the head's count bounds the rest, which is descending too. */
  lemma HeadAtLeast<K>(s: seq<(K, nat)>)
    requires s != [] && CountsDescending(s)
    ensures CountsDescending(s[1..])
    ensures forall i :: 0 <= i < |s[1..]| ==> s[0].1 >= s[1..][i].1
  {
    assert forall i :: 0 <= i < |s[1..]| ==> s[1..][i] == s[i + 1];
  }

  /** An entry counting at least every entry of a descending dict can go in front of it. */
  lemma ConsDescending<K>(x: (K, nat), t: seq<(K, nat)>)
    requires CountsDescending(t)
    requires forall k :: 0 <= k < |t| ==> x.1 >= t[k].1
    ensures CountsDescending([x] + t)
    ensures SumValues([x] + t) == x.1 + SumValues(t)
  {
    var r := [x] + t;
    assert r[1..] == t;
    assert forall i :: 1 <= i < |r| ==> r[i] == t[i - 1];
  }

  /** Entries by descending count; among equal counts the earlier entry stays first. */
  function SortByCount<K>(d: seq<(K, nat)>): (r: seq<(K, nat)>)
    ensures CountsDescending(r)
    ensures multiset(r) == multiset(d)
    ensures SumValues(r) == SumValues(d)
  {
    if d == [] then []
    else
      assert d == [d[0]] + d[1..];
      InsertByCount(d[0], SortByCount(d[1..]))
  }

  /** `series.value_counts()` on the present values `xs`. */
  function ValueCounts(xs: seq<string>): Dict<nat> {
    SortByCount(Tally(xs))
  }

  /**
   * The value counts hold each value of `xs` with its number of occurrences,
   * in descending order of count, adding up to |xs|.
   */
  lemma ValueCountsCorrect(xs: seq<string>)
    ensures CountsDescending(ValueCounts(xs))
    ensures SumValues(ValueCounts(xs)) == |xs|
    ensures forall i :: 0 <= i < |ValueCounts(xs)| ==>
      ValueCounts(xs)[i].0 in xs && ValueCounts(xs)[i].1 == Occurrences(xs, ValueCounts(xs)[i].0)
    ensures forall x :: x in xs ==> HasKey(ValueCounts(xs), x)
    ensures ValueCounts(xs) == [] <==> xs == []
  {
    var t := Tally(xs);
    var r := ValueCounts(xs);
    TallySum(xs);
    TallyEntries(xs);
    forall i | 0 <= i < |r|
      ensures r[i].0 in xs && r[i].1 == Occurrences(xs, r[i].0)
    {
      assert r[i] in multiset(t);
      var a :| 0 <= a < |t| && t[a] == r[i];
    }
    forall x | x in xs ensures HasKey(r, x) {
      var a :| 0 <= a < |t| && t[a].0 == x;
      assert t[a] in multiset(r);
      var b :| 0 <= b < |r| && r[b] == t[a];
    }
    if xs != [] {
      assert HasKey(r, xs[0]);
    }
  }

  /** A dict with distinct keys holds each entry at most once. */
  lemma {:induction false} DistinctEntriesOnce<K>(d: seq<(K, nat)>, e: (K, nat))
    requires DistinctKeys(d)
    ensures multiset(d)[e] <= 1
  {
    if d != [] {
      assert d == [d[0]] + d[1..];
      assert DistinctKeys(d[1..]) by {
        forall a, b | 0 <= a < b < |d[1..]| ensures d[1..][a].0 != d[1..][b].0 {
          assert d[1..][a] == d[a + 1] && d[1..][b] == d[b + 1];
        }
      }
      DistinctEntriesOnce(d[1..], e);
      if d[0] == e {
        assert e !in d[1..];
      }
    }
  }

  /** Reordering a dict with distinct keys keeps its keys distinct. */
  lemma PermutedDistinct<K>(d: seq<(K, nat)>, r: seq<(K, nat)>)
    requires DistinctKeys(d) && multiset(r) == multiset(d)
    ensures DistinctKeys(r)
  {
    forall i, j | 0 <= i < j < |r| ensures r[i].0 != r[j].0 {
      if r[i].0 == r[j].0 {
        assert r[i] in multiset(d) && r[j] in multiset(d);
        var a :| 0 <= a < |d| && d[a] == r[i];
        var b :| 0 <= b < |d| && d[b] == r[j];
        if a == b {
          assert r == r[..j] + r[j..];
          assert r[i] in r[..j] && r[j] in r[j..];
          assert multiset(r)[r[i]] == multiset(r[..j])[r[i]] + multiset(r[j..])[r[i]];
          DistinctEntriesOnce(d, r[i]);
        }
      }
    }
  }

  /** The value counts list every value once. */
  lemma ValueCountsDistinct(xs: seq<string>)
    ensures DistinctKeys(ValueCounts(xs))
  {
    TallyDistinct(xs);
    PermutedDistinct(Tally(xs), ValueCounts(xs));
  }

  /** The first value count is a most frequent value. */
  lemma ValueCountsFirstIsMost(xs: seq<string>)
    requires xs != []
    ensures ValueCounts(xs) != []
    ensures forall x :: x in xs ==> Occurrences(xs, x) <= ValueCounts(xs)[0].1
  {
    var r := ValueCounts(xs);
    ValueCountsCorrect(xs);
    forall x | x in xs ensures Occurrences(xs, x) <= r[0].1 {
      var b :| 0 <= b < |r| && r[b].0 == x;
      assert r[0].1 >= r[b].1;
    }
  }

  /** The distinct present cells, in order of first appearance. */
  function Uniques(cells: seq<Cell>): (u: seq<Cell>)
    ensures |u| <= |cells|
    ensures forall k :: 0 <= k < |u| ==> !u[k].Missing? && u[k] in cells
    ensures forall c :: c in cells && !c.Missing? ==> c in u
    ensures forall a, b :: 0 <= a < b < |u| ==> u[a] != u[b]
  {
    if cells == [] then []
    else
      var init := cells[..|cells| - 1];
      var last := cells[|cells| - 1];
      assert cells == init + [last];
      var u := Uniques(init);
      if last.Missing? || last in u then u else u + [last]
  }

  /** Each distinct present cell with its number of occurrences, in order of first appearance. */
  function CellTally(cells: seq<Cell>): (d: seq<(Cell, nat)>)
    ensures |d| == |Uniques(cells)|
    ensures forall k :: 0 <= k < |d| ==> d[k] == (Uniques(cells)[k], Occurrences(cells, Uniques(cells)[k]))
  {
    var u := Uniques(cells);
    seq(|u|, k requires 0 <= k < |u| => (u[k], Occurrences(cells, u[k])))
  }

  /** `series.value_counts()` on the cells themselves: the distinct present values by descending count. */
  function CellValueCounts(cells: seq<Cell>): seq<(Cell, nat)> {
    SortByCount(CellTally(cells))
  }

  /**
   * The value counts hold every distinct present cell once, with its number
   * of occurrences, in descending order of count; they are empty exactly
   * when every cell is missing.
   */
  lemma CellValueCountsCorrect(cells: seq<Cell>)
    ensures |CellValueCounts(cells)| <= |cells|
    ensures CountsDescending(CellValueCounts(cells))
    ensures DistinctKeys(CellValueCounts(cells))
    ensures forall i :: 0 <= i < |CellValueCounts(cells)| ==>
      var e := CellValueCounts(cells)[i];
      !e.0.Missing? && e.0 in cells && e.1 == Occurrences(cells, e.0)
    ensures forall j :: 0 <= j < |cells| && !cells[j].Missing? ==>
      exists i :: 0 <= i < |CellValueCounts(cells)| && CellValueCounts(cells)[i].0 == cells[j]
    ensures CellValueCounts(cells) == [] <==> CountMissing(cells) == |cells|
  {
    var t := CellTally(cells);
    var r := CellValueCounts(cells);
    assert |r| == |multiset(r)| == |multiset(t)| == |t|;
    forall i | 0 <= i < |r|
      ensures !r[i].0.Missing? && r[i].0 in cells && r[i].1 == Occurrences(cells, r[i].0)
    {
      assert r[i] in multiset(t);
      var a :| 0 <= a < |t| && t[a] == r[i];
    }
    forall j | 0 <= j < |cells| && !cells[j].Missing?
      ensures exists i :: 0 <= i < |r| && r[i].0 == cells[j]
    {
      var a :| 0 <= a < |t| && t[a].0 == cells[j];
      assert t[a] in multiset(r);
      var b :| 0 <= b < |r| && r[b] == t[a];
    }
    PermutedDistinct(t, r);
    CountMissingAll(cells);
    if r == [] {
      assert |t| == |multiset(t)| == |multiset(r)| == 0;
    } else {
      assert r[0] in multiset(t);
    }
  }
}
