/**
 * Python's string methods restricted to ASCII: `lower`, `strip`/`rstrip`,
 * `title`, `endswith`, `split('.')[-1]`, `', '.join` and `str(int)`.
 */
module Text {

  predicate IsUpper(c: char) { 'A' <= c <= 'Z' }
  predicate IsLower(c: char) { 'a' <= c <= 'z' }
  /** A cased character in the sense of `str.title`: a letter. */
  predicate IsCased(c: char) { IsUpper(c) || IsLower(c) }
  predicate IsDigit(c: char) { '0' <= c <= '9' }
  predicate IsAlnum(c: char) { IsCased(c) || IsDigit(c) }
  /** The characters `str.strip()` removes. */
  predicate IsSpace(c: char) {
    c == ' ' || c == '\t' || c == '\n' || c == '\r' || c == '\U{B}' || c == '\U{C}' || '\U{1C}' <= c <= '\U{1F}'
  }

  function LowerChar(c: char): (r: char)
    ensures !IsUpper(r)
    ensures IsCased(r) <==> IsCased(c)
    ensures IsSpace(r) <==> IsSpace(c)
    ensures !IsCased(c) ==> r == c
  {
    if IsUpper(c) then (c as int + 32) as char else c
  }

  function UpperChar(c: char): (r: char)
    ensures !IsLower(r)
    ensures IsCased(r) <==> IsCased(c)
    ensures IsSpace(r) <==> IsSpace(c)
    ensures !IsCased(c) ==> r == c
  {
    if IsLower(c) then (c as int - 32) as char else c
  }

  /** `s.lower()`. */
  function Lower(s: string): (r: string)
    ensures |r| == |s|
    ensures forall i :: 0 <= i < |s| ==> r[i] == LowerChar(s[i])
  {
    if s == [] then [] else [LowerChar(s[0])] + Lower(s[1..])
  }

  lemma {:induction false} LowerIdempotent(s: string)
    ensures Lower(Lower(s)) == Lower(s)
  {
    var l := Lower(s);
    assert forall i :: 0 <= i < |l| ==> LowerChar(l[i]) == l[i];
    assert Lower(l) == l;
  }

  /** `s.lstrip()`: the longest suffix of `s` that does not start with whitespace. */
  function LStrip(s: string): (r: string)
    ensures |r| <= |s| && r == s[|s| - |r|..]
    ensures r == [] || !IsSpace(r[0])
    ensures forall i :: 0 <= i < |s| - |r| ==> IsSpace(s[i])
  {
    if s != [] && IsSpace(s[0]) then LStrip(s[1..]) else s
  }

  /** `s.rstrip()`: the longest prefix of `s` that does not end with whitespace. */
  function RStrip(s: string): (r: string)
    ensures |r| <= |s| && r == s[..|r|]
    ensures r == [] || !IsSpace(r[|r| - 1])
    ensures forall i :: |r| <= i < |s| ==> IsSpace(s[i])
  {
    if s != [] && IsSpace(s[|s| - 1]) then RStrip(s[..|s| - 1]) else s
  }

  /** `s.strip()`. */
  function Strip(s: string): (r: string)
    ensures r == [] || (!IsSpace(r[0]) && !IsSpace(r[|r| - 1]))
    ensures exists i, j :: 0 <= i <= j <= |s| && r == s[i..j]
                           && (forall k :: 0 <= k < i ==> IsSpace(s[k]))
                           && (forall k :: j <= k < |s| ==> IsSpace(s[k]))
  {
    var l := LStrip(s);
    var r := RStrip(l);
    StripBounds(s, l, r);
    r
  }

  /** Text cut from the front of `s` at whitespace, then from the back at whitespace, is a slice of `s` between them. */
  lemma StripBounds(s: string, l: string, r: string)
    requires |l| <= |s| && l == s[|s| - |l|..] && forall k :: 0 <= k < |s| - |l| ==> IsSpace(s[k])
    requires |r| <= |l| && r == l[..|r|] && forall k :: |r| <= k < |l| ==> IsSpace(l[k])
    ensures var i := |s| - |l|;
      && i + |r| <= |s| && r == s[i..i + |r|]
      && (forall k :: 0 <= k < i ==> IsSpace(s[k]))
      && (forall k :: i + |r| <= k < |s| ==> IsSpace(s[k]))
  {
    var i := |s| - |l|;
    forall k | 0 <= k < |r| ensures r[k] == s[i + k] {
      assert r[k] == l[k] && l[k] == s[i + k];
    }
    assert r == s[i..i + |r|];
    forall k | i + |r| <= k < |s| ensures IsSpace(s[k]) {
      assert s[k] == l[k - i];
    }
  }

  /** Stripping text that neither starts nor ends with whitespace changes nothing. */
  lemma StripClean(s: string)
    requires s == [] || (!IsSpace(s[0]) && !IsSpace(s[|s| - 1]))
    ensures Strip(s) == s
  {
  }

  /** Stripping removes whitespace put around text that neither starts nor ends with it. */
  lemma {:induction false} StripPadded(pad: string, t: string, pad2: string)
    requires forall i :: 0 <= i < |pad| ==> IsSpace(pad[i])
    requires forall i :: 0 <= i < |pad2| ==> IsSpace(pad2[i])
    requires t != [] && !IsSpace(t[0]) && !IsSpace(t[|t| - 1])
    ensures Strip(pad + t + pad2) == t
  {
    var s := pad + t + pad2;
    LStripPadded(pad, t + pad2);
    assert pad + (t + pad2) == s;
    RStripPadded(t, pad2);
  }

  lemma {:induction false} LStripPadded(pad: string, u: string)
    requires forall i :: 0 <= i < |pad| ==> IsSpace(pad[i])
    requires u != [] && !IsSpace(u[0])
    ensures LStrip(pad + u) == u
  {
    if pad != [] {
      assert (pad + u)[1..] == pad[1..] + u;
      LStripPadded(pad[1..], u);
    }
  }

  lemma {:induction false} RStripPadded(t: string, pad2: string)
    requires forall i :: 0 <= i < |pad2| ==> IsSpace(pad2[i])
    requires t != [] && !IsSpace(t[|t| - 1])
    ensures RStrip(t + pad2) == t
  {
    if pad2 != [] {
      var n := |pad2|;
      assert (t + pad2)[..|t| + n - 1] == t + pad2[..n - 1];
      RStripPadded(t, pad2[..n - 1]);
    } else {
      assert t + pad2 == t;
    }
  }

  lemma StripIdempotent(s: string)
    ensures Strip(Strip(s)) == Strip(s)
  {
    StripClean(Strip(s));
  }

  /**
   * `str.title` from a given state: a cased character is upper-cased when the
   * previous character was not cased and lower-cased otherwise.
   */
  function TitleFrom(s: string, prevCased: bool): (r: string)
    ensures |r| == |s|
    ensures forall i :: 0 <= i < |s| ==> (IsCased(r[i]) <==> IsCased(s[i]))
    ensures forall i :: 0 <= i < |s| ==> (IsSpace(r[i]) <==> IsSpace(s[i]))
    ensures forall i :: 0 <= i < |s| && !IsCased(s[i]) ==> r[i] == s[i]
  {
    if s == [] then []
    else
      var c := if !IsCased(s[0]) then s[0] else if prevCased then LowerChar(s[0]) else UpperChar(s[0]);
      [c] + TitleFrom(s[1..], IsCased(s[0]))
  }

  /** `s.title()`. */
  function Title(s: string): string {
    TitleFrom(s, false)
  }

  lemma {:induction false} TitleFromIdempotent(s: string, prevCased: bool)
    ensures TitleFrom(TitleFrom(s, prevCased), prevCased) == TitleFrom(s, prevCased)
  {
    if s != [] {
      var t := TitleFrom(s, prevCased);
      TitleFromIdempotent(s[1..], IsCased(s[0]));
      assert t[1..] == TitleFrom(s[1..], IsCased(s[0]));
      assert IsCased(t[0]) == IsCased(s[0]);
    }
  }

  /** Title-casing twice is title-casing once. */
  lemma TitleIdempotent(s: string)
    ensures Title(Title(s)) == Title(s)
  {
    TitleFromIdempotent(s, false);
  }

  /** Title-casing keeps whitespace where it is, so it commutes with `strip`. */
  lemma TitleOfStripped(s: string)
    requires Strip(s) == s
    ensures Strip(Title(s)) == Title(s)
  {
    var t := Title(s);
    assert s == [] || (!IsSpace(s[0]) && !IsSpace(s[|s| - 1]));
    StripClean(t);
  }

  /** `s.endswith(suffix)`. */
  predicate EndsWith(s: string, suffix: string) {
    |suffix| <= |s| && s[|s| - |suffix|..] == suffix
  }

  /** `s.split(sep)[-1]`: the text after the last `sep`, or all of `s` when there is none. */
  function LastSegment(s: string, sep: char): (r: string)
    ensures |r| <= |s| && r == s[|s| - |r|..]
    ensures sep !in r
    ensures |r| < |s| ==> s[|s| - |r| - 1] == sep
  {
    if s == [] then []
    else if s[|s| - 1] == sep then []
    else LastSegment(s[..|s| - 1], sep) + [s[|s| - 1]]
  }

  /** `sep.join(parts)`. */
  function Join(parts: seq<string>, sep: string): string {
    if parts == [] then ""
    else if |parts| == 1 then parts[0]
    else parts[0] + sep + Join(parts[1..], sep)
  }

  function DigitChar(d: nat): (c: char)
    requires d < 10
    ensures IsDigit(c)
  {
    ('0' as int + d) as char
  }

  function NatToString(n: nat): (s: string)
    ensures |s| >= 1
    ensures forall i :: 0 <= i < |s| ==> IsDigit(s[i])
  {
    if n < 10 then [DigitChar(n)] else NatToString(n / 10) + [DigitChar(n % 10)]
  }

  /** `str(n)` for a Python int. */
  function IntToString(n: int): (s: string)
    ensures |s| >= 1
    ensures forall i :: 0 <= i < |s| ==> IsDigit(s[i]) || (i == 0 && s[i] == '-')
  {
    if n < 0 then "-" + NatToString(-n) else NatToString(n)
  }

  /** The quote `repr` puts around `s`: a single quote unless `s` holds one and no double quote. */
  function ReprQuote(s: string): (q: char)
    ensures q == '\'' || q == '"'
  {
    if '\'' in s && '"' !in s then '"' else '\''
  }

  function HexDigit(d: nat): (c: char)
    requires d < 16
  {
    if d < 10 then DigitChar(d) else ('a' as int + d - 10) as char
  }

  /** How `repr` writes one character inside quotes `q`. */
  function ReprChar(c: char, q: char): (r: string)
    ensures |r| >= 1
    ensures (c == q || c == '\\') ==> r == ['\\', c]
  {
    if c == '\\' || c == q then ['\\', c]
    else if c == '\t' then "\\t"
    else if c == '\n' then "\\n"
    else if c == '\r' then "\\r"
    else if c < ' ' || c == '\U{7F}' then ['\\', 'x', HexDigit(c as int / 16), HexDigit(c as int % 16)]
    else [c]
  }

  function ReprBody(s: string, q: char): string {
    if s == [] then [] else ReprChar(s[0], q) + ReprBody(s[1..], q)
  }

  /** `repr(s)` for a string: quoted, with backslashes, the quote and control characters escaped. */
  function Repr(s: string): (r: string)
    ensures |r| >= 2 && r[0] == r[|r| - 1] == ReprQuote(s)
  {
    var q := ReprQuote(s);
    [q] + ReprBody(s, q) + [q]
  }

  /** Text with no quote, backslash or control character is shown between single quotes as it is. */
  lemma {:induction false} ReprPlain(s: string)
    requires forall i :: 0 <= i < |s| ==> s[i] != '\'' && s[i] != '\\' && ' ' <= s[i] && s[i] != '\U{7F}'
    ensures Repr(s) == "'" + s + "'"
  {
    ReprBodyPlain(s, '\'');
  }

  lemma {:induction false} ReprBodyPlain(s: string, q: char)
    requires forall i :: 0 <= i < |s| ==> s[i] != q && s[i] != '\\' && ' ' <= s[i] && s[i] != '\U{7F}'
    ensures ReprBody(s, q) == s
  {
    if s != [] {
      ReprBodyPlain(s[1..], q);
      assert s == [s[0]] + s[1..];
    }
  }

  // ---------------------------------------------------------------------
  // Ordering strings

  /** Python's `a <= b` on strings: lexicographic by code point, a prefix first. */
  predicate TextAtMost(a: string, b: string) {
    if a == [] then true
    else if b == [] then false
    else if a[0] != b[0] then a[0] < b[0]
    else TextAtMost(a[1..], b[1..])
  }

  /** Any two strings are ordered one way or the other. */
  lemma {:induction false} TextAtMostTotal(a: string, b: string)
    ensures TextAtMost(a, b) || TextAtMost(b, a)
  {
    if a != [] && b != [] && a[0] == b[0] {
      TextAtMostTotal(a[1..], b[1..]);
    }
  }

  /** The order is transitive. */
  lemma {:induction false} TextAtMostTransitive(a: string, b: string, c: string)
    requires TextAtMost(a, b) && TextAtMost(b, c)
    ensures TextAtMost(a, c)
  {
    if a != [] && b != [] && c != [] && a[0] == b[0] && b[0] == c[0] {
      TextAtMostTransitive(a[1..], b[1..], c[1..]);
    }
  }

  /** The order is antisymmetric: two strings each at most the other are equal. */
  lemma {:induction false} TextAtMostAntisymmetric(a: string, b: string)
    requires TextAtMost(a, b) && TextAtMost(b, a)
    ensures a == b
  {
    if a != [] && b != [] {
      TextAtMostAntisymmetric(a[1..], b[1..]);
      assert a == [a[0]] + a[1..] && b == [b[0]] + b[1..];
    }
  }

  /** Each string is at most the next. */
  predicate TextsAscending(s: seq<string>) {
    forall i :: 0 <= i < |s| - 1 ==> TextAtMost(s[i], s[i + 1])
  }

  ghost predicate DistinctTexts(s: seq<string>) {
    forall i, j :: 0 <= i < j < |s| ==> s[i] != s[j]
  }

  /** A text at two positions makes the sequence not distinct. */
  lemma RepeatedText(s: seq<string>, i: nat, j: nat)
    requires i < |s| && j < |s| && i != j && s[i] == s[j]
    ensures !DistinctTexts(s)
  {
    if i > j { assert s[j] == s[i]; }
  }

  /** `x` put into an ascending sequence at its place. */
  function InsertText(x: string, s: seq<string>): (r: seq<string>)
    requires TextsAscending(s)
    ensures |r| == |s| + 1
    ensures TextsAscending(r)
    ensures multiset(r) == multiset(s) + multiset{x}
    ensures forall y :: y in r <==> y == x || y in s
    ensures DistinctTexts(s) && x !in s ==> DistinctTexts(r)
    ensures r[0] == x || r[0] == s[0]
  {
    if s == [] then [x]
    else if TextAtMost(x, s[0]) then [x] + s
    else
      assert s == [s[0]] + s[1..];
      TextAtMostTotal(x, s[0]);
      var t := InsertText(x, s[1..]);
      InsertStepDistinct(x, s, t);
      [s[0]] + t
  }

  /** `sorted(ks)`: the strings in ascending order, as a permutation of the input. */
  function SortTexts(ks: seq<string>): (s: seq<string>)
    ensures |s| == |ks|
    ensures TextsAscending(s)
    ensures multiset(s) == multiset(ks)
    ensures forall y :: y in s <==> y in ks
    ensures DistinctTexts(ks) ==> DistinctTexts(s)
  {
    if ks == [] then []
    else
      assert ks == [ks[0]] + ks[1..];
      var rest := SortTexts(ks[1..]);
      HeadNotInTail(ks);
      InsertText(ks[0], rest)
  }

  lemma HeadNotInTail(ks: seq<string>)
    requires ks != []
    ensures DistinctTexts(ks) ==> ks[0] !in ks[1..] && DistinctTexts(ks[1..])
  {
    if DistinctTexts(ks) {
      assert forall k :: 0 < k < |ks| ==> ks[k] != ks[0];
    }
  }

  lemma InsertStepDistinct(x: string, s: seq<string>, t: seq<string>)
    requires s != [] && forall y :: y in t <==> y == x || y in s[1..]
    requires DistinctTexts(s) && x !in s ==> DistinctTexts(t)
    ensures DistinctTexts(s) && x !in s ==> DistinctTexts([s[0]] + t)
  {
    if DistinctTexts(s) && x !in s {
      HeadNotInTail(s);
      DistinctCons(s[0], t);
    }
  }

  /** A string not in a sequence of distinct strings, put in front, keeps them distinct. */
  lemma DistinctCons(x: string, t: seq<string>)
    requires DistinctTexts(t) && x !in t
    ensures DistinctTexts([x] + t)
  {
    var r := [x] + t;
    forall i, j | 0 <= i < j < |r| ensures r[i] != r[j] {
      assert r[j] == t[j - 1];
      if i > 0 { assert r[i] == t[i - 1]; }
    }
  }

  /** In an ascending sequence every string is at most every later one. */
  lemma {:induction false} AscendingPairwise(s: seq<string>, i: nat, j: nat)
    requires TextsAscending(s) && i <= j < |s|
    ensures TextAtMost(s[i], s[j])
    decreases j - i
  {
    if i == j {
      TextAtMostReflexive(s[i]);
    } else {
      AscendingPairwise(s, i + 1, j);
      TextAtMostTransitive(s[i], s[i + 1], s[j]);
    }
  }

  lemma {:induction false} TextAtMostReflexive(a: string)
    ensures TextAtMost(a, a)
  {
    if a != [] {
      TextAtMostReflexive(a[1..]);
    }
  }
}
