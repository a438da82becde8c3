/**
 * The equipment CSV pipeline: resolving arbitrary headers onto the canonical
 * equipment fields, cleaning the renamed columns, summarising the cleaned
 * table, and deciding which error a failed upload surfaces as.
 */
module EquipmentUtils {
  import opened Common
  import opened Text
  import opened Frame
  import opened Py
  import Utils
  import opened Numeric

  /** Canonical field names, each with its aliases in priority order. */
  type FieldTable = seq<(string, seq<string>)>

  const RequiredColumns: FieldTable := [
    ("equipment_id", ["equipment_id", "id", "equipment_number"]),
    ("equipment_type", ["equipment_type", "type", "category", "equipment_category"]),
    ("flowrate", ["flowrate", "flow_rate", "flow", "rate"]),
    ("pressure", ["pressure", "press", "psi", "bar"]),
    ("temperature", ["temperature", "temp", "celsius", "fahrenheit"])
  ]

  const OptionalColumns: FieldTable := [
    ("timestamp", ["timestamp", "date", "datetime", "time"]),
    ("location", ["location", "site", "facility", "plant"]),
    ("status", ["status", "state", "condition"]),
    ("operator", ["operator", "technician", "user"])
  ]

  const AllColumns: FieldTable := RequiredColumns + OptionalColumns

  /** Which of the nine fields lists `alias`; -1 for none. */
  function Owner(alias: string): int {
    if alias in AllColumns[0].1 then 0
    else if alias in AllColumns[1].1 then 1
    else if alias in AllColumns[2].1 then 2
    else if alias in AllColumns[3].1 then 3
    else if alias in AllColumns[4].1 then 4
    else if alias in AllColumns[5].1 then 5
    else if alias in AllColumns[6].1 then 6
    else if alias in AllColumns[7].1 then 7
    else if alias in AllColumns[8].1 then 8
    else -1
  }

  /** The nine fields have distinct names and no alias has an upper-case letter. */
  lemma AliasNames()
    ensures forall a, b :: 0 <= a < b < |AllColumns| ==> AllColumns[a].0 != AllColumns[b].0
    ensures forall a, x, i ::
      (0 <= a < |AllColumns| && 0 <= x < |AllColumns[a].1| && 0 <= i < |AllColumns[a].1[x]|) ==>
        !IsUpper(AllColumns[a].1[x][i])
  {
  }

  /** Every alias belongs to exactly one field, so no two fields share an alias. */
  lemma AliasOwners()
    ensures forall a, x :: 0 <= a < |AllColumns| && 0 <= x < |AllColumns[a].1| ==> Owner(AllColumns[a].1[x]) == a
  {
    forall a, x | 0 <= a < |AllColumns| && 0 <= x < |AllColumns[a].1|
      ensures Owner(AllColumns[a].1[x]) == a
    {
      var s := AllColumns[a].1[x];
      if a == 0 { assert s in AllColumns[0].1; }
      else if a == 1 { assert s !in AllColumns[0].1; }
      else if a == 2 { assert s !in AllColumns[0].1 && s !in AllColumns[1].1; }
      else if a == 3 { assert s !in AllColumns[0].1 && s !in AllColumns[1].1 && s !in AllColumns[2].1; }
    }
  }

  /** Lower-casing text with no upper-case letter changes nothing. */
  lemma LowerOfLowercase(s: string)
    requires forall i :: 0 <= i < |s| ==> !IsUpper(s[i])
    ensures Lower(s) == s
  {
    assert forall i :: 0 <= i < |s| ==> Lower(s)[i] == s[i];
  }

  /** `[col.lower().strip() for col in df.columns]`. */
  function NormalizedHeaders(headers: seq<string>): (n: seq<string>)
    ensures |n| == |headers|
    ensures forall i :: 0 <= i < |headers| ==> n[i] == Strip(Lower(headers[i]))
  {
    seq(|headers|, i requires 0 <= i < |headers| => Strip(Lower(headers[i])))
  }

  /**
   * The header a field maps to, given the normalised headers `n`: for the
   * first alias, in priority order, that equals some normalised header, the
   * original header at the first position with that normalised name.
   */
  function Pick(headers: seq<string>, n: seq<string>, aliases: seq<string>): (r: Option<string>)
    requires |n| == |headers|
    ensures r.Some? ==> r.value in headers
  {
    if aliases == [] then None
    else
      match IndexOf(n, Lower(aliases[0]))
      case Some(i) => Some(headers[i])
      case None => Pick(headers, n, aliases[1..])
  }

  /** The header a field with these aliases maps to, if any. */
  function Resolve(headers: seq<string>, aliases: seq<string>): Option<string> {
    Pick(headers, NormalizedHeaders(headers), aliases)
  }

  /** The position of the first alias whose lower-cased text is among `n`. */
  function FirstMatch(n: seq<string>, aliases: seq<string>): (k: Option<nat>)
    ensures k.None? <==> forall m :: 0 <= m < |aliases| ==> Lower(aliases[m]) !in n
    ensures k.Some? ==> k.value < |aliases| && Lower(aliases[k.value]) in n
                        && forall m :: 0 <= m < k.value ==> Lower(aliases[m]) !in n
  {
    if aliases == [] then None
    else if Lower(aliases[0]) in n then Some(0)
    else
      var k := FirstMatch(n, aliases[1..]);
      assert forall m :: 1 <= m < |aliases| ==> aliases[m] == aliases[1..][m - 1];
      if k.Some? then Some(k.value + 1) else None
  }

  /** Picking follows the first matching alias to the first header with that normalised text. */
  lemma {:induction false} PickFirstMatch(headers: seq<string>, n: seq<string>, aliases: seq<string>)
    requires |n| == |headers|
    ensures Pick(headers, n, aliases) ==
      match FirstMatch(n, aliases)
      case None => None
      case Some(k) => Some(headers[IndexOf(n, Lower(aliases[k])).value])
  {
    if aliases != [] && Lower(aliases[0]) !in n {
      PickFirstMatch(headers, n, aliases[1..]);
      var k := FirstMatch(n, aliases[1..]);
      if k.Some? {
        assert aliases[k.value + 1] == aliases[1..][k.value];
      }
    }
  }

  /**
   * A field resolves exactly when one of its aliases matches a normalised
   * header; it then names the original header at the first position whose
   * normalised text equals the first matching alias.
   */
  lemma ResolveMeaning(headers: seq<string>, aliases: seq<string>)
    ensures Resolve(headers, aliases).None? <==> FirstMatch(NormalizedHeaders(headers), aliases).None?
    ensures FirstMatch(NormalizedHeaders(headers), aliases).Some? ==>
      var n := NormalizedHeaders(headers);
      var i := IndexOf(n, Lower(aliases[FirstMatch(n, aliases).value])).value;
      && Resolve(headers, aliases) == Some(headers[i])
      && n[i] == Lower(aliases[FirstMatch(n, aliases).value])
      && forall p :: 0 <= p < i ==> n[p] != n[i]
  {
    PickFirstMatch(headers, NormalizedHeaders(headers), aliases);
  }

  /** `f"Required column '{field}' not found. Expected one of: {', '.join(aliases)}"`. */
  function MissingMessage(field: string, aliases: seq<string>): string {
    "Required column '" + field + "' not found. Expected one of: " + Join(aliases, ", ")
  }

  /** What each field of `fields` resolves to, in order. */
  function Resolutions(headers: seq<string>, fields: FieldTable): (res: seq<Option<string>>)
    ensures |res| == |fields|
    ensures forall j :: 0 <= j < |fields| ==> res[j] == Resolve(headers, fields[j].1)
  {
    seq(|fields|, j requires 0 <= j < |fields| => Resolve(headers, fields[j].1))
  }

  /** `column_mapping` after the fields were tried in order, starting from `m`; `res` says what each resolved to. */
  function MapFields(fields: FieldTable, res: seq<Option<string>>, m: Dict<string>): Dict<string>
    requires |res| == |fields|
  {
    if fields == [] then m
    else
      var before := MapFields(fields[..|fields| - 1], res[..|res| - 1], m);
      match res[|res| - 1]
      case Some(c) => Put(before, fields[|fields| - 1].0, c)
      case None => before
  }

  /** The names of the fields that did not resolve, in order. */
  function MissingFields(fields: FieldTable, res: seq<Option<string>>): seq<string>
    requires |res| == |fields|
  {
    if fields == [] then []
    else
      MissingFields(fields[..|fields| - 1], res[..|res| - 1])
        + (if res[|res| - 1].None? then [fields[|fields| - 1].0] else [])
  }

  /** One message for each field that did not resolve, in order. */
  function MissingErrors(fields: FieldTable, res: seq<Option<string>>): seq<string>
    requires |res| == |fields|
  {
    if fields == [] then []
    else
      var f := fields[|fields| - 1];
      MissingErrors(fields[..|fields| - 1], res[..|res| - 1])
        + (if res[|res| - 1].None? then [MissingMessage(f.0, f.1)] else [])
  }

  datatype Validation = Validation(isValid: bool, columnMapping: Dict<string>, missingColumns: seq<string>,
                                   foundColumns: seq<string>, errors: seq<string>)

  /** What `validate_csv_columns` returns for a frame with these headers. */
  function ValidationOf(headers: seq<string>): Validation {
    var required := Resolutions(headers, RequiredColumns);
    var missing := MissingFields(RequiredColumns, required);
    Validation(missing == [],
               MapFields(OptionalColumns, Resolutions(headers, OptionalColumns), MapFields(RequiredColumns, required, [])),
               missing, headers, MissingErrors(RequiredColumns, required))
  }

  /**
   * The inner loop of `validate_csv_columns` for one field: try the aliases
   * in order and record the first match.
   */
  method MatchField(headers: seq<string>, lowered: seq<string>, field: string, names: seq<string>,
                    mapping: Dict<string>) returns (found: bool, m: Dict<string>)
    requires lowered == NormalizedHeaders(headers)
    ensures found <==> Resolve(headers, names).Some?
    ensures m == if found then Put(mapping, field, Resolve(headers, names).value) else mapping
  {
    found := false;
    m := mapping;
    var a := 0;
    while a < |names|
      invariant 0 <= a <= |names|
      invariant Resolve(headers, names) == Pick(headers, lowered, names[a..])
      invariant !found && m == mapping
    {
      var name := Lower(names[a]);
      assert names[a..][0] == names[a];
      if name in lowered {
        var actual := headers[IndexOf(lowered, name).value];
        m := Put(m, field, actual);
        found := true;
        break;
      }
      assert names[a..][1..] == names[a + 1..];
      a := a + 1;
    }
  }

  /** The outer loop of `validate_csv_columns` over `fields`, extending `mapping`. */
  method MatchFields(headers: seq<string>, lowered: seq<string>, fields: FieldTable, mapping: Dict<string>)
    returns (m: Dict<string>, missing: seq<string>, errors: seq<string>)
    requires lowered == NormalizedHeaders(headers)
    ensures m == MapFields(fields, Resolutions(headers, fields), mapping)
    ensures missing == MissingFields(fields, Resolutions(headers, fields))
    ensures errors == MissingErrors(fields, Resolutions(headers, fields))
  {
    ghost var res := Resolutions(headers, fields);
    m := mapping;
    missing := [];
    errors := [];
    for j := 0 to |fields|
      invariant m == MapFields(fields[..j], res[..j], mapping)
      invariant missing == MissingFields(fields[..j], res[..j])
      invariant errors == MissingErrors(fields[..j], res[..j])
    {
      var field := fields[j].0;
      var names := fields[j].1;
      var found;
      FieldsStep(fields, res, j, mapping);
      found, m := MatchField(headers, lowered, field, names, m);
      if !found {
        missing := missing + [field];
        errors := errors + [MissingMessage(field, names)];
      }
    }
    assert fields[..|fields|] == fields;
    assert res[..|fields|] == res;
  }

  /** What trying one more field does to the mapping, the missing names and the messages. */
  lemma FieldsStep(fields: FieldTable, res: seq<Option<string>>, j: nat, mapping: Dict<string>)
    requires |res| == |fields| && j < |fields|
    ensures MapFields(fields[..j + 1], res[..j + 1], mapping)
            == if res[j].Some? then Put(MapFields(fields[..j], res[..j], mapping), fields[j].0, res[j].value)
               else MapFields(fields[..j], res[..j], mapping)
    ensures MissingFields(fields[..j + 1], res[..j + 1])
            == MissingFields(fields[..j], res[..j]) + (if res[j].None? then [fields[j].0] else [])
    ensures MissingErrors(fields[..j + 1], res[..j + 1])
            == MissingErrors(fields[..j], res[..j]) + (if res[j].None? then [MissingMessage(fields[j].0, fields[j].1)] else [])
  {
    assert fields[..j + 1][..j] == fields[..j];
    assert res[..j + 1][..j] == res[..j];
    assert fields[..j + 1][j] == fields[j] && res[..j + 1][j] == res[j];
  }

  /** `validate_csv_columns`: the required fields, then the optional ones. */
  method ValidateCsvColumns(headers: seq<string>) returns (v: Validation)
    ensures v == ValidationOf(headers)
  {
    var lowered := NormalizedHeaders(headers);
    var mapping, missing, errors := MatchFields(headers, lowered, RequiredColumns, []);
    var optional, _, _ := MatchFields(headers, lowered, OptionalColumns, mapping);
    v := Validation(|missing| == 0, optional, missing, headers, errors);
  }

  /** Trying `a` and then `b` is trying `a + b`. */
  lemma {:induction false} MapFieldsAppend(a: FieldTable, ra: seq<Option<string>>, b: FieldTable,
                                           rb: seq<Option<string>>, m: Dict<string>)
    requires |ra| == |a| && |rb| == |b|
    ensures MapFields(a + b, ra + rb, m) == MapFields(b, rb, MapFields(a, ra, m))
  {
    if b != [] {
      var ab := a + b;
      var rab := ra + rb;
      assert ab[..|ab| - 1] == a + b[..|b| - 1];
      assert rab[..|rab| - 1] == ra + rb[..|rb| - 1];
      assert ab[|ab| - 1] == b[|b| - 1];
      assert rab[|rab| - 1] == rb[|rb| - 1];
      MapFieldsAppend(a, ra, b[..|b| - 1], rb[..|rb| - 1], m);
    } else {
      assert a + b == a;
      assert ra + rb == ra;
    }
  }

  /** With distinct field names, a field that resolved maps to its header, and one that did not keeps what `m` had. */
  lemma {:induction false} MapFieldsGet(fields: FieldTable, res: seq<Option<string>>, m: Dict<string>, j: nat)
    requires |res| == |fields| && j < |fields|
    requires forall a, b :: 0 <= a < b < |fields| ==> fields[a].0 != fields[b].0
    ensures Get(MapFields(fields, res, m), fields[j].0) == if res[j].Some? then res[j] else Get(m, fields[j].0)
  {
    var n := |fields|;
    var init := fields[..n - 1];
    var before := MapFields(init, res[..n - 1], m);
    var last := fields[n - 1].0;
    var after := MapFields(fields, res, m);
    if res[n - 1].Some? {
      assert after == Put(before, last, res[n - 1].value);
      PutGet(before, last, res[n - 1].value);
    } else {
      assert after == before;
    }
    if j == n - 1 && res[j].None? {
      assert forall i :: 0 <= i < n - 1 ==> init[i].0 != last by {
        assert forall i :: 0 <= i < n - 1 ==> init[i] == fields[i];
      }
      MapFieldsUntouched(init, res[..n - 1], m, last);
    }
    if j < n - 1 {
      assert init[j] == fields[j] && res[..n - 1][j] == res[j];
      assert fields[j].0 != last;
      assert forall a, b :: 0 <= a < b < |init| ==> init[a].0 != init[b].0 by {
        assert forall a :: 0 <= a < |init| ==> init[a] == fields[a];
      }
      MapFieldsGet(init, res[..n - 1], m, j);
    }
  }

  /** A key no field names keeps its value from `m`. */
  lemma {:induction false} MapFieldsUntouched(fields: FieldTable, res: seq<Option<string>>, m: Dict<string>, k: string)
    requires |res| == |fields|
    requires forall j :: 0 <= j < |fields| ==> fields[j].0 != k
    ensures Get(MapFields(fields, res, m), k) == Get(m, k)
  {
    if fields != [] {
      var n := |fields|;
      var init := fields[..n - 1];
      var before := MapFields(init, res[..n - 1], m);
      var last := fields[n - 1].0;
      assert last != k;
      if res[n - 1].Some? {
        assert MapFields(fields, res, m) == Put(before, last, res[n - 1].value);
        PutGet(before, last, res[n - 1].value);
      } else {
        assert MapFields(fields, res, m) == before;
      }
      assert forall j :: 0 <= j < n - 1 ==> init[j].0 != k by {
        assert forall j :: 0 <= j < n - 1 ==> init[j] == fields[j];
      }
      MapFieldsUntouched(init, res[..n - 1], m, k);
    }
  }

  /** A mapping built from a dict with distinct keys has distinct keys. */
  lemma {:induction false} MapFieldsDistinct(fields: FieldTable, res: seq<Option<string>>, m: Dict<string>)
    requires |res| == |fields| && DistinctKeys(m)
    ensures DistinctKeys(MapFields(fields, res, m))
  {
    if fields != [] {
      var n := |fields|;
      MapFieldsDistinct(fields[..n - 1], res[..n - 1], m);
      if res[n - 1].Some? {
        PutDistinct(MapFields(fields[..n - 1], res[..n - 1], m), fields[n - 1].0, res[n - 1].value);
      }
    }
  }

  /** A key of a mapping built from `m` is a key of `m` or one of the field names. */
  lemma {:induction false} MapFieldsKeys(fields: FieldTable, res: seq<Option<string>>, m: Dict<string>)
    requires |res| == |fields|
    ensures forall k :: HasKey(MapFields(fields, res, m), k) ==>
      HasKey(m, k) || exists j :: 0 <= j < |fields| && fields[j].0 == k
  {
    if fields != [] {
      var n := |fields|;
      var init := fields[..n - 1];
      var before := MapFields(init, res[..n - 1], m);
      var after := MapFields(fields, res, m);
      var last := fields[n - 1].0;
      MapFieldsKeys(init, res[..n - 1], m);
      if res[n - 1].Some? {
        PutGet(before, last, res[n - 1].value);
      }
      forall k | HasKey(after, k)
        ensures HasKey(m, k) || exists j :: 0 <= j < |fields| && fields[j].0 == k
      {
        if k == last {
          assert fields[n - 1].0 == k;
        } else {
          assert Get(after, k) == Get(before, k);
          if !HasKey(m, k) {
            var j :| 0 <= j < |init| && init[j].0 == k;
            assert fields[j].0 == k;
          }
        }
      }
    }
  }


  /** Every missing name is the name of a field that did not resolve. */
  lemma {:induction false} MissingFieldsNames(fields: FieldTable, res: seq<Option<string>>)
    requires |res| == |fields|
    ensures forall x :: x in MissingFields(fields, res) ==>
      exists j :: 0 <= j < |fields| && fields[j].0 == x && res[j].None?
  {
    if fields != [] {
      var n := |fields|;
      var init := fields[..n - 1];
      var rinit := res[..n - 1];
      MissingFieldsNames(init, rinit);
      forall x | x in MissingFields(fields, res) ensures exists j :: 0 <= j < |fields| && fields[j].0 == x && res[j].None? {
        if x in MissingFields(init, rinit) {
          var j :| 0 <= j < |init| && init[j].0 == x && rinit[j].None?;
          assert fields[j].0 == x && res[j].None?;
        } else {
          assert fields[n - 1].0 == x && res[n - 1].None?;
        }
      }
    }
  }

  /** A field is missing exactly when it did not resolve (field names being distinct). */
  lemma {:induction false} MissingFieldsMeaning(fields: FieldTable, res: seq<Option<string>>)
    requires |res| == |fields|
    requires forall a, b :: 0 <= a < b < |fields| ==> fields[a].0 != fields[b].0
    ensures forall j :: 0 <= j < |fields| ==> (fields[j].0 in MissingFields(fields, res) <==> res[j].None?)
  {
    if fields != [] {
      var n := |fields|;
      var init := fields[..n - 1];
      var rinit := res[..n - 1];
      MissingFieldsMeaning(init, rinit);
      MissingFieldsNames(init, rinit);
      var missing := MissingFields(fields, res);
      assert missing == MissingFields(init, rinit) + (if res[n - 1].None? then [fields[n - 1].0] else []);
      forall j | 0 <= j < n ensures fields[j].0 in missing <==> res[j].None? {
        if j < n - 1 {
          assert init[j] == fields[j] && rinit[j] == res[j];
          assert fields[j].0 != fields[n - 1].0;
        } else {
          assert fields[n - 1].0 !in MissingFields(init, rinit) by {
            assert forall i :: 0 <= i < |init| ==> init[i].0 != fields[n - 1].0;
          }
        }
      }
    }
  }

  /** Nothing is missing exactly when every field resolved. */
  lemma {:induction false} MissingFieldsEmpty(fields: FieldTable, res: seq<Option<string>>)
    requires |res| == |fields|
    ensures MissingFields(fields, res) == [] <==> forall j :: 0 <= j < |fields| ==> res[j].Some?
  {
    MissingFieldsNames(fields, res);
    if fields != [] {
      var n := |fields|;
      MissingFieldsEmpty(fields[..n - 1], res[..n - 1]);
      assert forall j :: 0 <= j < n - 1 ==> res[..n - 1][j] == res[j];
    }
  }

  /** The fields that did not resolve, in order. */
  function Unresolved(fields: FieldTable, res: seq<Option<string>>): (u: FieldTable)
    requires |res| == |fields|
    ensures forall e :: e in u ==> e in fields
  {
    if fields == [] then []
    else
      var n := |fields|;
      var before := Unresolved(fields[..n - 1], res[..n - 1]);
      assert forall e :: e in before ==> e in fields by {
        forall e | e in before ensures e in fields {
          assert e in fields[..n - 1];
        }
      }
      before + (if res[n - 1].None? then [fields[n - 1]] else [])
  }

  /** One message per unresolved field, naming it and listing its aliases. */
  function Messages(u: FieldTable): (ms: seq<string>)
    ensures |ms| == |u|
    ensures forall i :: 0 <= i < |u| ==> ms[i] == MissingMessage(u[i].0, u[i].1)
  {
    seq(|u|, i requires 0 <= i < |u| => MissingMessage(u[i].0, u[i].1))
  }

  lemma KeysSnoc(u: FieldTable, e: (string, seq<string>))
    ensures Keys(u + [e]) == Keys(u) + [e.0]
  {
    assert forall i :: 0 <= i < |u| ==> (u + [e])[i] == u[i];
  }

  lemma MessagesSnoc(u: FieldTable, e: (string, seq<string>))
    ensures Messages(u + [e]) == Messages(u) + [MissingMessage(e.0, e.1)]
  {
    assert forall i :: 0 <= i < |u| ==> (u + [e])[i] == u[i];
  }

  /** The missing names are the names of the unresolved fields. */
  lemma {:induction false} MissingNamesAligned(fields: FieldTable, res: seq<Option<string>>)
    requires |res| == |fields|
    ensures MissingFields(fields, res) == Keys(Unresolved(fields, res))
  {
    if fields != [] {
      var n := |fields|;
      MissingNamesAligned(fields[..n - 1], res[..n - 1]);
      var before := Unresolved(fields[..n - 1], res[..n - 1]);
      if res[n - 1].None? {
        KeysSnoc(before, fields[n - 1]);
      } else {
        assert before + [] == before;
      }
    }
  }

  /** The i-th error describes the i-th unresolved field. */
  lemma {:induction false} MissingErrorsAligned(fields: FieldTable, res: seq<Option<string>>)
    requires |res| == |fields|
    ensures MissingErrors(fields, res) == Messages(Unresolved(fields, res))
  {
    if fields != [] {
      var n := |fields|;
      MissingErrorsAligned(fields[..n - 1], res[..n - 1]);
      var before := Unresolved(fields[..n - 1], res[..n - 1]);
      if res[n - 1].None? {
        MessagesSnoc(before, fields[n - 1]);
      } else {
        assert before + [] == before;
      }
    }
  }

  lemma RequiredNames()
    ensures forall a, b :: 0 <= a < b < |RequiredColumns| ==> RequiredColumns[a].0 != RequiredColumns[b].0
  {
  }

  /** What the missing list says about a table of fields with distinct names. */
  lemma MissingOutcome(headers: seq<string>, fields: FieldTable)
    requires forall a, b :: 0 <= a < b < |fields| ==> fields[a].0 != fields[b].0
    ensures MissingFields(fields, Resolutions(headers, fields)) == [] <==>
      forall j :: 0 <= j < |fields| ==> Resolve(headers, fields[j].1).Some?
    ensures forall j :: 0 <= j < |fields| ==>
      (fields[j].0 in MissingFields(fields, Resolutions(headers, fields)) <==> Resolve(headers, fields[j].1).None?)
  {
    var res := Resolutions(headers, fields);
    MissingFieldsMeaning(fields, res);
    MissingFieldsEmpty(fields, res);
  }

  /**
   * `is_valid` holds exactly when no required field is missing, which is
   * exactly when every required field resolves; the optional fields play no
   * part. A required field is missing exactly when it does not resolve, the
   * missing fields and their messages come in declaration order, one message
   * per field, and `found_columns` is the header list unchanged.
   */
  lemma ValidationOutcome(headers: seq<string>)
    ensures ValidationOf(headers).isValid <==> ValidationOf(headers).missingColumns == []
    ensures ValidationOf(headers).isValid <==>
      forall j :: 0 <= j < |RequiredColumns| ==> Resolve(headers, RequiredColumns[j].1).Some?
    ensures forall j :: 0 <= j < |RequiredColumns| ==>
      (RequiredColumns[j].0 in ValidationOf(headers).missingColumns <==> Resolve(headers, RequiredColumns[j].1).None?)
    ensures var u := Unresolved(RequiredColumns, Resolutions(headers, RequiredColumns));
      && ValidationOf(headers).missingColumns == Keys(u)
      && ValidationOf(headers).errors == Messages(u)
    ensures ValidationOf(headers).foundColumns == headers
  {
    var res := Resolutions(headers, RequiredColumns);
    RequiredNames();
    MissingOutcome(headers, RequiredColumns);
    MissingNamesAligned(RequiredColumns, res);
    MissingErrorsAligned(RequiredColumns, res);
  }

  /** The mapping built over fields with distinct names, as a lookup. */
  lemma MappingOutcome(headers: seq<string>, fields: FieldTable)
    requires forall a, b :: 0 <= a < b < |fields| ==> fields[a].0 != fields[b].0
    ensures DistinctKeys(MapFields(fields, Resolutions(headers, fields), []))
    ensures forall j :: 0 <= j < |fields| ==>
      Get(MapFields(fields, Resolutions(headers, fields), []), fields[j].0) == Resolve(headers, fields[j].1)
    ensures forall k :: HasKey(MapFields(fields, Resolutions(headers, fields), []), k) ==>
      exists j :: 0 <= j < |fields| && fields[j].0 == k
  {
    var res := Resolutions(headers, fields);
    forall j | 0 <= j < |fields|
      ensures Get(MapFields(fields, res, []), fields[j].0) == Resolve(headers, fields[j].1)
    {
      MapFieldsGet(fields, res, [], j);
    }
    MapFieldsDistinct(fields, res, []);
    MapFieldsKeys(fields, res, []);
  }

  /** The required fields and then the optional ones are the nine fields tried in order. */
  lemma MappingIsAll(headers: seq<string>)
    ensures ValidationOf(headers).columnMapping == MapFields(AllColumns, Resolutions(headers, AllColumns), [])
  {
    var rr := Resolutions(headers, RequiredColumns);
    var ro := Resolutions(headers, OptionalColumns);
    assert rr + ro == Resolutions(headers, AllColumns);
    MapFieldsAppend(RequiredColumns, rr, OptionalColumns, ro, []);
  }

  /**
   * The mapping holds each of the nine fields that resolves, with the header
   * it resolves to, and nothing else.
   */
  lemma ColumnMappingMeaning(headers: seq<string>)
    ensures DistinctKeys(ValidationOf(headers).columnMapping)
    ensures forall j :: 0 <= j < |AllColumns| ==>
      Get(ValidationOf(headers).columnMapping, AllColumns[j].0) == Resolve(headers, AllColumns[j].1)
    ensures forall k :: HasKey(ValidationOf(headers).columnMapping, k) ==>
      exists j :: 0 <= j < |AllColumns| && AllColumns[j].0 == k
  {
    MappingIsAll(headers);
    AliasNames();
    MappingOutcome(headers, AllColumns);
  }

  /** A resolved field's header normalises to one of that field's own aliases. */
  lemma ResolvedAlias(headers: seq<string>, a: nat) returns (x: nat, i: nat)
    requires a < |AllColumns| && Resolve(headers, AllColumns[a].1).Some?
    ensures x < |AllColumns[a].1| && i < |headers|
    ensures Resolve(headers, AllColumns[a].1) == Some(headers[i])
    ensures Strip(Lower(headers[i])) == AllColumns[a].1[x]
  {
    var n := NormalizedHeaders(headers);
    var aliases := AllColumns[a].1;
    ResolveMeaning(headers, aliases);
    x := FirstMatch(n, aliases).value;
    i := IndexOf(n, Lower(aliases[x])).value;
    AliasNames();
    LowerOfLowercase(aliases[x]);
  }

  /**
   * Because no alias belongs to two fields, two different fields never
   * resolve to the same header.
   */
  lemma MappedHeadersDistinct(headers: seq<string>, a: nat, b: nat)
    requires a < |AllColumns| && b < |AllColumns| && a != b
    requires Resolve(headers, AllColumns[a].1).Some? && Resolve(headers, AllColumns[b].1).Some?
    ensures Resolve(headers, AllColumns[a].1) != Resolve(headers, AllColumns[b].1)
  {
    var x, i := ResolvedAlias(headers, a);
    var y, k := ResolvedAlias(headers, b);
    AliasOwners();
    assert Owner(AllColumns[a].1[x]) == a && Owner(AllColumns[b].1[y]) == b;
    assert AllColumns[a].1[x] != AllColumns[b].1[y];
  }

  /** The values of a dict, in order. */
  function Values(d: Dict<string>): (vs: seq<string>)
    ensures |vs| == |d|
    ensures forall i :: 0 <= i < |d| ==> vs[i] == d[i].1
  {
    seq(|d|, i requires 0 <= i < |d| => d[i].1)
  }

  /** No value occurs twice. */
  ghost predicate DistinctValues(d: Dict<string>) {
    forall i, j :: 0 <= i < j < |d| ==> d[i].1 != d[j].1
  }

  /** `{v: k for k, v in column_mapping.items()}`. */
  function InvertMapping(mapping: Dict<string>): Dict<string> {
    FromPairs(Values(mapping), Keys(mapping))
  }

  /** Inverting a dict whose values are distinct sends each value back to its key, and nothing else. */
  lemma InvertMappingGet(d: Dict<string>)
    requires DistinctValues(d)
    ensures forall i :: 0 <= i < |d| ==> Get(InvertMapping(d), d[i].1) == Some(d[i].0)
    ensures forall v :: HasKey(InvertMapping(d), v) <==> v in Values(d)
  {
    var vs := Values(d);
    var ks := Keys(d);
    forall i | 0 <= i < |d| ensures Get(InvertMapping(d), d[i].1) == Some(d[i].0) {
      FromPairsGet(vs, ks, i);
    }
    FromPairsKeys(vs, ks);
  }

  /** The validation mapping never sends two fields to the same header. */
  lemma ColumnMappingInjective(headers: seq<string>)
    ensures DistinctValues(ValidationOf(headers).columnMapping)
  {
    var d := ValidationOf(headers).columnMapping;
    ColumnMappingMeaning(headers);
    forall p, q | 0 <= p < q < |d| ensures d[p].1 != d[q].1 {
      assert HasKey(d, d[p].0) && HasKey(d, d[q].0);
      var a :| 0 <= a < |AllColumns| && AllColumns[a].0 == d[p].0;
      var b :| 0 <= b < |AllColumns| && AllColumns[b].0 == d[q].0;
      GetDistinct(d, p);
      GetDistinct(d, q);
      MappedHeadersDistinct(headers, a, b);
    }
  }

  /** `df.rename(columns=rename_mapping)` on the header row. */
  function RenamedHeaders(headers: seq<string>, mapping: Dict<string>): (r: seq<string>)
    ensures |r| == |headers|
    ensures forall i :: 0 <= i < |headers| ==> r[i] == GetOr(InvertMapping(mapping), headers[i], headers[i])
  {
    var inverse := InvertMapping(mapping);
    seq(|headers|, i requires 0 <= i < |headers| => GetOr(inverse, headers[i], headers[i]))
  }

  /** A resolved field's header is renamed to the field's canonical name. */
  lemma RenamedResolved(headers: seq<string>, a: nat, i: nat)
    requires a < |AllColumns| && i < |headers| && Resolve(headers, AllColumns[a].1) == Some(headers[i])
    ensures RenamedHeaders(headers, ValidationOf(headers).columnMapping)[i] == AllColumns[a].0
  {
    var d := ValidationOf(headers).columnMapping;
    ColumnMappingMeaning(headers);
    ColumnMappingInjective(headers);
    InvertMappingGet(d);
    assert Get(d, AllColumns[a].0) == Some(headers[i]);
    var p :| 0 <= p < |d| && d[p] == (AllColumns[a].0, headers[i]);
  }

  /** A header no field resolves to keeps its name. */
  lemma RenamedOther(headers: seq<string>, i: nat)
    requires i < |headers|
    requires forall a :: 0 <= a < |AllColumns| ==> Resolve(headers, AllColumns[a].1) != Some(headers[i])
    ensures RenamedHeaders(headers, ValidationOf(headers).columnMapping)[i] == headers[i]
  {
    var d := ValidationOf(headers).columnMapping;
    ColumnMappingMeaning(headers);
    ColumnMappingInjective(headers);
    InvertMappingGet(d);
    assert !HasKey(InvertMapping(d), headers[i]) by {
      forall p | 0 <= p < |d| ensures Values(d)[p] != headers[i] {
        assert HasKey(d, d[p].0);
        var a :| 0 <= a < |AllColumns| && AllColumns[a].0 == d[p].0;
        GetDistinct(d, p);
      }
    }
  }

  /**
   * Renaming by the validation mapping gives each resolved field's header
   * the field's canonical name and leaves every other header as it was.
   */
  lemma RenameToCanonical(headers: seq<string>)
    ensures forall a, i :: 0 <= a < |AllColumns| && 0 <= i < |headers|
                           && Resolve(headers, AllColumns[a].1) == Some(headers[i]) ==>
      RenamedHeaders(headers, ValidationOf(headers).columnMapping)[i] == AllColumns[a].0
    ensures forall i :: 0 <= i < |headers| &&
                        (forall a :: 0 <= a < |AllColumns| ==> Resolve(headers, AllColumns[a].1) != Some(headers[i])) ==>
      RenamedHeaders(headers, ValidationOf(headers).columnMapping)[i] == headers[i]
  {
    forall a, i | 0 <= a < |AllColumns| && 0 <= i < |headers| && Resolve(headers, AllColumns[a].1) == Some(headers[i])
      ensures RenamedHeaders(headers, ValidationOf(headers).columnMapping)[i] == AllColumns[a].0
    {
      RenamedResolved(headers, a, i);
    }
    forall i | 0 <= i < |headers| && (forall a :: 0 <= a < |AllColumns| ==> Resolve(headers, AllColumns[a].1) != Some(headers[i]))
      ensures RenamedHeaders(headers, ValidationOf(headers).columnMapping)[i] == headers[i]
    {
      RenamedOther(headers, i);
    }
  }

  const NumericColumns: seq<string> := ["flowrate", "pressure", "temperature"]

  /** The columns the cleaner rewrites, in the order it handles them. */
  const HandledColumns: seq<string> := NumericColumns + ["equipment_type", "equipment_id"]

  /** The mask `df.loc[df[col] < 0, col] = np.nan`. */
  function DropNegative(c: Cell): (r: Cell)
    ensures r.Num? ==> r == c && r.value >= 0.0
    ensures !c.Num? ==> r == c
  {
    if c.Num? && c.value < 0.0 then Missing else c
  }

  /** `astype(str).str.strip().str.title()`, then an empty result becomes missing. */
  function CleanType(c: Cell, render: real -> string): (r: Cell)
    ensures r.Missing? <==> Strip(ToText(c, render)) == ""
    ensures r.Str? ==> r.text == Title(Strip(ToText(c, render)))
    ensures !r.Num?
  {
    var s := Title(Strip(ToText(c, render)));
    if s == "" then Missing else Str(s)
  }

  /** `astype(str).str.strip()`. */
  function CleanId(c: Cell, render: real -> string): Cell {
    Str(Strip(ToText(c, render)))
  }

  /** The cleaned value of a cell in the column named `name`; other columns are left alone. */
  function CleanCell(name: string, c: Cell, render: real -> string): Cell {
    if name == "flowrate" then DropNegative(ToNumeric(c))
    else if name == "pressure" || name == "temperature" then ToNumeric(c)
    else if name == "equipment_type" then CleanType(c, render)
    else if name == "equipment_id" then CleanId(c, render)
    else c
  }

  /** Whether `col` names more than one column, so that `df[col]` is a frame and not a column. */
  predicate Duplicated(headers: seq<string>, col: string) {
    match IndexOf(headers, col)
    case None => false
    case Some(j) => col in headers[j + 1..]
  }

  /** A name that is present and not duplicated names exactly one position. */
  lemma UniqueAt(headers: seq<string>, col: string, j: nat)
    requires !Duplicated(headers, col) && IndexOf(headers, col) == Some(j)
    ensures j < |headers| && headers[j] == col
    ensures forall k :: 0 <= k < |headers| && k != j ==> headers[k] != col
  {
    assert forall k :: j < k < |headers| ==> headers[k] == headers[j + 1..][k - j - 1];
  }

  /** The first of `names`, in order, that names more than one column. */
  function FirstDuplicate(headers: seq<string>, names: seq<string>): (r: Option<string>)
    ensures r.None? <==> forall i :: 0 <= i < |names| ==> !Duplicated(headers, names[i])
  {
    if names == [] then None
    else if Duplicated(headers, names[0]) then Some(names[0])
    else
      assert forall i :: 1 <= i < |names| ==> names[i] == names[1..][i - 1];
      FirstDuplicate(headers, names[1..])
  }

  lemma {:induction false} FirstDuplicateAt(headers: seq<string>, names: seq<string>, k: nat)
    requires k < |names| && Duplicated(headers, names[k])
    requires forall i :: 0 <= i < k ==> !Duplicated(headers, names[i])
    ensures FirstDuplicate(headers, names) == Some(names[k])
  {
    if k > 0 {
      assert forall i :: 0 <= i < k - 1 ==> names[1..][i] == names[i + 1];
      FirstDuplicateAt(headers, names[1..], k - 1);
    }
  }

  /** The rows with the columns named in `done` cleaned and every other cell unchanged. */
  function CleanRows(rows: seq<seq<Cell>>, headers: seq<string>, done: seq<string>, render: real -> string)
    : (r: seq<seq<Cell>>)
    ensures |r| == |rows|
    ensures forall i :: 0 <= i < |rows| ==> |r[i]| == |rows[i]|
  {
    seq(|rows|, i requires 0 <= i < |rows| =>
      seq(|rows[i]|, j requires 0 <= j < |rows[i]| =>
        if j < |headers| && headers[j] in done then CleanCell(headers[j], rows[i][j], render) else rows[i][j]))
  }

  /**
   * `clean_and_validate_data`: the renamed table with every cell cleaned, or,
   * when one of the handled names labels more than one column (where pandas
   * raises), that name.
   */
  function CleanTable(t: Table, mapping: Dict<string>, render: real -> string): Result<Table> {
    var headers := RenamedHeaders(t.headers, mapping);
    match FirstDuplicate(headers, HandledColumns)
    case Some(col) => Err(col)
    case None => Ok(Table(headers, CleanRows(t.rows, headers, HandledColumns, render)))
  }

  /** `df[col] = f(df[col])` for the column at position `j`. */
  function MapColumn(rows: seq<seq<Cell>>, j: nat, f: Cell -> Cell): (r: seq<seq<Cell>>)
    requires forall i :: 0 <= i < |rows| ==> j < |rows[i]|
    ensures |r| == |rows|
    ensures forall i :: 0 <= i < |rows| ==> r[i] == rows[i][j := f(rows[i][j])]
  {
    seq(|rows|, i requires 0 <= i < |rows| => rows[i][j := f(rows[i][j])])
  }

  lemma CleanRowsNothing(rows: seq<seq<Cell>>, headers: seq<string>, render: real -> string)
    ensures CleanRows(rows, headers, [], render) == rows
  {
    var r := CleanRows(rows, headers, [], render);
    forall i | 0 <= i < |rows| ensures r[i] == rows[i] {
      assert forall k :: 0 <= k < |rows[i]| ==> r[i][k] == rows[i][k];
    }
  }

  lemma CleanRowsUntouched(rows: seq<seq<Cell>>, headers: seq<string>, done: seq<string>, render: real -> string, j: nat)
    requires j < |headers| && headers[j] !in done
    requires forall i :: 0 <= i < |rows| ==> |rows[i]| == |headers|
    ensures forall i :: 0 <= i < |rows| ==> CleanRows(rows, headers, done, render)[i][j] == rows[i][j]
  {
  }

  /** Cleaning the one column named `col` extends the cleaned set by `col`. */
  lemma CleanStep(rows: seq<seq<Cell>>, headers: seq<string>, done: seq<string>, render: real -> string,
                  col: string, j: nat, next: seq<seq<Cell>>)
    requires forall i :: 0 <= i < |rows| ==> |rows[i]| == |headers|
    requires j < |headers| && headers[j] == col && col !in done
    requires forall k :: 0 <= k < |headers| && k != j ==> headers[k] != col
    requires |next| == |rows|
    requires forall i :: 0 <= i < |rows| ==>
      next[i] == CleanRows(rows, headers, done, render)[i][j := CleanCell(col, rows[i][j], render)]
    ensures next == CleanRows(rows, headers, done + [col], render)
  {
    var after := CleanRows(rows, headers, done + [col], render);
    forall i | 0 <= i < |rows| ensures next[i] == after[i] {
      assert forall k :: 0 <= k < |headers| ==> next[i][k] == after[i][k];
    }
  }

  /** A name no column carries adds nothing to clean. */
  lemma CleanSkip(rows: seq<seq<Cell>>, headers: seq<string>, done: seq<string>, render: real -> string, col: string)
    requires col !in headers
    ensures CleanRows(rows, headers, done, render) == CleanRows(rows, headers, done + [col], render)
  {
    var before := CleanRows(rows, headers, done, render);
    var after := CleanRows(rows, headers, done + [col], render);
    forall i | 0 <= i < |rows| ensures before[i] == after[i] {
      assert forall k :: 0 <= k < |rows[i]| ==> before[i][k] == after[i][k];
    }
  }

  /** One handled column: clean it when a column carries the name, which then is unique. */
  method CleanColumn(t: Table, headers: seq<string>, done: seq<string>, render: real -> string,
                     col: string, rows: seq<seq<Cell>>) returns (next: seq<seq<Cell>>)
    requires WellFormed(t) && |headers| == |t.headers| && col !in done
    requires !Duplicated(headers, col)
    requires rows == CleanRows(t.rows, headers, done, render)
    ensures next == CleanRows(t.rows, headers, done + [col], render)
  {
    match IndexOf(headers, col) {
      case None =>
        CleanSkip(t.rows, headers, done, render, col);
        next := rows;
      case Some(j) =>
        UniqueAt(headers, col, j);
        CleanRowsUntouched(t.rows, headers, done, render, j);
        if col == "flowrate" {
          next := MapColumn(rows, j, ToNumeric);
          var masked := MapColumn(next, j, DropNegative);
          assert forall i :: 0 <= i < |rows| ==> masked[i] == rows[i][j := DropNegative(ToNumeric(rows[i][j]))];
          next := masked;
        } else if col == "pressure" || col == "temperature" {
          next := MapColumn(rows, j, ToNumeric);
        } else if col == "equipment_type" {
          next := MapColumn(rows, j, c => CleanType(c, render));
        } else if col == "equipment_id" {
          next := MapColumn(rows, j, c => CleanId(c, render));
        } else {
          next := rows;
          assert forall i :: 0 <= i < |rows| ==> rows[i][j := rows[i][j]] == rows[i];
        }
        CleanStep(t.rows, headers, done, render, col, j, next);
    }
  }

  /**
   * `clean_and_validate_data`: rename, coerce the three numeric columns, then
   * tidy the type and id columns.
   */
  method CleanAndValidateData(t: Table, mapping: Dict<string>, render: real -> string) returns (r: Result<Table>)
    requires WellFormed(t)
    ensures r == CleanTable(t, mapping, render)
  {
    var headers := RenamedHeaders(t.headers, mapping);
    var rows := t.rows;
    assert HandledColumns[..0] == [];
    CleanRowsNothing(t.rows, headers, render);
    for k := 0 to |NumericColumns|
      invariant forall i :: 0 <= i < k ==> !Duplicated(headers, HandledColumns[i])
      invariant rows == CleanRows(t.rows, headers, HandledColumns[..k], render)
    {
      var next := HandleColumn(t, headers, k, render, rows);
      if next.None? {
        FirstDuplicateAt(headers, HandledColumns, k);
        return Err(HandledColumns[k]);
      }
      rows := next.value;
    }
    r := CleanTextColumns(t, mapping, headers, render, rows);
  }

  /** The tail of the cleaner: the type column, then the id column, after the numeric ones. */
  method CleanTextColumns(t: Table, mapping: Dict<string>, headers: seq<string>, render: real -> string,
                          rows: seq<seq<Cell>>) returns (r: Result<Table>)
    requires WellFormed(t) && headers == RenamedHeaders(t.headers, mapping)
    requires forall i :: 0 <= i < |NumericColumns| ==> !Duplicated(headers, HandledColumns[i])
    requires rows == CleanRows(t.rows, headers, HandledColumns[..|NumericColumns|], render)
    ensures r == CleanTable(t, mapping, render)
  {
    var typed := HandleColumn(t, headers, 3, render, rows);
    if typed.None? {
      FirstDuplicateAt(headers, HandledColumns, 3);
      return Err(HandledColumns[3]);
    }
    var ided := HandleColumn(t, headers, 4, render, typed.value);
    if ided.None? {
      FirstDuplicateAt(headers, HandledColumns, 4);
      return Err(HandledColumns[4]);
    }
    assert HandledColumns[..5] == HandledColumns;
    r := Ok(Table(headers, ided.value));
  }

  /** One step of the cleaner: the `k`-th handled column cleaned, or None when its name labels two columns. */
  method HandleColumn(t: Table, headers: seq<string>, k: nat, render: real -> string, rows: seq<seq<Cell>>)
    returns (next: Option<seq<seq<Cell>>>)
    requires WellFormed(t) && |headers| == |t.headers| && k < |HandledColumns|
    requires rows == CleanRows(t.rows, headers, HandledColumns[..k], render)
    ensures next.None? <==> Duplicated(headers, HandledColumns[k])
    ensures next.Some? ==> next.value == CleanRows(t.rows, headers, HandledColumns[..k + 1], render)
  {
    var col := HandledColumns[k];
    if Duplicated(headers, col) {
      return None;
    }
    assert HandledColumns[..k + 1] == HandledColumns[..k] + [col];
    var cleaned := CleanColumn(t, headers, HandledColumns[..k], render, col, rows);
    return Some(cleaned);
  }

  /**
   * Cleaning succeeds exactly when no handled name labels two columns. It
   * then keeps every row and column, renames the headers, and replaces each
   * cell by its cleaned value.
   */
  lemma CleanTableShape(t: Table, mapping: Dict<string>, render: real -> string)
    requires WellFormed(t)
    ensures CleanTable(t, mapping, render).Ok? <==>
      forall i :: 0 <= i < |HandledColumns| ==> !Duplicated(RenamedHeaders(t.headers, mapping), HandledColumns[i])
    ensures CleanTable(t, mapping, render).Ok? ==>
      var c := CleanTable(t, mapping, render).value;
      && c.headers == RenamedHeaders(t.headers, mapping)
      && |c.rows| == |t.rows| && WellFormed(c)
      && forall i, j :: 0 <= i < |t.rows| && 0 <= j < |t.headers| ==>
           c.rows[i][j] == CleanCell(c.headers[j], t.rows[i][j], render)
  {
  }

  /** Coerced columns hold only numbers or missing cells, and a flowrate is never negative. */
  lemma CleanNumericCell(name: string, c: Cell, render: real -> string)
    ensures name in NumericColumns ==> !CleanCell(name, c, render).Str?
    ensures name == "flowrate" && CleanCell(name, c, render).Num? ==> CleanCell(name, c, render).value >= 0.0
  {
  }

  /**
   * A type cell is missing exactly when its text is blank and is otherwise
   * its trimmed text in title case; a type cell that was already missing
   * becomes the text "Nan". An id cell is its trimmed text, never missing.
   */
  lemma CleanTextCell(name: string, c: Cell, render: real -> string)
    ensures name == "equipment_type" ==>
      && (CleanCell(name, c, render).Missing? <==> Strip(ToText(c, render)) == "")
      && (CleanCell(name, c, render).Str? ==> CleanCell(name, c, render).text == Title(Strip(ToText(c, render))))
    ensures name == "equipment_type" && c.Missing? ==> CleanCell(name, c, render) == Str("Nan")
    ensures name == "equipment_id" ==> CleanCell(name, c, render) == Str(Strip(ToText(c, render)))
  {
    if name == "equipment_type" {
      CleanCellOfType(c, render);
      if c.Missing? {
        MissingTypeText(render);
      }
    } else if name == "equipment_id" {
      CleanCellOfId(c, render);
    }
  }

  /** The type column is cleaned by its own rule. */
  lemma CleanCellOfType(c: Cell, render: real -> string)
    ensures CleanCell("equipment_type", c, render) == CleanType(c, render)
  {
    var name := "equipment_type";
    assert name[0] == 'e' && "flowrate"[0] == 'f' && "pressure"[0] == 'p' && "temperature"[0] == 't';
    assert name != "flowrate" && name != "pressure" && name != "temperature";
  }

  /** The id column is cleaned by its own rule. */
  lemma CleanCellOfId(c: Cell, render: real -> string)
    ensures CleanCell("equipment_id", c, render) == CleanId(c, render)
  {
    var name := "equipment_id";
    assert name[0] == 'e' && "flowrate"[0] == 'f' && "pressure"[0] == 'p' && "temperature"[0] == 't';
    assert name != "flowrate" && name != "pressure" && name != "temperature";
    assert |name| == 12 != |"equipment_type"|;
  }


  /** Every column the cleaner does not handle is left as it was. */
  lemma CleanOtherCell(name: string, c: Cell, render: real -> string)
    requires name !in HandledColumns
    ensures CleanCell(name, c, render) == c
  {
    assert name != "flowrate" && name != "pressure" && name != "temperature";
    assert name != "equipment_type" && name != "equipment_id";
  }

  /** A missing type cell is written `nan`, which cleans to the text `Nan`. */
  lemma MissingTypeText(render: real -> string)
    ensures CleanType(Missing, render) == Str("Nan")
  {
    var nan := ToText(Missing, render);
    assert nan == "nan";
    StripClean(nan);
    assert Strip(nan) == nan;
    assert nan[1..] == "an" && nan[1..][1..] == "n" && nan[1..][1..][1..] == "";
    assert UpperChar('n') == 'N' && LowerChar('a') == 'a' && LowerChar('n') == 'n';
    assert TitleFrom("n", true) == "n";
    assert TitleFrom("an", true) == "an";
    assert Title(nan) == "Nan";
  }

  lemma CleanTypeIdempotent(c: Cell, render: real -> string)
    requires CleanType(c, render).Str?
    ensures CleanType(CleanType(c, render), render) == CleanType(c, render)
  {
    var s := Strip(ToText(c, render));
    StripIdempotent(ToText(c, render));
    TitleOfStripped(s);
    TitleIdempotent(s);
    assert ToText(CleanType(c, render), render) == Title(s);
  }

  lemma CleanIdIdempotent(c: Cell, render: real -> string)
    ensures CleanId(CleanId(c, render), render) == CleanId(c, render)
  {
    StripIdempotent(ToText(c, render));
  }

  /**
   * Cleaning a cleaned cell changes nothing, except for a type cell that
   * cleaning made missing.
   */
  lemma CleanCellIdempotent(name: string, c: Cell, render: real -> string)
    requires !(name == "equipment_type" && CleanCell(name, c, render).Missing?)
    ensures CleanCell(name, CleanCell(name, c, render), render) == CleanCell(name, c, render)
  {
    var d := CleanCell(name, c, render);
    if name == "flowrate" {
      ToNumericIdempotent(c);
      assert d == DropNegative(ToNumeric(c));
    } else if name == "pressure" || name == "temperature" {
      ToNumericIdempotent(c);
      assert d == ToNumeric(c);
    } else if name == "equipment_type" {
      CleanTypeIdempotent(c, render);
      assert d == CleanType(c, render);
    } else if name == "equipment_id" {
      CleanIdIdempotent(c, render);
      assert d == CleanId(c, render);
    }
  }

  /** A blank type cell is cleaned to missing, and a second pass turns that into "Nan". */
  lemma CleanTypeTwice(render: real -> string)
    ensures CleanCell("equipment_type", Str(" "), render) == Missing
    ensures CleanCell("equipment_type", CleanCell("equipment_type", Str(" "), render), render) == Str("Nan")
  {
    assert " "[1..] == "" && IsSpace(' ');
    assert LStrip(" ") == LStrip("") == "";
    assert Strip(" ") == RStrip("") == "";
    CleanCellOfType(Str(" "), render);
    CleanCellOfType(Missing, render);
    MissingTypeText(render);
  }

  /** What the summary relies on: each handled name labels at most one column, and the coerced columns hold no text. */
  ghost predicate SummaryInput(t: Table) {
    && WellFormed(t)
    && (forall i :: 0 <= i < |HandledColumns| ==> !Duplicated(t.headers, HandledColumns[i]))
    && forall j :: 0 <= j < |t.headers| && t.headers[j] in NumericColumns ==> NoText(Column(t, j))
  }

  /** The cleaner's output is what the summary expects. */
  lemma CleanedIsSummaryInput(t: Table, mapping: Dict<string>, render: real -> string)
    requires WellFormed(t) && CleanTable(t, mapping, render).Ok?
    ensures SummaryInput(CleanTable(t, mapping, render).value)
  {
    var c := CleanTable(t, mapping, render).value;
    CleanTableShape(t, mapping, render);
    forall j | 0 <= j < |c.headers| && c.headers[j] in NumericColumns ensures NoText(Column(c, j)) {
      forall i | 0 <= i < |c.rows| ensures !Column(c, j)[i].Str? {
        CleanNumericCell(c.headers[j], t.rows[i][j], render);
      }
    }
  }

  // ---------------------------------------------------------------------
  // calculate_equipment_summary

  /** `df[name]` for a name that labels one column; None when the name is absent. */
  function ColumnNamed(t: Table, name: string): (col: Option<seq<Cell>>)
    requires WellFormed(t)
    ensures col.Some? <==> name in t.headers
    ensures col.Some? ==> |col.value| == |t.rows|
  {
    match IndexOf(t.headers, name)
    case None => None
    case Some(j) => Some(Column(t, j))
  }

  /** A row with no missing cell. */
  predicate Complete(row: seq<Cell>) {
    forall j :: 0 <= j < |row| ==> !row[j].Missing?
  }

  /** `len(df.dropna())`. */
  function CompleteRows(rows: seq<seq<Cell>>): (n: nat)
    ensures n <= |rows|
  {
    if rows == [] then 0 else (if Complete(rows[0]) then 1 else 0) + CompleteRows(rows[1..])
  }

  function MissingCounts(t: Table): (m: seq<nat>)
    requires WellFormed(t)
    ensures |m| == |t.headers|
    ensures forall j :: 0 <= j < |t.headers| ==> m[j] == CountMissing(Column(t, j))
  {
    seq(|t.headers|, j requires 0 <= j < |t.headers| => CountMissing(Column(t, j)))
  }

  /** `df.columns[df.isnull().any()]`: the headers, in order, of the columns with a missing cell. */
  function ColumnsWithMissing(headers: seq<string>, counts: seq<nat>): (r: seq<string>)
    requires |counts| == |headers|
    ensures forall h :: h in r <==> exists j :: 0 <= j < |headers| && headers[j] == h && counts[j] > 0
  {
    if headers == [] then []
    else
      var rest := ColumnsWithMissing(headers[1..], counts[1..]);
      assert forall j :: 1 <= j < |headers| ==> headers[j] == headers[1..][j - 1] && counts[j] == counts[1..][j - 1];
      assert forall j :: 0 <= j < |headers[1..]| ==> headers[1..][j] == headers[j + 1] && counts[1..][j] == counts[j + 1];
      (if counts[0] > 0 then [headers[0]] else []) + rest
  }

  datatype DataQuality = DataQuality(totalRows: nat, completeRows: nat, missingPercentage: Flt,
                                     columnsWithMissing: seq<string>, missingByColumn: Dict<nat>)

  function DataQualityOf(t: Table): DataQuality
    requires WellFormed(t)
  {
    var counts := MissingCounts(t);
    DataQuality(|t.rows|, CompleteRows(t.rows), Utils.MissingPercentage(Utils.MissingTotal(t), |t.rows|, |t.headers|),
                ColumnsWithMissing(t.headers, counts), FromPairs(t.headers, counts))
  }

  /** The figures of the equipment-type column; absent when there is no such column. */
  datatype EquipmentAnalysis = EquipmentAnalysis(totalTypes: nat, distribution: Dict<nat>,
                                                 mostCommon: Option<string>, percentages: Dict<real>)

  /** `(count / rows * 100).round(2)`. */
  function Percent(count: nat, rows: nat): real {
    if rows == 0 then 0.0 else Round2(count as real / rows as real * 100.0)
  }

  function Percentages(counts: Dict<nat>, rows: nat): (p: Dict<real>)
    ensures Keys(p) == Keys(counts)
    ensures forall i :: 0 <= i < |p| ==> p[i].1 == Percent(counts[i].1, rows)
  {
    seq(|counts|, i requires 0 <= i < |counts| => (counts[i].0, Percent(counts[i].1, rows)))
  }

  function EquipmentAnalysisOf(t: Table, render: real -> string): Option<EquipmentAnalysis>
    requires WellFormed(t)
  {
    match ColumnNamed(t, "equipment_type")
    case None => None
    case Some(col) =>
      var counts := ValueCounts(PresentTexts(col, render));
      Some(EquipmentAnalysis(|counts|, counts, if counts == [] then None else Some(counts[0].0),
                             Percentages(counts, |t.rows|)))
  }

  /** The statistics of one numeric column over its present values; the std is carried as its square. */
  datatype MetricStats = MetricStats(average: real, median: real, variance: Option<real>,
                                     min: real, max: real, count: nat, missingCount: nat)

  function MetricOf(t: Table, name: string): Option<MetricStats>
    requires WellFormed(t)
  {
    match ColumnNamed(t, name)
    case None => None
    case Some(col) =>
      var xs := Numbers(col);
      if xs == [] then None
      else Some(MetricStats(Mean(xs), Median(xs), SampleVariance(xs), MinOf(xs), MaxOf(xs), |xs|, CountMissing(col)))
  }

  /** One entry per metric name, in the given order, for each metric that has a stats block. */
  function MetricsFor(t: Table, names: seq<string>): (d: Dict<MetricStats>)
    requires WellFormed(t)
    ensures forall i :: 0 <= i < |d| ==> d[i].0 in names
  {
    if names == [] then []
    else
      var rest := MetricsFor(t, names[1..]);
      assert forall i :: 0 <= i < |rest| ==> rest[i].0 in names;
      match MetricOf(t, names[0])
      case None => rest
      case Some(m) => [(names[0], m)] + rest
  }

  /** The statistics of a metric within one equipment-type group. */
  datatype GroupStats = GroupStats(mean: Flt, count: nat, variance: Option<real>)

  /** The cells of `values` in the rows whose type is present and reads `g`. */
  function InGroup(values: seq<Cell>, types: seq<Cell>, g: string, render: real -> string): (r: seq<Cell>)
    requires |values| == |types|
    ensures |r| <= |values|
  {
    if values == [] then []
    else
      var n := |values|;
      InGroup(values[..n - 1], types[..n - 1], g, render)
        + (if !types[n - 1].Missing? && ToText(types[n - 1], render) == g then [values[n - 1]] else [])
  }

  /**
   * `agg(['mean', 'count', 'std']).round(2)` within one group: the mean is
   * NaN when no value is present. The std is carried as its square, unrounded.
   */
  function GroupOf(values: seq<Cell>, types: seq<Cell>, g: string, render: real -> string): GroupStats
    requires |values| == |types|
  {
    var xs := Numbers(InGroup(values, types, g, render));
    GroupStats(if xs == [] then NaN else Fin(Round2(Mean(xs))), |xs|, SampleVariance(xs))
  }

  /**
   * `df.groupby('equipment_type')[metric]...to_dict('index')`: one entry per
   * present type, the types in ascending order (groupby sorts its keys).
   */
  function GroupsOf(values: seq<Cell>, types: seq<Cell>, render: real -> string): (d: Dict<GroupStats>)
    requires |values| == |types|
    ensures multiset(Keys(d)) == multiset(Keys(Tally(PresentTexts(types, render))))
    ensures TextsAscending(Keys(d))
    ensures forall i :: 0 <= i < |d| ==> d[i].1 == GroupOf(values, types, d[i].0, render)
  {
    GroupsOver(values, types, SortTexts(Keys(Tally(PresentTexts(types, render)))), render)
  }

  /** The group statistics of the types `ks`, in that order. */
  function GroupsOver(values: seq<Cell>, types: seq<Cell>, ks: seq<string>, render: real -> string): (d: Dict<GroupStats>)
    requires |values| == |types|
    ensures Keys(d) == ks
    ensures forall i :: 0 <= i < |d| ==> d[i].1 == GroupOf(values, types, d[i].0, render)
  {
    var d := seq(|ks|, i requires 0 <= i < |ks| => (ks[i], GroupOf(values, types, ks[i], render)));
    assert Keys(d) == ks;
    d
  }

  function DistributionFor(t: Table, types: seq<Cell>, names: seq<string>, render: real -> string): (d: Dict<Dict<GroupStats>>)
    requires WellFormed(t) && |types| == |t.rows|
  {
    if names == [] then []
    else
      var rest := DistributionFor(t, types, names[1..], render);
      match ColumnNamed(t, names[0])
      case None => rest
      case Some(col) => [(names[0] + "_by_equipment_type", GroupsOf(col, types, render))] + rest
  }

  function DistributionOf(t: Table, render: real -> string): Dict<Dict<GroupStats>>
    requires WellFormed(t)
  {
    match ColumnNamed(t, "equipment_type")
    case None => []
    case Some(types) => DistributionFor(t, types, NumericColumns, render)
  }

  datatype EquipmentSummary = EquipmentSummary(totalRecords: nat, dataQuality: DataQuality,
                                               equipmentAnalysis: Option<EquipmentAnalysis>,
                                               operationalMetrics: Dict<MetricStats>,
                                               distributionAnalysis: Dict<Dict<GroupStats>>)

  /** `calculate_equipment_summary` of a cleaned frame. */
  function CalculateEquipmentSummary(t: Table, render: real -> string): EquipmentSummary
    requires WellFormed(t)
  {
    EquipmentSummary(|t.rows|, DataQualityOf(t), EquipmentAnalysisOf(t, render),
                     MetricsFor(t, NumericColumns), DistributionOf(t, render))
  }

  lemma {:induction false} MissingInRowsBound(rows: seq<seq<Cell>>, width: nat)
    requires forall i :: 0 <= i < |rows| ==> |rows[i]| == width
    ensures Utils.MissingInRows(rows) <= |rows| * width
  {
    if rows != [] {
      MissingInRowsBound(rows[1..], width);
      assert |rows| * width == width + |rows[1..]| * width;
    }
  }

  lemma PercentOfAtMost(part: real, whole: real)
    requires 0.0 <= part <= whole && 0.0 < whole
    ensures 0.0 <= part / whole * 100.0 <= 100.0
  {
    assert part / whole <= 1.0;
  }

  /** `missing_data_by_column` has one entry per header; a repeated header reports its last column. */
  lemma MissingByColumnMeaning(t: Table)
    requires WellFormed(t)
    ensures DistinctKeys(FromPairs(t.headers, MissingCounts(t)))
    ensures forall h :: HasKey(FromPairs(t.headers, MissingCounts(t)), h) <==> h in t.headers
    ensures forall j :: 0 <= j < |t.headers| && (forall k :: j < k < |t.headers| ==> t.headers[k] != t.headers[j]) ==>
              Get(FromPairs(t.headers, MissingCounts(t)), t.headers[j]) == Some(CountMissing(Column(t, j)))
  {
    var counts := MissingCounts(t);
    FromPairsKeys(t.headers, counts);
    forall j | 0 <= j < |t.headers| && (forall k :: j < k < |t.headers| ==> t.headers[k] != t.headers[j])
      ensures Get(FromPairs(t.headers, counts), t.headers[j]) == Some(CountMissing(Column(t, j)))
    {
      FromPairsGet(t.headers, counts, j);
    }
  }

  /** The missing percentage is NaN only for an empty frame and otherwise lies in [0, 100]. */
  lemma MissingPercentageMeaning(t: Table)
    requires WellFormed(t)
    ensures var p := Utils.MissingPercentage(Utils.MissingTotal(t), |t.rows|, |t.headers|);
      && (p.Fin? <==> |t.rows| * |t.headers| > 0)
      && (p.Fin? ==> 0.0 <= p.value <= 100.0)
  {
    var cells := |t.rows| * |t.headers|;
    if cells > 0 {
      MissingInRowsBound(t.rows, |t.headers|);
      PercentOfAtMost(Utils.MissingTotal(t) as real, cells as real);
    }
  }

  /**
   * The data-quality block: complete rows never exceed the row count, the
   * missing percentage lies in [0, 100] and is NaN only for an empty frame,
   * `missing_data_by_column` has one entry per header (a repeated header
   * reporting its last column) and `columns_with_missing_data` names exactly
   * the headers of some column with a missing cell.
   */
  lemma DataQualityMeaning(t: Table)
    requires WellFormed(t)
    ensures var q := DataQualityOf(t);
      && q.totalRows == |t.rows|
      && q.completeRows <= q.totalRows
      && (q.missingPercentage.Fin? <==> |t.rows| * |t.headers| > 0)
      && (q.missingPercentage.Fin? ==> 0.0 <= q.missingPercentage.value <= 100.0)
      && DistinctKeys(q.missingByColumn)
      && (forall h :: HasKey(q.missingByColumn, h) <==> h in t.headers)
      && (forall j :: 0 <= j < |t.headers| && (forall k :: j < k < |t.headers| ==> t.headers[k] != t.headers[j]) ==>
            Get(q.missingByColumn, t.headers[j]) == Some(CountMissing(Column(t, j))))
      && (forall h :: h in q.columnsWithMissing <==>
            exists j :: 0 <= j < |t.headers| && t.headers[j] == h && CountMissing(Column(t, j)) > 0)
  {
    MissingByColumnMeaning(t);
    MissingPercentageMeaning(t);
    var counts := MissingCounts(t);
    var cwm := ColumnsWithMissing(t.headers, counts);
    assert forall h :: h in cwm <==> exists j :: 0 <= j < |t.headers| && t.headers[j] == h && counts[j] > 0;
  }

  /** Rounding a percentage keeps it within [0, 100]. */
  lemma Round2Percent(x: real)
    requires 0.0 <= x <= 100.0
    ensures 0.0 <= Round2(x) <= 100.0
  {
    var r := Round2(x);
    var n := (r * 100.0).Floor;
    assert n as real == r * 100.0;
    assert -0.5 < n as real <= 10000.5;
    assert 0 <= n <= 10000;
  }

  lemma PercentBounds(count: nat, rows: nat)
    requires count <= rows
    ensures 0.0 <= Percent(count, rows) <= 100.0
  {
    if rows > 0 {
      PercentOfAtMost(count as real, rows as real);
      Round2Percent(count as real / rows as real * 100.0);
    }
  }

  /**
   * The equipment analysis exists exactly when there is an `equipment_type`
   * column. It counts only present types: one entry per distinct type with its
   * number of occurrences, most frequent first, adding up to at most the row
   * count. The most common type is None exactly when nothing is present, and
   * otherwise occurs at least as often as any other type. Percentages follow
   * the distribution's keys and lie in [0, 100].
   */
  lemma EquipmentAnalysisMeaning(t: Table, render: real -> string)
    requires WellFormed(t)
    ensures EquipmentAnalysisOf(t, render).Some? <==> "equipment_type" in t.headers
    ensures EquipmentAnalysisOf(t, render).Some? ==>
      var a := EquipmentAnalysisOf(t, render).value;
      var xs := PresentTexts(ColumnNamed(t, "equipment_type").value, render);
      && a.totalTypes == |a.distribution|
      && SumValues(a.distribution) == |xs| <= |t.rows|
      && CountsDescending(a.distribution)
      && (forall i :: 0 <= i < |a.distribution| ==>
            a.distribution[i].0 in xs && a.distribution[i].1 == Occurrences(xs, a.distribution[i].0))
      && (forall x :: x in xs ==> HasKey(a.distribution, x))
      && (a.mostCommon.None? <==> a.distribution == [])
      && (a.mostCommon.Some? ==>
            (a.mostCommon.value in xs && forall x :: x in xs ==> Occurrences(xs, x) <= Occurrences(xs, a.mostCommon.value)))
      && Keys(a.percentages) == Keys(a.distribution)
      && (forall i :: 0 <= i < |a.percentages| ==> 0.0 <= a.percentages[i].1 <= 100.0)
  {
    if "equipment_type" in t.headers {
      var col := ColumnNamed(t, "equipment_type").value;
      var xs := PresentTexts(col, render);
      var counts := ValueCounts(xs);
      ValueCountsCorrect(xs);
      if xs != [] {
        ValueCountsFirstIsMost(xs);
      }
      var p := Percentages(counts, |t.rows|);
      forall i | 0 <= i < |p| ensures 0.0 <= p[i].1 <= 100.0 {
        PercentBounds(counts[i].1, |t.rows|);
      }
    }
  }

  /**
   * A metric has a stats block exactly when its column exists and holds a
   * value. The block then counts at least one value, its count and missing
   * count add up to the row count, the average and the median lie between
   * the minimum and the maximum, and the spread is defined exactly when two
   * or more values are present.
   */
  lemma MetricMeaning(t: Table, name: string)
    requires SummaryInput(t) && name in NumericColumns
    ensures MetricOf(t, name).Some? <==> name in t.headers && Numbers(ColumnNamed(t, name).value) != []
    ensures MetricOf(t, name).Some? ==>
      var m := MetricOf(t, name).value;
      && m.count >= 1
      && m.count + m.missingCount == |t.rows|
      && m.min <= m.average <= m.max
      && m.min <= m.median <= m.max
      && (m.variance.Some? <==> m.count >= 2)
  {
    if name in t.headers {
      var j := IndexOf(t.headers, name).value;
      var col := Column(t, j);
      NumbersPlusMissing(col);
      var xs := Numbers(col);
      if xs != [] {
        MeanBetweenMinMax(xs);
        QuantileBetweenMinMax(xs, 1, 2);
      }
    }
  }

  /** `operational_metrics` holds, for each listed metric, its stats block when it has one. */
  lemma {:induction false} MetricsForGet(t: Table, names: seq<string>, name: string)
    requires WellFormed(t)
    ensures Get(MetricsFor(t, names), name) == if name in names then MetricOf(t, name) else None
  {
    if names != [] {
      MetricsForGet(t, names[1..], name);
      assert name in names <==> name == names[0] || name in names[1..];
    }
  }

  lemma {:induction false} PresentTextsSnoc(cells: seq<Cell>, c: Cell, render: real -> string)
    ensures PresentTexts(cells + [c], render)
            == PresentTexts(cells, render) + (if c.Missing? then [] else [ToText(c, render)])
  {
    if cells == [] {
      assert [c][1..] == [];
    } else {
      assert (cells + [c])[1..] == cells[1..] + [c];
      PresentTextsSnoc(cells[1..], c, render);
    }
  }

  /** A group holds one cell per row of its type. */
  lemma {:induction false} InGroupLength(values: seq<Cell>, types: seq<Cell>, g: string, render: real -> string)
    requires |values| == |types|
    ensures |InGroup(values, types, g, render)| == Occurrences(PresentTexts(types, render), g)
  {
    if values != [] {
      var n := |values|;
      InGroupLength(values[..n - 1], types[..n - 1], g, render);
      assert types == types[..n - 1] + [types[n - 1]];
      PresentTextsSnoc(types[..n - 1], types[n - 1], render);
      var xs := PresentTexts(types, render);
      if !types[n - 1].Missing? {
        assert xs[..|xs| - 1] == PresentTexts(types[..n - 1], render);
      } else {
        assert xs == PresentTexts(types[..n - 1], render);
      }
    }
  }

  /**
   * Within the group of type `g` the count of values never exceeds the number
   * of rows of that type, the mean is NaN exactly when the group has no
   * value, and the spread is defined exactly when it has two or more.
   */
  lemma GroupOfMeaning(values: seq<Cell>, types: seq<Cell>, g: string, render: real -> string)
    requires |values| == |types|
    ensures var s := GroupOf(values, types, g, render);
      && s.count <= Occurrences(PresentTexts(types, render), g)
      && (s.mean.NaN? <==> s.count == 0)
      && (s.variance.Some? <==> s.count >= 2)
  {
    InGroupLength(values, types, g, render);
  }

  /** The groups are the present types, each once. */
  lemma GroupKeys(values: seq<Cell>, types: seq<Cell>, render: real -> string)
    requires |values| == |types|
    ensures DistinctKeys(GroupsOf(values, types, render))
    ensures forall g :: HasKey(GroupsOf(values, types, render), g) <==> g in PresentTexts(types, render)
  {
    var xs := PresentTexts(types, render);
    var e := Tally(xs);
    TallyDistinct(xs);
    TallyEntries(xs);
    var ks := SortTexts(Keys(e));
    SortedKeys(e, ks);
    KeysAre(GroupsOver(values, types, ks, render), ks);
  }

  /** The sorted keys of a dict are its keys, distinct when the dict's are. */
  lemma SortedKeys<W>(e: Dict<W>, ks: seq<string>)
    requires ks == SortTexts(Keys(e))
    ensures DistinctKeys(e) ==> DistinctTexts(ks)
    ensures forall g :: g in ks <==> HasKey(e, g)
  {
    assert forall i :: 0 <= i < |e| ==> Keys(e)[i] == e[i].0;
    forall g ensures g in ks <==> HasKey(e, g) {
      if g in Keys(e) {
        var j :| 0 <= j < |e| && Keys(e)[j] == g;
        assert e[j].0 == g;
      }
      if HasKey(e, g) {
        var j :| 0 <= j < |e| && e[j].0 == g;
        assert Keys(e)[j] == g;
      }
    }
  }

  /** A dict whose key sequence is `ks` has exactly its elements as keys, distinct when they are. */
  lemma KeysAre<V>(d: Dict<V>, ks: seq<string>)
    requires Keys(d) == ks
    ensures DistinctTexts(ks) ==> DistinctKeys(d)
    ensures forall g :: HasKey(d, g) <==> g in ks
  {
    assert forall i :: 0 <= i < |d| ==> d[i].0 == ks[i];
    forall g ensures HasKey(d, g) <==> g in ks {
      if g in ks {
        var i :| 0 <= i < |ks| && ks[i] == g;
        assert d[i].0 == g;
      }
    }
  }

  lemma SuffixCancel(a: string, b: string, s: string)
    requires a + s == b + s
    ensures a == b
  {
    assert |a| == |b|;
    assert a == (a + s)[..|a|];
    assert b == (b + s)[..|b|];
  }

  /** The distribution block has an entry `<metric>_by_equipment_type` for each listed metric that is a column, and nothing else. */
  lemma {:induction false} DistributionForGet(t: Table, types: seq<Cell>, names: seq<string>, m: string, render: real -> string)
    requires WellFormed(t) && |types| == |t.rows|
    ensures Get(DistributionFor(t, types, names, render), m + "_by_equipment_type")
            == if m in names && m in t.headers then Some(GroupsOf(ColumnNamed(t, m).value, types, render)) else None
  {
    if names != [] {
      DistributionForGet(t, types, names[1..], m, render);
      assert m in names <==> m == names[0] || m in names[1..];
      if names[0] + "_by_equipment_type" == m + "_by_equipment_type" {
        SuffixCancel(names[0], m, "_by_equipment_type");
      }
    }
  }

  /**
   * `distribution_analysis` is empty without an `equipment_type` column and
   * otherwise holds, for each metric that is a column, the per-type groups of
   * that metric. Those groups are keyed by exactly the types of the
   * equipment analysis.
   */
  lemma DistributionMeaning(t: Table, m: string, render: real -> string)
    requires WellFormed(t)
    ensures "equipment_type" !in t.headers ==> DistributionOf(t, render) == []
    ensures "equipment_type" in t.headers ==>
      var types := ColumnNamed(t, "equipment_type").value;
      Get(DistributionOf(t, render), m + "_by_equipment_type")
        == if m in NumericColumns && m in t.headers then Some(GroupsOf(ColumnNamed(t, m).value, types, render)) else None
    ensures "equipment_type" in t.headers && m in t.headers ==>
      forall g :: HasKey(GroupsOf(ColumnNamed(t, m).value, ColumnNamed(t, "equipment_type").value, render), g)
                  <==> HasKey(EquipmentAnalysisOf(t, render).value.distribution, g)
  {
    if "equipment_type" in t.headers {
      var types := ColumnNamed(t, "equipment_type").value;
      DistributionForGet(t, types, NumericColumns, m, render);
      EquipmentAnalysisMeaning(t, render);
      if m in t.headers {
        GroupKeys(ColumnNamed(t, m).value, types, render);
        var d := EquipmentAnalysisOf(t, render).value.distribution;
        forall g | HasKey(d, g) ensures g in PresentTexts(types, render) {
          var i :| 0 <= i < |d| && d[i].0 == g;
        }
      }
    }
  }

  // ---------------------------------------------------------------------
  // process_equipment_csv

  /** What `pd.read_csv` gives: a frame, or one of the errors it raises. */
  datatype CsvRead =
    | Parsed(table: Table)
    | EmptyData
    | ParserFailure(message: string)
    | ReadFailure(message: string)

  const ParserErrorPrefix := "CSV parsing error: "

  /** The two exception types `process_equipment_csv` lets escape. */
  datatype Failure = ValidationError(message: string) | ValueError(message: string)

  datatype FileInfo = FileInfo(fileName: string, originalColumns: seq<string>,
                               standardizedColumns: seq<string>, rowsProcessed: nat)

  /** The summary with the `validation` and `file_info` entries added. */
  datatype ProcessedSummary = ProcessedSummary(summary: EquipmentSummary, validation: Validation, fileInfo: FileInfo)

  datatype Processing = Processed(cleaned: Table, stats: ProcessedSummary) | Raised(failure: Failure)

  /** `str(ValidationError(m))` for Django's ValidationError: the repr of the one-message list. */
  function ValidationErrorText(m: string): string {
    "[" + Repr(m) + "]"
  }

  /** The message of the ValidationError raised inside the try for a parsed frame, if any. */
  function RejectionOf(t: Table): Option<string> {
    if IsEmpty(t) then Some("CSV file is empty")
    else
      var v := ValidationOf(t.headers);
      if v.isValid then None else Some("CSV validation failed:\n" + Join(v.errors, "\n"))
  }

  /** The validated, cleaned and summarised frame, or the text of what the cleaner raised. */
  function Pipeline(t: Table, fileName: string, render: real -> string, cleanFailure: string -> string): Processing
    requires WellFormed(t) && RejectionOf(t).None?
  {
    var v := ValidationOf(t.headers);
    match CleanTable(t, v.columnMapping, render)
    case Err(col) => Raised(ValueError("Error processing CSV file: " + cleanFailure(col)))
    case Ok(c) =>
      CleanTableShape(t, v.columnMapping, render);
      Processed(c, ProcessedSummary(CalculateEquipmentSummary(c, render), v,
                                    FileInfo(fileName, t.headers, c.headers, |c.rows|)))
  }

  /**
   * `process_equipment_csv` as written: the ValidationErrors raised for an
   * empty frame and for failed validation are raised inside the `try` and
   * re-raised by the catch-all handler as ValueError.
   * `cleanFailure(col)` is the text of the exception pandas raises when the
   * handled name `col` labels more than one column.
   */
  function ProcessEquipmentCsvAsWritten(read: CsvRead, fileName: string, render: real -> string,
                                        cleanFailure: string -> string): Processing
    requires read.Parsed? ==> WellFormed(read.table)
  {
    match read
    case EmptyData => Raised(ValidationError("CSV file is empty or corrupted"))
    case ParserFailure(e) => Raised(ValidationError(ParserErrorPrefix + e))
    case ReadFailure(e) => Raised(ValueError("Error processing CSV file: " + e))
    case Parsed(t) =>
      match RejectionOf(t)
      case Some(m) => Raised(ValueError("Error processing CSV file: " + ValidationErrorText(m)))
      case None => Pipeline(t, fileName, render, cleanFailure)
  }

  /** `process_equipment_csv` as its documentation states it: a failed check escapes as ValidationError. */
  function ProcessEquipmentCsv(read: CsvRead, fileName: string, render: real -> string,
                               cleanFailure: string -> string): Processing
    requires read.Parsed? ==> WellFormed(read.table)
  {
    match read
    case EmptyData => Raised(ValidationError("CSV file is empty or corrupted"))
    case ParserFailure(e) => Raised(ValidationError(ParserErrorPrefix + e))
    case ReadFailure(e) => Raised(ValueError("Error processing CSV file: " + e))
    case Parsed(t) =>
      match RejectionOf(t)
      case Some(m) => Raised(ValidationError(m))
      case None => Pipeline(t, fileName, render, cleanFailure)
  }

  /**
   * Processing succeeds exactly for a non-empty frame whose required columns
   * all resolve and whose handled names each label one column. Its result is
   * then the cleaned frame, with all rows kept, ready for the summary, and
   * the summary carries the passed validation and the original and
   * standardised headers. A failed check raises ValidationError with the
   * empty-file message or the validation errors one per line.
   */
  lemma ProcessEquipmentCsvOutcome(read: CsvRead, fileName: string, render: real -> string,
                                   cleanFailure: string -> string)
    requires read.Parsed? ==> WellFormed(read.table)
    ensures var r := ProcessEquipmentCsv(read, fileName, render, cleanFailure);
      && (r.Processed? <==> read.Parsed? && !IsEmpty(read.table) && ValidationOf(read.table.headers).isValid
                            && CleanTable(read.table, ValidationOf(read.table.headers).columnMapping, render).Ok?)
      && (r.Processed? ==>
            && r.cleaned == CleanTable(read.table, ValidationOf(read.table.headers).columnMapping, render).value
            && SummaryInput(r.cleaned)
            && |r.cleaned.rows| == |read.table.rows|
            && r.stats.summary.totalRecords == |read.table.rows|
            && r.stats.validation.isValid
            && r.stats.fileInfo.originalColumns == read.table.headers
            && r.stats.fileInfo.standardizedColumns == r.cleaned.headers
            && r.stats.fileInfo.rowsProcessed == |read.table.rows|)
      && (read.Parsed? && IsEmpty(read.table) ==> r == Raised(ValidationError("CSV file is empty")))
      && (read.Parsed? && !IsEmpty(read.table) && !ValidationOf(read.table.headers).isValid ==>
            r == Raised(ValidationError("CSV validation failed:\n" + Join(ValidationOf(read.table.headers).errors, "\n"))))
  {
    if read.Parsed? && RejectionOf(read.table).None? {
      var t := read.table;
      var v := ValidationOf(t.headers);
      if CleanTable(t, v.columnMapping, render).Ok? {
        CleanTableShape(t, v.columnMapping, render);
        CleanedIsSummaryInput(t, v.columnMapping, render);
      }
    }
  }

  /** The two versions differ only where a failed check is raised inside the `try`. */
  lemma AsWrittenAgreesOtherwise(read: CsvRead, fileName: string, render: real -> string,
                                 cleanFailure: string -> string)
    requires read.Parsed? ==> WellFormed(read.table)
    ensures !(read.Parsed? && RejectionOf(read.table).Some?) ==>
      ProcessEquipmentCsvAsWritten(read, fileName, render, cleanFailure) == ProcessEquipmentCsv(read, fileName, render, cleanFailure)
    ensures read.Parsed? && RejectionOf(read.table).Some? ==>
      && ProcessEquipmentCsv(read, fileName, render, cleanFailure) == Raised(ValidationError(RejectionOf(read.table).value))
      && ProcessEquipmentCsvAsWritten(read, fileName, render, cleanFailure)
         == Raised(ValueError("Error processing CSV file: " + ValidationErrorText(RejectionOf(read.table).value)))
  {
  }

  /** A message with no quote, backslash or control character is shown as `['message']`. */
  lemma ValidationErrorTextPlain(m: string)
    requires forall i :: 0 <= i < |m| ==> m[i] != '\'' && m[i] != '\\' && ' ' <= m[i] && m[i] != '\U{7F}'
    ensures ValidationErrorText(m) == "['" + m + "']"
  {
    ReprPlain(m);
  }

  /**
   * A frame with a header row and no data rows: as written it surfaces as a
   * ValueError, where the documented behaviour is a ValidationError.
   */
  lemma AsWrittenEmptyFrame(fileName: string, render: real -> string, cleanFailure: string -> string)
    ensures ProcessEquipmentCsvAsWritten(Parsed(Table(["equipment_id"], [])), fileName, render, cleanFailure).failure.ValueError?
    ensures ProcessEquipmentCsv(Parsed(Table(["equipment_id"], [])), fileName, render, cleanFailure)
            == Raised(ValidationError("CSV file is empty"))
  {
    var t := Table(["equipment_id"], []);
    assert RejectionOf(t) == Some("CSV file is empty");
  }

  // ---------------------------------------------------------------------
  // get_equipment_data_preview

  /** After a successful validation some column is renamed to `equipment_id`. */
  lemma EquipmentIdRenamed(headers: seq<string>) returns (i: nat)
    requires ValidationOf(headers).isValid
    ensures i < |headers| && RenamedHeaders(headers, ValidationOf(headers).columnMapping)[i] == "equipment_id"
  {
    ValidationOutcome(headers);
    assert Resolve(headers, RequiredColumns[0].1).Some?;
    i :| 0 <= i < |headers| && headers[i] == Resolve(headers, RequiredColumns[0].1).value;
    RenamedResolved(headers, 0, i);
  }

  /** The cleaned `equipment_id` column holds text in every row. */
  lemma CleanedIdIsText(t: Table, mapping: Dict<string>, render: real -> string, i: nat, k: nat)
    requires WellFormed(t) && k < |t.rows| && i < |t.headers|
    requires RenamedHeaders(t.headers, mapping)[i] == "equipment_id"
    requires CleanTable(t, mapping, render).Ok?
    ensures CleanTable(t, mapping, render).value.rows[k][i].Str?
  {
    CleanTableShape(t, mapping, render);
    CleanTextCell("equipment_id", t.rows[k][i], render);
  }

  /**
   * A cleaned frame with rows always has an `object` column: the
   * `equipment_id` column, which the cleaner turns into stripped text.
   */
  lemma CleanedHasObjectColumn(t: Table, render: real -> string)
    requires WellFormed(t) && |t.rows| > 0
    requires ValidationOf(t.headers).isValid
    requires CleanTable(t, ValidationOf(t.headers).columnMapping, render).Ok?
    ensures Utils.HasObjectColumn(CleanTable(t, ValidationOf(t.headers).columnMapping, render).value)
  {
    var mapping := ValidationOf(t.headers).columnMapping;
    var i := EquipmentIdRenamed(t.headers);
    CleanedIdIsText(t, mapping, render, i, 0);
    var c := CleanTable(t, mapping, render).value;
    CleanTableShape(t, mapping, render);
    assert Column(c, i)[0].Str?;
  }

  datatype EquipmentPreview = EquipmentPreview(columns: seq<string>, data: seq<Dict<Py>>,
                                               totalRowsShown: nat, totalRowsInDataset: nat)

  /**
   * `p` previews `t`: its columns, the first `rows` rows (as `head` counts
   * them) each as a column-to-value dict, and the size of the whole frame.
   */
  predicate IsPreviewOf(p: EquipmentPreview, t: Table, rows: int, render: real -> string) {
    && WellFormed(t)
    && p.columns == t.headers
    && p.totalRowsShown == |p.data| == Utils.HeadCount(rows, |t.rows|)
    && p.totalRowsShown <= p.totalRowsInDataset == |t.rows|
    && forall i :: 0 <= i < |p.data| ==> p.data[i] == Utils.RowData(t.headers, t.rows[i], Utils.HasObjectColumn(t), render)
  }

  /** Whether some column label occurs twice, so that `row[col]` is a Series and not a value. */
  predicate HasDuplicateHeader(headers: seq<string>) {
    exists j :: 0 <= j < |headers| && Duplicated(headers, headers[j])
  }

  /** A label is duplicated somewhere exactly when the labels are not all distinct. */
  lemma DuplicateHeaderMeaning(headers: seq<string>)
    ensures HasDuplicateHeader(headers) <==> !DistinctTexts(headers)
  {
    if HasDuplicateHeader(headers) {
      var j :| 0 <= j < |headers| && Duplicated(headers, headers[j]);
      var k := IndexOf(headers, headers[j]).value;
      var m :| 0 <= m < |headers[k + 1..]| && headers[k + 1..][m] == headers[j];
      assert headers[k] == headers[k + 1 + m];
    }
    if !DistinctTexts(headers) {
      var a, b :| 0 <= a < b < |headers| && headers[a] == headers[b];
      var k := IndexOf(headers, headers[a]).value;
      assert k <= a < b;
      assert headers[k + 1..][b - k - 1] == headers[b];
      assert Duplicated(headers, headers[a]);
    }
  }

  /** Each field's canonical name is its first alias and starts and ends with a letter. */
  lemma CanonicalEnds()
    ensures forall a :: 0 <= a < |AllColumns| ==>
      && AllColumns[a].1 != [] && AllColumns[a].1[0] == AllColumns[a].0 && AllColumns[a].0 != []
      && IsLower(AllColumns[a].0[0]) && IsLower(AllColumns[a].0[|AllColumns[a].0| - 1])
  {
  }

  /** A canonical name is its own normalised header. */
  lemma CanonicalNormalised(a: nat)
    requires a < |AllColumns|
    ensures AllColumns[a].1 != [] && AllColumns[a].1[0] == AllColumns[a].0
    ensures Strip(Lower(AllColumns[a].0)) == AllColumns[a].0
  {
    CanonicalEnds();
    AliasNames();
    var s := AllColumns[a].0;
    assert forall i :: 0 <= i < |s| ==> !IsUpper(s[i]);
    LowerOfLowercase(s);
    StripClean(s);
  }

  /** Only a field itself can resolve to a header spelled as its canonical name. */
  lemma CanonicalOwner(headers: seq<string>, a: nat, b: nat)
    requires a < |AllColumns| && b < |AllColumns|
    requires Resolve(headers, AllColumns[b].1) == Some(AllColumns[a].0)
    ensures b == a
  {
    var x, k := ResolvedAlias(headers, b);
    CanonicalNormalised(a);
    assert AllColumns[b].1[x] == AllColumns[a].1[0];
    AliasOwners();
  }

  /**
   * A column already called by a field's canonical name, next to the header
   * that field resolves to, ends up sharing that name after the rename: the
   * resolved header becomes the canonical name and the other column keeps it.
   * With `Location` and `location` both present, for instance, the location
   * field resolves to `Location`, and the frame then has two `location`
   * columns.
   */
  lemma CanonicalNameTwice(headers: seq<string>, a: nat, i: nat, j: nat)
    requires a < |AllColumns| && i < |headers| && j < |headers|
    requires Resolve(headers, AllColumns[a].1) == Some(headers[i])
    requires headers[j] == AllColumns[a].0 && headers[i] != headers[j]
    ensures var r := RenamedHeaders(headers, ValidationOf(headers).columnMapping);
      r[i] == AllColumns[a].0 && r[j] == AllColumns[a].0
  {
    RenamedResolved(headers, a, i);
    assert forall b :: 0 <= b < |AllColumns| ==> Resolve(headers, AllColumns[b].1) != Some(headers[j]) by {
      forall b | 0 <= b < |AllColumns| && Resolve(headers, AllColumns[b].1) == Some(headers[j])
        ensures false
      {
        CanonicalOwner(headers, a, b);
      }
    }
    RenamedOther(headers, j);
  }

  /** So the renamed headers are not distinct. */
  lemma CanonicalNameRepeated(headers: seq<string>, a: nat, i: nat, j: nat)
    requires a < |AllColumns| && i < |headers| && j < |headers|
    requires Resolve(headers, AllColumns[a].1) == Some(headers[i])
    requires headers[j] == AllColumns[a].0 && headers[i] != headers[j]
    ensures !DistinctTexts(RenamedHeaders(headers, ValidationOf(headers).columnMapping))
  {
    CanonicalNameTwice(headers, a, i, j);
    RepeatedText(RenamedHeaders(headers, ValidationOf(headers).columnMapping), i, j);
  }

  /**
   * What pandas raises at `if pd.isna(value)` when `value` is a Series:
   * a Series has no single truth value.
   */
  const AmbiguousSeriesTruth := "The truth value of a Series is ambiguous. Use a.empty, a.bool(), a.item(), a.any() or a.all()."

  /**
   * `get_equipment_data_preview`: the general preview plus the size of the
   * whole frame. When a label names two columns and a row is kept, the
   * first row's `row[col]` is a Series and the NaN test raises ValueError.
   */
  method GetEquipmentDataPreview(t: Table, rows: int, render: real -> string) returns (p: Result<EquipmentPreview>)
    requires WellFormed(t)
    ensures p.Err? <==> Utils.HeadCount(rows, |t.rows|) > 0 && !DistinctTexts(t.headers)
    ensures p.Err? ==> p.message == AmbiguousSeriesTruth
    ensures p.Ok? ==> IsPreviewOf(p.value, t, rows, render)
  {
    DuplicateHeaderMeaning(t.headers);
    if Utils.HeadCount(rows, |t.rows|) > 0 && HasDuplicateHeader(t.headers) {
      return Err(AmbiguousSeriesTruth);
    }
    var data := Utils.PreviewRows(t, rows, render);
    p := Ok(EquipmentPreview(t.headers, data, |data|, |t.rows|));
  }
}
