/**
 * The upload serializer's file check and the data-summary serializer's
 * normalised representation.
 */
module Serializers {
  import opened Common
  import opened Text
  import opened Py
  import Utils

  /** The upload size limit: 10 MiB. */
  const MaxUploadSize: nat := 10 * 1024 * 1024

  const AllowedExtensions: seq<string> := [".csv", ".json", ".xlsx", ".xls"]

  const SizeError := "File size cannot exceed 10MB"
  const TypeError := "File type not supported. Allowed types: " + Join(AllowedExtensions, ", ")

  /** The outcome of a serializer's field validator. */
  datatype Check = Accepted | Rejected(message: string)

  /** `name.lower().split('.')[-1]`, with the dot put back in front. */
  function DottedExtension(name: string): string {
    "." + Utils.FileExtension(name)
  }

  /** `DatasetUploadSerializer.validate_file`: the size is checked before the extension. */
  function ValidateFile(name: string, size: int): (r: Check)
    ensures size > MaxUploadSize ==> r == Rejected(SizeError)
    ensures size <= MaxUploadSize ==> (r.Accepted? <==> DottedExtension(name) in AllowedExtensions)
    ensures r.Rejected? ==> r.message == SizeError || r.message == TypeError
  {
    if size > MaxUploadSize then Rejected(SizeError)
    else if DottedExtension(name) !in AllowedExtensions then Rejected(TypeError)
    else Accepted
  }

  /** With the dot put back, the allowed extensions are exactly the ones a reader exists for. */
  lemma DottedAllowed(ext: string)
    ensures "." + ext in AllowedExtensions <==> Utils.ReaderFor(ext).Some?
  {
    var d := "." + ext;
    assert d[1..] == ext;
    if d in AllowedExtensions {
      var i :| 0 <= i < |AllowedExtensions| && AllowedExtensions[i] == d;
      assert ext == AllowedExtensions[i][1..];
    }
    if ext == "csv" { assert d == ".csv"; }
    if ext == "json" { assert d == ".json"; }
    if ext == "xlsx" { assert d == ".xlsx"; }
    if ext == "xls" { assert d == ".xls"; }
  }

  /** Every file the serializer accepts has a reader in `process_uploaded_file`, and conversely. */
  lemma AcceptedFilesAreReadable(name: string, size: int)
    requires size <= MaxUploadSize
    ensures ValidateFile(name, size).Accepted? <==> Utils.ReaderFor(Utils.FileExtension(name)).Some?
  {
    DottedAllowed(Utils.FileExtension(name));
  }

  /**
   * A name without any dot is its own extension: a file called `csv`
   * (in any case) passes the check.
   */
  lemma DotlessNameAccepted(name: string, size: int)
    requires '.' !in name && Lower(name) == "csv" && size <= MaxUploadSize
    ensures ValidateFile(name, size).Accepted?
  {
    var l := Lower(name);
    assert '.' !in l by {
      forall i | 0 <= i < |l| ensures l[i] != '.' {
        assert l[i] == LowerChar(name[i]);
      }
    }
    DotFreeSegment(l);
    AcceptedFilesAreReadable(name, size);
  }

  /** The text after the last dot of a dot-free string is all of it. */
  lemma {:induction false} DotFreeSegment(s: string)
    requires '.' !in s
    ensures LastSegment(s, '.') == s
  {
    if s != [] {
      assert '.' !in s[..|s| - 1];
      DotFreeSegment(s[..|s| - 1]);
      assert s[..|s| - 1] + [s[|s| - 1]] == s;
    }
  }

  // ---------------------------------------------------------------------
  // DataSummarySerializer.to_representation

  const RequiredAverageKeys: seq<string> := ["flowrate", "pressure", "temperature"]

  /** The `averages` dict of the serialized data, empty when the key is absent. */
  function AveragesOf(data: Dict<Py>): Dict<Py>
    requires HasKey(data, "averages") ==> Get(data, "averages").value.PDict?
  {
    if HasKey(data, "averages") then Get(data, "averages").value.entries else []
  }

  /** Adding a missing key with None keeps the loop's invariant about the keys added so far. */
  lemma FillStep(d: Dict<Py>, filled: Dict<Py>, key: string, done: seq<string>)
    requires !HasKey(filled, key)
    requires forall k :: HasKey(d, k) ==> Get(filled, k) == Get(d, k)
    requires forall k :: !HasKey(d, k) && HasKey(filled, k) ==> k in done && Get(filled, k) == Some(PNone)
    ensures HasKey(Put(filled, key, PNone), key)
    ensures forall k :: HasKey(filled, k) ==> HasKey(Put(filled, key, PNone), k)
    ensures forall k :: HasKey(d, k) ==> Get(Put(filled, key, PNone), k) == Get(d, k)
    ensures forall k :: !HasKey(d, k) && HasKey(Put(filled, key, PNone), k) ==>
              k in done + [key] && Get(Put(filled, key, PNone), k) == Some(PNone)
  {
    var after := Put(filled, key, PNone);
    PutGet(filled, key, PNone);
    forall k | k != key ensures Get(after, k) == Get(filled, k) && (HasKey(after, k) <==> HasKey(filled, k)) {
    }
  }

  /** The loop adding each of `keys` that `d` lacks, with the value None. */
  method FillMissing(d: Dict<Py>, keys: seq<string>) returns (filled: Dict<Py>)
    ensures forall k :: k in keys ==> HasKey(filled, k)
    ensures forall k :: HasKey(d, k) ==> Get(filled, k) == Get(d, k)
    ensures forall k :: !HasKey(d, k) && HasKey(filled, k) ==> k in keys && Get(filled, k) == Some(PNone)
  {
    filled := d;
    for i := 0 to |keys|
      invariant forall j :: 0 <= j < i ==> HasKey(filled, keys[j])
      invariant forall k :: HasKey(d, k) ==> Get(filled, k) == Get(d, k)
      invariant forall k :: !HasKey(d, k) && HasKey(filled, k) ==> k in keys[..i] && Get(filled, k) == Some(PNone)
    {
      var key := keys[i];
      assert keys[..i + 1] == keys[..i] + [key];
      if !HasKey(filled, key) {
        FillStep(d, filled, key, keys[..i]);
        filled := Put(filled, key, PNone);
      }
    }
    assert keys[..|keys|] == keys;
  }

  /**
   * `to_representation`, given the dict the base serializer produced:
   * `averages` gains the three required keys (None when absent) and
   * `equipment_type_distribution` is added as `{}` when missing. Present
   * values are left untouched.
   */
  method ToRepresentation(data: Dict<Py>) returns (out: Dict<Py>)
    requires HasKey(data, "averages") ==> Get(data, "averages").value.PDict?
    ensures HasKey(out, "averages") && Get(out, "averages").value.PDict?
    ensures var a := Get(out, "averages").value.entries;
      && (forall k :: k in RequiredAverageKeys ==> HasKey(a, k))
      && (forall k :: HasKey(AveragesOf(data), k) ==> Get(a, k) == Get(AveragesOf(data), k))
      && (forall k :: !HasKey(AveragesOf(data), k) && HasKey(a, k) ==> k in RequiredAverageKeys && Get(a, k) == Some(PNone))
    ensures HasKey(out, "equipment_type_distribution")
    ensures HasKey(data, "equipment_type_distribution") ==>
      Get(out, "equipment_type_distribution") == Get(data, "equipment_type_distribution")
    ensures !HasKey(data, "equipment_type_distribution") ==> Get(out, "equipment_type_distribution") == Some(PDict([]))
    ensures forall k :: k != "averages" && k != "equipment_type_distribution" ==> Get(out, k) == Get(data, k)
  {
    var filled := FillMissing(AveragesOf(data), RequiredAverageKeys);
    PutGet(data, "averages", PDict(filled));
    out := Put(data, "averages", PDict(filled));
    if !HasKey(out, "equipment_type_distribution") {
      PutGet(out, "equipment_type_distribution", PDict([]));
      out := Put(out, "equipment_type_distribution", PDict([]));
    }
  }
}
