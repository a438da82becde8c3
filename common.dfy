/** Shared vocabulary: an optional value and Python's insertion-ordered dict. */
module Common {

  datatype Option<+T> = None | Some(value: T) {
    function GetOr(default: T): T {
      match this
      case Some(v) => v
      case None => default
    }
  }

  /** A value, or the message of the exception raised instead. */
  datatype Result<+T> = Ok(value: T) | Err(message: string)

  /** A Python dict with string keys, kept as an association list in insertion order. */
  type Dict<V> = seq<(string, V)>

  function Keys<V>(d: Dict<V>): (ks: seq<string>)
    ensures |ks| == |d|
    ensures forall i :: 0 <= i < |d| ==> ks[i] == d[i].0
  {
    if d == [] then [] else [d[0].0] + Keys(d[1..])
  }

  /** No key occurs twice, which every real dict satisfies. */
  ghost predicate DistinctKeys<K, V>(d: seq<(K, V)>) {
    forall i, j :: 0 <= i < j < |d| ==> d[i].0 != d[j].0
  }

  predicate HasKey<V>(d: Dict<V>, k: string) {
    exists i :: 0 <= i < |d| && d[i].0 == k
  }

  /** `d.get(k)`: the value stored under the first entry with key `k`. */
  function Get<V>(d: Dict<V>, k: string): (r: Option<V>)
    ensures r.None? <==> !HasKey(d, k)
    ensures r.Some? ==> exists i :: 0 <= i < |d| && d[i] == (k, r.value)
  {
    if d == [] then None
    else if d[0].0 == k then Some(d[0].1)
    else
      var r := Get(d[1..], k);
      assert HasKey(d, k) <==> HasKey(d[1..], k) by {
        if HasKey(d, k) {
          var i :| 0 <= i < |d| && d[i].0 == k;
          assert i > 0 && d[1..][i - 1].0 == k;
        }
        if HasKey(d[1..], k) {
          var i :| 0 <= i < |d[1..]| && d[1..][i].0 == k;
          assert d[i + 1].0 == k;
        }
      }
      if r.Some? then
        assert exists i :: 0 <= i < |d| && d[i] == (k, r.value) by {
          var i :| 0 <= i < |d[1..]| && d[1..][i] == (k, r.value);
          assert d[i + 1] == (k, r.value);
        }
        r
      else r
  }

  /** `d.get(k, default)`. */
  function GetOr<V>(d: Dict<V>, k: string, default: V): V {
    Get(d, k).GetOr(default)
  }

  /**
   * `d[k] = v`: overwrite the value in place when the key is present,
   * otherwise append a new last entry.
   */
  function Put<V>(d: Dict<V>, k: string, v: V): (r: Dict<V>)
    ensures |r| == if HasKey(d, k) then |d| else |d| + 1
  {
    if d == [] then [(k, v)]
    else if d[0].0 == k then [(k, v)] + d[1..]
    else
      HasKeyTail(d, k);
      [d[0]] + Put(d[1..], k, v)
  }

  lemma HasKeyTail<V>(d: Dict<V>, k: string)
    requires d != [] && d[0].0 != k
    ensures HasKey(d, k) <==> HasKey(d[1..], k)
  {
    if HasKey(d, k) {
      var i :| 0 <= i < |d| && d[i].0 == k;
      assert d[1..][i - 1].0 == k;
    }
    if HasKey(d[1..], k) {
      var i :| 0 <= i < |d[1..]| && d[1..][i].0 == k;
      assert d[i + 1].0 == k;
    }
  }

  /** After `d[k] = v`, `k` reads back as `v` and every other key is untouched. */
  lemma {:induction false} PutGet<V>(d: Dict<V>, k: string, v: V)
    ensures Get(Put(d, k, v), k) == Some(v)
    ensures forall k' :: k' != k ==> Get(Put(d, k, v), k') == Get(d, k')
  {
    if d != [] && d[0].0 != k {
      PutGet(d[1..], k, v);
    }
  }

  /** `d[k] = v` keeps the key order and appends a new key at the end. */
  lemma {:induction false} PutKeys<V>(d: Dict<V>, k: string, v: V)
    ensures HasKey(d, k) ==> Keys(Put(d, k, v)) == Keys(d)
    ensures !HasKey(d, k) ==> Keys(Put(d, k, v)) == Keys(d) + [k]
  {
    if d != [] && d[0].0 != k {
      HasKeyTail(d, k);
      PutKeys(d[1..], k, v);
      assert Keys(Put(d, k, v)) == [d[0].0] + Keys(Put(d[1..], k, v));
    }
  }

  /** Assigning a new key appends it. */
  lemma {:induction false} PutNew<V>(d: Dict<V>, k: string, v: V)
    requires !HasKey(d, k)
    ensures Put(d, k, v) == d + [(k, v)]
  {
    if d != [] {
      HasKeyTail(d, k);
      PutNew(d[1..], k, v);
      assert d == [d[0]] + d[1..];
    }
  }

  /** Assigning a key present at position i replaces that entry's value. */
  lemma {:induction false} PutAt<V>(d: Dict<V>, i: nat, v: V)
    requires i < |d| && forall j :: 0 <= j < i ==> d[j].0 != d[i].0
    ensures Put(d, d[i].0, v) == d[i := (d[i].0, v)]
  {
    if i > 0 {
      var t := d[1..];
      assert forall j :: 0 <= j < i - 1 ==> t[j] == d[j + 1];
      PutAt(t, i - 1, v);
      assert d[i := (d[i].0, v)] == [d[0]] + t[i - 1 := (d[i].0, v)];
    }
  }

  lemma {:induction false} PutDistinct<V>(d: Dict<V>, k: string, v: V)
    requires DistinctKeys(d)
    ensures DistinctKeys(Put(d, k, v))
  {
    PutKeys(d, k, v);
    var r := Put(d, k, v);
    forall i, j | 0 <= i < j < |r| ensures r[i].0 != r[j].0 {
      assert r[i].0 == Keys(r)[i] && r[j].0 == Keys(r)[j];
      if !HasKey(d, k) && j == |d| {
        assert Keys(r)[i] == Keys(d)[i] == d[i].0;
      } else {
        assert Keys(r)[i] == d[i].0 && Keys(r)[j] == d[j].0;
      }
    }
  }

  /** With distinct keys, every entry is the one `Get` finds for its key. */
  lemma {:induction false} GetDistinct<V>(d: Dict<V>, i: nat)
    requires DistinctKeys(d) && i < |d|
    ensures Get(d, d[i].0) == Some(d[i].1)
  {
    if i > 0 {
      assert d[0].0 != d[i].0;
      assert DistinctKeys(d[1..]) by {
        forall a, b | 0 <= a < b < |d[1..]| ensures d[1..][a].0 != d[1..][b].0 {
          assert d[1..][a] == d[a + 1] && d[1..][b] == d[b + 1];
        }
      }
      GetDistinct(d[1..], i - 1);
      assert d[1..][i - 1] == d[i];
    }
  }

  /** `[f(x) for x in xs]`. */
  function Mapped<A, B>(xs: seq<A>, f: A -> B): (r: seq<B>)
    ensures |r| == |xs|
    ensures forall k :: 0 <= k < |xs| ==> r[k] == f(xs[k])
  {
    if xs == [] then [] else Mapped(xs[..|xs| - 1], f) + [f(xs[|xs| - 1])]
  }

  lemma MappedSnoc<A, B>(xs: seq<A>, x: A, f: A -> B)
    ensures Mapped(xs + [x], f) == Mapped(xs, f) + [f(x)]
  {
    assert (xs + [x])[..|xs|] == xs;
  }

  /**
   * The dict a loop over `d.items()` fills with `r[k] = f(v)` for the
   * entries `keep` accepts.
   */
  function Select<V, W>(d: Dict<V>, keep: V -> bool, f: V -> W): Dict<W>
    decreases |d|
  {
    if d == [] then []
    else
      var p := Select(d[..|d| - 1], keep, f);
      var (k, v) := d[|d| - 1];
      if keep(v) then Put(p, k, f(v)) else p
  }

  /** With distinct keys, `Select` holds exactly the accepted entries, transformed. */
  lemma {:induction false} SelectGet<V, W>(d: Dict<V>, keep: V -> bool, f: V -> W)
    requires DistinctKeys(d)
    ensures forall k :: HasKey(Select(d, keep, f), k) ==> HasKey(d, k)
    ensures forall i :: 0 <= i < |d| ==>
      Get(Select(d, keep, f), d[i].0) == if keep(d[i].1) then Some(f(d[i].1)) else None
  {
    if d != [] {
      var n := |d| - 1;
      var pre := d[..n];
      assert DistinctKeys(pre) by {
        forall a, b | 0 <= a < b < |pre| ensures pre[a].0 != pre[b].0 {
          assert pre[a] == d[a] && pre[b] == d[b];
        }
      }
      SelectGet(pre, keep, f);
      var p := Select(pre, keep, f);
      var s := Select(d, keep, f);
      var (k, v) := d[n];
      forall j | 0 <= j < |pre| ensures pre[j].0 != k {
        assert pre[j] == d[j];
      }
      if keep(v) {
        PutGet(p, k, f(v));
      }
      assert forall k' :: k' != k ==> Get(s, k') == Get(p, k');
      forall k' | HasKey(s, k') ensures HasKey(d, k') {
        if k' == k {
          assert d[n].0 == k';
        } else {
          assert Get(s, k').Some? && Get(s, k') == Get(p, k');
          assert HasKey(p, k');
          var j :| 0 <= j < |pre| && pre[j].0 == k';
          assert d[j].0 == k';
        }
      }
      forall i | 0 <= i < |d|
        ensures Get(s, d[i].0) == if keep(d[i].1) then Some(f(d[i].1)) else None
      {
        if i < n {
          assert pre[i] == d[i];
          assert d[i].0 != k;
        }
      }
    }
  }

  /** The last entry is the one `Get` finds when no earlier entry has its key. */
  lemma {:induction false} GetDistinctLast<V>(d: Dict<V>)
    requires d != [] && forall j :: 0 <= j < |d| - 1 ==> d[j].0 != d[|d| - 1].0
    ensures Get(d, d[|d| - 1].0) == Some(d[|d| - 1].1)
  {
    if |d| > 1 {
      var t := d[1..];
      assert forall j :: 0 <= j < |t| - 1 ==> t[j] == d[j + 1];
      GetDistinctLast(t);
    }
  }

  /** The set of keys of a dict. */
  function KeySet<V>(d: Dict<V>): (ks: set<string>)
    ensures forall k :: k in ks <==> HasKey(d, k)
  {
    if d == [] then {}
    else
      var ks := {d[0].0} + KeySet(d[1..]);
      assert forall k :: HasKey(d, k) <==> (k == d[0].0 || HasKey(d[1..], k)) by {
        forall k ensures HasKey(d, k) <==> (k == d[0].0 || HasKey(d[1..], k)) {
          if k != d[0].0 { HasKeyTail(d, k); }
        }
      }
      ks
  }

  /**
   * `dict(zip(ks, vs))`, built by assigning `d[ks[i]] = vs[i]` in order: a
   * repeated key keeps its first position and its last value.
   */
  function FromPairs<V>(ks: seq<string>, vs: seq<V>): Dict<V>
    requires |ks| == |vs|
  {
    if ks == [] then []
    else Put(FromPairs(ks[..|ks| - 1], vs[..|vs| - 1]), ks[|ks| - 1], vs[|vs| - 1])
  }

  lemma FromPairsSnoc<V>(ks: seq<string>, vs: seq<V>, j: nat)
    requires |ks| == |vs| && j < |ks|
    ensures FromPairs(ks[..j + 1], vs[..j + 1]) == Put(FromPairs(ks[..j], vs[..j]), ks[j], vs[j])
  {
    assert ks[..j + 1][..j] == ks[..j];
    assert vs[..j + 1][..j] == vs[..j];
  }

  /** The value stored for a key is the one paired with its last occurrence. */
  lemma {:induction false} FromPairsGet<V>(ks: seq<string>, vs: seq<V>, j: nat)
    requires |ks| == |vs| && j < |ks|
    requires forall k :: j < k < |ks| ==> ks[k] != ks[j]
    ensures Get(FromPairs(ks, vs), ks[j]) == Some(vs[j])
  {
    var n := |ks|;
    var init := ks[..n - 1];
    var vinit := vs[..n - 1];
    var before := FromPairs(init, vinit);
    assert FromPairs(ks, vs) == Put(before, ks[n - 1], vs[n - 1]);
    PutGet(before, ks[n - 1], vs[n - 1]);
    if j < n - 1 {
      assert ks[n - 1] != ks[j];
      assert forall k :: j < k < |init| ==> init[k] == ks[k];
      assert init[j] == ks[j] && vinit[j] == vs[j];
      FromPairsGet(init, vinit, j);
    }
  }

  /** Each pair adds at most one entry. */
  lemma {:induction false} FromPairsSize<V>(ks: seq<string>, vs: seq<V>)
    requires |ks| == |vs|
    ensures |FromPairs(ks, vs)| <= |ks|
  {
    if ks != [] {
      FromPairsSize(ks[..|ks| - 1], vs[..|vs| - 1]);
    }
  }

  /** The keys are exactly the given keys, each once. */
  lemma {:induction false} FromPairsKeys<V>(ks: seq<string>, vs: seq<V>)
    requires |ks| == |vs|
    ensures DistinctKeys(FromPairs(ks, vs))
    ensures forall k :: HasKey(FromPairs(ks, vs), k) <==> k in ks
  {
    if ks != [] {
      var n := |ks|;
      var d := FromPairs(ks[..n - 1], vs[..n - 1]);
      FromPairsKeys(ks[..n - 1], vs[..n - 1]);
      PutDistinct(d, ks[n - 1], vs[n - 1]);
      PutGet(d, ks[n - 1], vs[n - 1]);
      assert ks == ks[..n - 1] + [ks[n - 1]];
      forall k ensures HasKey(FromPairs(ks, vs), k) <==> k in ks {
        assert HasKey(FromPairs(ks, vs), k) <==> Get(FromPairs(ks, vs), k).Some?;
        assert HasKey(d, k) <==> Get(d, k).Some?;
      }
    }
  }

  /** With distinct keys the dict is the keys paired with the values, in order. */
  lemma {:induction false} FromPairsZip<V>(ks: seq<string>, vs: seq<V>)
    requires |ks| == |vs|
    requires forall i, j :: 0 <= i < j < |ks| ==> ks[i] != ks[j]
    ensures FromPairs(ks, vs) == seq(|ks|, i requires 0 <= i < |ks| => (ks[i], vs[i]))
  {
    if ks != [] {
      var n := |ks|;
      var init := ks[..n - 1];
      var vinit := vs[..n - 1];
      FromPairsZip(init, vinit);
      var z := seq(|init|, i requires 0 <= i < |init| => (init[i], vinit[i]));
      assert !HasKey(z, ks[n - 1]) by {
        forall i | 0 <= i < |z| ensures z[i].0 != ks[n - 1] {
          assert z[i].0 == ks[i];
        }
      }
      PutNew(z, ks[n - 1], vs[n - 1]);
      assert z + [(ks[n - 1], vs[n - 1])] == seq(|ks|, i requires 0 <= i < |ks| => (ks[i], vs[i]));
    }
  }

  /** With distinct keys the dict lists them in the given order. */
  lemma FromPairsDistinctKeys<V>(ks: seq<string>, vs: seq<V>)
    requires |ks| == |vs|
    requires forall i, j :: 0 <= i < j < |ks| ==> ks[i] != ks[j]
    ensures Keys(FromPairs(ks, vs)) == ks
  {
    FromPairsZip(ks, vs);
  }

  /** `xs.index(x)` when `x` occurs, None otherwise. */
  function IndexOf<T(==)>(xs: seq<T>, x: T): (r: Option<nat>)
    ensures r.None? <==> x !in xs
    ensures r.Some? ==> r.value < |xs| && xs[r.value] == x
                        && forall k :: 0 <= k < r.value ==> xs[k] != x
  {
    if xs == [] then None
    else if xs[0] == x then Some(0)
    else
      var r := IndexOf(xs[1..], x);
      assert x in xs <==> x in xs[1..] by {
        assert xs == [xs[0]] + xs[1..];
      }
      if r.Some? then Some(r.value + 1) else None
  }

  /** An occurrence with none before it is the one `IndexOf` finds. */
  lemma IndexAfter<T>(xs: seq<T>, x: T, i: nat)
    requires i < |xs| && xs[i] == x
    requires forall k :: 0 <= k < i ==> xs[k] != x
    ensures IndexOf(xs, x) == Some(i)
  {
    assert x in xs;
  }

  /** Sum of the counts of a list of (key, count) entries. */
  function SumValues<K>(d: seq<(K, nat)>): nat {
    if d == [] then 0 else d[0].1 + SumValues(d[1..])
  }

  /** Python's `min(a, b)` and `max(a, b)` on integers. */
  function Min(a: int, b: int): (r: int)
    ensures r <= a && r <= b && (r == a || r == b)
  {
    if a <= b then a else b
  }

  function Max(a: int, b: int): (r: int)
    ensures r >= a && r >= b && (r == a || r == b)
  {
    if a >= b then a else b
  }
}
