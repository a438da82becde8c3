/**
 * The Python values the backend passes around as JSON-like documents:
 * dicts with string keys, lists, NumPy scalars and arrays, and native
 * scalars. Floats are exact reals or NaN.
 */
module Py {
  import opened Common

  /** A float: a finite value or NaN. */
  datatype Flt = Fin(value: real) | NaN

  datatype Py =
    | PDict(entries: seq<(string, Py)>)
    | PList(items: seq<Py>)
    | NpInt(i: int)
    | NpFloat(f: Flt)
    | NdArray(elems: seq<Py>)
    | PInt(n: int)
    | PFloat(x: Flt)
    | PStr(s: string)
    | PBool(b: bool)
    | PNone

  /** `d.get(key)` on a dict value; None for a missing key or a value that is not a dict. */
  function Field(p: Py, key: string): Option<Py> {
    if p.PDict? then Get(p.entries, key) else None
  }

  /** Python truthiness of a JSON-like value. */
  predicate Truthy(p: Py) {
    match p
    case PDict(es) => es != []
    case PList(xs) => xs != []
    case NpInt(i) => i != 0
    case NpFloat(f) => f != Fin(0.0)
    case NdArray(xs) => xs != []
    case PInt(n) => n != 0
    case PFloat(f) => f != Fin(0.0)
    case PStr(s) => s != []
    case PBool(b) => b
    case PNone => false
  }

  /** An optional real as a JSON value: None or a float. */
  function OfReal(r: Option<real>): Py {
    match r
    case Some(x) => PFloat(Fin(x))
    case None => PNone
  }
}
