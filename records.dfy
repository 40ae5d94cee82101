/** The dynamic values the services pass around as Python dictionaries: metadata values,
    metadata dictionaries, and the document dictionaries of the retrieval corpus. */
module Records {
  import opened Wrappers
  import PyText

  /** A metadata value: Python's None, bool, int, float or str. */
  datatype Value = VNone | VBool(b: bool) | VInt(i: int) | VReal(r: real) | VStr(s: string)

  /** A `Dict[str, Any]` of metadata. */
  type Metadata = map<string, Value>

  /** `m.get(k)`: the value under `k`, or None when the key is absent. */
  function Get(m: Metadata, k: string): Value {
    if k in m then m[k] else VNone
  }

  /** The number a value stands for in Python arithmetic (a bool is an int), or None for
      values that make `*` raise TypeError. */
  function AsNumber(v: Value): Option<real> {
    match v
    case VBool(b) => Some(if b then 1.0 else 0.0)
    case VInt(i) => Some(i as real)
    case VReal(r) => Some(r)
    case _ => None
  }

  /** Python's `a == b` on values: numbers compare by value across bool, int and float;
      None equals only None; strings compare by content. */
  predicate PyEq(a: Value, b: Value) {
    if AsNumber(a).Some? && AsNumber(b).Some? then AsNumber(a) == AsNumber(b)
    else a == b
  }

  /** Python's equality on values is an equivalence relation that contains `==`. */
  lemma PyEqEquivalence(a: Value, b: Value, c: Value)
    ensures a == b ==> PyEq(a, b)
    ensures PyEq(a, b) ==> PyEq(b, a)
    ensures PyEq(a, b) && PyEq(b, c) ==> PyEq(a, c)
  {
  }

  /** A missing key (read as None) matches exactly the filter value None. */
  lemma PyEqNone(v: Value)
    ensures PyEq(v, VNone) <==> v == VNone
  {
  }

  /** `str(v)` for the values whose printed form the model fixes (not floats). */
  function PyStr(v: Value): (r: string)
    requires !v.VReal?
    ensures v.VStr? ==> r == v.s
  {
    match v
    case VNone => "None"
    case VBool(b) => if b then "True" else "False"
    case VInt(i) => if i < 0 then "-" + PyText.DecimalString(-i) else PyText.DecimalString(i)
    case VStr(s) => s
  }

  /** One document dictionary of the corpus: `id`, `content`, `metadata`, and the optional
      `embedding` and `score` keys. */
  datatype Doc = Doc(
    id: Option<string>,
    content: string,
    metadata: Metadata,
    embedding: Option<seq<real>>,
    score: Option<real>)

  /** `doc.get('score', 0.0)` */
  function ScoreOrZero(d: Doc): real {
    d.score.GetOr(0.0)
  }
}
