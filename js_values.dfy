/**
 * The JavaScript values the browser client handles: the primitive types,
 * and plain objects given by their own enumerable string-keyed properties
 * in the order `Object.keys` and `for ... in` list them. Functions, symbols
 * and big integers do not occur in the client's data and are not modelled.
 */
module JsValues {
  import opened Wrappers
  import opened Text

  /**
   * The integers a double holds exactly together with all their
   * neighbours: at most 2^53 in magnitude. Far below 10^21, where
   * `toString` would switch to exponent notation.
   */
  const MAX_EXACT: int := 0x20_0000_0000_0000

  type ExactInt = v: int | -MAX_EXACT <= v <= MAX_EXACT

  /**
   * A number: NaN, an exactly held integral value or an infinity (`-0`
   * reads as `0`). Fractions and larger doubles are not modelled.
   */
  datatype Number = NaN | Int(value: ExactInt) | Infinity(positive: bool)

  datatype Js =
    | Undefined
    | Null
    | Bool(b: bool)
    | Num(n: Number)
    | Str(s: String)
    | Obj(entries: seq<(String, Js)>)

  /** `typeof v === 'object' && v !== null`: `typeof null` is `'object'` too, hence the second test. */
  predicate IsObject(v: Js) {
    v.Obj?
  }

  /** `v == null`: loose equality with `null` holds for `null` and `undefined` alone. */
  predicate IsNullish(v: Js) {
    v.Undefined? || v.Null?
  }

  /**
   * `a === b` where at least one operand is not an object (two objects are
   * compared by identity, which values do not carry): same type and same
   * value, except that NaN equals nothing.
   */
  function StrictEquals(a: Js, b: Js): (r: bool)
    requires !(a.Obj? && b.Obj?)
    ensures r ==> a == b
    ensures a == b && !(a.Num? && a.n.NaN?) ==> r
  {
    match (a, b)
    case (Undefined, Undefined) => true
    case (Null, Null) => true
    case (Bool(x), Bool(y)) => x == y
    case (Num(x), Num(y)) => !x.NaN? && x == y
    case (Str(x), Str(y)) => x == y
    case _ => false
  }

  predicate DistinctKeys(entries: seq<(String, Js)>) {
    forall i, j | 0 <= i < j < |entries| :: entries[i].0 != entries[j].0
  }

  /** `obj[key]`: the value of the property, `undefined` when the object has none of that name. */
  function Lookup(entries: seq<(String, Js)>, key: String): (r: Js)
    ensures (forall i | 0 <= i < |entries| :: entries[i].0 != key) ==> r == Undefined
  {
    if entries == [] then Undefined
    else if entries[0].0 == key then entries[0].1
    else Lookup(entries[1..], key)
  }

  /** In an object, every property reads back as its own value. */
  lemma {:induction false} LookupOwn(entries: seq<(String, Js)>, i: nat)
    requires DistinctKeys(entries) && i < |entries|
    ensures Lookup(entries, entries[i].0) == entries[i].1
  {
    if i > 0 {
      assert entries[0].0 != entries[i].0;
      LookupOwn(entries[1..], i - 1);
    }
  }

  /** A present property is found at the first position carrying its name. */
  lemma {:induction false} LookupFound(entries: seq<(String, Js)>, key: String)
    requires exists i | 0 <= i < |entries| :: entries[i].0 == key
    ensures exists i | 0 <= i < |entries| :: entries[i].0 == key && Lookup(entries, key) == entries[i].1
  {
    if entries[0].0 != key {
      var i :| 0 <= i < |entries| && entries[i].0 == key;
      assert entries[1..][i - 1].0 == key;
      LookupFound(entries[1..], key);
      var j :| 0 <= j < |entries[1..]| && entries[1..][j].0 == key && Lookup(entries[1..], key) == entries[1..][j].1;
      assert entries[j + 1] == entries[1..][j];
    }
  }

  /** `Number.prototype.toString()` in base 10: an exact integer prints as its plain decimal digits. */
  function NumberToString(n: Number): (r: String)
    ensures r != []
    ensures ParseSigned(r, -MAX_EXACT, MAX_EXACT).Some? <==> n.Int?
    ensures n.Int? ==> ParseSigned(r, -MAX_EXACT, MAX_EXACT) == Some(n.value)
  {
    match n
    case NaN => "NaN"
    case Int(v) => ParseSignedPrinted(v, -MAX_EXACT, MAX_EXACT); IntToString(v)
    case Infinity(positive) => if positive then "Infinity" else "-Infinity"
  }

  /**
   * `v.toString()`: a string is itself, a boolean and a number print as in
   * source text, a plain object as `[object Object]`. Calling it on `null`
   * or `undefined` throws, so callers rule those out.
   */
  function ToString(v: Js): (r: String)
    requires !IsNullish(v)
  {
    match v
    case Bool(b) => if b then "true" else "false"
    case Num(n) => NumberToString(n)
    case Str(s) => s
    case Obj(_) => "[object Object]"
  }

  /** Only the empty string prints as nothing: `false`, `0` and NaN all print as non-empty text. */
  lemma ToStringEmpty(v: Js)
    requires !IsNullish(v)
    ensures ToString(v) == [] <==> v == Str([])
  {
  }
}
