/**
 * The structural equality the browser client uses to tell whether a form
 * still holds what was loaded: primitives compare strictly, objects by
 * their number of keys and then key by key, recursively.
 */
module ClientIndex {
  import opened Text
  import opened JsValues

  /**
   * `areObjectsEqual`: strict equality unless both are objects; objects
   * with different numbers of keys differ; otherwise every key of the first
   * must hold a value equal to what the second holds under that key.
   */
  function AreObjectsEqual(a: Js, b: Js): bool
    decreases a, 1
  {
    if !IsObject(a) || !IsObject(b) then StrictEquals(a, b)
    else if |a.entries| != |b.entries| then false
    else KeysEqual(a, b, 0)
  }

  /** The loop over the keys of `a` from the `i`-th on, stopping at the first unequal one. */
  function KeysEqual(a: Js, b: Js, i: nat): bool
    requires a.Obj? && b.Obj? && i <= |a.entries|
    decreases a, 0, |a.entries| - i
  {
    if i == |a.entries| then true
    else
      assert a.entries[i] in a.entries;
      if !AreObjectsEqual(a.entries[i].1, Lookup(b.entries, a.entries[i].0)) then false
      else KeysEqual(a, b, i + 1)
  }

  /** The loop with early exit holds exactly when every remaining key compares equal. */
  lemma {:induction false} KeysEqualAll(a: Js, b: Js, i: nat)
    requires a.Obj? && b.Obj? && i <= |a.entries|
    ensures KeysEqual(a, b, i)
      <==> forall k | i <= k < |a.entries| :: AreObjectsEqual(a.entries[k].1, Lookup(b.entries, a.entries[k].0))
    decreases |a.entries| - i
  {
    if i < |a.entries| {
      KeysEqualAll(a, b, i + 1);
    }
  }

  /**
   * Two objects are equal when they have as many keys and each key of the
   * first holds, recursively, what the second holds under it, a missing
   * key reading as `undefined`.
   */
  lemma ObjectsEqual(a: Js, b: Js)
    requires a.Obj? && b.Obj?
    ensures AreObjectsEqual(a, b) <==>
      |a.entries| == |b.entries|
      && forall k | 0 <= k < |a.entries| :: AreObjectsEqual(a.entries[k].1, Lookup(b.entries, a.entries[k].0))
  {
    KeysEqualAll(a, b, 0);
  }

  /** When either side is not an object (or is `null`), equality is `===`. */
  lemma PrimitiveEqual(a: Js, b: Js)
    requires !IsObject(a) || !IsObject(b)
    ensures AreObjectsEqual(a, b) <==> a == b && !(a.Num? && a.n.NaN?)
  {
  }

  /**
   * The comparison is not symmetric: `{x: undefined}` equals `{y: 1}`, as
   * the missing `x` reads as `undefined`, but `{y: 1}` does not equal
   * `{x: undefined}`.
   */
  lemma NotSymmetric()
    ensures AreObjectsEqual(Obj([("x", Undefined)]), Obj([("y", Num(Int(1)))]))
    ensures !AreObjectsEqual(Obj([("y", Num(Int(1)))]), Obj([("x", Undefined)]))
  {
    var a := Obj([("x", Undefined)]);
    var b := Obj([("y", Num(Int(1)))]);
    assert Lookup(b.entries, "x") == Undefined;
    assert Lookup(a.entries, "y") == Undefined;
    assert KeysEqual(a, b, 1);
    assert !KeysEqual(b, a, 0);
  }

  /** NaN is not equal to itself, alone or inside an object. */
  lemma NaNNotReflexive()
    ensures !AreObjectsEqual(Num(NaN), Num(NaN))
    ensures !AreObjectsEqual(Obj([("n", Num(NaN))]), Obj([("n", Num(NaN))]))
  {
    var o := Obj([("n", Num(NaN))]);
    assert Lookup(o.entries, "n") == Num(NaN);
    assert !KeysEqual(o, o, 0);
  }

  /** No NaN anywhere in the value. */
  predicate NoNaN(v: Js) {
    match v
    case Num(n) => !n.NaN?
    case Obj(entries) => forall k | 0 <= k < |entries| :: NoNaN(entries[k].1)
    case _ => true
  }

  /** Every object in the value has distinct keys, as every JavaScript object does. */
  predicate WellFormed(v: Js) {
    match v
    case Obj(entries) => DistinctKeys(entries) && forall k | 0 <= k < |entries| :: WellFormed(entries[k].1)
    case _ => true
  }

  /** Every value without NaN equals itself. */
  lemma {:induction false} Reflexive(a: Js)
    requires WellFormed(a) && NoNaN(a)
    ensures AreObjectsEqual(a, a)
    decreases a
  {
    if a.Obj? {
      forall k | 0 <= k < |a.entries|
        ensures AreObjectsEqual(a.entries[k].1, Lookup(a.entries, a.entries[k].0))
      {
        LookupOwn(a.entries, k);
        assert a.entries[k] in a.entries;
        Reflexive(a.entries[k].1);
      }
      ObjectsEqual(a, a);
    }
  }

  /**
   * Equality implies the same keys when no property holds `undefined`: a
   * key of the first that the second lacks would have to equal `undefined`.
   */
  lemma KeysPresent(a: Js, b: Js, k: nat)
    requires a.Obj? && b.Obj? && k < |a.entries| && !a.entries[k].1.Undefined?
    requires AreObjectsEqual(a, b)
    ensures exists m | 0 <= m < |b.entries| :: b.entries[m].0 == a.entries[k].0
  {
    ObjectsEqual(a, b);
    assert AreObjectsEqual(a.entries[k].1, Lookup(b.entries, a.entries[k].0));
  }
}
