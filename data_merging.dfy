/**
 * The field reconciliation rule shared by every record type: a field keeps
 * the receiver's value when that value is defined, and takes the other
 * record's value only when the receiver's is undefined.
 */
module DataMerging {

  /** A field that may be undefined (JavaScript `undefined`). */
  datatype Option<+T> = None | Some(value: T)

  /** `x` agrees with `y` wherever `x` is defined: `y` has at least the information of `x`. */
  ghost predicate Below<T>(x: Option<T>, y: Option<T>) {
    x.Some? ==> y == x
  }

  /**
   * Overwrite only if undefined: the receiver's value wins when it has one;
   * otherwise the other record's value (defined or not) is taken.
   */
  function Reconcile<T(==)>(mine: Option<T>, theirs: Option<T>): (r: Option<T>)
    ensures Below(mine, r)
    ensures mine.None? ==> r == theirs
    ensures r.Some? <==> mine.Some? || theirs.Some?
  {
    if mine.Some? then mine else theirs
  }

  /** Reconciling a field with itself changes nothing. */
  lemma ReconcileSelf<T>(x: Option<T>)
    ensures Reconcile(x, x) == x
  {
  }

  /** Reconciling twice against the same value is the same as reconciling once. */
  lemma ReconcileIdempotent<T>(mine: Option<T>, theirs: Option<T>)
    ensures Reconcile(Reconcile(mine, theirs), theirs) == Reconcile(mine, theirs)
  {
  }

  /** Folding three values left-first or right-first gives the same field: the first defined one. */
  lemma ReconcileAssociative<T>(a: Option<T>, b: Option<T>, c: Option<T>)
    ensures Reconcile(Reconcile(a, b), c) == Reconcile(a, Reconcile(b, c))
  {
  }

  /** The two sides do not conflict: at most one is defined, or both hold the same value. */
  predicate Compatible<T(==)>(a: Option<T>, b: Option<T>) {
    a.None? || b.None? || a == b
  }

  /** When at most one side is defined, the outcome does not depend on which side is the receiver. */
  lemma ReconcileCommutesWithoutConflict<T>(a: Option<T>, b: Option<T>)
    requires Compatible(a, b)
    ensures Reconcile(a, b) == Reconcile(b, a)
  {
  }
}
