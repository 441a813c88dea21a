/**
 * The constant-propagation value lattice: `Undef` below every `Constant(n)`,
 * every `Constant(n)` below `NAC`, distinct constants incomparable.  The
 * analysis calls its binary operator "meet"; in this ordering it computes the
 * least upper bound.
 */
module Lattice {
  import opened JavaInt

  datatype Value = Undef | Constant(n: Int32) | NAC

  /** The lattice order. */
  predicate Leq(a: Value, b: Value) {
    a == Undef || b == NAC || a == b
  }

  /** Number of strict steps from `Undef`: the lattice has height two. */
  function Height(v: Value): (h: nat)
    ensures h <= 2
  {
    match v
    case Undef => 0
    case Constant(_) => 1
    case NAC => 2
  }

  /**
   * meetValue: `NAC` if either argument is `NAC`; otherwise `Undef` yields the
   * other argument; equal constants give that constant and distinct constants
   * give `NAC`.  The result is the least upper bound of the two arguments.
   */
  function Meet(v1: Value, v2: Value): (r: Value)
    ensures Leq(v1, r) && Leq(v2, r)
    ensures forall c :: Leq(v1, c) && Leq(v2, c) ==> Leq(r, c)
  {
    if v1.NAC? || v2.NAC? then NAC
    else if v1.Undef? || v2.Undef? then (if v1.Undef? then v2 else v1)
    else if v1.n == v2.n then Constant(v1.n)
    else NAC
  }

  /** `Leq` is a partial order. */
  lemma LeqPartialOrder(a: Value, b: Value, c: Value)
    ensures Leq(a, a)
    ensures Leq(a, b) && Leq(b, a) ==> a == b
    ensures Leq(a, b) && Leq(b, c) ==> Leq(a, c)
  {
  }

  /** Every strict step up the order raises the height, so chains have at most three elements. */
  lemma LeqRaisesHeight(a: Value, b: Value)
    requires Leq(a, b) && a != b
    ensures Height(a) < Height(b)
  {
  }

  /**
   * Meet is commutative, associative and idempotent, with `Undef` as identity
   * and `NAC` as absorbing element; `Leq(a, b)` holds exactly when meeting `a`
   * into `b` leaves `b` unchanged.
   */
  lemma MeetSemilattice(a: Value, b: Value, c: Value)
    ensures Meet(a, b) == Meet(b, a)
    ensures Meet(Meet(a, b), c) == Meet(a, Meet(b, c))
    ensures Meet(a, a) == a
    ensures Meet(Undef, a) == a && Meet(a, Undef) == a
    ensures Meet(NAC, a) == NAC && Meet(a, NAC) == NAC
    ensures Leq(a, b) <==> Meet(a, b) == b
  {
  }

  /** Meeting with a larger argument gives a larger result. */
  lemma MeetMonotone(a: Value, a': Value, b: Value, b': Value)
    requires Leq(a, a') && Leq(b, b')
    ensures Leq(Meet(a, b), Meet(a', b'))
  {
  }
}
