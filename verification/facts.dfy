/**
 * Constant-propagation facts: a map from variable to lattice value in which an
 * absent key stands for `Undef`.  Keys are never bound to `Undef` explicitly
 * (binding `Undef` removes the key), so two facts are equal as maps exactly
 * when they agree on every variable.
 */
module Facts {
  import opened Ir
  import opened Lattice

  type Fact = map<Var, Value>

  /** The value of `v` in `f`, `Undef` when `v` is absent. */
  function Lookup(f: Fact, v: Var): Value {
    if v in f then f[v] else Undef
  }

  /** No key is bound to `Undef`. */
  predicate Normalized(f: Fact) {
    forall v :: v in f ==> f[v] != Undef
  }

  /** `f` with `v` bound to `value`; binding `Undef` removes `v`. */
  function Bind(f: Fact, v: Var, value: Value): (r: Fact)
    ensures Lookup(r, v) == value
    ensures forall w :: w != v ==> Lookup(r, w) == Lookup(f, w)
    ensures Normalized(f) ==> Normalized(r)
  {
    if value == Undef then f - {v} else f[v := value]
  }

  /** The pointwise lattice order on facts. */
  ghost predicate FactLeq(a: Fact, b: Fact) {
    forall v :: Leq(Lookup(a, v), Lookup(b, v))
  }

  /** Normalized facts are equal exactly when they agree on every variable. */
  lemma NormalizedExtensional(a: Fact, b: Fact)
    requires Normalized(a) && Normalized(b)
    ensures a == b <==> forall v :: Lookup(a, v) == Lookup(b, v)
  {
    if forall v :: Lookup(a, v) == Lookup(b, v) {
      assert a.Keys == b.Keys by {
        forall v | v in a
          ensures v in b
        {
          assert Lookup(a, v) != Undef;
        }
        forall v | v in b
          ensures v in a
        {
          assert Lookup(b, v) != Undef;
        }
      }
      forall v | v in a
        ensures a[v] == b[v]
      {
        assert Lookup(a, v) == Lookup(b, v);
      }
    }
  }

  /**
   * A mutable fact object (CPFact).  Only the operations the analysis uses are
   * modelled: lookup, point update, removal, copying, and overwriting with
   * change detection.
   */
  class CPFact {
    var entries: Fact

    ghost predicate Valid()
      reads this
    {
      Normalized(entries)
    }

    /** A new, empty fact: every variable is `Undef`. */
    constructor ()
      ensures Valid() && entries == map[]
    {
      entries := map[];
    }

    function Get(v: Var): Value
      reads this
    {
      Lookup(entries, v)
    }

    method Update(v: Var, value: Value)
      requires Valid()
      modifies this
      ensures Valid()
      ensures entries == Bind(old(entries), v, value)
    {
      entries := Bind(entries, v, value);
    }

    method Remove(v: Var)
      requires Valid()
      modifies this
      ensures Valid()
      ensures entries == old(entries) - {v}
    {
      entries := entries - {v};
    }

    method Copy() returns (c: CPFact)
      requires Valid()
      ensures fresh(c) && c.Valid()
      ensures c.entries == entries
    {
      c := new CPFact();
      c.entries := entries;
    }

    /** Overwrites this fact with `other`, reporting whether it changed. */
    method CopyFrom(other: CPFact) returns (changed: bool)
      modifies this
      ensures entries == old(other.entries)
      ensures changed <==> old(entries) != entries
    {
      changed := entries != other.entries;
      entries := other.entries;
    }
  }
}
