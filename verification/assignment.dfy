// Assignment (a LinkedHashMap from variable name to value) and its compatibility test.

module Assignments {
  import opened Engine

  /** A partial assignment of values to variable names; the map's insertion order is not modelled. */
  type Assignment = map<string, int>

  /** Every variable present in both assignments has the same value in each. */
  predicate Compatible(a: Assignment, b: Assignment) {
    forall k | k in a && k in b :: a[k] == b[k]
  }

  /**
   * isCompatibleWith: walks a's variables in the given order and answers false at the first one
   * b holds with another value.
   */
  method IsCompatibleWith(a: Assignment, b: Assignment, keys: seq<string>) returns (r: bool)
    requires Enumerates(keys, a.Keys)
    ensures r <==> Compatible(a, b)
  {
    var i := 0;
    while i < |keys|
      invariant 0 <= i <= |keys|
      invariant forall n | 0 <= n < i :: keys[n] in b ==> a[keys[n]] == b[keys[n]]
    {
      var k := keys[i];
      if k in b && b[k] != a[k] {
        return false;
      }
      i := i + 1;
    }
    return true;
  }

  /**
   * Compatibility is symmetric, and assignments over disjoint variables, the empty one among
   * them, are compatible.
   */
  lemma CompatibleFacts(a: Assignment, b: Assignment)
    ensures Compatible(a, b) == Compatible(b, a)
    ensures a.Keys !! b.Keys ==> Compatible(a, b)
    ensures Compatible(a, map[]) && Compatible(map[], a)
  {
  }

  /**
   * Putting every entry of b into a (the later value wins) yields an assignment that agrees with
   * b everywhere, and with a wherever the two are compatible.
   */
  lemma PutAllAgrees(a: Assignment, b: Assignment)
    ensures (a + b).Keys == a.Keys + b.Keys
    ensures forall k | k in b :: (a + b)[k] == b[k]
    ensures Compatible(a, b) ==> forall k | k in a :: (a + b)[k] == a[k]
  {
  }

  /** a restricted to the given names. */
  function Restrict(a: Assignment, names: set<string>): (r: Assignment)
    ensures r.Keys == a.Keys * names
    ensures forall k | k in r :: r[k] == a[k]
  {
    map k | k in a && k in names :: a[k]
  }
}
