/**
 * The variables both engines search over (binary AscendingVariable, n-ary BaseVariable):
 * an identity, a raw domain of integers and an optional assigned value, together with the
 * reversible record of a pruning.
 */
module Variables {
  import opened Wrappers

  /** Java's Integer.MAX_VALUE, used by the solvers as a "no candidate yet" sentinel. */
  const MaxInt: int := 0x7fff_ffff

  /**
   * A variable. `domain` is the raw domain; `value` is None while the variable is unassigned.
   * Java equality and hashing use the identity alone, which the engine reflects by keying
   * variables by `id`.
   */
  datatype Variable<V> = Variable(id: V, domain: set<int>, value: Option<int>)

  /** The integers lo..hi, built as the constructors build them: lo, then lo + 1, up to hi. */
  function Range(lo: int, hi: int): (r: set<int>)
    ensures forall v :: v in r <==> lo <= v <= hi
    ensures |r| == if lo <= hi then hi - lo + 1 else 0
    decreases hi - lo
  {
    if lo > hi then {} else {lo} + Range(lo + 1, hi)
  }

  /** A fresh, unassigned variable whose domain is lo..hi (empty when lo > hi). */
  function NewVariable<V>(id: V, lo: int, hi: int): (x: Variable<V>)
    ensures x.id == id && x.value == None
    ensures forall v :: v in x.domain <==> lo <= v <= hi
  {
    Variable(id, Range(lo, hi), None)
  }

  function Assign<V>(x: Variable<V>, val: int): Variable<V> {
    x.(value := Some(val))
  }

  function Unassign<V>(x: Variable<V>): Variable<V> {
    x.(value := None)
  }

  function RemoveFromDomain<V>(x: Variable<V>, val: int): Variable<V> {
    x.(domain := x.domain - {val})
  }

  function AddToDomain<V>(x: Variable<V>, val: int): Variable<V> {
    x.(domain := x.domain + {val})
  }

  /** The effective domain: the assigned value alone while assigned, the raw domain otherwise. */
  function CurrentDomain<V>(x: Variable<V>): set<int> {
    match x.value
    case Some(v) => {v}
    case None => x.domain
  }

  /** A variable is consistent while its raw domain is non-empty. */
  predicate IsConsistent<V>(x: Variable<V>) {
    x.domain != {}
  }

  /**
   * Assigning leaves the raw domain alone and makes the effective domain the single value;
   * unassigning restores the raw domain as the effective one.
   */
  lemma AssignmentShapesCurrentDomain<V>(x: Variable<V>, val: int)
    ensures Assign(x, val).domain == x.domain && CurrentDomain(Assign(x, val)) == {val}
    ensures Unassign(Assign(x, val)).domain == x.domain
    ensures CurrentDomain(Unassign(Assign(x, val))) == x.domain
    ensures x.value == None ==> Unassign(Assign(x, val)) == x
  {
  }

  /** Removing a value of the domain and adding it back restores the variable. */
  lemma RemoveThenAddRestores<V>(x: Variable<V>, val: int)
    requires val in x.domain
    ensures AddToDomain(RemoveFromDomain(x, val), val) == x
    ensures !IsConsistent(RemoveFromDomain(x, val)) <==> x.domain == {val}
  {
  }

  /**
   * Keeps the values of the domain that are in `supported` and returns them with the removed
   * ones (the binary retainValues).
   */
  function RetainValues<V>(x: Variable<V>, supported: set<int>): (r: (Variable<V>, set<int>))
    ensures r.0 == x.(domain := r.0.domain)
    ensures r.0.domain + r.1 == x.domain && r.0.domain !! r.1
    ensures r.0.domain <= supported && r.1 !! supported
  {
    (x.(domain := x.domain * supported), x.domain - supported)
  }

  /** Keeps the values of the domain satisfying `keep` (the n-ary and unary retainValues). */
  function RetainWhere<V>(x: Variable<V>, keep: int -> bool): (r: (Variable<V>, set<int>))
    ensures r.0 == x.(domain := r.0.domain)
    ensures r.0.domain + r.1 == x.domain && r.0.domain !! r.1
    ensures forall v :: v in r.0.domain ==> keep(v)
    ensures forall v :: v in r.1 ==> !keep(v)
  {
    (x.(domain := set v | v in x.domain && keep(v)), set v | v in x.domain && !keep(v))
  }

  /**
   * getNextVal / getNextValue: the first value an iterator over the raw domain yields. The
   * order of a HashSet is not modelled, so any value may come first; an empty domain makes
   * the iterator throw.
   */
  ghost function NextValue<V>(x: Variable<V>): (r: Option<int>)
    ensures r.Some? <==> x.domain != {}
    ensures r.Some? ==> r.value in x.domain
  {
    if x.domain == {} then None
    else
      HasMember(x.domain);
      var v :| v in x.domain; Some(v)
  }

  /** A non-empty set has a member to pick. */
  lemma HasMember(s: set<int>)
    requires s != {}
    ensures exists x :: x in s
  {
    if forall x :: x !in s {
      assert false;
    }
  }

  /** A reversible record of the values one revision removed from one variable. */
  datatype Prune<V> = Prune(v: V, removed: set<int>) {
    predicate IsEmpty() {
      removed == {}
    }
  }

  /** Adds the recorded values back to the variable's raw domain. */
  function Undo<V>(x: Variable<V>, p: Prune<V>): Variable<V> {
    x.(domain := x.domain + p.removed)
  }

  /** Undoing the record of a retainValues call restores the variable it was made from. */
  lemma RetainThenUndoRestores<V>(x: Variable<V>, supported: set<int>)
    ensures var (y, removed) := RetainValues(x, supported); Undo(y, Prune(x.id, removed)) == x
  {
  }
}
