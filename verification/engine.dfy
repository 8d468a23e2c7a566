/**
 * The pieces both solving engines share: arcs, the network a problem presents to the engines,
 * revision of one arc, the undo records, and the insertion-ordered sets (LinkedHashSet) the
 * engines keep their prunes and arc queues in.
 */
module Engine {
  import opened Wrappers
  import opened Variables

  /** The variables of a problem, keyed by identity. */
  type Vars<V> = map<V, Variable<V>>

  /** An ordered pair (dependent, supporter): Arc(a, b) and Arc(b, a) are different arcs. */
  datatype Arc<V> = Arc(dependent: V, supporter: V)

  /**
   * What an engine needs from a problem: the variable identities in declaration order, which
   * ordered pairs share a constraint, and for an arc the sets of dependent values each
   * constraint between the two supports, given the supporter's effective domain and the
   * current partial assignment (binary problems use the former, n-ary ones the latter).
   */
  datatype Network<!V> = Network(
    ids: seq<V>,
    linked: (V, V) -> bool,
    supports: (Arc<V>, set<int>, map<V, int>) -> seq<set<int>>)

  ghost predicate NoDup<T>(s: seq<T>) {
    forall i, j :: 0 <= i < j < |s| ==> s[i] != s[j]
  }

  /** Appending an element not yet present keeps a sequence free of duplicates. */
  lemma NoDupAppend<T>(s: seq<T>, x: T)
    ensures NoDup(s) && (forall i | 0 <= i < |s| :: s[i] != x) ==> NoDup(s + [x])
  {
  }

  /** Dropping the head keeps a sequence free of duplicates, and the head does not recur. */
  lemma NoDupTail<T>(s: seq<T>)
    requires NoDup(s) && s != []
    ensures NoDup(s[1..]) && s[0] !in s[1..]
  {
    forall a, b | 0 <= a < b < |s[1..]| ensures s[1..][a] != s[1..][b] {
      assert s[1..][a] == s[a + 1] && s[1..][b] == s[b + 1];
    }
    forall b | 0 <= b < |s[1..]| ensures s[1..][b] != s[0] {
      assert s[1..][b] == s[b + 1];
    }
  }

  /** Two duplicate-free sequences with no common element concatenate to one. */
  lemma NoDupConcat<T>(a: seq<T>, b: seq<T>)
    requires NoDup(a) && NoDup(b) && forall x | x in a :: x !in b
    ensures NoDup(a + b)
  {
    forall m, n | 0 <= m < n < |a + b| ensures (a + b)[m] != (a + b)[n] {
      if n < |a| {
      } else if m >= |a| {
        assert (a + b)[m] == b[m - |a|] && (a + b)[n] == b[n - |a|];
      } else {
        assert (a + b)[n] in b;
      }
    }
  }

  /** `q` lists the members of `s`, each once. */
  ghost predicate Enumerates<T>(q: seq<T>, s: set<T>) {
    NoDup(q) && (forall x | x in q :: x in s) && (forall x | x in s :: x in q)
  }

  /**
   * An iteration order of a hash set. Java's HashSet order is not modelled: the model fixes one
   * order per set contents and claims nothing else about it.
   */
  ghost function Enumeration<T>(s: set<T>): (q: seq<T>)
    ensures Enumerates(q, s)
    decreases |s|
  {
    if s == {} then []
    else
      HasElement(s);
      var x :| x in s;
      [x] + Enumeration(s - {x})
  }

  lemma HasElement<T>(s: set<T>)
    requires s != {}
    ensures exists x :: x in s
  {
    if forall x :: x !in s {
      assert false;
    }
  }

  /** LinkedHashSet.add: appends an element that is not yet present and ignores one that is. */
  function Insert<T(==)>(s: seq<T>, x: T): (r: seq<T>)
    ensures NoDup(s) ==> NoDup(r)
    ensures x in r && (forall y | y in s :: y in r) && (forall y | y in r :: y in s || y == x)
    ensures |s| <= |r| && r[..|s|] == s
  {
    if x in s then s else s + [x]
  }

  /** Whether value v is in every set of ss. */
  predicate InAll(v: int, ss: seq<set<int>>) {
    forall i :: 0 <= i < |ss| ==> v in ss[i]
  }

  /**
   * Narrows the variable's domain by each support set in turn, one retainValues call per
   * constraint, and collects every value removed on the way.
   */
  function Narrow<V(==)>(x: Variable<V>, ss: seq<set<int>>): (r: (Variable<V>, set<int>))
    ensures r.0 == x.(domain := r.0.domain) && r.0.domain <= x.domain
    ensures forall v :: v in r.0.domain <==> v in x.domain && InAll(v, ss)
    ensures r.1 == x.domain - r.0.domain
    decreases |ss|
  {
    if ss == [] then (x, {})
    else
      var (y, removed) := RetainValues(x, ss[0]);
      var (z, more) := Narrow(y, ss[1..]);
      assert removed + more == x.domain - z.domain by {
        assert z.domain <= y.domain by {
          forall v | v in z.domain ensures v in y.domain {
          }
        }
        assert y.domain <= x.domain;
      }
      (z, removed + more)
  }

  /** The support sets of an arc in the current state of the variables. */
  function Support<V(==)>(net: Network<V>, vars: Vars<V>, past: map<V, int>, a: Arc<V>): seq<set<int>>
    requires a.supporter in vars
  {
    net.supports(a, CurrentDomain(vars[a.supporter]), past)
  }

  /**
   * Revises one arc: narrows the dependent's domain to the values every constraint between the
   * two supports, and records what it removed (binary Arc.prune, n-ary BaseVarArc.prune).
   */
  function Revise<V(==)>(net: Network<V>, vars: Vars<V>, past: map<V, int>, a: Arc<V>): (r: (Vars<V>, Prune<V>))
    requires a.dependent in vars && a.supporter in vars
    ensures r.0.Keys == vars.Keys && r.1.v == a.dependent
    ensures forall k :: k in vars && k != a.dependent ==> r.0[k] == vars[k]
    ensures r.0[a.dependent] == vars[a.dependent].(domain := r.0[a.dependent].domain)
    ensures r.0[a.dependent].domain <= vars[a.dependent].domain
    ensures r.1.removed == vars[a.dependent].domain - r.0[a.dependent].domain
  {
    var (x, removed) := Narrow(vars[a.dependent], Support(net, vars, past, a));
    (vars[a.dependent := x], Prune(a.dependent, removed))
  }

  /** The dependent keeps exactly the values every constraint between the two supports. */
  lemma ReviseKeepsSupported<V>(net: Network<V>, vars: Vars<V>, past: map<V, int>, a: Arc<V>)
    requires a.dependent in vars && a.supporter in vars
    ensures forall v :: v in Revise(net, vars, past, a).0[a.dependent].domain <==>
      v in vars[a.dependent].domain && InAll(v, Support(net, vars, past, a))
  {
  }

  /**
   * Revising an arc a second time removes nothing, as long as the supporter is a different
   * variable: the first revision left only supported values.
   */
  lemma ReviseIsIdempotent<V>(net: Network<V>, vars: Vars<V>, past: map<V, int>, a: Arc<V>)
    requires a.dependent in vars && a.supporter in vars && a.dependent != a.supporter
    ensures var (vars', _) := Revise(net, vars, past, a);
      var (vars'', p) := Revise(net, vars', past, a);
      vars'' == vars' && p.IsEmpty()
  {
    var (vars', _) := Revise(net, vars, past, a);
    var (vars'', p) := Revise(net, vars', past, a);
    ReviseKeepsSupported(net, vars, past, a);
    ReviseKeepsSupported(net, vars', past, a);
    assert Support(net, vars', past, a) == Support(net, vars, past, a);
    forall v ensures v in vars''[a.dependent].domain <==> v in vars'[a.dependent].domain {
    }
    assert vars''[a.dependent].domain == vars'[a.dependent].domain;
    assert vars''[a.dependent] == vars'[a.dependent];
  }

  /** Undoes one record: its values go back into its variable's domain. */
  function UndoPrune<V(==)>(vars: Vars<V>, p: Prune<V>): Vars<V>
    requires p.v in vars
  {
    vars[p.v := Undo(vars[p.v], p)]
  }

  /** All values the records remove from variable k. */
  function RemovedOf<V(==)>(ps: seq<Prune<V>>, k: V): set<int> {
    if ps == [] then {} else (if ps[0].v == k then ps[0].removed else {}) + RemovedOf(ps[1..], k)
  }

  predicate Recorded<V(==)>(vars: Vars<V>, ps: seq<Prune<V>>) {
    forall p :: p in ps ==> p.v in vars
  }

  /** Undoes every record in insertion order (propagateChange's final loop). */
  function UndoAll<V(==)>(vars: Vars<V>, ps: seq<Prune<V>>): (r: Vars<V>)
    requires Recorded(vars, ps)
    ensures r.Keys == vars.Keys
    ensures forall k :: k in vars ==> r[k] == vars[k].(domain := vars[k].domain + RemovedOf(ps, k))
    decreases |ps|
  {
    if ps == [] then vars else UndoAll(UndoPrune(vars, ps[0]), ps[1..])
  }

  lemma RemovedOfInsert<V>(ps: seq<Prune<V>>, p: Prune<V>, k: V)
    ensures RemovedOf(Insert(ps, p), k) == RemovedOf(ps, k) + (if p.v == k && p !in ps then p.removed else {})
    ensures p in ps && p.v == k ==> p.removed <= RemovedOf(ps, k)
  {
    RemovedOfContains(ps, p, k);
    if p !in ps {
      RemovedOfAppend(ps, p, k);
    }
  }

  lemma {:induction false} RemovedOfAppend<V>(ps: seq<Prune<V>>, p: Prune<V>, k: V)
    ensures RemovedOf(ps + [p], k) == RemovedOf(ps, k) + (if p.v == k then p.removed else {})
    decreases |ps|
  {
    if ps != [] {
      assert (ps + [p])[1..] == ps[1..] + [p];
      RemovedOfAppend(ps[1..], p, k);
    }
  }

  lemma {:induction false} RemovedOfContains<V>(ps: seq<Prune<V>>, p: Prune<V>, k: V)
    ensures p in ps && p.v == k ==> p.removed <= RemovedOf(ps, k)
    decreases |ps|
  {
    if ps != [] && p in ps && p.v == k && ps[0] != p {
      assert p in ps[1..];
      RemovedOfContains(ps[1..], p, k);
    }
  }

  /**
   * Narrowing one variable and inserting the record of what was removed keeps "undo everything
   * recorded" fixed, whether the record is new or an equal one is already present.
   */
  lemma RecordKeepsUndoTarget<V>(vars: Vars<V>, vars': Vars<V>, p: Prune<V>, ps: seq<Prune<V>>)
    requires p.v in vars && Recorded(vars, ps) && vars'.Keys == vars.Keys
    requires forall j :: j in vars && j != p.v ==> vars'[j] == vars[j]
    requires vars'[p.v] == vars[p.v].(domain := vars'[p.v].domain) && vars'[p.v].domain <= vars[p.v].domain
    requires p.removed == vars[p.v].domain - vars'[p.v].domain
    ensures Recorded(vars', Insert(ps, p))
    ensures UndoAll(vars', Insert(ps, p)) == UndoAll(vars, ps)
  {
    assert Recorded(vars', Insert(ps, p));
    var after := UndoAll(vars', Insert(ps, p));
    var before := UndoAll(vars, ps);
    forall k | k in vars
      ensures after[k] == before[k]
    {
      UndoTargetAt(vars, vars', p, ps, k);
    }
    MapsEqual(after, before);
  }

  /** RecordKeepsUndoTarget for one variable. */
  lemma UndoTargetAt<V>(vars: Vars<V>, vars': Vars<V>, p: Prune<V>, ps: seq<Prune<V>>, k: V)
    requires p.v in vars && Recorded(vars, ps) && vars'.Keys == vars.Keys && k in vars
    requires Recorded(vars', Insert(ps, p))
    requires k != p.v ==> vars'[k] == vars[k]
    requires vars'[p.v] == vars[p.v].(domain := vars'[p.v].domain) && vars'[p.v].domain <= vars[p.v].domain
    requires p.removed == vars[p.v].domain - vars'[p.v].domain
    ensures UndoAll(vars', Insert(ps, p))[k] == UndoAll(vars, ps)[k]
  {
    RemovedOfInsert(ps, p, k);
    if k == p.v {
      UndoRevisedDependent(vars[k], vars'[k], p, RemovedOf(ps, k), RemovedOf(Insert(ps, p), k));
    }
  }

  lemma MapsEqual<K, W>(m1: map<K, W>, m2: map<K, W>)
    requires m1.Keys == m2.Keys && forall k | k in m1 :: m1[k] == m2[k]
    ensures m1 == m2
  {
  }

  lemma UndoRevisedDependent<V>(x: Variable<V>, x': Variable<V>, p: Prune<V>, r: set<int>, r': set<int>)
    requires x' == x.(domain := x'.domain) && x'.domain <= x.domain && p.removed == x.domain - x'.domain
    requires r' == r + p.removed || (r' == r && p.removed <= r)
    ensures x'.(domain := x'.domain + r') == x.(domain := x.domain + r)
  {
    assert x'.domain + r' == x.domain + r;
  }

  /** Only domains may change, and they only lose values. */
  ghost predicate Shrunk<V>(before: Vars<V>, after: Vars<V>) {
    && after.Keys == before.Keys
    && forall k :: k in before ==>
        after[k].id == before[k].id && after[k].value == before[k].value && after[k].domain <= before[k].domain
  }

  /** The sum of the domain sizes of the listed variables: the measure that bounds propagation. */
  function TotalSize<V(==)>(vars: Vars<V>, ids: seq<V>): nat
    requires forall k :: k in ids ==> k in vars
  {
    if ids == [] then 0 else |vars[ids[0]].domain| + TotalSize(vars, ids[1..])
  }

  lemma SubsetSize(a: set<int>, b: set<int>)
    requires a <= b
    ensures |a| <= |b|
    ensures a < b ==> |a| < |b|
  {
    assert b == a + (b - a);
  }

  /** Shrinking never grows the measure, and shrinking a listed domain strictly lowers it. */
  lemma {:induction false} TotalSizeShrinks<V>(before: Vars<V>, after: Vars<V>, ids: seq<V>)
    requires Shrunk(before, after) && forall k :: k in ids ==> k in before
    ensures TotalSize(after, ids) <= TotalSize(before, ids)
    ensures (exists k :: k in ids && after[k].domain < before[k].domain) ==>
      TotalSize(after, ids) < TotalSize(before, ids)
    decreases |ids|
  {
    if ids != [] {
      SubsetSize(after[ids[0]].domain, before[ids[0]].domain);
      TotalSizeShrinks(before, after, ids[1..]);
      if exists k :: k in ids && after[k].domain < before[k].domain {
        var k :| k in ids && after[k].domain < before[k].domain;
        if k != ids[0] {
          assert k in ids[1..];
        }
      }
    }
  }
}
