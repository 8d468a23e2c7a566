// The binary extensional problem (BinaryTuple, BinaryConstraint, BinaryConstraintStorage,
// BinaryCSP) and Arc.prune, and the network through which the generic engine solves it with
// ForwardChecking or MaintainingArcConsistency.

module Binary {
  import opened Wrappers
  import opened Variables
  import opened Engine
  import opened Propagation
  import opened Backtracking
  import opened Solving

  /** An allowed pair of values; Java equality and hashing compare both values. */
  datatype BinaryTuple = BinaryTuple(val1: int, val2: int)

  predicate Matches(t: BinaryTuple, v1: int, v2: int) {
    t.val1 == v1 && t.val2 == v2
  }

  /** A tuple matches exactly the pair it holds, so a tuple set behaves as a set of pairs. */
  lemma MatchesIsEquality(t: BinaryTuple, v1: int, v2: int)
    ensures Matches(t, v1, v2) <==> t == BinaryTuple(v1, v2)
  {
  }

  /** The allowed pairs between var1 and var2, in insertion order. */
  datatype BinaryConstraint = BinaryConstraint(var1: int, var2: int, tuples: seq<BinaryTuple>)

  /** Java equality of constraints: the scope alone, whatever the tuples. */
  predicate SameConstraint(c: BinaryConstraint, d: BinaryConstraint) {
    c.var1 == d.var1 && c.var2 == d.var2
  }

  /** Constraint equality ignores the tuples: two different tables over one scope compare equal. */
  lemma SameConstraintIgnoresTuples(c: BinaryConstraint, ts: seq<BinaryTuple>)
    ensures SameConstraint(c, c.(tuples := ts))
    ensures ts != c.tuples ==> c != c.(tuples := ts)
  {
  }

  /** getFirstSupported: the first values of the tuples whose second value is in d. */
  function FirstSupported(c: BinaryConstraint, d: set<int>): (r: set<int>)
    ensures forall v :: v in r <==> exists t :: t in c.tuples && t.val2 in d && t.val1 == v
    ensures d == {} ==> r == {}
  {
    CollectFirst(c.tuples, d, {})
  }

  function CollectFirst(ts: seq<BinaryTuple>, d: set<int>, supported: set<int>): (r: set<int>)
    ensures forall v :: v in r <==> v in supported || exists t :: t in ts && t.val2 in d && t.val1 == v
    decreases |ts|
  {
    if ts == [] then supported
    else
      var r := CollectFirst(ts[1..], d, if ts[0].val2 in d then supported + {ts[0].val1} else supported);
      assert forall t :: t in ts <==> t == ts[0] || t in ts[1..];
      r
  }

  /** getSecondSupported: the second values of the tuples whose first value is in d. */
  function SecondSupported(c: BinaryConstraint, d: set<int>): (r: set<int>)
    ensures forall v :: v in r <==> exists t :: t in c.tuples && t.val1 in d && t.val2 == v
    ensures d == {} ==> r == {}
  {
    CollectSecond(c.tuples, d, {})
  }

  function CollectSecond(ts: seq<BinaryTuple>, d: set<int>, supported: set<int>): (r: set<int>)
    ensures forall v :: v in r <==> v in supported || exists t :: t in ts && t.val1 in d && t.val2 == v
    decreases |ts|
  {
    if ts == [] then supported
    else
      var r := CollectSecond(ts[1..], d, if ts[0].val1 in d then supported + {ts[0].val2} else supported);
      assert forall t :: t in ts <==> t == ts[0] || t in ts[1..];
      r
  }

  /**
   * Both queries are monotone in the given domain and stay within the projection of the
   * tuples on the queried variable.
   */
  lemma SupportedMonotone(c: BinaryConstraint, d: set<int>, d': set<int>)
    requires d <= d'
    ensures FirstSupported(c, d) <= FirstSupported(c, d')
    ensures SecondSupported(c, d) <= SecondSupported(c, d')
    ensures forall v | v in FirstSupported(c, d) :: exists t :: t in c.tuples && t.val1 == v
    ensures forall v | v in SecondSupported(c, d) :: exists t :: t in c.tuples && t.val2 == v
  {
  }

  /**
   * BinaryConstraintStorage: constraints indexed by an ordered pair of ids, in nested
   * insertion-ordered maps. `keys` lists the first ids in insertion order; each row lists its
   * second ids in insertion order.
   */
  datatype Row = Row(keys: seq<int>, entries: map<int, BinaryConstraint>)
  datatype Storage = Storage(keys: seq<int>, rows: map<int, Row>)

  ghost predicate RowWf(row: Row) {
    && NoDup(row.keys)
    && (forall i | 0 <= i < |row.keys| :: row.keys[i] in row.entries)
    && (forall k | k in row.entries :: k in row.keys)
  }

  /** The nested maps are consistent with their insertion orders. */
  ghost predicate StorageWf(st: Storage) {
    && NoDup(st.keys)
    && (forall i | 0 <= i < |st.keys| :: st.keys[i] in st.rows)
    && (forall k | k in st.rows :: k in st.keys)
    && (forall k | k in st.rows :: RowWf(st.rows[k]))
  }

  function EmptyStorage(): (st: Storage)
    ensures StorageWf(st) && forall i, j :: Get(st, i, j) == None
  {
    Storage([], map[])
  }

  /** get: the constraint stored under (id1, id2), or null (None) when there is none. */
  function Get(st: Storage, id1: int, id2: int): Option<BinaryConstraint> {
    if id1 !in st.rows then None
    else if id2 in st.rows[id1].entries then Some(st.rows[id1].entries[id2])
    else None
  }

  /**
   * map: stores c under (id1, id2), creating the row for id1 first if needed. A later call for
   * the same pair overwrites the constraint; every other pair is left as it was.
   */
  function Map(st: Storage, id1: int, id2: int, c: BinaryConstraint): (r: Storage)
    ensures StorageWf(st) ==> StorageWf(r)
    ensures Get(r, id1, id2) == Some(c)
    ensures forall i, j | i != id1 || j != id2 :: Get(r, i, j) == Get(st, i, j)
  {
    var st1 := if id1 in st.rows then st else Storage(st.keys + [id1], st.rows[id1 := Row([], map[])]);
    var row := st1.rows[id1];
    var row' := Row(if id2 in row.entries then row.keys else row.keys + [id2], row.entries[id2 := c]);
    NoDupAppendWhenAbsent(st.keys, id1);
    NoDupAppendWhenAbsent(row.keys, id2);
    st1.(rows := st1.rows[id1 := row'])
  }

  lemma NoDupAppendWhenAbsent(s: seq<int>, x: int)
    ensures NoDup(s) && x !in s ==> NoDup(s + [x])
  {
    NoDupAppend(s, x);
  }

  /** Every listed first id has a well-formed row. */
  lemma RowsOfWf(st: Storage)
    requires StorageWf(st)
    ensures forall i | 0 <= i < |st.keys| :: st.keys[i] in st.rows && RowWf(st.rows[st.keys[i]])
  {
    forall i | 0 <= i < |st.keys| ensures st.keys[i] in st.rows && RowWf(st.rows[st.keys[i]]) {
      var k := st.keys[i];
      assert k in st.rows;
      assert RowWf(st.rows[k]);
    }
  }

  /** getConstraints: every row's constraints in row order, rows in insertion order. */
  function GetConstraints(st: Storage): seq<BinaryConstraint>
    requires StorageWf(st)
  {
    RowsOfWf(st);
    RowsConstraints(st, st.keys)
  }

  function RowsConstraints(st: Storage, ks: seq<int>): seq<BinaryConstraint>
    requires forall i | 0 <= i < |ks| :: ks[i] in st.rows && RowWf(st.rows[ks[i]])
    decreases |ks|
  {
    if ks == [] then []
    else
      assert RowWf(st.rows[ks[0]]);
      assert forall n | 0 <= n < |st.rows[ks[0]].keys| :: st.rows[ks[0]].keys[n] in st.rows[ks[0]].entries;
      RowValues(st.rows[ks[0]], st.rows[ks[0]].keys) + RowsConstraints(st, ks[1..])
  }

  function RowValues(row: Row, ks: seq<int>): (r: seq<BinaryConstraint>)
    requires forall i | 0 <= i < |ks| :: ks[i] in row.entries
    ensures |r| == |ks| && forall n | 0 <= n < |ks| :: r[n] == row.entries[ks[n]]
    decreases |ks|
  {
    if ks == [] then [] else [row.entries[ks[0]]] + RowValues(row, ks[1..])
  }

  /** The stored pairs in the order getConstraints visits them. */
  ghost function StoredPairs(st: Storage): seq<(int, int)>
    requires StorageWf(st)
  {
    RowsOfWf(st);
    RowsPairs(st, st.keys)
  }

  ghost function RowsPairs(st: Storage, ks: seq<int>): seq<(int, int)>
    requires forall i | 0 <= i < |ks| :: ks[i] in st.rows && RowWf(st.rows[ks[i]])
    decreases |ks|
  {
    if ks == [] then [] else RowPairs(ks[0], st.rows[ks[0]]) + RowsPairs(st, ks[1..])
  }

  /** The pairs of one row, first id i, in the row's order. */
  ghost function RowPairs(i: int, row: Row): seq<(int, int)> {
    seq(|row.keys|, n requires 0 <= n < |row.keys| => (i, row.keys[n]))
  }

  /**
   * getConstraints lists each stored pair's constraint exactly once: the visited pairs are
   * distinct, they are exactly the pairs get answers for, and the n-th constraint is the one
   * stored under the n-th pair.
   */
  lemma GetConstraintsListsEach(st: Storage)
    requires StorageWf(st)
    ensures var ps := StoredPairs(st); var cs := GetConstraints(st);
      && NoDup(ps) && |cs| == |ps|
      && (forall n | 0 <= n < |ps| :: Get(st, ps[n].0, ps[n].1) == Some(cs[n]))
      && (forall i, j :: Get(st, i, j).Some? <==> (i, j) in ps)
  {
    RowsOfWf(st);
    RowsListEach(st, st.keys);
  }

  lemma {:induction false} RowsListEach(st: Storage, ks: seq<int>)
    requires forall i | 0 <= i < |ks| :: ks[i] in st.rows && RowWf(st.rows[ks[i]])
    requires NoDup(ks)
    ensures var ps := RowsPairs(st, ks); var cs := RowsConstraints(st, ks);
      && NoDup(ps) && |cs| == |ps|
      && (forall n | 0 <= n < |ps| :: Get(st, ps[n].0, ps[n].1) == Some(cs[n]))
      && (forall i, j :: (i, j) in ps <==> i in ks && j in st.rows[i].keys)
    decreases |ks|
  {
    if ks != [] {
      var i := ks[0];
      var row := st.rows[i];
      NoDupTail(ks);
      RowsListEach(st, ks[1..]);
      RowPairsFacts(i, row);
      var head := RowPairs(i, row);
      var tail := RowsPairs(st, ks[1..]);
      assert RowsPairs(st, ks) == head + tail;
      forall x | x in head ensures x !in tail {
      }
      NoDupConcat(head, tail);
      PairsMatchValues(st, head, tail, RowValues(row, row.keys), RowsConstraints(st, ks[1..]));
    }
  }

  /** One row's pairs are distinct and are exactly that row's keys under its first id. */
  lemma RowPairsFacts(i: int, row: Row)
    requires RowWf(row)
    ensures NoDup(RowPairs(i, row)) && |RowPairs(i, row)| == |row.keys|
    ensures forall p, q :: (p, q) in RowPairs(i, row) <==> p == i && q in row.keys
    ensures forall n | 0 <= n < |row.keys| :: RowPairs(i, row)[n] == (i, row.keys[n])
  {
    var head := RowPairs(i, row);
    forall p, q ensures (p, q) in head <==> p == i && q in row.keys {
      if p == i && q in row.keys {
        var n :| 0 <= n < |row.keys| && row.keys[n] == q;
        assert head[n] == (p, q);
      }
    }
  }

  /** Concatenating two pointwise-matching pair and value lists keeps them matching. */
  lemma PairsMatchValues(st: Storage, ps: seq<(int, int)>, ps': seq<(int, int)>, cs: seq<BinaryConstraint>,
                         cs': seq<BinaryConstraint>)
    requires |cs| == |ps| && forall n | 0 <= n < |ps| :: Get(st, ps[n].0, ps[n].1) == Some(cs[n])
    requires |cs'| == |ps'| && forall n | 0 <= n < |ps'| :: Get(st, ps'[n].0, ps'[n].1) == Some(cs'[n])
    ensures |cs + cs'| == |ps + ps'|
    ensures forall n | 0 <= n < |ps + ps'| :: Get(st, (ps + ps')[n].0, (ps + ps')[n].1) == Some((cs + cs')[n])
  {
    forall n | 0 <= n < |ps + ps'| ensures Get(st, (ps + ps')[n].0, (ps + ps')[n].1) == Some((cs + cs')[n]) {
      if n >= |ps| {
        assert (ps + ps')[n] == ps'[n - |ps|] && (cs + cs')[n] == cs'[n - |ps|];
      }
    }
  }

  /** BinaryCSP: one variable per bounds row, and the constraint storage. */
  datatype BinaryCsp = BinaryCsp(variables: seq<Variable<int>>, constraints: Storage)

  /**
   * The BinaryCSP constructor: variable i is a fresh AscendingVariable with id i and domain
   * bounds[i][0]..bounds[i][1]. A bounds row with fewer than two entries makes the array access
   * throw.
   */
  function NewBinaryCsp(bounds: seq<seq<int>>, constraints: Storage): (r: Result<BinaryCsp>)
    ensures r.Ok? <==> forall i | 0 <= i < |bounds| :: |bounds[i]| >= 2
    ensures r.Err? ==> r.fault == IndexOutOfRange
    ensures r.Ok? ==> r.value.constraints == constraints && |r.value.variables| == |bounds|
    ensures r.Ok? ==> Fresh(r.value)
    ensures r.Ok? ==> forall i | 0 <= i < |bounds| ::
      forall v :: v in r.value.variables[i].domain <==> bounds[i][0] <= v <= bounds[i][1]
  {
    var vs :- BuildVariables(bounds, 0, []);
    Ok(BinaryCsp(vs, constraints))
  }

  function BuildVariables(bounds: seq<seq<int>>, i: nat, built: seq<Variable<int>>): (r: Result<seq<Variable<int>>>)
    requires i <= |bounds| && |built| == i
    ensures r.Ok? <==> forall k | i <= k < |bounds| :: |bounds[k]| >= 2
    ensures r.Err? ==> r.fault == IndexOutOfRange
    ensures r.Ok? ==> |r.value| == |bounds| && r.value[..i] == built
    ensures r.Ok? ==> forall k | i <= k < |bounds| :: r.value[k] == NewVariable(k, bounds[k][0], bounds[k][1])
    decreases |bounds| - i
  {
    if i == |bounds| then Ok(built)
    else if |bounds[i]| < 2 then Err(IndexOutOfRange)
    else
      var r := BuildVariables(bounds, i + 1, built + [NewVariable(i, bounds[i][0], bounds[i][1])]);
      if r.Ok? then
        assert r.value[..i] == (r.value[..i + 1])[..i];
        r
      else r
  }

  /** The variables keyed by id, as the solver's state holds them. */
  function VarsOf(csp: BinaryCsp): (vars: Vars<int>)
    ensures forall k :: k in vars <==> 0 <= k < |csp.variables|
    ensures forall k | k in vars :: vars[k] == csp.variables[k]
  {
    map k | 0 <= k < |csp.variables| :: csp.variables[k]
  }

  /** The ids 0..n-1 in index order, the order forEachVariable visits them. */
  function Ids(n: nat): (r: seq<int>)
    ensures |r| == n && forall i | 0 <= i < n :: r[i] == i
  {
    if n == 0 then [] else Ids(n - 1) + [n - 1]
  }

  /** getBinaryConstraint: the directional lookup by ids. */
  function GetBinaryConstraint(csp: BinaryCsp, id1: int, id2: int): Option<BinaryConstraint> {
    Get(csp.constraints, id1, id2)
  }

  /** existsConstraint: a constraint is stored for the pair in either orientation. */
  predicate ExistsConstraint(csp: BinaryCsp, id1: int, id2: int) {
    GetBinaryConstraint(csp, id1, id2).Some? || GetBinaryConstraint(csp, id2, id1).Some?
  }

  /** existsConstraint does not depend on the order of its arguments. */
  lemma ExistsConstraintSymmetric(csp: BinaryCsp, id1: int, id2: int)
    ensures ExistsConstraint(csp, id1, id2) == ExistsConstraint(csp, id2, id1)
  {
  }

  /**
   * The values of the dependent Arc.prune keeps: by the (dependent, supporter) constraint's
   * first-supported query if there is one, else by the (supporter, dependent) constraint's
   * second-supported one; with neither, the null constraint is dereferenced.
   */
  function ArcSupported(csp: BinaryCsp, a: Arc<int>, d: set<int>): (r: Result<set<int>>)
    ensures r.Ok? <==> ExistsConstraint(csp, a.dependent, a.supporter)
    ensures r.Err? ==> r.fault == NullReference
  {
    match GetBinaryConstraint(csp, a.dependent, a.supporter)
    case Some(cds) => Ok(FirstSupported(cds, d))
    case None =>
      match GetBinaryConstraint(csp, a.supporter, a.dependent)
      case Some(csd) => Ok(SecondSupported(csd, d))
      case None => Err(NullReference)
  }

  /**
   * Arc.prune: keeps in the dependent's domain the values the supporter's current domain
   * supports and returns the removed ones as a Prune. It fails without a constraint for the
   * pair; otherwise only the dependent's domain changes, it loses exactly the unsupported
   * values, and undoing the Prune restores it.
   */
  function ArcPrune(csp: BinaryCsp, vars: Vars<int>, a: Arc<int>): (r: Result<(Vars<int>, Prune<int>)>)
    requires a.dependent in vars && a.supporter in vars
    ensures r.Ok? <==> ExistsConstraint(csp, a.dependent, a.supporter)
    ensures r.Ok? ==> var (vars', p) := r.value;
      && vars'.Keys == vars.Keys
      && (forall k | k in vars && k != a.dependent :: vars'[k] == vars[k])
      && var supported := ArcSupported(csp, a, CurrentDomain(vars[a.supporter])).value;
      && vars'[a.dependent].domain == vars[a.dependent].domain * supported
      && p.removed == vars[a.dependent].domain - supported
      && (vars[a.dependent].id == a.dependent ==> p.v == a.dependent && UndoPrune(vars', p) == vars)
  {
    var supported :- ArcSupported(csp, a, CurrentDomain(vars[a.supporter]));
    var (x, removed) := RetainValues(vars[a.dependent], supported);
    var p := Prune(x.id, removed);
    RetainThenUndoRestores(vars[a.dependent], supported);
    assert vars[a.dependent].id == a.dependent ==> vars[a.dependent := x][a.dependent := Undo(x, p)] == vars;
    Ok((vars[a.dependent := x], p))
  }

  /** What the engine asks of an arc: the one supported set Arc.prune uses, or none without a constraint. */
  function Supports(csp: BinaryCsp, a: Arc<int>, d: set<int>): seq<set<int>> {
    match ArcSupported(csp, a, d)
    case Ok(s) => [s]
    case Err(_) => []
  }

  /** The binary problem seen by the engine: ids 0..n-1, linked by existsConstraint. */
  function BinaryNetwork(csp: BinaryCsp): Network<int> {
    Network(Ids(|csp.variables|), (p, q) => ExistsConstraint(csp, p, q), (a, d, past) => Supports(csp, a, d))
  }

  /**
   * On a linked arc the engine's revision with the binary network is Arc.prune: the same
   * domains and the same record.
   */
  lemma ReviseIsArcPrune(csp: BinaryCsp, vars: Vars<int>, past: map<int, int>, a: Arc<int>)
    requires a.dependent in vars && a.supporter in vars && vars[a.dependent].id == a.dependent
    requires ExistsConstraint(csp, a.dependent, a.supporter)
    ensures ArcPrune(csp, vars, a) == Ok(Revise(BinaryNetwork(csp), vars, past, a))
  {
    var net := BinaryNetwork(csp);
    var supported := ArcSupported(csp, a, CurrentDomain(vars[a.supporter])).value;
    assert Support(net, vars, past, a) == [supported];
    var r := Revise(net, vars, past, a);
    var (vars', p) := ArcPrune(csp, vars, a).value;
    assert r.0[a.dependent] == vars'[a.dependent];
    MapsEqual(r.0, vars');
  }

  /** The binary supports do not look at the past. */
  lemma BinaryPastFree(csp: BinaryCsp)
    ensures PastFree(BinaryNetwork(csp))
  {
  }

  /** The pair (a, b) for p and q lies in the stored tuples for b given to q and a to p. */
  lemma SupportedHas(c: BinaryConstraint, a: int, b: int)
    ensures a in FirstSupported(c, {b}) <==> BinaryTuple(a, b) in c.tuples
    ensures b in SecondSupported(c, {a}) <==> BinaryTuple(a, b) in c.tuples
  {
    if a in FirstSupported(c, {b}) {
      var t :| t in c.tuples && t.val2 in {b} && t.val1 == a;
      assert t == BinaryTuple(a, b);
    }
    if b in SecondSupported(c, {a}) {
      var t :| t in c.tuples && t.val1 in {a} && t.val2 == b;
      assert t == BinaryTuple(a, b);
    }
  }

  /**
   * Value a for p is compatible with value b for q under the constraint Arc.prune consults; a
   * pair without a constraint restricts nothing.
   */
  ghost predicate PairAllowed(csp: BinaryCsp, p: int, a: int, q: int, b: int) {
    match GetBinaryConstraint(csp, p, q)
    case Some(c) => BinaryTuple(a, b) in c.tuples
    case None =>
      match GetBinaryConstraint(csp, q, p)
      case Some(c) => BinaryTuple(b, a) in c.tuples
      case None => true
  }

  /** The engine's single-pair check on the binary network is the constraint's tuple table. */
  lemma AllowsIsPairAllowed(csp: BinaryCsp, p: int, a: int, q: int, b: int)
    ensures Allows(BinaryNetwork(csp), p, a, q, b) <==> PairAllowed(csp, p, a, q, b)
  {
    var net := BinaryNetwork(csp);
    assert net.supports(Arc(p, q), {b}, map[]) == Supports(csp, Arc(p, q), {b});
    match GetBinaryConstraint(csp, p, q)
    case Some(c) =>
      var sup := FirstSupported(c, {b});
      assert Supports(csp, Arc(p, q), {b}) == [sup];
      assert InAll(a, [sup]) <==> a in sup by {
        assert [sup][0] == sup;
      }
      SupportedHas(c, a, b);
    case None =>
      match GetBinaryConstraint(csp, q, p)
      case Some(c) =>
        var sup := SecondSupported(c, {b});
        assert Supports(csp, Arc(p, q), {b}) == [sup];
        assert InAll(a, [sup]) <==> a in sup by {
          assert [sup][0] == sup;
        }
        SupportedHas(c, b, a);
      case None =>
  }

  /** No pair of distinct variables has a constraint stored in both orientations. */
  ghost predicate OneOrientation(csp: BinaryCsp) {
    forall i, j | i != j && GetBinaryConstraint(csp, i, j).Some? :: GetBinaryConstraint(csp, j, i).None?
  }

  /** With one orientation per pair, the binary network is symmetric. */
  lemma BinarySymmetric(csp: BinaryCsp)
    requires OneOrientation(csp)
    ensures Symmetric(BinaryNetwork(csp))
  {
    var net := BinaryNetwork(csp);
    forall p: int, a: int, q: int, b: int | p != q && net.linked(p, q)
      ensures Allows(net, p, a, q, b) == Allows(net, q, b, p, a)
    {
      AllowsIsPairAllowed(csp, p, a, q, b);
      AllowsIsPairAllowed(csp, q, b, p, a);
    }
  }

  /** s gives every pair with a stored constraint an allowed pair of values. */
  ghost predicate SatisfiesAll(csp: BinaryCsp, s: map<int, int>) {
    forall i, j | i in s && j in s && GetBinaryConstraint(csp, i, j).Some? ::
      BinaryTuple(s[i], s[j]) in GetBinaryConstraint(csp, i, j).value.tuples
  }

  /** As SatisfiesAll, for the constraints between two distinct variables. */
  ghost predicate SatisfiesDistinct(csp: BinaryCsp, s: map<int, int>) {
    forall i, j | i in s && j in s && i != j && GetBinaryConstraint(csp, i, j).Some? ::
      BinaryTuple(s[i], s[j]) in GetBinaryConstraint(csp, i, j).value.tuples
  }

  /** An assignment satisfying every stored constraint is one no binary revision can remove. */
  lemma SatisfiesUpholds(csp: BinaryCsp, s: map<int, int>)
    ensures SatisfiesAll(csp, s) ==> Upholds(BinaryNetwork(csp), s)
  {
    var net := BinaryNetwork(csp);
    if SatisfiesAll(csp, s) {
      forall a: Arc<int>, d: set<int>, past: map<int, int>
        | a.dependent in s && a.supporter in s && net.linked(a.dependent, a.supporter) && s[a.supporter] in d
        ensures InAll(s[a.dependent], net.supports(a, d, past))
      {
        var t := BinaryTuple(s[a.dependent], s[a.supporter]);
        var t' := BinaryTuple(s[a.supporter], s[a.dependent]);
        match GetBinaryConstraint(csp, a.dependent, a.supporter)
        case Some(c) =>
          assert t in c.tuples && t.val2 in d;
        case None =>
          var c := GetBinaryConstraint(csp, a.supporter, a.dependent).value;
          assert t' in c.tuples && t'.val1 in d;
      }
    }
  }

  /** The engine's notion of a satisfying assignment covers every binary constraint between distinct variables. */
  lemma SatisfiesIsBinary(csp: BinaryCsp, s: map<int, int>)
    ensures Satisfies(BinaryNetwork(csp), s) ==> SatisfiesDistinct(csp, s)
  {
    var net := BinaryNetwork(csp);
    if Satisfies(net, s) {
      forall i, j | i in s && j in s && i != j && GetBinaryConstraint(csp, i, j).Some?
        ensures BinaryTuple(s[i], s[j]) in GetBinaryConstraint(csp, i, j).value.tuples
      {
        assert net.linked(i, j);
        AllowsIsPairAllowed(csp, i, s[i], j, s[j]);
      }
    }
  }

  /** The facts the generic soundness and completeness theorems need, for every assignment. */
  lemma BinaryNetworkFacts(csp: BinaryCsp)
    ensures PastFree(BinaryNetwork(csp))
    ensures OneOrientation(csp) ==> Symmetric(BinaryNetwork(csp))
    ensures forall s | SatisfiesAll(csp, s) :: Upholds(BinaryNetwork(csp), s)
    ensures forall s | Satisfies(BinaryNetwork(csp), s) :: SatisfiesDistinct(csp, s)
  {
    BinaryPastFree(csp);
    if OneOrientation(csp) {
      BinarySymmetric(csp);
    }
    forall s | SatisfiesAll(csp, s) ensures Upholds(BinaryNetwork(csp), s) {
      SatisfiesUpholds(csp, s);
    }
    forall s | Satisfies(BinaryNetwork(csp), s) ensures SatisfiesDistinct(csp, s) {
      SatisfiesIsBinary(csp, s);
    }
  }

  /** No variable is assigned and each sits at the index of its id, as the constructor leaves them. */
  ghost predicate Fresh(csp: BinaryCsp) {
    forall i | 0 <= i < |csp.variables| :: csp.variables[i].id == i && csp.variables[i].value == None
  }

  /** The network's ids are exactly the keys of the solver's variables. */
  lemma VarsOfCovers(csp: BinaryCsp)
    ensures Covers(BinaryNetwork(csp), VarsOf(csp))
  {
    var net := BinaryNetwork(csp);
    forall k | k in VarsOf(csp) ensures k in net.ids {
      assert net.ids[k] == k;
    }
    forall i | 0 <= i < |net.ids| ensures net.ids[i] in VarsOf(csp) {
    }
  }

  /**
   * The BinarySolving constructor: every variable of the problem goes into the future, and the
   * solver is at rest.
   */
  function BinarySolver(csp: BinaryCsp): (st: State<int>)
    requires Fresh(csp)
    ensures AtRest(BinaryNetwork(csp), st) && st.solutions == [] && st.vars == VarsOf(csp)
    ensures forall k :: k in st.future <==> 0 <= k < |csp.variables|
  {
    VarsOfCovers(csp);
    NewSolver(BinaryNetwork(csp), VarsOf(csp))
  }

  /**
   * Solving a binary problem with ForwardChecking or MaintainingArcConsistency: every new
   * solution assigns each variable a value of its domain; with at most one orientation stored
   * per pair, every new solution satisfies every constraint between
   * two distinct variables; and when fewer solutions than the cap are stored, every assignment
   * of the domains satisfying every constraint is among them.
   */
  ghost function SolveBinary(scheme: Scheme, csp: BinaryCsp, solver: State<int>, count: int, startConsistent: bool)
    : (r: Result<State<int>>)
    requires AtRest(BinaryNetwork(csp), solver)
    ensures r.Ok? ==> forall n | |solver.solutions| <= n < |r.value.solutions| :: Complete(solver.vars, r.value.solutions[n])
    ensures r.Ok? && OneOrientation(csp) ==>
      forall n | |solver.solutions| <= n < |r.value.solutions| :: SatisfiesDistinct(csp, r.value.solutions[n])
    ensures r.Ok? && |r.value.solutions| < Cap(count) ==>
      forall s | Complete(solver.vars, s) && SatisfiesAll(csp, s) :: s in r.value.solutions
  {
    BinaryNetworkFacts(csp);
    Solve(scheme, BinaryNetwork(csp), solver, count, startConsistent)
  }
}
