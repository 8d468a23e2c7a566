// The dual encoding of an n-ary problem (ECSProblem.asBinaryCSP and decodeSolution): one binary
// variable per n-ary constraint, ranging over the indexes of its table, and one binary
// constraint per pair of n-ary constraints allowing the pairs of compatible rows.

module Dual {
  import opened Wrappers
  import opened Variables
  import opened Engine
  import opened Propagation
  import opened Solving
  import opened Assignments
  import opened Binary
  import opened Nary

  /**
   * The loop of createBounds from index i on: stores the satisfying rows of each constraint in
   * turn; an undeclared scope variable throws.
   */
  ghost function StoreAll(vars: Vars<string>, nary: seq<NaryConstraint>, i: nat): (r: Result<seq<NaryConstraint>>)
    requires i <= |nary| && forall n | 0 <= n < |nary| :: NoDup(nary[n].scope)
    ensures (forall n, k | i <= n < |nary| && k in nary[n].scope :: k in vars) ==> r.Ok?
    ensures r.Err? ==> r.fault == NullReference && exists n, k :: i <= n < |nary| && k in nary[n].scope && k !in vars
    ensures r.Ok? ==> |r.value| == |nary| && r.value[..i] == nary[..i]
    ensures r.Ok? ==> forall n | i <= n < |nary| :: Stored(vars, nary[n], r.value[n])
    decreases |nary| - i
  {
    if i == |nary| then Ok(nary)
    else
      var stored := StoreValidAssignments(nary[i], vars);
      if stored.Err? then
        assert exists k :: k in nary[i].scope && k !in vars;
        Err(NullReference)
      else
        var nary' := nary[i := stored.value];
        assert |nary'| == |nary| && forall n | 0 <= n < |nary'| :: NoDup(nary'[n].scope);
        var res := StoreAll(vars, nary', i + 1);
        StoreAllStep(vars, nary, nary', i, stored.value, res);
        res
  }

  /** One turn of the createBounds loop, given what the rest of the loop does. */
  lemma StoreAllStep(vars: Vars<string>, nary: seq<NaryConstraint>, nary': seq<NaryConstraint>, i: nat,
                     c: NaryConstraint, res: Result<seq<NaryConstraint>>)
    requires i < |nary| && nary' == nary[i := c] && Stored(vars, nary[i], c)
    requires (forall n, k | i + 1 <= n < |nary'| && k in nary'[n].scope :: k in vars) ==> res.Ok?
    requires res.Err? ==> exists n, k :: i + 1 <= n < |nary'| && k in nary'[n].scope && k !in vars
    requires res.Ok? ==> |res.value| == |nary'| && res.value[..i + 1] == nary'[..i + 1]
    requires res.Ok? ==> forall n | i + 1 <= n < |nary'| :: Stored(vars, nary'[n], res.value[n])
    ensures (forall n, k | i <= n < |nary| && k in nary[n].scope :: k in vars) ==> res.Ok?
    ensures res.Err? ==> exists n, k :: i <= n < |nary| && k in nary[n].scope && k !in vars
    ensures res.Ok? ==> res.value[..i] == nary[..i]
    ensures res.Ok? ==> forall n | i <= n < |nary| :: Stored(vars, nary[n], res.value[n])
  {
    assert forall n | i + 1 <= n < |nary| :: nary'[n] == nary[n];
    if res.Err? {
      var n, k :| i + 1 <= n < |nary'| && k in nary'[n].scope && k !in vars;
      assert nary'[n] == nary[n];
    }
    if res.Ok? {
      assert res.value[..i] == res.value[..i + 1][..i];
      assert res.value[i] == res.value[..i + 1][i] == c;
      forall n | i <= n < |nary| ensures Stored(vars, nary[n], res.value[n]) {
        if n > i {
          assert nary'[n] == nary[n];
        }
      }
    }
  }

  /** createBounds: dual variable i ranges over the row indexes of constraint i, 0 to rows - 1. */
  function Bounds(nary: seq<NaryConstraint>): (bounds: seq<seq<int>>)
    ensures |bounds| == |nary|
    ensures forall i | 0 <= i < |nary| :: bounds[i] == [0, |nary[i].rows| - 1]
  {
    seq(|nary|, i requires 0 <= i < |nary| => [0, |nary[i].rows| - 1])
  }

  /** The binary constraint between dual variables i and j: the compatible pairs of their rows. */
  function DualConstraint(nary: seq<NaryConstraint>, i: int, j: int): BinaryConstraint
    requires 0 <= i < |nary| && 0 <= j < |nary|
  {
    BinaryConstraint(i, j, AllowedTuples(nary[i], nary[j]))
  }

  /** What the storage holds once the pairs before (i, j) in the nested loops are stored. */
  ghost predicate StoredBefore(nary: seq<NaryConstraint>, st: Storage, i: int, j: int) {
    && StorageWf(st)
    && forall a, b :: Get(st, a, b) ==
         if 0 <= a < b < |nary| && (a < i || (a == i && b < j)) then Some(DualConstraint(nary, a, b)) else None
  }

  /**
   * createBinaryConstraints: a constraint for every pair i < j, stored only under (i, j), and
   * nothing else.
   */
  function CreateBinaryConstraints(nary: seq<NaryConstraint>): (st: Storage)
    ensures StorageWf(st)
    ensures forall a, b :: Get(st, a, b) == if 0 <= a < b < |nary| then Some(DualConstraint(nary, a, b)) else None
  {
    CreateRows(nary, 0, EmptyStorage())
  }

  /** The outer loop, from i on. */
  function CreateRows(nary: seq<NaryConstraint>, i: nat, st: Storage): (r: Storage)
    requires i <= |nary| && StoredBefore(nary, st, i, i + 1)
    ensures StoredBefore(nary, r, |nary|, |nary| + 1)
    decreases |nary| - i
  {
    if i == |nary| then st
    else
      var st' := CreateRow(nary, i, i + 1, st);
      assert StoredBefore(nary, st', i + 1, i + 2) by {
        forall a, b ensures Get(st', a, b) ==
          if 0 <= a < b < |nary| && (a < i + 1 || (a == i + 1 && b < i + 2)) then Some(DualConstraint(nary, a, b)) else None
        {
          assert Get(st', a, b) ==
            if 0 <= a < b < |nary| && (a < i || (a == i && b < |nary|)) then Some(DualConstraint(nary, a, b)) else None;
        }
      }
      CreateRows(nary, i + 1, st')
  }

  /** The inner loop for row i, from column j on. */
  function CreateRow(nary: seq<NaryConstraint>, i: nat, j: nat, st: Storage): (r: Storage)
    requires i < |nary| && i < j <= |nary| && StoredBefore(nary, st, i, j)
    ensures StoredBefore(nary, r, i, |nary|)
    decreases |nary| - j
  {
    if j == |nary| then st
    else
      var st' := Map(st, i, j, DualConstraint(nary, i, j));
      assert StoredBefore(nary, st', i, j + 1) by {
        forall a, b ensures Get(st', a, b) ==
          if 0 <= a < b < |nary| && (a < i || (a == i && b < j + 1)) then Some(DualConstraint(nary, a, b)) else None
        {
          if a != i || b != j {
            assert Get(st', a, b) == Get(st, a, b);
          }
        }
      }
      CreateRow(nary, i, j + 1, st')
  }

  /**
   * asBinaryCSP: applies the unary constraints, stores every constraint's satisfying rows and
   * builds the binary problem over their indexes. The n-ary problem comes back with the
   * narrowed domains and the filled tables, which decodeSolution reads.
   */
  ghost function AsBinaryCsp(p: EcsProblem): (r: Result<(EcsProblem, BinaryCsp)>)
    requires forall i | 0 <= i < |p.nary| :: NoDup(p.nary[i].scope)
    ensures ((forall i | 0 <= i < |p.unary| :: p.unary[i].name in p.variables)
      && (forall i, k | 0 <= i < |p.nary| && k in p.nary[i].scope :: k in p.variables)) ==> r.Ok?
    ensures r.Err? ==> r.fault == NullReference
    ensures r.Ok? ==> var (p', csp) := r.value;
      && Ok(p'.variables) == ApplyUnary(p.variables, p.unary)
      && p'.names == p.names && p'.relevant == p.relevant && p'.unary == p.unary && |p'.nary| == |p.nary|
      && (forall i | 0 <= i < |p.nary| :: Stored(p'.variables, p.nary[i], p'.nary[i]))
      && DualOf(p'.nary, csp)
  {
    var vars :- ApplyUnary(p.variables, p.unary);
    var stored :- StoreAll(vars, p.nary, 0);
    var csp := BuildDual(stored);
    Ok((p.(variables := vars, nary := stored), csp))
  }

  /**
   * csp is the dual of the tables: one fresh variable per table over its row indexes, and a
   * constraint under (a, b) exactly for a < b.
   */
  ghost predicate DualOf(nary: seq<NaryConstraint>, csp: BinaryCsp) {
    && |csp.variables| == |nary| && Binary.Fresh(csp)
    && (forall i | 0 <= i < |nary| :: forall v :: v in csp.variables[i].domain <==> 0 <= v < |nary[i].rows|)
    && (forall a, b :: GetBinaryConstraint(csp, a, b) ==
         if 0 <= a < b < |nary| then Some(DualConstraint(nary, a, b)) else None)
  }

  /** The BinaryCSP built from the bounds and constraints of the filled tables. */
  function BuildDual(nary: seq<NaryConstraint>): (csp: BinaryCsp)
    ensures DualOf(nary, csp)
  {
    var bounds := Bounds(nary);
    var cs := CreateBinaryConstraints(nary);
    var r := NewBinaryCsp(bounds, cs);
    assert r.Ok?;
    var csp := r.value;
    assert forall i | 0 <= i < |nary| :: bounds[i][0] == 0 && bounds[i][1] == |nary[i].rows| - 1;
    assert forall a, b :: GetBinaryConstraint(csp, a, b) == Get(cs, a, b);
    csp
  }

  /** The dual problem stores one orientation per pair, so the binary solver's soundness applies. */
  lemma DualOneOrientation(p: EcsProblem)
    requires forall i | 0 <= i < |p.nary| :: NoDup(p.nary[i].scope)
    requires AsBinaryCsp(p).Ok?
    ensures OneOrientation(AsBinaryCsp(p).value.1)
  {
  }

  /** The rows a binary assignment selects, in the given order of dual variables; an index out of range throws. */
  function Selection(nary: seq<NaryConstraint>, s: map<int, int>, order: seq<int>): (r: Result<seq<Assignment>>)
    requires forall i | 0 <= i < |order| :: order[i] in s
    ensures r.Ok? <==> forall i | 0 <= i < |order| :: 0 <= order[i] < |nary| && 0 <= s[order[i]] < |nary[order[i]].rows|
    ensures r.Err? ==> r.fault == IndexOutOfRange
    ensures r.Ok? ==> |r.value| == |order| && forall i | 0 <= i < |order| :: r.value[i] == nary[order[i]].rows[s[order[i]]]
    decreases |order|
  {
    if order == [] then Ok([])
    else
      var head :- if 0 <= order[0] < |nary| then GetValue(nary[order[0]], s[order[0]]) else Err(IndexOutOfRange);
      var tail :- Selection(nary, s, order[1..]);
      assert forall i | 1 <= i < |order| :: order[i] == order[1..][i - 1];
      Ok([head] + tail)
  }

  /** Every two of the rows agree wherever both assign a variable. */
  ghost predicate Pairwise(rows: seq<Assignment>) {
    forall i, j | 0 <= i < |rows| && 0 <= j < |rows| :: Compatible(rows[i], rows[j])
  }

  /**
   * putAll of each row in turn into acc, the later value winning. The result assigns exactly
   * the variables of acc and the rows, and when acc and the rows are pairwise compatible it
   * agrees with every one of them.
   */
  function PutAll(acc: Assignment, rows: seq<Assignment>): (r: Assignment)
    ensures forall k :: k in r <==> k in acc || exists i :: 0 <= i < |rows| && k in rows[i]
    ensures Pairwise(rows) && (forall i | 0 <= i < |rows| :: Compatible(acc, rows[i])) ==>
      Agrees(acc, r) && forall i | 0 <= i < |rows| :: Agrees(rows[i], r)
    decreases |rows|
  {
    if rows == [] then acc
    else
      var acc' := acc + rows[0];
      var r := PutAll(acc', rows[1..]);
      PutAllStep(acc, rows, r);
      r
  }

  lemma PutAllStep(acc: Assignment, rows: seq<Assignment>, r: Assignment)
    requires rows != []
    requires forall k :: k in r <==> k in acc + rows[0] || exists i :: 0 <= i < |rows[1..]| && k in rows[1..][i]
    requires Pairwise(rows[1..]) && (forall i | 0 <= i < |rows[1..]| :: Compatible(acc + rows[0], rows[1..][i])) ==>
      Agrees(acc + rows[0], r) && forall i | 0 <= i < |rows[1..]| :: Agrees(rows[1..][i], r)
    ensures forall k :: k in r <==> k in acc || exists i :: 0 <= i < |rows| && k in rows[i]
    ensures Pairwise(rows) && (forall i | 0 <= i < |rows| :: Compatible(acc, rows[i])) ==>
      Agrees(acc, r) && forall i | 0 <= i < |rows| :: Agrees(rows[i], r)
  {
    assert forall i | 1 <= i < |rows| :: rows[i] == rows[1..][i - 1];
    assert forall i | 0 <= i < |rows[1..]| :: rows[1..][i] == rows[i + 1];
    forall k ensures k in r <==> k in acc || exists i :: 0 <= i < |rows| && k in rows[i] {
      if k in rows[0] {
        assert 0 < |rows| && k in rows[0];
      }
    }
    if Pairwise(rows) && (forall i | 0 <= i < |rows| :: Compatible(acc, rows[i])) {
      forall i | 0 <= i < |rows[1..]| ensures Compatible(acc + rows[0], rows[1..][i]) {
        assert Compatible(acc, rows[i + 1]) && Compatible(rows[0], rows[i + 1]);
      }
      assert Compatible(acc, rows[0]);
      forall i | 0 <= i < |rows| ensures Agrees(rows[i], r) {
        if i > 0 {
          assert Agrees(rows[1..][i - 1], r);
        }
      }
    }
  }

  /**
   * decodeSolution: the union of the rows the binary solution selects, visited in the given
   * order of its dual variables.
   */
  function DecodeSolution(nary: seq<NaryConstraint>, s: map<int, int>, order: seq<int>): (r: Result<Assignment>)
    requires Enumerates(order, s.Keys)
    ensures r.Ok? <==> forall i | i in s :: 0 <= i < |nary| && 0 <= s[i] < |nary[i].rows|
    ensures r.Err? ==> r.fault == IndexOutOfRange
    ensures r.Ok? ==> forall k :: k in r.value <==> exists i | i in s :: k in nary[i].rows[s[i]]
    ensures r.Ok? && Pairwise(Selection(nary, s, order).value) ==>
      forall i | i in s :: Agrees(nary[i].rows[s[i]], r.value)
  {
    var rows :- Selection(nary, s, order);
    var r := PutAll(map[], rows);
    SelectedRows(nary, s, order, rows, r);
    Ok(r)
  }

  /** The selected rows in the order of the dual variables are the rows of all of s. */
  lemma SelectedRows(nary: seq<NaryConstraint>, s: map<int, int>, order: seq<int>, rows: seq<Assignment>, r: Assignment)
    requires Enumerates(order, s.Keys) && Selection(nary, s, order) == Ok(rows)
    requires forall k :: k in r <==> exists i :: 0 <= i < |rows| && k in rows[i]
    requires Pairwise(rows) && (forall i | 0 <= i < |rows| :: Compatible(map[], rows[i])) ==>
      forall i | 0 <= i < |rows| :: Agrees(rows[i], r)
    ensures forall k :: k in r <==> exists i | i in s :: k in nary[i].rows[s[i]]
    ensures Pairwise(rows) ==> forall i | i in s :: Agrees(nary[i].rows[s[i]], r)
  {
    forall k ensures k in r <==> exists i | i in s :: k in nary[i].rows[s[i]] {
      if k in r {
        var n :| 0 <= n < |rows| && k in rows[n];
        assert order[n] in s && k in nary[order[n]].rows[s[order[n]]];
      }
      if i :| i in s && k in nary[i].rows[s[i]] {
        var n :| 0 <= n < |order| && order[n] == i;
        assert k in rows[n];
      }
    }
    if Pairwise(rows) {
      forall i | 0 <= i < |rows| ensures Compatible(map[], rows[i]) {
        CompatibleFacts(rows[i], map[]);
      }
      forall i | i in s ensures Agrees(nary[i].rows[s[i]], r) {
        var n :| 0 <= n < |order| && order[n] == i;
        assert Agrees(rows[n], r);
      }
    }
  }

  /** No table has been filled yet, as when a problem has just been read. */
  ghost predicate Unfilled(p: EcsProblem) {
    forall i | 0 <= i < |p.nary| :: p.nary[i].rows == [] && NoDup(p.nary[i].scope)
  }

  /** Each table holds exactly the rows its constraint must hold over the given domains. */
  ghost predicate Tables(vars: Vars<string>, nary: seq<NaryConstraint>) {
    forall i | 0 <= i < |nary| :: forall row :: row in nary[i].rows <==> Satisfying(vars, nary[i], row)
  }

  /**
   * asBinaryCSP of an unfilled problem fills each table with exactly the rows its constraint
   * must hold, and builds their dual.
   */
  lemma AsBinaryCspTables(p: EcsProblem)
    requires Unfilled(p) && AsBinaryCsp(p).Ok?
    ensures var (p', csp) := AsBinaryCsp(p).value; Tables(p'.variables, p'.nary) && DualOf(p'.nary, csp)
  {
    var (p', csp) := AsBinaryCsp(p).value;
    forall i | 0 <= i < |p'.nary|
      ensures forall row :: row in p'.nary[i].rows <==> Satisfying(p'.variables, p'.nary[i], row)
    {
      assert Stored(p'.variables, p.nary[i], p'.nary[i]);
      assert p'.nary[i].rows[|p.nary[i].rows|..] == p'.nary[i].rows;
    }
  }

  /** Rows selected by a binary solution of the dual are pairwise compatible. */
  lemma SelectedCompatible(nary: seq<NaryConstraint>, csp: BinaryCsp, s: map<int, int>, i: int, j: int)
    requires DualOf(nary, csp) && SatisfiesDistinct(csp, s)
    requires i in s && j in s && 0 <= i < |nary| && 0 <= j < |nary|
    requires 0 <= s[i] < |nary[i].rows| && 0 <= s[j] < |nary[j].rows|
    ensures Compatible(nary[i].rows[s[i]], nary[j].rows[s[j]])
  {
    if i < j {
      assert GetBinaryConstraint(csp, i, j) == Some(DualConstraint(nary, i, j));
    } else if j < i {
      assert GetBinaryConstraint(csp, j, i) == Some(DualConstraint(nary, j, i));
      CompatibleFacts(nary[j].rows[s[j]], nary[i].rows[s[i]]);
    }
  }

  /** A complete assignment of the dual problem selects one row of every table. */
  lemma DualIndexes(nary: seq<NaryConstraint>, csp: BinaryCsp, s: map<int, int>)
    requires DualOf(nary, csp) && Complete(VarsOf(csp), s)
    ensures forall i :: i in s <==> 0 <= i < |nary|
    ensures forall i | i in s :: 0 <= s[i] < |nary[i].rows|
  {
    forall i | i in s ensures 0 <= s[i] < |nary[i].rows| {
      assert s[i] in CurrentDomain(VarsOf(csp)[i]);
    }
  }

  /** The rows a binary solution of the dual selects are pairwise compatible. */
  lemma SelectionPairwise(nary: seq<NaryConstraint>, csp: BinaryCsp, s: map<int, int>, order: seq<int>)
    requires DualOf(nary, csp) && Enumerates(order, s.Keys) && SatisfiesDistinct(csp, s)
    requires forall i | i in s :: 0 <= i < |nary| && 0 <= s[i] < |nary[i].rows|
    ensures Selection(nary, s, order).Ok? && Pairwise(Selection(nary, s, order).value)
  {
    var rows := Selection(nary, s, order).value;
    forall a, b | 0 <= a < |rows| && 0 <= b < |rows| ensures Compatible(rows[a], rows[b]) {
      SelectedCompatible(nary, csp, s, order[a], order[b]);
    }
  }

  /** An assignment agreeing with a satisfying row of every table satisfies every constraint. */
  lemma RowsSatisfy(vars: Vars<string>, nary: seq<NaryConstraint>, s: map<int, int>, d: Assignment)
    requires Tables(vars, nary) && forall i :: i in s <==> 0 <= i < |nary|
    requires forall i | i in s :: 0 <= s[i] < |nary[i].rows| && Agrees(nary[i].rows[s[i]], d)
    ensures SatisfiesNary(nary, d)
  {
    forall i | 0 <= i < |nary|
      ensures (forall k | k in nary[i].scope :: k in d) && nary[i].sat(Restrict(d, ScopeSet(nary[i])))
    {
      var row := nary[i].rows[s[i]];
      assert Satisfying(vars, nary[i], row);
      MapsEqual(Restrict(d, ScopeSet(nary[i])), row);
    }
  }

  /**
   * Decoding is sound: a solution of the dual problem, one row index per table satisfying every
   * binary constraint, decodes to an assignment satisfying every n-ary constraint, and that
   * assignment agrees with each selected row.
   */
  lemma DecodeSound(vars: Vars<string>, nary: seq<NaryConstraint>, csp: BinaryCsp, s: map<int, int>, order: seq<int>)
    requires Tables(vars, nary) && DualOf(nary, csp) && Enumerates(order, s.Keys)
    requires Complete(VarsOf(csp), s) && SatisfiesDistinct(csp, s)
    ensures DecodeSolution(nary, s, order).Ok?
    ensures SatisfiesNary(nary, DecodeSolution(nary, s, order).value)
    ensures forall i | i in s :: Agrees(nary[i].rows[s[i]], DecodeSolution(nary, s, order).value)
  {
    DualIndexes(nary, csp, s);
    SelectionPairwise(nary, csp, s, order);
    RowsSatisfy(vars, nary, s, DecodeSolution(nary, s, order).value);
  }

  /** The index of a row in a table that holds it. */
  ghost function IndexOf(rows: seq<Assignment>, row: Assignment): (n: nat)
    requires row in rows
    ensures n < |rows| && rows[n] == row
  {
    var n :| 0 <= n < |rows| && rows[n] == row; n
  }

  /** The variables some constraint's scope holds. */
  ghost function Constrained(nary: seq<NaryConstraint>): set<string> {
    set i, k | 0 <= i < |nary| && k in nary[i].scope :: k
  }

  lemma InConstrained(nary: seq<NaryConstraint>, i: int, k: string)
    requires 0 <= i < |nary| && k in ScopeSet(nary[i])
    ensures k in Constrained(nary)
  {
  }

  /**
   * The dual solution of an n-ary one: for each table, the index of the row a gives its scope,
   * or -1 when the table lacks that row.
   */
  ghost function Encode(nary: seq<NaryConstraint>, a: Assignment): (s: map<int, int>)
    ensures forall i :: i in s <==> 0 <= i < |nary|
    ensures forall i | 0 <= i < |nary| && Restrict(a, ScopeSet(nary[i])) in nary[i].rows ::
      0 <= s[i] < |nary[i].rows| && nary[i].rows[s[i]] == Restrict(a, ScopeSet(nary[i]))
    ensures forall i | 0 <= i < |nary| && Restrict(a, ScopeSet(nary[i])) !in nary[i].rows :: s[i] == -1
  {
    map i | 0 <= i < |nary| ::
      var row := Restrict(a, ScopeSet(nary[i]));
      if row in nary[i].rows then IndexOf(nary[i].rows, row) else -1
  }

  /** Over the tables' domains, the row an n-ary solution gives each scope is in its table. */
  lemma SolutionRows(vars: Vars<string>, nary: seq<NaryConstraint>, a: Assignment)
    requires Tables(vars, nary) && Complete(vars, a) && SatisfiesNary(nary, a)
    ensures forall i | 0 <= i < |nary| :: Restrict(a, ScopeSet(nary[i])) in nary[i].rows
  {
    forall i | 0 <= i < |nary| ensures Restrict(a, ScopeSet(nary[i])) in nary[i].rows {
      assert Satisfying(vars, nary[i], Restrict(a, ScopeSet(nary[i])));
    }
  }

  /** The encoding of an n-ary solution is a complete assignment of the dual problem. */
  lemma EncodeIsComplete(nary: seq<NaryConstraint>, csp: BinaryCsp, a: Assignment)
    requires DualOf(nary, csp) && forall i | 0 <= i < |nary| :: Restrict(a, ScopeSet(nary[i])) in nary[i].rows
    ensures Complete(VarsOf(csp), Encode(nary, a))
  {
    var s := Encode(nary, a);
    forall i | i in VarsOf(csp) ensures s[i] in CurrentDomain(VarsOf(csp)[i]) {
      assert csp.variables[i].value == None;
    }
  }

  /** The encoding of an n-ary solution satisfies every constraint of the dual problem. */
  lemma EncodeSatisfies(nary: seq<NaryConstraint>, csp: BinaryCsp, a: Assignment)
    requires DualOf(nary, csp) && forall i | 0 <= i < |nary| :: Restrict(a, ScopeSet(nary[i])) in nary[i].rows
    ensures SatisfiesAll(csp, Encode(nary, a))
  {
    var s := Encode(nary, a);
    forall i, j | i in s && j in s && GetBinaryConstraint(csp, i, j).Some?
      ensures BinaryTuple(s[i], s[j]) in GetBinaryConstraint(csp, i, j).value.tuples
    {
      assert Compatible(nary[i].rows[s[i]], nary[j].rows[s[j]]);
    }
  }

  /** The rows an encoding selects are restrictions of one assignment, so pairwise compatible. */
  lemma EncodePairwise(nary: seq<NaryConstraint>, a: Assignment, order: seq<int>)
    requires forall i | 0 <= i < |nary| :: Restrict(a, ScopeSet(nary[i])) in nary[i].rows
    requires Enumerates(order, Encode(nary, a).Keys)
    ensures Selection(nary, Encode(nary, a), order).Ok?
    ensures Pairwise(Selection(nary, Encode(nary, a), order).value)
  {
    var s := Encode(nary, a);
    assert forall n | 0 <= n < |order| :: order[n] in s;
    var rows := Selection(nary, s, order).value;
    forall x, y | 0 <= x < |rows| && 0 <= y < |rows| ensures Compatible(rows[x], rows[y]) {
      assert rows[x] == Restrict(a, ScopeSet(nary[order[x]]));
      assert rows[y] == Restrict(a, ScopeSet(nary[order[y]]));
    }
  }

  /** Decoding the encoding of an assignment gives it back on the constrained variables. */
  lemma EncodeDecodes(nary: seq<NaryConstraint>, a: Assignment, order: seq<int>)
    requires forall i | 0 <= i < |nary| :: Restrict(a, ScopeSet(nary[i])) in nary[i].rows
    requires Enumerates(order, Encode(nary, a).Keys)
    ensures DecodeSolution(nary, Encode(nary, a), order) == Ok(Restrict(a, Constrained(nary)))
  {
    EncodePairwise(nary, a, order);
    UnionOfRestrictions(nary, a, Encode(nary, a), DecodeSolution(nary, Encode(nary, a), order).value);
  }

  /** An assignment made of restrictions of a, one per table, is a on the constrained variables. */
  lemma UnionOfRestrictions(nary: seq<NaryConstraint>, a: Assignment, s: map<int, int>, d: Assignment)
    requires forall i :: i in s <==> 0 <= i < |nary|
    requires forall i | i in s :: 0 <= s[i] < |nary[i].rows| && nary[i].rows[s[i]] == Restrict(a, ScopeSet(nary[i]))
    requires forall k :: k in d <==> exists i | i in s :: k in nary[i].rows[s[i]]
    requires forall i | i in s :: Agrees(nary[i].rows[s[i]], d)
    ensures d == Restrict(a, Constrained(nary))
  {
    var e := Restrict(a, Constrained(nary));
    UnionWithin(nary, a, s, d, e);
    UnionCovers(nary, a, s, d, e);
    SameAssignment(nary, a, d, e);
  }

  lemma SameAssignment(nary: seq<NaryConstraint>, a: Assignment, d: Assignment, e: Assignment)
    requires e == Restrict(a, Constrained(nary))
    requires forall k | k in d :: k in e && d[k] == e[k]
    requires forall k | k in e :: k in d
    ensures d == Restrict(a, Constrained(nary))
  {
    assert d.Keys == e.Keys;
  }

  lemma UnionWithin(nary: seq<NaryConstraint>, a: Assignment, s: map<int, int>, d: Assignment, e: Assignment)
    requires forall i | i in s :: 0 <= i < |nary| && 0 <= s[i] < |nary[i].rows| && nary[i].rows[s[i]] == Restrict(a, ScopeSet(nary[i]))
    requires forall k :: k in d ==> exists i | i in s :: k in nary[i].rows[s[i]]
    requires forall i | i in s :: Agrees(nary[i].rows[s[i]], d)
    requires e == Restrict(a, Constrained(nary))
    ensures forall k | k in d :: k in e && d[k] == e[k]
  {
    forall k | k in d ensures k in e && d[k] == e[k] {
      var i :| i in s && k in nary[i].rows[s[i]];
      FromRow(nary, a, i, nary[i].rows[s[i]], k);
    }
  }

  lemma UnionCovers(nary: seq<NaryConstraint>, a: Assignment, s: map<int, int>, d: Assignment, e: Assignment)
    requires forall i :: i in s <==> 0 <= i < |nary|
    requires forall i | i in s :: 0 <= s[i] < |nary[i].rows| && nary[i].rows[s[i]] == Restrict(a, ScopeSet(nary[i]))
    requires forall k :: (exists i | i in s :: k in nary[i].rows[s[i]]) ==> k in d
    requires e == Restrict(a, Constrained(nary))
    ensures forall k | k in e :: k in d
  {
    forall k | k in e ensures k in d {
      OfConstrained(nary, a, s, k);
    }
  }

  lemma FromRow(nary: seq<NaryConstraint>, a: Assignment, i: int, row: Assignment, k: string)
    requires 0 <= i < |nary| && row == Restrict(a, ScopeSet(nary[i])) && k in row
    ensures k in Restrict(a, Constrained(nary)) && row[k] == Restrict(a, Constrained(nary))[k]
  {
    InConstrained(nary, i, k);
  }

  lemma OfConstrained(nary: seq<NaryConstraint>, a: Assignment, s: map<int, int>, k: string)
    requires forall i :: i in s <==> 0 <= i < |nary|
    requires forall i | i in s :: 0 <= s[i] < |nary[i].rows| && nary[i].rows[s[i]] == Restrict(a, ScopeSet(nary[i]))
    requires k in Restrict(a, Constrained(nary))
    ensures exists i | i in s :: k in nary[i].rows[s[i]]
  {
    var i :| 0 <= i < |nary| && k in nary[i].scope;
    assert k in ScopeSet(nary[i]);
    assert k in nary[i].rows[s[i]];
  }
  /**
   * Encoding is complete: every n-ary solution over the tables' domains has a dual solution,
   * which satisfies every binary constraint and decodes back to the n-ary solution on the
   * constrained variables.
   */
  lemma EncodeComplete(vars: Vars<string>, nary: seq<NaryConstraint>, csp: BinaryCsp, a: Assignment, order: seq<int>)
    requires Tables(vars, nary) && DualOf(nary, csp) && Complete(vars, a) && SatisfiesNary(nary, a)
    ensures forall i | 0 <= i < |nary| :: Restrict(a, ScopeSet(nary[i])) in nary[i].rows
    ensures Enumerates(order, Encode(nary, a).Keys) ==>
      && Complete(VarsOf(csp), Encode(nary, a)) && SatisfiesAll(csp, Encode(nary, a))
      && DecodeSolution(nary, Encode(nary, a), order) == Ok(Restrict(a, Constrained(nary)))
  {
    SolutionRows(vars, nary, a);
    EncodeIsComplete(nary, csp, a);
    EncodeSatisfies(nary, csp, a);
    if Enumerates(order, Encode(nary, a).Keys) {
      EncodeDecodes(nary, a, order);
    }
  }

  /** The ids 0..n-1 enumerate the keys of an encoding. */
  lemma IdsEnumerate(nary: seq<NaryConstraint>, a: Assignment)
    ensures Enumerates(Ids(|nary|), Encode(nary, a).Keys)
  {
    var ids := Ids(|nary|);
    forall x | x in Encode(nary, a).Keys ensures x in ids {
      assert ids[x] == x;
    }
  }

  /**
   * Every solution the binary solver finds for the dual of an unfilled problem decodes,
   * whatever order its entries are visited in, to an assignment satisfying every n-ary
   * constraint.
   */
  lemma DualSound(p: EcsProblem, scheme: Scheme, count: int, startConsistent: bool)
    requires Unfilled(p) && AsBinaryCsp(p).Ok?
    ensures var (p', csp) := AsBinaryCsp(p).value;
      var r := SolveBinary(scheme, csp, BinarySolver(csp), count, startConsistent);
      r.Ok? ==> forall n, order | 0 <= n < |r.value.solutions| && Enumerates(order, r.value.solutions[n].Keys) ::
        DecodeSolution(p'.nary, r.value.solutions[n], order).Ok? &&
        SatisfiesNary(p'.nary, DecodeSolution(p'.nary, r.value.solutions[n], order).value)
  {
    var (p', csp) := AsBinaryCsp(p).value;
    AsBinaryCspTables(p);
    DualOneOrientation(p);
    var r := SolveBinary(scheme, csp, BinarySolver(csp), count, startConsistent);
    if r.Ok? {
      forall n, order | 0 <= n < |r.value.solutions| && Enumerates(order, r.value.solutions[n].Keys)
        ensures DecodeSolution(p'.nary, r.value.solutions[n], order).Ok?
        ensures SatisfiesNary(p'.nary, DecodeSolution(p'.nary, r.value.solutions[n], order).value)
      {
        DecodeSound(p'.variables, p'.nary, csp, r.value.solutions[n], order);
      }
    }
  }

  /**
   * When fewer solutions than the cap are stored, the binary solver has found the encoding of
   * every n-ary solution over the narrowed domains of the dual of an unfilled problem.
   */
  lemma DualComplete(p: EcsProblem, scheme: Scheme, count: int, startConsistent: bool)
    requires Unfilled(p) && AsBinaryCsp(p).Ok?
    ensures var (p', csp) := AsBinaryCsp(p).value;
      var r := SolveBinary(scheme, csp, BinarySolver(csp), count, startConsistent);
      r.Ok? && |r.value.solutions| < Cap(count) ==>
        forall a | Complete(p'.variables, a) && SatisfiesNary(p'.nary, a) :: Encode(p'.nary, a) in r.value.solutions
  {
    var (p', csp) := AsBinaryCsp(p).value;
    AsBinaryCspTables(p);
    var r := SolveBinary(scheme, csp, BinarySolver(csp), count, startConsistent);
    if r.Ok? && |r.value.solutions| < Cap(count) {
      forall a | Complete(p'.variables, a) && SatisfiesNary(p'.nary, a) ensures Encode(p'.nary, a) in r.value.solutions {
        IdsEnumerate(p'.nary, a);
        EncodeComplete(p'.variables, p'.nary, csp, a, Ids(|p'.nary|));
      }
    }
  }
}
