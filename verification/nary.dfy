// The n-ary problem: NaryConstraint tables, unary constraints, ECSProblem.prepare and
// getVariable, BaseVariable.getCommonConstraints, BaseVarArc.prune, and the network through
// which the generic engine runs NaryForwardChecking and NaryMaintainingArcConsistency.

module Nary {
  import opened Wrappers
  import opened Variables
  import opened Engine
  import opened Propagation
  import opened Backtracking
  import opened Solving
  import opened Assignments
  import opened Binary

  /**
   * A constraint over several variables: its scope (the distinct argument names of its
   * expression, in order), the satisfaction test of the expression, left abstract, and the
   * table of stored satisfying rows.
   */
  datatype NaryConstraint = NaryConstraint(scope: seq<string>, sat: Assignment -> bool, rows: seq<Assignment>)

  /** row extends `given` with a value from the current domain of each variable of u. */
  ghost predicate Completes(vars: Vars<string>, given: Assignment, u: set<string>, row: Assignment) {
    && row.Keys == given.Keys + u
    && (forall k | k in given :: row[k] == given[k])
    && (forall k | k in u :: k in vars && row[k] in CurrentDomain(vars[k]))
  }

  /** The variables of the constraint's scope. */
  function ScopeSet(c: NaryConstraint): set<string> {
    set k | k in c.scope
  }

  /** A row the table of c must hold: one value from each scope variable's domain, satisfying c. */
  ghost predicate Satisfying(vars: Vars<string>, c: NaryConstraint, row: Assignment) {
    Completes(vars, map[], ScopeSet(c), row) && c.sat(row)
  }

  /**
   * c' is c with the satisfying rows appended: same scope and expression, the old rows first,
   * then exactly the rows c must hold.
   */
  ghost predicate Stored(vars: Vars<string>, c: NaryConstraint, c': NaryConstraint) {
    && c'.scope == c.scope && c'.sat == c.sat
    && |c.rows| <= |c'.rows| && c'.rows[..|c.rows|] == c.rows
    && forall row :: row in c'.rows[|c.rows|..] <==> Satisfying(vars, c, row)
  }

  /** u' lists the same names as u, each once: the unassigned set after a call, in its new order. */
  ghost predicate Rotated(u: seq<string>, u': seq<string>) {
    |u'| == |u| && NoDup(u') && forall k :: k in u' <==> k in u
  }

  /**
   * storeValidAssignments: every combination of values of the scope variables' current
   * domains, each stored once if it satisfies the constraint, appended to the rows already
   * stored. An undeclared scope variable reached during the enumeration throws.
   */
  ghost function StoreValidAssignments(c: NaryConstraint, vars: Vars<string>): (r: Result<NaryConstraint>)
    requires NoDup(c.scope)
    ensures r.Ok? ==> Stored(vars, c, r.value) && NoDup(r.value.rows[|c.rows|..])
    ensures (forall k | k in c.scope :: k in vars) ==> r.Ok?
    ensures r.Err? ==> r.fault == NullReference && exists k :: k in c.scope && k !in vars
  {
    var found :- StoreFrom(vars, c.sat, map[], c.scope);
    var rows := c.rows + found.0;
    assert rows[|c.rows|..] == found.0 && rows[..|c.rows|] == c.rows;
    Ok(c.(rows := rows))
  }

  /**
   * The recursive storeValidAssignments(given, unassigned): takes the first unassigned name,
   * tries each value of its current domain, and finally puts the name back at the end of the
   * unassigned set. Returns the stored rows and the unassigned names in their new order.
   */
  ghost function StoreFrom(vars: Vars<string>, sat: Assignment -> bool, given: Assignment, u: seq<string>)
    : (r: Result<(seq<Assignment>, seq<string>)>)
    requires NoDup(u) && forall k | k in u :: k !in given
    ensures r.Ok? ==> Rotated(u, r.value.1)
    ensures r.Ok? ==> NoDup(r.value.0)
    ensures r.Ok? ==> forall row :: row in r.value.0 <==> Completes(vars, given, (set k | k in u), row) && sat(row)
    ensures (forall k | k in u :: k in vars) ==> r.Ok?
    ensures r.Err? ==> r.fault == NullReference && exists k :: k in u && k !in vars
    decreases |u|, 1, 0
  {
    if u == [] then
      CompletesNothing(vars, given);
      assert (set k | k in u) == {};
      Ok((if sat(given) then [given] else [], []))
    else if u[0] !in vars then Err(NullReference)
    else
      var arg := u[0];
      NoDupTail(u);
      var vals := Enumeration(CurrentDomain(vars[arg]));
      var res :- StoreEach(vars, sat, given, arg, vals, u[1..]);
      assert forall k :: k in u <==> k == arg || k in u[1..];
      NoDupAppend(res.1, arg);
      CompletesStep(vars, given, arg, u, vals, sat, res.0);
      Ok((res.0, res.1 + [arg]))
  }

  /** The loop over the values of `arg`, one recursive call per value. */
  ghost function StoreEach(vars: Vars<string>, sat: Assignment -> bool, given: Assignment, arg: string,
                           vals: seq<int>, rest: seq<string>)
    : (r: Result<(seq<Assignment>, seq<string>)>)
    requires NoDup(vals) && NoDup(rest) && arg !in rest && arg !in given
    requires forall k | k in rest :: k !in given
    ensures r.Ok? ==> Rotated(rest, r.value.1)
    ensures r.Ok? ==> NoDup(r.value.0)
    ensures r.Ok? ==> forall row :: row in r.value.0 <==>
      arg in row && row[arg] in vals && Completes(vars, given[arg := row[arg]], (set k | k in rest), row) && sat(row)
    ensures (forall k | k in rest :: k in vars) ==> r.Ok?
    ensures r.Err? ==> r.fault == NullReference && exists k :: k in rest && k !in vars
    decreases |rest| + 1, 0, |vals|
  {
    if vals == [] then Ok(([], rest))
    else
      var first :- StoreFrom(vars, sat, given[arg := vals[0]], rest);
      NoDupTail(vals);
      var others :- StoreEach(vars, sat, given, arg, vals[1..], first.1);
      assert (set k | k in first.1) == (set k | k in rest);
      EachJoin(vars, sat, given, arg, vals, (set k | k in rest), first.0, others.0);
      Ok((first.0 + others.0, others.1))
  }

  /** With nothing left to assign, the only completion is the assignment itself. */
  lemma CompletesNothing(vars: Vars<string>, given: Assignment)
    ensures forall row :: Completes(vars, given, {}, row) <==> row == given
  {
    forall row | Completes(vars, given, {}, row) ensures row == given {
      MapsEqual(row, given);
    }
  }

  /** The rows for the first value and for the remaining values together cover all values, each row once. */
  lemma EachJoin(vars: Vars<string>, sat: Assignment -> bool, given: Assignment, arg: string, vals: seq<int>,
                 rest: set<string>, first: seq<Assignment>, others: seq<Assignment>)
    requires vals != [] && vals[0] !in vals[1..] && NoDup(first) && NoDup(others)
    requires forall row :: row in first <==> Completes(vars, given[arg := vals[0]], rest, row) && sat(row)
    requires forall row :: row in others <==>
      arg in row && row[arg] in vals[1..] && Completes(vars, given[arg := row[arg]], rest, row) && sat(row)
    ensures NoDup(first + others)
    ensures forall row :: row in first + others <==>
      arg in row && row[arg] in vals && Completes(vars, given[arg := row[arg]], rest, row) && sat(row)
  {
    forall row | row in first ensures row !in others {
      assert row[arg] == vals[0];
    }
    NoDupConcat(first, others);
    forall row ensures row in first + others <==>
      arg in row && row[arg] in vals && Completes(vars, given[arg := row[arg]], rest, row) && sat(row)
    {
      if arg in row && row[arg] in vals && row[arg] != vals[0] {
        assert row[arg] in vals[1..];
      }
    }
  }

  /** Choosing arg's value among its current domain and completing the rest completes u. */
  lemma CompletesStep(vars: Vars<string>, given: Assignment, arg: string, u: seq<string>, vals: seq<int>,
                      sat: Assignment -> bool, rows: seq<Assignment>)
    requires u != [] && arg == u[0] && arg in vars && arg !in given
    requires Enumerates(vals, CurrentDomain(vars[arg]))
    requires forall row :: row in rows <==>
      arg in row && row[arg] in vals && Completes(vars, given[arg := row[arg]], (set k | k in u[1..]), row) && sat(row)
    requires forall k :: k in u <==> k == arg || k in u[1..]
    ensures forall row :: row in rows <==> Completes(vars, given, (set k | k in u), row) && sat(row)
  {
    var rest := (set k | k in u[1..]);
    assert (set k | k in u) == rest + {arg};
    forall row ensures row in rows <==> Completes(vars, given, rest + {arg}, row) && sat(row) {
      if Completes(vars, given, rest + {arg}, row) {
        assert row.Keys == given[arg := row[arg]].Keys + rest;
      }
    }
  }

  /** The rows compatible with `current` put these values on `name`. */
  ghost predicate SupportsValue(row: Assignment, current: Assignment, name: string, v: int) {
    Compatible(row, current) && name in row && row[name] == v
  }

  /**
   * getSupported: null (None) when the name is outside the scope; otherwise the values the
   * stored rows compatible with `current` give to it.
   */
  function GetSupported(c: NaryConstraint, current: Assignment, name: string): (r: Option<set<int>>)
    ensures r.None? <==> name !in c.scope
    ensures r.Some? ==> forall v :: v in r.value <==> exists i :: 0 <= i < |c.rows| && SupportsValue(c.rows[i], current, name, v)
  {
    if name !in c.scope then None else Some(CollectSupported(c.rows, current, name, {}))
  }

  function CollectSupported(rows: seq<Assignment>, current: Assignment, name: string, supported: set<int>): (r: set<int>)
    ensures forall v :: v in r <==> v in supported || exists i :: 0 <= i < |rows| && SupportsValue(rows[i], current, name, v)
    decreases |rows|
  {
    if rows == [] then supported
    else
      var row := rows[0];
      var r := CollectSupported(rows[1..], current, name,
        if Compatible(row, current) && name in row then supported + {row[name]} else supported);
      assert forall i | 1 <= i < |rows| :: rows[i] == rows[1..][i - 1];
      assert forall i | 0 <= i < |rows[1..]| :: rows[1..][i] == rows[i + 1];
      r
  }

  /**
   * getAllowedTuples: the index pairs (i, j) whose rows are compatible, row i of a against row
   * j of b, each once, in the order the nested loops meet them.
   */
  function AllowedTuples(a: NaryConstraint, b: NaryConstraint): (r: seq<BinaryTuple>)
    ensures NoDup(r)
    ensures forall t :: t in r <==>
      0 <= t.val1 < |a.rows| && 0 <= t.val2 < |b.rows| && Compatible(a.rows[t.val1], b.rows[t.val2])
  {
    AllowedFrom(a.rows, b.rows, 0)
  }

  function AllowedFrom(xs: seq<Assignment>, ys: seq<Assignment>, i: nat): (r: seq<BinaryTuple>)
    requires i <= |xs|
    ensures NoDup(r)
    ensures forall t :: t in r <==> i <= t.val1 < |xs| && 0 <= t.val2 < |ys| && Compatible(xs[t.val1], ys[t.val2])
    decreases |xs| - i
  {
    if i == |xs| then []
    else
      var head := AllowedRow(xs[i], i, ys, 0);
      var tail := AllowedFrom(xs, ys, i + 1);
      NoDupConcat(head, tail);
      head + tail
  }

  function AllowedRow(x: Assignment, i: int, ys: seq<Assignment>, j: nat): (r: seq<BinaryTuple>)
    requires j <= |ys|
    ensures NoDup(r)
    ensures forall t :: t in r <==> t.val1 == i && j <= t.val2 < |ys| && Compatible(x, ys[t.val2])
    decreases |ys| - j
  {
    if j == |ys| then []
    else
      var head := if Compatible(x, ys[j]) then [BinaryTuple(i, j)] else [];
      var tail := AllowedRow(x, i, ys, j + 1);
      NoDupConcat(head, tail);
      head + tail
  }

  /** getValue(index): the stored row at that index; out of range the list access throws. */
  function GetValue(c: NaryConstraint, index: int): (r: Result<Assignment>)
    ensures r.Ok? <==> 0 <= index < |c.rows|
    ensures r.Ok? ==> r.value in c.rows
    ensures r.Err? ==> r.fault == IndexOutOfRange
  {
    if 0 <= index < |c.rows| then Ok(c.rows[index]) else Err(IndexOutOfRange)
  }

  /** A unary constraint: a variable name and the values its expression accepts, left abstract. */
  datatype Unary = Unary(name: string, allowed: int -> bool)

  /**
   * UnaryConstraint.apply, for each unary constraint in turn: keeps the named variable's values
   * the constraint accepts; an undeclared variable throws.
   */
  function ApplyUnary(vars: Vars<string>, us: seq<Unary>): (r: Result<Vars<string>>)
    ensures r.Ok? <==> forall i | 0 <= i < |us| :: us[i].name in vars
    ensures r.Err? ==> r.fault == NullReference
    ensures r.Ok? ==> r.value.Keys == vars.Keys
    ensures r.Ok? ==> forall k | k in vars ::
      && r.value[k] == vars[k].(domain := r.value[k].domain)
      && forall v :: v in r.value[k].domain <==> v in vars[k].domain && forall i | 0 <= i < |us| && us[i].name == k :: us[i].allowed(v)
    decreases |us|
  {
    if us == [] then Ok(vars)
    else if us[0].name !in vars then Err(NullReference)
    else
      var u := us[0];
      var (x, _) := RetainWhere(vars[u.name], u.allowed);
      var r := ApplyUnary(vars[u.name := x], us[1..]);
      assert forall i | 1 <= i < |us| :: us[i] == us[1..][i - 1];
      assert forall i | 0 <= i < |us[1..]| :: us[1..][i] == us[i + 1];
      r
  }

  /**
   * ECSProblem: the declared variables (names in declaration order), the constraints each
   * variable is relevant to (as indexes into `nary`, in registration order), and the unary and
   * n-ary constraints.
   */
  datatype EcsProblem = EcsProblem(names: seq<string>, variables: Vars<string>, relevant: map<string, seq<nat>>,
                                   unary: seq<Unary>, nary: seq<NaryConstraint>)

  /** getVariable: the declared variable of that name, or null (None). */
  function GetVariable(p: EcsProblem, name: string): (r: Option<Variable<string>>)
    ensures r.Some? <==> name in p.variables
    ensures r.Some? ==> r.value == p.variables[name]
  {
    if name in p.variables then Some(p.variables[name]) else None
  }

  /** The constraints a variable is relevant to; a fresh variable has none. */
  function Relevant(p: EcsProblem, name: string): seq<nat> {
    RelevantIn(p.relevant, name)
  }

  /**
   * prepare: applies the unary constraints, then for each n-ary constraint in turn stores its
   * satisfying rows and registers it as relevant on every variable of its scope. The relevant
   * constraints afterwards are the earlier ones plus exactly those whose scope holds the name.
   */
  ghost function Prepare(p: EcsProblem): (r: Result<EcsProblem>)
    requires forall i | 0 <= i < |p.nary| :: NoDup(p.nary[i].scope)
    ensures r.Ok? <==> ((forall i | 0 <= i < |p.unary| :: p.unary[i].name in p.variables)
      && (forall i, k | 0 <= i < |p.nary| && k in p.nary[i].scope :: k in p.variables))
    ensures r.Ok? ==> r.value.names == p.names && r.value.unary == p.unary && |r.value.nary| == |p.nary|
    ensures r.Ok? ==> Ok(r.value.variables) == ApplyUnary(p.variables, p.unary)
    ensures r.Ok? ==> forall i | 0 <= i < |p.nary| :: Stored(r.value.variables, p.nary[i], r.value.nary[i])
    ensures r.Ok? ==> forall k: string, c: nat :: c in Relevant(r.value, k) <==>
      c in Relevant(p, k) || Mentions(p.nary, 0, c, k)
  {
    var vars :- ApplyUnary(p.variables, p.unary);
    var res :- PrepareFrom(vars, p.nary, 0, p.relevant);
    Ok(p.(variables := vars, relevant := res.1, nary := res.0))
  }

  /** The loop of prepare over the n-ary constraints from index i on. */
  ghost function PrepareFrom(vars: Vars<string>, nary: seq<NaryConstraint>, i: nat, relevant: map<string, seq<nat>>)
    : (r: Result<(seq<NaryConstraint>, map<string, seq<nat>>)>)
    requires i <= |nary| && forall n | 0 <= n < |nary| :: NoDup(nary[n].scope)
    ensures r.Ok? <==> forall n, k | i <= n < |nary| && k in nary[n].scope :: k in vars
    ensures r.Err? ==> r.fault == NullReference
    ensures r.Ok? ==> |r.value.0| == |nary| && r.value.0[..i] == nary[..i]
    ensures r.Ok? ==> forall n | i <= n < |nary| :: Stored(vars, nary[n], r.value.0[n])
    ensures r.Ok? ==> forall k: string, d: nat :: d in RelevantIn(r.value.1, k) <==>
      d in RelevantIn(relevant, k) || Mentions(nary, i, d, k)
    decreases |nary| - i
  {
    if i == |nary| then Ok((nary, relevant))
    else
      var stored := StoreValidAssignments(nary[i], vars);
      if stored.Err? then Err(NullReference)
      else
        var c := stored.value;
        var rel := Register(vars, c.scope, i, relevant);
        if rel.Err? then Err(NullReference)
        else
          var nary' := nary[i := c];
          assert |nary'| == |nary| && forall n | 0 <= n < |nary'| :: NoDup(nary'[n].scope);
          var res := PrepareFrom(vars, nary', i + 1, rel.value);
          PrepareStep(vars, nary, nary', i, relevant, c, rel.value, res);
          res
  }

  /** One turn of the prepare loop, given what the rest of the loop does. */
  lemma PrepareStep(vars: Vars<string>, nary: seq<NaryConstraint>, nary': seq<NaryConstraint>, i: nat, relevant: map<string, seq<nat>>,
                    c: NaryConstraint, rel: map<string, seq<nat>>, res: Result<(seq<NaryConstraint>, map<string, seq<nat>>)>)
    requires i < |nary| && nary' == nary[i := c] && Stored(vars, nary[i], c) && forall k | k in nary[i].scope :: k in vars
    requires forall k: string, d: nat :: d in RelevantIn(rel, k) <==> d in RelevantIn(relevant, k) || (d == i && k in c.scope)
    requires res.Ok? <==> forall n, k | i + 1 <= n < |nary'| && k in nary'[n].scope :: k in vars
    requires res.Ok? ==> |res.value.0| == |nary'| && res.value.0[..i + 1] == nary'[..i + 1]
    requires res.Ok? ==> forall n | i + 1 <= n < |nary'| :: Stored(vars, nary'[n], res.value.0[n])
    requires res.Ok? ==> forall k: string, d: nat :: d in RelevantIn(res.value.1, k) <==>
      d in RelevantIn(rel, k) || Mentions(nary', i + 1, d, k)
    ensures res.Ok? <==> forall n, k | i <= n < |nary| && k in nary[n].scope :: k in vars
    ensures res.Ok? ==> res.value.0[..i] == nary[..i]
    ensures res.Ok? ==> forall n | i <= n < |nary| :: Stored(vars, nary[n], res.value.0[n])
    ensures res.Ok? ==> forall k: string, d: nat :: d in RelevantIn(res.value.1, k) <==>
      d in RelevantIn(relevant, k) || Mentions(nary, i, d, k)
  {
    assert forall n | i + 1 <= n < |nary| :: nary'[n] == nary[n];
    if res.Ok? {
      assert res.value.0[..i] == res.value.0[..i + 1][..i];
      assert res.value.0[i] == res.value.0[..i + 1][i] == c;
      forall n | i <= n < |nary| ensures Stored(vars, nary[n], res.value.0[n]) {
        if n > i {
          assert nary'[n] == nary[n];
        }
      }
      forall k: string, d: nat ensures d in RelevantIn(res.value.1, k) <==>
        d in RelevantIn(relevant, k) || Mentions(nary, i, d, k)
      {
        if i < d < |nary| {
          assert nary'[d] == nary[d];
        }
      }
    }
  }

  /** Constraint d, at index i or later, has k in its scope. */
  predicate Mentions(nary: seq<NaryConstraint>, i: nat, d: int, k: string) {
    i <= d < |nary| && k in nary[d].scope
  }

  function RelevantIn(relevant: map<string, seq<nat>>, name: string): seq<nat> {
    if name in relevant then relevant[name] else []
  }

  /** Registers constraint c on each name of the scope (addRelevant); an undeclared name throws. */
  function Register(vars: Vars<string>, scope: seq<string>, c: nat, relevant: map<string, seq<nat>>)
    : (r: Result<map<string, seq<nat>>>)
    ensures r.Ok? <==> forall k | k in scope :: k in vars
    ensures r.Err? ==> r.fault == NullReference
    ensures r.Ok? ==> forall k: string, d: nat :: d in RelevantIn(r.value, k) <==>
      d in RelevantIn(relevant, k) || (d == c && k in scope)
    decreases |scope|
  {
    if scope == [] then Ok(relevant)
    else if scope[0] !in vars then Err(NullReference)
    else
      var k := scope[0];
      var rel := relevant[k := Insert(RelevantIn(relevant, k), c)];
      var r := Register(vars, scope[1..], c, rel);
      assert forall k :: k in scope <==> k == scope[0] || k in scope[1..];
      r
  }

  /** The elements of xs that are in ys, in the order of xs (LinkedHashSet.retainAll). */
  function RetainAll(xs: seq<nat>, ys: seq<nat>): (r: seq<nat>)
    ensures forall c :: c in r <==> c in xs && c in ys
    decreases |xs|
  {
    if xs == [] then []
    else
      var r := (if xs[0] in ys then [xs[0]] else []) + RetainAll(xs[1..], ys);
      assert forall c :: c in xs <==> c == xs[0] || c in xs[1..];
      r
  }

  /**
   * getCommonConstraints: null (None) for a variable against itself or when no constraint is
   * relevant to both; otherwise the shared constraints in x's order.
   */
  function CommonConstraints(p: EcsProblem, x: string, y: string): (r: Option<seq<nat>>)
    ensures r.None? <==> x == y || forall c :: !(c in Relevant(p, x) && c in Relevant(p, y))
    ensures r.Some? ==> forall c :: c in r.value <==> c in Relevant(p, x) && c in Relevant(p, y)
  {
    if x == y then None
    else
      var common := RetainAll(Relevant(p, x), Relevant(p, y));
      if common == [] then None
      else
        assert common[0] in common;
        Some(common)
  }

  /** Sharing a constraint does not depend on the order of the two variables. */
  lemma CommonSymmetric(p: EcsProblem, x: string, y: string)
    ensures CommonConstraints(p, x, y).Some? == CommonConstraints(p, y, x).Some?
  {
  }

  /**
   * BaseVarArc.prune, the loop over the common constraints: for each in turn keeps the
   * dependent's values the constraint supports given the past assignment, and collects the
   * removed values. A constraint whose scope lacks the dependent yields null and throws.
   */
  function PruneWith(p: EcsProblem, x: Variable<string>, past: Assignment, name: string, common: seq<nat>)
    : (r: Result<(Variable<string>, set<int>)>)
    requires forall i | 0 <= i < |common| :: common[i] < |p.nary|
    ensures r.Ok? <==> forall i | 0 <= i < |common| :: name in p.nary[common[i]].scope
    ensures r.Err? ==> r.fault == NullReference
    ensures r.Ok? ==> r.value.0 == x.(domain := r.value.0.domain) && r.value.1 == x.domain - r.value.0.domain
    ensures r.Ok? ==> forall v :: v in r.value.0.domain <==>
      v in x.domain && forall i | 0 <= i < |common| :: v in GetSupported(p.nary[common[i]], past, name).value
    decreases |common|
  {
    if common == [] then Ok((x, {}))
    else
      match GetSupported(p.nary[common[0]], past, name)
      case None => Err(NullReference)
      case Some(supported) =>
        var (y, removed) := RetainValues(x, supported);
        var rest := PruneWith(p, y, past, name, common[1..]);
        assert forall i | 1 <= i < |common| :: common[i] == common[1..][i - 1];
        assert forall i | 0 <= i < |common[1..]| :: common[1..][i] == common[i + 1];
        if rest.Err? then Err(NullReference)
        else
          assert rest.value.0.domain <= y.domain;
          Ok((rest.value.0, removed + rest.value.1))
  }

  /**
   * BaseVarArc.prune: narrows the dependent by every common constraint and returns the union of
   * the removals as a BaseVarPrune. Only the dependent changes, and the supporter is never read:
   * supports come from the past assignment alone.
   */
  function NaryArcPrune(p: EcsProblem, vars: Vars<string>, past: Assignment, a: Arc<string>, common: seq<nat>)
    : (r: Result<(Vars<string>, Prune<string>)>)
    requires a.dependent in vars && forall i | 0 <= i < |common| :: common[i] < |p.nary|
    ensures r.Ok? <==> forall i | 0 <= i < |common| :: a.dependent in p.nary[common[i]].scope
    ensures r.Ok? ==> var (vars', q) := r.value;
      && vars'.Keys == vars.Keys && q.v == a.dependent
      && (forall k | k in vars && k != a.dependent :: vars'[k] == vars[k])
      && vars'[a.dependent] == vars[a.dependent].(domain := vars'[a.dependent].domain)
      && q.removed == vars[a.dependent].domain - vars'[a.dependent].domain
      && (forall v :: v in vars'[a.dependent].domain <==> (v in vars[a.dependent].domain
        && forall i | 0 <= i < |common| :: v in GetSupported(p.nary[common[i]], past, a.dependent).value))
      && UndoPrune(vars', q) == vars
  {
    var res :- PruneWith(p, vars[a.dependent], past, a.dependent, common);
    var vars' := vars[a.dependent := res.0];
    assert Undo(res.0, Prune(a.dependent, res.1)) == vars[a.dependent];
    MapsEqual(UndoPrune(vars', Prune(a.dependent, res.1)), vars);
    Ok((vars', Prune(a.dependent, res.1)))
  }

  /** The values each common constraint supports for the dependent, skipping those that give none. */
  function SupportedSets(p: EcsProblem, common: seq<nat>, past: Assignment, name: string): seq<set<int>>
    decreases |common|
  {
    if common == [] then []
    else
      var rest := SupportedSets(p, common[1..], past, name);
      if common[0] < |p.nary| && GetSupported(p.nary[common[0]], past, name).Some? then
        [GetSupported(p.nary[common[0]], past, name).value] + rest
      else rest
  }

  /** What the engine asks of an arc: the supported sets of the common constraints, given the past. */
  function NarySupports(p: EcsProblem, a: Arc<string>, past: Assignment): seq<set<int>> {
    match CommonConstraints(p, a.dependent, a.supporter)
    case None => []
    case Some(common) => SupportedSets(p, common, past, a.dependent)
  }

  /** The n-ary problem seen by the engine: names linked when they share a constraint. */
  function NaryNetwork(p: EcsProblem): Network<string> {
    Network(p.names, (x, y) => CommonConstraints(p, x, y).Some?, (a, d, past) => NarySupports(p, a, past))
  }

  /** Where every common constraint knows the dependent, the fold of prune is the engine's Narrow. */
  lemma {:induction false} PruneWithIsNarrow(p: EcsProblem, x: Variable<string>, past: Assignment, name: string,
                                             common: seq<nat>)
    requires forall i | 0 <= i < |common| :: common[i] < |p.nary| && name in p.nary[common[i]].scope
    ensures PruneWith(p, x, past, name, common) == Ok(Narrow(x, SupportedSets(p, common, past, name)))
    decreases |common|
  {
    if common != [] {
      var supported := GetSupported(p.nary[common[0]], past, name).value;
      var (y, removed) := RetainValues(x, supported);
      assert forall i | 0 <= i < |common[1..]| :: common[1..][i] == common[i + 1];
      PruneWithIsNarrow(p, y, past, name, common[1..]);
      assert SupportedSets(p, common, past, name) == [supported] + SupportedSets(p, common[1..], past, name);
      assert ([supported] + SupportedSets(p, common[1..], past, name))[1..] == SupportedSets(p, common[1..], past, name);
    }
  }

  /**
   * On an arc between two variables sharing constraints that all know the dependent, the
   * engine's revision with the n-ary network is BaseVarArc.prune.
   */
  lemma ReviseIsNaryArcPrune(p: EcsProblem, vars: Vars<string>, past: Assignment, a: Arc<string>)
    requires a.dependent in vars && a.supporter in vars
    requires CommonConstraints(p, a.dependent, a.supporter).Some?
    requires var common := CommonConstraints(p, a.dependent, a.supporter).value;
      forall i | 0 <= i < |common| :: common[i] < |p.nary| && a.dependent in p.nary[common[i]].scope
    ensures var common := CommonConstraints(p, a.dependent, a.supporter).value;
      NaryArcPrune(p, vars, past, a, common) == Ok(Revise(NaryNetwork(p), vars, past, a))
  {
    var common := CommonConstraints(p, a.dependent, a.supporter).value;
    PruneWithIsNarrow(p, vars[a.dependent], past, a.dependent, common);
    assert Support(NaryNetwork(p), vars, past, a) == SupportedSets(p, common, past, a.dependent);
  }

  /**
   * After prepare, every constraint two variables share has the dependent in its scope: the
   * relevant lists hold exactly the constraints whose scope names the variable, and storing
   * the rows keeps each scope.
   */
  lemma PreparedCommonKnowsDependent(p0: EcsProblem, p: EcsProblem, a: Arc<string>)
    requires Ready(p0, p) && CommonConstraints(p, a.dependent, a.supporter).Some?
    ensures var common := CommonConstraints(p, a.dependent, a.supporter).value;
      forall i | 0 <= i < |common| :: common[i] < |p.nary| && a.dependent in p.nary[common[i]].scope
  {
    var common := CommonConstraints(p, a.dependent, a.supporter).value;
    forall i | 0 <= i < |common|
      ensures common[i] < |p.nary| && a.dependent in p.nary[common[i]].scope
    {
      var c := common[i];
      assert c in Relevant(p, a.dependent);
      assert Relevant(p0, a.dependent) == [];
      assert Mentions(p0.nary, 0, c, a.dependent);
      assert Stored(p.variables, p0.nary[c], p.nary[c]);
    }
  }

  /**
   * On every linked arc of a prepared problem, the engine's revision with the n-ary network is
   * BaseVarArc.prune over the common constraints, and it never throws.
   */
  lemma PreparedReviseIsNaryArcPrune(p0: EcsProblem, p: EcsProblem, vars: Vars<string>, past: Assignment,
                                     a: Arc<string>)
    requires Ready(p0, p) && a.dependent in vars && a.supporter in vars
    requires NaryNetwork(p).linked(a.dependent, a.supporter)
    ensures var common := CommonConstraints(p, a.dependent, a.supporter).value;
      && (forall i | 0 <= i < |common| :: common[i] < |p.nary| && a.dependent in p.nary[common[i]].scope)
      && NaryArcPrune(p, vars, past, a, common) == Ok(Revise(NaryNetwork(p), vars, past, a))
  {
    PreparedCommonKnowsDependent(p0, p, a);
    ReviseIsNaryArcPrune(p, vars, past, a);
  }

  /** Declared variables keyed by name, unassigned, listed once each in declaration order. */
  ghost predicate Fresh(p: EcsProblem) {
    && Enumerates(p.names, p.variables.Keys)
    && forall k | k in p.variables :: p.variables[k].id == k && p.variables[k].value == None
  }

  /**
   * The NarySolving constructor: every declared name goes into the future, and the solver is
   * at rest.
   */
  function NarySolver(p: EcsProblem): (st: State<string>)
    requires Fresh(p)
    ensures AtRest(NaryNetwork(p), st) && st.solutions == [] && st.future == p.variables.Keys
  {
    NewSolver(NaryNetwork(p), p.variables)
  }

  /** s satisfies every n-ary constraint: it covers the scope, and its values there are accepted. */
  ghost predicate SatisfiesNary(nary: seq<NaryConstraint>, s: Assignment) {
    forall i | 0 <= i < |nary| ::
      (forall k | k in nary[i].scope :: k in s) && nary[i].sat(Restrict(s, ScopeSet(nary[i])))
  }

  /** p is what prepare makes of p0, a problem whose constraints are not yet registered. */
  ghost predicate Ready(p0: EcsProblem, p: EcsProblem) {
    && p0.relevant == map[]
    && (forall i | 0 <= i < |p0.nary| :: NoDup(p0.nary[i].scope))
    && Prepare(p0) == Ok(p)
  }

  /** A value each supported set of the listed constraints holds is in all of them. */
  lemma {:induction false} SupportedSetsHave(p: EcsProblem, common: seq<nat>, past: Assignment, name: string, v: int)
    requires forall i | 0 <= i < |common| && common[i] < |p.nary| && name in p.nary[common[i]].scope ::
      v in GetSupported(p.nary[common[i]], past, name).value
    ensures InAll(v, SupportedSets(p, common, past, name))
    decreases |common|
  {
    if common != [] {
      assert forall i | 0 <= i < |common[1..]| :: common[1..][i] == common[i + 1];
      SupportedSetsHave(p, common[1..], past, name, v);
      var rest := SupportedSets(p, common[1..], past, name);
      if common[0] < |p.nary| && GetSupported(p.nary[common[0]], past, name).Some? {
        var head := GetSupported(p.nary[common[0]], past, name).value;
        assert v in head;
        assert forall i | 1 <= i < |[head] + rest| :: ([head] + rest)[i] == rest[i - 1];
      }
    }
  }

  /**
   * A constraint's table after prepare supports, for any past s extends, the value s gives to a
   * variable of its scope, when s satisfies it with values of the prepared domains.
   */
  lemma StoredSupports(vars: Vars<string>, c0: NaryConstraint, c: NaryConstraint, s: Assignment, past: Assignment,
                       name: string)
    requires Stored(vars, c0, c) && Complete(vars, s) && Agrees(past, s) && name in c.scope
    requires (forall k | k in c0.scope :: k in s) && c0.sat(Restrict(s, ScopeSet(c0)))
    ensures s[name] in GetSupported(c, past, name).value
  {
    var scope := ScopeSet(c0);
    var row := Restrict(s, scope);
    assert Completes(vars, map[], scope, row);
    assert row in c.rows[|c0.rows|..];
    var i :| 0 <= i < |c.rows[|c0.rows|..]| && c.rows[|c0.rows|..][i] == row;
    assert c.rows[|c0.rows| + i] == row;
    assert SupportsValue(row, past, name, s[name]);
  }

  /**
   * After prepare, every complete assignment of the prepared domains that satisfies all n-ary
   * constraints is supported on every arc of the n-ary network, under any past it extends.
   */
  lemma SatisfiesNaryUpholds(p0: EcsProblem, p: EcsProblem, s: Assignment)
    requires Ready(p0, p) && Complete(p.variables, s) && SatisfiesNary(p.nary, s)
    ensures Upholds(NaryNetwork(p), s)
  {
    var net := NaryNetwork(p);
    forall a: Arc<string>, d: set<int>, past: Assignment
      | a.dependent in s && a.supporter in s && net.linked(a.dependent, a.supporter) && s[a.supporter] in d
        && Agrees(past, s)
      ensures InAll(s[a.dependent], net.supports(a, d, past))
    {
      ArcUpheld(p0, p, s, a, d, past);
    }
  }

  /** SatisfiesNaryUpholds for one arc. */
  lemma ArcUpheld(p0: EcsProblem, p: EcsProblem, s: Assignment, a: Arc<string>, d: set<int>, past: Assignment)
    requires Ready(p0, p) && Complete(p.variables, s) && SatisfiesNary(p.nary, s)
    requires a.dependent in s && a.supporter in s && NaryNetwork(p).linked(a.dependent, a.supporter)
    requires Agrees(past, s)
    ensures InAll(s[a.dependent], NaryNetwork(p).supports(a, d, past))
  {
    var common := CommonConstraints(p, a.dependent, a.supporter).value;
    forall i | 0 <= i < |common| && common[i] < |p.nary| && a.dependent in p.nary[common[i]].scope
      ensures s[a.dependent] in GetSupported(p.nary[common[i]], past, a.dependent).value
    {
      ConstraintSupports(p0, p, s, past, a.dependent, common[i]);
    }
    SupportedSetsHave(p, common, past, a.dependent, s[a.dependent]);
  }

  /** Each prepared constraint on the variable supports the value a satisfying s gives it. */
  lemma ConstraintSupports(p0: EcsProblem, p: EcsProblem, s: Assignment, past: Assignment, name: string, c: int)
    requires Ready(p0, p) && Complete(p.variables, s) && SatisfiesNary(p.nary, s) && Agrees(past, s)
    requires 0 <= c < |p.nary| && name in p.nary[c].scope
    ensures s[name] in GetSupported(p.nary[c], past, name).value
  {
    assert Stored(p.variables, p0.nary[c], p.nary[c]);
    StoredSupports(p.variables, p0.nary[c], p.nary[c], s, past, name);
  }

  /**
   * Solving a prepared n-ary problem with NaryForwardChecking or NaryMaintainingArcConsistency:
   * every new solution assigns each variable a value of its domain; and when fewer solutions
   * than the cap are stored, every such assignment satisfying all n-ary constraints is among
   * them.
   */
  ghost function SolveNary(scheme: Scheme, p0: EcsProblem, p: EcsProblem, solver: State<string>, count: int,
                           startConsistent: bool)
    : (r: Result<State<string>>)
    requires Ready(p0, p) && AtRest(NaryNetwork(p), solver) && Shrunk(p.variables, solver.vars)
    ensures r.Ok? ==> forall n | |solver.solutions| <= n < |r.value.solutions| :: Complete(solver.vars, r.value.solutions[n])
    ensures r.Ok? && |r.value.solutions| < Cap(count) ==>
      forall s | Complete(solver.vars, s) && SatisfiesNary(p.nary, s) :: s in r.value.solutions
  {
    SatisfyingUpholds(p0, p, solver.vars);
    Solve(scheme, NaryNetwork(p), solver, count, startConsistent)
  }

  /** SatisfiesNaryUpholds for every complete assignment of domains narrowed from the prepared ones. */
  lemma SatisfyingUpholds(p0: EcsProblem, p: EcsProblem, vars: Vars<string>)
    requires Ready(p0, p) && Shrunk(p.variables, vars)
    ensures forall s | Complete(vars, s) && SatisfiesNary(p.nary, s) :: Upholds(NaryNetwork(p), s)
  {
    forall s | Complete(vars, s) && SatisfiesNary(p.nary, s) ensures Upholds(NaryNetwork(p), s) {
      assert Complete(p.variables, s);
      SatisfiesNaryUpholds(p0, p, s);
    }
  }
}
