// The entry point every solver shares (SolvingAlgorithm.solve and the innerSolve/makeConsistent
// of BinarySolving and NarySolving), with the revise of a forward-checking or
// arc-consistency-maintaining solver plugged into the backtracking search.

module Solving {
  import opened Wrappers
  import opened Variables
  import opened Engine
  import opened Propagation
  import opened Backtracking

  /** The revise a solver built with `scheme` supplies: a propagation that starts with no prunes. */
  ghost function ReviserOf<V(!new)>(scheme: Scheme, net: Network<V>): Reviser<V> {
    (vars: Vars<V>, past: map<V, int>, x: V, order: seq<V>, revisions: nat)
      requires Covers(net, vars) && x in vars && Within(vars, order) =>
      Propagate(scheme, net, vars, past, x, order, revisions, [])
  }

  /**
   * Both schemes give the search everything it relies on: well-formed narrowing undone by the
   * records, enforcement of an assigned variable's constraints, and no loss of an assignment
   * every constraint supports.
   */
  lemma ReviserOfWorks<V(!new)>(scheme: Scheme, net: Network<V>)
    ensures Revises(net, ReviserOf(scheme, net))
    ensures Filters(net, ReviserOf(scheme, net))
    ensures Keeps(net, ReviserOf(scheme, net))
  {
    var revise := ReviserOf(scheme, net);
    forall vars: Vars<V>, past: map<V, int>, x: V, order: seq<V>, revisions: nat
      | Covers(net, vars) && x in vars && Within(vars, order)
      ensures revise.requires(vars, past, x, order, revisions)
      ensures Contained(vars, revise(vars, past, x, order, revisions), order, revisions, [])
    {
      PropagateContained(scheme, net, vars, past, x, order, revisions, []);
    }
    forall vars: Vars<V>, past: map<V, int>, x: V, order: seq<V>, revisions: nat
      | Covers(net, vars) && x in vars && Within(vars, order) && x !in order
      ensures var o := revise(vars, past, x, order, revisions);
        o.consistent && o.vars.Keys == vars.Keys ==>
          forall f, v | f in order && net.linked(f, x) && f in o.vars && v in o.vars[f].domain ::
            InAll(v, net.supports(Arc(f, x), CurrentDomain(vars[x]), past))
    {
      PropagateSupported(scheme, net, vars, past, x, order, revisions, []);
    }
    forall vars: Vars<V>, past: map<V, int>, x: V, order: seq<V>, revisions: nat, s: map<V, int>
      | Covers(net, vars) && x in vars && Within(vars, order) && Unassigned(vars, order)
        && Complete(vars, s) && Upholds(net, s) && Agrees(past, s)
      ensures revise(vars, past, x, order, revisions).consistent
      ensures Complete(revise(vars, past, x, order, revisions).vars, s)
    {
      PropagateKeeps(scheme, net, vars, past, x, order, revisions, [], s);
    }
  }

  /**
   * Two propagation stretches in a row, the second run whatever the first reported: the
   * outcome is consistent when both were.
   */
  lemma ContainedChain<V>(vars: Vars<V>, mid: Outcome<V>, o: Outcome<V>, scope: seq<V>, revisions: nat,
                          prunes: seq<Prune<V>>)
    requires Contained(vars, mid, scope, revisions, prunes)
    requires Contained(mid.vars, o, scope, mid.revisions, mid.prunes)
    ensures Contained(vars, o.(consistent := mid.consistent && o.consistent), scope, revisions, prunes)
  {
    var r := o.(consistent := mid.consistent && o.consistent);
    assert Shrunk(vars, o.vars) by {
      forall k | k in vars ensures o.vars[k].domain <= vars[k].domain {
      }
    }
    if !r.consistent && !mid.consistent {
      var k :| k in scope && k in vars && mid.vars[k].domain == {};
      assert o.vars[k].domain == {};
    }
  }

  /**
   * makeConsistent: calls revise once for every variable of `todo` in turn, all over the same
   * future and collecting into one set of prunes, and carries on whatever revise reports. The
   * outcome is consistent when no call found a wipeout.
   */
  function MakeConsistent<V(==)>(scheme: Scheme, net: Network<V>, vars: Vars<V>, order: seq<V>, todo: seq<V>,
                                 revisions: nat, prunes: seq<Prune<V>>): (r: Outcome<V>)
    requires Covers(net, vars) && Within(vars, order) && Within(vars, todo) && Recorded(vars, prunes)
    ensures Contained(vars, r, order, revisions, prunes)
    decreases |todo|
  {
    if todo == [] then Outcome(true, vars, revisions, prunes)
    else
      PropagateContained(scheme, net, vars, map[], todo[0], order, revisions, prunes);
      var o := Propagate(scheme, net, vars, map[], todo[0], order, revisions, prunes);
      var rest := MakeConsistent(scheme, net, o.vars, order, todo[1..], o.revisions, o.prunes);
      ContainedChain(vars, o, rest, order, revisions, prunes);
      rest.(consistent := o.consistent && rest.consistent)
  }

  /** makeConsistent keeps every assignment all constraints support, and then finds no wipeout. */
  lemma {:induction false} MakeConsistentKeeps<V(!new)>(scheme: Scheme, net: Network<V>, vars: Vars<V>, order: seq<V>,
                                                        todo: seq<V>, revisions: nat, prunes: seq<Prune<V>>,
                                                        s: map<V, int>)
    requires Covers(net, vars) && Within(vars, order) && Within(vars, todo) && Recorded(vars, prunes)
    requires Unassigned(vars, order)
    ensures Complete(vars, s) && Upholds(net, s) ==>
      var r := MakeConsistent(scheme, net, vars, order, todo, revisions, prunes);
      r.consistent && Complete(r.vars, s)
    decreases |todo|
  {
    if todo != [] && Complete(vars, s) && Upholds(net, s) {
      PropagateContained(scheme, net, vars, map[], todo[0], order, revisions, prunes);
      PropagateKeeps(scheme, net, vars, map[], todo[0], order, revisions, prunes, s);
      var o := Propagate(scheme, net, vars, map[], todo[0], order, revisions, prunes);
      assert Unassigned(o.vars, order);
      MakeConsistentKeeps(scheme, net, o.vars, order, todo[1..], o.revisions, o.prunes, s);
    }
  }

  /** A solver between two solve calls: nothing is assigned and every variable is in the future. */
  ghost predicate AtRest<V>(net: Network<V>, st: State<V>) {
    Wf(net, st) && st.past == map[]
  }

  /**
   * The solver constructor: every variable of the problem goes into the future; the past and
   * the stored solutions start empty.
   */
  function NewSolver<V>(net: Network<V>, vars: Vars<V>): (st: State<V>)
    requires Covers(net, vars) && (forall k | k in vars :: vars[k].id == k && vars[k].value == None)
    ensures AtRest(net, st) && st.vars == vars && st.solutions == []
  {
    State(vars, map[], vars.Keys, 0, 0, [])
  }

  /** The number of solutions solve looks for: a count of zero or less means Integer.MAX_VALUE. */
  function Cap(count: int): (cap: int)
    ensures count <= 0 ==> cap == MaxInt
    ensures count > 0 ==> cap == count
  {
    if count <= 0 then MaxInt else count
  }

  /**
   * The state innerSolve starts from: counters reset to zero and, when asked, the problem made
   * consistent. The narrowing of makeConsistent is kept: its prunes are never undone.
   */
  ghost function Prepared<V(!new)>(scheme: Scheme, net: Network<V>, st: State<V>, startConsistent: bool): (r: State<V>)
    requires AtRest(net, st)
    ensures AtRest(net, r) && r.nodes == 0 && r.solutions == st.solutions
    ensures Shrunk(st.vars, r.vars)
    ensures !startConsistent ==> r.vars == st.vars && r.revisions == 0
    ensures startConsistent ==> var order := Enumeration(st.future);
      r.vars == MakeConsistent(scheme, net, st.vars, order, order, 0, []).vars
    ensures forall s | Complete(st.vars, s) && Upholds(net, s) :: Complete(r.vars, s)
  {
    var st0 := st.(nodes := 0, revisions := 0);
    if !startConsistent then st0
    else
      var order := Enumeration(st.future);
      var o := MakeConsistent(scheme, net, st.vars, order, order, 0, []);
      ShrunkKeepsWf(net, st0, o.vars);
      assert Unassigned(st.vars, order);
      PreparedKeeps(scheme, net, st.vars, order);
      st0.(vars := o.vars, revisions := o.revisions)
  }

  /** makeConsistent over the whole future keeps every supported complete assignment. */
  lemma PreparedKeeps<V(!new)>(scheme: Scheme, net: Network<V>, vars: Vars<V>, order: seq<V>)
    requires Covers(net, vars) && Within(vars, order) && Unassigned(vars, order)
    ensures forall s | Complete(vars, s) && Upholds(net, s) ::
      Complete(MakeConsistent(scheme, net, vars, order, order, 0, []).vars, s)
  {
    forall s | Complete(vars, s) && Upholds(net, s)
      ensures Complete(MakeConsistent(scheme, net, vars, order, order, 0, []).vars, s)
    {
      MakeConsistentKeeps(scheme, net, vars, order, order, 0, [], s);
    }
  }

  /**
   * solve(solutionCount, startConsistent): resets the counters, makes the problem consistent if
   * asked, and searches until Cap(count) solutions are stored. The solver comes back at rest
   * with its domains exactly as they were after the preparation: the search undoes its own
   * prunes, never those of makeConsistent; the stored solutions grow
   * and are free of duplicates; every new one is a complete assignment of the domains, and it
   * satisfies the constraints when supports ignore the past and constraints are symmetric; and
   * when fewer than the cap are stored, every complete assignment of the domains that all
   * constraints support is among them.
   */
  ghost function Solve<V(!new)>(scheme: Scheme, net: Network<V>, st: State<V>, count: int, startConsistent: bool)
    : (r: Result<State<V>>)
    requires AtRest(net, st)
    ensures r.Ok? ==> AtRest(net, r.value) && Shrunk(st.vars, r.value.vars) && r.value.nodes >= 1
    ensures r.Ok? && !startConsistent ==> r.value.vars == st.vars
    ensures r.Ok? ==> r.value.vars == Prepared(scheme, net, st, startConsistent).vars
    ensures r.Ok? ==> st.solutions <= r.value.solutions
    ensures r.Ok? && |st.solutions| < Cap(count) ==> |r.value.solutions| <= Cap(count)
    ensures r.Ok? && NoDup(st.solutions) ==> NoDup(r.value.solutions)
    ensures r.Ok? ==> forall i | |st.solutions| <= i < |r.value.solutions| :: Complete(st.vars, r.value.solutions[i])
    ensures r.Ok? && PastFree(net) && Symmetric(net) ==>
      AllSatisfy(net, r.value.solutions, |st.solutions|)
    ensures r.Ok? && |r.value.solutions| < Cap(count) ==>
      forall s | Complete(st.vars, s) && Upholds(net, s) :: s in r.value.solutions
    ensures !startConsistent && st.future != {} && Live(st) ==> r.Ok?
    ensures st.future == {} ==> r == Err(NullReference)
  {
    ReviserOfWorks(scheme, net);
    var st1 := Prepared(scheme, net, st, startConsistent);
    PreparedComplete(net, st, st1);
    var r := Search(net, ReviserOf(scheme, net), st1, Cap(count));
    SolutionsComplete(net, st, st1, r);
    r
  }

  /** What a search from a prepared state stores gives every variable a value of its domain. */
  lemma SolutionsComplete<V>(net: Network<V>, st: State<V>, st1: State<V>, r: Result<State<V>>)
    requires AtRest(net, st) && AtRest(net, st1) && Shrunk(st.vars, st1.vars) && st1.solutions == st.solutions
    requires r.Ok? ==> AllExtend(st1, r.value.solutions, |st1.solutions|)
    ensures r.Ok? ==> forall i | |st.solutions| <= i < |r.value.solutions| :: Complete(st.vars, r.value.solutions[i])
  {
    if r.Ok? {
      forall i | |st.solutions| <= i < |r.value.solutions| ensures Complete(st.vars, r.value.solutions[i]) {
        ExtendsComplete(net, st1, r.value.solutions[i]);
      }
    }
  }

  /**
   * A state at rest reaches exactly the complete assignments of its domains, nothing is pending,
   * and the state is where a search with an empty future fails.
   */
  lemma PreparedComplete<V(!new)>(net: Network<V>, st: State<V>, st1: State<V>)
    requires AtRest(net, st) && AtRest(net, st1) && Shrunk(st.vars, st1.vars)
    requires forall s | Complete(st.vars, s) && Upholds(net, s) :: Complete(st1.vars, s)
    ensures Supported(net, st1, None)
    ensures forall s | Complete(st.vars, s) && Upholds(net, s) :: Extends(st1, s)
    ensures st1.future == st.future
  {
    forall s | Complete(st.vars, s) && Upholds(net, s) ensures Extends(st1, s) {
      ExtendsComplete(net, st1, s);
    }
  }
}
