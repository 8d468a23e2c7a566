/**
 * The backtracking search both engines run (BinarySolving, NarySolving and SolvingAlgorithm):
 * choose the future variable with the smallest domain, try one of its values (left branch),
 * then, unless enough solutions are stored, exclude that value (right branch); each change is
 * propagated and undone when the branch returns.
 */
module Backtracking {
  import opened Wrappers
  import opened Variables
  import opened Engine
  import opened Propagation

  /**
   * The solver's state: the variables, the past (assigned variables with their values), the
   * future (unassigned variables), the node and revision counters and the solutions stored.
   */
  datatype State<V> = State(
    vars: Vars<V>,
    past: map<V, int>,
    future: set<V>,
    nodes: nat,
    revisions: nat,
    solutions: seq<map<V, int>>)

  /**
   * The network lists exactly the variables, each keyed by its identity; every variable is
   * either in the past, assigned the value the past records, or in the future, unassigned.
   */
  ghost predicate Wf<V>(net: Network<V>, st: State<V>) {
    Consistent(net, st.vars, st.past, st.future)
  }

  ghost predicate Consistent<V>(net: Network<V>, vars: Vars<V>, past: map<V, int>, future: set<V>) {
    && Covers(net, vars)
    && (forall k | k in vars :: vars[k].id == k)
    && (forall k | k in past :: k in vars && k !in future && vars[k].value == Some(past[k]))
    && (forall k | k in future :: k in vars && vars[k].value == None)
    && (forall k | k in vars :: k in past || k in future)
  }

  /**
   * The loop of getSmallestDomainVariable over `todo`: a variable replaces the candidate when its
   * domain is strictly smaller than the smallest size seen, and a size of 1 ends the scan.
   */
  function Smallest<V>(vars: Vars<V>, todo: seq<V>, best: Option<V>, smallest: int): (r: Option<V>)
    requires Within(vars, todo)
    ensures r.Some? ==> r == best || r.value in todo
    decreases |todo|
  {
    if todo == [] then best
    else
      var size := |vars[todo[0]].domain|;
      if size < smallest then
        if size == 1 then Some(todo[0]) else Smallest(vars, todo[1..], Some(todo[0]), size)
      else
        Smallest(vars, todo[1..], best, smallest)
  }

  /**
   * When every size is positive and below the sentinel, the scan ends on a candidate no larger
   * than the smallest size seen and than any variable it scanned.
   */
  lemma {:induction false} SmallestIsMinimal<V>(vars: Vars<V>, todo: seq<V>, best: Option<V>, smallest: int)
    requires Within(vars, todo)
    requires best.Some? || todo != []
    requires forall k | k in todo :: 0 < |vars[k].domain| < MaxInt
    requires 1 <= smallest && (best.None? ==> smallest == MaxInt)
    requires best.Some? ==> best.value in vars && |vars[best.value].domain| == smallest
    ensures var r := Smallest(vars, todo, best, smallest);
      && r.Some? && r.value in vars && |vars[r.value].domain| <= smallest
      && forall k | k in todo :: |vars[r.value].domain| <= |vars[k].domain|
    decreases |todo|
  {
    if todo != [] {
      var size := |vars[todo[0]].domain|;
      if size < smallest {
        if size != 1 {
          SmallestIsMinimal(vars, todo[1..], Some(todo[0]), size);
        }
      } else if todo[1..] != [] || best.Some? {
        SmallestIsMinimal(vars, todo[1..], best, smallest);
      }
    }
  }

  /**
   * getSmallestDomainVariable: none for an empty future (the source returns null), otherwise a
   * variable of the future.
   */
  function SmallestDomainVariable<V>(vars: Vars<V>, order: seq<V>): (r: Option<V>)
    requires Within(vars, order)
    ensures r.Some? ==> r.value in order
    ensures order == [] ==> r.None?
  {
    Smallest(vars, order, None, MaxInt)
  }

  /**
   * When every domain size is positive and below Integer.MAX_VALUE, a non-empty order yields a
   * variable whose domain is no larger than any other's.
   */
  lemma SmallestDomainVariableIsMinimal<V>(vars: Vars<V>, order: seq<V>)
    requires Within(vars, order)
    requires order != [] && forall k | k in order :: 0 < |vars[k].domain| < MaxInt
    ensures var r := SmallestDomainVariable(vars, order);
      r.Some? && forall k | k in order :: |vars[r.value].domain| <= |vars[k].domain|
  {
    SmallestIsMinimal(vars, order, None, MaxInt);
  }

  /** assign: the variable takes the value and moves from the future to the past. */
  function AssignVar<V>(st: State<V>, x: V, val: int): State<V>
    requires x in st.vars
  {
    st.(vars := st.vars[x := Assign(st.vars[x], val)], past := st.past[x := val], future := st.future - {x})
  }

  /** unassign: the variable loses its value and moves from the past back to the future. */
  function UnassignVar<V>(st: State<V>, x: V): State<V>
    requires x in st.vars
  {
    st.(vars := st.vars[x := Unassign(st.vars[x])], past := st.past - {x}, future := st.future + {x})
  }

  /** The search returned the variables, past and future it started from, and only added. */
  ghost predicate Restored<V>(st: State<V>, st': State<V>) {
    && st'.vars == st.vars && st'.past == st.past && st'.future == st.future
    && st.solutions <= st'.solutions
    && st'.nodes >= st.nodes && st'.revisions >= st.revisions
  }

  /** Every future domain is non-empty and its size below Integer.MAX_VALUE. */
  ghost predicate Live<V>(st: State<V>) {
    LiveDomains(st.vars, st.future)
  }

  ghost predicate LiveDomains<V>(vars: Vars<V>, future: set<V>) {
    forall f | f in future :: f in vars && 0 < |vars[f].domain| < MaxInt
  }

  /**
   * A complete assignment the state can still reach: it gives each past variable its value and
   * each future variable a value of its domain.
   */
  ghost predicate Extends<V>(st: State<V>, s: map<V, int>) {
    Reaches(st.vars, st.past, st.future, s)
  }

  ghost predicate Reaches<V>(vars: Vars<V>, past: map<V, int>, future: set<V>, s: map<V, int>) {
    && (forall k | k in s :: k in vars)
    && Agrees(past, s)
    && (forall k | k in future :: k in s && k in vars && s[k] in vars[k].domain)
  }

  /** Every solution stored from index n on extends the state. */
  ghost predicate AllExtend<V>(st: State<V>, sols: seq<map<V, int>>, n: int) {
    AllReach(st.vars, st.past, st.future, sols, n)
  }

  ghost predicate AllReach<V>(vars: Vars<V>, past: map<V, int>, future: set<V>, sols: seq<map<V, int>>, n: int) {
    forall i | 0 <= n <= i < |sols| :: Reaches(vars, past, future, sols[i])
  }

  /** Every assignment the state reaches that all constraints support is among the solutions. */
  ghost predicate AllFound<V(!new)>(net: Network<V>, st: State<V>, sols: seq<map<V, int>>) {
    Found(net, st.vars, st.past, st.future, sols)
  }

  ghost predicate Found<V(!new)>(net: Network<V>, vars: Vars<V>, past: map<V, int>, future: set<V>, sols: seq<map<V, int>>) {
    forall s | Reaches(vars, past, future, s) && Upholds(net, s) :: s in sols
  }

  /** Value a of p and value b of q agree with every constraint on the arc (p, q). */
  ghost predicate Allows<V>(net: Network<V>, p: V, a: int, q: V, b: int) {
    InAll(a, net.supports(Arc(p, q), {b}, map[]))
  }

  /** The assignment agrees with every constraint between two of its variables. */
  ghost predicate Satisfies<V>(net: Network<V>, s: map<V, int>) {
    forall p, q | p in s && q in s && p != q && net.linked(p, q) :: Allows(net, p, s[p], q, s[q])
  }

  /** Every solution stored from index n on satisfies the constraints. */
  ghost predicate AllSatisfy<V>(net: Network<V>, sols: seq<map<V, int>>, n: int) {
    forall i | 0 <= n <= i < |sols| :: Satisfies(net, sols[i])
  }

  /** The supports of an arc do not depend on the past, as in a binary problem. */
  ghost predicate PastFree<V(!new)>(net: Network<V>) {
    forall a: Arc<V>, d: set<int>, past: map<V, int> :: net.supports(a, d, past) == net.supports(a, d, map[])
  }

  /** Constraints link both ways and allow a pair of values from either end. */
  ghost predicate Symmetric<V(!new)>(net: Network<V>) {
    && (forall p: V, q: V :: net.linked(p, q) ==> net.linked(q, p))
    && (forall p: V, a: int, q: V, b: int | p != q && net.linked(p, q) :: Allows(net, p, a, q, b) == Allows(net, q, b, p, a))
  }

  /** What soundness needs: revise filters, supports ignore the past, constraints are symmetric. */
  ghost predicate Enforces<V(!new)>(net: Network<V>, revise: Reviser<V>) {
    Filters(net, revise) && PastFree(net) && Symmetric(net)
  }

  /**
   * The search invariant behind soundness: the past satisfies the constraints, and every value
   * left in a future domain agrees with the value of each linked past variable, except the
   * pending one whose constraints revise has yet to enforce.
   */
  ghost predicate Supported<V>(net: Network<V>, st: State<V>, pending: Option<V>) {
    Satisfies(net, st.past) && FutureSupported(net, st.vars, st.past, st.future, pending)
  }

  ghost predicate FutureSupported<V>(net: Network<V>, vars: Vars<V>, past: map<V, int>, future: set<V>, pending: Option<V>) {
    forall f, p, v | f in future && p in past && Some(p) != pending && net.linked(f, p) && f in vars && v in vars[f].domain ::
      Allows(net, f, v, p, past[p])
  }

  /** The variable whose constraints a propagation from x enforces: x itself once assigned. */
  function Pending<V>(st: State<V>, x: V): Option<V> {
    if x in st.past then Some(x) else None
  }

  /** The variable solve branches on and the value it tries first. */
  datatype Choice<V> = Choice(x: V, val: int)

  /**
   * The first two steps of solve: the smallest-domain future variable (none, and the source's
   * null dereference, when the future is empty) and the value getNextVal draws from its domain
   * (the source's NoSuchElementException when that domain is empty).
   */
  ghost function Choose<V>(vars: Vars<V>, future: set<V>): (r: Result<Choice<V>>)
    requires forall k | k in future :: k in vars
    ensures r.Ok? ==> r.value.x in future && r.value.val in vars[r.value.x].domain
  {
    var order := Enumeration(future);
    match SmallestDomainVariable(vars, order)
    case None => Err(NullReference)
    case Some(x) =>
      match NextValue(vars[x])
      case None => Err(NoElement)
      case Some(val) => Ok(Choice(x, val))
  }

  /**
   * A non-empty future whose domains are all non-empty always yields a choice, and the chosen
   * variable's domain is no larger than any other future variable's.
   */
  lemma ChooseSmallest<V>(vars: Vars<V>, future: set<V>)
    requires forall k | k in future :: k in vars
    ensures future != {} && LiveDomains(vars, future) ==>
      var r := Choose(vars, future);
      && r.Ok?
      && forall k | k in future :: |vars[r.value.x].domain| <= |vars[k].domain|
  {
    if future != {} && LiveDomains(vars, future) {
      EnumerationNonEmpty(future);
      SmallestDomainVariableIsMinimal(vars, Enumeration(future));
    }
  }

  /** A non-empty future has a non-empty iteration order. */
  lemma EnumerationNonEmpty<V>(s: set<V>)
    requires s != {}
    ensures Enumeration(s) != []
  {
    HasElement(s);
    var x :| x in s;
    assert x in Enumeration(s);
  }

  /**
   * The abstract revise(var, prunes) each solver subclass supplies: from the variables, the past,
   * the changed variable, the future in iteration order and the revision counter, it narrows
   * domains and reports whether none was wiped out.
   */
  type Reviser<!V> = (Vars<V>, map<V, int>, V, seq<V>, nat) --> Outcome<V>

  /**
   * What the search relies on from revise: it accepts every well-formed call, only narrows
   * domains of the future, its prunes undo it, and it reports a wipeout exactly when it made one.
   */
  ghost predicate Revises<V(!new)>(net: Network<V>, revise: Reviser<V>) {
    forall vars: Vars<V>, past: map<V, int>, x: V, order: seq<V>, revisions: nat
      | Covers(net, vars) && x in vars && Within(vars, order) ::
      && revise.requires(vars, past, x, order, revisions)
      && Contained(vars, revise(vars, past, x, order, revisions), order, revisions, [])
  }

  /**
   * What soundness relies on from revise: after an assignment to x (so x is not in the order),
   * a consistent outcome leaves in each variable linked to x only values x's constraints support.
   */
  ghost predicate Filters<V(!new)>(net: Network<V>, revise: Reviser<V>) {
    forall vars: Vars<V>, past: map<V, int>, x: V, order: seq<V>, revisions: nat
      | Covers(net, vars) && x in vars && Within(vars, order) && x !in order
        && revise.requires(vars, past, x, order, revisions) ::
      var o := revise(vars, past, x, order, revisions);
      o.consistent && o.vars.Keys == vars.Keys ==>
        forall f, v | f in order && net.linked(f, x) && f in o.vars && v in o.vars[f].domain ::
          InAll(v, net.supports(Arc(f, x), CurrentDomain(vars[x]), past))
  }

  /**
   * What completeness relies on from revise: over unassigned variables it removes no value of
   * an assignment every constraint supports, and so reports no wipeout while one exists.
   */
  ghost predicate Keeps<V(!new)>(net: Network<V>, revise: Reviser<V>) {
    forall vars: Vars<V>, past: map<V, int>, x: V, order: seq<V>, revisions: nat, s: map<V, int>
      | Covers(net, vars) && x in vars && Within(vars, order) && Unassigned(vars, order)
        && revise.requires(vars, past, x, order, revisions) && Complete(vars, s) && Upholds(net, s) && Agrees(past, s) ::
      revise(vars, past, x, order, revisions).consistent && Complete(revise(vars, past, x, order, revisions).vars, s)
  }

  /**
   * solve: counts a node, picks the future variable with the smallest domain and a value of it,
   * runs the left branch, and the right branch unless `cap` solutions are stored. It cannot
   * fail while the future is non-empty and every future domain is non-empty, and it stores no
   * more than `cap` solutions when it starts with fewer.
   */
  ghost function Search<V(!new)>(net: Network<V>, revise: Reviser<V>, st: State<V>, cap: int): (r: Result<State<V>>)
    requires Revises(net, revise) && Wf(net, st)
    ensures r.Ok? ==> Restored(st, r.value) && r.value.nodes > st.nodes
    ensures st.future != {} && Live(st) ==> r.Ok?
    ensures r.Ok? && |st.solutions| < cap ==> |r.value.solutions| <= cap
    ensures r.Ok? ==> AllExtend(st, r.value.solutions, |st.solutions|)
    ensures r.Ok? && NoDup(st.solutions) ==> NoDup(r.value.solutions)
    ensures r.Ok? && Enforces(net, revise) && Supported(net, st, None) ==>
      AllSatisfy(net, r.value.solutions, |st.solutions|)
    ensures r.Ok? && Keeps(net, revise) && |r.value.solutions| < cap ==> AllFound(net, st, r.value.solutions)
    decreases |st.future|, TotalSize(st.vars, net.ids), 3
  {
    ChooseSmallest(st.vars, st.future);
    match Choose(st.vars, st.future)
    case Err(fault) => Err(fault)
    case Ok(c) =>
      var st1 := st.(nodes := st.nodes + 1);
      match LeftBranch(net, revise, st1, c.x, c.val, cap)
      case Err(fault) => Err(fault)
      case Ok(st2) =>
        LeftRegion(net, st1, st2, c.x, c.val);
        if |st2.solutions| >= cap then Ok(st2)
        else
          match RightBranch(net, revise, st2, c.x, c.val, cap)
          case Err(fault) => Err(fault)
          case Ok(st3) =>
            RightRegion(net, st1, st2, st3, c.x, c.val);
            AllSatisfyJoin(net, st1.solutions, st2.solutions, st3.solutions);
            FoundJoin(net, revise, st1, st2, st3, c.x, c.val, cap);
            Ok(st3)
  }

  /**
   * leftBranch: assigns val to x; stores the past as a solution when the future is empty and
   * propagates the assignment otherwise; then unassigns x.
   */
  ghost function LeftBranch<V(!new)>(net: Network<V>, revise: Reviser<V>, st: State<V>, x: V, val: int, cap: int)
    : (r: Result<State<V>>)
    requires Revises(net, revise) && Wf(net, st) && x in st.future && val in st.vars[x].domain
    ensures r.Ok? ==> Restored(st, r.value)
    ensures Live(st) ==> r.Ok?
    ensures r.Ok? && |st.solutions| < cap ==> |r.value.solutions| <= cap
    ensures r.Ok? ==> AllExtend(AssignVar(st, x, val), r.value.solutions, |st.solutions|)
    ensures r.Ok? && Keeps(net, revise) && |r.value.solutions| < cap ==>
      AllFound(net, AssignVar(st, x, val), r.value.solutions)
    ensures r.Ok? && NoDup(st.solutions) ==> NoDup(r.value.solutions)
    ensures r.Ok? && Enforces(net, revise) && Supported(net, st, None) ==>
      AllSatisfy(net, r.value.solutions, |st.solutions|)
    decreases |st.future|, TotalSize(st.vars, net.ids), 2
  {
    var st2 := AssignVar(st, x, val);
    AssignKeepsWf(net, st, x, val);
    StoredSolution(net, st2);
    AssignSupported(net, st, x, val);
    var st3 :-
      if st2.future == {} then Ok(st2.(solutions := Insert(st2.solutions, st2.past)))
      else PropagateChange(net, revise, st2, x, cap);
    Ok(UnassignVar(st3, x))
  }

  /**
   * rightBranch: removes val from x's domain; propagates the removal unless the domain became
   * empty; then puts val back.
   */
  ghost function RightBranch<V(!new)>(net: Network<V>, revise: Reviser<V>, st: State<V>, x: V, val: int, cap: int)
    : (r: Result<State<V>>)
    requires Revises(net, revise) && Wf(net, st) && x in st.future && val in st.vars[x].domain
    ensures r.Ok? ==> Restored(st, r.value)
    ensures Live(st) ==> r.Ok?
    ensures r.Ok? && |st.solutions| < cap ==> |r.value.solutions| <= cap
    ensures r.Ok? ==> AllExtend(Exclude(st, x, val), r.value.solutions, |st.solutions|)
    ensures r.Ok? && Keeps(net, revise) && |r.value.solutions| < cap ==>
      AllFound(net, Exclude(st, x, val), r.value.solutions)
    ensures r.Ok? && NoDup(st.solutions) ==> NoDup(r.value.solutions)
    ensures r.Ok? && Enforces(net, revise) && Supported(net, st, None) ==>
      AllSatisfy(net, r.value.solutions, |st.solutions|)
    decreases |st.future|, TotalSize(st.vars, net.ids), 2
  {
    var st1 := Exclude(st, x, val);
    RemoveKeepsWf(net, st, x, val);
    ExcludeSupported(net, st, x, val);
    var st2 :-
      if IsConsistent(st1.vars[x]) then PropagateChange(net, revise, st1, x, cap)
      else Ok(st1);
    Ok(st2.(vars := st2.vars[x := AddToDomain(st2.vars[x], val)]))
  }

  /**
   * propagateChange: revises the future variables after x changed, searches on when no domain
   * was wiped out, then undoes every recorded prune.
   */
  ghost function PropagateChange<V(!new)>(net: Network<V>, revise: Reviser<V>, st: State<V>, x: V, cap: int)
    : (r: Result<State<V>>)
    requires Revises(net, revise) && Wf(net, st) && x in st.vars && st.future != {}
    ensures r.Ok? ==> Restored(st, r.value)
    ensures Live(st) ==> r.Ok?
    ensures r.Ok? && |st.solutions| < cap ==> |r.value.solutions| <= cap
    ensures r.Ok? ==> AllExtend(st, r.value.solutions, |st.solutions|)
    ensures r.Ok? && NoDup(st.solutions) ==> NoDup(r.value.solutions)
    ensures r.Ok? && Enforces(net, revise) && Supported(net, st, Pending(st, x)) ==>
      AllSatisfy(net, r.value.solutions, |st.solutions|)
    ensures r.Ok? && Keeps(net, revise) && |r.value.solutions| < cap ==> AllFound(net, st, r.value.solutions)
    decreases |st.future|, TotalSize(st.vars, net.ids), 4
  {
    var o := Revised(net, revise, st, x);
    PropagationStep(net, revise, st, x);
    var st1 := st.(vars := o.vars, revisions := o.revisions);
    PropagationSupported(net, revise, st, x);
    var st2 :- if o.consistent then Search(net, revise, st1, cap) else Ok(st1);
    ShrunkRegion(net, st, st1, st2.solutions, |st.solutions|);
    PropagationKeeps(net, revise, st, x, st2.solutions);
    Ok(st2.(vars := UndoAll(st2.vars, o.prunes)))
  }

  /** The value removed from x's domain, as the right branch does. */
  function Exclude<V>(st: State<V>, x: V, val: int): State<V>
    requires x in st.vars
  {
    st.(vars := st.vars[x := RemoveFromDomain(st.vars[x], val)])
  }

  /** The revise call of propagateChange: over the future in iteration order, with no prunes yet. */
  ghost function Revised<V(!new)>(net: Network<V>, revise: Reviser<V>, st: State<V>, x: V): Outcome<V>
    requires Revises(net, revise) && Wf(net, st) && x in st.vars
  {
    revise(st.vars, st.past, x, Enumeration(st.future), st.revisions)
  }

  /**
   * Assigning a future variable keeps the state well formed and shrinks the future, and
   * unassigning it again restores the variables, past and future.
   */
  lemma AssignKeepsWf<V>(net: Network<V>, st: State<V>, x: V, val: int)
    requires Wf(net, st) && x in st.future
    ensures var st2 := AssignVar(st, x, val);
      && Wf(net, st2) && |st2.future| < |st.future| && x in st2.past
      && (Live(st) ==> Live(st2))
      && var st4 := UnassignVar(st2, x); st4.vars == st.vars && st4.past == st.past && st4.future == st.future
  {
    var st2 := AssignVar(st, x, val);
    MapsEqual(st2.vars[x := Unassign(st2.vars[x])], st.vars);
    assert st2.past - {x} == st.past;
    assert st2.future + {x} == st.future;
  }

  /**
   * Removing a value of a future variable keeps the state well formed and lowers the total
   * domain size, and adding the value back restores the variables.
   */
  lemma RemoveKeepsWf<V>(net: Network<V>, st: State<V>, x: V, val: int)
    requires Wf(net, st) && x in st.future && val in st.vars[x].domain
    ensures var vars1 := Exclude(st, x, val).vars;
      && Wf(net, Exclude(st, x, val))
      && TotalSize(vars1, net.ids) < TotalSize(st.vars, net.ids)
      && vars1[x := AddToDomain(vars1[x], val)] == st.vars
      && (Live(st) && IsConsistent(vars1[x]) ==> Live(Exclude(st, x, val)))
  {
    var vars1 := Exclude(st, x, val).vars;
    assert Shrunk(st.vars, vars1);
    assert vars1[x].domain < st.vars[x].domain;
    TotalSizeShrinks(st.vars, vars1, net.ids);
    RemoveThenAddRestores(st.vars[x], val);
    MapsEqual(vars1[x := AddToDomain(vars1[x], val)], st.vars);
    SubsetSize(vars1[x].domain, st.vars[x].domain);
  }

  /** Narrowed variables keep the state well formed. */
  lemma ShrunkKeepsWf<V>(net: Network<V>, st: State<V>, vars': Vars<V>)
    requires Wf(net, st) && Shrunk(st.vars, vars')
    ensures Wf(net, st.(vars := vars'))
  {
  }

  /**
   * What propagateChange relies on from the revise call: the state stays well formed, the total
   * domain size does not grow, undoing the records restores the variables, and the counter
   * only grows.
   */
  lemma PropagationStep<V(!new)>(net: Network<V>, revise: Reviser<V>, st: State<V>, x: V)
    requires Revises(net, revise) && Wf(net, st) && x in st.vars
    ensures var o := Revised(net, revise, st, x);
      && Wf(net, st.(vars := o.vars, revisions := o.revisions))
      && TotalSize(o.vars, net.ids) <= TotalSize(st.vars, net.ids)
      && Recorded(o.vars, o.prunes) && UndoAll(o.vars, o.prunes) == st.vars
      && o.revisions >= st.revisions
      && (o.consistent && Live(st) ==> Live(st.(vars := o.vars, revisions := o.revisions)))
  {
    var o := Revised(net, revise, st, x);
    assert Contained(st.vars, o, Enumeration(st.future), st.revisions, []);
    ShrunkKeepsWf(net, st, o.vars);
    TotalSizeShrinks(st.vars, o.vars, net.ids);
    MapsEqual(UndoAll(st.vars, []), st.vars);
    PropagationLive(net, revise, st, x);
  }

  /** A consistent propagation leaves every future domain non-empty and no larger than before. */
  lemma PropagationLive<V(!new)>(net: Network<V>, revise: Reviser<V>, st: State<V>, x: V)
    requires Revises(net, revise) && Wf(net, st) && x in st.vars
    ensures var o := Revised(net, revise, st, x);
      o.consistent && Live(st) ==> Live(st.(vars := o.vars, revisions := o.revisions))
  {
    var o := Revised(net, revise, st, x);
    assert Contained(st.vars, o, Enumeration(st.future), st.revisions, []);
    if o.consistent && Live(st) {
      forall f | f in st.future ensures 0 < |o.vars[f].domain| < MaxInt {
        SubsetSize(o.vars[f].domain, st.vars[f].domain);
      }
    }
  }

  /** The left branch's solutions extend the state it started from. */
  lemma LeftRegion<V>(net: Network<V>, st: State<V>, st2: State<V>, x: V, val: int)
    requires Wf(net, st) && x in st.future && val in st.vars[x].domain
    requires Restored(st, st2) && AllExtend(AssignVar(st, x, val), st2.solutions, |st.solutions|)
    ensures AllExtend(st, st2.solutions, |st.solutions|)
  {
    forall i | |st.solutions| <= i < |st2.solutions| ensures Extends(st, st2.solutions[i]) {
      assert Extends(AssignVar(st, x, val), st2.solutions[i]);
    }
  }

  /** The solutions of both branches extend the state the branching started from. */
  lemma RightRegion<V>(net: Network<V>, st: State<V>, st2: State<V>, st3: State<V>, x: V, val: int)
    requires Wf(net, st) && x in st.future && val in st.vars[x].domain
    requires Restored(st, st2) && AllExtend(st, st2.solutions, |st.solutions|)
    requires Restored(st2, st3) && AllExtend(Exclude(st2, x, val), st3.solutions, |st2.solutions|)
    ensures AllExtend(st, st3.solutions, |st.solutions|)
  {
    forall i | |st.solutions| <= i < |st3.solutions| ensures Extends(st, st3.solutions[i]) {
      if i < |st2.solutions| {
        assert st3.solutions[i] == st2.solutions[i];
      } else {
        assert Extends(Exclude(st2, x, val), st3.solutions[i]);
      }
    }
  }

  /** Narrowing domains narrows what the state reaches. */
  lemma ShrunkRegion<V>(net: Network<V>, st: State<V>, st1: State<V>, sols: seq<map<V, int>>, n: int)
    requires Wf(net, st) && Shrunk(st.vars, st1.vars) && st1.past == st.past && st1.future == st.future
    ensures AllExtend(st1, sols, n) ==> AllExtend(st, sols, n)
  {
  }

  /**
   * With the future empty, the past is the one assignment the state reaches; storing it gives
   * a solution that extends the state, and a satisfying one when the past satisfies.
   */
  lemma StoredSolution<V(!new)>(net: Network<V>, st: State<V>)
    requires Wf(net, st)
    ensures st.future == {} ==>
      var sols := Insert(st.solutions, st.past);
      && AllExtend(st, sols, |st.solutions|)
      && AllFound(net, st, sols)
      && (Satisfies(net, st.past) ==> AllSatisfy(net, sols, |st.solutions|))
  {
    if st.future == {} {
      var sols := Insert(st.solutions, st.past);
      forall i | |st.solutions| <= i < |sols| ensures sols[i] == st.past {
      }
      forall s | Reaches(st.vars, st.past, st.future, s) ensures s in sols {
        assert s.Keys == st.past.Keys;
        assert s == st.past;
      }
    }
  }

  /** In a well-formed state, reaching an assignment is holding it in every current domain. */
  lemma ExtendsComplete<V>(net: Network<V>, st: State<V>, s: map<V, int>)
    requires Wf(net, st)
    ensures Extends(st, s) <==> Complete(st.vars, s)
  {
  }

  /** Every assignment the state reaches goes down the left branch or the right one. */
  lemma BranchesCover<V>(net: Network<V>, st: State<V>, x: V, val: int)
    requires Wf(net, st) && x in st.future && val in st.vars[x].domain
    ensures forall s | Extends(st, s) :: Extends(AssignVar(st, x, val), s) || Extends(Exclude(st, x, val), s)
  {
  }

  /** What the two branches find together is everything the state reaches. */
  lemma FoundJoin<V(!new)>(net: Network<V>, revise: Reviser<V>, st: State<V>, st2: State<V>, st3: State<V>,
                           x: V, val: int, cap: int)
    requires Wf(net, st) && x in st.future && val in st.vars[x].domain
    requires Restored(st, st2) && Restored(st2, st3)
    requires Keeps(net, revise) && |st2.solutions| < cap ==> AllFound(net, AssignVar(st, x, val), st2.solutions)
    requires Keeps(net, revise) && |st3.solutions| < cap ==> AllFound(net, Exclude(st2, x, val), st3.solutions)
    ensures Keeps(net, revise) && |st3.solutions| < cap ==> AllFound(net, st, st3.solutions)
  {
    if Keeps(net, revise) && |st3.solutions| < cap {
      assert |st2.solutions| <= |st3.solutions|;
      BranchesCover(net, st, x, val);
      forall s | Extends(st, s) && Upholds(net, s) ensures s in st3.solutions {
        if Extends(AssignVar(st, x, val), s) {
          assert s in st2.solutions;
        }
      }
    }
  }

  /**
   * A propagation that keeps supported assignments hands the search a state that reaches all of
   * them, or none exists when it reports a wipeout.
   */
  lemma PropagationKeeps<V(!new)>(net: Network<V>, revise: Reviser<V>, st: State<V>, x: V, sols: seq<map<V, int>>)
    requires Revises(net, revise) && Wf(net, st) && x in st.vars
    ensures var o := Revised(net, revise, st, x);
      var st1 := st.(vars := o.vars, revisions := o.revisions);
      Keeps(net, revise) && (o.consistent ==> AllFound(net, st1, sols)) ==> AllFound(net, st, sols)
  {
    var o := Revised(net, revise, st, x);
    var st1 := st.(vars := o.vars, revisions := o.revisions);
    if Keeps(net, revise) && (o.consistent ==> AllFound(net, st1, sols)) {
      PropagationStep(net, revise, st, x);
      var order := Enumeration(st.future);
      assert Unassigned(st.vars, order);
      forall s | Extends(st, s) && Upholds(net, s) ensures s in sols {
        ExtendsComplete(net, st, s);
        assert o.consistent && Complete(o.vars, s);
        ExtendsComplete(net, st1, s);
      }
    }
  }

  /** Solutions added in two rounds satisfy the constraints when each round's do. */
  lemma AllSatisfyJoin<V>(net: Network<V>, a: seq<map<V, int>>, b: seq<map<V, int>>, c: seq<map<V, int>>)
    requires a <= b <= c
    ensures AllSatisfy(net, b, |a|) && AllSatisfy(net, c, |b|) ==> AllSatisfy(net, c, |a|)
  {
    forall i | |a| <= i < |b| ensures b[i] == c[i] {
    }
  }

  /**
   * Assigning a value of a future domain keeps the past satisfied; only the constraints between
   * x and the future are left pending.
   */
  lemma AssignSupported<V(!new)>(net: Network<V>, st: State<V>, x: V, val: int)
    requires Wf(net, st) && x in st.future && val in st.vars[x].domain
    ensures Symmetric(net) && Supported(net, st, None) ==> Supported(net, AssignVar(st, x, val), Some(x))
  {
    if Symmetric(net) && Supported(net, st, None) {
      var st2 := AssignVar(st, x, val);
      forall p, q | p in st2.past && q in st2.past && p != q && net.linked(p, q)
        ensures Allows(net, p, st2.past[p], q, st2.past[q])
      {
        if p == x {
          assert Allows(net, x, val, q, st.past[q]);
        } else if q == x {
          assert net.linked(q, p);
          assert Allows(net, x, val, p, st.past[p]);
        }
      }
    }
  }

  /** Removing a value from a future domain keeps the invariant. */
  lemma ExcludeSupported<V>(net: Network<V>, st: State<V>, x: V, val: int)
    requires Wf(net, st) && x in st.future && val in st.vars[x].domain
    ensures Supported(net, st, None) ==> Supported(net, Exclude(st, x, val), Pending(Exclude(st, x, val), x))
  {
  }

  /**
   * A consistent propagation from x enforces x's pending constraints, and the narrowing keeps
   * every other support: afterwards nothing is pending.
   */
  lemma PropagationSupported<V(!new)>(net: Network<V>, revise: Reviser<V>, st: State<V>, x: V)
    requires Revises(net, revise) && Wf(net, st) && x in st.vars
    ensures var o := Revised(net, revise, st, x);
      Enforces(net, revise) && Supported(net, st, Pending(st, x)) && o.consistent ==>
        Supported(net, st.(vars := o.vars, revisions := o.revisions), None)
  {
    var o := Revised(net, revise, st, x);
    var order := Enumeration(st.future);
    assert Contained(st.vars, o, order, st.revisions, []);
    if Enforces(net, revise) && Supported(net, st, Pending(st, x)) && o.consistent {
      forall f, p, v | f in st.future && p in st.past && net.linked(f, p) && f in o.vars && v in o.vars[f].domain
        ensures Allows(net, f, v, p, st.past[p])
      {
        if p == x {
          assert f in order && x !in order;
          assert CurrentDomain(st.vars[x]) == {st.past[x]};
          assert InAll(v, net.supports(Arc(f, x), CurrentDomain(st.vars[x]), st.past));
        }
      }
    }
  }
}
