/**
 * The two propagation schemes the solvers are built with: forward checking and maintaining arc
 * consistency. Both revise arcs towards the variable whose domain just changed, record every
 * revision as a prune, and report whether some domain was wiped out.
 */
module Propagation {
  import opened Wrappers
  import opened Variables
  import opened Engine

  datatype Scheme = ForwardChecking | MaintainingArcConsistency

  /**
   * What one revise call leaves behind: whether no domain was wiped out, the narrowed variables,
   * the revision counter and the prune records, in insertion order.
   */
  datatype Outcome<V> = Outcome(consistent: bool, vars: Vars<V>, revisions: nat, prunes: seq<Prune<V>>)

  /** Every listed variable exists. */
  ghost predicate Within<V>(vars: Vars<V>, s: seq<V>) {
    forall k | k in s :: k in vars
  }

  /** The network lists exactly the variables present. */
  ghost predicate Covers<V>(net: Network<V>, vars: Vars<V>) {
    (forall k | k in net.ids :: k in vars) && (forall k | k in vars :: k in net.ids)
  }

  /**
   * What both schemes promise about a propagation over the variables in `scope`: domains only
   * lose values and only in scope; undoing every record returns to where undoing the records
   * present beforehand would; the counter only grows; a consistent outcome wiped nothing out,
   * and an inconsistent one wiped out a variable in scope.
   */
  ghost predicate Contained<V>(vars: Vars<V>, o: Outcome<V>, scope: seq<V>, revisions: nat, prunes: seq<Prune<V>>) {
    && Shrunk(vars, o.vars)
    && (forall k | k in vars && k !in scope :: o.vars[k] == vars[k])
    && Recorded(vars, prunes) && Recorded(o.vars, o.prunes)
    && UndoAll(o.vars, o.prunes) == UndoAll(vars, prunes)
    && o.revisions >= revisions
    && (o.consistent ==> forall k | k in vars && o.vars[k].domain == {} :: vars[k].domain == {})
    && (!o.consistent ==> exists k :: k in scope && k in vars && o.vars[k].domain == {})
  }

  /** The variables of `todo` that share a constraint with x, in order. */
  function LinkedTo<V>(net: Network<V>, todo: seq<V>, x: V): (r: seq<V>)
    ensures forall f | f in r :: f in todo && net.linked(f, x)
    ensures forall f | f in todo && net.linked(f, x) :: f in r
  {
    if todo == [] then []
    else (if net.linked(todo[0], x) then [todo[0]] else []) + LinkedTo(net, todo[1..], x)
  }

  /** Composes two propagation stretches, the first of which found no wipeout. */
  lemma ContainedTrans<V>(vars: Vars<V>, mid: Outcome<V>, o: Outcome<V>, scope: seq<V>, s1: seq<V>, s2: seq<V>,
                          revisions: nat, prunes: seq<Prune<V>>)
    requires (forall k | k in s1 :: k in scope) && (forall k | k in s2 :: k in scope) && mid.consistent
    requires Contained(vars, mid, s1, revisions, prunes)
    requires Contained(mid.vars, o, s2, mid.revisions, mid.prunes)
    ensures Contained(vars, o, scope, revisions, prunes)
  {
    assert Shrunk(vars, o.vars) by {
      forall k | k in vars ensures o.vars[k].domain <= vars[k].domain {
      }
    }
    forall k | k in vars && k !in scope ensures o.vars[k] == vars[k] {
      assert k !in s1 && k !in s2;
    }
    if !o.consistent {
      var k :| k in s2 && k in mid.vars && o.vars[k].domain == {};
      assert k in scope;
    }
  }

  /** The outcome of revising one arc and recording it. */
  function Step<V>(net: Network<V>, vars: Vars<V>, past: map<V, int>, a: Arc<V>,
                   revisions: nat, prunes: seq<Prune<V>>): Outcome<V>
    requires a.dependent in vars && a.supporter in vars
  {
    var r := Revise(net, vars, past, a);
    Outcome(IsConsistent(r.0[a.dependent]), r.0, revisions + 1, Insert(prunes, r.1))
  }

  /** A single revision is a propagation stretch over its dependent. */
  lemma StepContained<V>(net: Network<V>, vars: Vars<V>, past: map<V, int>, a: Arc<V>,
                         revisions: nat, prunes: seq<Prune<V>>)
    requires a.dependent in vars && a.supporter in vars && Recorded(vars, prunes)
    ensures Contained(vars, Step(net, vars, past, a, revisions, prunes), [a.dependent], revisions, prunes)
  {
    var r := Revise(net, vars, past, a);
    var d := a.dependent;
    var o := Step(net, vars, past, a, revisions, prunes);
    RecordKeepsUndoTarget(vars, r.0, r.1, prunes);
    assert Shrunk(vars, o.vars);
    if !o.consistent {
      assert d in [d] && d in vars && o.vars[d].domain == {};
    }
  }

  /**
   * Forward checking after x changed (ForwardChecking.revise): revises the arc (f, x) for every
   * f of `todo` that shares a constraint with x, one revision each, and stops at the first
   * variable whose domain becomes empty.
   */
  function ForwardCheck<V(==)>(net: Network<V>, vars: Vars<V>, past: map<V, int>, x: V, todo: seq<V>,
                               revisions: nat, prunes: seq<Prune<V>>): (o: Outcome<V>)
    requires x in vars && Within(vars, todo)
    ensures o.vars.Keys == vars.Keys
    decreases |todo|
  {
    if todo == [] then Outcome(true, vars, revisions, prunes)
    else
      var f := todo[0];
      if !net.linked(f, x) then
        ForwardCheck(net, vars, past, x, todo[1..], revisions, prunes)
      else
        var o := Step(net, vars, past, Arc(f, x), revisions, prunes);
        if !o.consistent then o
        else ForwardCheck(net, o.vars, past, x, todo[1..], o.revisions, o.prunes)
  }

  /**
   * Forward checking only narrows the domains it visits, can be undone through its records, and
   * a wipeout is what stops it early.
   */
  lemma {:induction false} ForwardCheckContained<V>(net: Network<V>, vars: Vars<V>, past: map<V, int>, x: V,
                                                    todo: seq<V>, revisions: nat, prunes: seq<Prune<V>>)
    requires x in vars && Within(vars, todo) && Recorded(vars, prunes)
    ensures Contained(vars, ForwardCheck(net, vars, past, x, todo, revisions, prunes), todo, revisions, prunes)
    decreases |todo|
  {
    var o := ForwardCheck(net, vars, past, x, todo, revisions, prunes);
    if todo != [] {
      var f := todo[0];
      var rest := todo[1..];
      assert forall k | k in rest :: k in todo;
      if !net.linked(f, x) {
        ForwardCheckContained(net, vars, past, x, todo[1..], revisions, prunes);
        ContainedTrans(vars, Outcome(true, vars, revisions, prunes), o, todo, [], rest, revisions, prunes);
      } else {
        var mid := Step(net, vars, past, Arc(f, x), revisions, prunes);
        StepContained(net, vars, past, Arc(f, x), revisions, prunes);
        if mid.consistent {
          ForwardCheckContained(net, mid.vars, past, x, todo[1..], mid.revisions, mid.prunes);
          ContainedTrans(vars, mid, o, todo, [f], rest, revisions, prunes);
        }
      }
    }
  }

  /** A forward-checking pass that completes counts exactly one revision per constrained variable. */
  lemma {:induction false} ForwardCheckCounts<V>(net: Network<V>, vars: Vars<V>, past: map<V, int>, x: V,
                                                 todo: seq<V>, revisions: nat, prunes: seq<Prune<V>>)
    requires x in vars && Within(vars, todo)
    ensures var o := ForwardCheck(net, vars, past, x, todo, revisions, prunes);
      o.consistent ==> o.revisions == revisions + |LinkedTo(net, todo, x)|
    decreases |todo|
  {
    if todo != [] {
      var f := todo[0];
      if !net.linked(f, x) {
        ForwardCheckCounts(net, vars, past, x, todo[1..], revisions, prunes);
      } else {
        var mid := Step(net, vars, past, Arc(f, x), revisions, prunes);
        if mid.consistent {
          ForwardCheckCounts(net, mid.vars, past, x, todo[1..], mid.revisions, mid.prunes);
        }
      }
    }
  }

  /** Forward checking leaves the variables it does not visit untouched. */
  lemma {:induction false} ForwardCheckUntouched<V>(net: Network<V>, vars: Vars<V>, past: map<V, int>, x: V,
                                                    todo: seq<V>, revisions: nat, prunes: seq<Prune<V>>, k: V)
    requires x in vars && Within(vars, todo) && k in vars && k !in todo
    ensures ForwardCheck(net, vars, past, x, todo, revisions, prunes).vars[k] == vars[k]
    decreases |todo|
  {
    if todo != [] {
      var f := todo[0];
      if !net.linked(f, x) {
        ForwardCheckUntouched(net, vars, past, x, todo[1..], revisions, prunes, k);
      } else {
        var mid := Step(net, vars, past, Arc(f, x), revisions, prunes);
        if mid.consistent {
          ForwardCheckUntouched(net, mid.vars, past, x, todo[1..], mid.revisions, mid.prunes, k);
        }
      }
    }
  }

  /** The domain a completed pass leaves to f: its values the constraints with x support. */
  ghost predicate NarrowedBy<V>(net: Network<V>, vars: Vars<V>, past: map<V, int>, x: V, f: V, d: set<int>)
    requires f in vars && x in vars
  {
    forall v :: v in d <==> v in vars[f].domain && (net.linked(f, x) ==> InAll(v, Support(net, vars, past, Arc(f, x))))
  }

  /**
   * A forward-checking pass that completes leaves every constrained variable with exactly the
   * values the constraints with x support, and every other one as it was, provided x is not
   * itself revised on the way.
   */
  lemma {:induction false} ForwardCheckNarrowsToSupport<V>(net: Network<V>, vars: Vars<V>, past: map<V, int>, x: V,
                                                           todo: seq<V>, revisions: nat, prunes: seq<Prune<V>>)
    requires x in vars && Within(vars, todo)
    requires x !in todo || !net.linked(x, x)
    ensures var o := ForwardCheck(net, vars, past, x, todo, revisions, prunes);
      o.consistent ==> forall f | f in todo :: NarrowedBy(net, vars, past, x, f, o.vars[f].domain)
    decreases |todo|
  {
    var o := ForwardCheck(net, vars, past, x, todo, revisions, prunes);
    if todo != [] && o.consistent {
      var f := todo[0];
      if !net.linked(f, x) {
        ForwardCheckNarrowsToSupport(net, vars, past, x, todo[1..], revisions, prunes);
        if f !in todo[1..] {
          ForwardCheckUntouched(net, vars, past, x, todo[1..], revisions, prunes, f);
        }
      } else {
        var mid := Step(net, vars, past, Arc(f, x), revisions, prunes);
        ReviseKeepsSupported(net, vars, past, Arc(f, x));
        ForwardCheckNarrowsToSupport(net, mid.vars, past, x, todo[1..], mid.revisions, mid.prunes);
        forall g | g in todo
          ensures NarrowedBy(net, vars, past, x, g, o.vars[g].domain)
        {
          assert Support(net, mid.vars, past, Arc(g, x)) == Support(net, vars, past, Arc(g, x));
          if g !in todo[1..] {
            ForwardCheckUntouched(net, mid.vars, past, x, todo[1..], mid.revisions, mid.prunes, g);
          } else if g == f {
            ReviseKeepsSupported(net, mid.vars, past, Arc(f, x));
            assert NarrowedBy(net, mid.vars, past, x, g, o.vars[g].domain);
          } else {
            assert NarrowedBy(net, mid.vars, past, x, g, o.vars[g].domain);
          }
        }
      }
    }
  }

  /**
   * Queues Arc(h, dep) for every h of `todo`, in order, that shares a constraint with dep and is
   * not `skip`; an arc already queued is not queued again (the queue is a LinkedHashSet).
   */
  function Enqueue<V(==)>(net: Network<V>, queue: seq<Arc<V>>, dep: V, skip: Option<V>, todo: seq<V>): (q: seq<Arc<V>>)
    ensures NoDup(queue) ==> NoDup(q)
    ensures |queue| <= |q| && q[..|queue|] == queue
    ensures forall a | a in q ::
      a in queue || (a.supporter == dep && a.dependent in todo && skip != Some(a.dependent) && net.linked(a.dependent, dep))
    ensures forall h | h in todo && skip != Some(h) && net.linked(h, dep) :: Arc(h, dep) in q
    decreases |todo|
  {
    if todo == [] then queue
    else
      var h := todo[0];
      var queue' := if skip != Some(h) && net.linked(h, dep) then Insert(queue, Arc(h, dep)) else queue;
      Enqueue(net, queue', dep, skip, todo[1..])
  }

  /** Every queued arc points from a variable of `order` to an existing variable. */
  ghost predicate ArcsWithin<V>(vars: Vars<V>, order: seq<V>, queue: seq<Arc<V>>) {
    forall a | a in queue :: a.dependent in order && a.supporter in vars
  }

  /**
   * The queue after its first arc was revised: the rest of it, and, when the revision removed
   * something, the arcs (h, dependent) for every h of `order` other than the supporter that
   * shares a constraint with the dependent.
   */
  function Requeue<V(==)>(net: Network<V>, vars: Vars<V>, past: map<V, int>, order: seq<V>, queue: seq<Arc<V>>): seq<Arc<V>>
    requires queue != [] && queue[0].dependent in vars && queue[0].supporter in vars
  {
    var a := queue[0];
    if Revise(net, vars, past, a).1.IsEmpty() then queue[1..]
    else Enqueue(net, queue[1..], a.dependent, Some(a.supporter), order)
  }

  /**
   * Each revision of the loop either empties nothing and shortens the queue, or strictly lowers
   * the total domain size: the loop terminates.
   */
  lemma RequeueProgress<V>(net: Network<V>, vars: Vars<V>, past: map<V, int>, order: seq<V>,
                           queue: seq<Arc<V>>, revisions: nat, prunes: seq<Prune<V>>)
    requires Covers(net, vars) && Within(vars, order) && ArcsWithin(vars, order, queue) && queue != []
    ensures var mid := Step(net, vars, past, queue[0], revisions, prunes);
      var queue' := Requeue(net, vars, past, order, queue);
      && Covers(net, mid.vars) && ArcsWithin(mid.vars, order, queue')
      && Shrunk(vars, mid.vars)
      && (TotalSize(mid.vars, net.ids) < TotalSize(vars, net.ids) ||
          (TotalSize(mid.vars, net.ids) == TotalSize(vars, net.ids) && |queue'| < |queue|))
      && (forall b | b in queue[1..] :: b in queue')
  {
    var a := queue[0];
    var r := Revise(net, vars, past, a);
    if r.1.IsEmpty() {
      assert r.0[a.dependent] == vars[a.dependent];
      MapsEqual(r.0, vars);
    } else {
      assert r.0[a.dependent].domain < vars[a.dependent].domain;
      TotalSizeShrinks(vars, r.0, net.ids);
    }
  }

  /**
   * The arc-consistency loop (MaintainingArcConsistency.revise): revises the first queued arc,
   * stops at a wipeout, and otherwise carries on with the requeued arcs.
   */
  function ArcConsistency<V(==)>(net: Network<V>, vars: Vars<V>, past: map<V, int>, order: seq<V>,
                                 queue: seq<Arc<V>>, revisions: nat, prunes: seq<Prune<V>>): (o: Outcome<V>)
    requires Covers(net, vars) && Within(vars, order) && ArcsWithin(vars, order, queue)
    ensures o.vars.Keys == vars.Keys
    decreases TotalSize(vars, net.ids), |queue|
  {
    if queue == [] then Outcome(true, vars, revisions, prunes)
    else
      var mid := Step(net, vars, past, queue[0], revisions, prunes);
      if !mid.consistent then mid
      else
        RequeueProgress(net, vars, past, order, queue, revisions, prunes);
        ArcConsistency(net, mid.vars, past, order, Requeue(net, vars, past, order, queue), mid.revisions, mid.prunes)
  }

  /** The arc-consistency loop only narrows domains of `order` and can be undone through its records. */
  lemma {:induction false} ArcConsistencyContained<V>(net: Network<V>, vars: Vars<V>, past: map<V, int>, order: seq<V>,
                                                      queue: seq<Arc<V>>, revisions: nat, prunes: seq<Prune<V>>)
    requires Covers(net, vars) && Within(vars, order) && ArcsWithin(vars, order, queue) && Recorded(vars, prunes)
    ensures Contained(vars, ArcConsistency(net, vars, past, order, queue, revisions, prunes), order, revisions, prunes)
    decreases TotalSize(vars, net.ids), |queue|
  {
    var o := ArcConsistency(net, vars, past, order, queue, revisions, prunes);
    if queue != [] {
      var a := queue[0];
      var mid := Step(net, vars, past, a, revisions, prunes);
      StepContained(net, vars, past, a, revisions, prunes);
      if !mid.consistent {
        ContainedTrans(vars, Outcome(true, vars, revisions, prunes), o, order, [], [a.dependent], revisions, prunes);
      } else {
        RequeueProgress(net, vars, past, order, queue, revisions, prunes);
        var queue' := Requeue(net, vars, past, order, queue);
        ArcConsistencyContained(net, mid.vars, past, order, queue', mid.revisions, mid.prunes);
        ContainedTrans(vars, mid, o, order, [a.dependent], order, revisions, prunes);
      }
    }
  }

  /**
   * When the loop ends without a wipeout, every arc that was queued with a supporter outside
   * `order` has its dependent narrowed to values that supporter supports.
   */
  lemma {:induction false} ArcConsistencySupported<V>(net: Network<V>, vars: Vars<V>, past: map<V, int>, order: seq<V>,
                                                      queue: seq<Arc<V>>, revisions: nat, prunes: seq<Prune<V>>)
    requires Covers(net, vars) && Within(vars, order) && ArcsWithin(vars, order, queue) && Recorded(vars, prunes)
    ensures var o := ArcConsistency(net, vars, past, order, queue, revisions, prunes);
      o.consistent ==> forall a, v | a in queue && a.supporter !in order && v in o.vars[a.dependent].domain ::
        InAll(v, Support(net, vars, past, a))
    decreases TotalSize(vars, net.ids), |queue|
  {
    var o := ArcConsistency(net, vars, past, order, queue, revisions, prunes);
    if queue != [] && o.consistent {
      var a := queue[0];
      var mid := Step(net, vars, past, a, revisions, prunes);
      ReviseKeepsSupported(net, vars, past, a);
      RequeueProgress(net, vars, past, order, queue, revisions, prunes);
      var queue' := Requeue(net, vars, past, order, queue);
      ArcConsistencySupported(net, mid.vars, past, order, queue', mid.revisions, mid.prunes);
      ArcConsistencyShrinks(net, mid.vars, past, order, queue', mid.revisions, mid.prunes);
      forall b, v | b in queue && b.supporter !in order && v in o.vars[b.dependent].domain
        ensures InAll(v, Support(net, vars, past, b))
      {
        assert Support(net, mid.vars, past, b) == Support(net, vars, past, b);
        if b != a {
          assert b in queue';
        }
      }
    }
  }

  /** The loop's domains only lose values. */
  lemma {:induction false} ArcConsistencyShrinks<V>(net: Network<V>, vars: Vars<V>, past: map<V, int>, order: seq<V>,
                                                    queue: seq<Arc<V>>, revisions: nat, prunes: seq<Prune<V>>)
    requires Covers(net, vars) && Within(vars, order) && ArcsWithin(vars, order, queue)
    ensures Shrunk(vars, ArcConsistency(net, vars, past, order, queue, revisions, prunes).vars)
    decreases TotalSize(vars, net.ids), |queue|
  {
    if queue != [] {
      var mid := Step(net, vars, past, queue[0], revisions, prunes);
      RequeueProgress(net, vars, past, order, queue, revisions, prunes);
      if mid.consistent {
        ArcConsistencyShrinks(net, mid.vars, past, order, Requeue(net, vars, past, order, queue), mid.revisions, mid.prunes);
      }
    }
  }

  /** Arc consistency after x changed: the loop started from the arcs (f, x) of every f of `order` linked to x. */
  function MaintainArcConsistency<V(==)>(net: Network<V>, vars: Vars<V>, past: map<V, int>, x: V, order: seq<V>,
                                         revisions: nat, prunes: seq<Prune<V>>): Outcome<V>
    requires Covers(net, vars) && x in vars && Within(vars, order)
  {
    ArcConsistency(net, vars, past, order, Enqueue(net, [], x, None, order), revisions, prunes)
  }

  /** The revise call of the scheme a solver was built with. */
  function Propagate<V(==)>(scheme: Scheme, net: Network<V>, vars: Vars<V>, past: map<V, int>, x: V, order: seq<V>,
                            revisions: nat, prunes: seq<Prune<V>>): (o: Outcome<V>)
    requires Covers(net, vars) && x in vars && Within(vars, order)
    ensures o.vars.Keys == vars.Keys
  {
    match scheme
    case ForwardChecking => ForwardCheck(net, vars, past, x, order, revisions, prunes)
    case MaintainingArcConsistency => MaintainArcConsistency(net, vars, past, x, order, revisions, prunes)
  }

  /** Either scheme only narrows domains of `order`, and its records undo it. */
  lemma PropagateContained<V>(scheme: Scheme, net: Network<V>, vars: Vars<V>, past: map<V, int>, x: V, order: seq<V>,
                              revisions: nat, prunes: seq<Prune<V>>)
    requires Covers(net, vars) && x in vars && Within(vars, order) && Recorded(vars, prunes)
    ensures Contained(vars, Propagate(scheme, net, vars, past, x, order, revisions, prunes), order, revisions, prunes)
  {
    match scheme
    case ForwardChecking =>
      ForwardCheckContained(net, vars, past, x, order, revisions, prunes);
    case MaintainingArcConsistency =>
      ArcConsistencyContained(net, vars, past, order, Enqueue(net, [], x, None, order), revisions, prunes);
  }

  /**
   * After an assignment to x (x no longer in `order`), either scheme that finds no wipeout leaves
   * every variable linked to x with only values that x's constraints support.
   */
  lemma PropagateSupported<V>(scheme: Scheme, net: Network<V>, vars: Vars<V>, past: map<V, int>, x: V, order: seq<V>,
                              revisions: nat, prunes: seq<Prune<V>>)
    requires Covers(net, vars) && x in vars && Within(vars, order) && Recorded(vars, prunes) && x !in order
    ensures var o := Propagate(scheme, net, vars, past, x, order, revisions, prunes);
      o.consistent ==> forall f, v | f in order && net.linked(f, x) && v in o.vars[f].domain ::
        InAll(v, Support(net, vars, past, Arc(f, x)))
  {
    var o := Propagate(scheme, net, vars, past, x, order, revisions, prunes);
    match scheme
    case ForwardChecking =>
      ForwardCheckNarrowsToSupport(net, vars, past, x, order, revisions, prunes);
      forall f, v | f in order && net.linked(f, x) && v in o.vars[f].domain && o.consistent
        ensures InAll(v, Support(net, vars, past, Arc(f, x)))
      {
        assert NarrowedBy(net, vars, past, x, f, o.vars[f].domain);
      }
    case MaintainingArcConsistency =>
      var queue := Enqueue(net, [], x, None, order);
      ArcConsistencySupported(net, vars, past, order, queue, revisions, prunes);
      forall f, v | f in order && net.linked(f, x) && v in o.vars[f].domain && o.consistent
        ensures InAll(v, Support(net, vars, past, Arc(f, x)))
      {
        assert Arc(f, x) in queue;
      }
  }

  /** s gives every variable a value of its current domain, and nothing else. */
  ghost predicate Complete<V>(vars: Vars<V>, s: map<V, int>) {
    s.Keys == vars.Keys && forall k | k in vars :: s[k] in CurrentDomain(vars[k])
  }

  /** s extends the past: it gives every assigned variable its assigned value. */
  ghost predicate Agrees<V>(past: map<V, int>, s: map<V, int>) {
    forall k | k in past :: k in s && s[k] == past[k]
  }

  /**
   * Every constraint supports s: on each linked arc, the dependent's value in s is supported by
   * any supporter domain that holds the supporter's value in s, under any past s extends.
   */
  ghost predicate Upholds<V(!new)>(net: Network<V>, s: map<V, int>) {
    forall a: Arc<V>, d: set<int>, past: map<V, int>
      | a.dependent in s && a.supporter in s && net.linked(a.dependent, a.supporter) && s[a.supporter] in d
        && Agrees(past, s) ::
      InAll(s[a.dependent], net.supports(a, d, past))
  }

  /** The listed variables have no value: propagation revises only unassigned variables. */
  ghost predicate Unassigned<V>(vars: Vars<V>, order: seq<V>) {
    forall k | k in order :: k in vars && vars[k].value.None?
  }

  /** Revising a linked arc never removes a value of an assignment every constraint supports. */
  lemma StepKeeps<V(!new)>(net: Network<V>, vars: Vars<V>, past: map<V, int>, a: Arc<V>,
                           revisions: nat, prunes: seq<Prune<V>>, s: map<V, int>)
    requires a.dependent in vars && a.supporter in vars && vars[a.dependent].value.None?
    requires net.linked(a.dependent, a.supporter)
    ensures Complete(vars, s) && Upholds(net, s) && Agrees(past, s) ==>
      var o := Step(net, vars, past, a, revisions, prunes);
      o.consistent && Complete(o.vars, s)
  {
    ReviseKeepsSupported(net, vars, past, a);
  }

  /** Forward checking keeps every supported assignment and so finds no wipeout while one exists. */
  lemma {:induction false} ForwardCheckKeeps<V(!new)>(net: Network<V>, vars: Vars<V>, past: map<V, int>, x: V,
                                                         todo: seq<V>, revisions: nat, prunes: seq<Prune<V>>,
                                                         s: map<V, int>)
    requires x in vars && Within(vars, todo) && Unassigned(vars, todo)
    ensures Complete(vars, s) && Upholds(net, s) && Agrees(past, s) ==>
      var o := ForwardCheck(net, vars, past, x, todo, revisions, prunes);
      o.consistent && Complete(o.vars, s)
    decreases |todo|
  {
    if todo != [] && Complete(vars, s) && Upholds(net, s) && Agrees(past, s) {
      var f := todo[0];
      if !net.linked(f, x) {
        ForwardCheckKeeps(net, vars, past, x, todo[1..], revisions, prunes, s);
      } else {
        StepKeeps(net, vars, past, Arc(f, x), revisions, prunes, s);
        var o := Step(net, vars, past, Arc(f, x), revisions, prunes);
        assert Unassigned(o.vars, todo[1..]);
        ForwardCheckKeeps(net, o.vars, past, x, todo[1..], o.revisions, o.prunes, s);
      }
    }
  }

  /** The arc-consistency loop keeps every supported assignment and finds no wipeout while one exists. */
  lemma {:induction false} ArcConsistencyKeeps<V(!new)>(net: Network<V>, vars: Vars<V>, past: map<V, int>,
                                                           order: seq<V>, queue: seq<Arc<V>>, revisions: nat,
                                                           prunes: seq<Prune<V>>, s: map<V, int>)
    requires Covers(net, vars) && Within(vars, order) && ArcsWithin(vars, order, queue) && Unassigned(vars, order)
    requires forall a | a in queue :: net.linked(a.dependent, a.supporter)
    ensures Complete(vars, s) && Upholds(net, s) && Agrees(past, s) ==>
      var o := ArcConsistency(net, vars, past, order, queue, revisions, prunes);
      o.consistent && Complete(o.vars, s)
    decreases TotalSize(vars, net.ids), |queue|
  {
    if queue != [] && Complete(vars, s) && Upholds(net, s) && Agrees(past, s) {
      var a := queue[0];
      StepKeeps(net, vars, past, a, revisions, prunes, s);
      var mid := Step(net, vars, past, a, revisions, prunes);
      RequeueProgress(net, vars, past, order, queue, revisions, prunes);
      var queue' := Requeue(net, vars, past, order, queue);
      assert forall b | b in queue' :: net.linked(b.dependent, b.supporter);
      assert Unassigned(mid.vars, order);
      ArcConsistencyKeeps(net, mid.vars, past, order, queue', mid.revisions, mid.prunes, s);
    }
  }

  /** Either scheme keeps every assignment all constraints support, and then reports no wipeout. */
  lemma PropagateKeeps<V(!new)>(scheme: Scheme, net: Network<V>, vars: Vars<V>, past: map<V, int>, x: V,
                                   order: seq<V>, revisions: nat, prunes: seq<Prune<V>>, s: map<V, int>)
    requires Covers(net, vars) && x in vars && Within(vars, order) && Unassigned(vars, order)
    ensures Complete(vars, s) && Upholds(net, s) && Agrees(past, s) ==>
      var o := Propagate(scheme, net, vars, past, x, order, revisions, prunes);
      o.consistent && Complete(o.vars, s)
  {
    match scheme
    case ForwardChecking =>
      ForwardCheckKeeps(net, vars, past, x, order, revisions, prunes, s);
    case MaintainingArcConsistency =>
      ArcConsistencyKeeps(net, vars, past, order, Enqueue(net, [], x, None, order), revisions, prunes, s);
  }
}
