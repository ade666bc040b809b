/** The search performed by the nested `dpll` of `solveSAT`, as functions of
    the formula, the variable order, the frame's incoming assignment and the
    depth: one frame propagates unit clauses to a fixpoint, stops on a
    conflict, succeeds when every clause is satisfied, and otherwise branches
    on the first unassigned variable, `true` first. Each result carries the
    trace events the frame and its descendants append. */
module DpllSpec {
  import opened FirstSeen
  import opened Cnf

  datatype Option<T> = None | Some(value: T)

  datatype BranchKind = Try | Backtrack

  /** One entry of the solver trace. */
  datatype Event =
    | UnitPropagation(variable: Var, value: bool, depth: nat)
    | Conflict(depth: nat)
    | AllClausesSatisfied(depth: nat)
    | Branch(variable: Var, value: bool, kind: BranchKind, depth: nat)

  /** What one pass of the `for (const clause of clauses)` loop leaves behind:
      the assignment, the events it pushed, whether it hit a conflict (and so
      returned from the frame), and the `changed` flag. */
  datatype Scan = Scan(a: Assignment, events: seq<Event>, conflict: bool, changed: bool)

  /** The rest of a pass, from clause `i` on, with assignment `a` and flag `changed`. */
  function ScanFrom(f: Formula, a: Assignment, i: nat, depth: nat, changed: bool): (r: Scan)
    requires i <= |f|
    decreases |f| - i
  {
    if i == |f| then Scan(a, [], false, changed)
    else
      var v := VisitClause(a, f[i], depth, changed);
      if v.conflict then v
      else ScanBehind(v.events, ScanFrom(f, v.a, i + 1, depth, v.changed))
  }

  /** A pass only adds bindings, only for variables of the formula, and sets
      `changed` exactly when it added one. */
  lemma {:induction false} ScanGrows(f: Formula, a: Assignment, i: nat, depth: nat, changed: bool)
    requires i <= |f|
    ensures var r := ScanFrom(f, a, i, depth, changed);
      && Extends(r.a, a)
      && (forall v :: v in r.a && v !in a ==> v in VarsOf(f))
      && (r.changed <==> changed || r.a.Keys != a.Keys)
    decreases |f| - i
  {
    if i < |f| {
      var c := f[i];
      if ClauseSatisfied(a, c) {
        ScanGrows(f, a, i + 1, depth, changed);
      } else {
        var u := Unassigned(a, c);
        if |u| == 1 {
          var l := u[0];
          assert l.variable in VarsOf(f) by {
            var j :| 0 <= j < |c| && c[j] == l;
            assert f[i][j].variable == l.variable;
          }
          ScanGrows(f, a[l.variable := !l.negated], i + 1, depth, true);
        } else if |u| > 1 {
          ScanGrows(f, a, i + 1, depth, changed);
        }
      }
    }
  }

  /** Binding a variable the assignment lacks takes it out of the unassigned part. */
  lemma GrowthDecreases(vars: set<Var>, a: Assignment, b: Assignment)
    requires a.Keys <= b.Keys && a.Keys != b.Keys
    requires b.Keys - a.Keys <= vars
    ensures |vars - b.Keys| < |vars - a.Keys|
  {
    assert b.Keys - a.Keys != {};
    var v :| v in b.Keys - a.Keys;
    assert vars - b.Keys <= (vars - a.Keys) - {v};
    SubsetCardinality(vars - b.Keys, (vars - a.Keys) - {v});
  }

  lemma SubsetCardinality<T>(s: set<T>, t: set<T>)
    requires s <= t
    ensures |s| <= |t|
  {
    if s != {} {
      var x :| x in s;
      SubsetCardinality(s - {x}, t - {x});
    }
  }

  /** The outcome of the `while (changed)` loop. */
  datatype Propagation = Propagation(a: Assignment, events: seq<Event>, conflict: bool)

  /** `s` with the events `e` pushed before its own. */
  function ScanBehind(e: seq<Event>, s: Scan): Scan
  {
    Scan(s.a, e + s.events, s.conflict, s.changed)
  }

  /** `p` with the events `e` pushed before its own. */
  function Behind(e: seq<Event>, p: Propagation): Propagation
  {
    Propagation(p.a, e + p.events, p.conflict)
  }

  /** Unit propagation to a fixpoint: passes repeat while the last one bound something. */
  function Propagate(f: Formula, a: Assignment, depth: nat): (r: Propagation)
    decreases |VarsOf(f) - a.Keys|
  {
    var p := ScanFrom(f, a, 0, depth, false);
    if p.conflict then Propagation(p.a, p.events, true)
    else if p.changed then
      ScanGrows(f, a, 0, depth, false);
      GrowthDecreases(VarsOf(f), a, p.a);
      var r := Propagate(f, p.a, depth);
      Propagation(r.a, p.events + r.events, r.conflict)
    else Propagation(p.a, p.events, false)
  }

  /** Propagation only adds bindings, and only for variables of the formula:
      it never overwrites a binding. */
  lemma {:induction false} PropagateGrows(f: Formula, a: Assignment, depth: nat)
    ensures var r := Propagate(f, a, depth);
      Extends(r.a, a) && forall v :: v in r.a && v !in a ==> v in VarsOf(f)
    decreases |VarsOf(f) - a.Keys|
  {
    var p := ScanFrom(f, a, 0, depth, false);
    ScanGrows(f, a, 0, depth, false);
    if !p.conflict && p.changed {
      GrowthDecreases(VarsOf(f), a, p.a);
      PropagateGrows(f, p.a, depth);
    }
  }

  /** What visiting one clause does: nothing when it is satisfied or has
      several unassigned literals, a conflict when it has none, and when it has
      exactly one, binds that literal true and sets `changed`. */
  function VisitClause(a: Assignment, c: Clause, depth: nat, changed: bool): (r: Scan)
    ensures r.conflict <==> !ClauseSatisfied(a, c) && Unassigned(a, c) == []
    ensures !r.conflict ==> ClauseSatisfied(r.a, c) || |Unassigned(r.a, c)| > 1
  {
    if ClauseSatisfied(a, c) then Scan(a, [], false, changed)
    else
      var u := Unassigned(a, c);
      if |u| == 0 then Scan(a, [Conflict(depth)], true, changed)
      else if |u| == 1 then
        var l := u[0];
        assert LitTrue(a[l.variable := !l.negated], l);
        Scan(a[l.variable := !l.negated], [UnitPropagation(l.variable, !l.negated, depth)], false, true)
      else Scan(a, [], false, changed)
  }

  /** One pass of the `while (changed)` loop, case by case. */
  lemma PropagateStep(f: Formula, a: Assignment, depth: nat)
    ensures var s := ScanFrom(f, a, 0, depth, false);
      var r := Propagate(f, a, depth);
      && (s.conflict ==> r == Propagation(s.a, s.events, true))
      && (!s.conflict && s.changed ==> r == Behind(s.events, Propagate(f, s.a, depth)))
      && (!s.conflict && !s.changed ==> r == Propagation(s.a, s.events, false))
  {
  }

  lemma ScanBehindTwice(e1: seq<Event>, e2: seq<Event>, s: Scan)
    ensures ScanBehind(e1, ScanBehind(e2, s)) == ScanBehind(e1 + e2, s)
  {
    assert e1 + (e2 + s.events) == (e1 + e2) + s.events;
  }

  /** A pass that sets `changed` leaves fewer formula variables unassigned;
      one that does not leaves the bound variables as they were. */
  lemma PassShrinks(f: Formula, a: Assignment, depth: nat)
    ensures var s := ScanFrom(f, a, 0, depth, false);
      && (s.changed ==> |VarsOf(f) - s.a.Keys| < |VarsOf(f) - a.Keys|)
      && (!s.changed ==> s.a.Keys == a.Keys)
  {
    var s := ScanFrom(f, a, 0, depth, false);
    ScanGrows(f, a, 0, depth, false);
    if s.changed {
      GrowthDecreases(VarsOf(f), a, s.a);
    }
  }

  /** One pass of the propagation loop begun from `start` after the events
      `done`: it ends propagation with a conflict, goes round again, or has
      reached the fixpoint. */
  lemma PassAdvance(f: Formula, a0: Assignment, start: Assignment, depth: nat, done: seq<Event>)
    requires Propagate(f, a0, depth) == Behind(done, Propagate(f, start, depth))
    ensures var s := ScanFrom(f, start, 0, depth, false);
      && (s.conflict ==> Propagate(f, a0, depth) == Propagation(s.a, done + s.events, true))
      && (!s.conflict && s.changed ==> Propagate(f, a0, depth) == Behind(done + s.events, Propagate(f, s.a, depth)))
      && (!s.conflict && !s.changed ==> Propagate(f, a0, depth) == Propagation(s.a, done + s.events, false))
  {
    var s := ScanFrom(f, start, 0, depth, false);
    PropagateStep(f, start, depth);
    if !s.conflict && s.changed {
      var r := Propagate(f, s.a, depth);
      assert done + (s.events + r.events) == (done + s.events) + r.events;
    }
  }

  /** `Array.from(variables).find(v => assignment[v] === undefined)`. */
  function FirstUnassigned(order: seq<Var>, a: Assignment): (r: Option<Var>)
    ensures r.None? <==> forall v :: v in order ==> v in a
    ensures r.Some? ==> r.value in order && r.value !in a
    ensures r.Some? ==> forall j :: 0 <= j < IndexOf(order, r.value) ==> order[j] in a
  {
    if order == [] then None
    else if order[0] !in a then Some(order[0])
    else
      var r := FirstUnassigned(order[1..], a);
      assert forall v :: v in order ==> v == order[0] || v in order[1..];
      r
  }

  /** What a `dpll` frame returns and leaves behind: its boolean result, its own
      assignment object after propagation (at the top level, the object the
      caller prints), the assignment of the frame that found every clause
      satisfied (when `sat`), and the events it and its descendants pushed. */
  datatype Outcome = Outcome(sat: bool, frame: Assignment, model: Assignment, events: seq<Event>)

  /** What the branching tail of a frame yields: the result, the satisfying
      assignment found below (when `sat`), and the events pushed from the first
      `Branch` event on. */
  datatype Search = Search(sat: bool, model: Assignment, events: seq<Event>)

  /** One call `dpll(clauses, assignment, depth)`, with the corrected test for
      "no unassigned variable" (see `PickBranchAsWritten`). */
  function Dpll(f: Formula, order: seq<Var>, a: Assignment, depth: nat): (r: Outcome)
    requires OrderCovers(f, order)
    decreases |VarsOf(f) - a.Keys|, 1
  {
    var p := Propagate(f, a, depth);
    if p.conflict then Outcome(false, p.a, p.a, p.events)
    else if AllSatisfied(p.a, f) then Outcome(true, p.a, p.a, p.events + [AllClausesSatisfied(depth)])
    else match FirstUnassigned(order, p.a)
      case None => Outcome(false, p.a, p.a, p.events)
      case Some(v) =>
        PropagateGrows(f, a, depth);
        SubsetCardinality(VarsOf(f) - p.a.Keys, VarsOf(f) - a.Keys);
        var s := BranchOn(f, order, p.a, v, depth);
        Outcome(s.sat, p.a, s.model, p.events + s.events)
  }

  /** Branching on `v`: try `true` on a copy of the assignment, and on failure
      announce the backtrack and try `false`. */
  function BranchOn(f: Formula, order: seq<Var>, p: Assignment, v: Var, depth: nat): (r: Search)
    requires OrderCovers(f, order) && v in VarsOf(f) && v !in p
    decreases |VarsOf(f) - p.Keys|, 0
  {
    GrowthDecreases(VarsOf(f), p, p[v := true]);
    GrowthDecreases(VarsOf(f), p, p[v := false]);
    var tryTrue := Dpll(f, order, p[v := true], depth + 1);
    var tried := [Branch(v, true, Try, depth)] + tryTrue.events;
    if tryTrue.sat then Search(true, tryTrue.model, tried)
    else
      var tryFalse := Dpll(f, order, p[v := false], depth + 1);
      Search(tryFalse.sat, tryFalse.model, tried + [Branch(v, false, Backtrack, depth)] + tryFalse.events)
  }

  /** One frame, case by case. */
  lemma DpllStep(f: Formula, order: seq<Var>, a: Assignment, depth: nat)
    requires OrderCovers(f, order)
    ensures var p := Propagate(f, a, depth);
      var r := Dpll(f, order, a, depth);
      && (p.conflict ==> r == Outcome(false, p.a, p.a, p.events))
      && (!p.conflict && AllSatisfied(p.a, f) ==>
            r == Outcome(true, p.a, p.a, p.events + [AllClausesSatisfied(depth)]))
      && (!p.conflict && !AllSatisfied(p.a, f) && FirstUnassigned(order, p.a).None? ==>
            r == Outcome(false, p.a, p.a, p.events))
      && (!p.conflict && !AllSatisfied(p.a, f) && FirstUnassigned(order, p.a).Some? ==>
            var s := BranchOn(f, order, p.a, FirstUnassigned(order, p.a).value, depth);
            r == Outcome(s.sat, p.a, s.model, p.events + s.events))
  {
  }
}
