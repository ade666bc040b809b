/** `solveSAT` as the page runs it: the clause texts are parsed, the variable
    order is collected into an insertion-ordered set, and the nested `dpll`
    works on a mutable assignment object, pushing onto one shared trace. Each
    method is proved to do what the functions of `DpllSpec` describe. */
module DpllSolver {
  import opened FirstSeen
  import opened Cnf
  import opened ClauseParser
  import opened DpllSpec
  import opened DpllCorrectness

  /** The `trace` array shared by every frame of one solve. */
  class Trace {
    var events: seq<Event>

    constructor()
      ensures events == []
    {
      events := [];
    }

    /** `trace.push(...)` */
    method Push(e: Event)
      modifies this
      ensures events == old(events) + [e]
    {
      events := events + [e];
    }
  }

  /** A frame's `assignment` object: unassigned variables are absent keys. */
  class Bindings {
    var values: Assignment

    /** `{}` at the top level, `{ ...assignment, [v]: b }` for a branch. */
    constructor(init: Assignment)
      ensures values == init
    {
      values := init;
    }

    /** `assignment[v] = b` */
    method Bind(v: Var, b: bool)
      modifies this
      ensures values == old(values)[v := b]
    {
      values := values[v := b];
    }
  }

  /** `variables.add(lit.variable)` for every literal, clause by clause. */
  method CollectVariables(f: Formula) returns (order: seq<Var>)
    ensures order == VarOrder(f)
  {
    order := [];
    for i := 0 to |f|
      invariant order == Distinct(Occurrences(f[..i]))
    {
      var clause := f[i];
      assert Occurrences(f[..i]) + ClauseVars(clause[..0]) == Occurrences(f[..i]);
      for j := 0 to |clause|
        invariant order == Distinct(Occurrences(f[..i]) + ClauseVars(clause[..j]))
      {
        var v := clause[j].variable;
        AddVariable(Occurrences(f[..i]), clause, j);
        if v !in order {
          order := order + [v];
        }
      }
      OccurrencesStep(f, i);
    }
    assert f[..|f|] == f;
  }

  lemma AddVariable(seen: seq<Var>, c: Clause, j: nat)
    requires j < |c|
    ensures Distinct(seen + ClauseVars(c[..j + 1]))
         == var d := Distinct(seen + ClauseVars(c[..j]));
            if c[j].variable in d then d else d + [c[j].variable]
  {
    DistinctSnoc(seen + ClauseVars(c[..j]), c[j].variable);
    assert seen + ClauseVars(c[..j + 1]) == seen + ClauseVars(c[..j]) + [c[j].variable];
  }

  lemma OccurrencesStep(f: Formula, i: nat)
    requires i < |f|
    ensures Occurrences(f[..i + 1]) == Occurrences(f[..i]) + ClauseVars(f[i][..|f[i]|])
  {
    assert f[..i + 1][..i] == f[..i];
    assert f[i][..|f[i]|] == f[i];
  }

  /** The body of the `for (const clause of clauses)` loop for one clause. */
  method CheckClause(c: Clause, assignment: Bindings, depth: nat, trace: Trace, changed: bool)
    returns (conflict: bool, changedAfter: bool)
    modifies assignment, trace
    ensures var v := VisitClause(old(assignment.values), c, depth, changed);
      && conflict == v.conflict && changedAfter == v.changed
      && assignment.values == v.a
      && trace.events == old(trace.events) + v.events
  {
    var unassigned := Unassigned(assignment.values, c);
    var satisfied := ClauseSatisfied(assignment.values, c);
    conflict, changedAfter := false, changed;
    if !satisfied {
      if |unassigned| == 0 {
        trace.Push(Conflict(depth));
        return true, changed;
      }
      if |unassigned| == 1 {
        var lit := unassigned[0];
        assignment.Bind(lit.variable, !lit.negated);
        trace.Push(UnitPropagation(lit.variable, !lit.negated, depth));
        changedAfter := true;
      }
    }
    if satisfied || |unassigned| > 1 {
      assert trace.events == old(trace.events) + [];
    }
  }

  /** One pass of the `for (const clause of clauses)` loop: a conflict ends
      the pass (and the frame) at once. */
  method PropagatePass(f: Formula, assignment: Bindings, depth: nat, trace: Trace)
    returns (conflict: bool, changed: bool)
    modifies assignment, trace
    ensures var s := ScanFrom(f, old(assignment.values), 0, depth, false);
      && conflict == s.conflict && changed == s.changed
      && assignment.values == s.a
      && trace.events == old(trace.events) + s.events
  {
    ghost var start := assignment.values;
    ghost var e0 := trace.events;
    ghost var pass: seq<Event> := [];
    changed := false;
    assert ScanBehind([], ScanFrom(f, start, 0, depth, false)) == ScanFrom(f, start, 0, depth, false);
    for i := 0 to |f|
      invariant trace.events == e0 + pass
      invariant ScanFrom(f, start, 0, depth, false) == ScanBehind(pass, ScanFrom(f, assignment.values, i, depth, changed))
    {
      ghost var a := assignment.values;
      ghost var v := VisitClause(a, f[i], depth, changed);
      conflict, changed := CheckClause(f[i], assignment, depth, trace, changed);
      if conflict {
        assert trace.events == e0 + (pass + v.events);
        return;
      }
      ScanBehindTwice(pass, v.events, ScanFrom(f, v.a, i + 1, depth, v.changed));
      pass := pass + v.events;
    }
    assert pass + [] == pass;
    conflict := false;
  }

  /** The `while (changed)` loop of one frame: passes over the clauses until a
      pass binds nothing; a conflict stops it at once. */
  method PropagateUnits(f: Formula, assignment: Bindings, depth: nat, trace: Trace)
    returns (conflict: bool)
    modifies assignment, trace
    ensures var p := Propagate(f, old(assignment.values), depth);
      && conflict == p.conflict
      && assignment.values == p.a
      && trace.events == old(trace.events) + p.events
  {
    ghost var a0 := assignment.values;
    ghost var e0 := trace.events;
    ghost var done: seq<Event> := [];
    ghost var vars := VarsOf(f);
    var changed := true;
    while changed
      invariant trace.events == e0 + done
      invariant changed ==> Propagate(f, a0, depth) == Behind(done, Propagate(f, assignment.values, depth))
      invariant !changed ==> Propagate(f, a0, depth) == Propagation(assignment.values, done, false)
      decreases (if changed then 1 else 0) + |vars - assignment.values.Keys|
    {
      ghost var start := assignment.values;
      ghost var s := ScanFrom(f, start, 0, depth, false);
      PassAdvance(f, a0, start, depth, done);
      PassShrinks(f, start, depth);
      conflict, changed := PropagatePass(f, assignment, depth, trace);
      Appended(e0, done, s.events);
      done := done + s.events;
      if conflict {
        return true;
      }
    }
    return false;
  }

  /** `dpll(clauses, assignment, depth)`: propagates on `assignment` in place,
      then checks, then branches on fresh copies. `model` is the assignment of
      the frame that found every clause satisfied; the source does not return it. */
  method Dpll(f: Formula, order: seq<Var>, assignment: Bindings, depth: nat, trace: Trace)
    returns (sat: bool, model: Assignment)
    requires OrderCovers(f, order)
    modifies assignment, trace
    ensures var r := DpllSpec.Dpll(f, order, old(assignment.values), depth);
      && sat == r.sat && model == r.model
      && assignment.values == r.frame
      && trace.events == old(trace.events) + r.events
    decreases |VarsOf(f) - assignment.values.Keys|, 1
  {
    ghost var a0 := assignment.values;
    ghost var e0 := trace.events;
    ghost var prop := Propagate(f, a0, depth);
    DpllStep(f, order, a0, depth);
    var conflict := PropagateUnits(f, assignment, depth, trace);
    if conflict {
      return false, assignment.values;
    }

    if AllSatisfied(assignment.values, f) {
      trace.Push(AllClausesSatisfied(depth));
      Appended(e0, prop.events, [AllClausesSatisfied(depth)]);
      return true, assignment.values;
    }

    var unassignedVar := FirstUnassigned(order, assignment.values);
    if unassignedVar.None? {
      return false, assignment.values;
    }
    PropagateGrows(f, a0, depth);
    SubsetCardinality(VarsOf(f) - prop.a.Keys, VarsOf(f) - a0.Keys);
    ghost var search := BranchOn(f, order, prop.a, unassignedVar.value, depth);
    sat, model := BranchOnVariable(f, order, assignment.values, unassignedVar.value, depth, trace);
    Appended(e0, prop.events, search.events);
  }

  /** The branching tail of `dpll`: `dpll` on a copy of the assignment with
      `v` true, and on failure a backtrack event and `dpll` with `v` false. */
  method BranchOnVariable(f: Formula, order: seq<Var>, p: Assignment, v: Var, depth: nat, trace: Trace)
    returns (sat: bool, model: Assignment)
    requires OrderCovers(f, order) && v in VarsOf(f) && v !in p
    modifies trace
    ensures var s := BranchOn(f, order, p, v, depth);
      sat == s.sat && model == s.model && trace.events == old(trace.events) + s.events
    decreases |VarsOf(f) - p.Keys|, 0
  {
    ghost var e0 := trace.events;
    GrowthDecreases(VarsOf(f), p, p[v := true]);
    GrowthDecreases(VarsOf(f), p, p[v := false]);
    trace.Push(Branch(v, true, Try, depth));
    var withTrue := new Bindings(p[v := true]);
    ghost var t := DpllSpec.Dpll(f, order, p[v := true], depth + 1);
    var tryTrue, trueModel := Dpll(f, order, withTrue, depth + 1, trace);
    if tryTrue {
      Appended(e0, [Branch(v, true, Try, depth)], t.events);
      return true, trueModel;
    }

    trace.Push(Branch(v, false, Backtrack, depth));
    var withFalse := new Bindings(p[v := false]);
    ghost var u := DpllSpec.Dpll(f, order, p[v := false], depth + 1);
    sat, model := Dpll(f, order, withFalse, depth + 1, trace);
    BacktrackAppended(e0, Branch(v, true, Try, depth), t.events, Branch(v, false, Backtrack, depth), u.events);
  }

  lemma Appended(e: seq<Event>, done: seq<Event>, more: seq<Event>)
    ensures e + done + more == e + (done + more)
  {
  }

  lemma BacktrackAppended(e: seq<Event>, b: Event, t: seq<Event>, b': Event, t': seq<Event>)
    ensures e + [b] + t + [b'] + t' == e + ([b] + t + [b'] + t')
  {
  }

  /** `solveSAT()`: `printed` is the caller's `assignment` object that the page
      prints after a `true` result; `model` is the assignment that satisfied
      every clause. */
  method SolveSat(clauseTexts: seq<string>)
    returns (sat: bool, printed: Assignment, model: Assignment, events: seq<Event>)
    ensures var f := ParseFormula(clauseTexts);
      var r := DpllSpec.Dpll(f, VarOrder(f), map[], 0);
      sat == r.sat && printed == r.frame && model == r.model && events == r.events
    ensures sat <==> SatisfiableFrom(ParseFormula(clauseTexts), map[])
    ensures sat ==> AllSatisfied(model, ParseFormula(clauseTexts)) && Extends(model, printed)
  {
    var clauses := ParseFormula(clauseTexts);
    var variables := CollectVariables(clauses);
    var trace := new Trace();
    var assignment := new Bindings(map[]);
    sat, model := Dpll(clauses, variables, assignment, 0, trace);
    printed := assignment.values;
    events := trace.events;
    DpllDecides(clauses, variables, map[], 0);
    DpllSound(clauses, variables, map[], 0);
    ModelExtendsFrame(clauses, variables, map[], 0);
  }
}
