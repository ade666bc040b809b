/** What the search promises: propagation only adds forced bindings, a
    conflict refutes the frame, the "no unassigned variable" fallback is never
    reached, a `true` result comes with a satisfying assignment, a `false`
    result means no extension of the incoming assignment satisfies the
    formula, and the answer agrees with a truth-table check. */
module DpllCorrectness {
  import opened FirstSeen
  import opened Cnf
  import opened DpllSpec

  /** Any satisfying extension `t` of the assignment agrees with every unit
      literal a pass meets, so the pass neither conflicts nor departs from `t`. */
  lemma {:induction false} ScanKeepsModels(f: Formula, a: Assignment, i: nat, depth: nat, changed: bool, t: Assignment)
    requires i <= |f|
    requires Extends(t, a) && AllSatisfied(t, f)
    ensures !ScanFrom(f, a, i, depth, changed).conflict
    ensures Extends(t, ScanFrom(f, a, i, depth, changed).a)
    decreases |f| - i
  {
    if i < |f| {
      var c := f[i];
      if ClauseSatisfied(a, c) {
        ScanKeepsModels(f, a, i + 1, depth, changed, t);
      } else {
        var u := Unassigned(a, c);
        assert ClauseSatisfied(t, c);
        var l :| l in c && LitTrue(t, l);
        assert l.variable !in a;
        assert l in u;
        if |u| == 1 {
          assert u[0] == l;
          ScanKeepsModels(f, a[l.variable := !l.negated], i + 1, depth, true, t);
        } else {
          ScanKeepsModels(f, a, i + 1, depth, changed, t);
        }
      }
    }
  }

  /** Propagation to the fixpoint keeps every satisfying extension. */
  lemma {:induction false} PropagateKeepsModels(f: Formula, a: Assignment, depth: nat, t: Assignment)
    requires Extends(t, a) && AllSatisfied(t, f)
    ensures !Propagate(f, a, depth).conflict
    ensures Extends(t, Propagate(f, a, depth).a)
    decreases |VarsOf(f) - a.Keys|
  {
    var p := ScanFrom(f, a, 0, depth, false);
    ScanKeepsModels(f, a, 0, depth, false, t);
    if p.changed {
      ScanGrows(f, a, 0, depth, false);
      GrowthDecreases(VarsOf(f), a, p.a);
      PropagateKeepsModels(f, p.a, depth, t);
    }
  }

  /** A conflict found while propagating means no extension of the frame's
      assignment satisfies the formula. */
  lemma PropagateConflictRefutes(f: Formula, a: Assignment, depth: nat)
    requires Propagate(f, a, depth).conflict
    ensures !SatisfiableFrom(f, a)
  {
    if SatisfiableFrom(f, a) {
      var t :| Extends(t, a) && AllSatisfied(t, f);
      PropagateKeepsModels(f, a, depth, t);
    }
  }

  /** A pass that neither conflicts nor binds anything has seen only clauses
      that are satisfied or have at least two unassigned literal occurrences. */
  lemma {:induction false} ScanFixpoint(f: Formula, a: Assignment, i: nat, depth: nat)
    requires i <= |f|
    ensures var r := ScanFrom(f, a, i, depth, false);
      !r.conflict && !r.changed ==>
        forall k :: i <= k < |f| ==> ClauseSatisfied(a, f[k]) || |Unassigned(a, f[k])| >= 2
    decreases |f| - i
  {
    if i < |f| {
      var v := VisitClause(a, f[i], depth, false);
      if !v.conflict {
        var rest := ScanFrom(f, v.a, i + 1, depth, v.changed);
        assert ScanFrom(f, a, i, depth, false) == ScanBehind(v.events, rest);
        if v.changed {
          ScanGrows(f, v.a, i + 1, depth, true);
        } else {
          assert v.a == a;
          ScanFixpoint(f, a, i + 1, depth);
          if !rest.conflict && !rest.changed {
            forall k | i <= k < |f|
              ensures ClauseSatisfied(a, f[k]) || |Unassigned(a, f[k])| >= 2
            {
              if k == i {
                assert ClauseSatisfied(v.a, f[i]) || |Unassigned(v.a, f[i])| > 1;
              }
            }
          }
        }
      }
    }
  }

  /** After propagation without conflict, no clause is falsified and none is unit. */
  lemma {:induction false} PropagateFixpoint(f: Formula, a: Assignment, depth: nat)
    requires !Propagate(f, a, depth).conflict
    ensures forall c :: c in f ==>
      ClauseSatisfied(Propagate(f, a, depth).a, c) || |Unassigned(Propagate(f, a, depth).a, c)| >= 2
    decreases |VarsOf(f) - a.Keys|
  {
    var p := ScanFrom(f, a, 0, depth, false);
    ScanGrows(f, a, 0, depth, false);
    if p.changed {
      GrowthDecreases(VarsOf(f), a, p.a);
      PropagateFixpoint(f, p.a, depth);
    } else {
      ScanFixpoint(f, a, 0, depth);
      assert p.a == a;
    }
  }

  /** The `if (!unassignedVar) return false` fallback is unreachable: when
      propagation ends without conflict and some clause is unsatisfied, some
      variable of the order is still unassigned. */
  lemma BranchVariableExists(f: Formula, order: seq<Var>, a: Assignment, depth: nat)
    requires OrderCovers(f, order)
    requires !Propagate(f, a, depth).conflict
    requires !AllSatisfied(Propagate(f, a, depth).a, f)
    ensures FirstUnassigned(order, Propagate(f, a, depth).a).Some?
  {
    var p := Propagate(f, a, depth);
    PropagateFixpoint(f, a, depth);
    var c :| c in f && !ClauseSatisfied(p.a, c);
    var u := Unassigned(p.a, c);
    var l := u[0];
    assert l in c && l.variable !in p.a;
    var i :| 0 <= i < |f| && f[i] == c;
    var j :| 0 <= j < |c| && c[j] == l;
    assert f[i][j].variable == l.variable;
    assert l.variable in order;
  }

  lemma ExtendsTransitive(c: Assignment, b: Assignment, a: Assignment)
    requires Extends(c, b) && Extends(b, a)
    ensures Extends(c, a)
  {
  }

  /** Soundness: a `true` result comes with an assignment that extends the
      frame's incoming one and satisfies every clause. */
  lemma {:induction false} DpllSound(f: Formula, order: seq<Var>, a: Assignment, depth: nat)
    requires OrderCovers(f, order)
    ensures var r := Dpll(f, order, a, depth);
      r.sat ==> AllSatisfied(r.model, f) && Extends(r.model, a)
    decreases |VarsOf(f) - a.Keys|, 1
  {
    var p := Propagate(f, a, depth);
    PropagateGrows(f, a, depth);
    if !p.conflict && !AllSatisfied(p.a, f) && FirstUnassigned(order, p.a).Some? {
      var v := FirstUnassigned(order, p.a).value;
      SubsetCardinality(VarsOf(f) - p.a.Keys, VarsOf(f) - a.Keys);
      BranchSound(f, order, p.a, v, depth);
      var s := BranchOn(f, order, p.a, v, depth);
      if s.sat {
        ExtendsTransitive(s.model, p.a, a);
      }
    }
  }

  lemma {:induction false} BranchSound(f: Formula, order: seq<Var>, p: Assignment, v: Var, depth: nat)
    requires OrderCovers(f, order) && v in VarsOf(f) && v !in p
    ensures var s := BranchOn(f, order, p, v, depth);
      s.sat ==> AllSatisfied(s.model, f) && Extends(s.model, p)
    decreases |VarsOf(f) - p.Keys|, 0
  {
    var b := Dpll(f, order, p[v := true], depth + 1).sat;
    GrowthDecreases(VarsOf(f), p, p[v := b]);
    DpllSound(f, order, p[v := b], depth + 1);
    if BranchOn(f, order, p, v, depth).sat {
      ExtendsTransitive(Dpll(f, order, p[v := b], depth + 1).model, p[v := b], p);
    }
  }

  /** The satisfying assignment a frame reports extends the frame's own
      assignment after propagation: what the page prints is a part of it. */
  lemma ModelExtendsFrame(f: Formula, order: seq<Var>, a: Assignment, depth: nat)
    requires OrderCovers(f, order)
    ensures var r := Dpll(f, order, a, depth);
      r.sat ==> Extends(r.model, r.frame)
  {
    var p := Propagate(f, a, depth);
    if !p.conflict && !AllSatisfied(p.a, f) && FirstUnassigned(order, p.a).Some? {
      PropagateGrows(f, a, depth);
      SubsetCardinality(VarsOf(f) - p.a.Keys, VarsOf(f) - a.Keys);
      BranchSound(f, order, p.a, FirstUnassigned(order, p.a).value, depth);
    }
  }

  /** Completeness: if some extension `t` of the incoming assignment satisfies
      every clause, the search returns `true`. */
  lemma {:induction false} DpllFindsModel(f: Formula, order: seq<Var>, a: Assignment, depth: nat, t: Assignment)
    requires OrderCovers(f, order)
    requires Extends(t, a) && AllSatisfied(t, f)
    ensures Dpll(f, order, a, depth).sat
    decreases |VarsOf(f) - a.Keys|, 1
  {
    var p := Propagate(f, a, depth);
    PropagateKeepsModels(f, a, depth, t);
    if !AllSatisfied(p.a, f) {
      BranchVariableExists(f, order, a, depth);
      var v := FirstUnassigned(order, p.a).value;
      PropagateGrows(f, a, depth);
      SubsetCardinality(VarsOf(f) - p.a.Keys, VarsOf(f) - a.Keys);
      BranchFindsModel(f, order, p.a, v, depth, t);
    }
  }

  lemma {:induction false} BranchFindsModel(f: Formula, order: seq<Var>, p: Assignment, v: Var, depth: nat, t: Assignment)
    requires OrderCovers(f, order) && v in VarsOf(f) && v !in p
    requires Extends(t, p) && AllSatisfied(t, f)
    ensures BranchOn(f, order, p, v, depth).sat
    decreases |VarsOf(f) - p.Keys|, 0
  {
    var t' := if v in t then t else t[v := true];
    AllSatisfiedMonotone(t, t', f);
    var b := t'[v];
    ExtendsBind(t', p, v);
    GrowthDecreases(VarsOf(f), p, p[v := b]);
    DpllFindsModel(f, order, p[v := b], depth + 1, t');
    BranchOnSat(f, order, p, v, depth, b);
  }

  /** Binding `v` to the value `t` gives it keeps `t` an extension. */
  lemma ExtendsBind(t: Assignment, p: Assignment, v: Var)
    requires Extends(t, p) && v in t
    ensures Extends(t, p[v := t[v]])
  {
  }

  /** The branching tail succeeds as soon as one of its two children does. */
  lemma BranchOnSat(f: Formula, order: seq<Var>, p: Assignment, v: Var, depth: nat, b: bool)
    requires OrderCovers(f, order) && v in VarsOf(f) && v !in p
    requires Dpll(f, order, p[v := b], depth + 1).sat
    ensures BranchOn(f, order, p, v, depth).sat
  {
  }

  /** The search decides satisfiability: `true` exactly when some extension of
      the incoming assignment satisfies every clause. */
  lemma DpllDecides(f: Formula, order: seq<Var>, a: Assignment, depth: nat)
    requires OrderCovers(f, order)
    ensures Dpll(f, order, a, depth).sat <==> SatisfiableFrom(f, a)
  {
    DpllSound(f, order, a, depth);
    if SatisfiableFrom(f, a) {
      var t :| Extends(t, a) && AllSatisfied(t, f);
      DpllFindsModel(f, order, a, depth, t);
    }
  }

  /** A truth table: every combination of values for the variables `vs`, the
      first variable `true` before `false`. */
  function BruteForce(f: Formula, vs: seq<Var>, a: Assignment): bool
  {
    if vs == [] then AllSatisfied(a, f)
    else BruteForce(f, vs[1..], a[vs[0] := true]) || BruteForce(f, vs[1..], a[vs[0] := false])
  }

  /** The variables still to enumerate: pairwise distinct, unbound in `a`,
      and together with `a` covering every variable of the formula. */
  ghost predicate TableFrame(f: Formula, vs: seq<Var>, a: Assignment)
  {
    && (forall i, j :: 0 <= i < j < |vs| ==> vs[i] != vs[j])
    && (forall v :: v in vs ==> v !in a)
    && (forall v :: v in VarsOf(f) ==> v in a || v in vs)
  }

  /** Binding the first variable to enumerate keeps the frame for the rest. */
  lemma TableFrameStep(f: Formula, vs: seq<Var>, a: Assignment, b: bool)
    requires vs != [] && TableFrame(f, vs, a)
    ensures TableFrame(f, vs[1..], a[vs[0] := b])
  {
    forall x | x in vs[1..] ensures x in vs && x != vs[0] {
      var k :| 0 <= k < |vs[1..]| && vs[1..][k] == x;
      assert vs[k + 1] == x;
    }
  }

  /** When every variable of the formula is bound, an extension satisfies the
      formula only if the assignment itself does. */
  lemma CoveredSatisfied(f: Formula, a: Assignment, t: Assignment)
    requires forall v :: v in VarsOf(f) ==> v in a
    requires Extends(t, a) && AllSatisfied(t, f)
    ensures AllSatisfied(a, f)
  {
    forall c | c in f ensures ClauseSatisfied(a, c) {
      var l :| l in c && LitTrue(t, l);
      var i :| 0 <= i < |f| && f[i] == c;
      var j :| 0 <= j < |c| && c[j] == l;
      assert f[i][j].variable == l.variable;
      assert LitTrue(a, l);
    }
  }

  /** A row of the truth table that satisfies the formula is a satisfying extension. */
  lemma {:induction false} BruteForceSound(f: Formula, vs: seq<Var>, a: Assignment)
    requires TableFrame(f, vs, a)
    requires BruteForce(f, vs, a)
    ensures SatisfiableFrom(f, a)
  {
    if vs == [] {
      assert Extends(a, a);
    } else {
      var v := vs[0];
      var b := BruteForce(f, vs[1..], a[v := true]);
      TableFrameStep(f, vs, a, b);
      BruteForceSound(f, vs[1..], a[v := b]);
      var t :| Extends(t, a[v := b]) && AllSatisfied(t, f);
      assert Extends(t, a);
    }
  }

  /** Every satisfying extension shows up as a row of the truth table. */
  lemma {:induction false} BruteForceComplete(f: Formula, vs: seq<Var>, a: Assignment, t: Assignment)
    requires TableFrame(f, vs, a)
    requires Extends(t, a) && AllSatisfied(t, f)
    ensures BruteForce(f, vs, a)
  {
    if vs == [] {
      CoveredSatisfied(f, a, t);
    } else {
      var v := vs[0];
      var t' := if v in t then t else t[v := true];
      AllSatisfiedMonotone(t, t', f);
      ExtendsBind(t', a, v);
      TableFrameStep(f, vs, a, t'[v]);
      BruteForceComplete(f, vs[1..], a[v := t'[v]], t');
    }
  }

  lemma BruteForceDecides(f: Formula, vs: seq<Var>, a: Assignment)
    requires TableFrame(f, vs, a)
    ensures BruteForce(f, vs, a) <==> SatisfiableFrom(f, a)
  {
    if BruteForce(f, vs, a) {
      BruteForceSound(f, vs, a);
    }
    if SatisfiableFrom(f, a) {
      var t :| Extends(t, a) && AllSatisfied(t, f);
      BruteForceComplete(f, vs, a, t);
    }
  }

  /** The search and the truth table over the solver's own variable order give
      the same answer for every formula. */
  lemma DpllAgreesWithTruthTable(f: Formula)
    ensures Dpll(f, VarOrder(f), map[], 0).sat == BruteForce(f, VarOrder(f), map[])
  {
    DpllDecides(f, VarOrder(f), map[], 0);
    BruteForceDecides(f, VarOrder(f), map[]);
  }

  /** A propagation event records a binding made by the pass that pushed it. */
  predicate RecordsBinding(e: Event, before: Assignment, after: Assignment, depth: nat)
  {
    e.UnitPropagation? && e.depth == depth
    && e.variable !in before && e.variable in after && after[e.variable] == e.value
  }

  /** The trace of one pass: each `UnitPropagation` event names a variable
      that was unbound when the pass began and that the pass leaves bound to
      exactly the recorded value; every other event is the frame's `Conflict`. */
  lemma {:induction false} ScanEventsRecordBindings(f: Formula, a: Assignment, i: nat, depth: nat, changed: bool)
    requires i <= |f|
    ensures var r := ScanFrom(f, a, i, depth, changed);
      forall e :: e in r.events ==> RecordsBinding(e, a, r.a, depth) || e == Conflict(depth)
    decreases |f| - i
  {
    if i < |f| {
      var v := VisitClause(a, f[i], depth, changed);
      if !v.conflict {
        var r := ScanFrom(f, a, i, depth, changed);
        var rest := ScanFrom(f, v.a, i + 1, depth, v.changed);
        ScanEventsRecordBindings(f, v.a, i + 1, depth, v.changed);
        ScanGrows(f, v.a, i + 1, depth, v.changed);
        assert Extends(v.a, a);
        assert r.a == rest.a && r.events == v.events + rest.events;
        forall e | e in v.events
          ensures RecordsBinding(e, a, r.a, depth)
        {
          assert RecordsBinding(e, a, v.a, depth);
        }
      }
    }
  }

  /** The same for propagation to the fixpoint: every `UnitPropagation` event
      names a variable the frame did not have on entry and leaves bound to the
      recorded value. */
  lemma {:induction false} PropagateEventsRecordBindings(f: Formula, a: Assignment, depth: nat)
    ensures var r := Propagate(f, a, depth);
      forall e :: e in r.events ==> RecordsBinding(e, a, r.a, depth) || e == Conflict(depth)
    decreases |VarsOf(f) - a.Keys|
  {
    var p := ScanFrom(f, a, 0, depth, false);
    ScanEventsRecordBindings(f, a, 0, depth, false);
    PropagateStep(f, a, depth);
    if !p.conflict && p.changed {
      ScanGrows(f, a, 0, depth, false);
      GrowthDecreases(VarsOf(f), a, p.a);
      var rest := Propagate(f, p.a, depth);
      PropagateEventsRecordBindings(f, p.a, depth);
      PropagateGrows(f, p.a, depth);
      RecordsJoin(p.events, rest.events, a, p.a, rest.a, depth);
    }
  }

  /** Events recorded over `a` to `b`, followed by events recorded over `b`
      to `c`, are recorded over `a` to `c` when each step only adds bindings. */
  lemma RecordsJoin(e1: seq<Event>, e2: seq<Event>, a: Assignment, b: Assignment, c: Assignment, depth: nat)
    requires Extends(b, a) && Extends(c, b)
    requires forall e :: e in e1 ==> RecordsBinding(e, a, b, depth) || e == Conflict(depth)
    requires forall e :: e in e2 ==> RecordsBinding(e, b, c, depth) || e == Conflict(depth)
    ensures forall e :: e in e1 + e2 ==> RecordsBinding(e, a, c, depth) || e == Conflict(depth)
  {
  }

  /** Within one frame the trace runs: propagation events first, then the
      frame's own `Branch` events. The propagation events are a prefix of the
      frame's events and hold no `Branch`; when the frame branches, the next
      event is `Branch(v, true, Try)` for the variable it branches on, and `v`
      is none of the variables it propagated. */
  lemma FramePropagatesBeforeBranching(f: Formula, order: seq<Var>, a: Assignment, depth: nat)
    requires OrderCovers(f, order)
    ensures var p := Propagate(f, a, depth);
      var r := Dpll(f, order, a, depth);
      && |p.events| <= |r.events| && r.events[..|p.events|] == p.events
      && (forall k :: 0 <= k < |p.events| ==> !r.events[k].Branch?)
      && (forall e :: e in p.events && e.UnitPropagation? ==> e.variable in r.frame && r.frame[e.variable] == e.value)
      && (!p.conflict && !AllSatisfied(p.a, f) && FirstUnassigned(order, p.a).Some? ==>
            var v := FirstUnassigned(order, p.a).value;
            && |r.events| > |p.events|
            && r.events[|p.events|] == Branch(v, true, Try, depth)
            && forall e :: e in p.events && e.UnitPropagation? ==> e.variable != v)
  {
    var p := Propagate(f, a, depth);
    var r := Dpll(f, order, a, depth);
    PropagateEventsRecordBindings(f, a, depth);
    var rest := FrameTail(f, order, a, depth);
    forall k | 0 <= k < |p.events|
      ensures !r.events[k].Branch?
    {
      assert r.events[k] == p.events[k];
      assert p.events[k] in p.events;
    }
  }

  /** What a frame pushes after its propagation events: nothing, the
      `AllClausesSatisfied` event, or its branches, led by `Branch(v, true, Try)`. */
  lemma FrameTail(f: Formula, order: seq<Var>, a: Assignment, depth: nat) returns (rest: seq<Event>)
    requires OrderCovers(f, order)
    ensures var p := Propagate(f, a, depth);
      var r := Dpll(f, order, a, depth);
      && r.frame == p.a
      && r.events == p.events + rest
      && (!p.conflict && !AllSatisfied(p.a, f) && FirstUnassigned(order, p.a).Some? ==>
            |rest| > 0 && rest[0] == Branch(FirstUnassigned(order, p.a).value, true, Try, depth))
  {
    var p := Propagate(f, a, depth);
    DpllStep(f, order, a, depth);
    if p.conflict || AllSatisfied(p.a, f) || FirstUnassigned(order, p.a).None? {
      rest := if !p.conflict && AllSatisfied(p.a, f) then [AllClausesSatisfied(depth)] else [];
    } else {
      rest := BranchOn(f, order, p.a, FirstUnassigned(order, p.a).value, depth).events;
    }
  }
}
