/** Propositional formulas in conjunctive normal form as the SAT playground
    builds them: a literal is `{variable, negated}`, a clause an array of
    literals, a formula an array of clauses, an assignment a plain object
    from variable names to booleans in which unassigned names are absent. */
module Cnf {
  import opened FirstSeen

  type Var = string

  datatype Literal = Literal(variable: Var, negated: bool)

  type Clause = seq<Literal>

  type Formula = seq<Clause>

  /** A partial assignment: a name that is not a key is `undefined`. */
  type Assignment = map<Var, bool>

  /** `assignment[lit.variable] === !lit.negated` */
  predicate LitTrue(a: Assignment, l: Literal)
  {
    l.variable in a && a[l.variable] == !l.negated
  }

  /** `clause.some(lit => assignment[lit.variable] === !lit.negated)` */
  predicate ClauseSatisfied(a: Assignment, c: Clause)
  {
    exists l :: l in c && LitTrue(a, l)
  }

  /** `clauses.every(clause => clause.some(...))` */
  predicate AllSatisfied(a: Assignment, f: Formula)
  {
    forall c :: c in f ==> ClauseSatisfied(a, c)
  }

  /** `clause.filter(lit => assignment[lit.variable] === undefined)`: the literal
      OCCURRENCES whose variable is unassigned, in clause order. */
  function Unassigned(a: Assignment, c: Clause): (u: seq<Literal>)
    ensures forall l :: l in u <==> l in c && l.variable !in a
    ensures |u| <= |c|
  {
    if c == [] then []
    else (if c[0].variable in a then [] else [c[0]]) + Unassigned(a, c[1..])
  }

  /** `unassigned.length` counts occurrences, not distinct literals: two
      positions over unbound variables, even `A` twice or `A` and `¬A`, make
      the clause non-unit. */
  lemma {:induction false} UnassignedCountsOccurrences(a: Assignment, c: Clause, i: nat, j: nat)
    requires i < j < |c| && c[i].variable !in a && c[j].variable !in a
    ensures |Unassigned(a, c)| >= 2
    decreases |c|
  {
    if i > 0 {
      UnassignedCountsOccurrences(a, c[1..], i - 1, j - 1);
    } else {
      assert c[1..][j - 1] == c[j];
      assert c[j] in Unassigned(a, c[1..]);
    }
  }

  /** Every variable mentioned by some literal of the formula. */
  function VarsOf(f: Formula): set<Var>
  {
    set i, j | 0 <= i < |f| && 0 <= j < |f[i]| :: f[i][j].variable
  }

  /** The variables of every literal, clause by clause, in literal order,
      repetitions included: the order in which `solveSAT` feeds its `Set`. */
  function Occurrences(f: Formula): (vs: seq<Var>)
    ensures forall v :: v in vs <==> v in VarsOf(f)
  {
    if f == [] then []
    else
      var init := f[..|f| - 1];
      var last := f[|f| - 1];
      var vs := Occurrences(init) + ClauseVars(last);
      assert forall v :: v in VarsOf(f) <==> v in VarsOf(init) || v in ClauseVars(last) by {
        forall v | v in VarsOf(f) ensures v in VarsOf(init) || v in ClauseVars(last) {
          var i, j :| 0 <= i < |f| && 0 <= j < |f[i]| && f[i][j].variable == v;
          if i < |f| - 1 {
            assert init[i][j].variable == v;
          } else {
            assert ClauseVars(last)[j] == v;
          }
        }
        forall v | v in VarsOf(init) ensures v in VarsOf(f) {
          var i, j :| 0 <= i < |init| && 0 <= j < |init[i]| && init[i][j].variable == v;
          assert f[i][j].variable == v;
        }
        forall v | v in ClauseVars(last) ensures v in VarsOf(f) {
          var j :| 0 <= j < |last| && ClauseVars(last)[j] == v;
          assert f[|f| - 1][j].variable == v;
        }
      }
      vs
  }

  function ClauseVars(c: Clause): (vs: seq<Var>)
    ensures |vs| == |c| && forall j :: 0 <= j < |c| ==> vs[j] == c[j].variable
  {
    seq(|c|, j requires 0 <= j < |c| => c[j].variable)
  }

  /** The variable order of `solveSAT`: `new Set` filled clause by clause,
      literal by literal. */
  function VarOrder(f: Formula): (order: seq<Var>)
    ensures forall v :: v in order <==> v in VarsOf(f)
    ensures forall i, j :: 0 <= i < j < |order| ==> order[i] != order[j]
  {
    Distinct(Occurrences(f))
  }

  /** The order in which the search looks for an unassigned variable names
      exactly the formula's variables. */
  ghost predicate OrderCovers(f: Formula, order: seq<Var>)
  {
    forall v :: v in order <==> v in VarsOf(f)
  }

  /** `b` agrees with every binding of `a` (and may bind more). */
  predicate Extends(b: Assignment, a: Assignment)
  {
    forall v :: v in a ==> v in b && b[v] == a[v]
  }

  /** Some assignment extending `a` satisfies every clause of `f`. */
  ghost predicate SatisfiableFrom(f: Formula, a: Assignment)
  {
    exists t :: Extends(t, a) && AllSatisfied(t, f)
  }

  /** A satisfying assignment stays satisfying when more variables are bound. */
  lemma AllSatisfiedMonotone(t: Assignment, t': Assignment, f: Formula)
    requires AllSatisfied(t, f) && Extends(t', t)
    ensures AllSatisfied(t', f)
  {
    forall c | c in f ensures ClauseSatisfied(t', c) {
      var l :| l in c && LitTrue(t, l);
      assert LitTrue(t', l);
    }
  }
}
