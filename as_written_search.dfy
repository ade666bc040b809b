/** `solveSAT` as the page writes it, where it departs from what the page
    evidently means: the `!unassignedVar` give-up test and the printed
    top-level assignment, each with worked inputs and set beside the corrected
    behaviour that the rest of the model uses. */
module AsWrittenSearch {
  import opened FirstSeen
  import opened Cnf
  import opened ClauseParser
  import opened DpllSpec
  import opened DpllCorrectness

  /** `find(...)` followed by `if (!unassignedVar) return false;`: the empty
      name is falsy in JavaScript, so a formula variable named `""` that is
      the first unassigned one stops the search as if every variable were
      assigned. */
  function PickBranchAsWritten(order: seq<Var>, a: Assignment): (r: Option<Var>)
    ensures r.Some? ==> r.value in order && r.value !in a && r.value != ""
    ensures r.None? <==> (forall v :: v in order ==> v in a) || FirstUnassigned(order, a) == Some("")
    ensures "" !in order ==> r == FirstUnassigned(order, a)
  {
    match FirstUnassigned(order, a)
    case None => None
    case Some(v) => if v == "" then None else Some(v)
  }

  /** `dpll` with the test as written. */
  function DpllAsWritten(f: Formula, order: seq<Var>, a: Assignment, depth: nat): (r: Outcome)
    requires OrderCovers(f, order)
    decreases |VarsOf(f) - a.Keys|, 1
  {
    var p := Propagate(f, a, depth);
    if p.conflict then Outcome(false, p.a, p.a, p.events)
    else if AllSatisfied(p.a, f) then Outcome(true, p.a, p.a, p.events + [AllClausesSatisfied(depth)])
    else match PickBranchAsWritten(order, p.a)
      case None => Outcome(false, p.a, p.a, p.events)
      case Some(v) =>
        PropagateGrows(f, a, depth);
        SubsetCardinality(VarsOf(f) - p.a.Keys, VarsOf(f) - a.Keys);
        var s := BranchOnAsWritten(f, order, p.a, v, depth);
        Outcome(s.sat, p.a, s.model, p.events + s.events)
  }

  function BranchOnAsWritten(f: Formula, order: seq<Var>, p: Assignment, v: Var, depth: nat): (r: Search)
    requires OrderCovers(f, order) && v in VarsOf(f) && v !in p
    decreases |VarsOf(f) - p.Keys|, 0
  {
    GrowthDecreases(VarsOf(f), p, p[v := true]);
    GrowthDecreases(VarsOf(f), p, p[v := false]);
    var tryTrue := DpllAsWritten(f, order, p[v := true], depth + 1);
    var tried := [Branch(v, true, Try, depth)] + tryTrue.events;
    if tryTrue.sat then Search(true, tryTrue.model, tried)
    else
      var tryFalse := DpllAsWritten(f, order, p[v := false], depth + 1);
      Search(tryFalse.sat, tryFalse.model, tried + [Branch(v, false, Backtrack, depth)] + tryFalse.events)
  }

  /** One frame as written, case by case. */
  lemma AsWrittenStep(f: Formula, order: seq<Var>, a: Assignment, depth: nat)
    requires OrderCovers(f, order)
    ensures var p := Propagate(f, a, depth);
      var r := DpllAsWritten(f, order, a, depth);
      && (p.conflict ==> r == Outcome(false, p.a, p.a, p.events))
      && (!p.conflict && AllSatisfied(p.a, f) ==>
            r == Outcome(true, p.a, p.a, p.events + [AllClausesSatisfied(depth)]))
      && (!p.conflict && !AllSatisfied(p.a, f) && PickBranchAsWritten(order, p.a).None? ==>
            r == Outcome(false, p.a, p.a, p.events))
      && (!p.conflict && !AllSatisfied(p.a, f) && PickBranchAsWritten(order, p.a).Some? ==>
            var s := BranchOnAsWritten(f, order, p.a, PickBranchAsWritten(order, p.a).value, depth);
            r == Outcome(s.sat, p.a, s.model, p.events + s.events))
  {
  }

  /** Without a variable named `""` the test as written and the corrected one
      run the same search, with the same trace. */
  lemma {:induction false} AsWrittenAgrees(f: Formula, order: seq<Var>, a: Assignment, depth: nat)
    requires OrderCovers(f, order) && "" !in VarsOf(f)
    ensures DpllAsWritten(f, order, a, depth) == Dpll(f, order, a, depth)
    decreases |VarsOf(f) - a.Keys|, 1
  {
    var p := Propagate(f, a, depth);
    AsWrittenStep(f, order, a, depth);
    DpllStep(f, order, a, depth);
    if !p.conflict && !AllSatisfied(p.a, f) && FirstUnassigned(order, p.a).Some? {
      var v := FirstUnassigned(order, p.a).value;
      PropagateGrows(f, a, depth);
      SubsetCardinality(VarsOf(f) - p.a.Keys, VarsOf(f) - a.Keys);
      BranchAsWrittenAgrees(f, order, p.a, v, depth);
    }
  }

  lemma {:induction false} BranchAsWrittenAgrees(f: Formula, order: seq<Var>, p: Assignment, v: Var, depth: nat)
    requires OrderCovers(f, order) && "" !in VarsOf(f) && v in VarsOf(f) && v !in p
    ensures BranchOnAsWritten(f, order, p, v, depth) == BranchOn(f, order, p, v, depth)
    decreases |VarsOf(f) - p.Keys|, 0
  {
    GrowthDecreases(VarsOf(f), p, p[v := true]);
    GrowthDecreases(VarsOf(f), p, p[v := false]);
    AsWrittenAgrees(f, order, p[v := true], depth + 1);
    AsWrittenAgrees(f, order, p[v := false], depth + 1);
  }

  lemma StripLeadingSeparator(t: string)
    requires forall ch :: ch in t ==> ch !in Parens
    ensures Strip("(∨ " + t + ")", Parens) == "∨ " + t
  {
    var z := "(∨ ";
    var y := z + t;
    StripAppend(y, ")", Parens);
    assert Strip(")", Parens) == [];
    StripAppend(z, t, Parens);
    StripNothing(t, Parens);
    assert Strip(z, Parens) == "∨ ";
  }

  lemma TokensOfLeadingSeparator(v: Var)
    requires WellFormedName(v)
    ensures Split(Trim(Strip("(∨ " + v + ")", Parens))) == ["", v]
  {
    StripLeadingSeparator(v);
    var cleaned := "∨ " + v;
    assert cleaned[0] == '∨' && cleaned[|cleaned| - 1] == v[|v| - 1];
    TrimNothing(cleaned);
    SplitLeadingSeparator(v);
    SplitToken(v, "");
    assert v + "" == v;
  }

  /** A separator right after `(` gives a first literal whose variable is `""`. */
  lemma ParseLeadingSeparator(v: Var)
    requires WellFormedName(v)
    ensures ParseClause("(∨ " + v + ")") == [Literal("", false), Literal(v, false)]
  {
    TokensOfLeadingSeparator(v);
    ParseClauseTokens("(∨ " + v + ")", ["", v]);
    ParseLiteralText(Literal(v, false));
    assert LiteralText(Literal(v, false)) == v;
    assert ParseLiteral("") == Literal("", false);
  }

  lemma ParseEmptyNameClause()
    ensures ParseFormula(["(∨ A)"]) == [[Literal("", false), Literal("A", false)]]
  {
    assert WellFormedName("A");
    assert "(∨ A)" == "(∨ " + "A" + ")";
    ParseLeadingSeparator("A");
  }

  lemma UnassignedAll(c: Clause)
    ensures Unassigned(map[], c) == c
  {
    if c != [] {
      UnassignedAll(c[1..]);
      assert [c[0]] + c[1..] == c;
    }
  }

  /** The search on `(∨ A)`: the first unassigned variable is `""`. */
  lemma EmptyNameFormula(f: Formula)
    requires f == [[Literal("", false), Literal("A", false)]]
    ensures VarOrder(f) == ["", "A"]
    ensures Propagate(f, map[], 0) == Propagation(map[], [], false)
    ensures !AllSatisfied(map[], f)
  {
    var c := f[0];
    assert f[..0] == [];
    assert Occurrences(f) == ClauseVars(c);
    assert ClauseVars(c) == ["", "A"];
    assert ["", "A"][..1] == [""];
    assert Distinct(["", "A"][..1]) == [""];
    assert !ClauseSatisfied(map[], c);
    UnassignedAll(c);
    assert ScanFrom(f, map[], 0, 0, false) == Scan(map[], [], false, false);
  }

  lemma EmptyNameAsWritten(f: Formula)
    requires f == [[Literal("", false), Literal("A", false)]]
    ensures !DpllAsWritten(f, VarOrder(f), map[], 0).sat
  {
    EmptyNameFormula(f);
    AsWrittenStep(f, VarOrder(f), map[], 0);
    assert PickBranchAsWritten(["", "A"], map[]) == None;
  }

  /** A formula some assignment satisfies is reported satisfiable, with a
      satisfying model. */
  lemma SatisfiedMeansSat(f: Formula, t: Assignment)
    requires AllSatisfied(t, f)
    ensures var r := Dpll(f, VarOrder(f), map[], 0);
      r.sat && AllSatisfied(r.model, f)
  {
    assert Extends(t, map[]);
    DpllDecides(f, VarOrder(f), map[], 0);
    DpllSound(f, VarOrder(f), map[], 0);
  }

  lemma EmptyNameSatisfiable(f: Formula)
    requires f == [[Literal("", false), Literal("A", false)]]
    ensures Dpll(f, VarOrder(f), map[], 0).sat
  {
    var t := map["" := true];
    assert LitTrue(t, f[0][0]);
    SatisfiedMeansSat(f, t);
  }

  /** The clause `(∨ A)` is satisfiable and the corrected search says so, but
      the search as written answers UNSATISFIABLE. */
  lemma EmptyNameLosesModel()
    ensures var f := ParseFormula(["(∨ A)"]);
      && f == [[Literal("", false), Literal("A", false)]]
      && !DpllAsWritten(f, VarOrder(f), map[], 0).sat
      && Dpll(f, VarOrder(f), map[], 0).sat
  {
    ParseEmptyNameClause();
    var f := ParseFormula(["(∨ A)"]);
    EmptyNameAsWritten(f);
    EmptyNameSatisfiable(f);
  }

  /** Every frame's `assignment` ends as its propagation left it: branching
      works on copies. */
  lemma FrameIsPropagated(f: Formula, order: seq<Var>, a: Assignment, depth: nat)
    requires OrderCovers(f, order)
    ensures Dpll(f, order, a, depth).frame == Propagate(f, a, depth).a
  {
    DpllStep(f, order, a, depth);
  }

  lemma ParsePair(a: Literal, b: Literal)
    requires a.variable in {"A", "B", "C"} && b.variable in {"A", "B", "C"}
    ensures ParseClause(FormatClause([a, b])) == [a, b]
  {
    assert WellFormedName("A") && WellFormedName("B") && WellFormedName("C");
    assert JoinLiterals([a, b][1..]) == LiteralText(b);
    ParseFormatClause([a, b]);
  }

  lemma ParseFirstDefault(text: string)
    requires text == "(A ∨ B)"
    ensures ParseClause(text) == [Literal("A", false), Literal("B", false)]
  {
    ParsePair(Literal("A", false), Literal("B", false));
    assert FormatClause([Literal("A", false), Literal("B", false)]) == text;
  }

  lemma ParseSecondDefault(text: string)
    requires text == "(¬A ∨ C)"
    ensures ParseClause(text) == [Literal("A", true), Literal("C", false)]
  {
    ParsePair(Literal("A", true), Literal("C", false));
    assert FormatClause([Literal("A", true), Literal("C", false)]) == text;
  }

  lemma ParseThirdDefault(text: string)
    requires text == "(¬B ∨ ¬C)"
    ensures ParseClause(text) == [Literal("B", true), Literal("C", true)]
  {
    ParsePair(Literal("B", true), Literal("C", true));
    assert FormatClause([Literal("B", true), Literal("C", true)]) == text;
  }

  /** The playground's default clauses `(A ∨ B)`, `(¬A ∨ C)`, `(¬B ∨ ¬C)`. */
  lemma ParseDefaultClauses(texts: seq<string>)
    requires texts == ["(A ∨ B)", "(¬A ∨ C)", "(¬B ∨ ¬C)"]
    ensures var f := ParseFormula(texts);
      && |f| == 3
      && f[0] == [Literal("A", false), Literal("B", false)]
      && f[1] == [Literal("A", true), Literal("C", false)]
      && f[2] == [Literal("B", true), Literal("C", true)]
  {
    ParseFirstDefault(texts[0]);
    ParseSecondDefault(texts[1]);
    ParseThirdDefault(texts[2]);
  }

  /** With nothing assigned, a pass over clauses of two literals or more
      binds nothing. */
  lemma {:induction false} NoUnitScan(f: Formula, i: nat)
    requires i <= |f| && forall j :: 0 <= j < |f| ==> |f[j]| >= 2
    ensures ScanFrom(f, map[], i, 0, false) == Scan(map[], [], false, false)
    decreases |f| - i
  {
    if i < |f| {
      UnassignedAll(f[i]);
      NoUnitScan(f, i + 1);
    }
  }

  /** When every clause has two literals or more, the top frame propagates
      nothing, so the `assignment` the page prints stays empty, and it
      satisfies no clause. */
  lemma NoUnitEmptyFrame(f: Formula)
    requires f != [] && forall j :: 0 <= j < |f| ==> |f[j]| >= 2
    ensures var r := Dpll(f, VarOrder(f), map[], 0);
      r.frame == map[] && !AllSatisfied(r.frame, f)
  {
    NoUnitScan(f, 0);
    PropagateStep(f, map[], 0);
    FrameIsPropagated(f, VarOrder(f), map[], 0);
    assert !ClauseSatisfied(map[], f[0]);
  }

  /** `A = true, B = false, C = true` satisfies the default clauses. */
  lemma DefaultModel(f: Formula, t: Assignment)
    requires |f| == 3
    requires f[0] == [Literal("A", false), Literal("B", false)]
    requires f[1] == [Literal("A", true), Literal("C", false)]
    requires f[2] == [Literal("B", true), Literal("C", true)]
    requires t == map["A" := true, "B" := false, "C" := true]
    ensures AllSatisfied(t, f)
  {
    forall c | c in f
      ensures ClauseSatisfied(t, c)
    {
      var j :| 0 <= j < 3 && f[j] == c;
      if j == 0 {
        assert LitTrue(t, c[0]);
      } else if j == 1 {
        assert LitTrue(t, c[1]);
      } else {
        assert LitTrue(t, c[0]);
      }
    }
  }

  /** The search on the default clauses: satisfiable, with an empty top frame. */
  lemma DefaultSearch(f: Formula)
    requires |f| == 3
    requires f[0] == [Literal("A", false), Literal("B", false)]
    requires f[1] == [Literal("A", true), Literal("C", false)]
    requires f[2] == [Literal("B", true), Literal("C", true)]
    ensures var r := Dpll(f, VarOrder(f), map[], 0);
      && r.sat
      && r.frame == map[]
      && !AllSatisfied(r.frame, f)
      && AllSatisfied(r.model, f)
  {
    assert forall j :: 0 <= j < |f| ==> |f[j]| >= 2 by {
      assert |f[0]| == 2 && |f[1]| == 2 && |f[2]| == 2;
    }
    NoUnitEmptyFrame(f);
    var t := map["A" := true, "B" := false, "C" := true];
    DefaultModel(f, t);
    SatisfiedMeansSat(f, t);
  }

  /** On the default clauses the page reports SATISFIABLE and prints the
      top-level `assignment`, which is still empty and satisfies none of the
      clauses: the satisfying assignment lives in a branch's copy. */
  lemma PrintedAssignmentNotModel(texts: seq<string>)
    requires texts == ["(A ∨ B)", "(¬A ∨ C)", "(¬B ∨ ¬C)"]
    ensures var f := ParseFormula(texts);
      var r := Dpll(f, VarOrder(f), map[], 0);
      && r.sat
      && r.frame == map[]
      && !AllSatisfied(r.frame, f)
      && AllSatisfied(r.model, f)
  {
    ParseDefaultClauses(texts);
    DefaultSearch(ParseFormula(texts));
  }
}
