# SAT playground core, modelled in Dafny

This project models the SAT playground of the learning app in `app.js`.
It also models five small helpers from other demos of the same app.

**The SAT playground.**
- `parseClause` turns a clause text such as `(A ∨ ¬B ∨ C)` into literals. It deletes every parenthesis, trims the rest and splits it on `∨` or `|`; the whitespace around each separator is absorbed. A token is negated when it starts with `¬` or `!`. Its variable is the token with every `¬`/`!` removed, trimmed.
- `solveSAT` parses every clause and collects the variables in first-seen order (a JavaScript `Set`).
- It then runs the nested `dpll`:
  - repeated passes of unit propagation, each of which may report a conflict;
  - the all-clauses-satisfied check;
  - a branch on the first unassigned variable: `true` first, then a backtrack to `false`. The source gives up when `find` returns a falsy value, which also happens for a variable named `""`; the main model gives up only when no variable is unassigned (see "## Findings").
- Every step pushes a trace line.

The model is split in two layers.
- **Value-level specification.** `Cnf` holds the data model and the evaluation of clauses. `ClauseParser` holds `parseClause`. `DpllSpec` gives the search as functions: `ScanFrom` is one propagation pass, `Propagate` is the `while (changed)` loop, and `Dpll`/`BranchOn` are the recursion. Their result carries the trace as a sequence of `Event`s.
- **Imperative layer.** `DpllSolver` mirrors the source's mutation. The `trace` array is a `Trace` object that frames push to. A frame's assignment object is a `Bindings` object that propagation writes into in place; each branch allocates a fresh one, as the spread `{ ...assignment, [v]: b }` does. The propagation loops are `for`/`while` loops. Each method is proved to produce exactly the results, the final assignment and the trace that the `DpllSpec` functions describe.

`DpllCorrectness` proves the properties of the search:
- propagation never loses a model;
- a conflict refutes the frame;
- the trace records each unit binding with the value written, before the frame's branch events;
- the result is sound and complete (`DpllDecides`);
- the result agrees with an independent truth-table enumeration.

**The helpers.** Each has its own module:
- `EditDistance`: the `levenshteinDistance` table filling, proved against a recursive definition of edit distance.
- `Primes`: the `isPrime` 6k ± 1 trial division, proved equivalent to primality.
- `Lattice`: `pruneLatticeSubtree`, a class over the lattice's node and edge lists, proved against a recursive function. The lemmas cover closure, provenance and idempotence.
- `Rules`: `extractVars` and `calculateProgramSize`, which are pure.

A variable name is a `string` (`seq<char>`). A truth assignment is a `map<string, bool>`. An absent key plays the role of `undefined`.

## Model

| member | source | states |
|---|---|---|
| FirstSeen.Distinct | app.js:568-571 | the `Set` insertion order: holds exactly the elements of the input, with no repetition |
| FirstSeen.IndexOf | app.js:617 | the first position of an element: it is there and at no earlier position |
| FirstSeen.DistinctFirstOccurrenceOrder | app.js:568-571 | the distinct elements appear in the order of their first occurrence in the input |
| Cnf.Unassigned | app.js:585 | membership: exactly the clause's literals whose variable is unbound, and no more entries than the clause has |
| Cnf.UnassignedCountsOccurrences | app.js:585-597 | `unassigned.length` counts occurrences: two positions over unbound variables (even `A, A` or `A, ¬A`) give a length of at least 2, so such a clause is not unit |
| Cnf.Occurrences | app.js:569-570 | the variables of every literal in clause order; membership equals the formula's variable set |
| Cnf.VarOrder | app.js:567-571 | the `variables` set: exactly the formula's variables, each once |
| Cnf.AllSatisfiedMonotone | app.js:607-609 | binding more variables never un-satisfies a satisfied formula |
| ClauseParser.Strip | app.js:654 | `replace(/[()]/g, '')` never lengthens the text |
| ClauseParser.StripChars | app.js:654 | exactly the characters outside the deleted set survive |
| ClauseParser.StripAppend | app.js:654 | deleting characters distributes over concatenation |
| ClauseParser.StripNothing | app.js:654 | a text without parentheses is unchanged |
| ClauseParser.StripFramed | app.js:654 | the outer parentheses of `(…)` are removed and nothing else is |
| ClauseParser.TrimStart | app.js:654 | the result starts with a non-space or is empty |
| ClauseParser.TrimStartDrops | app.js:654 | what trimming drops from the front is whitespace only |
| ClauseParser.TrimEnd | app.js:654 | the result ends with a non-space or is empty |
| ClauseParser.TrimEndDrops | app.js:654 | what trimming drops from the back is whitespace only |
| ClauseParser.Trim | app.js:654 | `trim()`: no whitespace at either end |
| ClauseParser.TrimChars | app.js:659 | trimming adds no character |
| ClauseParser.TrimNothing | app.js:659 | a text with no whitespace at its ends is unchanged |
| ClauseParser.Split | app.js:655 | splitting at each separator (`∨` or a bar, with the whitespace around it) always yields at least one token |
| ClauseParser.SplitCount | app.js:655 | the number of tokens is the number of separators plus one |
| ClauseParser.SplitTokenChars | app.js:655 | tokens contain no separator and only characters of the input |
| ClauseParser.SplitToken | app.js:655 | a separator-free token ending in a non-space is the start of the first piece |
| ClauseParser.NoSeparatorAhead | app.js:655 | the separator pattern does not match at the start of such a token |
| ClauseParser.SplitSeparator | app.js:655 | a leading ` ∨ ` produces an empty first token |
| ClauseParser.SplitFirstToken | app.js:655 | `t ∨ rest` splits into `t` followed by the tokens of `rest` |
| ClauseParser.SplitJoin | app.js:655 | splitting the ` ∨ `-joined texts of well-formed literals gives back those texts |
| ClauseParser.SplitLeadingSeparator | app.js:655 | `∨ s` splits into an empty token followed by the tokens of `s` |
| ClauseParser.SplitDoubled | app.js:655 | `a ∨ ∨ b` splits into `a`, an empty token and `b` |
| ClauseParser.ParseClause | app.js:652-662 | a clause text always gives at least one literal: there is no error path |
| ClauseParser.ParseFormula | app.js:567 | one parsed clause per clause text |
| ClauseParser.SeparatorsAppend | app.js:655 | separator counts add up over concatenation |
| ClauseParser.SeparatorsOfSpaces | app.js:654 | whitespace holds no separator |
| ClauseParser.SeparatorsTrimStart | app.js:654 | trimming the front keeps every separator |
| ClauseParser.SeparatorsTrim | app.js:654 | trimming keeps every separator |
| ClauseParser.SeparatorsStrip | app.js:654 | deleting parentheses keeps every separator |
| ClauseParser.ParseClauseLength | app.js:652-662 | one literal per separated token: the number of separators plus one |
| ClauseParser.ParseClauseIgnoresParen | app.js:654 | inserting a parenthesis anywhere does not change the parse |
| ClauseParser.ParsedVariablesClean | app.js:657-661 | every parsed variable is free of parentheses, negation marks and separators, and is trimmed |
| ClauseParser.ParseLiteralText | app.js:658-660 | a literal written as `¬v` or `v` parses back to itself |
| ClauseParser.LiteralTextClean | app.js:658-660 | such a literal text is non-empty, trimmed and free of parentheses and separators |
| ClauseParser.JoinLiteralsClean | app.js:654-655 | a ` ∨ `-joined clause body is trimmed and free of parentheses |
| ClauseParser.CleanedFormat | app.js:654 | cleaning `(…)` around a joined body yields that body |
| ClauseParser.ParseFormatClause | app.js:652-662 | round trip: formatting a well-formed clause as `(l1 ∨ … ∨ ln)` and parsing it gives the clause back |
| ClauseParser.ParseExampleClause | app.js:653 | `(A ∨ ¬B ∨ C)` parses to `A`, negated `B`, `C` |
| ClauseParser.ParseExampleEmpty | app.js:652-662 | `()` parses to one literal with the empty variable, not a failure |
| ClauseParser.StripDoubled | app.js:654 | cleaning `(a ∨ ∨ b)` removes just its parentheses |
| ClauseParser.CleanedDoubled | app.js:654 | cleaning and trimming `(a ∨ ∨ b)` yields `a ∨ ∨ b` |
| ClauseParser.TokensOfDoubled | app.js:654-655 | `(a ∨ ∨ b)` yields the tokens `a`, `""`, `b` |
| ClauseParser.ParseDoubledSeparator | app.js:655-661 | a doubled separator yields a literal with the empty variable between the others |
| ClauseParser.ParseTrailingBang | app.js:658-659 | only a leading `!` negates; a trailing `!` is deleted from the name |
| DpllSpec.ScanGrows | app.js:584-603 | a pass only adds bindings, only for the formula's variables, and reports `changed` exactly when it added one |
| DpllSpec.GrowthDecreases | app.js:582-604 | adding bindings for formula variables lowers the number of unbound variables |
| DpllSpec.PropagateGrows | app.js:581-604 | propagation only adds bindings, and only for the formula's variables |
| DpllSpec.VisitClause | app.js:585-602 | one clause: a conflict exactly when it is unsatisfied with no unbound literal; otherwise the clause is left satisfied or with two or more unbound literals |
| DpllSpec.PassShrinks | app.js:582-604 | a pass that reports `changed` binds a new formula variable; one that does not leaves the bindings alone |
| DpllSpec.FirstUnassigned | app.js:617 | `Array.from(variables).find(v => assignment[v] === undefined)`: the first unbound variable in order, or none when all are bound |
| DpllCorrectness.ScanKeepsModels | app.js:584-603 | a pass that starts below a model never conflicts and stays below it |
| DpllCorrectness.PropagateKeepsModels | app.js:581-604 | unit propagation never excludes a model that extends the frame |
| DpllCorrectness.PropagateConflictRefutes | app.js:590-595 | a propagation conflict means no extension of the frame satisfies the formula |
| DpllCorrectness.ScanFixpoint | app.js:584-603 | a pass without change or conflict leaves every clause satisfied or with two or more unbound literals |
| DpllCorrectness.PropagateFixpoint | app.js:581-604 | after propagation every clause is satisfied or has two or more unbound literals |
| DpllCorrectness.ScanEventsRecordBindings | app.js:584-603 | each `UnitPropagation` event a pass pushes names a variable unbound when the pass began and bound by the pass to exactly the recorded value, as `assignment[v] = b` and the trace push write the same value; every other event is a `Conflict` |
| DpllCorrectness.PropagateEventsRecordBindings | app.js:581-604 | the same for the whole `while (changed)` loop: every propagation event records a binding the frame did not have on entry and keeps |
| DpllCorrectness.FramePropagatesBeforeBranching | app.js:581-628 | a frame's propagation events are a prefix of its trace and hold no `Branch`; each propagated variable is bound to its recorded value in the frame's assignment; when the frame branches, the next event is `Branch(v, true, Try)` and `v` is none of the variables it propagated |
| DpllCorrectness.BranchVariableExists | app.js:617-618 | after propagation without conflict, an unsatisfied formula always has an unbound variable to branch on |
| DpllCorrectness.DpllSound | app.js:606-614 | a `true` result comes with a model that satisfies every clause and extends the incoming assignment |
| DpllCorrectness.BranchSound | app.js:620-628 | the same for the two branches |
| DpllCorrectness.ModelExtendsFrame | app.js:622 | the model extends the frame's own propagated assignment |
| DpllCorrectness.DpllFindsModel | app.js:577-629 | if some extension of the incoming assignment satisfies the formula, the result is `true` |
| DpllCorrectness.BranchFindsModel | app.js:620-628 | the same for the branches: the model's value for the branch variable is tried |
| DpllCorrectness.ExtendsBind | app.js:622 | a model that binds `v` extends the frame plus its own value for `v` |
| DpllCorrectness.BranchOnSat | app.js:621-628 | either branch succeeding makes the branch point succeed |
| DpllCorrectness.DpllDecides | app.js:577-629 | the result is `true` exactly when some assignment extending the incoming one satisfies every clause |
| DpllCorrectness.TableFrameStep | app.js:577-629 | fixing the next variable of the table keeps the table's frame invariant |
| DpllCorrectness.CoveredSatisfied | app.js:607-609 | a total assignment below a model is itself a model |
| DpllCorrectness.BruteForceSound | app.js:577-629 | reference definition: a `true` truth-table row is a model |
| DpllCorrectness.BruteForceComplete | app.js:577-629 | reference definition: every model is found by the truth table |
| DpllCorrectness.BruteForceDecides | app.js:577-629 | the truth table decides satisfiability |
| DpllCorrectness.DpllAgreesWithTruthTable | app.js:631 | the top-level call agrees with the truth table on every formula |
| DpllSolver.Trace.constructor | app.js:574 | the trace starts empty |
| DpllSolver.Trace.Push | app.js:593 | `trace.push`: appends one event |
| DpllSolver.Bindings.constructor | app.js:575 | a frame's assignment object starts with the given bindings |
| DpllSolver.Bindings.Bind | app.js:599 | `assignment[v] = b`: binds one variable and changes nothing else |
| DpllSolver.CollectVariables | app.js:568-571 | the nested `forEach` loops produce exactly the first-seen variable order |
| DpllSolver.AddVariable | app.js:570 | `variables.add` of one more literal's variable |
| DpllSolver.OccurrencesStep | app.js:569 | one more clause appends its variables |
| DpllSolver.CheckClause | app.js:585-602 | one iteration of `for (const clause of clauses)`: conflict flag, binding and trace exactly as specified |
| DpllSolver.PropagatePass | app.js:584-603 | one pass over the clauses in place: result, bindings and trace of the pass specification |
| DpllSolver.PropagateUnits | app.js:581-604 | the `while (changed)` loop in place: result, bindings and trace of propagation |
| DpllSolver.Dpll | app.js:577-618 | the frame: result, model, frame bindings and trace equal the recursive specification, which uses the corrected give-up test (see "## Left out") |
| DpllSolver.BranchOnVariable | app.js:620-628 | try-`true` event, true subtree, then only on failure the backtrack event and false subtree, on fresh copies of the frame |
| DpllSolver.SolveSat | app.js:562-631 | parses, orders, solves from the empty assignment: `true` exactly when the clauses are satisfiable, with a satisfying model that extends the printed assignment; uses the corrected give-up test (see "## Left out") |
| AsWrittenSearch.PickBranchAsWritten | app.js:617-618 | `if (!unassignedVar) return false`: gives up both when all are bound and when the first unbound variable is `""` |
| AsWrittenSearch.AsWrittenAgrees | app.js:617-618 | without a variable named `""`, the as-written search equals the corrected one |
| AsWrittenSearch.BranchAsWrittenAgrees | app.js:620-628 | the same for the branches |
| AsWrittenSearch.StripLeadingSeparator | app.js:654 | cleaning `(∨ t)` yields `∨ t` |
| AsWrittenSearch.TokensOfLeadingSeparator | app.js:654-655 | `(∨ v)` yields the tokens `""` and `v` |
| AsWrittenSearch.ParseLeadingSeparator | app.js:652-662 | `(∨ v)` parses to the empty variable followed by `v` |
| AsWrittenSearch.ParseEmptyNameClause | app.js:652-662 | the clause `(∨ A)` parses to `""` and `A` |
| AsWrittenSearch.UnassignedAll | app.js:585 | under the empty assignment every literal is unbound |
| AsWrittenSearch.EmptyNameFormula | app.js:567-604 | that formula's order is `""`, `A`; propagation does nothing; it is not yet satisfied |
| AsWrittenSearch.EmptyNameAsWritten | app.js:617-618 | the as-written search reports it unsatisfiable |
| AsWrittenSearch.SatisfiedMeansSat | app.js:577-629 | any formula with a model is reported satisfiable with a model |
| AsWrittenSearch.EmptyNameSatisfiable | app.js:577-629 | the corrected search reports it satisfiable |
| AsWrittenSearch.EmptyNameLosesModel | app.js:617-618 | for `['(∨ A)']` the as-written search answers unsatisfiable while the corrected one answers satisfiable |
| AsWrittenSearch.FrameIsPropagated | app.js:599 | the top frame's printed object is its propagated assignment |
| AsWrittenSearch.ParsePair | app.js:652-662 | two-literal clauses over `A`, `B`, `C` parse back to themselves |
| AsWrittenSearch.ParseFirstDefault | app.js:40 | `(A ∨ B)` parses to `A`, `B` |
| AsWrittenSearch.ParseSecondDefault | app.js:40 | `(¬A ∨ C)` parses to negated `A`, `C` |
| AsWrittenSearch.ParseThirdDefault | app.js:40 | `(¬B ∨ ¬C)` parses to negated `B`, negated `C` |
| AsWrittenSearch.ParseDefaultClauses | app.js:40 | the default clause list parses clause by clause as above |
| AsWrittenSearch.NoUnitScan | app.js:584-603 | with no clause shorter than two literals, a pass from the empty assignment does nothing |
| AsWrittenSearch.NoUnitEmptyFrame | app.js:631-641 | then the top frame's assignment stays empty and does not satisfy the formula |
| AsWrittenSearch.DefaultModel | app.js:40 | `A = true, B = false, C = true` satisfies the default clauses |
| AsWrittenSearch.DefaultSearch | app.js:631-641 | the default clauses are satisfiable, with an empty printed assignment and a model found in a branch |
| AsWrittenSearch.PrintedAssignmentNotModel | app.js:634-641 | for the default clauses the result is SATISFIABLE but the printed assignment is empty and satisfies nothing |
| EditDistance.Min3 | app.js:3060-3064 | `Math.min` of three: no larger than any, equal to one |
| EditDistance.LevenshteinDistance | app.js:3051-3069 | the bottom-right cell is the edit distance of the two strings |
| EditDistance.FillRow | app.js:3059-3065 | one row of the inner loop fills row `i` with the distances of the prefixes and leaves other rows alone |
| EditDistance.CellStep | app.js:3060-3064 | the cell recurrence holds for the prefixes |
| EditDistance.DistSelf | app.js:3051-3069 | a string is at distance 0 from itself |
| EditDistance.DistZero | app.js:3051-3069 | distance 0 only between equal strings |
| EditDistance.DistAtMostLonger | app.js:3051-3069 | the distance is at most the longer length |
| EditDistance.DistAtLeastLengthGap | app.js:3051-3069 | the distance is at least the difference of the lengths |
| EditDistance.DistSymmetric | app.js:3051-3069 | the distance is symmetric |
| Primes.IsPrime | app.js:1433-1441 | `true` exactly when `n` is prime |
| Primes.Composite | app.js:1436-1438 | a proper divisor makes the answer `false` |
| Primes.NextBlock | app.js:1437-1438 | testing `i` and `i + 2` excludes every divisor below `i + 6` |
| Primes.OnlySixKPlusMinusOne | app.js:1436-1437 | once 2 and 3 are excluded, only divisors `6k ± 1` remain possible |
| Primes.NoSmallDivisor | app.js:1437-1440 | no divisor up to the square root means prime |
| Primes.CofactorSmall | app.js:1437 | a divisor beyond the square root has a cofactor below it |
| Rules.UpperLetters | app.js:2615 | `match(/[A-Z]/g)`, or the empty list when nothing matches: exactly the upper-case letters of the literal, and no more entries than the literal has characters |
| Rules.ExtractVarsContents | app.js:2614-2617 | the variables are exactly the literal's upper-case letters, each once |
| Rules.ExtractVarsOrder | app.js:2616 | the variables come in the order of their first appearance |
| Rules.ExtractVarsNone | app.js:2615 | a literal without upper-case letters has no variables (the empty-list fallback) |
| Rules.ProgramSize | app.js:2864-2866 | the size is at least the number of rules |
| Rules.ProgramSizeAppend | app.js:2865 | sizes add up over concatenated rule lists |
| Rules.ProgramSizeOfFacts | app.js:2865 | a list of body-less rules has one unit of size per rule |
| Lattice.Children | app.js:3508-3510 | the children are exactly the targets of the edges leaving the node |
| Lattice.Find | app.js:3513 | `nodes.find`: the first node with the id, or none |
| Lattice.PruneChildren | app.js:3512-3518 | the `forEach`: only unexplored nodes change, each to pruned; ids stay; the unexplored count never rises |
| Lattice.PruneOneFewer | app.js:3515 | pruning one unexplored node lowers the unexplored count by one |
| Lattice.FindKept | app.js:3513 | with ids unchanged, `find` finds the same node |
| Lattice.SettledKept | app.js:3514 | a node that is no longer unexplored stays that way |
| Lattice.PruneChildrenCloses | app.js:3512-3518 | every listed child, and every child of a node this call pruned, ends up not unexplored |
| Lattice.PruneSubtreeCloses | app.js:3507-3519 | closure: the unexplored part of the subtree below the node is pruned through |
| Lattice.PruneChildrenSources | app.js:3512-3518 | a pruned node is a child of the start node or of another node the same call pruned |
| Lattice.PruneSettledNoop | app.js:3514 | when every child is already settled, nothing changes |
| Lattice.PruneSubtreeIdempotent | app.js:3507-3519 | pruning the same subtree again changes nothing |
| Lattice.LatticeState.constructor | app.js:3188-3190 | the state holds the given nodes and edges |
| Lattice.LatticeState.PruneLatticeSubtree | app.js:3507-3519 | in place: the node list becomes the pruned-subtree specification; the edges are untouched |
| Lattice.LatticeState.PruneEach | app.js:3512-3518 | in place: the `forEach` over the children, recursion included |

## Left out

- The DOM: reading the clause inputs, `innerHTML` output, indentation and the emoji text of trace lines. Trace lines are `Event` values carrying the same data (variable, value, depth, kind).
- DpllSpec.Dpll, DpllSolver.Dpll and DpllSolver.SolveSat: use the corrected test at app.js:618, which gives up only when every variable is bound. The source's `!unassignedVar` also gives up on a variable named `""`. That as-written search is AsWrittenSearch.DpllAsWritten, and AsWrittenSearch.AsWrittenAgrees proves the two equal whenever no variable is named `""`.
- Adding and removing clauses in the UI (`addClause`, the remove buttons): they only edit the list of clause texts that `SolveSat` takes as input.
- JavaScript object keys: a variable named like an `Object.prototype` member (`constructor`, `toString`, `__proto__`) reads as bound before it is assigned. The model treats every name as an ordinary key.
- Strings are sequences of Unicode characters. JavaScript indexes UTF-16 code units, which differ for characters outside the Basic Multilingual Plane. This affects `levenshteinDistance` and `startsWith`.
- Primes.IsPrime: takes a mathematical integer. JavaScript numbers can also be fractional, infinite or NaN, and such inputs are not modelled.
- A `ParseError` for an empty clause or an empty variable name is not modelled. `parseClause` has no error path: an empty token becomes the variable `""`, and this is what the model does.
- DpllSolver.SolveSat: also returns the satisfying `model`, which the source computes in a branch frame but never shows. The `printed` output is the top frame's object that the source does print.
- Lattice: a node is reduced to its `id` and `status`. Labels, coverage counts and layout coordinates are not read or written by pruning.
- Lattice.PruneChildrenSources: states that each pruned node hangs off the start node or off another pruned node. It does not state a full path from the start node.
- The rest of the lattice search is not modelled: `stepLatticeSearch`, `evaluateLatticeNode` and the search queue.

## Findings

| source | as written | input that shows it | evidently intended | confidence | as-written member | corrected member |
|---|---|---|---|---|---|---|
| app.js:617-618 | `if (!unassignedVar) return false` also fires when the first unbound variable is the empty name `""`, which is falsy | clauses `['(∨ A)']`, parsed as `"" ∨ A` | give up only when every variable is bound; `""` is a legal variable that `parseClause` produces | not executed | AsWrittenSearch.EmptyNameLosesModel | DpllCorrectness.DpllDecides |
| app.js:634-641 | the SATISFIABLE message prints the top-level `assignment` object, which holds only what top-level propagation bound; bindings made in branches live in copies | the default clauses `['(A ∨ B)', '(¬A ∨ C)', '(¬B ∨ ¬C)']` | print the satisfying assignment found by the search | not executed | AsWrittenSearch.PrintedAssignmentNotModel | DpllSolver.SolveSat |
