/** Two helpers of the rule demos: the variables of a literal such as
    `q(A,B)` (every upper-case letter, once, in order of first appearance)
    and the size of a program (each rule counts its body literals plus one
    for its head). */
module Rules {
  import opened FirstSeen

  /** `/[A-Z]/`: an ASCII upper-case letter. */
  predicate IsUpper(c: char)
  {
    'A' <= c <= 'Z'
  }

  /** `literal.match(/[A-Z]/g) || []`: every upper-case letter, in order,
      repetitions included. */
  function UpperLetters(s: string): (r: seq<char>)
    ensures forall c :: c in r <==> c in s && IsUpper(c)
    ensures |r| <= |s|
  {
    if s == [] then []
    else
      var rest := UpperLetters(s[1..]);
      assert forall c :: c in s <==> c == s[0] || c in s[1..];
      if IsUpper(s[0]) then [s[0]] + rest else rest
  }

  /** `extractVars(literal)`: `[...new Set(matches)]`. */
  function ExtractVars(literal: string): (vars: seq<char>)
  {
    Distinct(UpperLetters(literal))
  }

  /** The variables are exactly the upper-case letters of the literal, each
      listed once. */
  lemma ExtractVarsContents(literal: string)
    ensures var vars := ExtractVars(literal);
      && (forall c :: c in vars <==> c in literal && IsUpper(c))
      && (forall i, j :: 0 <= i < j < |vars| ==> vars[i] != vars[j])
  {
  }

  /** Variables come out in the order of their first appearance. */
  lemma ExtractVarsOrder(literal: string, i: nat, j: nat)
    requires i < j < |ExtractVars(literal)|
    ensures var letters := UpperLetters(literal);
      IndexOf(letters, ExtractVars(literal)[i]) < IndexOf(letters, ExtractVars(literal)[j])
  {
    DistinctFirstOccurrenceOrder(UpperLetters(literal), i, j);
  }

  /** A literal with no upper-case letter has no variables. */
  lemma {:induction false} ExtractVarsNone(literal: string)
    requires forall k :: 0 <= k < |literal| ==> !IsUpper(literal[k])
    ensures UpperLetters(literal) == [] && ExtractVars(literal) == []
  {
    if literal != [] {
      ExtractVarsNone(literal[1..]);
    }
  }

  datatype Rule = Rule(head: string, body: seq<string>)

  /** `rules.reduce((sum, rule) => sum + rule.body.length + 1, 0)` */
  function ProgramSize(rules: seq<Rule>): (size: nat)
    ensures size >= |rules|
  {
    if rules == [] then 0
    else ProgramSize(rules[..|rules| - 1]) + |rules[|rules| - 1].body| + 1
  }

  /** Sizes add up over concatenated programs. */
  lemma {:induction false} ProgramSizeAppend(a: seq<Rule>, b: seq<Rule>)
    ensures ProgramSize(a + b) == ProgramSize(a) + ProgramSize(b)
    decreases |b|
  {
    if b == [] {
      assert a + b == a;
    } else {
      var init := b[..|b| - 1];
      ProgramSizeAppend(a, init);
      assert (a + b)[..|a + b| - 1] == a + init;
      assert (a + b)[|a + b| - 1] == b[|b| - 1];
    }
  }

  /** A program of bodiless facts has one unit of size per rule. */
  lemma {:induction false} ProgramSizeOfFacts(rules: seq<Rule>)
    requires forall k :: 0 <= k < |rules| ==> rules[k].body == []
    ensures ProgramSize(rules) == |rules|
  {
    if rules != [] {
      ProgramSizeOfFacts(rules[..|rules| - 1]);
    }
  }
}
