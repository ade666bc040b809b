/** The clause text format of the SAT playground and `parseClause`: every
    parenthesis is deleted, the rest is trimmed and split on `∨` or `|` with
    the whitespace around each separator absorbed, and each token becomes a
    literal that is negated when the token starts with `¬` or `!` and whose
    variable is the token with every `¬` and `!` removed, trimmed. There is no
    error path: an empty token gives the variable `""`. */
module ClauseParser {
  import opened Cnf

  /** The characters `String.prototype.trim` removes and `\s` matches: the
      ECMAScript WhiteSpace and LineTerminator characters. */
  predicate IsSpace(ch: char)
  {
    || ch == '\t' || ch == '\n' || ch == '\U{000B}' || ch == '\U{000C}' || ch == '\r'
    || ch == ' ' || ch == '\U{00A0}' || ch == '\U{1680}'
    || ('\U{2000}' <= ch <= '\U{200A}')
    || ch == '\U{2028}' || ch == '\U{2029}' || ch == '\U{202F}' || ch == '\U{205F}'
    || ch == '\U{3000}' || ch == '\U{FEFF}'
  }

  /** `[∨|]` */
  predicate IsSeparator(ch: char)
  {
    ch == '∨' || ch == '|'
  }

  const Parens: set<char> := {'(', ')'}

  const Negations: set<char> := {'¬', '!'}

  /** `s.replace(/[...]/g, '')`: `s` without every character of `drop`. */
  function Strip(s: string, drop: set<char>): (r: string)
    ensures |r| <= |s|
  {
    if s == [] then []
    else (if s[0] in drop then [] else [s[0]]) + Strip(s[1..], drop)
  }

  /** Exactly the characters of `s` outside `drop` survive. */
  lemma {:induction false} StripChars(s: string, drop: set<char>)
    ensures forall ch :: ch in Strip(s, drop) <==> ch in s && ch !in drop
  {
    if s != [] {
      StripChars(s[1..], drop);
      assert forall ch :: ch in s <==> ch == s[0] || ch in s[1..];
    }
  }

  /** Every character of `s` is whitespace. */
  predicate AllSpace(s: string)
  {
    forall i :: 0 <= i < |s| ==> IsSpace(s[i])
  }

  /** `s` without its leading whitespace. */
  function TrimStart(s: string): (r: string)
    ensures |r| <= |s|
    ensures r == [] || !IsSpace(r[0])
  {
    if s != [] && IsSpace(s[0]) then TrimStart(s[1..]) else s
  }

  /** What `TrimStart` drops is a run of whitespace at the front. */
  lemma {:induction false} TrimStartDrops(s: string)
    ensures var r := TrimStart(s);
      s == s[..|s| - |r|] + r && AllSpace(s[..|s| - |r|])
  {
    if s != [] && IsSpace(s[0]) {
      TrimStartDrops(s[1..]);
      var r := TrimStart(s);
      assert s[..|s| - |r|] == [s[0]] + s[1..][..|s| - 1 - |r|];
    }
  }

  /** `s` without its trailing whitespace. */
  function TrimEnd(s: string): (r: string)
    ensures |r| <= |s|
    ensures r == [] || !IsSpace(r[|r| - 1])
  {
    if s != [] && IsSpace(s[|s| - 1]) then TrimEnd(s[..|s| - 1]) else s
  }

  /** What `TrimEnd` drops is a run of whitespace at the back. */
  lemma {:induction false} TrimEndDrops(s: string)
    ensures var r := TrimEnd(s);
      s == r + s[|r|..] && AllSpace(s[|r|..])
  {
    if s != [] && IsSpace(s[|s| - 1]) {
      var init := s[..|s| - 1];
      TrimEndDrops(init);
      var r := TrimEnd(s);
      assert s[|r|..] == init[|r|..] + [s[|s| - 1]];
      assert s == init + [s[|s| - 1]];
    }
  }

  /** `s.trim()` */
  function Trim(s: string): (r: string)
    ensures r == [] || (!IsSpace(r[0]) && !IsSpace(r[|r| - 1]))
  {
    var t := TrimStart(s);
    var r := TrimEnd(t);
    assert r != [] ==> r[0] == t[0] by {
      TrimEndDrops(t);
    }
    r
  }

  /** Trimming keeps a contiguous piece of the text. */
  lemma TrimChars(s: string)
    ensures forall ch :: ch in Trim(s) ==> ch in s
  {
    var t := TrimStart(s);
    TrimStartDrops(s);
    TrimEndDrops(t);
  }

  /** A match of `\s*[∨|]` begins here. */
  predicate SeparatorAhead(s: string)
  {
    var t := TrimStart(s);
    t != [] && IsSeparator(t[0])
  }

  // `s.split(/\s*[∨|]\s*/)`: the regular expression is tried at each
  // position from left to right; a match ends the current token and the
  // whitespace after the separator is consumed with it.
  function Split(s: string): (tokens: seq<string>)
    ensures |tokens| >= 1
    decreases |s|
  {
    if s == [] then [""]
    else if SeparatorAhead(s) then [""] + Split(TrimStart(TrimStart(s)[1..]))
    else
      var rest := Split(s[1..]);
      [[s[0]] + rest[0]] + rest[1..]
  }

  /** One token as a literal. */
  function ParseLiteral(token: string): (l: Literal)
  {
    Literal(Trim(Strip(token, Negations)), token != [] && token[0] in Negations)
  }

  /** `parseClause(clauseStr)` */
  function ParseClause(text: string): (c: Clause)
    ensures |c| >= 1
  {
    var tokens := Split(Trim(Strip(text, Parens)));
    seq(|tokens|, i requires 0 <= i < |tokens| => ParseLiteral(tokens[i]))
  }

  /** `AppState.satClauses.map(parseClause)` */
  function ParseFormula(texts: seq<string>): (f: Formula)
    ensures |f| == |texts|
  {
    seq(|texts|, i requires 0 <= i < |texts| => ParseClause(texts[i]))
  }

  // ---------------------------------------------------------------------------
  // Counting separators

  /** How many separator characters `s` holds. */
  function Separators(s: string): nat
  {
    if s == [] then 0 else (if IsSeparator(s[0]) then 1 else 0) + Separators(s[1..])
  }

  lemma {:induction false} SeparatorsAppend(s: string, t: string)
    ensures Separators(s + t) == Separators(s) + Separators(t)
  {
    if s == [] {
      assert s + t == t;
    } else {
      assert (s + t)[0] == s[0] && (s + t)[1..] == s[1..] + t;
      SeparatorsAppend(s[1..], t);
    }
  }

  lemma {:induction false} SeparatorsOfSpaces(s: string)
    requires AllSpace(s)
    ensures Separators(s) == 0
  {
    if s != [] {
      SeparatorsOfSpaces(s[1..]);
    }
  }

  /** Dropping whitespace does not change the separator count. */
  lemma SeparatorsTrimStart(s: string)
    ensures Separators(TrimStart(s)) == Separators(s)
  {
    var r := TrimStart(s);
    TrimStartDrops(s);
    SeparatorsAppend(s[..|s| - |r|], r);
    SeparatorsOfSpaces(s[..|s| - |r|]);
  }

  lemma SeparatorsTrim(s: string)
    ensures Separators(Trim(s)) == Separators(s)
  {
    var t := TrimStart(s);
    SeparatorsTrimStart(s);
    var r := TrimEnd(t);
    TrimEndDrops(t);
    SeparatorsAppend(r, t[|r|..]);
    SeparatorsOfSpaces(t[|r|..]);
  }

  lemma {:induction false} SeparatorsStrip(s: string, drop: set<char>)
    requires forall ch :: ch in drop ==> !IsSeparator(ch)
    ensures Separators(Strip(s, drop)) == Separators(s)
  {
    if s != [] {
      SeparatorsStrip(s[1..], drop);
      SeparatorsAppend(if s[0] in drop then [] else [s[0]], Strip(s[1..], drop));
    }
  }

  /** The split yields one more token than there are separators. */
  lemma {:induction false} SplitCount(s: string)
    ensures |Split(s)| == Separators(s) + 1
    decreases |s|
  {
    if s != [] {
      if SeparatorAhead(s) {
        var t := TrimStart(s);
        var rest := TrimStart(t[1..]);
        SeparatorsTrimStart(s);
        SeparatorsTrimStart(t[1..]);
        assert t == [t[0]] + t[1..];
        SeparatorsAppend([t[0]], t[1..]);
        SplitCount(rest);
      } else {
        assert !IsSeparator(s[0]);
        SplitCount(s[1..]);
      }
    }
  }

  /** One literal per `∨`/`|`-separated token: a clause text with `n`
      separators parses to `n + 1` literals, whatever else it holds. */
  lemma ParseClauseLength(text: string)
    ensures |ParseClause(text)| == Separators(text) + 1
  {
    var cleaned := Trim(Strip(text, Parens));
    SeparatorsStrip(text, Parens);
    SeparatorsTrim(Strip(text, Parens));
    SplitCount(cleaned);
  }

  // ---------------------------------------------------------------------------
  // Parentheses are ignored

  lemma {:induction false} StripAppend(s: string, t: string, drop: set<char>)
    ensures Strip(s + t, drop) == Strip(s, drop) + Strip(t, drop)
  {
    if s == [] {
      assert s + t == t;
    } else {
      assert (s + t)[0] == s[0] && (s + t)[1..] == s[1..] + t;
      StripAppend(s[1..], t, drop);
    }
  }

  /** A parenthesis inserted anywhere in a clause text changes nothing. */
  lemma ParseClauseIgnoresParen(text: string, i: nat, paren: char)
    requires i <= |text| && paren in Parens
    ensures ParseClause(text[..i] + [paren] + text[i..]) == ParseClause(text)
  {
    StripAppend(text[..i] + [paren], text[i..], Parens);
    StripAppend(text[..i], [paren], Parens);
    StripAppend(text[..i], text[i..], Parens);
    assert Strip([paren], Parens) == [];
    assert text[..i] + text[i..] == text;
    assert Strip(text[..i] + [paren] + text[i..], Parens) == Strip(text, Parens);
  }

  // ---------------------------------------------------------------------------
  // What a parsed literal looks like

  lemma TrimStartChars(s: string)
    ensures forall ch :: ch in TrimStart(s) ==> ch in s
  {
    TrimStartDrops(s);
  }

  /** Every character of a token comes from the text, and none is a separator. */
  lemma {:induction false} SplitTokenChars(s: string)
    ensures forall k, ch :: 0 <= k < |Split(s)| && ch in Split(s)[k] ==> ch in s && !IsSeparator(ch)
    decreases |s|
  {
    if s != [] {
      if SeparatorAhead(s) {
        var t := TrimStart(s);
        TrimStartChars(s);
        TrimStartChars(t[1..]);
        assert forall ch :: ch in t[1..] ==> ch in t;
        SplitTokenChars(TrimStart(t[1..]));
      } else {
        assert !IsSeparator(s[0]);
        assert forall ch :: ch in s[1..] ==> ch in s;
        SplitTokenChars(s[1..]);
      }
    }
  }

  /** Every variable is free of parentheses, negation signs and separators
      and is not padded with whitespace. */
  lemma ParsedVariablesClean(text: string)
    ensures forall l :: l in ParseClause(text) ==>
      && (forall ch :: ch in l.variable ==> ch !in Parens && ch !in Negations && !IsSeparator(ch))
      && (l.variable == [] || (!IsSpace(l.variable[0]) && !IsSpace(l.variable[|l.variable| - 1])))
  {
    var cleaned := Trim(Strip(text, Parens));
    var tokens := Split(cleaned);
    SplitTokenChars(cleaned);
    TrimChars(Strip(text, Parens));
    StripChars(text, Parens);
    forall l | l in ParseClause(text)
      ensures forall ch :: ch in l.variable ==> ch !in Parens && ch !in Negations && !IsSeparator(ch)
    {
      var k :| 0 <= k < |tokens| && l == ParseLiteral(tokens[k]);
      TrimChars(Strip(tokens[k], Negations));
      StripChars(tokens[k], Negations);
    }
  }

  // ---------------------------------------------------------------------------
  // Printing a clause and reading it back

  /** A name the clause text format carries unchanged: non-empty, without
      parentheses, negation signs or separators, and not padded with whitespace. */
  predicate WellFormedName(v: Var)
  {
    && v != []
    && !IsSpace(v[0]) && !IsSpace(v[|v| - 1])
    && forall ch :: ch in v ==> ch !in Parens && ch !in Negations && !IsSeparator(ch)
  }

  /** `¬A` or `A` */
  function LiteralText(l: Literal): string
  {
    (if l.negated then "¬" else "") + l.variable
  }

  /** The literals joined by ` ∨ `. */
  function JoinLiterals(c: Clause): string
  {
    if c == [] then ""
    else if |c| == 1 then LiteralText(c[0])
    else LiteralText(c[0]) + " ∨ " + JoinLiterals(c[1..])
  }

  /** A clause in the form the playground shows, such as `(¬A ∨ C)`. */
  function FormatClause(c: Clause): string
  {
    "(" + JoinLiterals(c) + ")"
  }

  lemma {:induction false} StripNothing(s: string, drop: set<char>)
    requires forall ch :: ch in s ==> ch !in drop
    ensures Strip(s, drop) == s
  {
    if s != [] {
      StripNothing(s[1..], drop);
    }
  }

  lemma TrimNothing(s: string)
    requires s == [] || (!IsSpace(s[0]) && !IsSpace(s[|s| - 1]))
    ensures Trim(s) == s
  {
  }

  /** A token whose last character is not whitespace and that holds no
      separator is read as one piece up to whatever follows it. */
  lemma {:induction false} SplitToken(t: string, rest: string)
    requires t != [] && !IsSpace(t[|t| - 1])
    requires forall ch :: ch in t ==> !IsSeparator(ch)
    ensures Split(t + rest) == [t + Split(rest)[0]] + Split(rest)[1..]
    decreases |t|
  {
    NoSeparatorAhead(t, rest);
    assert (t + rest)[0] == t[0] && (t + rest)[1..] == t[1..] + rest;
    assert [t[0]] + t[1..] == t;
    var tail := Split(rest);
    if |t| > 1 {
      SplitToken(t[1..], rest);
      var r := Split(t[1..] + rest);
      assert r[0] == t[1..] + tail[0] && r[1..] == tail[1..];
      assert Split(t + rest) == [[t[0]] + r[0]] + r[1..];
      assert [t[0]] + (t[1..] + tail[0]) == t + tail[0];
    } else {
      assert t[1..] + rest == rest;
      assert t == [t[0]];
    }
  }

  lemma {:induction false} NoSeparatorAhead(t: string, rest: string)
    requires t != [] && !IsSpace(t[|t| - 1])
    requires forall ch :: ch in t ==> !IsSeparator(ch)
    ensures !SeparatorAhead(t + rest)
    decreases |t|
  {
    if IsSpace(t[0]) {
      assert (t + rest)[1..] == t[1..] + rest;
      NoSeparatorAhead(t[1..], rest);
    }
  }

  /** ` ∨ ` ends a token and starts the next. */
  lemma SplitSeparator(s: string)
    requires s == [] || !IsSpace(s[0])
    ensures Split(" ∨ " + s) == [""] + Split(s)
  {
    var t := " ∨ " + s;
    assert TrimStart(t) == t[1..];
    assert TrimStart(t)[1..] == " " + s;
    assert TrimStart(" " + s) == TrimStart((" " + s)[1..]);
    assert (" " + s)[1..] == s;
  }

  /** Well-formed literal texts. */
  predicate WellFormedClause(c: Clause)
  {
    forall l :: l in c ==> WellFormedName(l.variable)
  }

  /** The texts of the literals, one per literal. */
  function LiteralTexts(c: Clause): (ts: seq<string>)
    ensures |ts| == |c| && forall i :: 0 <= i < |c| ==> ts[i] == LiteralText(c[i])
  {
    seq(|c|, i requires 0 <= i < |c| => LiteralText(c[i]))
  }

  /** A clean token followed by ` ∨ ` is split off as it is. */
  lemma SplitFirstToken(t: string, rest: string)
    requires t != [] && !IsSpace(t[|t| - 1])
    requires forall ch :: ch in t ==> !IsSeparator(ch)
    requires rest == [] || !IsSpace(rest[0])
    ensures Split(t + " ∨ " + rest) == [t] + Split(rest)
  {
    SplitToken(t, " ∨ " + rest);
    SplitSeparator(rest);
    assert t + " ∨ " + rest == t + (" ∨ " + rest);
    assert t + "" == t;
  }

  lemma {:induction false} SplitJoin(c: Clause)
    requires c != [] && WellFormedClause(c)
    ensures Split(JoinLiterals(c)) == LiteralTexts(c)
  {
    var t := LiteralText(c[0]);
    assert c[0] in c;
    LiteralTextClean(c[0]);
    if |c| == 1 {
      SplitToken(t, "");
      assert t + "" == t;
    } else {
      var rest := JoinLiterals(c[1..]);
      assert WellFormedClause(c[1..]);
      JoinLiteralsClean(c[1..]);
      SplitFirstToken(t, rest);
      SplitJoin(c[1..]);
      assert LiteralTexts(c) == [t] + LiteralTexts(c[1..]);
    }
  }

  lemma ParseLiteralText(l: Literal)
    requires WellFormedName(l.variable)
    ensures ParseLiteral(LiteralText(l)) == l
  {
    var v := l.variable;
    assert v[0] in v;
    StripNothing(v, Negations);
    TrimNothing(v);
    if l.negated {
      StripAppend("¬", v, Negations);
      assert Strip("¬", Negations) == [];
    } else {
      assert LiteralText(l) == v;
    }
  }

  /** The text of a well-formed literal: no parentheses, no whitespace at either end. */
  lemma LiteralTextClean(l: Literal)
    requires WellFormedName(l.variable)
    ensures var s := LiteralText(l);
      && s != []
      && (forall ch :: ch in s ==> ch !in Parens && !IsSeparator(ch))
      && !IsSpace(s[0]) && !IsSpace(s[|s| - 1])
  {
    var v := l.variable;
    assert v[0] in v;
    if l.negated {
      assert forall ch :: ch in "¬" + v ==> ch == '¬' || ch in v;
    } else {
      assert LiteralText(l) == v;
    }
  }

  lemma {:induction false} JoinLiteralsClean(c: Clause)
    requires c != [] && WellFormedClause(c)
    ensures var s := JoinLiterals(c);
      && (forall ch :: ch in s ==> ch !in Parens)
      && !IsSpace(s[0]) && !IsSpace(s[|s| - 1])
  {
    assert c[0] in c;
    var t := LiteralText(c[0]);
    LiteralTextClean(c[0]);
    if |c| > 1 {
      var rest := JoinLiterals(c[1..]);
      JoinLiteralsClean(c[1..]);
      var s := t + " ∨ " + rest;
      assert s[0] == t[0] && s[|s| - 1] == rest[|rest| - 1];
      assert forall ch :: ch in s ==> ch in t || ch in " ∨ " || ch in rest;
    }
  }

  /** Deleting the parentheses of a printed clause and trimming leaves the
      joined literal texts. */
  lemma CleanedFormat(c: Clause)
    requires c != [] && WellFormedClause(c)
    ensures Trim(Strip(FormatClause(c), Parens)) == JoinLiterals(c)
  {
    var s := JoinLiterals(c);
    JoinLiteralsClean(c);
    StripFramed(s);
    TrimNothing(s);
  }

  /** Reading back a printed clause of well-formed names gives the clause. */
  lemma ParseFormatClause(c: Clause)
    requires c != [] && WellFormedClause(c)
    ensures ParseClause(FormatClause(c)) == c
  {
    CleanedFormat(c);
    SplitJoin(c);
    var tokens := LiteralTexts(c);
    assert Split(Trim(Strip(FormatClause(c), Parens))) == tokens;
    forall i | 0 <= i < |c| ensures ParseLiteral(tokens[i]) == c[i] {
      assert c[i] in c;
      ParseLiteralText(c[i]);
    }
  }

  /** The clause shown as `(A ∨ ¬B ∨ C)` parses to its three literals. */
  lemma ParseExampleClause()
    ensures ParseClause("(A ∨ ¬B ∨ C)") == [Literal("A", false), Literal("B", true), Literal("C", false)]
  {
    var c := [Literal("A", false), Literal("B", true), Literal("C", false)];
    assert JoinLiterals(c[2..]) == "C";
    assert JoinLiterals(c[1..]) == "¬B ∨ C";
    assert FormatClause(c) == "(A ∨ ¬B ∨ C)";
    assert WellFormedClause(c) by {
      assert WellFormedName("A") && WellFormedName("B") && WellFormedName("C");
    }
    ParseFormatClause(c);
  }

  /** An empty clause text yields one literal with the empty variable. */
  lemma ParseExampleEmpty()
    ensures ParseClause("()") == [Literal("", false)]
  {
    assert Strip("()", Parens) == [];
    assert Split([]) == [""];
  }

  /** `∨ ` at the front of the rest ends an empty token. */
  lemma SplitLeadingSeparator(s: string)
    requires s == [] || !IsSpace(s[0])
    ensures Split("∨ " + s) == [""] + Split(s)
  {
    var t := "∨ " + s;
    assert TrimStart(t) == t;
    assert t[1..] == " " + s;
    assert TrimStart(" " + s) == TrimStart((" " + s)[1..]);
    assert (" " + s)[1..] == s;
  }

  /** Deleting the parentheses of `(s)`, where `s` has none, leaves `s`. */
  lemma StripFramed(s: string)
    requires forall ch :: ch in s ==> ch !in Parens
    ensures Strip("(" + s + ")", Parens) == s
  {
    StripAppend("(" + s, ")", Parens);
    StripAppend("(", s, Parens);
    StripNothing(s, Parens);
    assert Strip("(", Parens) == [] && Strip(")", Parens) == [];
  }

  lemma SplitDoubled(ta: string, tb: string)
    requires ta != [] && !IsSpace(ta[|ta| - 1]) && forall ch :: ch in ta ==> !IsSeparator(ch)
    requires tb != [] && !IsSpace(tb[0]) && !IsSpace(tb[|tb| - 1]) && forall ch :: ch in tb ==> !IsSeparator(ch)
    ensures Split(ta + " ∨ ∨ " + tb) == [ta, "", tb]
  {
    assert ta + " ∨ ∨ " + tb == ta + " ∨ " + ("∨ " + tb);
    SplitFirstToken(ta, "∨ " + tb);
    SplitLeadingSeparator(tb);
    SplitToken(tb, "");
    assert tb + "" == tb;
  }

  /** The literals of a clause text are those of the tokens its cleaned text splits into. */
  lemma ParseClauseTokens(text: string, tokens: seq<string>)
    requires Split(Trim(Strip(text, Parens))) == tokens
    ensures |ParseClause(text)| == |tokens|
    ensures forall i :: 0 <= i < |tokens| ==> ParseClause(text)[i] == ParseLiteral(tokens[i])
  {
  }

  lemma StripDoubled(ta: string, tb: string)
    requires forall ch :: ch in ta ==> ch !in Parens
    requires forall ch :: ch in tb ==> ch !in Parens
    ensures Strip("(" + ta + " ∨ ∨ " + tb + ")", Parens) == ta + " ∨ ∨ " + tb
  {
    var z := "(" + ta;
    var y := z + " ∨ ∨ ";
    var x := y + tb;
    assert x + ")" == "(" + ta + " ∨ ∨ " + tb + ")";
    StripAppend(x, ")", Parens);
    assert Strip(")", Parens) == [];
    StripAppend(y, tb, Parens);
    StripNothing(tb, Parens);
    StripAppend(z, " ∨ ∨ ", Parens);
    assert Strip(" ∨ ∨ ", Parens) == " ∨ ∨ ";
    StripAppend("(", ta, Parens);
    assert Strip("(", Parens) == [];
    StripNothing(ta, Parens);
    assert Strip(z, Parens) == ta;
    assert Strip(y, Parens) == ta + " ∨ ∨ ";
  }

  lemma CleanedDoubled(ta: string, tb: string)
    requires ta != [] && !IsSpace(ta[0]) && forall ch :: ch in ta ==> ch !in Parens
    requires tb != [] && !IsSpace(tb[|tb| - 1]) && forall ch :: ch in tb ==> ch !in Parens
    ensures Trim(Strip("(" + ta + " ∨ ∨ " + tb + ")", Parens)) == ta + " ∨ ∨ " + tb
  {
    var cleaned := ta + " ∨ ∨ " + tb;
    StripDoubled(ta, tb);
    assert cleaned[0] == ta[0] && cleaned[|cleaned| - 1] == tb[|tb| - 1];
    TrimNothing(cleaned);
  }

  lemma TokensOfDoubled(a: Literal, b: Literal)
    requires WellFormedName(a.variable) && WellFormedName(b.variable)
    ensures Split(Trim(Strip("(" + LiteralText(a) + " ∨ ∨ " + LiteralText(b) + ")", Parens)))
         == [LiteralText(a), "", LiteralText(b)]
  {
    LiteralTextClean(a);
    LiteralTextClean(b);
    CleanedDoubled(LiteralText(a), LiteralText(b));
    SplitDoubled(LiteralText(a), LiteralText(b));
  }

  /** Two separators in a row give a literal whose variable is `""` between
      the literals around them. */
  lemma ParseDoubledSeparator(a: Literal, b: Literal)
    requires WellFormedName(a.variable) && WellFormedName(b.variable)
    ensures ParseClause("(" + LiteralText(a) + " ∨ ∨ " + LiteralText(b) + ")") == [a, Literal("", false), b]
  {
    var text := "(" + LiteralText(a) + " ∨ ∨ " + LiteralText(b) + ")";
    TokensOfDoubled(a, b);
    ParseClauseTokens(text, [LiteralText(a), "", LiteralText(b)]);
    ParseLiteralText(a);
    ParseLiteralText(b);
    assert ParseLiteral("") == Literal("", false);
  }

  /** A negation sign counts only at the start of a token: a trailing `!` is
      dropped from the name and does not negate the literal. */
  lemma ParseTrailingBang(v: Var)
    requires WellFormedName(v)
    ensures ParseLiteral(v + "!") == Literal(v, false)
  {
    StripAppend(v, "!", Negations);
    StripNothing(v, Negations);
    assert Strip("!", Negations) == [];
    assert v + [] == v;
    assert v[0] in v;
  }
}
