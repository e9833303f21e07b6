// What a scanner made of a text does not depend on what follows the text.
module ShellLocality {
  import opened Wrappers
  import opened ShellSyntax

  lemma DropOfConcat(a: string, b: string, n: nat)
    requires n <= |a|
    ensures (a + b)[n..] == a[n..] + b
  {
  }

  function Extended(r: Scan, b: string): Scan {
    match r
    case Closed(rest, text, subs) => Closed(rest + b, text, subs)
    case Unclosed(_) => r
  }

  lemma {:induction false} FindCharExtends(a: string, b: string, c: char)
    requires 0 <= FindChar(a, c)
    ensures FindChar(a + b, c) == FindChar(a, c)
  {
    if a[0] != c {
      DropOfConcat(a, b, 1);
      FindCharExtends(a[1..], b, c);
    }
  }

  lemma {:induction false} AnsiExtends(a: string, b: string)
    requires AnsiBody(a).Closed?
    ensures AnsiBody(a + b) == Extended(AnsiBody(a), b)
    decreases |a|
  {
    DropOfConcat(a, b, 1);
    if a[0] == '\'' {
    } else if a[0] == '\\' && |a| > 1 {
      DropOfConcat(a, b, 2);
      AnsiExtends(a[2..], b);
    } else {
      AnsiExtends(a[1..], b);
    }
  }

  lemma {:induction false} BacktickBodyExtends(a: string, b: string)
    requires BacktickBody(a).Closed?
    ensures BacktickBody(a + b) == Extended(BacktickBody(a), b)
    decreases |a|
  {
    DropOfConcat(a, b, 1);
    if a[0] == '`' {
    } else if a[0] == '\\' && |a| > 1 {
      DropOfConcat(a, b, 2);
      assert (a + b)[..2] == a[..2];
      BacktickBodyExtends(a[2..], b);
    } else {
      BacktickBodyExtends(a[1..], b);
    }
  }

  lemma {:induction false} SubstitutionExtends(a: string, b: string, depth: nat)
    requires AtSubstitution(a) && Substitution(a, depth).Closed?
    ensures AtSubstitution(a + b)
    ensures Substitution(a + b, depth) == Extended(Substitution(a, depth), b)
    decreases |a|, 1
  {
    if a[0] == '`' {
      DropOfConcat(a, b, 1);
      BacktickBodyExtends(a[1..], b);
    } else {
      DropOfConcat(a, b, 1);
      MatchParenExtends(a[1..], b, 0, depth);
      var rest := MatchParen(a[1..], 0, depth).value;
      assert (a + b)[2..|a + b| - |rest + b| - 1] == a[2..|a| - |rest| - 1];
      assert "$((" <= a <==> "$((" <= a + b;
    }
  }

  lemma {:induction false} DoubleExtends(a: string, b: string, depth: nat)
    requires DoubleBody(a, depth).Closed?
    ensures DoubleBody(a + b, depth) == Extended(DoubleBody(a, depth), b)
    decreases |a|, 2
  {
    DropOfConcat(a, b, 1);
    if a[0] == '"' {
    } else if a[0] == '\\' && |a| > 1 && IsDoubleEscapable(a[1]) {
      DropOfConcat(a, b, 2);
      DoubleExtends(a[2..], b, depth);
    } else if AtSubstitution(a) {
      SubstitutionExtends(a, b, depth + 1);
      DoubleExtends(Substitution(a, depth + 1).rest, b, depth);
    } else {
      assert |a| > 1;
      DoubleExtends(a[1..], b, depth);
    }
  }

  lemma {:induction false} PastQuotesExtends(a: string, b: string, depth: nat)
    requires a != "" && IsQuote(a[0]) && PastQuotes(a, depth).Some?
    ensures PastQuotes(a + b, depth) == Some(PastQuotes(a, depth).value + b)
    decreases |a|, 0
  {
    DropOfConcat(a, b, 1);
    if a[0] == '\'' {
      FindCharExtends(a[1..], b, '\'');
      DropOfConcat(a, b, FindChar(a[1..], '\'') + 2);
    } else {
      DoubleExtends(a[1..], b, depth + 1);
    }
  }

  lemma {:induction false} MatchParenExtends(a: string, b: string, nesting: int, depth: nat)
    requires MatchParen(a, nesting, depth).Some?
    ensures MatchParen(a + b, nesting, depth) == Some(MatchParen(a, nesting, depth).value + b)
    decreases |a|, 1
  {
    DropOfConcat(a, b, 1);
    if a[0] == '\\' && |a| > 1 {
      DropOfConcat(a, b, 2);
      MatchParenExtends(a[2..], b, nesting, depth);
    } else if IsQuote(a[0]) {
      PastQuotesExtends(a, b, depth);
      MatchParenExtends(PastQuotes(a, depth).value, b, nesting, depth);
    } else {
      var inner := Nest(a[0], nesting);
      if a[0] != ')' || inner != 0 {
        assert |a| > 1;
        MatchParenExtends(a[1..], b, inner, depth);
      }
    }
  }

  lemma {:induction false} SkipBodyExtends(a: string, b: string, doc: HereDoc)
    requires SkipBody(a, doc) != ""
    ensures SkipBody(a + b, doc) == SkipBody(a, doc) + b
    decreases |a|
  {
    var end := FindChar(a, '\n');
    FindCharExtends(a, b, '\n');
    DropOfConcat(a, b, end + 1);
    assert (a + b)[..end] == a[..end];
    if !Terminates(a[..end], doc) {
      SkipBodyExtends(a[end + 1..], b, doc);
    }
  }

  lemma {:induction false} SkipBodiesExtend(a: string, b: string, docs: seq<HereDoc>)
    requires SkipBodies(a, docs) != ""
    ensures SkipBodies(a + b, docs) == SkipBodies(a, docs) + b
    decreases |docs|
  {
    if docs != [] {
      if SkipBody(a, docs[0]) == "" {
        SkipBodiesOfNothing(docs[1..]);
      }
      SkipBodyExtends(a, b, docs[0]);
      SkipBodiesExtend(SkipBody(a, docs[0]), b, docs[1..]);
    }
  }

  lemma {:induction false} SkipBodiesOfNothing(docs: seq<HereDoc>)
    ensures SkipBodies("", docs) == ""
    decreases |docs|
  {
    if docs != [] {
      SkipBodiesOfNothing(docs[1..]);
    }
  }

  // -- operators -----------------------------------------------------------

  predicate LongestFirst(ops: seq<string>) {
    forall i, j | 0 <= i <= j < |ops| :: |ops[j]| <= |ops[i]|
  }

  lemma {:induction false} FirstPrefixIsLongest(ops: seq<string>, s: string, op: string)
    requires LongestFirst(ops) && op in ops && op <= s
    ensures FirstPrefix(ops, s).Some? && FirstPrefix(ops, s).value <= s
    ensures |op| <= |FirstPrefix(ops, s).value|
  {
    if !(ops[0] <= s) {
      FirstPrefixIsLongest(ops[1..], s, op);
    }
  }

  lemma OperatorTable(op: string)
    requires op in OPERATORS
    ensures 1 <= |op| <= 3
    ensures forall c <- op :: IsOperatorChar(c)
  {
    var i :| 0 <= i < |OPERATORS| && OPERATORS[i] == op;
  }

  predicate IsOperatorChar(c: char) {
    c == '<' || c == '-' || c == '>' || c == '&' || c == '|' || c == ';' || c == '(' || c == ')'
  }

  predicate HasOnlyOperatorChars(ops: seq<string>) {
    forall op <- ops :: 1 <= |op| <= 3 && forall c <- op :: IsOperatorChar(c)
  }

  lemma OperatorTableChars()
    ensures HasOnlyOperatorChars(OPERATORS)
  {
    forall op <- OPERATORS
      ensures 1 <= |op| <= 3 && forall c <- op :: IsOperatorChar(c)
    {
      OperatorTable(op);
    }
  }

  lemma OperatorTableOrder()
    ensures LongestFirst(OPERATORS)
  {
    forall i, j | 0 <= i <= j < |OPERATORS|
      ensures |OPERATORS[j]| <= |OPERATORS[i]|
    {
      assert |OPERATORS[i]| == if i < 2 then 3 else if i < 10 then 2 else 1;
      assert |OPERATORS[j]| == if j < 2 then 3 else if j < 10 then 2 else 1;
    }
  }

  // The table's order makes the first match the longest one.
  lemma LongestOperatorWins(s: string, op: string)
    requires op in OPERATORS && op <= s
    ensures MatchOperator(s).Some? && MatchOperator(s).value <= s && |op| <= |MatchOperator(s).value|
  {
    OperatorTableOrder();
    FirstPrefixIsLongest(OPERATORS, s, op);
  }

  // An operator does not change with what follows a text that goes on after it, because a blank
  // cannot be a part of one.
  lemma OperatorExtends(a: string, b: string)
    requires |a| >= 2 && (|a| == 2 ==> IsBlank(a[1]))
    ensures MatchOperator(a + b) == MatchOperator(a)
  {
    OperatorTableChars();
    FirstPrefixExtends(OPERATORS, a, b);
  }

  lemma {:induction false} FirstPrefixExtends(ops: seq<string>, a: string, b: string)
    requires HasOnlyOperatorChars(ops) && |a| >= 2 && (|a| == 2 ==> IsBlank(a[1]))
    ensures FirstPrefix(ops, a + b) == FirstPrefix(ops, a)
  {
    if ops != [] {
      FitsBeforeBlank(a, b, ops[0]);
      FirstPrefixExtends(ops[1..], a, b);
    }
  }

  lemma FitsBeforeBlank(a: string, b: string, op: string)
    requires |a| >= 2 && (|a| == 2 ==> IsBlank(a[1]))
    requires |op| <= 3 && forall c <- op :: IsOperatorChar(c)
    ensures op <= a + b <==> op <= a
  {
    if op <= a + b {
      assert |op| > 1 ==> op[1] in op && op[1] == (a + b)[1] == a[1];
      assert |op| <= |a|;
      assert op == (a + b)[..|op|] == a[..|op|];
    }
  }

  // An operator is read as itself if what follows could not belong to an operator.
  lemma OperatorBefore(op: string, s: string)
    requires op in OPERATORS && s != "" && !IsOperatorChar(s[0])
    ensures MatchOperator(op + s) == Some(op)
  {
    OperatorTableChars();
    LongestOperatorWins(op + s, op);
    PrefixEndsAt(op, s, MatchOperator(op + s).value);
  }

  lemma PrefixEndsAt(op: string, s: string, found: string)
    requires s != "" && !IsOperatorChar(s[0])
    requires found <= op + s && |op| <= |found| && forall c <- found :: IsOperatorChar(c)
    ensures found == op
  {
    var all := op + s;
    assert forall k | 0 <= k < |found| :: found[k] == all[k] && found[k] in found;
    assert all[|op|] == s[0];
    assert |found| <= |op|;
    assert found == all[..|op|] == op;
  }

  lemma OperatorHead(s: string)
    requires MatchOperator(s).Some?
    ensures s != "" && IsOperatorChar(s[0])
  {
    var op := MatchOperator(s).value;
    OperatorTable(op);
    assert s[0] == op[0] && op[0] in op;
  }

  lemma OneStep(s: string, st: LexState)
    requires s != "" && Step(s, st).More?
    ensures LexFrom(s, st) == Step(s, st).out + LexFrom(Step(s, st).rest, Step(s, st).st)
  {
  }

  // No other turn of the main loop begins like an operator.
  lemma OperatorTurn(s: string, st: LexState, op: string)
    requires MatchOperator(s) == Some(op)
    ensures s != "" && Step(s, st) == OperatorStep(op, s, st)
  {
    OperatorHead(s);
    PlainTurn(s, st);
  }

  lemma PlainTurn(s: string, st: LexState)
    requires s != "" && IsOperatorChar(s[0])
    ensures Step(s, st) == StepPlain(s, st)
  {
    OperatorOpensNoGroup(s);
  }

  lemma OperatorOpensNoGroup(s: string)
    requires s != "" && IsOperatorChar(s[0])
    ensures !AtSubstitution(s) && !("$'" <= s) && !IsQuote(s[0]) && !IsBlank(s[0])
  {
  }
}
