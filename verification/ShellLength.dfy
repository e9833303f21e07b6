// The lexer never makes text: what it emits is never longer than what it read, and the text of a
// substitution is strictly shorter than the command, so lexing it in turn must end.
module ShellLength {
  import opened ShellSyntax

  function TotalText(tokens: seq<Token>): nat {
    if tokens == [] then 0 else |tokens[0].text| + TotalText(tokens[1..])
  }

  // Every substitution among `tokens` comes from a text of length `n` that also held its delimiters.
  predicate SubstsWithin(tokens: seq<Token>, n: int) {
    forall t <- tokens :: t.kind == Subst ==> |t.text| + 2 <= n
  }

  lemma {:induction false} TotalTextOfConcat(a: seq<Token>, b: seq<Token>)
    ensures TotalText(a + b) == TotalText(a) + TotalText(b)
  {
    if a == [] {
      assert a + b == b;
    } else {
      assert (a + b)[1..] == a[1..] + b;
      TotalTextOfConcat(a[1..], b);
    }
  }

  predicate Conserves(r: Scan, n: nat) {
    && SubstsWithin(r.subs, n)
    && (r.Closed? ==> |r.text| + TotalText(r.subs) + |r.rest| < n)
    && (r.Unclosed? ==> TotalText(r.subs) <= n)
  }

  lemma AfterConserves(text: string, subs: seq<Token>, r: Scan, m: nat, n: nat)
    requires Conserves(r, m) && |text| + TotalText(subs) + m <= n && SubstsWithin(subs, n)
    ensures Conserves(After(text, subs, r), n)
  {
    TotalTextOfConcat(subs, r.subs);
  }

  lemma {:induction false} AnsiConserves(s: string)
    ensures Conserves(AnsiBody(s), |s|)
    decreases |s|
  {
    if s != "" && s[0] != '\'' {
      if s[0] == '\\' && |s| > 1 {
        AnsiConserves(s[2..]);
        AfterConserves([AnsiEscape(s[1])], [], AnsiBody(s[2..]), |s| - 2, |s|);
      } else {
        AnsiConserves(s[1..]);
        AfterConserves([s[0]], [], AnsiBody(s[1..]), |s| - 1, |s|);
      }
    }
  }

  lemma {:induction false} BacktickConserves(s: string)
    ensures Conserves(BacktickBody(s), |s|)
    decreases |s|
  {
    if s != "" && s[0] != '`' {
      if s[0] == '\\' && |s| > 1 {
        BacktickConserves(s[2..]);
        AfterConserves(if IsBacktickEscapable(s[1]) then [s[1]] else s[..2], [], BacktickBody(s[2..]), |s| - 2, |s|);
      } else {
        BacktickConserves(s[1..]);
        AfterConserves([s[0]], [], BacktickBody(s[1..]), |s| - 1, |s|);
      }
    }
  }

  lemma SubstitutionConserves(s: string, depth: nat)
    requires AtSubstitution(s)
    ensures Conserves(Substitution(s, depth), |s|)
  {
    if s[0] == '`' {
      BacktickConserves(s[1..]);
    }
    assert Substitution(s, depth).subs == [] || Substitution(s, depth).subs == [Substitution(s, depth).subs[0]];
  }

  lemma {:induction false} DoubleConserves(s: string, depth: nat)
    ensures Conserves(DoubleBody(s, depth), |s|)
    decreases |s|
  {
    if depth > MAX_NEST || s == "" || s[0] == '"' {
    } else if s[0] == '\\' && |s| > 1 && IsDoubleEscapable(s[1]) {
      DoubleConserves(s[2..], depth);
      AfterConserves(if s[1] == '\n' then "" else [s[1]], [], DoubleBody(s[2..], depth), |s| - 2, |s|);
    } else if AtSubstitution(s) {
      SubstitutionConserves(s, depth + 1);
      var sub := Substitution(s, depth + 1);
      if sub.Closed? {
        DoubleConserves(sub.rest, depth);
        AfterConserves(sub.text, sub.subs, DoubleBody(sub.rest, depth), |sub.rest|, |s|);
      }
    } else {
      DoubleConserves(s[1..], depth);
      AfterConserves([s[0]], [], DoubleBody(s[1..], depth), |s| - 1, |s|);
    }
  }

  lemma GroupConserves(s: string, st: LexState)
    requires s != "" && (IsQuote(s[0]) || "$'" <= s || AtSubstitution(s))
    ensures var r := StepOverGroup(s, st);
            && (r.More? ==> SubstsWithin(r.out, |s|)
                            && TotalText(r.out) + |r.st.buf| + |r.rest| <= |s| + |st.buf|)
            && (r.Abandon? ==> SubstsWithin(r.emitted, |s|) && TotalText(r.emitted) <= |s|)
            && !r.Stop?
  {
    if s[0] == '\'' {
    } else if "$'" <= s {
      AnsiConserves(s[2..]);
    } else if s[0] == '"' {
      DoubleConserves(s[1..], 0);
    } else {
      SubstitutionConserves(s, 0);
    }
  }

  lemma StepConserves(s: string, st: LexState)
    requires s != "" && Step(s, st).More?
    ensures SubstsWithin(Step(s, st).out, |s|)
    ensures TotalText(Step(s, st).out) + |Step(s, st).st.buf| + |Step(s, st).rest| <= |s| + |st.buf|
  {
    if IsBlank(s[0]) {
    } else if s[0] == '\n' {
      TotalTextOfConcat(FlushOut(st), [Token("\n", Op)]);
    } else if (s[0] == '#' && !st.inWord) || s[0] == '\\' {
    } else if IsQuote(s[0]) || "$'" <= s || AtSubstitution(s) {
      GroupConserves(s, st);
    } else {
      PlainConserves(s, st);
    }
  }

  lemma PlainConserves(s: string, st: LexState)
    requires s != ""
    ensures SubstsWithin(StepPlain(s, st).out, |s|)
    ensures TotalText(StepPlain(s, st).out) + |StepPlain(s, st).st.buf| + |StepPlain(s, st).rest| <= |s| + |st.buf|
  {
    match MatchOperator(s)
    case None =>
    case Some(op) => TotalTextOfConcat(FlushOut(st), [Token(op, Op)]);
  }

  lemma {:induction false} LexFromConserves(s: string, st: LexState)
    ensures TotalText(LexFrom(s, st)) <= |s| + |st.buf|
    ensures SubstsWithin(LexFrom(s, st), |s|)
    decreases |s|
  {
    if s != "" {
      var step := Step(s, st);
      if step.More? {
        StepConserves(s, st);
        LexFromConserves(step.rest, step.st);
        TotalTextOfConcat(step.out, LexFrom(step.rest, step.st));
      } else if step.Abandon? {
        GroupConserves(s, st);
      } else {
        StopKeepsBuffer(s, st);
      }
    }
  }

  lemma StopKeepsBuffer(s: string, st: LexState)
    requires s != "" && Step(s, st).Stop?
    ensures Step(s, st).last == st
  {
  }

  // The tokens of a command hold no more text than the command, and each substitution among them
  // is shorter than the command by at least its two delimiters.
  lemma LexConserves(command: string)
    ensures TotalText(Lex(command)) <= |command|
    ensures forall t <- Lex(command) :: t.kind == Subst ==> |t.text| < |command|
  {
    LexFromConserves(command, START);
  }
}
