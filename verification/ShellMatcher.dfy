// The matcher of parentheses on printed text: it steps over a printed command whole, exactly as long as
// double quotes and substitutions nest no deeper than its bound, and exactly over which literals.
module ShellMatcher {
  import opened Wrappers
  import opened Sequences
  import opened ShellSyntax
  import opened ShellQuoting
  import opened ShellTrees

  // The matcher steps over `a` if `ok`, and otherwise gives up in it, whatever comes after it.
  ghost predicate Passes(a: string, nesting: int, depth: nat, ok: bool) {
    forall s: string :: MatchParen(a + s, nesting, depth) == if ok then MatchParen(s, nesting, depth) else None
  }

  lemma PassesBoth(a: string, b: string, nesting: int, depth: nat, ok: bool, ok': bool)
    requires Passes(a, nesting, depth, ok) && Passes(b, nesting, depth, ok')
    ensures Passes(a + b, nesting, depth, ok && ok')
  {
    forall s: string
      ensures MatchParen(a + b + s, nesting, depth) == if ok && ok' then MatchParen(s, nesting, depth) else None
    {
      Associate(a, b, s);
    }
  }

  lemma NothingPasses(nesting: int, depth: nat)
    ensures Passes("", nesting, depth, true)
  {
    forall s: string
      ensures MatchParen("" + s, nesting, depth) == MatchParen(s, nesting, depth)
    {
      assert "" + s == s;
    }
  }

  // -- literals ----------------------------------------------------------------

  lemma PlainPasses(c: char, nesting: int, depth: nat)
    requires !IsQuote(c) && c != '\\' && c != '(' && c != ')' && depth <= MAX_NEST
    ensures Passes([c], nesting, depth, true)
  {
    forall s: string
      ensures MatchParen([c] + s, nesting, depth) == MatchParen(s, nesting, depth)
    {
      assert ([c] + s)[0] == c && ([c] + s)[1..] == s;
    }
  }

  lemma EscapePasses(c: char, nesting: int, depth: nat)
    requires depth <= MAX_NEST
    ensures Passes(['\\', c], nesting, depth, true)
  {
    forall s: string
      ensures MatchParen(['\\', c] + s, nesting, depth) == MatchParen(s, nesting, depth)
    {
      assert (['\\', c] + s)[0] == '\\' && (['\\', c] + s)[2..] == s;
    }
  }

  lemma SingleRunPasses(w: string, nesting: int, depth: nat)
    requires FindChar(w, '\'') < 0 && depth <= MAX_NEST
    ensures Passes("'" + w + "'", nesting, depth, true)
  {
    forall s: string
      ensures MatchParen("'" + w + "'" + s, nesting, depth) == MatchParen(s, nesting, depth)
    {
      var all := "'" + w + "'" + s;
      assert all[1..] == w + "'" + s;
      FindQuote(w, s);
      assert all[|w| + 2..] == s;
      assert PastQuotes(all, depth) == Some(s);
    }
  }

  lemma {:induction false} SinglePasses(w: string, nesting: int, depth: nat)
    requires depth <= MAX_NEST
    ensures Passes(SingleQuoted(w), nesting, depth, true)
    decreases |w|
  {
    var k := FindChar(w, '\'');
    if k < 0 {
      SingleRunPasses(w, nesting, depth);
    } else {
      NoQuoteBefore(w);
      SingleRunPasses(w[..k], nesting, depth);
      EscapePasses('\'', nesting, depth);
      SinglePasses(w[k + 1..], nesting, depth);
      PassesBoth(['\\', '\''], SingleQuoted(w[k + 1..]), nesting, depth, true, true);
      PassesBoth("'" + w[..k] + "'", ['\\', '\''] + SingleQuoted(w[k + 1..]), nesting, depth, true, true);
    }
  }

  lemma {:induction false} NoQuoteInEscaped(w: string)
    requires FindChar(w, '\'') < 0
    ensures FindChar(EscapeForAnsiC(w), '\'') < 0
  {
    if w != "" {
      NoQuoteInEscaped(w[1..]);
      var tail := EscapeForAnsiC(w[1..]);
      assert (['\\', w[0]] + tail)[1..] == [w[0]] + tail && ([w[0]] + tail)[1..] == tail;
    }
  }

  lemma DollarFirst(w: string)
    ensures "$" + ("'" + w + "'") == "$'" + w + "'"
  {
  }

  lemma AnsiPasses(w: string, nesting: int, depth: nat)
    requires FindChar(w, '\'') < 0 && depth <= MAX_NEST
    ensures Passes("$'" + EscapeForAnsiC(w) + "'", nesting, depth, true)
  {
    NoQuoteInEscaped(w);
    PlainPasses('$', nesting, depth);
    SingleRunPasses(EscapeForAnsiC(w), nesting, depth);
    PassesBoth("$", "'" + EscapeForAnsiC(w) + "'", nesting, depth, true, true);
    DollarFirst(EscapeForAnsiC(w));
  }

  lemma {:induction false} BackslashPasses(w: string, nesting: int, depth: nat)
    requires depth <= MAX_NEST
    ensures Passes(EscapeEvery(w), nesting, depth, true)
    decreases |w|
  {
    if w == "" {
      NothingPasses(nesting, depth);
    } else {
      EscapePasses(w[0], nesting, depth);
      BackslashPasses(w[1..], nesting, depth);
      PassesBoth(['\\', w[0]], EscapeEvery(w[1..]), nesting, depth, true, true);
    }
  }

  lemma {:induction false} TextPasses(w: string, nesting: int, depth: nat)
    requires depth <= MAX_NEST && forall c <- w :: !IsQuote(c) && c != '\\' && c != '(' && c != ')'
    ensures Passes(w, nesting, depth, true)
    decreases |w|
  {
    if w == "" {
      NothingPasses(nesting, depth);
    } else {
      assert w[0] in w && forall c <- w[1..] :: c in w;
      PlainPasses(w[0], nesting, depth);
      TextPasses(w[1..], nesting, depth);
      PassesBoth([w[0]], w[1..], nesting, depth, true, true);
      assert [w[0]] + w[1..] == w;
    }
  }

  // -- inside double quotes ------------------------------------------------------

  // Inside double quotes at level `depth`, `a` adds `text` and emits `out` if `ok`; otherwise the scan
  // gives up in it with `out` emitted.
  ghost predicate GoesOn(a: string, depth: nat, ok: bool, text: string, out: seq<Token>) {
    forall s: string ::
      DoubleBody(a + s, depth) == if ok then After(text, out, DoubleBody(s, depth)) else Unclosed(out)
  }

  lemma GoesOnBoth(a: string, b: string, depth: nat, ok: bool, text: string, out: seq<Token>,
                   ok': bool, text': string, out': seq<Token>)
    requires GoesOn(a, depth, ok, text, out) && GoesOn(b, depth, ok', text', out')
    ensures GoesOn(a + b, depth, ok && ok', text + text', if ok then out + out' else out)
  {
    forall s: string
      ensures DoubleBody(a + b + s, depth)
           == if ok && ok' then After(text + text', out + out', DoubleBody(s, depth))
              else Unclosed(if ok then out + out' else out)
    {
      Associate(a, b, s);
      AfterAfter(text, out, text', out', DoubleBody(s, depth));
    }
  }

  lemma TextGoesOn(w: string, depth: nat)
    requires depth <= MAX_NEST
    ensures GoesOn(EscapeForDouble(w), depth, true, w, [])
  {
    forall s: string
      ensures DoubleBody(EscapeForDouble(w) + s, depth) == After(w, [], DoubleBody(s, depth))
    {
      DoubleBodyOfEscaped(w, s, depth);
    }
  }

  // What is emitted inside double quotes before the scan is through or gives up.
  function InnersOut(inners: seq<Within>, depth: nat): seq<Token> {
    if inners == [] || depth + 1 + Need(inners[0].body) > MAX_NEST then []
    else [Token(Print(inners[0].body), Subst)] + InnersOut(inners[1..], depth)
  }

  lemma {:induction false} InnersOutWithinBound(inners: seq<Within>, depth: nat)
    ensures depth + NeedOfInners(inners) <= MAX_NEST ==> InnersOut(inners, depth) == InnersTokens(inners)
    ensures depth <= MAX_NEST < depth + NeedOfInners(inners) ==> |InnersOut(inners, depth)| < |InnersTokens(inners)|
  {
    if inners != [] {
      InnersOutWithinBound(inners[1..], depth);
    }
  }

  lemma {:induction false} InnersGoOn(inners: seq<Within>, depth: nat)
    requires AreInners(inners) && depth <= MAX_NEST
    ensures GoesOn(PrintInners(inners), depth, depth + NeedOfInners(inners) <= MAX_NEST, InnersText(inners),
                   InnersOut(inners, depth))
    decreases inners, 0
  {
    if inners == [] {
      TextGoesOn("", depth);
      assert EscapeForDouble("") == "";
    } else {
      var body, text, rest := inners[0].body, inners[0].text, inners[1..];
      var ok, ok' := depth + 1 + Need(body) <= MAX_NEST, depth + NeedOfInners(rest) <= MAX_NEST;
      var out: seq<Token> := if ok then [Token(Print(body), Subst)] else [];
      InnerGoesOn(body, depth);
      TextGoesOn(text, depth);
      InnersGoOn(rest, depth);
      GoesOnBoth(EscapeForDouble(text), PrintInners(rest), depth, true, text, [], ok', InnersText(rest),
                 InnersOut(rest, depth));
      assert [] + InnersOut(rest, depth) == InnersOut(rest, depth);
      GoesOnBoth("$(" + (Print(body) + ")"), EscapeForDouble(text) + PrintInners(rest), depth,
                 ok, [SUBST_MARK], out, ok', text + InnersText(rest), InnersOut(rest, depth));
    }
  }

  lemma {:induction false} InnerGoesOn(body: seq<Item>, depth: nat)
    requires IsCommand(body) && depth <= MAX_NEST
    ensures var ok := depth + 1 + Need(body) <= MAX_NEST;
            GoesOn("$(" + (Print(body) + ")"), depth, ok, [SUBST_MARK], if ok then [Token(Print(body), Subst)] else [])
    decreases body, 2
  {
    var a, ok := "$(" + (Print(body) + ")"), depth + 1 + Need(body) <= MAX_NEST;
    var out: seq<Token> := if ok then [Token(Print(body), Subst)] else [];
    forall s: string
      ensures DoubleBody(a + s, depth) == if ok then After([SUBST_MARK], out, DoubleBody(s, depth)) else Unclosed(out)
    {
      SubstitutionOfPrinted(body, s, depth + 1);
      SubstitutionGoesOn(a + s, s, depth, Substitution(a + s, depth + 1));
    }
  }

  lemma SubstitutionGoesOn(all: string, s: string, depth: nat, sub: Scan)
    requires AtSubstitution(all) && depth <= MAX_NEST && sub == Substitution(all, depth + 1) && all[0] == '$'
    requires sub.Closed? ==> sub.rest == s
    ensures DoubleBody(all, depth)
         == if sub.Closed? then After(sub.text, sub.subs, DoubleBody(s, depth)) else Unclosed(sub.subs)
  {
  }

  // -- commands ------------------------------------------------------------------

  // A printed substitution is consumed whole and its text is the printed body, unless it is too deep.
  lemma {:induction false} SubstitutionOfPrinted(body: seq<Item>, after: string, depth: nat)
    requires IsCommand(body)
    ensures var s := "$(" + (Print(body) + ")") + after;
            AtSubstitution(s) && s[0] == '$'
            && Substitution(s, depth) == if depth + Need(body) <= MAX_NEST
                                         then Closed(after, [SUBST_MARK], [Token(Print(body), Subst)])
                                         else Unclosed([])
    decreases body, 1
  {
    PrintNeverStartsWithParen(body);
    if depth <= MAX_NEST {
      CommandPasses(body, 1, depth);
    }
    SubstitutionOf(Print(body), after, depth, depth + Need(body) <= MAX_NEST);
  }

  lemma SubstitutionOf(printed: string, after: string, depth: nat, ok: bool)
    requires (printed != "" ==> printed[0] != '(') && (depth > MAX_NEST ==> !ok)
    requires depth <= MAX_NEST ==> Passes(printed, 1, depth, ok)
    ensures var s := "$(" + (printed + ")") + after;
            AtSubstitution(s) && s[0] == '$'
            && Substitution(s, depth) == if ok then Closed(after, [SUBST_MARK], [Token(printed, Subst)])
                                         else Unclosed([])
  {
    var inner := printed + ([')'] + after);
    var s := "$(" + (printed + ")") + after;
    assert s == "$(" + inner && s[0] == '$' && s[1] == '(';
    assert s[2] == inner[0] && s[1..] == ['('] + inner && (['('] + inner)[1..] == inner;
    assert ([')'] + after)[1..] == after;
    if depth <= MAX_NEST {
      assert MatchParen(s[1..], 0, depth) == MatchParen(inner, 1, depth);
      assert MatchParen([')'] + after, 1, depth) == Some(after);
      assert s[2..|s| - |after| - 1] == printed;
    }
  }

  // A printed command closes every parenthesis it opens.
  lemma {:induction false} CommandPasses(c: seq<Item>, nesting: int, depth: nat)
    requires IsCommand(c) && nesting >= 1 && depth <= MAX_NEST
    ensures Passes(Print(c), nesting, depth, depth + Need(c) <= MAX_NEST)
    decreases c, 0
  {
    if c == [] {
      NothingPasses(nesting, depth);
    } else {
      var ok, ok' := depth + NeedOfItem(c[0]) <= MAX_NEST, depth + Need(c[1..]) <= MAX_NEST;
      ItemPasses(c[0], nesting, depth);
      PlainPasses(' ', nesting, depth);
      CommandPasses(c[1..], nesting, depth);
      PassesBoth(" ", Print(c[1..]), nesting, depth, true, ok');
      PassesBoth(PrintItem(c[0]), " " + Print(c[1..]), nesting, depth, ok, ok');
    }
  }

  lemma {:induction false} ItemPasses(item: Item, nesting: int, depth: nat)
    requires IsItem(item) && nesting >= 1 && depth <= MAX_NEST
    ensures Passes(PrintItem(item), nesting, depth, depth + NeedOfItem(item) <= MAX_NEST)
    decreases item, 0
  {
    match item
    case OpItem(op) =>
      PlainOperatorText(op);
      TextPasses(op, nesting, depth);
    case WordItem(parts) =>
      PartsPass(parts, nesting, depth);
  }

  lemma {:induction false} PartsPass(parts: seq<Part>, nesting: int, depth: nat)
    requires AreParts(parts) && nesting >= 1 && depth <= MAX_NEST
    ensures Passes(PrintParts(parts), nesting, depth, depth + NeedOfParts(parts) <= MAX_NEST)
    decreases parts, 0
  {
    if parts == [] {
      NothingPasses(nesting, depth);
    } else {
      PartPasses(parts[0], nesting, depth);
      PartsPass(parts[1..], nesting, depth);
      PassesBoth(PrintPart(parts[0]), PrintParts(parts[1..]), nesting, depth,
                 depth + NeedOfPart(parts[0]) <= MAX_NEST, depth + NeedOfParts(parts[1..]) <= MAX_NEST);
    }
  }

  lemma {:induction false} PartPasses(part: Part, nesting: int, depth: nat)
    requires IsPart(part) && nesting >= 1 && depth <= MAX_NEST
    ensures Passes(PrintPart(part), nesting, depth, depth + NeedOfPart(part) <= MAX_NEST)
    decreases part, 0
  {
    match part
    case Literal(p) => PiecePasses(p, nesting, depth);
    case Inner(body) => InnerPasses(body, nesting, depth);
    case Quoted(text, inners) => QuotedPasses(text, inners, nesting, depth);
  }

  lemma {:induction false} InnerPasses(body: seq<Item>, nesting: int, depth: nat)
    requires IsCommand(body) && nesting >= 1 && depth <= MAX_NEST
    ensures Passes("$(" + (Print(body) + ")"), nesting, depth, depth + Need(body) <= MAX_NEST)
    decreases body, 1
  {
    var ok := depth + Need(body) <= MAX_NEST;
    CommandPasses(body, nesting + 1, depth);
    forall s: string
      ensures MatchParen("$(" + (Print(body) + ")") + s, nesting, depth)
           == if ok then MatchParen(s, nesting, depth) else None
    {
      PlainPasses('$', nesting, depth);
      ParensPass(Print(body), s, nesting, depth, ok);
    }
  }

  lemma ParensPass(inner: string, s: string, nesting: int, depth: nat, ok: bool)
    requires nesting >= 1 && depth <= MAX_NEST && Passes(inner, nesting + 1, depth, ok)
    requires Passes("$", nesting, depth, true)
    ensures MatchParen("$(" + (inner + ")") + s, nesting, depth) == if ok then MatchParen(s, nesting, depth) else None
  {
    var tail := inner + ([')'] + s);
    ParensText(inner, s);
    assert MatchParen("$" + (['('] + tail), nesting, depth) == MatchParen(['('] + tail, nesting, depth);
    ParenOpens(tail, nesting, depth);
    ParenCloses(s, nesting, depth);
  }

  lemma ParensText(inner: string, s: string)
    ensures "$(" + (inner + ")") + s == "$" + (['('] + (inner + ([')'] + s)))
  {
  }

  lemma ParenOpens(s: string, nesting: int, depth: nat)
    requires depth <= MAX_NEST
    ensures MatchParen(['('] + s, nesting, depth) == MatchParen(s, nesting + 1, depth)
  {
    assert (['('] + s)[0] == '(' && (['('] + s)[1..] == s;
  }

  lemma ParenCloses(s: string, nesting: int, depth: nat)
    requires nesting >= 1 && depth <= MAX_NEST
    ensures MatchParen([')'] + s, nesting + 1, depth) == MatchParen(s, nesting, depth)
  {
    assert ([')'] + s)[0] == ')' && ([')'] + s)[1..] == s;
  }

  lemma {:induction false} QuotedPasses(text: string, inners: seq<Within>, nesting: int, depth: nat)
    requires AreInners(inners) && depth <= MAX_NEST
    ensures Passes("\"" + (EscapeForDouble(text) + PrintInners(inners)) + "\"", nesting, depth,
                   depth + 1 + NeedOfInners(inners) <= MAX_NEST)
    decreases inners, 3
  {
    if depth < MAX_NEST {
      QuotedContinues(text, inners, depth + 1);
    }
    RunNeeding(EscapeForDouble(text) + PrintInners(inners), nesting, depth, NeedOfInners(inners));
  }

  lemma {:induction false} QuotedContinues(text: string, inners: seq<Within>, depth: nat)
    requires AreInners(inners) && depth <= MAX_NEST
    ensures Continues(EscapeForDouble(text) + PrintInners(inners), depth, depth + NeedOfInners(inners) <= MAX_NEST)
    decreases inners, 2
  {
    QuotedGoesOn(text, inners, depth);
    GoesOnUnseen(EscapeForDouble(text) + PrintInners(inners), depth, depth + NeedOfInners(inners) <= MAX_NEST,
                 text + InnersText(inners), InnersOut(inners, depth));
  }

  lemma RunNeeding(body: string, nesting: int, depth: nat, need: nat)
    requires depth <= MAX_NEST
    requires depth < MAX_NEST ==> Continues(body, depth + 1, depth + 1 + need <= MAX_NEST)
    ensures Passes("\"" + body + "\"", nesting, depth, depth + 1 + need <= MAX_NEST)
  {
    RunPasses(body, nesting, depth, depth + 1 + need <= MAX_NEST);
  }

  // The same, whatever it adds and emits.
  ghost predicate Continues(body: string, depth: nat, ok: bool) {
    exists text, out :: GoesOn(body, depth, ok, text, out)
  }

  lemma GoesOnUnseen(body: string, depth: nat, ok: bool, text: string, out: seq<Token>)
    requires GoesOn(body, depth, ok, text, out)
    ensures Continues(body, depth, ok)
  {
  }

  lemma {:induction false} QuotedGoesOn(text: string, inners: seq<Within>, depth: nat)
    requires AreInners(inners) && depth <= MAX_NEST
    ensures GoesOn(EscapeForDouble(text) + PrintInners(inners), depth, depth + NeedOfInners(inners) <= MAX_NEST,
                   text + InnersText(inners), InnersOut(inners, depth))
    decreases inners, 1
  {
    TextGoesOn(text, depth);
    InnersGoOn(inners, depth);
    GoesOnBoth(EscapeForDouble(text), PrintInners(inners), depth, true, text, [],
               depth + NeedOfInners(inners) <= MAX_NEST, InnersText(inners), InnersOut(inners, depth));
    assert [] + InnersOut(inners, depth) == InnersOut(inners, depth);
  }

  lemma DoubleRunPasses(body: string, nesting: int, depth: nat, ok: bool)
    requires depth < MAX_NEST && Continues(body, depth + 1, ok)
    ensures Passes("\"" + body + "\"", nesting, depth, ok)
  {
    var text, out :| GoesOn(body, depth + 1, ok, text, out);
    forall s: string
      ensures MatchParen("\"" + body + "\"" + s, nesting, depth) == if ok then MatchParen(s, nesting, depth) else None
    {
      var all := "\"" + body + "\"" + s;
      assert all[0] == '"' && all[1..] == body + ("\"" + s);
      DoubleBodyEnds(s, depth + 1);
      assert PastQuotes(all, depth) == if ok then Some(s) else None;
    }
  }

  lemma TooDeep(body: string, nesting: int, depth: nat)
    requires depth == MAX_NEST
    ensures Passes("\"" + body + "\"", nesting, depth, false)
  {
    forall s: string
      ensures MatchParen("\"" + body + "\"" + s, nesting, depth) == None
    {
      var all := "\"" + body + "\"" + s;
      assert all[0] == '"';
      assert PastQuotes(all, depth) == None;
    }
  }

  lemma DoublePasses(w: string, nesting: int, depth: nat)
    requires depth <= MAX_NEST
    ensures Passes("\"" + EscapeForDouble(w) + "\"", nesting, depth, depth < MAX_NEST)
  {
    if depth < MAX_NEST {
      TextGoesOn(w, depth + 1);
    }
    RunPasses(EscapeForDouble(w), nesting, depth, depth < MAX_NEST);
  }

  lemma RunPasses(body: string, nesting: int, depth: nat, ok: bool)
    requires depth <= MAX_NEST && (depth == MAX_NEST ==> !ok)
    requires depth < MAX_NEST ==> Continues(body, depth + 1, ok)
    ensures Passes("\"" + body + "\"", nesting, depth, ok)
  {
    if depth < MAX_NEST {
      DoubleRunPasses(body, nesting, depth, ok);
    } else {
      TooDeep(body, nesting, depth);
    }
  }

  lemma PiecePasses(p: Piece, nesting: int, depth: nat)
    requires IsNestable(p) && depth <= MAX_NEST
    ensures Passes(Render(p), nesting, depth, depth + (if p.style == Double then 1 else 0) <= MAX_NEST)
  {
    match p.style
    case Single => SinglePasses(p.text, nesting, depth);
    case Double => DoublePasses(p.text, nesting, depth);
    case AnsiC => AnsiPasses(p.text, nesting, depth);
    case Backslash => BackslashPasses(p.text, nesting, depth);
    case Bare =>
      assert forall c <- p.text :: IsBareChar(c);
      TextPasses(p.text, nesting, depth);
  }

  // The matcher steps over a printed command whole, at any nesting and any level, or finds no end in it
  // when the command needs more levels than are left.
  lemma SkipCommand(c: seq<Item>, s: string, nesting: int, depth: nat)
    requires IsCommand(c) && nesting >= 1 && depth <= MAX_NEST
    ensures MatchParen(Print(c) + s, nesting, depth)
         == if depth + Need(c) <= MAX_NEST then MatchParen(s, nesting, depth) else None
  {
    CommandPasses(c, nesting, depth);
  }

  // -- exactly which literals ------------------------------------------------------

  // The rest of a `$'…'` run, after an escape or a character of it, up to its close and the parenthesis
  // that follows. The matcher never gets to the end of such a text: it reads escapes and characters as the
  // run does, and in any quotes or substitution that it takes them to open it finds no end but in one.
  predicate IsAnsiRest(s: string) {
    s == "')"
    || (|s| > 1 && s[0] == '\\' && (s[1] == '\\' || s[1] == '\'') && IsAnsiRest(s[2..]))
    || (s != "" && s[0] != '\\' && s[0] != '\'' && IsAnsiRest(s[1..]))
  }

  lemma {:induction false} EscapedIsAnsiRest(w: string)
    ensures IsAnsiRest(EscapeForAnsiC(w) + "')")
  {
    if w == "" {
      assert EscapeForAnsiC(w) + "')" == "')";
    } else {
      EscapedIsAnsiRest(w[1..]);
      var tail := EscapeForAnsiC(w[1..]) + "')";
      if w[0] == '\\' || w[0] == '\'' {
        assert EscapeForAnsiC(w) + "')" == ['\\', w[0]] + tail && (['\\', w[0]] + tail)[2..] == tail;
      } else {
        assert EscapeForAnsiC(w) + "')" == [w[0]] + tail && ([w[0]] + tail)[1..] == tail;
      }
    }
  }

  lemma EndOfRunIsNoEnd()
    ensures FindChar(")", '\'') < 0
    ensures forall depth: nat :: DoubleBody("')", depth).Unclosed?
    ensures BacktickBody("')").Unclosed?
  {
    assert "')"[1..] == ")" && ")"[1..] == "";
    assert BacktickBody(")").Unclosed?;
    forall depth: nat
      ensures DoubleBody("')", depth).Unclosed?
    {
      assert DoubleBody("", depth).Unclosed?;
      assert DoubleBody(")", depth).Unclosed?;
    }
  }

  lemma {:induction false} BacktickLeavesRest(s: string)
    requires IsAnsiRest(s)
    ensures BacktickBody(s).Closed? ==> IsAnsiRest(BacktickBody(s).rest)
    decreases |s|
  {
    if s == "')" {
      EndOfRunIsNoEnd();
    } else if s[0] == '\\' {
      BacktickLeavesRest(s[2..]);
    } else if s[0] != '`' {
      BacktickLeavesRest(s[1..]);
    }
  }

  lemma {:induction false} DoubleLeavesRest(s: string, depth: nat)
    requires IsAnsiRest(s)
    ensures DoubleBody(s, depth).Closed? ==> IsAnsiRest(DoubleBody(s, depth).rest)
    decreases |s|, 2
  {
    if depth <= MAX_NEST {
      if s == "')" {
        EndOfRunIsNoEnd();
      } else if s[0] == '\\' {
        DoubleLeavesRest(s[2..], depth);
        EscapeInDouble(s, depth);
      } else if s[0] != '"' {
        if AtSubstitution(s) {
          SubstitutionLeavesRest(s, depth + 1);
          if Substitution(s, depth + 1).Closed? {
            DoubleLeavesRest(Substitution(s, depth + 1).rest, depth);
          }
        } else {
          DoubleLeavesRest(s[1..], depth);
        }
      }
    }
  }

  // An escape inside double quotes goes on after both its characters, or at the second, which is then one
  // like any other.
  lemma EscapeInDouble(s: string, depth: nat)
    requires |s| > 1 && s[0] == '\\' && (s[1] == '\\' || s[1] == '\'') && depth <= MAX_NEST
    ensures DoubleBody(s, depth).Closed? ==>
              DoubleBody(s[2..], depth).Closed? && DoubleBody(s, depth).rest == DoubleBody(s[2..], depth).rest
  {
    assert s[1..][1..] == s[2..];
    if s[1] == '\'' {
      assert s[1..][0] == '\'' && !AtSubstitution(s) && !AtSubstitution(s[1..]);
      assert DoubleBody(s, depth) == After([s[0]], [], DoubleBody(s[1..], depth));
      assert DoubleBody(s[1..], depth) == After(['\''], [], DoubleBody(s[2..], depth));
    }
  }

  lemma {:induction false} SubstitutionLeavesRest(s: string, depth: nat)
    requires IsAnsiRest(s) && AtSubstitution(s)
    ensures Substitution(s, depth).Closed? ==> IsAnsiRest(Substitution(s, depth).rest)
    decreases |s|, 1
  {
    if s[0] == '`' {
      BacktickLeavesRest(s[1..]);
    } else if depth <= MAX_NEST {
      MatcherLeavesRest(s[1..], 0, depth);
    }
  }

  lemma {:induction false} MatcherLeavesRest(s: string, nesting: int, depth: nat)
    requires IsAnsiRest(s)
    ensures MatchParen(s, nesting, depth).Some? ==> IsAnsiRest(MatchParen(s, nesting, depth).value)
    decreases |s|, 1
  {
    if depth <= MAX_NEST {
      if s == "')" {
        EndOfRunIsNoEnd();
        assert s[1..] == ")" && PastQuotes(s, depth).None?;
      } else if s[0] == '\\' {
        MatcherLeavesRest(s[2..], nesting, depth);
      } else if s[0] == '"' {
        DoubleLeavesRest(s[1..], depth + 1);
        if PastQuotes(s, depth).Some? {
          MatcherLeavesRest(PastQuotes(s, depth).value, nesting, depth);
        }
      } else {
        MatcherLeavesRest(s[1..], Nest(s[0], nesting), depth);
      }
    }
  }

  // What follows the first quote in a text is such a rest again.
  predicate LeavesRest(s: string) {
    var k := FindChar(s, '\'');
    k >= 0 && IsAnsiRest(s[k + 1..])
  }

  lemma LeavesRestLater(c: char, s: string)
    requires c != '\'' && LeavesRest(s)
    ensures LeavesRest([c] + s)
  {
    var k := FindChar(s, '\'');
    assert ([c] + s)[1..] == s && ([c] + s)[k + 2..] == s[k + 1..];
  }

  lemma LeavesRestHere(s: string)
    requires IsAnsiRest(s)
    ensures LeavesRest(['\''] + s)
  {
    assert (['\''] + s)[1..] == s;
  }

  // The escaped text, written out one character at a time.
  lemma EscapedHead(w: string, end: string)
    requires w != ""
    ensures EscapeForAnsiC(w) + end
         == if w[0] == '\\' || w[0] == '\'' then ['\\'] + ([w[0]] + (EscapeForAnsiC(w[1..]) + end))
            else [w[0]] + (EscapeForAnsiC(w[1..]) + end)
  {
    var more := EscapeForAnsiC(w[1..]);
    Associate([w[0]], more, end);
    Associate(['\\', w[0]], more, end);
    assert ['\\', w[0]] == ['\\'] + [w[0]];
    Associate(['\\'], [w[0]], more + end);
  }

  lemma {:induction false} RestAfterQuote(w: string)
    requires FindChar(w, '\'') >= 0
    ensures LeavesRest(EscapeForAnsiC(w) + "')")
  {
    var tail := EscapeForAnsiC(w[1..]) + "')";
    EscapedHead(w, "')");
    if w[0] == '\'' {
      EscapedIsAnsiRest(w[1..]);
      LeavesRestHere(tail);
    } else {
      RestAfterQuote(w[1..]);
      LeavesRestLater(w[0], tail);
    }
    if w[0] == '\\' || w[0] == '\'' {
      LeavesRestLater('\\', [w[0]] + tail);
    }
  }

  lemma RestIsNotTheEnd(body: string, nesting: int, depth: nat)
    requires LeavesRest(body) && depth <= MAX_NEST
    ensures MatchParen("$'" + body, nesting, depth) != Some("")
  {
    var run, rest := ['\''] + body, body[FindChar(body, '\'') + 1..];
    PlainPasses('$', nesting, depth);
    assert "$'" + body == ['$'] + run;
    assert run[1..] == body && run[FindChar(body, '\'') + 2..] == rest;
    assert PastQuotes(run, depth) == Some(rest);
    MatcherLeavesRest(rest, nesting, depth);
    assert !IsAnsiRest("");
  }

  // A quote in a `$'…'` run, and the matcher does not find the parenthesis after the run.
  lemma QuoteHidesTheEnd(w: string, nesting: int, depth: nat)
    requires FindChar(w, '\'') >= 0 && depth <= MAX_NEST
    ensures MatchParen("$'" + EscapeForAnsiC(w) + "')", nesting, depth) != Some("")
  {
    RestAfterQuote(w);
    RestIsNotTheEnd(EscapeForAnsiC(w) + "')", nesting, depth);
    Associate("$'", EscapeForAnsiC(w), "')");
  }

  // The matcher steps over the literal, wherever it stands and whatever comes after it.
  ghost predicate IsSteppedOver(p: Piece) {
    forall s: string, nesting: int :: MatchParen(Render(p) + s, nesting, 0) == MatchParen(s, nesting, 0)
  }

  // Of all the literals that the lexer reads back, the matcher steps over exactly those that are not
  // `$'…'` around a quote.
  lemma LiteralIsSteppedOverExactly(p: Piece)
    requires CanRender(p)
    ensures IsSteppedOver(p) <==> IsNestable(p)
  {
    if IsNestable(p) {
      forall s: string, nesting: int
        ensures MatchParen(Render(p) + s, nesting, 0) == MatchParen(s, nesting, 0)
      {
        PiecePasses(p, nesting, 0);
      }
    } else {
      QuoteHidesTheEnd(p.text, 1, 0);
      assert "$'" + EscapeForAnsiC(p.text) + "')" == Render(p) + ")";
      assert ")"[1..] == "" && MatchParen(")", 1, 0) == Some("");
    }
  }
}
