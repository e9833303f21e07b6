// What each form of the shell's syntax comes to, written out: comments, line continuations, arithmetic,
// escapes, operators, quotes that never close, and the lines that end a here-document.
module ShellForms {
  import opened Wrappers
  import opened ShellSyntax
  import opened ShellLocality
  import opened ShellComposition
  import opened ShellQuoting
  import opened ShellTrees
  import opened ShellMatcher

  // -- comments ----------------------------------------------------------------------

  lemma CommentIsSkipped(x: string, s: string, st: LexState)
    requires '\n' !in x && !st.inWord
    ensures LexFrom("#" + x + "\n" + s, st) == LexFrom("\n" + s, st)
  {
    var all := "#" + x + "\n" + s;
    FindNewline("#" + x, s);
    assert all[0] == '#' && all[|x| + 1..] == "\n" + s;
    assert Step(all, st) == More([], "\n" + s, st);
  }

  lemma LastCommentIsSkipped(x: string, st: LexState)
    requires '\n' !in x && !st.inWord
    ensures LexFrom("#" + x, st) == []
  {
    var all := "#" + x;
    NoNewline(all);
    assert all[0] == '#' && Step(all, st) == Stop(st);
  }

  lemma {:induction false} NoNewline(s: string)
    requires '\n' !in s
    ensures FindChar(s, '\n') < 0
  {
    if s != "" {
      NoNewline(s[1..]);
    }
  }

  // A `#` where a word could start hides the rest of its line and nothing else.
  lemma CommentIsSilent(p: string, x: string, s: string)
    requires EndsCleanly(p) && '\n' !in x
    ensures Lex(p + ("#" + x + "\n" + s)) == Lex(p) + ([Token("\n", Op)] + Lex(s))
    ensures Lex(p + ("#" + x)) == Lex(p)
  {
    LexComposes(p, "#" + x + "\n" + s);
    CommentIsSkipped(x, s, START);
    LexOfSeparator("\n", s);
    LexComposes(p, "#" + x);
    LastCommentIsSkipped(x, START);
    assert Lex(p) + [] == Lex(p);
  }

  // Inside a word it is a character like any other.
  lemma HashInWordIsText(ps: seq<Piece>, s: string)
    requires ps != [] && forall p <- ps :: CanRender(p)
    ensures Lex(RenderAll(ps) + ("#" + s)) == LexFrom(s, AddText(START, TextOf(ps) + "#"))
  {
    PiecesJoin(ps, "#" + s, START);
    BareHead("#", s, AddText(START, TextOf(ps)));
    assert "#"[1..] + s == s;
    AddTextTwice(START, TextOf(ps), "#");
  }

  // -- escapes outside quotes ----------------------------------------------------------

  lemma ContinuationIsSkipped(s: string, st: LexState)
    ensures LexFrom("\\\n" + s, st) == LexFrom(s, st)
  {
    var all := "\\\n" + s;
    assert all[0] == '\\' && all[1] == '\n' && all[2..] == s;
    assert Step(all, st) == More([], s, st);
  }

  // A backslash before a line end joins the lines: it neither ends a word nor a command.
  lemma ContinuationJoins(ps: seq<Piece>, s: string)
    requires ps != [] && forall p <- ps :: CanRender(p)
    ensures Lex(RenderAll(ps) + ("\\\n" + s)) == Lex(RenderAll(ps) + s)
    ensures Lex("\\\n" + s) == Lex(s)
  {
    PiecesJoin(ps, "\\\n" + s, START);
    PiecesJoin(ps, s, START);
    ContinuationIsSkipped(s, AddText(START, TextOf(ps)));
    ContinuationIsSkipped(s, START);
  }

  // A backslash with nothing after it is dropped, and the word before it is kept.
  lemma LastBackslashIsDropped(ps: seq<Piece>)
    requires ps != [] && forall p <- ps :: CanRender(p)
    ensures Lex(RenderAll(ps) + "\\") == [Token(TextOf(ps), Word)]
  {
    var st := AddText(START, TextOf(ps));
    PiecesJoin(ps, "\\", START);
    assert st.buf == TextOf(ps) && Step("\\", st) == Stop(st);
  }

  // -- words and operators ---------------------------------------------------------------

  // A space, a tab and a carriage return end a word and are nothing by themselves.
  lemma BlanksEndWords(ps: seq<Piece>, c: char, s: string)
    requires ps != [] && (forall p <- ps :: CanRender(p)) && (c == ' ' || c == '\t' || c == '\r')
    ensures Lex(RenderAll(ps) + ([c] + s)) == [Token(TextOf(ps), Word)] + Lex(s)
    ensures Lex([c] + s) == Lex(s)
  {
    PiecesJoin(ps, [c] + s, START);
    var st := AddText(START, TextOf(ps));
    assert ([c] + s)[0] == c && ([c] + s)[1..] == s && st.buf == TextOf(ps);
    assert Step([c] + s, st) == More([Token(TextOf(ps), Word)], s, START);
    assert Step([c] + s, START) == More([], s, START);
  }

  // The operators that announce no here-document.
  const PLAIN_OPERATORS: set<string> := {
    "&&", "||", "|&", ";;", ">>", ">&", "&>", "<<<", ";", "&", "|", "(", ")", "<", ">"
  }

  lemma PlainOperatorsAreOperators(op: string)
    requires op in PLAIN_OPERATORS
    ensures op in OPERATORS && op != "<<" && op != "<<-" && op != ""
  {
    assert OPERATORS[0] == "<<<" && OPERATORS[3] == "&&" && OPERATORS[4] == "||" && OPERATORS[5] == "|&";
    assert OPERATORS[6] == ";;" && OPERATORS[7] == ">>" && OPERATORS[8] == ">&" && OPERATORS[9] == "&>";
    assert OPERATORS[10] == ";" && OPERATORS[11] == "&" && OPERATORS[12] == "|" && OPERATORS[13] == "(";
    assert OPERATORS[14] == ")" && OPERATORS[15] == "<" && OPERATORS[16] == ">";
  }

  // Every operator ends the word before it and is one token, without any blanks around it.
  lemma OperatorsSplitWords(ps: seq<Piece>, op: string, s: string)
    requires ps != [] && (forall p <- ps :: CanRender(p))
    requires op in PLAIN_OPERATORS && s != "" && !IsOperatorChar(s[0])
    ensures Lex(RenderAll(ps) + (op + s)) == [Token(TextOf(ps), Word), Token(op, Op)] + Lex(s)
  {
    var st := AddText(START, TextOf(ps));
    PlainOperatorsAreOperators(op);
    PiecesJoin(ps, op + s, START);
    OperatorBefore(op, s);
    OperatorTurn(op + s, st, op);
    assert (op + s)[|op|..] == s && st.buf == TextOf(ps);
    assert OperatorStep(op, op + s, st) == More([Token(TextOf(ps), Word), Token(op, Op)], s, START);
    OneStep(op + s, st);
  }

  // -- quotes and substitutions that never close ---------------------------------------------

  // Whatever is open, a single quote that never closes loses the word and all that comes after it.
  lemma UnclosedSingleIsLost(x: string, st: LexState)
    requires FindChar(x, '\'') < 0
    ensures LexFrom("'" + x, st) == []
  {
    assert ("'" + x)[0] == '\'' && ("'" + x)[1..] == x;
    assert Step("'" + x, st) == Abandon([]);
  }

  lemma UnclosedDoubleIsLost(w: string, st: LexState)
    ensures LexFrom("\"" + EscapeForDouble(w), st) == []
  {
    var all := "\"" + EscapeForDouble(w);
    DoubleBodyOfEscaped(w, "", 0);
    assert EscapeForDouble(w) + "" == EscapeForDouble(w);
    assert all[0] == '"' && all[1..] == EscapeForDouble(w);
    assert Step(all, st) == Abandon([]);
  }

  lemma {:induction false} AnsiBodyNeverCloses(w: string)
    ensures AnsiBody(EscapeForAnsiC(w)) == Unclosed([])
  {
    if w != "" {
      AnsiBodyNeverCloses(w[1..]);
      AnsiBodyOfHead(w[0], EscapeForAnsiC(w[1..]));
    }
  }

  lemma UnclosedAnsiIsLost(w: string, st: LexState)
    ensures LexFrom("$'" + EscapeForAnsiC(w), st) == []
  {
    var all := "$'" + EscapeForAnsiC(w);
    AnsiBodyNeverCloses(w);
    assert all[0] == '$' && all[1] == '\'' && all[2..] == EscapeForAnsiC(w);
    assert Step(all, st) == Abandon([]);
  }

  lemma {:induction false} BacktickBodyNeverCloses(w: string)
    ensures BacktickBody(EscapeForBacktick(w)) == Unclosed([])
  {
    if w != "" {
      var all, tail := EscapeForBacktick(w), EscapeForBacktick(w[1..]);
      BacktickBodyNeverCloses(w[1..]);
      if IsBacktickEscapable(w[0]) {
        assert all == ['\\', w[0]] + tail && all[2..] == tail;
      } else {
        assert all == [w[0]] + tail && all[1..] == tail;
      }
    }
  }

  lemma UnclosedBacktickIsLost(w: string, st: LexState)
    ensures LexFrom("`" + EscapeForBacktick(w), st) == []
  {
    var all := "`" + EscapeForBacktick(w);
    BacktickBodyNeverCloses(w);
    assert all[0] == '`' && all[1..] == EscapeForBacktick(w);
    assert Step(all, st) == Abandon([]);
  }

  lemma UnclosedParenIsLost(c: seq<Item>, st: LexState)
    requires IsCommand(c)
    ensures LexFrom("$(" + Print(c), st) == []
  {
    var all := "$(" + Print(c);
    CommandPasses(c, 1, 0);
    assert Print(c) + "" == Print(c);
    assert all[0] == '$' && all[1] == '(' && all[1..] == ['('] + Print(c) && (['('] + Print(c))[1..] == Print(c);
    assert MatchParen(all[1..], 0, 0) == MatchParen(Print(c), 1, 0) == None;
    assert Substitution(all, 0) == Unclosed([]);
    assert Step(all, st) == StepOverGroup(all, st) == Abandon([]);
  }

  lemma UnclosedDoubleBody(body: string, text: string, out: seq<Token>)
    requires GoesOn(body, 0, true, text, out)
    ensures DoubleBody(body, 0) == Unclosed(out)
  {
    assert body + "" == body && out + [] == out;
  }

  lemma AbandonedQuote(body: string, out: seq<Token>, st: LexState)
    requires DoubleBody(body, 0) == Unclosed(out)
    ensures LexFrom("\"" + body, st) == out
  {
    var all := "\"" + body;
    assert all[0] == '"' && all[1..] == body;
    assert Step(all, st) == Abandon(out);
  }

  // A double quote that never closes keeps the substitutions that were read inside it.
  lemma UnclosedQuoteKeepsSubstitutions(text: string, inners: seq<Within>, st: LexState)
    requires AreInners(inners)
    ensures LexFrom("\"" + (EscapeForDouble(text) + PrintInners(inners)), st) == InnersOut(inners, 0)
  {
    var body := EscapeForDouble(text) + PrintInners(inners);
    QuotedGoesOn(text, inners, 0);
    if NeedOfInners(inners) <= MAX_NEST {
      UnclosedDoubleBody(body, text + InnersText(inners), InnersOut(inners, 0));
    } else {
      assert body + "" == body;
    }
    AbandonedQuote(body, InnersOut(inners, 0), st);
  }

  // In all five cases the words before stay, and nothing else is left.
  lemma UnclosedWordIsLost(p: string, x: string, w: string, c: seq<Item>)
    requires EndsCleanly(p) && FindChar(x, '\'') < 0 && IsCommand(c)
    ensures Lex(p + ("'" + x)) == Lex(p + ("\"" + EscapeForDouble(w))) == Lex(p + ("$'" + EscapeForAnsiC(w))) == Lex(p)
    ensures Lex(p + ("`" + EscapeForBacktick(w))) == Lex(p + ("$(" + Print(c))) == Lex(p)
  {
    LexComposes(p, "'" + x);
    LexComposes(p, "\"" + EscapeForDouble(w));
    LexComposes(p, "$'" + EscapeForAnsiC(w));
    LexComposes(p, "`" + EscapeForBacktick(w));
    LexComposes(p, "$(" + Print(c));
    UnclosedSingleIsLost(x, START);
    UnclosedDoubleIsLost(w, START);
    UnclosedAnsiIsLost(w, START);
    UnclosedBacktickIsLost(w, START);
    UnclosedParenIsLost(c, START);
    assert Lex(p) + [] == Lex(p);
  }

  // -- escapes inside quotes -----------------------------------------------------------------

  // The letters that stand for another character after a backslash in `$'…'`.
  const ANSI_LETTERS: map<char, char> := map[
    'n' := '\n', 't' := '\t', 'r' := '\r', 'a' := '\U{0007}', 'b' := '\U{0008}', 'f' := '\U{000C}',
    'v' := '\U{000B}', 'e' := '\U{001B}', 'E' := '\U{001B}', '0' := '\0']

  lemma AnsiEscapesAre(c: char)
    ensures Lex(['$', '\'', '\\', c, '\'']) == [Token([if c in ANSI_LETTERS then ANSI_LETTERS[c] else c], Word)]
  {
    var body := ['\\', c, '\''];
    assert body[2..] == "'" && "'"[1..] == "";
    assert AnsiBody("'") == Closed("", "", []);
    assert [AnsiEscape(c)] + "" == [AnsiEscape(c)];
    assert AnsiBody(body) == Closed("", [AnsiEscape(c)], []);
    AnsiStep(body, "", [AnsiEscape(c)], START);
    assert "$'" + body == ['$', '\'', '\\', c, '\''];
    OneWordLeft([AnsiEscape(c)]);
    assert AnsiEscape(c) == if c in ANSI_LETTERS then ANSI_LETTERS[c] else c;
  }

  lemma OneWordLeft(text: string)
    ensures LexFrom("", AddText(START, text)) == [Token(text, Word)]
  {
    assert "" + text == text;
  }

  lemma EscapedDoubleBody(c: char)
    requires IsDoubleEscapable(c)
    ensures DoubleBody(['\\', c, '"'], 0) == Closed("", if c == '\n' then "" else [c], [])
  {
    var body := ['\\', c, '"'];
    assert body[2..] == "\"" && "\""[1..] == "";
    assert DoubleBody("\"", 0) == Closed("", "", []);
  }

  lemma UnescapedDoubleBody(c: char)
    requires !IsDoubleEscapable(c)
    ensures DoubleBody(['\\', c, '"'], 0) == Closed("", ['\\', c], [])
  {
    var body := ['\\', c, '"'];
    assert body[1..] == [c, '"'] && [c, '"'][1..] == "\"" && "\""[1..] == "";
    assert DoubleBody("\"", 0) == Closed("", "", []);
    assert !AtSubstitution(body) && !AtSubstitution([c, '"']);
    assert DoubleBody([c, '"'], 0) == After([c], [], DoubleBody("\"", 0)) == Closed("", [c], []);
    assert DoubleBody(body, 0) == After(['\\'], [], DoubleBody([c, '"'], 0));
    assert ['\\'] + [c] == ['\\', c];
  }

  // Inside double quotes a backslash escapes a quote, a backslash, `$` and a backtick, joins lines, and is a
  // character like any other before anything else.
  lemma DoubleEscapesAre(c: char)
    ensures Lex(['"', '\\', c, '"'])
         == [Token(if c == '\n' then ""
                   else if c == '"' || c == '\\' || c == '$' || c == '`' then [c]
                   else ['\\', c], Word)]
  {
    var body, text := ['\\', c, '"'], if c == '\n' then "" else if IsDoubleEscapable(c) then [c] else ['\\', c];
    if IsDoubleEscapable(c) {
      EscapedDoubleBody(c);
    } else {
      UnescapedDoubleBody(c);
    }
    DoubleStep(body, "", text, START);
    assert "\"" + body == ['"', '\\', c, '"'];
    OneWordLeft(text);
  }

  // Inside backticks it escapes `$`, a backtick and a backslash, and stays where it is before anything else.
  lemma BacktickEscapesAre(c: char)
    ensures Lex(['`', '\\', c, '`'])
         == [Token(if c == '$' || c == '`' || c == '\\' then [c] else ['\\', c], Subst), Token([SUBST_MARK], Word)]
  {
    var text := if IsBacktickEscapable(c) then [c] else ['\\', c];
    BacktickEscapeBody(c);
    assert ['`', '\\', c, '`'][1..] == ['\\', c, '`'];
    BacktickWord(['`', '\\', c, '`'], text);
  }

  lemma BacktickEscapeBody(c: char)
    ensures BacktickBody(['\\', c, '`']) == Closed("", if IsBacktickEscapable(c) then [c] else ['\\', c], [])
  {
    var body := ['\\', c, '`'];
    assert body[2..] == "`" && body[..2] == ['\\', c] && "`"[1..] == "";
    assert BacktickBody("`") == Closed("", "", []);
    assert [c] + "" == [c] && ['\\', c] + "" == ['\\', c];
  }

  lemma BacktickWord(all: string, text: string)
    requires all != "" && all[0] == '`' && BacktickBody(all[1..]) == Closed("", text, [])
    ensures Lex(all) == [Token(text, Subst), Token([SUBST_MARK], Word)]
  {
    assert Step(all, START) == More([Token(text, Subst)], "", AddText(START, [SUBST_MARK]));
    OneWordLeft([SUBST_MARK]);
    assert Lex(all) == [Token(text, Subst)] + [Token([SUBST_MARK], Word)];
  }

  // A backtick substitution is live inside double quotes.
  lemma BacktickInDoubleQuotes(w: string)
    ensures Lex("\"" + ("`" + EscapeForBacktick(w) + "`" + "\"")) == [Token(w, Subst), Token([SUBST_MARK], Word)]
  {
    var inner := "`" + EscapeForBacktick(w) + "`" + "\"";
    assert inner[0] == '`' && inner[1..] == EscapeForBacktick(w) + "`" + "\"";
    BacktickBodyOfEscaped(w, "\"");
    assert Substitution(inner, 1) == Closed("\"", [SUBST_MARK], [Token(w, Subst)]);
    assert "\""[1..] == "" && DoubleBody("\"", 0) == Closed("", "", []);
    assert [SUBST_MARK] + "" == [SUBST_MARK] && [Token(w, Subst)] + [] == [Token(w, Subst)];
    assert DoubleBody(inner, 0) == Closed("", [SUBST_MARK], [Token(w, Subst)]);
    var all := "\"" + inner;
    assert all[0] == '"' && all[1..] == inner;
    assert Step(all, START) == More([Token(w, Subst)], "", AddText(START, [SUBST_MARK]));
    OneWordLeft([SUBST_MARK]);
  }

  // -- text that is not escaped --------------------------------------------------------------

  predicate IsPlainInParens(x: string) {
    forall c <- x :: c != '\\' && c != '\'' && c != '"' && c != '(' && c != ')'
  }

  lemma {:induction false} PlainTextPasses(x: string, s: string, nesting: int, depth: nat)
    requires IsPlainInParens(x) && depth <= MAX_NEST
    ensures MatchParen(x + s, nesting, depth) == MatchParen(s, nesting, depth)
  {
    if x == "" {
      assert x + s == s;
    } else {
      assert x[0] in x && forall c <- x[1..] :: c in x;
      assert (x + s)[0] == x[0] && (x + s)[1..] == x[1..] + s;
      PlainTextPasses(x[1..], s, nesting, depth);
    }
  }

  lemma PlainParens(x: string, s: string)
    requires IsPlainInParens(x)
    ensures MatchParen(['('] + (x + ([')'] + s)), 0, 0) == Some(s)
  {
    var parens := ['('] + (x + ([')'] + s));
    PlainTextPasses(x, [')'] + s, 1, 0);
    assert parens[0] == '(' && parens[1..] == x + ([')'] + s) && ([')'] + s)[0] == ')' && ([')'] + s)[1..] == s;
  }

  lemma PlainSubstitution(x: string, s: string)
    requires IsPlainInParens(x)
    ensures DollarParen("$(" + (x + ([')'] + s)), 0) == Closed(s, [SUBST_MARK], [Token(x, Subst)])
  {
    var all := "$(" + (x + ([')'] + s));
    PlainParens(x, s);
    assert x != "" ==> x[0] in x;
    assert all[0] == '$' && all[1] == '(' && all[2] != '(' && all[1..] == ['('] + (x + ([')'] + s));
    assert all[2..|all| - |s| - 1] == x;
  }

  // Without a backslash, a quote or a parenthesis the text of a substitution is handed over as it is: neither
  // comments nor backticks nor line ends mean anything to the matcher of parentheses.
  lemma PlainTextIsHandedOver(x: string, s: string, st: LexState)
    requires IsPlainInParens(x)
    ensures LexFrom("$(" + (x + ([')'] + s)), st) == [Token(x, Subst)] + LexFrom(s, AddText(st, [SUBST_MARK]))
  {
    var all := "$(" + (x + ([')'] + s));
    PlainSubstitution(x, s);
    assert all[0] == '$' && all[1] == '(';
    assert Step(all, st) == StepOverGroup(all, st);
  }

  predicate IsPlainInDouble(x: string) {
    forall i | 0 <= i < |x| ::
      x[i] != '"' && x[i] != '\\' && x[i] != '`' && (x[i] == '$' && i + 1 < |x| ==> x[i + 1] != '(')
  }

  lemma {:induction false} PlainDoubleBody(x: string, s: string)
    requires IsPlainInDouble(x)
    ensures DoubleBody(x + "\"" + s, 0) == Closed(s, x, [])
  {
    if x == "" {
      assert (x + "\"" + s)[0] == '"' && (x + "\"" + s)[1..] == s;
    } else {
      var all, rest := x + "\"" + s, x[1..] + "\"" + s;
      PlainDoubleBody(x[1..], s);
      assert all[0] == x[0] && all[1..] == rest;
      assert all[1] == if |x| > 1 then x[1] else '"';
      assert !AtSubstitution(all);
      assert [x[0]] + x[1..] == x;
    }
  }

  // Inside double quotes a dollar that opens no substitution, a single quote, a line end and everything else
  // that is not special there stand for themselves.
  lemma PlainTextInDoubleQuotes(x: string, s: string, st: LexState)
    requires IsPlainInDouble(x)
    ensures LexFrom("\"" + (x + "\"" + s), st) == LexFrom(s, AddText(st, x))
  {
    PlainDoubleBody(x, s);
    DoubleStep(x + "\"" + s, s, x, st);
  }

  lemma {:induction false} PlainBacktickBody(x: string, s: string)
    requires forall c <- x :: c != '`' && c != '\\'
    ensures BacktickBody(x + "`" + s) == Closed(s, x, [])
  {
    if x == "" {
      assert (x + "`" + s)[0] == '`' && (x + "`" + s)[1..] == s;
    } else {
      assert x[0] in x && forall c <- x[1..] :: c in x;
      assert (x + "`" + s)[0] == x[0] && (x + "`" + s)[1..] == x[1..] + "`" + s;
      PlainBacktickBody(x[1..], s);
      assert [x[0]] + x[1..] == x;
    }
  }

  // Between backticks everything but a backtick and a backslash stands for itself.
  lemma PlainTextInBackticks(x: string, s: string, st: LexState)
    requires forall c <- x :: c != '`' && c != '\\'
    ensures LexFrom("`" + (x + "`" + s), st) == [Token(x, Subst)] + LexFrom(s, AddText(st, [SUBST_MARK]))
  {
    var all := "`" + (x + "`" + s);
    PlainBacktickBody(x, s);
    assert all[0] == '`' && all[1..] == x + "`" + s;
    assert Step(all, st) == StepOverGroup(all, st) == More([Token(x, Subst)], s, AddText(st, [SUBST_MARK]));
  }

  // -- arithmetic ------------------------------------------------------------------------------

  lemma TwoParensPass(inner: string, s: string)
    requires Passes(inner, 2, 0, true)
    ensures MatchParen(['('] + (['('] + (inner + ([')'] + ([')'] + s)))), 0, 0) == Some(s)
  {
    var tail := inner + ([')'] + ([')'] + s));
    assert (['('] + (['('] + tail))[0] == '(' && (['('] + (['('] + tail))[1..] == ['('] + tail;
    ParenOpens(tail, 1, 0);
    ParenCloses([')'] + s, 1, 0);
    assert ([')'] + s)[0] == ')' && ([')'] + s)[1..] == s;
    assert MatchParen([')'] + s, 1, 0) == Some(s);
  }

  lemma DoubleParenIsSilent(inner: string, s: string, st: LexState)
    requires Passes(inner, 2, 0, true)
    ensures LexFrom(['$'] + (['('] + (['('] + (inner + ([')'] + ([')'] + s))))), st)
         == LexFrom(s, AddText(st, [SUBST_MARK]))
  {
    var parens := ['('] + (['('] + (inner + ([')'] + ([')'] + s))));
    var all := ['$'] + parens;
    TwoParensPass(inner, s);
    assert all[0] == '$' && all[1] == '(' && all[2] == '(' && all[1..] == parens;
    assert Substitution(all, 0) == Closed(s, [SUBST_MARK], []);
    assert Step(all, st) == StepOverGroup(all, st) == More([], s, AddText(st, [SUBST_MARK]));
  }

  // `$((…))` leaves a mark and no token, whatever printed command it holds.
  lemma ArithmeticIsSilent(c: seq<Item>, s: string, st: LexState)
    requires IsCommand(c) && Need(c) <= MAX_NEST
    ensures LexFrom("$((" + (Print(c) + ("))" + s)), st) == LexFrom(s, AddText(st, [SUBST_MARK]))
  {
    CommandPasses(c, 2, 0);
    DoubleParenIsSilent(Print(c), s, st);
    ArithmeticText(Print(c), s);
  }

  lemma ArithmeticText(inner: string, s: string)
    ensures "$((" + (inner + ("))" + s)) == ['$'] + (['('] + (['('] + (inner + ([')'] + ([')'] + s)))))
  {
    assert "))" + s == [')'] + ([')'] + s);
  }

  // -- the end of a here-document -----------------------------------------------------------------

  predicate IsAll(s: string, c: char) {
    forall x <- s :: x == c
  }

  lemma {:induction false} TabsStripped(s: string) returns (tabs: string)
    ensures s == tabs + StripLeadingTabs(s) && IsAll(tabs, '\t')
    ensures StripLeadingTabs(s) == "" || StripLeadingTabs(s)[0] != '\t'
  {
    if s != "" && s[0] == '\t' {
      var more := TabsStripped(s[1..]);
      tabs := "\t" + more;
    } else {
      tabs := "";
    }
  }

  lemma {:induction false} ReturnsStripped(s: string) returns (ends: string)
    ensures s == StripTrailingReturns(s) + ends && IsAll(ends, '\r')
    ensures var r := StripTrailingReturns(s); r == "" || r[|r| - 1] != '\r'
    decreases |s|
  {
    if s != "" && s[|s| - 1] == '\r' {
      var more := ReturnsStripped(s[..|s| - 1]);
      ends := more + "\r";
    } else {
      ends := "";
    }
  }

  lemma {:induction false} StripTabs(tabs: string, s: string)
    requires IsAll(tabs, '\t') && (s == "" || s[0] != '\t')
    ensures StripLeadingTabs(tabs + s) == s
  {
    if tabs == "" {
      assert tabs + s == s;
    } else {
      assert tabs[0] in tabs && forall x <- tabs[1..] :: x in tabs;
      assert (tabs + s)[0] == '\t' && (tabs + s)[1..] == tabs[1..] + s;
      StripTabs(tabs[1..], s);
    }
  }

  lemma {:induction false} StripReturns(s: string, ends: string)
    requires IsAll(ends, '\r') && (s == "" || s[|s| - 1] != '\r')
    ensures StripTrailingReturns(s + ends) == s
    decreases |ends|
  {
    if ends == "" {
      assert s + ends == s;
    } else {
      var n := |ends| - 1;
      assert ends[n] in ends && forall x <- ends[..n] :: x in ends;
      assert (s + ends)[|s + ends| - 1] == '\r' && (s + ends)[..|s + ends| - 1] == s + ends[..n];
      StripReturns(s, ends[..n]);
    }
  }

  // `tabs`, the delimiter and `ends` make up the line.
  ghost predicate IsLineOf(line: string, doc: HereDoc, tabs: string, ends: string) {
    line == tabs + (doc.delim + ends) && IsAll(tabs, '\t') && IsAll(ends, '\r') && (tabs == "" || doc.stripTabs)
  }

  // A delimiter that the stripping would reach into ends nothing.
  predicate CanEnd(doc: HereDoc) {
    doc.delim == ""
    || (doc.delim[|doc.delim| - 1] != '\r' && (doc.stripTabs ==> doc.delim[0] != '\t'))
  }

  lemma TerminatorIsLine(line: string, doc: HereDoc)
    requires Terminates(line, doc)
    ensures exists tabs, ends :: IsLineOf(line, doc, tabs, ends)
  {
    var candidate := if doc.stripTabs then StripLeadingTabs(line) else line;
    var tabs := "";
    if doc.stripTabs {
      tabs := TabsStripped(line);
    }
    var ends := ReturnsStripped(candidate);
    assert tabs + candidate == line;
    assert IsLineOf(line, doc, tabs, ends);
  }

  lemma LineIsTerminator(line: string, doc: HereDoc, tabs: string, ends: string)
    requires CanEnd(doc) && IsLineOf(line, doc, tabs, ends)
    ensures Terminates(line, doc)
  {
    assert doc.delim == "" && ends != "" ==> ends[0] in ends;
    if doc.stripTabs {
      StripTabs(tabs, doc.delim + ends);
    } else {
      assert line == doc.delim + ends;
    }
    StripReturns(doc.delim, ends);
  }

  // A line ends a here-document exactly if it is the delimiter, after tabs where these are stripped, and
  // before carriage returns.
  lemma TerminatesExactly(line: string, doc: HereDoc)
    requires CanEnd(doc)
    ensures Terminates(line, doc) <==> exists tabs, ends :: IsLineOf(line, doc, tabs, ends)
  {
    if Terminates(line, doc) {
      TerminatorIsLine(line, doc);
    }
    if tabs, ends :| IsLineOf(line, doc, tabs, ends) {
      LineIsTerminator(line, doc, tabs, ends);
    }
  }

  // Without such a line, the here-document takes the rest of the command; so does one that ends on its
  // last line.
  lemma {:induction false} UnendedBodyTakesAll(lines: seq<string>, last: string, doc: HereDoc)
    requires (forall line <- lines :: '\n' !in line && !Terminates(line, doc)) && '\n' !in last
    ensures SkipBody(LinesText(lines) + last, doc) == ""
    decreases |lines|
  {
    if lines == [] {
      NoNewline(last);
      assert LinesText(lines) + last == last;
    } else {
      var rest := LinesText(lines[1..]) + last;
      var s := lines[0] + "\n" + rest;
      FindNewline(lines[0], rest);
      assert LinesText(lines) + last == s && s[..|lines[0]|] == lines[0] && s[|lines[0]| + 1..] == rest;
      UnendedBodyTakesAll(lines[1..], last, doc);
    }
  }

  // A here-document operator at the end of a line takes its delimiter from the next one.
  lemma DelimiterMayComeLater(s: string, docs: seq<HereDoc>, stripTabs: bool)
    ensures LexFrom("\n" + s, LexState("", false, docs, Some(stripTabs)))
         == [Token("\n", Op)] + LexFrom(SkipBodies(s, docs), LexState("", false, [], Some(stripTabs)))
  {
    var st := LexState("", false, docs, Some(stripTabs));
    assert ("\n" + s)[0] == '\n' && ("\n" + s)[1..] == s;
    assert Step("\n" + s, st)
        == More([Token("\n", Op)], SkipBodies(s, docs), LexState("", false, [], Some(stripTabs)));
  }

  // It waits over blanks and over any other operator.
  lemma DelimiterIsAwaited(s: string, docs: seq<HereDoc>, stripTabs: bool, c: char, op: string)
    requires c == ' ' || c == '\t' || c == '\r'
    requires op in PLAIN_OPERATORS && s != "" && !IsOperatorChar(s[0])
    ensures var st := LexState("", false, docs, Some(stripTabs));
            LexFrom([c] + s, st) == LexFrom(s, st) && LexFrom(op + s, st) == [Token(op, Op)] + LexFrom(s, st)
  {
    var st := LexState("", false, docs, Some(stripTabs));
    assert ([c] + s)[0] == c && ([c] + s)[1..] == s;
    assert Step([c] + s, st) == More([], s, st);
    PlainOperatorsAreOperators(op);
    OperatorBefore(op, s);
    OperatorTurn(op + s, st, op);
    assert (op + s)[|op|..] == s && OperatorStep(op, op + s, st) == More([Token(op, Op)], s, st);
    OneStep(op + s, st);
  }
}
