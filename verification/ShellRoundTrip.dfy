// The lexer on printed trees: it gives the tree's own tokens exactly as long as the tree fits its bound,
// and exactly these tokens up to where it gives up when it does not.
module ShellRoundTrip {
  import opened Wrappers
  import opened Sequences
  import opened ShellSyntax
  import opened ShellLocality
  import opened ShellQuoting
  import opened ShellTrees
  import opened ShellMatcher

  // Whatever comes after it, `a` emits `out` and adds `text` to the open word if `ok`; otherwise the lexer
  // gives up in it with `out` emitted.
  ghost predicate Emits(a: string, ok: bool, text: string, out: seq<Token>) {
    forall s: string, st: LexState {:trigger LexFrom(a + s, st)} :: LexFrom(a + s, st) == GoneOn(ok, text, out, s, st)
  }

  function GoneOn(ok: bool, text: string, out: seq<Token>, s: string, st: LexState): seq<Token> {
    if ok then out + LexFrom(s, AddText(st, text)) else out
  }

  lemma EmitsBoth(a: string, b: string, ok: bool, text: string, out: seq<Token>,
                  ok': bool, text': string, out': seq<Token>)
    requires Emits(a, ok, text, out) && Emits(b, ok', text', out')
    ensures Emits(a + b, ok && ok', text + text', if ok then out + out' else out)
  {
    forall s: string, st: LexState
      ensures LexFrom(a + b + s, st)
           == GoneOn(ok && ok', text + text', if ok then out + out' else out, s, st)
    {
      Associate(a, b, s);
      AddTextTwice(st, text, text');
      Associate(out, out', LexFrom(s, AddText(st, text + text')));
    }
  }

  // -- words ---------------------------------------------------------------------

  lemma LiteralEmits(p: Piece)
    requires CanRender(p)
    ensures Emits(Render(p), true, p.text, [])
  {
    PieceAdds(p);
    forall s: string, st: LexState
      ensures LexFrom(Render(p) + s, st) == GoneOn(true, p.text, [], s, st)
    {
      assert [] + LexFrom(s, AddText(st, p.text)) == LexFrom(s, AddText(st, p.text));
    }
  }

  // A scan of a group decides what the lexer makes of it.
  lemma GroupDecides(all: string, st: LexState, sub: Scan)
    requires AtSubstitution(all) && all[0] == '$' && sub == Substitution(all, 0)
    ensures LexFrom(all, st)
         == if sub.Closed? then sub.subs + LexFrom(sub.rest, AddText(st, sub.text)) else sub.subs
  {
    assert all[1] == '(';
    assert Step(all, st) == StepOverGroup(all, st) == Glued(st, sub);
  }

  lemma QuotesDecide(all: string, st: LexState, run: Scan)
    requires all != "" && all[0] == '"' && run == DoubleBody(all[1..], 0)
    ensures LexFrom(all, st)
         == if run.Closed? then run.subs + LexFrom(run.rest, AddText(st, run.text)) else run.subs
  {
    assert Step(all, st) == StepOverGroup(all, st) == Glued(st, run);
  }

  lemma InnerEmits(body: seq<Item>)
    requires IsCommand(body)
    ensures var ok := Need(body) <= MAX_NEST;
            Emits("$(" + (Print(body) + ")"), ok, [SUBST_MARK], if ok then [Token(Print(body), Subst)] else [])
  {
    var a, ok := "$(" + (Print(body) + ")"), Need(body) <= MAX_NEST;
    var out: seq<Token> := if ok then [Token(Print(body), Subst)] else [];
    forall s: string, st: LexState
      ensures LexFrom(a + s, st) == GoneOn(ok, [SUBST_MARK], out, s, st)
    {
      SubstitutionOfPrinted(body, s, 0);
      GroupDecides(a + s, st, Substitution(a + s, 0));
    }
  }

  lemma QuotedEmits(text: string, inners: seq<Within>)
    requires AreInners(inners)
    ensures Emits("\"" + (EscapeForDouble(text) + PrintInners(inners)) + "\"", NeedOfInners(inners) <= MAX_NEST,
                  text + InnersText(inners), InnersOut(inners, 0))
  {
    QuotedGoesOn(text, inners, 0);
    RunEmits(EscapeForDouble(text) + PrintInners(inners), NeedOfInners(inners) <= MAX_NEST,
             text + InnersText(inners), InnersOut(inners, 0));
  }

  lemma RunGoneOn(body: string, ok: bool, text: string, out: seq<Token>, s: string, st: LexState)
    requires DoubleBody(body + ("\"" + s), 0) == if ok then After(text, out, DoubleBody("\"" + s, 0)) else Unclosed(out)
    ensures LexFrom("\"" + body + "\"" + s, st) == GoneOn(ok, text, out, s, st)
  {
    var all := "\"" + body + "\"" + s;
    assert all[0] == '"' && all[1..] == body + ("\"" + s);
    DoubleBodyEnds(s, 0);
    assert text + "" == text && out + [] == out;
    QuotesDecide(all, st, DoubleBody(all[1..], 0));
  }

  lemma RunEmits(body: string, ok: bool, text: string, out: seq<Token>)
    requires GoesOn(body, 0, ok, text, out)
    ensures Emits("\"" + body + "\"", ok, text, out)
  {
    forall s: string, st: LexState
      ensures LexFrom("\"" + body + "\"" + s, st) == GoneOn(ok, text, out, s, st)
    {
      RunGoneOn(body, ok, text, out, s, st);
    }
  }

  // What a part emits before the lexer is through with it or gives up.
  function PartOut(part: Part): seq<Token> {
    match part
    case Literal(_) => []
    case Inner(body) => if Need(body) <= MAX_NEST then [Token(Print(body), Subst)] else []
    case Quoted(_, inners) => InnersOut(inners, 0)
  }

  function PartsOut(parts: seq<Part>): seq<Token> {
    if parts == [] then []
    else PartOut(parts[0]) + (if DepthOfPart(parts[0]) <= MAX_NEST then PartsOut(parts[1..]) else [])
  }

  lemma PartEmits(part: Part)
    requires IsPart(part)
    ensures Emits(PrintPart(part), DepthOfPart(part) <= MAX_NEST, PartText(part), PartOut(part))
  {
    match part
    case Literal(p) => LiteralEmits(p);
    case Inner(body) => InnerEmits(body);
    case Quoted(text, inners) => QuotedEmits(text, inners);
  }

  lemma {:induction false} PartsEmit(parts: seq<Part>)
    requires parts != [] && AreParts(parts)
    ensures Emits(PrintParts(parts), DepthOfParts(parts) <= MAX_NEST, PartsText(parts), PartsOut(parts))
    decreases |parts|
  {
    var ok := DepthOfPart(parts[0]) <= MAX_NEST;
    PartEmits(parts[0]);
    if |parts| == 1 {
      assert parts[1..] == [];
      OnePart(parts[0]);
      assert parts == [parts[0]];
    } else {
      PartsEmit(parts[1..]);
      EmitsBoth(PrintPart(parts[0]), PrintParts(parts[1..]), ok, PartText(parts[0]), PartOut(parts[0]),
                DepthOfParts(parts[1..]) <= MAX_NEST, PartsText(parts[1..]), PartsOut(parts[1..]));
      assert PartOut(parts[0]) + [] == PartOut(parts[0]);
    }
  }

  lemma OnePart(part: Part)
    ensures PrintParts([part]) == PrintPart(part) && PartsText([part]) == PartText(part)
    ensures PartsOut([part]) == PartOut(part) && DepthOfParts([part]) == DepthOfPart(part)
  {
    assert [part][1..] == [];
    assert PrintPart(part) + "" == PrintPart(part) && PartText(part) + "" == PartText(part);
    assert PartOut(part) + [] == PartOut(part);
  }

  lemma WordEnds(text: string, s: string)
    ensures LexFrom([' '] + s, AddText(START, text)) == [Token(text, Word)] + LexFrom(s, START)
  {
    var st := AddText(START, text);
    assert st.buf == text && ([' '] + s)[1..] == s;
    assert Step([' '] + s, st) == More([Token(text, Word)], s, START);
  }

  lemma OperatorLex(op: string, s: string)
    requires IsPlainOperator(op)
    ensures LexFrom(op + ([' '] + s), START) == [Token(op, Op)] + LexFrom([' '] + s, START)
  {
    var all := op + ([' '] + s);
    assert all[|op|..] == [' '] + s;
    if op == "\n" {
      assert Step(all, START) == More([Token("\n", Op)], [' '] + s, START);
    } else {
      OperatorBefore(op, [' '] + s);
      OperatorTurn(all, START, op);
    }
  }

  lemma BlankLex(s: string)
    ensures LexFrom([' '] + s, START) == LexFrom(s, START)
  {
    assert ([' '] + s)[1..] == s;
    assert Step([' '] + s, START) == More([], s, START);
  }

  // -- commands ------------------------------------------------------------------

  // What an item emits before the lexer is through with it or gives up.
  function ItemOut(item: Item): seq<Token> {
    match item
    case OpItem(op) => [Token(op, Op)]
    case WordItem(parts) =>
      PartsOut(parts) + (if DepthOfParts(parts) <= MAX_NEST then [Token(PartsText(parts), Word)] else [])
  }

  function CommandOut(c: seq<Item>): seq<Token> {
    if c == [] then []
    else ItemOut(c[0]) + (if DepthOfItem(c[0]) <= MAX_NEST then CommandOut(c[1..]) else [])
  }

  lemma ItemLex(item: Item, tail: string)
    requires IsItem(item)
    ensures LexFrom(PrintItem(item) + ([' '] + tail), START)
         == ItemOut(item) + (if DepthOfItem(item) <= MAX_NEST then LexFrom(tail, START) else [])
  {
    match item
    case OpItem(op) =>
      OperatorLex(op, tail);
      BlankLex(tail);
    case WordItem(parts) =>
      PartsEmit(parts);
      WordEnds(PartsText(parts), tail);
      assert "" + PartsText(parts) == PartsText(parts);
      Associate(PartsOut(parts), [Token(PartsText(parts), Word)], LexFrom(tail, START));
      assert PartsOut(parts) + [] + [] == PartsOut(parts);
  }

  lemma PrintSplit(c: seq<Item>, s: string)
    requires c != []
    ensures Print(c) + s == PrintItem(c[0]) + ([' '] + (Print(c[1..]) + s))
  {
    Associate(PrintItem(c[0]), [' '] + Print(c[1..]), s);
    Associate([' '], Print(c[1..]), s);
  }

  // Every quoted metacharacter stays data and every printed operator is one token, before whatever text;
  // where the tree goes beyond the bound, the rest of the text is lost.
  lemma {:induction false} PrintedCommandLexes(c: seq<Item>, s: string)
    requires IsCommand(c)
    ensures LexFrom(Print(c) + s, START) == CommandOut(c) + (if Fits(c) then LexFrom(s, START) else [])
    decreases |c|
  {
    if c == [] {
      assert Print(c) + s == s && [] + LexFrom(s, START) == LexFrom(s, START);
    } else {
      PrintedCommandLexes(c[1..], s);
      ItemLex(c[0], Print(c[1..]) + s);
      PrintSplit(c, s);
      Associate(ItemOut(c[0]), CommandOut(c[1..]), if Fits(c[1..]) then LexFrom(s, START) else []);
      assert ItemOut(c[0]) + [] + [] == ItemOut(c[0]) + [];
    }
  }

  // -- exactly within the bound ----------------------------------------------------

  lemma {:induction false} PartsOutWithinBound(parts: seq<Part>)
    ensures DepthOfParts(parts) <= MAX_NEST ==> PartsOut(parts) == PartsTokens(parts)
    ensures DepthOfParts(parts) > MAX_NEST ==> |PartsOut(parts)| < |PartsTokens(parts)|
    decreases |parts|
  {
    if parts != [] {
      PartsOutWithinBound(parts[1..]);
      if parts[0].Quoted? {
        InnersOutWithinBound(parts[0].inners, 0);
      }
    }
  }

  lemma {:induction false} OutWithinBound(c: seq<Item>)
    ensures Fits(c) ==> CommandOut(c) == Tokens(c)
    ensures !Fits(c) ==> |CommandOut(c)| < |Tokens(c)|
    decreases |c|
  {
    if c != [] {
      OutWithinBound(c[1..]);
      if c[0].WordItem? {
        PartsOutWithinBound(c[0].parts);
      }
    }
  }

  // A printed tree lexes to its own tokens exactly if it fits the bound.
  lemma LexOfPrintedExactly(c: seq<Item>)
    requires IsCommand(c)
    ensures Lex(Print(c)) == CommandOut(c)
    ensures Lex(Print(c)) == Tokens(c) <==> Fits(c)
  {
    PrintedCommandLexes(c, "");
    OutWithinBound(c);
    assert Print(c) + "" == Print(c);
    assert CommandOut(c) + [] == CommandOut(c);
  }

  // `"$("$(…)")"`: `n` substitutions inside each other, each in double quotes.
  function Nested(n: nat): seq<Item> {
    if n == 0 then [] else [WordItem([Quoted("", [Within(Nested(n - 1), "")])])]
  }

  lemma {:induction false} NestedNeeds(n: nat)
    ensures IsCommand(Nested(n)) && Need(Nested(n)) == 2 * n && Depth(Nested(n)) == if n == 0 then 0 else 2 * n - 1
  {
    if n > 0 {
      NestedNeeds(n - 1);
      NestedOnce(Nested(n - 1));
    }
  }

  lemma NestedOnce(body: seq<Item>)
    requires IsCommand(body)
    ensures var c := [WordItem([Quoted("", [Within(body, "")])])];
            IsCommand(c) && Need(c) == 2 + Need(body) && Depth(c) == 1 + Need(body)
  {
    var inners := [Within(body, "")];
    var parts := [Quoted("", inners)];
    var c := [WordItem(parts)];
    assert inners[1..] == [] && parts[1..] == [] && c[1..] == [];
    assert AreInners([]) && AreInners(inners) && NeedOfInners(inners) == 1 + Need(body);
    assert IsPart(parts[0]) && AreParts([]) && AreParts(parts) && IsItem(c[0]);
    assert NeedOfParts([]) == 0 && NeedOfPart(parts[0]) == 2 + Need(body);
    assert NeedOfParts(parts) == 2 + Need(body) && DepthOfParts(parts) == 1 + Need(body);
    assert NeedOfItem(c[0]) == 2 + Need(body) && Need([]) == 0;
    assert IsCommand([]);
  }

  // Of these 32 are read and 33 are not: the lexer gives up and emits nothing at all.
  lemma NestingIsBounded(n: nat)
    ensures Lex(Print(Nested(n))) == Tokens(Nested(n)) <==> n <= 32
    ensures n > 32 ==> Lex(Print(Nested(n))) == []
  {
    NestedNeeds(n);
    LexOfPrintedExactly(Nested(n));
    if n > 32 {
      NestedNeeds(n - 1);
      NothingOut(Nested(n - 1));
    }
  }

  lemma NothingOut(body: seq<Item>)
    requires Need(body) >= MAX_NEST
    ensures CommandOut([WordItem([Quoted("", [Within(body, "")])])]) == []
  {
    var inners := [Within(body, "")];
    var parts := [Quoted("", inners)];
    var c := [WordItem(parts)];
    assert InnersOut(inners, 0) == [];
    assert parts[1..] == [] && c[1..] == [] && inners[1..] == [];
    assert DepthOfPart(parts[0]) > MAX_NEST && DepthOfParts(parts) > MAX_NEST;
    assert PartsOut(parts) == [] && ItemOut(c[0]) == [];
  }

  // -- exactly which literals --------------------------------------------------------

  // `$(…)` around one literal that the lexer reads back by itself is read back, as one substitution and a
  // word that is its mark, exactly if the literal is not `$'…'` around a quote.
  lemma LiteralReadsBackExactly(p: Piece)
    requires CanRender(p)
    ensures Lex("$(" + (Render(p) + ")")) == [Token(Render(p), Subst), Token([SUBST_MARK], Word)] <==> IsNestable(p)
  {
    PieceNeverStartsWithParen(p);
    if IsNestable(p) {
      PiecePasses(p, 1, 0);
      InnerReadsBack(Render(p));
    } else {
      QuoteHidesTheEnd(p.text, 1, 0);
      assert "$'" + EscapeForAnsiC(p.text) + "')" == Render(p) + ")";
      InnerIsLost(Render(p));
    }
  }

  lemma InnerReadsBack(printed: string)
    requires printed != "" && printed[0] != '(' && Passes(printed, 1, 0, true)
    ensures Lex("$(" + (printed + ")")) == [Token(printed, Subst), Token([SUBST_MARK], Word)]
  {
    var s := "$(" + (printed + ")");
    assert s + "" == s;
    SubstitutionOf(printed, "", 0, true);
    GroupDecides(s, START, Substitution(s, 0));
    var st := AddText(START, [SUBST_MARK]);
    assert st.buf == [SUBST_MARK] && LexFrom("", st) == [Token([SUBST_MARK], Word)];
  }

  lemma InnerIsCutShort(inner: string)
    requires inner != "" && inner[0] != '(' && MatchParen(inner, 1, 0) != Some("")
    ensures AtSubstitution("$(" + inner) && ("$(" + inner)[0] == '$'
    ensures var sub := Substitution("$(" + inner, 0);
            && (sub.Closed? ==> |sub.subs| == 1 && |sub.subs[0].text| + 1 < |inner|)
            && (sub.Unclosed? ==> sub.subs == [])
  {
    var s := "$(" + inner;
    assert s[0] == '$' && s[1] == '(' && s[2] == inner[0];
    assert s[1..] == ['('] + inner && (['('] + inner)[0] == '(' && (['('] + inner)[1..] == inner;
    assert MatchParen(s[1..], 0, 0) == MatchParen(inner, 1, 0);
  }

  lemma InnerIsLost(printed: string)
    requires printed != "" && printed[0] != '(' && MatchParen(printed + ")", 1, 0) != Some("")
    ensures Lex("$(" + (printed + ")")) != [Token(printed, Subst), Token([SUBST_MARK], Word)]
  {
    var s := "$(" + (printed + ")");
    InnerIsCutShort(printed + ")");
    var sub := Substitution(s, 0);
    GroupDecides(s, START, sub);
    if sub.Closed? {
      assert Lex(s) == sub.subs + LexFrom(sub.rest, AddText(START, sub.text));
      assert Lex(s)[0] == sub.subs[0];
    }
  }

  lemma QuoteNeverCloses(nesting: int)
    ensures MatchParen("'\\'')", nesting, 0) == None
  {
    var quoted := "'\\'')";
    assert quoted[1..] == "\\'')" && "\\'')"[1..] == "'')";
    assert FindChar(quoted[1..], '\'') == 1;
    assert quoted[3..] == "')" && PastQuotes(quoted, 0) == Some("')");
    assert "')"[1..] == ")" && ")"[1..] == "";
    assert FindChar(")", '\'') == -1;
    assert PastQuotes("')", 0) == None;
  }

  lemma UnclosedInnerIsLost(inner: string)
    requires inner != "" && inner[0] != '(' && MatchParen(inner, 1, 0) == None
    ensures Lex("$(" + inner) == []
  {
    var s := "$(" + inner;
    InnerIsCutShort(inner);
    assert s[1..] == ['('] + inner && (['('] + inner)[0] == '(' && (['('] + inner)[1..] == inner;
    assert MatchParen(s[1..], 0, 0) == None;
    GroupDecides(s, START, Substitution(s, 0));
  }

  // `$($'\'')`: the matcher takes the escaped quote for the closing one, finds no end of the substitution,
  // and the word that the substitution stands in is lost.
  lemma AnsiQuoteHidesTheEnd()
    ensures Lex("$(" + "$'\\'')") == []
  {
    var quoted, inner := "'\\'')", "$'\\'')";
    QuoteNeverCloses(1);
    PlainPasses('$', 1, 0);
    assert inner == ['$'] + quoted;
    UnclosedInnerIsLost(inner);
  }
}
