// Writing a string so that the shell reads it back: four ways to quote, and none where none is needed,
// all of which the lexer turns into the same text, and the escaping that a backtick substitution undoes.
module ShellQuoting {
  import opened Sequences
  import opened ShellSyntax

  datatype Style = Single | Double | AnsiC | Backslash | Bare

  datatype Piece = Piece(style: Style, text: string)

  // `'…'`, with every quote inside written as `'\''`.
  function SingleQuoted(w: string): string
    decreases |w|
  {
    var k := FindChar(w, '\'');
    if k < 0 then "'" + w + "'"
    else ("'" + w[..k] + "'") + (['\\', '\''] + SingleQuoted(w[k + 1..]))
  }

  function EscapeForDouble(w: string): string {
    if w == "" then "" else DoubleHead(w[0]) + EscapeForDouble(w[1..])
  }

  function DoubleHead(c: char): string {
    if c == '"' || c == '\\' || c == '$' || c == '`' then ['\\', c] else [c]
  }

  function EscapeForAnsiC(w: string): string {
    if w == "" then ""
    else (if w[0] == '\\' || w[0] == '\'' then ['\\', w[0]] else [w[0]]) + EscapeForAnsiC(w[1..])
  }

  function EscapeEvery(w: string): string {
    if w == "" then "" else ['\\', w[0]] + EscapeEvery(w[1..])
  }

  function EscapeForBacktick(w: string): string {
    if w == "" then ""
    else (if IsBacktickEscapable(w[0]) then ['\\', w[0]] else [w[0]]) + EscapeForBacktick(w[1..])
  }

  function Render(p: Piece): string {
    match p.style
    case Single => SingleQuoted(p.text)
    case Double => "\"" + EscapeForDouble(p.text) + "\""
    case AnsiC => "$'" + EscapeForAnsiC(p.text) + "'"
    case Backslash => EscapeEvery(p.text)
    case Bare => p.text
  }

  predicate StartsOperator(c: char) {
    c == '<' || c == '>' || c == '&' || c == '|' || c == ';' || c == '(' || c == ')'
  }

  predicate IsBareChar(c: char) {
    !IsBlank(c) && c != '\n' && !IsQuote(c) && c != '\\' && c != '`' && !StartsOperator(c)
  }

  // A text that needs no quoting. It may name variables, but what follows a final `$` would belong to it.
  predicate IsBare(text: string) {
    text != "" && text[0] != '#' && text[|text| - 1] != '$' && forall c <- text :: IsBareChar(c)
  }

  // Backslashes alone can write neither the empty string nor a newline.
  predicate CanRender(p: Piece) {
    && (p.style == Backslash ==> p.text != "" && '\n' !in p.text)
    && (p.style == Bare ==> IsBare(p.text))
  }

  function RenderAll(ps: seq<Piece>): string {
    if ps == [] then "" else Render(ps[0]) + RenderAll(ps[1..])
  }

  function TextOf(ps: seq<Piece>): string {
    if ps == [] then "" else ps[0].text + TextOf(ps[1..])
  }

  lemma SingleStarts(w: string)
    ensures SingleQuoted(w) != "" && SingleQuoted(w)[0] == '\''
  {
  }

  lemma RenderStarts(p: Piece)
    requires CanRender(p)
    ensures Render(p) != ""
    ensures if p.style == Bare then Render(p)[0] == p.text[0]
            else IsQuote(Render(p)[0]) || Render(p)[0] == '$' || Render(p)[0] == '\\'
  {
    match p.style
    case Single => SingleStarts(p.text);
    case Double =>
    case AnsiC =>
    case Backslash =>
    case Bare =>
  }

  // -- one piece -----------------------------------------------------------

  lemma AddTextTwice(st: LexState, a: string, b: string)
    ensures AddText(AddText(st, a), b) == AddText(st, a + b)
  {
    assert (st.buf + a) + b == st.buf + (a + b);
  }

  lemma {:induction false} FindQuote(w: string, s: string)
    requires FindChar(w, '\'') < 0
    ensures FindChar(w + "'" + s, '\'') == |w|
    decreases |w|
  {
    if w != "" {
      assert (w + "'" + s)[1..] == w[1..] + "'" + s;
      assert (w + "'" + s)[0] == w[0];
      FindQuote(w[1..], s);
    }
  }

  lemma {:induction false} NoQuoteBefore(w: string)
    requires 0 <= FindChar(w, '\'')
    ensures FindChar(w[..FindChar(w, '\'')], '\'') < 0 && w[FindChar(w, '\'')] == '\''
    decreases |w|
  {
    if w[0] != '\'' {
      NoQuoteBefore(w[1..]);
      assert w[..FindChar(w, '\'')][1..] == w[1..][..FindChar(w[1..], '\'')];
    }
  }

  // The text `a` adds `text` to the open word and nothing else, whatever comes after it.
  ghost predicate Adds(a: string, text: string) {
    forall s: string, st: LexState :: LexFrom(a + s, st) == LexFrom(s, AddText(st, text))
  }

  lemma AddsBoth(a: string, b: string, text: string, more: string)
    requires Adds(a, text) && Adds(b, more)
    ensures Adds(a + b, text + more)
  {
    forall s: string, st: LexState
      ensures LexFrom(a + b + s, st) == LexFrom(s, AddText(st, text + more))
    {
      Associate(a, b, s);
      AddTextTwice(st, text, more);
    }
  }

  lemma PlainSingle(w: string)
    requires FindChar(w, '\'') < 0
    ensures Adds("'" + w + "'", w)
  {
    forall s: string, st: LexState
      ensures LexFrom("'" + w + "'" + s, st) == LexFrom(s, AddText(st, w))
    {
      var all := "'" + w + "'" + s;
      assert all[1..] == w + "'" + s;
      FindQuote(w, s);
      assert all[|w| + 2..] == s && all[1..|w| + 1] == w;
      assert Step(all, st) == More([], s, AddText(st, w));
    }
  }

  lemma EscapedChar(c: char)
    requires c != '\n'
    ensures Adds(['\\', c], [c])
  {
    forall s: string, st: LexState
      ensures LexFrom(['\\', c] + s, st) == LexFrom(s, AddText(st, [c]))
    {
      var all := ['\\', c] + s;
      assert all[2..] == s;
      assert Step(all, st) == More([], s, AddText(st, [c]));
    }
  }

  lemma {:induction false} SingleAdds(w: string)
    ensures Adds(SingleQuoted(w), w)
    decreases |w|
  {
    var k := FindChar(w, '\'');
    if k < 0 {
      PlainSingle(w);
    } else {
      var head, tail := w[..k], w[k + 1..];
      NoQuoteBefore(w);
      PlainSingle(head);
      EscapedChar('\'');
      SingleAdds(tail);
      AddsBoth(['\\', '\''], SingleQuoted(tail), ['\''], tail);
      AddsBoth("'" + head + "'", ['\\', '\''] + SingleQuoted(tail), head, ['\''] + tail);
      assert head + (['\''] + tail) == w;
    }
  }

  lemma {:induction false} DoubleBodyOfEscaped(w: string, s: string, depth: nat)
    requires depth <= MAX_NEST
    ensures DoubleBody(EscapeForDouble(w) + s, depth) == After(w, [], DoubleBody(s, depth))
    decreases |w|
  {
    if w == "" {
      assert EscapeForDouble(w) + s == s;
      AfterNothing(DoubleBody(s, depth));
    } else {
      var more := EscapeForDouble(w[1..]);
      DoubleBodyOfEscaped(w[1..], s, depth);
      Associate(DoubleHead(w[0]), more, s);
      DoubleBodyOfHead(w[0], more + s, depth);
      AfterAfter([w[0]], [], w[1..], [], DoubleBody(s, depth));
      assert [w[0]] + w[1..] == w;
    }
  }

  lemma DoubleBodyEnds(s: string, depth: nat)
    requires depth <= MAX_NEST
    ensures DoubleBody("\"" + s, depth) == Closed(s, "", [])
  {
    assert ("\"" + s)[0] == '"' && ("\"" + s)[1..] == s;
  }

  lemma DoubleBodyOfHead(c: char, tail: string, depth: nat)
    requires depth <= MAX_NEST
    ensures DoubleBody(DoubleHead(c) + tail, depth) == After([c], [], DoubleBody(tail, depth))
  {
    if DoubleHead(c) == [c] {
      var all := [c] + tail;
      assert all[0] == c && all[1..] == tail;
    } else {
      var all := ['\\', c] + tail;
      assert all[0] == '\\' && all[1] == c && all[2..] == tail;
    }
  }

  lemma DoubleStep(body: string, rest: string, text: string, st: LexState)
    requires DoubleBody(body, 0) == Closed(rest, text, [])
    ensures LexFrom("\"" + body, st) == LexFrom(rest, AddText(st, text))
  {
    var all := "\"" + body;
    assert all[0] == '"' && all[1..] == body;
    assert Step(all, st) == More([], rest, AddText(st, text));
  }

  lemma DoubleAdds(w: string)
    ensures Adds("\"" + EscapeForDouble(w) + "\"", w)
  {
    forall s: string, st: LexState
      ensures LexFrom("\"" + EscapeForDouble(w) + "\"" + s, st) == LexFrom(s, AddText(st, w))
    {
      DoubleBodyOfEscaped(w, "\"" + s, 0);
      DoubleBodyEnds(s, 0);
      assert w + "" == w;
      DoubleStep(EscapeForDouble(w) + ("\"" + s), s, w, st);
      Associate("\"" + EscapeForDouble(w), "\"", s);
      Associate("\"", EscapeForDouble(w), "\"" + s);
    }
  }

  lemma {:induction false} AnsiBodyOfEscaped(w: string, s: string)
    ensures AnsiBody(EscapeForAnsiC(w) + "'" + s) == Closed(s, w, [])
    decreases |w|
  {
    if w == "" {
      assert (EscapeForAnsiC(w) + "'" + s)[1..] == s;
    } else {
      var more := EscapeForAnsiC(w[1..]);
      var head := if w[0] == '\\' || w[0] == '\'' then ['\\', w[0]] else [w[0]];
      AnsiBodyOfEscaped(w[1..], s);
      Associate(head, more, "'");
      Associate(head, more + "'", s);
      AnsiBodyOfHead(w[0], more + "'" + s);
      assert [w[0]] + w[1..] == w;
    }
  }

  lemma AnsiBodyOfHead(c: char, tail: string)
    ensures AnsiBody((if c == '\\' || c == '\'' then ['\\', c] else [c]) + tail) == After([c], [], AnsiBody(tail))
  {
    assert (['\\', c] + tail)[2..] == tail;
    assert ([c] + tail)[1..] == tail;
  }

  lemma AnsiStep(body: string, rest: string, text: string, st: LexState)
    requires AnsiBody(body) == Closed(rest, text, [])
    ensures LexFrom("$'" + body, st) == LexFrom(rest, AddText(st, text))
  {
    var all := "$'" + body;
    assert all[0] == '$' && all[1] == '\'' && all[2..] == body;
    assert Step(all, st) == More([], rest, AddText(st, text));
  }

  lemma AnsiAdds(w: string)
    ensures Adds("$'" + EscapeForAnsiC(w) + "'", w)
  {
    forall s: string, st: LexState
      ensures LexFrom("$'" + EscapeForAnsiC(w) + "'" + s, st) == LexFrom(s, AddText(st, w))
    {
      AnsiBodyOfEscaped(w, s);
      AnsiStep(EscapeForAnsiC(w) + "'" + s, s, w, st);
      Associate("$'", EscapeForAnsiC(w) + "'", s);
      Associate("$'", EscapeForAnsiC(w), "'");
    }
  }

  lemma {:induction false} BackslashAdds(w: string)
    requires w != "" && '\n' !in w
    ensures Adds(EscapeEvery(w), w)
    decreases |w|
  {
    EscapedChar(w[0]);
    if |w| == 1 {
      assert w == [w[0]] && w[1..] == "";
      assert EscapeEvery(w) == ['\\', w[0]];
    } else {
      BackslashAdds(w[1..]);
      AddsBoth(['\\', w[0]], EscapeEvery(w[1..]), [w[0]], w[1..]);
      assert [w[0]] + w[1..] == w;
    }
  }

  lemma NoOperatorAt(s: string)
    requires s != "" && !StartsOperator(s[0])
    ensures MatchOperator(s).None?
  {
    forall op <- OPERATORS
      ensures !(op <= s)
    {
      OperatorStarts(op);
    }
  }

  lemma OperatorStarts(op: string)
    requires op in OPERATORS
    ensures op != "" && StartsOperator(op[0])
  {
    var i :| 0 <= i < |OPERATORS| && OPERATORS[i] == op;
  }

  lemma BareStep(s: string, st: LexState)
    requires s != "" && IsBareChar(s[0]) && (s[0] == '#' ==> st.inWord)
    requires s[0] == '$' ==> |s| > 1 && s[1] != '\'' && s[1] != '('
    ensures LexFrom(s, st) == LexFrom(s[1..], AddText(st, [s[0]]))
  {
    NoOperatorAt(s);
    assert !("$'" <= s) && !AtSubstitution(s);
    assert Step(s, st) == More([], s[1..], AddText(st, [s[0]]));
  }

  // The text `a` adds `text` to a word that is open already.
  ghost predicate AddsInWord(a: string, text: string) {
    forall s: string, st: LexState :: st.inWord ==> LexFrom(a + s, st) == LexFrom(s, AddText(st, text))
  }

  predicate IsBareTail(w: string) {
    (w != "" ==> w[|w| - 1] != '$') && forall c <- w :: IsBareChar(c)
  }

  lemma BareHead(w: string, s: string, st: LexState)
    requires w != "" && IsBareTail(w) && (w[0] == '#' ==> st.inWord)
    ensures LexFrom(w + s, st) == LexFrom(w[1..] + s, AddText(st, [w[0]]))
  {
    assert w[0] in w && (w + s)[0] == w[0] && (w + s)[1..] == w[1..] + s;
    assert |w| > 1 ==> w[1] in w && (w + s)[1] == w[1];
    BareStep(w + s, st);
  }

  lemma BareHeadAdds(w: string)
    requires w != "" && IsBareTail(w) && AddsInWord(w[1..], w[1..])
    ensures AddsInWord(w, w)
    ensures w[0] != '#' ==> Adds(w, w)
  {
    forall s: string, st: LexState | w[0] == '#' ==> st.inWord
      ensures LexFrom(w + s, st) == LexFrom(s, AddText(st, w))
    {
      BareHead(w, s, st);
      AddTextTwice(st, [w[0]], w[1..]);
      assert [w[0]] + w[1..] == w;
    }
  }

  lemma NothingAdds()
    ensures AddsInWord("", "")
  {
    forall s: string, st: LexState | st.inWord
      ensures LexFrom("" + s, st) == LexFrom(s, AddText(st, ""))
    {
      assert "" + s == s && st.buf + "" == st.buf;
    }
  }

  lemma TailIsBareTail(w: string)
    requires w != "" && IsBareTail(w)
    ensures IsBareTail(w[1..])
  {
    assert forall c <- w[1..] :: c in w;
  }

  lemma {:induction false} BareTailAdds(w: string)
    requires IsBareTail(w)
    ensures AddsInWord(w, w)
    decreases |w|
  {
    if w == "" {
      NothingAdds();
    } else {
      TailIsBareTail(w);
      BareTailAdds(w[1..]);
      BareHeadAdds(w);
    }
  }

  lemma BareAdds(w: string)
    requires IsBare(w)
    ensures Adds(w, w)
  {
    TailIsBareTail(w);
    BareTailAdds(w[1..]);
    BareHeadAdds(w);
  }

  lemma PieceAdds(p: Piece)
    requires CanRender(p)
    ensures Adds(Render(p), p.text)
  {
    match p.style
    case Single => SingleAdds(p.text);
    case Double => DoubleAdds(p.text);
    case AnsiC => AnsiAdds(p.text);
    case Backslash => BackslashAdds(p.text);
    case Bare => BareAdds(p.text);
  }

  // Whatever the style, the lexer adds exactly the quoted text to the open word.
  lemma PieceJoins(p: Piece, s: string, st: LexState)
    requires CanRender(p)
    ensures LexFrom(Render(p) + s, st) == LexFrom(s, AddText(st, p.text))
  {
    PieceAdds(p);
  }

  // -- words ---------------------------------------------------------------

  lemma {:induction false} PiecesAdd(ps: seq<Piece>)
    requires ps != [] && forall p <- ps :: CanRender(p)
    ensures Adds(RenderAll(ps), TextOf(ps))
    decreases |ps|
  {
    PieceAdds(ps[0]);
    if |ps| == 1 {
      assert ps[1..] == [];
      assert RenderAll(ps) == Render(ps[0]);
      assert TextOf(ps) == ps[0].text;
    } else {
      PiecesAdd(ps[1..]);
      AddsBoth(Render(ps[0]), RenderAll(ps[1..]), ps[0].text, TextOf(ps[1..]));
    }
  }

  lemma PiecesJoin(ps: seq<Piece>, s: string, st: LexState)
    requires ps != [] && forall p <- ps :: CanRender(p)
    ensures LexFrom(RenderAll(ps) + s, st) == LexFrom(s, AddText(st, TextOf(ps)))
  {
    PiecesAdd(ps);
  }

  // Pieces written next to each other, in any mixture of styles, are one word.
  lemma OneWord(ps: seq<Piece>)
    requires ps != [] && forall p <- ps :: CanRender(p)
    ensures Lex(RenderAll(ps)) == [Token(TextOf(ps), Word)]
  {
    PiecesJoin(ps, "", START);
    assert RenderAll(ps) + "" == RenderAll(ps);
    assert "" + TextOf(ps) == TextOf(ps);
  }

  // -- backtick substitutions ------------------------------------------------

  lemma {:induction false} BacktickBodyOfEscaped(w: string, s: string)
    ensures BacktickBody(EscapeForBacktick(w) + "`" + s) == Closed(s, w, [])
    decreases |w|
  {
    var all := EscapeForBacktick(w) + "`" + s;
    if w == "" {
      assert all[1..] == s;
    } else {
      var tail := EscapeForBacktick(w[1..]) + "`" + s;
      BacktickBodyOfEscaped(w[1..], s);
      if IsBacktickEscapable(w[0]) {
        assert all == ['\\', w[0]] + tail;
        assert all[2..] == tail;
      } else {
        assert all == [w[0]] + tail;
        assert all[1..] == tail;
      }
      assert [w[0]] + w[1..] == w;
    }
  }

  // The lexer hands the text of a backtick substitution to its caller exactly as it was before it
  // was escaped, and the word it stands in holds the mark alone.
  lemma BacktickRoundTrip(w: string)
    ensures Lex("`" + EscapeForBacktick(w) + "`") == [Token(w, Subst), Token([SUBST_MARK], Word)]
  {
    var all := "`" + EscapeForBacktick(w) + "`";
    assert all[1..] == EscapeForBacktick(w) + "`" + "";
    BacktickBodyOfEscaped(w, "");
    var st := AddText(START, [SUBST_MARK]);
    assert Step(all, START) == More([Token(w, Subst)], "", st);
    assert st.buf == [SUBST_MARK];
    assert LexFrom(all, START) == [Token(w, Subst)] + LexFrom("", st);
  }
}
