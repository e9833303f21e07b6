// The meaning of a shell command for the lexer: every scanner is a function from the text that
// is still to be read to what it consumed, so nothing here depends on an index into the command.
// ShellLexer.dfy proves the index-and-buffer loops equal to these functions.
module ShellSyntax {
  import opened Wrappers

  datatype Kind = Word | Op | Subst

  datatype Token = Token(text: string, kind: Kind)

  // Stands for the unknown value of a substitution inside a word.
  const SUBST_MARK: char := '\0'

  predicate IsBlank(c: char) {
    c == ' ' || c == '\t' || c == '\r'
  }

  predicate IsQuote(c: char) {
    c == '\'' || c == '"'
  }

  // A backslash inside double quotes escapes these characters only.
  predicate IsDoubleEscapable(c: char) {
    c == '"' || c == '\\' || c == '$' || c == '`' || c == '\n'
  }

  // A backslash inside backticks escapes these characters only.
  predicate IsBacktickEscapable(c: char) {
    c == '$' || c == '`' || c == '\\'
  }

  const SEPARATORS: set<string> := {"|", "||", "|&", "&", "&&", ";", ";;", "(", ")", "\n"}

  const HEREDOC_OPS: set<string> := {"<<", "<<-", "<<<"}

  // Longest first, so that the first match is the longest one.
  const OPERATORS: seq<string> := [
    "<<<", "<<-", "<<", "&&", "||", "|&", ";;", ">>", ">&", "&>",
    ";", "&", "|", "(", ")", "<", ">"
  ]

  const MAX_NEST: nat := 64

  function AnsiEscape(c: char): char {
    match c
    case 'n' => '\n'
    case 't' => '\t'
    case 'r' => '\r'
    case 'a' => '\U{0007}'
    case 'b' => '\U{0008}'
    case 'f' => '\U{000C}'
    case 'v' => '\U{000B}'
    case 'e' => '\U{001B}'
    case 'E' => '\U{001B}'
    case '0' => '\0'
    case _ => c
  }

  // The index of the first `c` in `s`, or -1.
  function FindChar(s: string, c: char): (k: int)
    ensures -1 <= k < |s|
  {
    if s == "" then -1
    else if s[0] == c then 0
    else
      var k := FindChar(s[1..], c);
      if k < 0 then -1 else k + 1
  }

  lemma {:induction false} FindCharIsFirst(s: string, c: char, i: nat)
    ensures FindChar(s, c) < 0 && i < |s| ==> s[i] != c
    ensures 0 <= FindChar(s, c) ==> s[FindChar(s, c)] == c
    ensures i < FindChar(s, c) ==> s[i] != c
  {
    if s != "" && s[0] != c {
      FindCharIsFirst(s[1..], c, if i == 0 then 0 else i - 1);
      if 0 < i < |s| {
        assert s[i] == s[1..][i - 1];
      }
    }
  }

  function FirstPrefix(ops: seq<string>, s: string): (r: Option<string>)
    ensures r.Some? ==> r.value in ops && r.value <= s
    ensures r.None? ==> forall op <- ops :: !(op <= s)
  {
    if ops == [] then None
    else if ops[0] <= s then Some(ops[0])
    else assert ops == ops[..1] + ops[1..]; FirstPrefix(ops[1..], s)
  }

  function MatchOperator(s: string): (r: Option<string>) {
    FirstPrefix(OPERATORS, s)
  }

  // What a scanner made of a quoted run or a substitution: what is left after its close, the text
  // it adds to the open word and the substitution tokens it emitted. A run that never closes adds
  // no text, but the tokens emitted before the end of the command stay emitted.
  datatype Scan =
    | Closed(rest: string, text: string, subs: seq<Token>)
    | Unclosed(subs: seq<Token>)

  // The scan `r`, made after `text` and `subs` had already been produced.
  function After(text: string, subs: seq<Token>, r: Scan): Scan {
    match r
    case Closed(rest, t, s) => Closed(rest, text + t, subs + s)
    case Unclosed(s) => Unclosed(subs + s)
  }

  lemma AfterAfter(text: string, subs: seq<Token>, t: string, more: seq<Token>, r: Scan)
    ensures After(text, subs, After(t, more, r)) == After(text + t, subs + more, r)
  {
    match r
    case Closed(_, u, s) =>
      assert text + (t + u) == (text + t) + u;
      assert subs + (more + s) == (subs + more) + s;
    case Unclosed(s) =>
      assert subs + (more + s) == (subs + more) + s;
  }

  lemma AfterNothing(r: Scan)
    ensures After("", [], r) == r
  {
    if r.Closed? {
      assert "" + r.text == r.text && [] + r.subs == r.subs;
    } else {
      assert [] + r.subs == r.subs;
    }
  }

  // `$'…'`, after its opening quote.
  function AnsiBody(s: string): (r: Scan)
    ensures r.Closed? ==> |r.rest| < |s| && r.subs == []
    ensures r.Unclosed? ==> r.subs == []
  {
    if s == "" then Unclosed([])
    else if s[0] == '\'' then Closed(s[1..], "", [])
    else if s[0] == '\\' && |s| > 1 then After([AnsiEscape(s[1])], [], AnsiBody(s[2..]))
    else After([s[0]], [], AnsiBody(s[1..]))
  }

  // The inner text of a backtick substitution, after its opening backtick.
  function BacktickBody(s: string): (r: Scan)
    ensures r.Closed? ==> |r.rest| < |s| && r.subs == []
    ensures r.Unclosed? ==> r.subs == []
  {
    if s == "" then Unclosed([])
    else if s[0] == '`' then Closed(s[1..], "", [])
    else if s[0] == '\\' && |s| > 1 then
      After(if IsBacktickEscapable(s[1]) then [s[1]] else s[..2], [], BacktickBody(s[2..]))
    else After([s[0]], [], BacktickBody(s[1..]))
  }

  // A backtick substitution emits its inner text and leaves a mark in the word.
  function Backtick(s: string): (r: Scan)
    requires s != "" && s[0] == '`'
    ensures r.Closed? ==> |r.rest| < |s| - 1 && r.text == [SUBST_MARK]
    ensures r.Unclosed? ==> r.subs == []
  {
    match BacktickBody(s[1..])
    case Closed(rest, inner, _) => Closed(rest, [SUBST_MARK], [Token(inner, Subst)])
    case Unclosed(_) => Unclosed([])
  }

  predicate AtSubstitution(s: string) {
    s != "" && (s[0] == '`' || "$(" <= s)
  }

  // Either form of command substitution; only `$(…)` nests.
  function Substitution(s: string, depth: nat): (r: Scan)
    requires AtSubstitution(s)
    ensures r.Closed? ==> |r.rest| < |s| - 1 && r.text == [SUBST_MARK]
    ensures r.Unclosed? ==> r.subs == []
    decreases |s|, 1
  {
    if s[0] == '`' then Backtick(s) else DollarParen(s, depth)
  }

  // `"…"`, after its opening quote: substitutions are live inside.
  function DoubleBody(s: string, depth: nat): (r: Scan)
    ensures r.Closed? ==> |r.rest| < |s|
    decreases |s|, 2
  {
    if depth > MAX_NEST || s == "" then Unclosed([])
    else if s[0] == '"' then Closed(s[1..], "", [])
    else if s[0] == '\\' && |s| > 1 && IsDoubleEscapable(s[1]) then
      After(if s[1] == '\n' then "" else [s[1]], [], DoubleBody(s[2..], depth))
    else if AtSubstitution(s) then Then(Substitution(s, depth + 1), s, depth)
    else After([s[0]], [], DoubleBody(s[1..], depth))
  }

  // Go on with a double-quoted run after the substitution `sub` at the head of `s`.
  function Then(sub: Scan, s: string, depth: nat): (r: Scan)
    requires sub.Closed? ==> |sub.rest| < |s|
    ensures r.Closed? ==> |r.rest| < |s|
    decreases |s|, 0
  {
    match sub
    case Closed(rest, text, subs) => After(text, subs, DoubleBody(rest, depth))
    case Unclosed(subs) => Unclosed(subs)
  }

  // `$(…)` emits its inner text; the arithmetic form `$((…))` emits nothing.
  function DollarParen(s: string, depth: nat): (r: Scan)
    requires "$(" <= s
    ensures r.Closed? ==> |r.rest| <= |s| - 3 && r.text == [SUBST_MARK]
    ensures r.Unclosed? ==> r.subs == []
    decreases |s|, 0
  {
    if depth > MAX_NEST then Unclosed([])
    else
      match MatchParen(s[1..], 0, depth)
      case None => Unclosed([])
      case Some(rest) =>
        Closed(rest, [SUBST_MARK],
               if "$((" <= s then [] else [Token(s[2..|s| - |rest| - 1], Subst)])
  }

  // What follows the quoted run at the head of `s`, whose content is of no interest here.
  function PastQuotes(s: string, depth: nat): (r: Option<string>)
    requires s != "" && IsQuote(s[0])
    ensures r.Some? ==> |r.value| < |s|
    decreases |s|, 0
  {
    if s[0] == '\'' then
      var k := FindChar(s[1..], '\'');
      if k < 0 then None else Some(s[k + 2..])
    else
      var q := DoubleBody(s[1..], depth + 1);
      if q.Closed? then Some(q.rest) else None
  }

  // What follows the parenthesis that brings `nesting` back to zero.
  function MatchParen(s: string, nesting: int, depth: nat): (r: Option<string>)
    ensures r.Some? ==> |r.value| < |s|
    ensures r.Some? && nesting == 0 && s[0] == '(' ==> |r.value| <= |s| - 2
    decreases |s|, 1
  {
    if depth > MAX_NEST || s == "" then None
    else if s[0] == '\\' && |s| > 1 then MatchParen(s[2..], nesting, depth)
    else if IsQuote(s[0]) then
      var past := PastQuotes(s, depth);
      if past.None? then None else MatchParen(past.value, nesting, depth)
    else
      var inner := Nest(s[0], nesting);
      if s[0] == ')' && inner == 0 then Some(s[1..]) else MatchParen(s[1..], inner, depth)
  }

  function Nest(c: char, nesting: int): int {
    if c == '(' then nesting + 1 else if c == ')' then nesting - 1 else nesting
  }

  // -- here-documents ------------------------------------------------------

  datatype HereDoc = HereDoc(delim: string, stripTabs: bool)

  function StripLeadingTabs(s: string): string {
    if s != "" && s[0] == '\t' then StripLeadingTabs(s[1..]) else s
  }

  function StripTrailingReturns(s: string): string {
    if s != "" && s[|s| - 1] == '\r' then StripTrailingReturns(s[..|s| - 1]) else s
  }

  predicate Terminates(line: string, doc: HereDoc) {
    StripTrailingReturns(if doc.stripTabs then StripLeadingTabs(line) else line) == doc.delim
  }

  // What follows the body of `doc`; a body that is never terminated takes everything.
  function SkipBody(s: string, doc: HereDoc): (rest: string)
    ensures |rest| <= |s|
    decreases |s|
  {
    var end := FindChar(s, '\n');
    if end < 0 then ""
    else if Terminates(s[..end], doc) then s[end + 1..]
    else SkipBody(s[end + 1..], doc)
  }

  // Bodies follow each other in the order in which their documents were announced.
  function SkipBodies(s: string, docs: seq<HereDoc>): (rest: string)
    ensures |rest| <= |s|
    decreases |docs|
  {
    if docs == [] then s else SkipBodies(SkipBody(s, docs[0]), docs[1..])
  }

  // -- the main loop -------------------------------------------------------

  // What the main loop carries from one character to the next. `pending` is the tab-stripping
  // flag of a here-document operator whose delimiter has not been read yet.
  datatype LexState = LexState(buf: string, inWord: bool, heredocs: seq<HereDoc>, pending: Option<bool>)

  const START: LexState := LexState("", false, [], None)

  function FlushOut(st: LexState): seq<Token> {
    if st.inWord then [Token(st.buf, Word)] else []
  }

  function Flushed(st: LexState): LexState {
    if !st.inWord then st
    else if st.pending.None? then st.(buf := "", inWord := false)
    else LexState("", false, st.heredocs + [HereDoc(st.buf, st.pending.value)], None)
  }

  function AddText(st: LexState, text: string): LexState {
    st.(buf := st.buf + text, inWord := true)
  }

  datatype Outcome =
    | More(out: seq<Token>, rest: string, st: LexState) // go on with `rest`
    | Stop(last: LexState)                              // end of input inside a comment or escape
    | Abandon(emitted: seq<Token>)                      // a quote or substitution never closes

  function Glued(st: LexState, r: Scan): Outcome {
    match r
    case Closed(rest, text, subs) => More(subs, rest, AddText(st, text))
    case Unclosed(subs) => Abandon(subs)
  }

  // One turn of the main loop, at the head of `s`.
  function Step(s: string, st: LexState): (r: Outcome)
    requires s != ""
    ensures r.More? ==> |r.rest| < |s|
  {
    var c := s[0];
    if IsBlank(c) then More(FlushOut(st), s[1..], Flushed(st))
    else if c == '\n' then
      More(FlushOut(st) + [Token("\n", Op)], SkipBodies(s[1..], Flushed(st).heredocs), Flushed(st).(heredocs := []))
    else if c == '#' && !st.inWord then
      var k := FindChar(s, '\n');
      if k < 0 then Stop(st) else More([], s[k..], st)
    else if c == '\\' then
      if |s| == 1 then Stop(st)
      else if s[1] == '\n' then More([], s[2..], st)
      else More([], s[2..], AddText(st, [s[1]]))
    else if IsQuote(c) || "$'" <= s || AtSubstitution(s) then StepOverGroup(s, st)
    else StepPlain(s, st)
  }

  // Quoted runs and substitutions are consumed whole and join the open word.
  function StepOverGroup(s: string, st: LexState): (r: Outcome)
    requires s != "" && (IsQuote(s[0]) || "$'" <= s || AtSubstitution(s))
    ensures r.More? ==> |r.rest| < |s|
  {
    if s[0] == '\'' then
      var k := FindChar(s[1..], '\'');
      if k < 0 then Abandon([]) else More([], s[k + 2..], AddText(st, s[1..k + 1]))
    else if "$'" <= s then Glued(st, AnsiBody(s[2..]))
    else if s[0] == '"' then Glued(st, DoubleBody(s[1..], 0))
    else Glued(st, Substitution(s, 0))
  }

  // An operator, or one more character of a word.
  function StepPlain(s: string, st: LexState): (r: Outcome)
    requires s != ""
    ensures r.More? && |r.rest| < |s|
  {
    match MatchOperator(s)
    case Some(op) => OperatorStep(op, s, st)
    case None => More([], s[1..], AddText(st, [s[0]]))
  }

  function OperatorStep(op: string, s: string, st: LexState): (r: Outcome)
    requires op in OPERATORS && op <= s
    ensures r.More? && |r.rest| < |s|
  {
    More(FlushOut(st) + [Token(op, Op)], s[|op|..], Announced(op, Flushed(st)))
  }

  // The next word after `<<` or `<<-` is the delimiter of a here-document.
  function Announced(op: string, st: LexState): LexState {
    if op in {"<<", "<<-"} then st.(pending := Some(op == "<<-")) else st
  }

  // The tokens of `s`, read from the state `st`.
  function LexFrom(s: string, st: LexState): seq<Token>
    decreases |s|
  {
    if s == "" then FlushOut(st)
    else
      match Step(s, st)
      case More(out, rest, st') => out + LexFrom(rest, st')
      case Stop(last) => FlushOut(last)
      case Abandon(out) => out
  }

  function Lex(command: string): seq<Token> {
    LexFrom(command, START)
  }
}
