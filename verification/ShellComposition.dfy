// Lexing composes: a command can be lexed piece by piece, and the body of a here-document
// contributes nothing whatever it contains.
module ShellComposition {
  import opened Wrappers
  import opened ShellSyntax
  import opened ShellLocality

  // The tokens of `p` and the state it leaves, when the last turn of the main loop over `p` reads
  // exactly its last character and that character is a blank.
  function AtBlankEnd(p: string, st: LexState): (r: Option<(seq<Token>, LexState)>)
    decreases |p|
  {
    if p == "" then None
    else if |p| == 1 then
      if IsBlank(p[0]) then Some((FlushOut(st), Flushed(st))) else None
    else
      match Step(p, st)
      case More(out, rest, st') => Emitted(out, AtBlankEnd(rest, st'))
      case Stop(_) => None
      case Abandon(_) => None
  }

  function Emitted(out: seq<Token>, r: Option<(seq<Token>, LexState)>): Option<(seq<Token>, LexState)> {
    match r
    case None => None
    case Some((more, st)) => Some((out + more, st))
  }

  // No word is open, no comment is open and no here-document is owed at the end of `p`.
  predicate EndsCleanly(p: string) {
    AtBlankEnd(p, START).Some? && AtBlankEnd(p, START).value.1 == START
  }

  lemma StepExtends(p: string, s: string, st: LexState)
    requires |p| > 1 && AtBlankEnd(p, st).Some?
    ensures Step(p, st).More?
    ensures Step(p + s, st) == Step(p, st).(rest := Step(p, st).rest + s)
  {
    var c := p[0];
    DropOfConcat(p, s, 1);
    DropOfConcat(p, s, 2);
    if IsBlank(c) {
    } else if c == '\n' {
      SkipBodiesExtend(p[1..], s, Flushed(st).heredocs);
    } else if c == '#' && !st.inWord {
      FindCharExtends(p, s, '\n');
      DropOfConcat(p, s, FindChar(p, '\n'));
    } else if c == '\\' {
    } else if IsQuote(c) || "$'" <= p || AtSubstitution(p) {
      GroupExtends(p, s, st);
    } else {
      assert !("$'" <= p + s) && !AtSubstitution(p + s);
      PlainExtends(p, s, st);
    }
  }

  lemma GroupExtends(p: string, s: string, st: LexState)
    requires p != "" && (IsQuote(p[0]) || "$'" <= p || AtSubstitution(p))
    requires StepOverGroup(p, st).More?
    ensures "$'" <= p ==> "$'" <= p + s
    ensures AtSubstitution(p) ==> AtSubstitution(p + s)
    ensures StepOverGroup(p + s, st) == StepOverGroup(p, st).(rest := StepOverGroup(p, st).rest + s)
  {
    DropOfConcat(p, s, 1);
    if p[0] == '\'' {
      var k := FindChar(p[1..], '\'');
      FindCharExtends(p[1..], s, '\'');
      DropOfConcat(p, s, k + 2);
      assert (p + s)[1..k + 1] == p[1..k + 1];
    } else if "$'" <= p {
      DropOfConcat(p, s, 2);
      AnsiExtends(p[2..], s);
    } else if p[0] == '"' {
      DoubleExtends(p[1..], s, 0);
    } else {
      SubstitutionExtends(p, s, 0);
    }
  }

  lemma PlainExtends(p: string, s: string, st: LexState)
    requires |p| > 1 && AtBlankEnd(StepPlain(p, st).rest, StepPlain(p, st).st).Some?
    ensures StepPlain(p + s, st) == StepPlain(p, st).(rest := StepPlain(p, st).rest + s)
  {
    OperatorExtends(p, s);
    match MatchOperator(p)
    case Some(op) => DropOfConcat(p, s, |op|);
    case None => DropOfConcat(p, s, 1);
  }

  lemma {:induction false} BlankEndComposes(p: string, s: string, st: LexState)
    requires AtBlankEnd(p, st).Some?
    ensures LexFrom(p + s, st) == AtBlankEnd(p, st).value.0 + LexFrom(s, AtBlankEnd(p, st).value.1)
    decreases |p|
  {
    if |p| == 1 {
      assert (p + s)[1..] == s;
    } else {
      StepExtends(p, s, st);
      var step := Step(p, st);
      BlankEndComposes(step.rest, s, step.st);
    }
  }

  lemma LexOfCleanPart(p: string)
    requires AtBlankEnd(p, START).Some? && !AtBlankEnd(p, START).value.1.inWord
    ensures Lex(p) == AtBlankEnd(p, START).value.0
  {
    BlankEndComposes(p, "", START);
    assert p + "" == p;
  }

  // A command may be cut after any blank at which nothing is open.
  lemma LexComposes(p: string, s: string)
    requires EndsCleanly(p)
    ensures Lex(p + s) == Lex(p) + Lex(s)
  {
    BlankEndComposes(p, s, START);
    LexOfCleanPart(p);
  }

  // A separator between the parts adds exactly its own token, if it is not the beginning of a
  // longer operator together with what follows.
  lemma LexComposesAcross(p: string, sep: string, s: string)
    requires EndsCleanly(p) && sep in SEPARATORS
    requires sep == "\n" || MatchOperator(sep + s) == Some(sep)
    ensures Lex(p + sep + s) == Lex(p) + [Token(sep, Op)] + Lex(s)
  {
    assert p + sep + s == p + (sep + s);
    LexComposes(p, sep + s);
    LexOfSeparator(sep, s);
  }

  lemma LexOfSeparator(sep: string, s: string)
    requires sep in SEPARATORS && (sep == "\n" || MatchOperator(sep + s) == Some(sep))
    ensures Lex(sep + s) == [Token(sep, Op)] + Lex(s)
  {
    var all := sep + s;
    assert all[|sep|..] == s;
    SeparatorIsText(sep);
    OneStepOverSeparator(sep, s);
    OneStep(all, START);
  }

  lemma SeparatorIsText(sep: string)
    requires sep in SEPARATORS
    ensures sep != ""
  {
  }

  lemma OneStepOverSeparator(sep: string, s: string)
    requires sep != "" && sep in SEPARATORS && (sep == "\n" || MatchOperator(sep + s) == Some(sep))
    ensures Step(sep + s, START) == More([Token(sep, Op)], s, START)
  {
    var all := sep + s;
    if sep == "\n" {
      assert all[1..] == s;
    } else {
      OperatorTurn(all, START, sep);
      SeparatorAnnouncesNothing(sep);
      assert all[|sep|..] == s;
    }
  }

  lemma SeparatorAnnouncesNothing(sep: string)
    requires sep in SEPARATORS
    ensures Announced(sep, START) == START
  {
  }

  // -- here-documents ------------------------------------------------------

  // A here-document as it is written: lines that do not end it, then a line that does.
  datatype Written = Written(lines: seq<string>, last: string)

  predicate IsBodyOf(w: Written, doc: HereDoc) {
    && (forall line <- w.lines :: '\n' !in line && !Terminates(line, doc))
    && '\n' !in w.last && Terminates(w.last, doc)
  }

  function LinesText(lines: seq<string>): string {
    if lines == [] then "" else lines[0] + "\n" + LinesText(lines[1..])
  }

  function WrittenText(w: Written): string {
    LinesText(w.lines) + w.last + "\n"
  }

  function BodiesText(ws: seq<Written>): string {
    if ws == [] then "" else WrittenText(ws[0]) + BodiesText(ws[1..])
  }

  predicate AreBodiesOf(ws: seq<Written>, docs: seq<HereDoc>) {
    |ws| == |docs| && forall i | 0 <= i < |ws| :: IsBodyOf(ws[i], docs[i])
  }

  lemma {:induction false} FindNewline(line: string, rest: string)
    requires '\n' !in line
    ensures FindChar(line + "\n" + rest, '\n') == |line|
    decreases |line|
  {
    var s := line + "\n" + rest;
    if line != "" {
      assert s[1..] == line[1..] + "\n" + rest;
      assert s[0] == line[0];
      FindNewline(line[1..], rest);
    }
  }

  lemma {:induction false} BodyIsSkipped(lines: seq<string>, last: string, doc: HereDoc, rest: string)
    requires IsBodyOf(Written(lines, last), doc)
    ensures SkipBody(LinesText(lines) + last + "\n" + rest, doc) == rest
    decreases |lines|
  {
    if lines == [] {
      FindNewline(last, rest);
      var s := last + "\n" + rest;
      assert LinesText(lines) + last + "\n" + rest == s;
      assert s[..|last|] == last && s[|last| + 1..] == rest;
    } else {
      var more := LinesText(lines[1..]) + last + "\n" + rest;
      FindNewline(lines[0], more);
      var s := lines[0] + "\n" + more;
      assert LinesText(lines) + last + "\n" + rest == s;
      assert s[..|lines[0]|] == lines[0] && s[|lines[0]| + 1..] == more;
      BodyIsSkipped(lines[1..], last, doc, rest);
    }
  }

  // Bodies are matched to documents in the order of announcement.
  lemma {:induction false} BodiesAreSkipped(ws: seq<Written>, docs: seq<HereDoc>, rest: string)
    requires AreBodiesOf(ws, docs)
    ensures SkipBodies(BodiesText(ws) + rest, docs) == rest
    decreases |ws|
  {
    if ws == [] {
      assert BodiesText(ws) + rest == rest;
    } else {
      var more := BodiesText(ws[1..]) + rest;
      assert BodiesText(ws) + rest == LinesText(ws[0].lines) + ws[0].last + "\n" + more;
      assert ws[0] == Written(ws[0].lines, ws[0].last);
      BodyIsSkipped(ws[0].lines, ws[0].last, docs[0], more);
      BodiesAreSkipped(ws[1..], docs[1..], rest);
    }
  }

  // The line `p` announces here-documents; whatever their bodies contain, the tokens are those of
  // `p`, a newline and those of what follows the bodies.
  lemma HereDocBodiesAreSilent(p: string, ws: seq<Written>, s: string)
    requires AtBlankEnd(p, START).Some?
    requires var end := AtBlankEnd(p, START).value.1;
             !end.inWord && end.pending.None? && AreBodiesOf(ws, end.heredocs)
    ensures Lex(p + "\n" + BodiesText(ws) + s) == Lex(p) + [Token("\n", Op)] + Lex(s)
  {
    var (out, end) := AtBlankEnd(p, START).value;
    var tail := "\n" + BodiesText(ws) + s;
    assert p + "\n" + BodiesText(ws) + s == p + tail;
    BlankEndComposes(p, tail, START);
    LexOfCleanPart(p);
    BlankEndBuffer(p, START);
    NewlineSkipsBodies(ws, s, end);
  }

  lemma NewlineSkipsBodies(ws: seq<Written>, s: string, st: LexState)
    requires !st.inWord && st.buf == "" && st.pending.None? && AreBodiesOf(ws, st.heredocs)
    ensures LexFrom("\n" + BodiesText(ws) + s, st) == [Token("\n", Op)] + Lex(s)
  {
    var tail := "\n" + BodiesText(ws) + s;
    assert tail[1..] == BodiesText(ws) + s;
    BodiesAreSkipped(ws, st.heredocs, s);
    assert Step(tail, st) == More([Token("\n", Op)], s, START);
  }

  // Outside a word the buffer is empty.
  lemma {:induction false} BlankEndBuffer(p: string, st: LexState)
    requires AtBlankEnd(p, st).Some? && (st.inWord || st.buf == "")
    ensures AtBlankEnd(p, st).value.1.inWord || AtBlankEnd(p, st).value.1.buf == ""
    decreases |p|
  {
    if |p| > 1 {
      StepBuffer(p, st);
      BlankEndBuffer(Step(p, st).rest, Step(p, st).st);
    }
  }

  lemma StepBuffer(s: string, st: LexState)
    requires s != "" && Step(s, st).More? && (st.inWord || st.buf == "")
    ensures Step(s, st).st.inWord || Step(s, st).st.buf == ""
  {
  }
}
