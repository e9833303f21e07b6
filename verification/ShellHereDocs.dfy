// Here-documents from announcement to body: several may be announced on one line, their bodies
// follow in the same order, and none of the bodies is ever tokenized.
module ShellHereDocs {
  import opened Wrappers
  import opened Sequences
  import opened ShellSyntax
  import opened ShellLocality
  import opened ShellComposition
  import opened ShellQuoting

  // `<<delim` or, with leading tabs to be stripped, `<<-delim`, the delimiter quoted in any style.
  datatype Announcement = Announcement(delim: Piece, stripTabs: bool)

  function Operator(a: Announcement): string {
    if a.stripTabs then "<<-" else "<<"
  }

  function AnnouncementsText(ds: seq<Announcement>): string {
    if ds == [] then "" else Operator(ds[0]) + (Render(ds[0].delim) + ([' '] + AnnouncementsText(ds[1..])))
  }

  function AnnouncementsTokens(ds: seq<Announcement>): seq<Token> {
    if ds == [] then []
    else [Token(Operator(ds[0]), Op), Token(ds[0].delim.text, Word)] + AnnouncementsTokens(ds[1..])
  }

  function Documents(ds: seq<Announcement>): seq<HereDoc> {
    if ds == [] then [] else [HereDoc(ds[0].delim.text, ds[0].stripTabs)] + Documents(ds[1..])
  }

  // Between words, with `docs` owed.
  function Owing(docs: seq<HereDoc>): LexState {
    LexState("", false, docs, None)
  }

  // A delimiter without quotes must not go on where `<<` would.
  predicate CanAnnounce(a: Announcement) {
    CanRender(a.delim) && (a.delim.style == Bare ==> a.delim.text[0] != '-')
  }

  lemma DelimiterStartsNoOperator(a: Announcement)
    requires CanAnnounce(a)
    ensures Render(a.delim) != "" && !IsOperatorChar(Render(a.delim)[0])
  {
    RenderStarts(a.delim);
    if a.delim.style == Bare {
      assert a.delim.text[0] in a.delim.text;
    }
  }

  lemma AnnouncingOperators(a: Announcement)
    ensures Operator(a) in OPERATORS
  {
    assert OPERATORS[if a.stripTabs then 1 else 2] == Operator(a);
  }

  // A delimiter cannot extend the operator that announces it.
  lemma OperatorAnnounces(a: Announcement, s: string, docs: seq<HereDoc>)
    requires s != "" && !IsOperatorChar(s[0])
    ensures LexFrom(Operator(a) + s, Owing(docs))
         == [Token(Operator(a), Op)] + LexFrom(s, Owing(docs).(pending := Some(a.stripTabs)))
  {
    var op := Operator(a);
    AnnouncingOperators(a);
    OperatorBefore(op, s);
    OperatorTurn(op + s, Owing(docs), op);
    AnnouncementStep(a, s, docs);
    OneStep(op + s, Owing(docs));
  }

  lemma AnnouncementStep(a: Announcement, s: string, docs: seq<HereDoc>)
    requires Operator(a) in OPERATORS
    ensures OperatorStep(Operator(a), Operator(a) + s, Owing(docs))
         == More([Token(Operator(a), Op)], s, Owing(docs).(pending := Some(a.stripTabs)))
  {
    assert (Operator(a) + s)[|Operator(a)|..] == s;
  }

  lemma AnnouncementLexes(a: Announcement, s: string, docs: seq<HereDoc>)
    requires CanAnnounce(a)
    ensures LexFrom(Operator(a) + (Render(a.delim) + ([' '] + s)), Owing(docs))
         == [Token(Operator(a), Op), Token(a.delim.text, Word)]
            + LexFrom(s, Owing(docs + [HereDoc(a.delim.text, a.stripTabs)]))
  {
    var tail := [' '] + s;
    DelimiterStartsNoOperator(a);
    OperatorAnnounces(a, Render(a.delim) + tail, docs);
    PieceJoins(a.delim, tail, Owing(docs).(pending := Some(a.stripTabs)));
    DelimiterEnds(a.delim.text, a.stripTabs, s, docs);
    TwoTokens(Token(Operator(a), Op), Token(a.delim.text, Word),
              LexFrom(s, Owing(docs + [HereDoc(a.delim.text, a.stripTabs)])));
  }

  lemma TwoTokens(a: Token, b: Token, more: seq<Token>)
    ensures [a] + ([b] + more) == [a, b] + more
  {
  }

  lemma DelimiterEnds(delim: string, stripTabs: bool, s: string, docs: seq<HereDoc>)
    ensures LexFrom([' '] + s, AddText(Owing(docs).(pending := Some(stripTabs)), delim))
         == [Token(delim, Word)] + LexFrom(s, Owing(docs + [HereDoc(delim, stripTabs)]))
  {
    var st := AddText(Owing(docs).(pending := Some(stripTabs)), delim);
    assert st.buf == delim;
    assert ([' '] + s)[1..] == s;
    assert Step([' '] + s, st) == More([Token(delim, Word)], s, Owing(docs + [HereDoc(delim, stripTabs)]));
  }

  lemma AnnouncementsSplit(ds: seq<Announcement>, s: string)
    requires ds != []
    ensures AnnouncementsText(ds) + s
         == Operator(ds[0]) + (Render(ds[0].delim) + ([' '] + (AnnouncementsText(ds[1..]) + s)))
  {
    Associate([' '], AnnouncementsText(ds[1..]), s);
    Associate(Render(ds[0].delim), [' '] + AnnouncementsText(ds[1..]), s);
    Associate(Operator(ds[0]), Render(ds[0].delim) + ([' '] + AnnouncementsText(ds[1..])), s);
  }

  lemma {:induction false} AnnouncementsLex(ds: seq<Announcement>, s: string, docs: seq<HereDoc>)
    requires forall a <- ds :: CanAnnounce(a)
    ensures LexFrom(AnnouncementsText(ds) + s, Owing(docs))
         == AnnouncementsTokens(ds) + LexFrom(s, Owing(docs + Documents(ds)))
    decreases |ds|
  {
    if ds == [] {
      assert AnnouncementsText(ds) + s == s && docs + [] == docs;
    } else {
      var here := HereDoc(ds[0].delim.text, ds[0].stripTabs);
      AnnouncementsSplit(ds, s);
      AnnouncementLexes(ds[0], AnnouncementsText(ds[1..]) + s, docs);
      AnnouncementsLex(ds[1..], s, docs + [here]);
      Associate(docs, [here], Documents(ds[1..]));
      Associate([Token(Operator(ds[0]), Op), Token(ds[0].delim.text, Word)], AnnouncementsTokens(ds[1..]),
                LexFrom(s, Owing(docs + Documents(ds))));
    }
  }

  // From announcement to body: whatever lines the bodies hold, the tokens are those of the line
  // that announces them, a newline, and those of what follows the last body.
  lemma HereDocsRoundTrip(p: string, ds: seq<Announcement>, ws: seq<Written>, s: string)
    requires EndsCleanly(p)
    requires forall a <- ds :: CanAnnounce(a)
    requires AreBodiesOf(ws, Documents(ds))
    ensures Lex(p + (AnnouncementsText(ds) + ("\n" + BodiesText(ws) + s)))
         == Lex(p) + (AnnouncementsTokens(ds) + ([Token("\n", Op)] + Lex(s)))
  {
    var tail := "\n" + BodiesText(ws) + s;
    LexComposes(p, AnnouncementsText(ds) + tail);
    AnnouncementsLex(ds, tail, []);
    assert [] + Documents(ds) == Documents(ds);
    NewlineSkipsBodies(ws, s, Owing(Documents(ds)));
  }
}
