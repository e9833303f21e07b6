// Quoting has no influence on what is read, and a plain read command reads what it names.
module BashRequoting {
  import opened ShellSyntax
  import opened ShellComposition
  import opened ShellQuoting
  import opened ShellTrees
  import opened ShellRoundTrip
  import opened ShellReread
  import opened BashReads

  // Tokens that differ at most in the text of substitutions, which read the same files.
  ghost predicate Alike(a: seq<Token>, b: seq<Token>, depth: nat, t: Tables) {
    |a| == |b| && forall i | 0 <= i < |a| :: AlikeToken(a[i], b[i], depth, t)
  }

  ghost predicate AlikeToken(x: Token, y: Token, depth: nat, t: Tables) {
    && x.kind == y.kind
    && (x.kind != Subst ==> x.text == y.text)
    && (x.kind == Subst ==> Reads(x.text, depth + 1, t) == Reads(y.text, depth + 1, t))
  }

  lemma AlikeTail(a: seq<Token>, b: seq<Token>, depth: nat, t: Tables)
    requires Alike(a, b, depth, t) && a != []
    ensures AlikeToken(a[0], b[0], depth, t) && Alike(a[1..], b[1..], depth, t)
  {
  }

  lemma AlikeConcat(a: seq<Token>, b: seq<Token>, c: seq<Token>, d: seq<Token>, depth: nat, t: Tables)
    requires Alike(a, b, depth, t) && Alike(c, d, depth, t)
    ensures Alike(a + c, b + d, depth, t)
  {
  }

  lemma {:induction false} AlikeRuns(a: seq<Token>, b: seq<Token>, depth: nat, t: Tables)
    requires Alike(a, b, depth, t)
    ensures RunLength(a) == RunLength(b)
    decreases |a|
  {
    if a != [] {
      AlikeTail(a, b, depth, t);
      AlikeRuns(a[1..], b[1..], depth, t);
    }
  }

  lemma {:induction false} AlikeWords(w: Words, a: seq<Token>, b: seq<Token>, depth: nat, t: Tables)
    requires Alike(a, b, depth, t)
    ensures TakeTokens(w, a) == TakeTokens(w, b)
    decreases |a|
  {
    if a != [] {
      AlikeTail(a, b, depth, t);
      AlikeWords(TakeToken(w, a[0]), a[1..], b[1..], depth, t);
    }
  }

  lemma {:induction false} AlikeSubsts(a: seq<Token>, b: seq<Token>, depth: nat, t: Tables)
    requires Alike(a, b, depth, t) && depth <= MAX_SUBST_DEPTH
    ensures SubstReads(a, depth, t) == SubstReads(b, depth, t)
    decreases |a|
  {
    if a != [] {
      AlikeTail(a, b, depth, t);
      AlikeSubsts(a[1..], b[1..], depth, t);
    }
  }

  lemma {:induction false} AlikeReads(a: seq<Token>, b: seq<Token>, depth: nat, t: Tables)
    requires Alike(a, b, depth, t) && depth <= MAX_SUBST_DEPTH
    ensures TokensReads(a, depth, t) == TokensReads(b, depth, t)
    decreases |a|
  {
    if a != [] {
      AlikeTail(a, b, depth, t);
      if IsSeparator(a[0]) {
        AlikeReads(a[1..], b[1..], depth, t);
      } else {
        AlikeRuns(a, b, depth, t);
        var n := RunLength(a);
        AlikeWords(Words([], false), a[..n], b[..n], depth, t);
        AlikeSubsts(a[..n], b[..n], depth, t);
        AlikeReads(a[n..], b[n..], depth, t);
      }
    }
  }

  lemma OneAlike(c: seq<Item>, d: seq<Item>, depth: nat, t: Tables)
    requires Reads(Print(c), depth + 1, t) == Reads(Print(d), depth + 1, t)
    ensures Alike([Token(Print(c), Subst)], [Token(Print(d), Subst)], depth, t)
  {
  }

  // Commands that read the same files, one by one.
  ghost predicate ReadAlike(a: seq<seq<Item>>, b: seq<seq<Item>>, depth: nat, t: Tables) {
    |a| == |b| && forall i | 0 <= i < |a| :: Reads(Print(a[i]), depth, t) == Reads(Print(b[i]), depth, t)
  }

  lemma {:induction false} AlikeBodies(a: seq<seq<Item>>, b: seq<seq<Item>>, depth: nat, t: Tables)
    requires ReadAlike(a, b, depth + 1, t)
    ensures Alike(BodiesTokens(a), BodiesTokens(b), depth, t)
    decreases |a|
  {
    if a != [] {
      OneAlike(a[0], b[0], depth, t);
      AlikeBodies(a[1..], b[1..], depth, t);
      AlikeConcat([Token(Print(a[0]), Subst)], [Token(Print(b[0]), Subst)],
                  BodiesTokens(a[1..]), BodiesTokens(b[1..]), depth, t);
    }
  }

  lemma {:induction false} SameShapeTokens(c: seq<Item>, d: seq<Item>, depth: nat, t: Tables)
    requires IsCommand(c) && IsCommand(d) && Fits(c) && Fits(d) && Erase(c) == Erase(d) && depth <= MAX_SUBST_DEPTH
    ensures Alike(Tokens(c), Tokens(d), depth, t)
    decreases Room(depth), 2, |c|
  {
    if c == [] || d == [] {
      assert Erase(c) == [] && Erase(d) == [];
    } else {
      assert EraseItem(c[0]) == Erase(c)[0] == Erase(d)[0] == EraseItem(d[0]);
      assert Erase(c[1..]) == Erase(c)[1..] == Erase(d)[1..] == Erase(d[1..]);
      SameShapeTokens(c[1..], d[1..], depth, t);
      SameShapeItems(c[0], d[0], depth, t);
      AlikeConcat(ItemTokens(c[0]), ItemTokens(d[0]), Tokens(c[1..]), Tokens(d[1..]), depth, t);
    }
  }

  lemma {:induction false} SameShapeItems(x: Item, y: Item, depth: nat, t: Tables)
    requires IsItem(x) && IsItem(y) && EraseItem(x) == EraseItem(y) && depth <= MAX_SUBST_DEPTH
    requires DepthOfItem(x) <= MAX_NEST && DepthOfItem(y) <= MAX_NEST
    ensures Alike(ItemTokens(x), ItemTokens(y), depth, t)
    decreases Room(depth), 1, 0
  {
    if x.WordItem? {
      SameShapeBodies(x.parts, y.parts, depth, t);
      TokensOfParts(x.parts);
      TokensOfParts(y.parts);
      AlikeBodies(Bodies(x.parts), Bodies(y.parts), depth, t);
      AlikeConcat(PartsTokens(x.parts), PartsTokens(y.parts),
                  [Token(PartsText(x.parts), Word)], [Token(PartsText(y.parts), Word)], depth, t);
    }
  }

  lemma {:induction false} SameShapeBodies(ps: seq<Part>, qs: seq<Part>, depth: nat, t: Tables)
    requires AreParts(ps) && AreParts(qs) && EraseParts(ps) == EraseParts(qs) && depth <= MAX_SUBST_DEPTH
    requires DepthOfParts(ps) <= MAX_NEST && DepthOfParts(qs) <= MAX_NEST
    ensures ReadAlike(Bodies(ps), Bodies(qs), depth + 1, t)
    decreases Room(depth), 0, 0
  {
    var a, b := Bodies(ps), Bodies(qs);
    BodiesAreCommands(ps);
    BodiesAreCommands(qs);
    ShapesOfParts(ps);
    ShapesOfParts(qs);
    forall i | 0 <= i < |a|
      ensures Reads(Print(a[i]), depth + 1, t) == Reads(Print(b[i]), depth + 1, t)
    {
      assert a[i] in a && b[i] in b;
      SameShapeReads(a[i], b[i], depth + 1, t);
    }
  }

  lemma {:induction false} SameShapeReads(c: seq<Item>, d: seq<Item>, depth: nat, t: Tables)
    requires IsCommand(c) && IsCommand(d) && Fits(c) && Fits(d) && Erase(c) == Erase(d)
    ensures Reads(Print(c), depth, t) == Reads(Print(d), depth, t)
    decreases Room(depth), 3
  {
    if depth <= MAX_SUBST_DEPTH {
      LexOfPrintedExactly(c);
      LexOfPrintedExactly(d);
      SameShapeTokens(c, d, depth, t);
      AlikeReads(Tokens(c), Tokens(d), depth, t);
    }
  }

  // Splitting up and quoting the literals of a tree in another way, at any depth, never changes its reads.
  lemma RequotingKeepsReads(c: seq<Item>, d: seq<Item>, depth: nat, t: Tables)
    requires IsCommand(c) && IsCommand(d) && Fits(c) && Fits(d) && Unquoted(c) == Unquoted(d)
    ensures Reads(Print(c), depth, t) == Reads(Print(d), depth, t)
  {
    SameShapeExactly(c, d);
    SameShapeReads(c, d, depth, t);
  }

  // -- any one word ----------------------------------------------------------

  // One word after a blank of any command, whatever surrounds it: a here-document's delimiter and
  // words inside parentheses are among them, and the word may go on in `s`.
  lemma RequotedWordKeepsTokens(a: string, ps: seq<Piece>, qs: seq<Piece>, s: string)
    requires AtBlankEnd(a, START).Some? && CanRenderAll(ps) && CanRenderAll(qs) && TextOf(ps) == TextOf(qs)
    ensures Lex(a + (RenderAll(ps) + s)) == Lex(a + (RenderAll(qs) + s))
  {
    var st := AtBlankEnd(a, START).value.1;
    BlankEndComposes(a, RenderAll(ps) + s, START);
    BlankEndComposes(a, RenderAll(qs) + s, START);
    PiecesJoin(ps, s, st);
    PiecesJoin(qs, s, st);
  }

  // Quoting it in any other way, leaving it bare where it needs no quotes, or any mixture of these never
  // changes what is read.
  lemma RequotedWordKeepsReads(a: string, ps: seq<Piece>, qs: seq<Piece>, s: string, depth: nat, t: Tables)
    requires AtBlankEnd(a, START).Some? && CanRenderAll(ps) && CanRenderAll(qs) && TextOf(ps) == TextOf(qs)
    ensures Reads(a + (RenderAll(ps) + s), depth, t) == Reads(a + (RenderAll(qs) + s), depth, t)
  {
    RequotedWordKeepsTokens(a, ps, qs, s);
  }

  predicate CanRenderAll(ps: seq<Piece>) {
    ps != [] && forall p <- ps :: CanRender(p)
  }

  // -- a plain read command reads what it names ------------------------------

  // The words of a command, each of them written as any mixture of quoted pieces.
  function RenderWords(words: seq<seq<Piece>>): string {
    if words == [] then "" else RenderAll(words[0]) + ([' '] + RenderWords(words[1..]))
  }

  function WordTexts(words: seq<seq<Piece>>): seq<string> {
    if words == [] then [] else [TextOf(words[0])] + WordTexts(words[1..])
  }

  function WordTokens(texts: seq<string>): seq<Token> {
    if texts == [] then [] else [Token(texts[0], Word)] + WordTokens(texts[1..])
  }

  function ConcreteOnly(words: seq<string>): seq<string> {
    if words == [] then []
    else (if NamesAConcretePath(words[0]) then [words[0]] else []) + ConcreteOnly(words[1..])
  }

  predicate CanRenderWords(words: seq<seq<Piece>>) {
    forall ps <- words :: CanRenderAll(ps)
  }

  lemma OneWordLex(ps: seq<Piece>, s: string)
    requires CanRenderAll(ps)
    ensures Lex(RenderAll(ps) + ([' '] + s)) == [Token(TextOf(ps), Word)] + Lex(s)
  {
    PiecesJoin(ps, [' '] + s, START);
    var st := AddText(START, TextOf(ps));
    assert ([' '] + s)[1..] == s && st.buf == TextOf(ps);
    assert Step([' '] + s, st) == More([Token(TextOf(ps), Word)], s, START);
  }

  lemma {:induction false} WordsLex(words: seq<seq<Piece>>)
    requires CanRenderWords(words)
    ensures Lex(RenderWords(words)) == WordTokens(WordTexts(words))
  {
    if words != [] {
      assert words[0] in words && forall ps <- words[1..] :: ps in words;
      OneWordLex(words[0], RenderWords(words[1..]));
      WordsLex(words[1..]);
      assert WordTexts(words)[1..] == WordTexts(words[1..]);
    }
  }

  lemma {:induction false} WordsAreOneRun(texts: seq<string>, w: seq<string>, depth: nat, t: Tables)
    requires depth <= MAX_SUBST_DEPTH
    ensures RunLength(WordTokens(texts)) == |WordTokens(texts)|
    ensures SubstReads(WordTokens(texts), depth, t) == []
    ensures TakeTokens(Words(w, false), WordTokens(texts)) == Words(w + texts, false)
    decreases |texts|
  {
    if texts == [] {
      assert w + [] == w;
    } else {
      WordsAreOneRun(texts[1..], w + [texts[0]], depth, t);
      assert WordTokens(texts)[1..] == WordTokens(texts[1..]);
      assert w + [texts[0]] + texts[1..] == w + texts;
    }
  }

  // Words alone are the words of one program.
  lemma WordsAreOneProgram(texts: seq<string>, depth: nat, t: Tables)
    requires texts != [] && depth <= MAX_SUBST_DEPTH
    ensures TokensReads(WordTokens(texts), depth, t) == ProgramReads(texts, depth, t)
  {
    var tokens := WordTokens(texts);
    WordsAreOneRun(texts, [], depth, t);
    assert [] + texts == texts;
    assert !IsSeparator(tokens[0]);
    assert tokens[..|tokens|] == tokens && tokens[|tokens|..] == [];
    assert TokensReads(tokens, depth, t) == SubReads(tokens, depth, t) + [];
    assert SubReads(tokens, depth, t) == [] + ProgramReads(texts, depth, t);
  }

  lemma {:induction false} OperandsAreFiles(cmd: string, args: seq<string>, t: Tables)
    requires forall arg <- args :: !IsFlag(arg)
    ensures ReadArgs(cmd, args, true, false, t) == ConcreteOnly(args)
  {
    if args != [] {
      OperandsAreFiles(cmd, args[1..], t);
    }
  }

  predicate IsPlainReader(cmd: string, t: Tables) {
    && cmd == BaseName(cmd) && cmd in t.readCmds && cmd !in t.patternCmds && cmd !in t.shellCmds && cmd != "find"
    && !IsAssignment(cmd) && cmd !in t.keywords && cmd !in t.wrapperCmds
  }

  lemma PlainReaderReads(argv: seq<string>, depth: nat, t: Tables)
    requires argv != [] && IsPlainReader(argv[0], t) && depth <= MAX_SUBST_DEPTH
    requires forall arg <- argv[1..] :: !IsFlag(arg)
    ensures ProgramReads(argv, depth, t) == ConcreteOnly(argv[1..])
  {
    assert StripWrappers(argv, t) == argv;
    OperandsAreFiles(argv[0], argv[1..], t);
  }

  // `cat f g …`, with its words quoted in any way, reads f, g, … and nothing else: no operand that
  // names a file is lost, whatever characters it contains.
  lemma PlainReadIsExact(cmd: seq<Piece>, files: seq<seq<Piece>>, depth: nat, t: Tables)
    requires CanRenderAll(cmd) && IsPlainReader(TextOf(cmd), t) && depth <= MAX_SUBST_DEPTH
    requires CanRenderWords(files) && forall ps <- files :: !IsFlag(TextOf(ps))
    ensures Reads(RenderWords([cmd] + files), depth, t) == ConcreteOnly(WordTexts(files))
  {
    var words := [cmd] + files;
    var argv := WordTexts(words);
    assert words[1..] == files && argv[0] == TextOf(cmd) && argv[1..] == WordTexts(files);
    WordsLex(words);
    WordsAreOneProgram(argv, depth, t);
    FlagFree(files);
    PlainReaderReads(argv, depth, t);
  }

  lemma {:induction false} FlagFree(files: seq<seq<Piece>>)
    requires forall ps <- files :: !IsFlag(TextOf(ps))
    ensures forall arg <- WordTexts(files) :: !IsFlag(arg)
  {
    if files != [] {
      FlagFree(files[1..]);
    }
  }
}
