// What the extractor promises about the files it reports.
module BashReadLaws {
  import opened Wrappers
  import opened Sequences
  import opened ShellSyntax
  import opened ShellComposition
  import opened BashReads

  // -- no read is made up ----------------------------------------------------

  // `run` is one of the sub-commands that the separators among `tokens` set apart.
  predicate IsRun(run: seq<Token>, tokens: seq<Token>)
    decreases |tokens|
  {
    tokens != [] &&
    if IsSeparator(tokens[0]) then IsRun(run, tokens[1..])
    else
      var n := RunLength(tokens);
      run == tokens[..n] || IsRun(run, tokens[n..])
  }

  // `find` among the programs that `t` does not take for a shell.
  predicate IsFind(words: seq<string>, t: Tables) {
    var argv := StripWrappers(words, t);
    argv != [] && BaseName(argv[0]) == "find" && BaseName(argv[0]) !in t.shellCmds
  }

  // Executing `outer` executes `words`: they are the same, or `outer` is a `find` that executes a
  // command of its own which does.
  predicate Executes(outer: seq<string>, words: seq<string>, t: Tables)
    decreases |outer|
  {
    outer == words
    || (IsFind(outer, t) && exists body <- ExecBodies(StripWrappers(outer, t)) ::
      |body| < |outer| && Executes(body, words, t))
  }

  // The program with the words `words` is invoked by the command `c`.
  ghost predicate Invokes(c: string, words: seq<string>, t: Tables) {
    exists run :: IsRun(run, Lex(c)) && Executes(CommandWords(run), words, t)
  }

  // `d` is the script that an invocation of a shell is given.
  predicate IsScriptOf(d: string, words: seq<string>, t: Tables) {
    var argv := StripWrappers(words, t);
    argv != [] && BaseName(argv[0]) in t.shellCmds && ScriptOf(argv[1..]) == Some(d)
  }

  // `d` is executed by `c`: as a substitution in it, or as the script of a shell that it invokes.
  ghost predicate Runs(c: string, d: string, t: Tables) {
    Token(d, Subst) in Lex(c) || exists words :: Invokes(c, words, t) && IsScriptOf(d, words, t)
  }

  // `d` is reached from `c` in at most `n` such steps.
  ghost predicate Reaches(c: string, d: string, n: nat, t: Tables)
    decreases n
  {
    c == d || (n > 0 && exists m :: Runs(c, m, t) && Reaches(m, d, n - 1, t))
  }

  // `f` is an argument of an invocation of a reader.
  predicate IsOperand(f: string, words: seq<string>, t: Tables) {
    var argv := StripWrappers(words, t);
    argv != [] && BaseName(argv[0]) in t.readCmds && f in argv[1..]
  }

  // `f` stands word for word in `d`, as an argument of a reader that `d` invokes.
  ghost predicate IsReadIn(f: string, d: string, t: Tables) {
    Token(f, Word) in Lex(d) && exists words :: Invokes(d, words, t) && IsOperand(f, words, t)
  }

  // The same in `c` or in a command reached from it.
  ghost predicate IsReadBelow(f: string, c: string, n: nat, t: Tables) {
    exists d :: Reaches(c, d, n, t) && IsReadIn(f, d, t)
  }

  // Every one of `words` is a word token among `tokens`.
  predicate AreWordsOf(words: seq<string>, tokens: seq<Token>) {
    forall w <- words :: Token(w, Word) in tokens
  }

  lemma {:induction false} TakenWordsAreWords(w: Words, sub: seq<Token>, tokens: seq<Token>)
    requires AreWordsOf(w.words, tokens) && forall t <- sub :: t in tokens
    ensures AreWordsOf(TakeTokens(w, sub).words, tokens)
    decreases |sub|
  {
    if sub != [] {
      assert sub[0] in tokens;
      TakenWordsAreWords(TakeToken(w, sub[0]), sub[1..], tokens);
    }
  }

  lemma {:induction false} FlagsAreASuffix(words: seq<string>)
    ensures forall w <- DropFlags(words) :: w in words
  {
    if words != [] && IsFlag(words[0]) {
      FlagsAreASuffix(words[1..]);
    }
  }

  lemma {:induction false} StrippedWordsAreWords(words: seq<string>, t: Tables)
    ensures forall w <- StripWrappers(words, t) :: w in words
    decreases |words|
  {
    if words == [] {
    } else if IsAssignment(words[0]) || words[0] in t.keywords {
      StrippedWordsAreWords(words[1..], t);
    } else if BaseName(words[0]) in t.wrapperCmds {
      FlagsAreASuffix(words[1..]);
      StrippedWordsAreWords(DropFlags(words[1..]), t);
    }
  }

  lemma {:induction false} ArgsAreConcreteWords(cmd: string, args: seq<string>, seen: bool, eoo: bool, t: Tables)
    ensures forall f <- ReadArgs(cmd, args, seen, eoo, t) :: f in args && NamesAConcretePath(f)
    decreases |args|
  {
    if args != [] {
      ArgsAreConcreteWords(cmd, args[1..], seen, eoo, t);
      ArgsAreConcreteWords(cmd, args[1..], seen, true, t);
      ArgsAreConcreteWords(cmd, args[1..], true, eoo, t);
      ArgsAreConcreteWords(cmd, DropValue(args), true, eoo, t);
      ArgsAreConcreteWords(cmd, DropValue(args), seen, eoo, t);
    }
  }

  lemma {:induction false} BodiesAreWords(words: seq<string>)
    ensures forall body <- ExecBodies(words) :: |body| < |words| && forall w <- body :: w in words
    decreases |words|
  {
    if words != [] {
      BodiesAreWords(words[1..]);
      BodiesAreWords(words[1..][BodyLength(words[1..])..]);
    }
  }

  lemma {:induction false} StrippedIsNoLonger(words: seq<string>, t: Tables)
    ensures |StripWrappers(words, t)| <= |words|
    decreases |words|
  {
    if words == [] {
    } else if IsAssignment(words[0]) || words[0] in t.keywords {
      StrippedIsNoLonger(words[1..], t);
    } else if BaseName(words[0]) in t.wrapperCmds {
      StrippedIsNoLonger(DropFlags(words[1..]), t);
    }
  }

  // What an invoked `find` executes is invoked.
  lemma {:induction false} ExecutesBodies(outer: seq<string>, words: seq<string>, body: seq<string>, t: Tables)
    requires Executes(outer, words, t) && IsFind(words, t) && body in ExecBodies(StripWrappers(words, t))
    ensures Executes(outer, body, t)
    decreases |outer|
  {
    if outer == words {
      BodiesAreWords(StripWrappers(words, t));
      StrippedIsNoLonger(words, t);
      assert Executes(body, body, t);
    } else {
      var inner :| inner in ExecBodies(StripWrappers(outer, t)) && |inner| < |outer| && Executes(inner, words, t);
      ExecutesBodies(inner, words, body, t);
    }
  }

  lemma InvokesBodies(c: string, words: seq<string>, body: seq<string>, t: Tables)
    requires Invokes(c, words, t) && IsFind(words, t) && body in ExecBodies(StripWrappers(words, t))
    ensures Invokes(c, body, t)
  {
    var run :| IsRun(run, Lex(c)) && Executes(CommandWords(run), words, t);
    ExecutesBodies(CommandWords(run), words, body, t);
  }

  ghost predicate AreGenuine(files: seq<string>, command: string, n: nat, t: Tables) {
    forall f <- files :: NamesAConcretePath(f) && IsReadBelow(f, command, n, t)
  }

  lemma GenuineBelow(files: seq<string>, command: string, d: string, n: nat, t: Tables)
    requires Runs(command, d, t) && n > 0 && AreGenuine(files, d, n - 1, t)
    ensures AreGenuine(files, command, n, t)
  {
    forall f <- files
      ensures IsReadBelow(f, command, n, t)
    {
      var e :| Reaches(d, e, n - 1, t) && IsReadIn(f, e, t);
      assert Reaches(command, e, n, t);
    }
  }

  lemma GenuineHere(files: seq<string>, command: string, n: nat, t: Tables)
    requires forall f <- files :: NamesAConcretePath(f) && IsReadIn(f, command, t)
    ensures AreGenuine(files, command, n, t)
  {
    forall f <- files
      ensures IsReadBelow(f, command, n, t)
    {
      assert Reaches(command, command, n, t);
    }
  }

  lemma {:induction false} ProgramIsGenuine(words: seq<string>, depth: nat, t: Tables, command: string)
    requires AreWordsOf(words, Lex(command)) && Invokes(command, words, t)
    ensures AreGenuine(ProgramReads(words, depth, t), command, Room(depth), t)
    decreases Room(depth), 1, 1
  {
    var argv := StripWrappers(words, t);
    StrippedWordsAreWords(words, t);
    if depth <= MAX_SUBST_DEPTH && argv != [] {
      var cmd := BaseName(argv[0]);
      assert AreWordsOf(argv, Lex(command)) && forall w <- argv[1..] :: w in argv;
      if cmd in t.shellCmds {
        ScriptIsGenuine(words, depth, t, command);
      } else if cmd == "find" {
        FindIsGenuine(words, depth, t, command);
      } else if cmd in t.readCmds {
        ReaderFilesAreGenuine(words, t, command, Room(depth));
      }
    }
  }

  lemma {:induction false} ScriptIsGenuine(words: seq<string>, depth: nat, t: Tables, command: string)
    requires depth <= MAX_SUBST_DEPTH && Invokes(command, words, t)
    requires var argv := StripWrappers(words, t); argv != [] && BaseName(argv[0]) in t.shellCmds
    ensures var script := ScriptOf(StripWrappers(words, t)[1..]);
            script.Some? ==> AreGenuine(Reads(script.value, depth + 1, t), command, Room(depth), t)
    decreases Room(depth), 0, 0
  {
    var script := ScriptOf(StripWrappers(words, t)[1..]);
    if script.Some? {
      assert IsScriptOf(script.value, words, t);
      assert Runs(command, script.value, t);
      ReadsAreGenuine(script.value, depth + 1, t);
      GenuineBelow(Reads(script.value, depth + 1, t), command, script.value, Room(depth), t);
    }
  }

  lemma ReaderFilesAreGenuine(words: seq<string>, t: Tables, command: string, n: nat)
    requires AreWordsOf(words, Lex(command)) && Invokes(command, words, t)
    requires var argv := StripWrappers(words, t); argv != [] && BaseName(argv[0]) in t.readCmds
    ensures var argv := StripWrappers(words, t); AreGenuine(ReaderFiles(BaseName(argv[0]), argv[1..], t), command, n, t)
  {
    var argv := StripWrappers(words, t);
    var cmd := BaseName(argv[0]);
    var files := ReaderFiles(cmd, argv[1..], t);
    StrippedWordsAreWords(words, t);
    ArgsAreConcreteWords(cmd, argv[1..], cmd !in t.patternCmds, false, t);
    forall f <- files
      ensures NamesAConcretePath(f) && IsReadIn(f, command, t)
    {
      assert f in argv[1..] && f in argv && f in words;
      assert IsOperand(f, words, t);
    }
    GenuineHere(files, command, n, t);
  }

  lemma {:induction false} FindIsGenuine(words: seq<string>, depth: nat, t: Tables, command: string)
    requires depth <= MAX_SUBST_DEPTH && AreWordsOf(words, Lex(command)) && Invokes(command, words, t)
             && IsFind(words, t)
    ensures AreGenuine(BodiesReads(ExecBodies(StripWrappers(words, t)), depth, t), command, Room(depth), t)
    decreases Room(depth), 1, 0
  {
    var argv := StripWrappers(words, t);
    StrippedWordsAreWords(words, t);
    BodiesAreWords(argv);
    forall body <- ExecBodies(argv)
      ensures AreWordsOf(body, Lex(command)) && Invokes(command, body, t)
    {
      InvokesBodies(command, words, body, t);
    }
    InvocationsAre(ExecBodies(argv), command, t);
    BodiesAreGenuine(ExecBodies(argv), depth, t, command);
  }

  lemma {:induction false} BodiesAreGenuine(bodies: seq<seq<string>>, depth: nat, t: Tables, command: string)
    requires depth <= MAX_SUBST_DEPTH
    requires AreInvocations(bodies, command, t)
    ensures AreGenuine(BodiesReads(bodies, depth, t), command, Room(depth), t)
    decreases Room(depth), 0, |bodies|
  {
    if bodies != [] {
      var here, there := ProgramReads(bodies[0], depth + 1, t), BodiesReads(bodies[1..], depth, t);
      BodyIsGenuine(bodies[0], depth, t, command);
      BodiesAreGenuine(bodies[1..], depth, t, command);
      GenuineConcat(here, there, command, Room(depth), t);
    }
  }

  lemma {:induction false} BodyIsGenuine(body: seq<string>, depth: nat, t: Tables, command: string)
    requires depth <= MAX_SUBST_DEPTH
    requires AreWordsOf(body, Lex(command)) && Invokes(command, body, t)
    ensures AreGenuine(ProgramReads(body, depth + 1, t), command, Room(depth), t)
    decreases Room(depth), 0, 0
  {
    ProgramIsGenuine(body, depth + 1, t, command);
    assert Room(depth) == Room(depth + 1) + 1;
    GenuineDeeper(ProgramReads(body, depth + 1, t), command, Room(depth + 1), t);
  }

  // Every one of `bodies` is invoked by `command` and consists of its words.
  ghost predicate AreInvocations(bodies: seq<seq<string>>, command: string, t: Tables) {
    bodies == []
    || (AreWordsOf(bodies[0], Lex(command)) && Invokes(command, bodies[0], t)
      && AreInvocations(bodies[1..], command, t))
  }

  lemma {:induction false} InvocationsAre(bodies: seq<seq<string>>, command: string, t: Tables)
    requires forall body <- bodies :: AreWordsOf(body, Lex(command)) && Invokes(command, body, t)
    ensures AreInvocations(bodies, command, t)
  {
    if bodies != [] {
      assert bodies[0] in bodies && forall body <- bodies[1..] :: body in bodies;
      InvocationsAre(bodies[1..], command, t);
    }
  }

  lemma GenuineConcat(a: seq<string>, b: seq<string>, command: string, n: nat, t: Tables)
    requires AreGenuine(a, command, n, t) && AreGenuine(b, command, n, t)
    ensures AreGenuine(a + b, command, n, t)
  {
  }

  lemma GenuineDeeper(files: seq<string>, command: string, n: nat, t: Tables)
    requires AreGenuine(files, command, n, t)
    ensures AreGenuine(files, command, n + 1, t)
  {
    forall f <- files
      ensures IsReadBelow(f, command, n + 1, t)
    {
      var d :| Reaches(command, d, n, t) && IsReadIn(f, d, t);
      ReachesDeeper(command, d, n, t);
    }
  }

  lemma {:induction false} ReachesDeeper(c: string, d: string, n: nat, t: Tables)
    requires Reaches(c, d, n, t)
    ensures Reaches(c, d, n + 1, t)
    decreases n
  {
    if c != d {
      var m :| Runs(c, m, t) && Reaches(m, d, n - 1, t);
      ReachesDeeper(m, d, n - 1, t);
    }
  }

  lemma {:induction false} SubstsAreGenuine(sub: seq<Token>, depth: nat, t: Tables, command: string)
    requires depth <= MAX_SUBST_DEPTH && forall x <- sub :: x in Lex(command)
    ensures AreGenuine(SubstReads(sub, depth, t), command, Room(depth), t)
    decreases Room(depth), 1, |sub|
  {
    if sub != [] {
      SubstsAreGenuine(sub[1..], depth, t, command);
      if sub[0].kind == Subst {
        assert sub[0] == Token(sub[0].text, Subst) && sub[0] in Lex(command);
        ReadsAreGenuine(sub[0].text, depth + 1, t);
        GenuineBelow(Reads(sub[0].text, depth + 1, t), command, sub[0].text, Room(depth), t);
      }
    }
  }

  lemma {:induction false} RunIsGenuine(run: seq<Token>, depth: nat, t: Tables, command: string)
    requires depth <= MAX_SUBST_DEPTH && IsRun(run, Lex(command)) && forall x <- run :: x in Lex(command)
    ensures AreGenuine(SubReads(run, depth, t), command, Room(depth), t)
    decreases Room(depth), 2
  {
    SubstsAreGenuine(run, depth, t, command);
    TakenWordsAreWords(Words([], false), run, Lex(command));
    assert Executes(CommandWords(run), CommandWords(run), t);
    ProgramIsGenuine(CommandWords(run), depth, t, command);
  }

  lemma {:induction false} TokensAreGenuine(tokens: seq<Token>, depth: nat, t: Tables, command: string)
    requires depth <= MAX_SUBST_DEPTH && (forall x <- tokens :: x in Lex(command))
    requires forall run :: IsRun(run, tokens) ==> IsRun(run, Lex(command))
    ensures AreGenuine(TokensReads(tokens, depth, t), command, Room(depth), t)
    decreases Room(depth), 3, |tokens|
  {
    if tokens == [] {
    } else if IsSeparator(tokens[0]) {
      TokensAreGenuine(tokens[1..], depth, t, command);
    } else {
      var n := RunLength(tokens);
      assert forall x <- tokens[..n] :: x in tokens;
      assert forall x <- tokens[n..] :: x in tokens;
      assert IsRun(tokens[..n], tokens);
      RunIsGenuine(tokens[..n], depth, t, command);
      TokensAreGenuine(tokens[n..], depth, t, command);
    }
  }

  // Every reported file is, word for word, an argument of a reader that the command invokes, or that is
  // invoked by a command it runs, and its name is determined by the text alone.
  lemma {:induction false} ReadsAreGenuine(command: string, depth: nat, t: Tables)
    ensures AreGenuine(Reads(command, depth, t), command, Room(depth), t)
    decreases Room(depth), 4
  {
    if depth <= MAX_SUBST_DEPTH {
      TokensAreGenuine(Lex(command), depth, t, command);
    }
  }

  // -- reads compose ---------------------------------------------------------

  lemma {:induction false} RunLengthBefore(a: seq<Token>, sep: Token, b: seq<Token>)
    requires IsSeparator(sep)
    ensures RunLength(a + [sep] + b) == RunLength(a)
  {
    if a == [] || IsSeparator(a[0]) {
    } else {
      assert (a + [sep] + b)[1..] == a[1..] + [sep] + b;
      RunLengthBefore(a[1..], sep, b);
    }
  }

  lemma {:induction false} TokensReadsCompose(a: seq<Token>, sep: Token, b: seq<Token>, depth: nat, t: Tables)
    requires depth <= MAX_SUBST_DEPTH && IsSeparator(sep)
    ensures TokensReads(a + [sep] + b, depth, t) == TokensReads(a, depth, t) + TokensReads(b, depth, t)
    decreases |a|
  {
    var all := a + [sep] + b;
    if a == [] {
      assert all[1..] == b;
    } else if IsSeparator(a[0]) {
      assert all[1..] == a[1..] + [sep] + b;
      TokensReadsCompose(a[1..], sep, b, depth, t);
    } else {
      var n := RunLength(a);
      RunLengthBefore(a, sep, b);
      assert all[..n] == a[..n] && all[n..] == a[n..] + [sep] + b;
      TokensReadsCompose(a[n..], sep, b, depth, t);
      Associate(SubReads(a[..n], depth, t), TokensReads(a[n..], depth, t), TokensReads(b, depth, t));
    }
  }

  // A command split at a separator reads what its parts read, in order.
  lemma ReadsCompose(p: string, sep: string, s: string, depth: nat, t: Tables)
    requires EndsCleanly(p) && sep in {"|", "||", "|&", "&", "&&", ";", ";;", "(", ")", "\n"}
    requires sep == "\n" || MatchOperator(sep + s) == Some(sep)
    ensures Reads(p + sep + s, depth, t) == Reads(p, depth, t) + Reads(s, depth, t)
  {
    LexComposesAcross(p, sep, s);
    if depth <= MAX_SUBST_DEPTH {
      TokensReadsCompose(Lex(p), Token(sep, Op), Lex(s), depth, t);
    }
  }
}
