// What each form of a command reads, exactly: readers with flags and patterns, shells and `find`, what is
// stripped before a program, redirects, and substitutions down to the bound.
module BashForms {
  import opened Wrappers
  import opened Sequences
  import opened ShellSyntax
  import opened ShellLocality
  import opened ShellComposition
  import opened ShellQuoting
  import opened ShellTrees
  import opened ShellRoundTrip
  import opened ShellHereDocs
  import opened ShellForms
  import opened BashReads
  import opened BashReadLaws
  import opened BashRequoting

  // -- words -------------------------------------------------------------------------

  // An operand names a path exactly if it holds no mark of a substitution, no glob and no placeholder.
  lemma ConcretePathsAre(w: string)
    ensures NamesAConcretePath(w) <==>
            forall i | 0 <= i < |w| ::
              w[i] != '\0' && w[i] != '*' && w[i] != '?' && (w[i] == '{' && i + 1 < |w| ==> w[i + 1] != '}')
  {
    if NamesAConcretePath(w) {
      assert forall i | 0 <= i < |w| :: w[i] in w;
    }
  }

  // A dash with something after it.
  lemma FlagsAre(rest: string, w: string)
    ensures IsFlag("-" + rest) <==> rest != ""
    ensures (w == "" || w[0] != '-') ==> !IsFlag(w)
  {
  }

  predicate IsLetter(c: char) {
    c == '_' || 'a' <= c <= 'z' || 'A' <= c <= 'Z'
  }

  // The name of a variable, `=`, and anything.
  ghost predicate IsAssignmentOf(w: string, name: string, value: string) {
    && w == name + "=" + value && name != "" && IsLetter(name[0])
    && forall c <- name :: IsLetter(c) || '0' <= c <= '9'
  }

  lemma {:induction false} NameEnds(name: string, value: string)
    requires forall c <- name :: IsLetter(c) || '0' <= c <= '9'
    ensures NameThenEquals(name + "=" + value)
  {
    var s := name + "=" + value;
    if name != "" {
      assert name[0] in name && forall c <- name[1..] :: c in name;
      assert s[0] == name[0] && s[1..] == name[1..] + "=" + value;
      NameEnds(name[1..], value);
    }
  }

  lemma {:induction false} NameFound(s: string) returns (name: string, value: string)
    requires NameThenEquals(s)
    ensures s == name + "=" + value && forall c <- name :: IsLetter(c) || '0' <= c <= '9'
  {
    if s[0] == '=' {
      name, value := "", s[1..];
    } else {
      name, value := NameFound(s[1..]);
      assert s == [s[0]] + s[1..];
      name := [s[0]] + name;
    }
  }

  lemma AssignmentsAre(w: string)
    ensures IsAssignment(w) <==> exists name, value :: IsAssignmentOf(w, name, value)
  {
    if IsAssignment(w) {
      var name, value := NameFound(w[1..]);
      assert w == [w[0]] + w[1..];
      assert IsAssignmentOf(w, [w[0]] + name, value);
    }
    if name, value :| IsAssignmentOf(w, name, value) {
      assert forall c <- name[1..] :: c in name;
      assert w[1..] == name[1..] + "=" + value;
      NameEnds(name[1..], value);
    }
  }

  // A program is known by what follows the last slash of its name.
  lemma {:induction false} BaseNameOfPlain(name: string)
    requires '/' !in name
    ensures BaseName(name) == name
  {
    if name != "" {
      var n := |name| - 1;
      assert name[n] in name && forall c <- name[..n] :: c in name;
      BaseNameOfPlain(name[..n]);
      assert name == name[..n] + [name[n]];
    }
  }

  lemma {:induction false} BaseNameIs(dir: string, name: string)
    requires '/' !in name
    ensures BaseName(dir + ("/" + name)) == name && BaseName(name) == name
  {
    BaseNameOfPlain(name);
    var all := dir + ("/" + name);
    if name == "" {
      assert all[|all| - 1] == '/';
    } else {
      var n := |name| - 1;
      assert name[n] in name && forall c <- name[..n] :: c in name;
      assert all[|all| - 1] == name[n] && all[..|all| - 1] == dir + ("/" + name[..n]);
      BaseNameIs(dir, name[..n]);
      assert name == name[..n] + [name[n]];
    }
  }

  // -- the arguments of a reader ---------------------------------------------------------

  // A flag by itself, a flag with its value, a flag that gives the pattern, or an operand.
  datatype Arg =
    | Switch(flag: string)
    | WithValue(flag: string, value: string)
    | Given(flag: string, pattern: string)
    | Operand(word: string)

  predicate IsArg(a: Arg, cmd: string, t: Tables) {
    if a.Operand? then !IsFlag(a.word)
    else
      && IsFlag(a.flag) && a.flag != "--"
      && (a.Given? <==> cmd in t.patternCmds && a.flag in t.patternFlags)
      && (a.WithValue? ==> cmd in t.valueFlags && a.flag in t.valueFlags[cmd])
      && (a.Switch? ==> cmd !in t.valueFlags || a.flag !in t.valueFlags[cmd])
  }

  predicate AreArgs(args: seq<Arg>, cmd: string, t: Tables) {
    forall a <- args :: IsArg(a, cmd, t)
  }

  function ArgWords(a: Arg): seq<string> {
    match a
    case Switch(flag) => [flag]
    case WithValue(flag, value) => [flag, value]
    case Given(flag, pattern) => [flag, pattern]
    case Operand(word) => [word]
  }

  function ArgsWords(args: seq<Arg>): seq<string> {
    if args == [] then [] else ArgWords(args[0]) + ArgsWords(args[1..])
  }

  function Operands(args: seq<Arg>): seq<string> {
    if args == [] then []
    else (if args[0].Operand? then [args[0].word] else []) + Operands(args[1..])
  }

  // A flag gives the pattern before any operand could be it.
  predicate IsPatternGiven(args: seq<Arg>) {
    exists i | 0 <= i < |args| :: args[i].Given? && forall j | 0 <= j < i :: !args[j].Operand?
  }

  // The operands that are files: all of them, but for one that is the pattern.
  function FilesAmong(operands: seq<string>, patternSeen: bool): seq<string> {
    if patternSeen || operands == [] then operands else operands[1..]
  }

  // After `--` every word is an operand.
  lemma {:induction false} AfterOptions(cmd: string, words: seq<string>, seen: bool, t: Tables)
    ensures ReadArgs(cmd, words, seen, true, t) == ConcreteOnly(FilesAmong(words, seen))
    decreases |words|
  {
    if words != [] {
      AfterOptions(cmd, words[1..], true, t);
    }
  }

  lemma PatternGivenLater(args: seq<Arg>)
    requires args != [] && !args[0].Operand? && !args[0].Given?
    ensures IsPatternGiven(args) <==> IsPatternGiven(args[1..])
  {
    if i :| 0 <= i < |args| && args[i].Given? && forall j | 0 <= j < i :: !args[j].Operand? {
      assert args[1..][i - 1].Given? && forall j | 0 <= j < i - 1 :: !args[1..][j].Operand?;
    }
    if i :| 0 <= i < |args[1..]| && args[1..][i].Given? && forall j | 0 <= j < i :: !args[1..][j].Operand? {
      assert args[i + 1].Given?;
      assert forall j | 0 < j < i + 1 :: args[j] == args[1..][j - 1];
    }
  }

  lemma ArgsTail(args: seq<Arg>, cmd: string, t: Tables)
    requires args != [] && AreArgs(args, cmd, t)
    ensures IsArg(args[0], cmd, t) && AreArgs(args[1..], cmd, t)
  {
  }

  lemma FirstArgIsRead(cmd: string, a: Arg, more: seq<string>, seen: bool, t: Tables)
    requires IsArg(a, cmd, t)
    ensures ReadArgs(cmd, ArgWords(a) + more, seen, false, t)
         == (if a.Operand? && seen && NamesAConcretePath(a.word) then [a.word] else [])
            + ReadArgs(cmd, more, seen || a.Given? || a.Operand?, false, t)
  {
    var all := ArgWords(a) + more;
    assert a.Switch? || a.Operand? ==> all[1..] == more;
    assert a.WithValue? || a.Given? ==> DropValue(all) == more;
    assert [] + ReadArgs(cmd, more, seen || a.Given? || a.Operand?, false, t)
        == ReadArgs(cmd, more, seen || a.Given? || a.Operand?, false, t);
  }

  lemma {:induction false} ArgsAreReadFrom(cmd: string, args: seq<Arg>, end: seq<string>, seen: bool, t: Tables)
    requires AreArgs(args, cmd, t) && (end == [] || end[0] == "--")
    ensures ReadArgs(cmd, ArgsWords(args) + end, seen, false, t)
         == ConcreteOnly(FilesAmong(Operands(args) + (if end == [] then [] else end[1..]),
                                    seen || IsPatternGiven(args)))
    decreases |args|
  {
    var after := if end == [] then [] else end[1..];
    if args == [] {
      assert ArgsWords(args) + end == end && [] + after == after;
      if end != [] {
        AfterOptions(cmd, after, seen, t);
      }
    } else {
      ArgsTail(args, cmd, t);
      var a, rest := args[0], args[1..];
      Associate(ArgWords(a), ArgsWords(rest), end);
      FirstArgIsRead(cmd, a, ArgsWords(rest) + end, seen, t);
      ArgsAreReadFrom(cmd, rest, end, seen || a.Given? || a.Operand?, t);
      FirstOperand(args, after, seen);
    }
  }

  // What the first argument changes about the operands that are files.
  lemma FirstOperand(args: seq<Arg>, after: seq<string>, seen: bool)
    requires args != []
    ensures var a, rest := args[0], args[1..];
            var more := ConcreteOnly(FilesAmong(Operands(rest) + after,
                                                seen || a.Given? || a.Operand? || IsPatternGiven(rest)));
            ConcreteOnly(FilesAmong(Operands(args) + after, seen || IsPatternGiven(args)))
            == (if a.Operand? && seen && NamesAConcretePath(a.word) then [a.word] else []) + more
  {
    if args[0].Operand? {
      FirstIsOperand(args, after, seen);
    } else {
      FirstIsFlag(args, after, seen);
    }
  }

  lemma FirstIsOperand(args: seq<Arg>, after: seq<string>, seen: bool)
    requires args != [] && args[0].Operand?
    ensures ConcreteOnly(FilesAmong(Operands(args) + after, seen || IsPatternGiven(args)))
         == (if seen && NamesAConcretePath(args[0].word) then [args[0].word] else [])
            + ConcreteOnly(Operands(args[1..]) + after)
  {
    OperandGivesNoPattern(args);
    var all, word := Operands(args[1..]) + after, args[0].word;
    Associate([word], Operands(args[1..]), after);
    assert ([word] + all)[1..] == all;
    assert [] + ConcreteOnly(all) == ConcreteOnly(all);
  }

  lemma FirstIsFlag(args: seq<Arg>, after: seq<string>, seen: bool)
    requires args != [] && !args[0].Operand?
    ensures ConcreteOnly(FilesAmong(Operands(args) + after, seen || IsPatternGiven(args)))
         == [] + ConcreteOnly(FilesAmong(Operands(args[1..]) + after,
                                         seen || args[0].Given? || IsPatternGiven(args[1..])))
  {
    assert Operands(args) == [] + Operands(args[1..]) == Operands(args[1..]);
    if args[0].Given? {
      assert IsPatternGiven(args);
    } else {
      PatternGivenLater(args);
    }
    var more := ConcreteOnly(FilesAmong(Operands(args) + after, seen || IsPatternGiven(args)));
    assert [] + more == more;
  }

  lemma OperandGivesNoPattern(args: seq<Arg>)
    requires args != [] && args[0].Operand?
    ensures !IsPatternGiven(args)
  {
  }

  // The files of a reader are its operands, and all words after `--`, without what comes first among them
  // where that is the pattern. Values of flags are never files.
  lemma ArgumentsAreRead(cmd: string, args: seq<Arg>, after: seq<string>, t: Tables)
    requires AreArgs(args, cmd, t)
    ensures ReaderFiles(cmd, ArgsWords(args), t)
         == ConcreteOnly(FilesAmong(Operands(args), cmd !in t.patternCmds || IsPatternGiven(args)))
    ensures ReaderFiles(cmd, ArgsWords(args) + (["--"] + after), t)
         == ConcreteOnly(FilesAmong(Operands(args) + after, cmd !in t.patternCmds || IsPatternGiven(args)))
  {
    ArgsAreReadFrom(cmd, args, [], cmd !in t.patternCmds, t);
    assert ArgsWords(args) + [] == ArgsWords(args) && Operands(args) + [] == Operands(args);
    ArgsAreReadFrom(cmd, args, ["--"] + after, cmd !in t.patternCmds, t);
    assert (["--"] + after)[1..] == after;
  }

  // A last flag whose value is missing gives nothing.
  lemma {:induction false} LastFlagIsNoFile(cmd: string, args: seq<Arg>, flag: string, seen: bool, t: Tables)
    requires AreArgs(args, cmd, t) && IsFlag(flag)
    ensures ReadArgs(cmd, ArgsWords(args) + [flag], seen, false, t) == ReadArgs(cmd, ArgsWords(args), seen, false, t)
    decreases |args|
  {
    if args == [] {
      assert ArgsWords(args) + [flag] == [flag] && [flag][1..] == [];
    } else {
      ArgsTail(args, cmd, t);
      var a, rest := args[0], args[1..];
      Associate(ArgWords(a), ArgsWords(rest), [flag]);
      FirstArgIsRead(cmd, a, ArgsWords(rest) + [flag], seen, t);
      FirstArgIsRead(cmd, a, ArgsWords(rest), seen, t);
      LastFlagIsNoFile(cmd, rest, flag, seen || a.Given? || a.Operand?, t);
    }
  }

  // -- programs ----------------------------------------------------------------------------

  // Nothing before the word is stripped because of it.
  predicate IsProgram(word: string, t: Tables) {
    !IsAssignment(word) && word !in t.keywords && BaseName(word) !in t.wrapperCmds
  }

  predicate IsReader(cmd: string, t: Tables) {
    IsProgram(cmd, t) && BaseName(cmd) in t.readCmds && BaseName(cmd) !in t.shellCmds && BaseName(cmd) != "find"
  }

  lemma ReaderReads(argv: seq<string>, depth: nat, t: Tables)
    requires argv != [] && IsReader(argv[0], t) && depth <= MAX_SUBST_DEPTH
    ensures ProgramReads(argv, depth, t) == ReaderFiles(BaseName(argv[0]), argv[1..], t)
  {
    assert StripWrappers(argv, t) == argv;
  }

  // Programs that are no shell, no `find` and no reader read nothing.
  lemma OtherProgramsReadNothing(argv: seq<string>, depth: nat, t: Tables)
    requires argv != [] && IsProgram(argv[0], t)
    requires BaseName(argv[0]) !in t.shellCmds + t.readCmds + {"find"}
    ensures ProgramReads(argv, depth, t) == []
  {
    assert StripWrappers(argv, t) == argv;
  }

  // Assignments and keywords before a program change nothing.
  lemma PrefixIsStripped(word: string, argv: seq<string>, depth: nat, t: Tables)
    requires IsAssignment(word) || word in t.keywords
    ensures ProgramReads([word] + argv, depth, t) == ProgramReads(argv, depth, t)
  {
    assert ([word] + argv)[1..] == argv;
  }

  lemma {:induction false} FlagsAreDropped(flags: seq<string>, argv: seq<string>)
    requires (forall f <- flags :: IsFlag(f)) && (argv == [] || !IsFlag(argv[0]))
    ensures DropFlags(flags + argv) == argv
  {
    if flags == [] {
      assert flags + argv == argv;
    } else {
      assert flags[0] in flags && forall f <- flags[1..] :: f in flags;
      assert (flags + argv)[0] == flags[0] && (flags + argv)[1..] == flags[1..] + argv;
      FlagsAreDropped(flags[1..], argv);
    }
  }

  // Nor does a wrapper with its flags.
  lemma WrapperIsStripped(wrapper: string, flags: seq<string>, argv: seq<string>, depth: nat, t: Tables)
    requires BaseName(wrapper) in t.wrapperCmds && !IsAssignment(wrapper) && wrapper !in t.keywords
    requires (forall f <- flags :: IsFlag(f)) && (argv == [] || !IsFlag(argv[0]))
    ensures ProgramReads([wrapper] + (flags + argv), depth, t) == ProgramReads(argv, depth, t)
  {
    var words := [wrapper] + (flags + argv);
    assert words[0] == wrapper && words[1..] == flags + argv;
    FlagsAreDropped(flags, argv);
  }

  // -- programs that run others ----------------------------------------------------------------

  lemma {:induction false} FirstScript(before: seq<string>, script: string, after: seq<string>)
    requires "-c" !in before
    ensures ScriptOf(before + (["-c", script] + after)) == Some(script)
    decreases |before|
  {
    var all := before + (["-c", script] + after);
    if before == [] {
      assert all == ["-c", script] + after;
    } else {
      assert before[0] in before && forall w <- before[1..] :: w in before;
      assert all[0] == before[0] && all[1..] == before[1..] + (["-c", script] + after);
      FirstScript(before[1..], script, after);
    }
  }

  lemma {:induction false} NoScript(words: seq<string>)
    requires words == [] || "-c" !in words[..|words| - 1]
    ensures ScriptOf(words) == None
    decreases |words|
  {
    if |words| >= 2 {
      var init, rest := words[..|words| - 1], words[1..];
      assert words[0] in init && rest[..|rest| - 1] == init[1..];
      NoScript(rest);
    }
  }

  // A shell reads what the script after its first `-c` reads, one level deeper; without a word after one it
  // reads nothing.
  lemma ShellReads(sh: string, before: seq<string>, script: string, after: seq<string>, depth: nat, t: Tables)
    requires IsProgram(sh, t) && BaseName(sh) in t.shellCmds && depth <= MAX_SUBST_DEPTH && "-c" !in before
    ensures ProgramReads([sh] + (before + (["-c", script] + after)), depth, t) == Reads(script, depth + 1, t)
    ensures ProgramReads([sh] + before, depth, t) == ProgramReads([sh] + (before + ["-c"]), depth, t) == []
  {
    var argv := [sh] + (before + (["-c", script] + after));
    assert StripWrappers(argv, t) == argv && argv[1..] == before + (["-c", script] + after);
    FirstScript(before, script, after);
    assert StripWrappers([sh] + before, t) == [sh] + before && ([sh] + before)[1..] == before;
    NoScript(before);
    var last := before + ["-c"];
    assert StripWrappers([sh] + last, t) == [sh] + last && ([sh] + last)[1..] == last && last[..|last| - 1] == before;
    NoScript(last);
  }

  predicate IsExec(word: string) {
    word == "-exec" || word == "-execdir"
  }

  predicate EndsExec(word: string) {
    word == ";" || word == "+"
  }

  lemma {:induction false} NoExecs(words: seq<string>, more: seq<string>)
    requires forall w <- words :: !IsExec(w)
    ensures ExecBodies(words + more) == ExecBodies(more)
    decreases |words|
  {
    if words == [] {
      assert words + more == more;
    } else {
      assert words[0] in words && forall w <- words[1..] :: w in words;
      assert (words + more)[0] == words[0] && (words + more)[1..] == words[1..] + more;
      NoExecs(words[1..], more);
    }
  }

  lemma {:induction false} BodyEnds(body: seq<string>, more: seq<string>)
    requires (forall w <- body :: !EndsExec(w)) && (more == [] || EndsExec(more[0]))
    ensures BodyLength(body + more) == |body|
    decreases |body|
  {
    if body == [] {
      assert body + more == more;
    } else {
      assert body[0] in body && forall w <- body[1..] :: w in body;
      assert (body + more)[0] == body[0] && (body + more)[1..] == body[1..] + more;
      BodyEnds(body[1..], more);
    }
  }

  lemma OneExec(before: seq<string>, exec: string, body: seq<string>, more: seq<string>)
    requires (forall w <- before :: !IsExec(w)) && IsExec(exec) && (forall w <- body :: !EndsExec(w))
    requires more == [] || EndsExec(more[0])
    ensures ExecBodies(before + ([exec] + (body + more))) == [body] + ExecBodies(more)
  {
    var all := [exec] + (body + more);
    NoExecs(before, all);
    BodyEnds(body, more);
    assert all[0] == exec && all[1..] == body + more;
    assert (body + more)[..|body|] == body && (body + more)[|body|..] == more;
  }

  // `find` reads what the command after each `-exec` or `-execdir` reads, up to `;` or `+` or its end, one
  // level deeper, and nothing else.
  lemma FindReads(find: string, before: seq<string>, exec: string, body: seq<string>, more: seq<string>,
                  depth: nat, t: Tables)
    requires IsProgram(find, t) && BaseName(find) == "find" && "find" !in t.shellCmds && depth <= MAX_SUBST_DEPTH
    requires !IsExec(find) && (forall w <- before :: !IsExec(w)) && IsExec(exec) && (forall w <- body :: !EndsExec(w))
    requires more == [] || EndsExec(more[0])
    ensures ProgramReads([find] + (before + ([exec] + (body + more))), depth, t)
         == ProgramReads(body, depth + 1, t) + ProgramReads([find] + more, depth, t)
    ensures ProgramReads([find] + before, depth, t) == []
  {
    var argv := [find] + (before + ([exec] + (body + more)));
    assert argv == ([find] + before) + ([exec] + (body + more));
    assert StripWrappers(argv, t) == argv;
    OneExec([find] + before, exec, body, more);
    assert ([body] + ExecBodies(more))[1..] == ExecBodies(more);
    NoExecs([find], more);
    assert StripWrappers([find] + more, t) == [find] + more;
    NoExecs([find] + before, []);
    assert [find] + before + [] == [find] + before && StripWrappers([find] + before, t) == [find] + before;
  }

  // -- printed commands ----------------------------------------------------------------------------

  // `grep pattern f g …`: the first operand is what is searched for, and the others are read.
  lemma PatternIsNotRead(cmd: seq<Piece>, pattern: seq<Piece>, files: seq<seq<Piece>>, depth: nat, t: Tables)
    requires CanRenderAll(cmd) && CanRenderAll(pattern) && CanRenderWords(files) && depth <= MAX_SUBST_DEPTH
    requires IsReader(TextOf(cmd), t) && BaseName(TextOf(cmd)) in t.patternCmds
    requires !IsFlag(TextOf(pattern)) && forall ps <- files :: !IsFlag(TextOf(ps))
    ensures Reads(RenderWords([cmd, pattern] + files), depth, t) == ConcreteOnly(WordTexts(files))
  {
    var words := [cmd] + ([pattern] + files);
    assert [cmd, pattern] + files == words && words[1..] == [pattern] + files && ([pattern] + files)[1..] == files;
    FlagFree(files);
    var operands := WordTexts([pattern] + files);
    assert operands == [TextOf(pattern)] + WordTexts(files) && operands[1..] == WordTexts(files);
    OperandsAreArgs(operands, BaseName(TextOf(cmd)), t);
    ReaderIsRead(cmd, [pattern] + files, AllOperands(operands), depth, t);
  }

  function AllOperands(words: seq<string>): seq<Arg> {
    if words == [] then [] else [Operand(words[0])] + AllOperands(words[1..])
  }

  lemma {:induction false} OperandsAreArgs(words: seq<string>, cmd: string, t: Tables)
    requires forall w <- words :: !IsFlag(w)
    ensures AreArgs(AllOperands(words), cmd, t) && ArgsWords(AllOperands(words)) == words
    ensures Operands(AllOperands(words)) == words && !IsPatternGiven(AllOperands(words))
  {
    if words != [] {
      assert words[0] in words && forall w <- words[1..] :: w in words;
      OperandsAreArgs(words[1..], cmd, t);
      OperandGivesNoPattern(AllOperands(words));
    }
  }

  // A printed reader with any arguments, each of its words quoted or bare in any way, reads exactly its files.
  lemma ReaderIsRead(cmd: seq<Piece>, words: seq<seq<Piece>>, args: seq<Arg>, depth: nat, t: Tables)
    requires CanRenderAll(cmd) && CanRenderWords(words) && depth <= MAX_SUBST_DEPTH && IsReader(TextOf(cmd), t)
    requires AreArgs(args, BaseName(TextOf(cmd)), t) && WordTexts(words) == ArgsWords(args)
    ensures Reads(RenderWords([cmd] + words), depth, t)
         == ConcreteOnly(FilesAmong(Operands(args), BaseName(TextOf(cmd)) !in t.patternCmds || IsPatternGiven(args)))
  {
    var all := [cmd] + words;
    var argv := WordTexts(all);
    assert all[1..] == words && argv[0] == TextOf(cmd) && argv[1..] == WordTexts(words);
    WordsAreRead(all, depth, t);
    ReaderReads(argv, depth, t);
    ArgumentsAreRead(BaseName(TextOf(cmd)), args, [], t);
  }

  // Words and nothing else are one program with its arguments.
  lemma WordsAreRead(words: seq<seq<Piece>>, depth: nat, t: Tables)
    requires words != [] && CanRenderWords(words) && depth <= MAX_SUBST_DEPTH
    ensures Reads(RenderWords(words), depth, t) == ProgramReads(WordTexts(words), depth, t)
  {
    WordsLex(words);
    WordsAreOneProgram(WordTexts(words), depth, t);
  }

  // -- substitutions ---------------------------------------------------------------------------------

  // A command that is words alone.
  predicate IsOneProgram(c: seq<Item>) {
    c != [] && forall item <- c :: item.WordItem?
  }

  function Texts(c: seq<Item>): seq<string>
    requires forall item <- c :: item.WordItem?
  {
    if c == [] then [] else [PartsText(c[0].parts)] + Texts(c[1..])
  }

  function AllBodies(c: seq<Item>): seq<seq<Item>>
    requires forall item <- c :: item.WordItem?
  {
    if c == [] then [] else Bodies(c[0].parts) + AllBodies(c[1..])
  }

  // What is read by commands one after the other.
  function AllReads(bodies: seq<seq<Item>>, depth: nat, t: Tables): seq<string> {
    if bodies == [] then [] else Reads(Print(bodies[0]), depth, t) + AllReads(bodies[1..], depth, t)
  }

  lemma {:induction false} AllReadsOfConcat(a: seq<seq<Item>>, b: seq<seq<Item>>, depth: nat, t: Tables)
    ensures AllReads(a + b, depth, t) == AllReads(a, depth, t) + AllReads(b, depth, t)
    decreases |a|
  {
    if a == [] {
      assert a + b == b;
    } else {
      assert (a + b)[0] == a[0] && (a + b)[1..] == a[1..] + b;
      AllReadsOfConcat(a[1..], b, depth, t);
      Associate(Reads(Print(a[0]), depth, t), AllReads(a[1..], depth, t), AllReads(b, depth, t));
    }
  }

  lemma {:induction false} SubstsOfBodies(bodies: seq<seq<Item>>, more: seq<Token>, w: Words, depth: nat, t: Tables)
    requires depth <= MAX_SUBST_DEPTH
    ensures SubstReads(BodiesTokens(bodies) + more, depth, t)
         == AllReads(bodies, depth + 1, t) + SubstReads(more, depth, t)
    ensures TakeTokens(w, BodiesTokens(bodies) + more) == TakeTokens(w, more)
    ensures RunLength(BodiesTokens(bodies) + more) == |bodies| + RunLength(more)
    decreases |bodies|
  {
    if bodies == [] {
      assert BodiesTokens(bodies) + more == more;
      assert [] + SubstReads(more, depth, t) == SubstReads(more, depth, t);
    } else {
      var rest := BodiesTokens(bodies[1..]) + more;
      Associate([Token(Print(bodies[0]), Subst)], BodiesTokens(bodies[1..]), more);
      SubstThen(Print(bodies[0]), rest, w, depth, t);
      SubstsOfBodies(bodies[1..], more, w, depth, t);
      Associate(Reads(Print(bodies[0]), depth + 1, t), AllReads(bodies[1..], depth + 1, t), SubstReads(more, depth, t));
    }
  }

  lemma SubstThen(text: string, rest: seq<Token>, w: Words, depth: nat, t: Tables)
    requires depth <= MAX_SUBST_DEPTH
    ensures SubstReads([Token(text, Subst)] + rest, depth, t) == Reads(text, depth + 1, t) + SubstReads(rest, depth, t)
    ensures TakeTokens(w, [Token(text, Subst)] + rest) == TakeTokens(w, rest)
    ensures RunLength([Token(text, Subst)] + rest) == 1 + RunLength(rest)
  {
    assert ([Token(text, Subst)] + rest)[1..] == rest;
  }

  lemma {:induction false} TokensOfProgram(c: seq<Item>, w: seq<string>, depth: nat, t: Tables)
    requires (forall item <- c :: item.WordItem?) && depth <= MAX_SUBST_DEPTH
    ensures SubstReads(Tokens(c), depth, t) == AllReads(AllBodies(c), depth + 1, t)
    ensures TakeTokens(Words(w, false), Tokens(c)) == Words(w + Texts(c), false)
    ensures RunLength(Tokens(c)) == |Tokens(c)|
    decreases |c|
  {
    if c == [] {
      assert w + [] == w;
    } else {
      var text, rest := PartsText(c[0].parts), Tokens(c[1..]);
      assert c[0] in c && forall item <- c[1..] :: item in c;
      TokensOfParts(c[0].parts);
      var more := [Token(text, Word)] + rest;
      assert Tokens(c) == BodiesTokens(Bodies(c[0].parts)) + more by {
        Associate(PartsTokens(c[0].parts), [Token(text, Word)], rest);
      }
      SubstsOfBodies(Bodies(c[0].parts), more, Words(w, false), depth, t);
      WordThen(text, rest, w, depth, t);
      TokensOfProgram(c[1..], w + [text], depth, t);
      AllReadsOfConcat(Bodies(c[0].parts), AllBodies(c[1..]), depth + 1, t);
      Associate(w, [text], Texts(c[1..]));
      BodiesTokensLength(Bodies(c[0].parts));
    }
  }

  lemma {:induction false} BodiesTokensLength(bodies: seq<seq<Item>>)
    ensures |BodiesTokens(bodies)| == |bodies|
  {
    if bodies != [] {
      BodiesTokensLength(bodies[1..]);
    }
  }

  lemma WordThen(text: string, rest: seq<Token>, w: seq<string>, depth: nat, t: Tables)
    requires depth <= MAX_SUBST_DEPTH
    ensures SubstReads([Token(text, Word)] + rest, depth, t) == SubstReads(rest, depth, t)
    ensures TakeTokens(Words(w, false), [Token(text, Word)] + rest) == TakeTokens(Words(w + [text], false), rest)
    ensures RunLength([Token(text, Word)] + rest) == 1 + RunLength(rest)
  {
    assert ([Token(text, Word)] + rest)[1..] == rest;
  }

  // A printed program reads what its substitutions read, one level deeper and in order, whatever the program
  // is, and then what it reads itself, with a mark for each of them.
  lemma SubstitutionsAreRead(c: seq<Item>, depth: nat, t: Tables)
    requires IsOneProgram(c) && IsCommand(c) && Fits(c) && depth <= MAX_SUBST_DEPTH
    ensures Reads(Print(c), depth, t) == AllReads(AllBodies(c), depth + 1, t) + ProgramReads(Texts(c), depth, t)
  {
    var tokens := Tokens(c);
    LexOfPrintedExactly(c);
    TokensOfProgram(c, [], depth, t);
    assert [] + Texts(c) == Texts(c);
    ProgramHasTokens(c);
    assert !IsSeparator(tokens[0]);
    assert tokens[..|tokens|] == tokens && tokens[|tokens|..] == [];
    assert TokensReads(tokens, depth, t) == SubReads(tokens, depth, t) + [];
  }

  lemma ProgramHasTokens(c: seq<Item>)
    requires IsOneProgram(c)
    ensures Tokens(c) != []
  {
    assert c[0] in c;
  }

  // Nothing is read below the bound.
  lemma BelowTheBound(command: string, words: seq<string>, depth: nat, t: Tables)
    requires depth > 4
    ensures Reads(command, depth, t) == ProgramReads(words, depth, t) == []
  {
  }

  // `echo $(echo $(… cat f))`, with `n` substitutions inside each other.
  function Chain(echo: Piece, cat: Piece, f: Piece, n: nat): seq<Item> {
    if n == 0 then [WordItem([Literal(cat)]), WordItem([Literal(f)])]
    else [WordItem([Literal(echo)]), WordItem([Inner(Chain(echo, cat, f, n - 1))])]
  }

  predicate IsChain(echo: Piece, cat: Piece, f: Piece, t: Tables) {
    && IsPart(Literal(echo)) && IsPart(Literal(cat)) && IsPart(Literal(f))
    && IsProgram(echo.text, t) && BaseName(echo.text) !in t.shellCmds + t.readCmds + {"find"}
    && IsReader(cat.text, t) && BaseName(cat.text) !in t.patternCmds
    && !IsFlag(f.text) && NamesAConcretePath(f.text)
  }

  lemma OneLiteral(p: Piece)
    ensures PartsText([Literal(p)]) == p.text && Bodies([Literal(p)]) == []
    ensures NeedOfParts([Literal(p)]) <= 1 && DepthOfParts([Literal(p)]) == 0
    ensures IsPart(Literal(p)) ==> IsItem(WordItem([Literal(p)]))
  {
    assert [Literal(p)][1..] == [];
    assert p.text + "" == p.text;
    assert AreParts([]);
  }

  lemma OneInner(body: seq<Item>)
    ensures PartsText([Inner(body)]) == "\0" && Bodies([Inner(body)]) == [body]
    ensures NeedOfParts([Inner(body)]) == Need(body) && DepthOfParts([Inner(body)]) == Need(body)
    ensures IsCommand(body) ==> IsItem(WordItem([Inner(body)]))
  {
    assert [Inner(body)][1..] == [];
    assert [SUBST_MARK] + "" == "\0";
    assert AreParts([]);
  }

  lemma OneWordItem(y: seq<Part>)
    ensures var c := [WordItem(y)];
            && IsOneProgram(c) && Texts(c) == [PartsText(y)] && AllBodies(c) == Bodies(y)
            && Need(c) == NeedOfParts(y) && Depth(c) == DepthOfParts(y)
            && (IsItem(WordItem(y)) ==> IsCommand(c))
  {
    var c := [WordItem(y)];
    assert c[1..] == [];
    assert Bodies(y) + [] == Bodies(y);
    assert IsCommand([]) && Need([]) == 0 && Depth([]) == 0;
    assert NeedOfItem(c[0]) == NeedOfParts(y) && DepthOfItem(c[0]) == DepthOfParts(y);
  }

  lemma TwoWords(x: seq<Part>, y: seq<Part>)
    ensures var c := [WordItem(x), WordItem(y)];
            && IsOneProgram(c) && Texts(c) == [PartsText(x), PartsText(y)] && AllBodies(c) == Bodies(x) + Bodies(y)
            && Need(c) == Max(NeedOfParts(x), NeedOfParts(y)) && Depth(c) == Max(DepthOfParts(x), DepthOfParts(y))
            && (IsItem(WordItem(x)) && IsItem(WordItem(y)) ==> IsCommand(c))
  {
    var c := [WordItem(x), WordItem(y)];
    OneWordItem(y);
    assert c[1..] == [WordItem(y)];
    assert NeedOfItem(c[0]) == NeedOfParts(x) && DepthOfItem(c[0]) == DepthOfParts(x);
    assert Texts(c) == [PartsText(x)] + Texts([WordItem(y)]);
  }

  lemma {:induction false} ChainIsCommand(echo: Piece, cat: Piece, f: Piece, n: nat, t: Tables)
    requires IsChain(echo, cat, f, t)
    ensures var c := Chain(echo, cat, f, n); IsCommand(c) && Need(c) <= 1 && Fits(c)
  {
    if n == 0 {
      OneLiteral(cat);
      OneLiteral(f);
      TwoWords([Literal(cat)], [Literal(f)]);
    } else {
      ChainIsCommand(echo, cat, f, n - 1, t);
      LinkIsCommand(echo, Chain(echo, cat, f, n - 1));
    }
  }

  lemma LinkIsCommand(echo: Piece, body: seq<Item>)
    requires IsPart(Literal(echo)) && IsCommand(body) && Need(body) <= 1
    ensures var c := [WordItem([Literal(echo)]), WordItem([Inner(body)])]; IsCommand(c) && Need(c) <= 1 && Fits(c)
  {
    OneLiteral(echo);
    OneInner(body);
    TwoWords([Literal(echo)], [Inner(body)]);
  }

  lemma OneFileIsRead(cat: string, f: string, depth: nat, t: Tables)
    requires IsReader(cat, t) && BaseName(cat) !in t.patternCmds && !IsFlag(f) && NamesAConcretePath(f)
    requires depth <= MAX_SUBST_DEPTH
    ensures ProgramReads([cat, f], depth, t) == [f]
  {
    ReaderReads([cat, f], depth, t);
    OperandsAreArgs([f], BaseName(cat), t);
    ArgumentsAreRead(BaseName(cat), AllOperands([f]), [], t);
    assert [cat, f][1..] == [f];
    assert ConcreteOnly([f]) == [f];
  }

  lemma ChainEndIsRead(echo: Piece, cat: Piece, f: Piece, depth: nat, t: Tables)
    requires IsChain(echo, cat, f, t) && depth <= MAX_SUBST_DEPTH
    ensures Reads(Print(Chain(echo, cat, f, 0)), depth, t) == [f.text]
  {
    ChainIsCommand(echo, cat, f, 0, t);
    OneLiteral(cat);
    OneLiteral(f);
    TwoWords([Literal(cat)], [Literal(f)]);
    SubstitutionsAreRead(Chain(echo, cat, f, 0), depth, t);
    OneFileIsRead(cat.text, f.text, depth, t);
    assert AllReads([], depth + 1, t) + [f.text] == [f.text];
  }

  lemma ChainLinkIsRead(echo: Piece, cat: Piece, f: Piece, n: nat, depth: nat, t: Tables)
    requires IsChain(echo, cat, f, t) && depth <= MAX_SUBST_DEPTH && n > 0
    ensures Reads(Print(Chain(echo, cat, f, n)), depth, t) == Reads(Print(Chain(echo, cat, f, n - 1)), depth + 1, t)
  {
    var body := Chain(echo, cat, f, n - 1);
    ChainIsCommand(echo, cat, f, n, t);
    OneLiteral(echo);
    OneInner(body);
    TwoWords([Literal(echo)], [Inner(body)]);
    SubstitutionsAreRead(Chain(echo, cat, f, n), depth, t);
    OtherProgramsReadNothing([echo.text, "\0"], depth, t);
    OneBody(body, depth + 1, t);
    assert [] + [body] == [body];
  }

  lemma OneBody(body: seq<Item>, depth: nat, t: Tables)
    ensures AllReads([body], depth, t) + [] == Reads(Print(body), depth, t)
  {
    assert [body][1..] == [];
  }

  // The file at the end of the chain is read through four substitutions and not through five.
  lemma {:induction false} ChainIsReadToTheBound(echo: Piece, cat: Piece, f: Piece, n: nat, depth: nat, t: Tables)
    requires IsChain(echo, cat, f, t)
    ensures Reads(Print(Chain(echo, cat, f, n)), depth, t) == if depth + n <= 4 then [f.text] else []
    decreases n
  {
    if depth > 4 {
      BelowTheBound(Print(Chain(echo, cat, f, n)), [], depth, t);
    } else if n == 0 {
      ChainEndIsRead(echo, cat, f, depth, t);
    } else {
      ChainLinkIsRead(echo, cat, f, n, depth, t);
      ChainIsReadToTheBound(echo, cat, f, n - 1, depth + 1, t);
    }
  }

  // -- redirects ---------------------------------------------------------------------------------------

  // The table of redirects knows `<&`, but the lexer has no such operator: it takes it for a redirect and the
  // end of a command.
  lemma LessAmpersandIsTwo(s: string)
    requires s != "" && !IsOperatorChar(s[0])
    ensures Lex(['<'] + (['&'] + s)) == [Token("<", Op)] + ([Token("&", Op)] + Lex(s))
  {
    LessLexes(['&'] + s);
    AmpersandLexes(s);
  }

  lemma LessLexes(rest: string)
    requires rest != "" && rest[0] == '&'
    ensures Lex(['<'] + rest) == [Token("<", Op)] + Lex(rest)
  {
    var less := ['<'] + rest;
    assert less[0] == '<' && less[1] == '&' && less[1..] == rest;
    NoOtherOperator(less);
    OperatorTurn(less, START, "<");
    assert OperatorStep("<", less, START) == More([Token("<", Op)], rest, START);
    OneStep(less, START);
  }

  lemma NoOtherOperator(s: string)
    requires |s| >= 2 && s[0] == '<' && s[1] == '&'
    ensures MatchOperator(s) == Some("<")
  {
    forall i | 0 <= i < |OPERATORS| && i != 15
      ensures !(OPERATORS[i] <= s)
    {
      var op := OPERATORS[i];
      assert op[0] != '<' || (|op| >= 2 && op[1] != '&');
    }
    assert OPERATORS[15] == "<" && "<" in OPERATORS && "<" <= s;
  }

  lemma AmpersandLexes(s: string)
    requires s != "" && !IsOperatorChar(s[0])
    ensures Lex(['&'] + s) == [Token("&", Op)] + Lex(s)
  {
    assert OPERATORS[11] == "&" && "&" + s == ['&'] + s;
    OperatorBefore("&", s);
    LexOfSeparator("&", s);
  }

  // A word in any state between words.
  lemma OwingWord(ps: seq<Piece>, s: string, docs: seq<HereDoc>)
    requires CanRenderAll(ps)
    ensures LexFrom(RenderAll(ps) + ([' '] + s), Owing(docs)) == [Token(TextOf(ps), Word)] + LexFrom(s, Owing(docs))
  {
    PiecesJoin(ps, [' '] + s, Owing(docs));
    var st := AddText(Owing(docs), TextOf(ps));
    assert ([' '] + s)[0] == ' ' && ([' '] + s)[1..] == s && st.buf == TextOf(ps);
    assert Step([' '] + s, st) == More([Token(TextOf(ps), Word)], s, Owing(docs));
  }

  lemma WordsSplit(words: seq<seq<Piece>>, s: string)
    requires words != []
    ensures RenderWords(words) + s == RenderAll(words[0]) + ([' '] + (RenderWords(words[1..]) + s))
  {
    Associate(RenderAll(words[0]), [' '] + RenderWords(words[1..]), s);
    Associate([' '], RenderWords(words[1..]), s);
  }

  lemma {:induction false} OwingWords(words: seq<seq<Piece>>, s: string, docs: seq<HereDoc>)
    requires CanRenderWords(words)
    ensures LexFrom(RenderWords(words) + s, Owing(docs)) == WordTokens(WordTexts(words)) + LexFrom(s, Owing(docs))
    decreases |words|
  {
    if words == [] {
      assert RenderWords(words) + s == s && [] + LexFrom(s, Owing(docs)) == LexFrom(s, Owing(docs));
    } else {
      assert words[0] in words && forall ps <- words[1..] :: ps in words;
      WordsSplit(words, s);
      OwingWord(words[0], RenderWords(words[1..]) + s, docs);
      OwingWords(words[1..], s, docs);
      assert WordTexts(words)[1..] == WordTexts(words[1..]);
      Associate([Token(TextOf(words[0]), Word)], WordTokens(WordTexts(words[1..])), LexFrom(s, Owing(docs)));
    }
  }

  predicate IsRedirect(op: string) {
    op in {">", ">>", "<", ">&", "<&", "&>", "<<", "<<-", "<<<"}
  }

  // A redirect after words: its token, and the words after it.
  lemma RedirectLexes(op: string, more: seq<seq<Piece>>)
    requires IsRedirect(op) && CanRenderWords(more) && op != "<&"
    ensures Lex(op + ([' '] + RenderWords(more))) == [Token(op, Op)] + WordTokens(WordTexts(more))
  {
    var s := RenderWords(more);
    if op == "<<" || op == "<<-" {
      HereDocLexes(op, more);
    } else {
      RedirectIsOperator(op);
      OperatorLex(op, s);
      BlankLex(s);
      WordsLex(more);
    }
  }

  lemma RedirectIsOperator(op: string)
    requires IsRedirect(op) && op != "<&"
    ensures op in OPERATORS
  {
    assert OPERATORS[0] == "<<<" && OPERATORS[1] == "<<-" && OPERATORS[2] == "<<" && OPERATORS[7] == ">>";
    assert OPERATORS[8] == ">&" && OPERATORS[9] == "&>" && OPERATORS[15] == "<" && OPERATORS[16] == ">";
  }

  lemma HereDocLexes(op: string, more: seq<seq<Piece>>)
    requires (op == "<<" || op == "<<-") && CanRenderWords(more)
    ensures Lex(op + ([' '] + RenderWords(more))) == [Token(op, Op)] + WordTokens(WordTexts(more))
  {
    var a := Announcement(Piece(Single, ""), op == "<<-");
    OperatorAnnounces(a, [' '] + RenderWords(more), []);
    assert Operator(a) == op && Owing([]) == START;
    DelimiterLexes(a.stripTabs, more);
  }

  lemma DelimiterLexes(stripTabs: bool, more: seq<seq<Piece>>)
    requires CanRenderWords(more)
    ensures LexFrom([' '] + RenderWords(more), Owing([]).(pending := Some(stripTabs))) == WordTokens(WordTexts(more))
  {
    var s, st := RenderWords(more), Owing([]).(pending := Some(stripTabs));
    assert ([' '] + s)[0] == ' ' && ([' '] + s)[1..] == s;
    assert Step([' '] + s, st) == More([], s, st);
    if more != [] {
      assert more[0] in more && forall ps <- more[1..] :: ps in more;
      var rest, doc := RenderWords(more[1..]), HereDoc(TextOf(more[0]), stripTabs);
      PiecesJoin(more[0], [' '] + rest, st);
      DelimiterEnds(TextOf(more[0]), stripTabs, rest, []);
      assert [] + [doc] == [doc];
      LastWords(more[1..], [doc]);
    }
  }

  lemma LastWords(words: seq<seq<Piece>>, docs: seq<HereDoc>)
    requires CanRenderWords(words)
    ensures LexFrom(RenderWords(words), Owing(docs)) == WordTokens(WordTexts(words))
  {
    OwingWords(words, "", docs);
    assert RenderWords(words) + "" == RenderWords(words);
    assert WordTokens(WordTexts(words)) + [] == WordTokens(WordTexts(words));
  }

  predicate IsDigits(w: string) {
    w != "" && forall c <- w :: '0' <= c <= '9'
  }

  // The words before a redirect, without the descriptor that belongs to it.
  function BeforeRedirect(argv: seq<string>, op: string): seq<string> {
    if op in {">", ">>", "<", ">&", "<&", "&>"} && argv != [] && IsDigits(argv[|argv| - 1]) then argv[..|argv| - 1]
    else argv
  }

  // The words after it, without an operand that is no file: a descriptor, a delimiter or a text.
  function AfterRedirect(words: seq<string>, op: string): seq<string> {
    if op in {">&", "<&", "<<", "<<-", "<<<"} && words != [] then words[1..] else words
  }

  lemma {:induction false} WordsAreTaken(texts: seq<string>, more: seq<Token>, w: seq<string>, depth: nat, t: Tables)
    requires depth <= MAX_SUBST_DEPTH
    ensures TakeTokens(Words(w, false), WordTokens(texts) + more) == TakeTokens(Words(w + texts, false), more)
    ensures SubstReads(WordTokens(texts) + more, depth, t) == SubstReads(more, depth, t)
    ensures RunLength(WordTokens(texts) + more) == |WordTokens(texts)| + RunLength(more)
    decreases |texts|
  {
    if texts == [] {
      assert WordTokens(texts) + more == more && w + [] == w;
    } else {
      var rest := WordTokens(texts[1..]) + more;
      Associate([Token(texts[0], Word)], WordTokens(texts[1..]), more);
      WordThen(texts[0], rest, w, depth, t);
      WordsAreTaken(texts[1..], more, w + [texts[0]], depth, t);
      Associate(w, [texts[0]], texts[1..]);
      assert [texts[0]] + texts[1..] == texts;
    }
  }

  lemma LastWordsAreTaken(words: seq<string>, w: seq<string>, depth: nat, t: Tables)
    requires depth <= MAX_SUBST_DEPTH
    ensures TakeTokens(Words(w, false), WordTokens(words)) == Words(w + words, false)
    ensures SubstReads(WordTokens(words), depth, t) == [] && RunLength(WordTokens(words)) == |WordTokens(words)|
  {
    WordsAreTaken(words, [], w, depth, t);
    assert WordTokens(words) + [] == WordTokens(words);
  }

  lemma RedirectIsTaken(argv: seq<string>, op: string, words: seq<string>, depth: nat, t: Tables)
    requires IsRedirect(op) && depth <= MAX_SUBST_DEPTH
    ensures TakeTokens(Words(argv, false), [Token(op, Op)] + WordTokens(words)).words
         == BeforeRedirect(argv, op) + AfterRedirect(words, op)
  {
    var tail := [Token(op, Op)] + WordTokens(words);
    var before, skips := BeforeRedirect(argv, op), op in {">&", "<&", "<<", "<<-", "<<<"};
    assert tail[1..] == WordTokens(words);
    OperatorIsTaken(argv, op);
    if skips && words != [] {
      assert WordTokens(words)[1..] == WordTokens(words[1..]);
      LastWordsAreTaken(words[1..], before, depth, t);
    } else if skips {
      assert before + [] == before;
    } else {
      LastWordsAreTaken(words, before, depth, t);
    }
  }

  lemma OperatorIsTaken(argv: seq<string>, op: string)
    requires IsRedirect(op)
    ensures TakeToken(Words(argv, false), Token(op, Op))
         == Words(BeforeRedirect(argv, op), op in {">&", "<&", "<<", "<<-", "<<<"})
  {
    assert argv != [] ==> (IsNumber(argv[|argv| - 1]) <==> IsDigits(argv[|argv| - 1]));
  }

  lemma RedirectIsOneRun(op: string, words: seq<string>, depth: nat, t: Tables)
    requires IsRedirect(op) && depth <= MAX_SUBST_DEPTH
    ensures var tail := [Token(op, Op)] + WordTokens(words);
            SubstReads(tail, depth, t) == [] && RunLength(tail) == |tail|
  {
    assert ([Token(op, Op)] + WordTokens(words))[1..] == WordTokens(words);
    LastWordsAreTaken(words, [], depth, t);
    assert !IsSeparator(Token(op, Op));
  }

  // A program with a redirect reads what it reads with the operand of the redirect among its arguments, unless
  // that is a descriptor, the delimiter of a here-document or a text, and without a descriptor before it.
  lemma RedirectReads(argv: seq<seq<Piece>>, op: string, more: seq<seq<Piece>>, depth: nat, t: Tables)
    requires argv != [] && CanRenderWords(argv) && CanRenderWords(more) && depth <= MAX_SUBST_DEPTH
    requires IsRedirect(op) && op != "<&"
    ensures Reads(RenderWords(argv) + (op + ([' '] + RenderWords(more))), depth, t)
         == ProgramReads(BeforeRedirect(WordTexts(argv), op) + AfterRedirect(WordTexts(more), op), depth, t)
  {
    var tail := [Token(op, Op)] + WordTokens(WordTexts(more));
    OwingWords(argv, op + ([' '] + RenderWords(more)), []);
    RedirectLexes(op, more);
    assert Owing([]) == START;
    RedirectTokensRead(WordTexts(argv), op, WordTexts(more), depth, t);
  }

  lemma RedirectTokensRead(argv: seq<string>, op: string, words: seq<string>, depth: nat, t: Tables)
    requires IsRedirect(op) && depth <= MAX_SUBST_DEPTH && argv != []
    ensures TokensReads(WordTokens(argv) + ([Token(op, Op)] + WordTokens(words)), depth, t)
         == ProgramReads(BeforeRedirect(argv, op) + AfterRedirect(words, op), depth, t)
  {
    var tail := [Token(op, Op)] + WordTokens(words);
    var tokens := WordTokens(argv) + tail;
    WordsAreTaken(argv, tail, [], depth, t);
    RedirectIsTaken(argv, op, words, depth, t);
    RedirectIsOneRun(op, words, depth, t);
    assert [] + argv == argv;
    OneRunReads(tokens, depth, t);
  }

  lemma OneRunReads(tokens: seq<Token>, depth: nat, t: Tables)
    requires tokens != [] && RunLength(tokens) == |tokens|
    requires depth <= MAX_SUBST_DEPTH && SubstReads(tokens, depth, t) == []
    ensures TokensReads(tokens, depth, t) == ProgramReads(CommandWords(tokens), depth, t)
  {
    assert !IsSeparator(tokens[0]);
    assert tokens[..|tokens|] == tokens && tokens[|tokens|..] == [];
    assert TokensReads(tokens, depth, t) == SubReads(tokens, depth, t) + [];
    assert SubReads(tokens, depth, t) == [] + ProgramReads(CommandWords(tokens), depth, t);
  }

  // -- between commands --------------------------------------------------------------

  // A comment reads nothing, whatever it says; the next line is read again.
  lemma CommentIsNotRead(p: string, x: string, s: string, depth: nat, t: Tables)
    requires EndsCleanly(p) && '\n' !in x
    ensures Reads(p + ("#" + x), depth, t) == Reads(p, depth, t)
    ensures Reads(p + ("#" + x + "\n" + s), depth, t) == Reads(p, depth, t) + Reads(s, depth, t)
  {
    CommentIsSilent(p, x, s);
    if depth <= MAX_SUBST_DEPTH {
      TokensReadsCompose(Lex(p), Token("\n", Op), Lex(s), depth, t);
      Associate(Lex(p), [Token("\n", Op)], Lex(s));
    }
  }
}
