// The extractor as it runs: loops over tokens and words that grow lists of words and files, each
// proved equal to its function in BashReads.
module BashReader {
  import opened Sequences
  import opened ShellSyntax
  import opened ShellLexer
  import opened BashReads

  method GatherWords(sub: seq<Token>) returns (words: seq<string>)
    ensures words == CommandWords(sub)
  {
    words := [];
    var skipOperand := false;
    for i := 0 to |sub|
      invariant TakeTokens(Words(words, skipOperand), sub[i..]).words == CommandWords(sub)
    {
      var token := sub[i];
      assert sub[i..][0] == token && sub[i..][1..] == sub[i + 1..];
      match token.kind
      case Op =>
        if token.text in REDIRECT_OPS && words != [] && IsNumber(words[|words| - 1]) {
          words := words[..|words| - 1];
        }
        skipOperand := token.text in HEREDOC_OPS || token.text in FD_DUP_OPS;
      case Word =>
        if skipOperand {
          skipOperand := false;
        } else {
          words := words + [token.text];
        }
      case Subst =>
    }
  }

  method StripLeading(words: seq<string>, t: Tables) returns (argv: seq<string>)
    ensures argv == StripWrappers(words, t)
  {
    var i := 0;
    while i < |words|
      invariant 0 <= i <= |words|
      invariant StripWrappers(words[i..], t) == StripWrappers(words, t)
    {
      var word := words[i];
      assert words[i..][1..] == words[i + 1..];
      if IsAssignment(word) || word in t.keywords {
        i := i + 1;
      } else if BaseName(word) in t.wrapperCmds {
        i := SkipFlags(words, i + 1);
      } else {
        break;
      }
    }
    argv := words[i..];
  }

  method SkipFlags(words: seq<string>, from: nat) returns (i: nat)
    requires from <= |words|
    ensures from <= i <= |words|
    ensures words[i..] == DropFlags(words[from..])
  {
    i := from;
    while i < |words| && IsFlag(words[i])
      invariant from <= i <= |words|
      invariant DropFlags(words[i..]) == DropFlags(words[from..])
    {
      assert words[i..][1..] == words[i + 1..];
      i := i + 1;
    }
  }

  // `all` is `files` and the files among the arguments from index `i` on, which may lie past the end.
  ghost predicate ArgsAhead(cmd: string, args: seq<string>, i: nat, seen: bool, eoo: bool, t: Tables,
                            files: seq<string>, all: seq<string>) {
    forall rest: seq<string> :: rest == (if i < |args| then args[i..] else []) ==>
                                files + ReadArgs(cmd, rest, seen, eoo, t) == all
  }

  lemma ArgsStart(cmd: string, args: seq<string>, seen: bool, t: Tables)
    ensures ArgsAhead(cmd, args, 0, seen, false, t, [], ReadArgs(cmd, args, seen, false, t))
  {
    assert (if 0 < |args| then args[0..] else []) == args;
    assert [] + ReadArgs(cmd, args, seen, false, t) == ReadArgs(cmd, args, seen, false, t);
  }

  // A flag gives no file; it may end the options, give the pattern, or take the next argument with it.
  lemma ArgsTurnAtFlag(cmd: string, args: seq<string>, i: nat, seen: bool, t: Tables,
                       files: seq<string>, all: seq<string>)
    requires ArgsAhead(cmd, args, i, seen, false, t, files, all) && i < |args| && IsFlag(args[i])
    ensures if args[i] == "--" then ArgsAhead(cmd, args, i + 1, seen, true, t, files, all)
            else if cmd in t.patternCmds && args[i] in t.patternFlags then
              ArgsAhead(cmd, args, i + 2, true, false, t, files, all)
            else if args[i] in ValueFlags(cmd, t) then ArgsAhead(cmd, args, i + 2, seen, false, t, files, all)
            else ArgsAhead(cmd, args, i + 1, seen, false, t, files, all)
  {
    var tail := args[i..];
    assert tail[1..] == if i + 1 < |args| then args[i + 1..] else [];
    assert DropValue(tail) == if i + 2 < |args| then args[i + 2..] else [];
    assert files + ReadArgs(cmd, tail, seen, false, t) == all;
  }

  // The first operand of a pattern command is its pattern, any other one a file if it names one.
  lemma ArgsTurnAtOperand(cmd: string, args: seq<string>, i: nat, seen: bool, eoo: bool, t: Tables,
                          files: seq<string>, all: seq<string>)
    requires ArgsAhead(cmd, args, i, seen, eoo, t, files, all) && i < |args| && (eoo || !IsFlag(args[i]))
    ensures !seen ==> ArgsAhead(cmd, args, i + 1, true, eoo, t, files, all)
    ensures seen ==>
              ArgsAhead(cmd, args, i + 1, seen, eoo, t,
                        if NamesAConcretePath(args[i]) then files + [args[i]] else files, all)
  {
    var tail := args[i..];
    assert tail[1..] == if i + 1 < |args| then args[i + 1..] else [];
    assert files + ReadArgs(cmd, tail, seen, eoo, t) == all;
    Associate(files, if NamesAConcretePath(args[i]) then [args[i]] else [], ReadArgs(cmd, tail[1..], seen, eoo, t));
    assert files + [] == files;
  }

  lemma ArgsEnd(cmd: string, args: seq<string>, i: nat, seen: bool, eoo: bool, t: Tables,
                files: seq<string>, all: seq<string>)
    requires ArgsAhead(cmd, args, i, seen, eoo, t, files, all) && i >= |args|
    ensures files == all
  {
    assert files + ReadArgs(cmd, [], seen, eoo, t) == all;
    assert files + [] == files;
  }

  method GatherArgs(cmd: string, args: seq<string>, t: Tables) returns (files: seq<string>)
    ensures files == ReaderFiles(cmd, args, t)
  {
    var takesPattern, valueFlags := cmd in t.patternCmds, ValueFlags(cmd, t);
    var patternSeen, endOfOptions := !takesPattern, false;
    files := [];
    var i := 0;
    ghost var all := ReaderFiles(cmd, args, t);
    ArgsStart(cmd, args, patternSeen, t);
    while i < |args|
      invariant ArgsAhead(cmd, args, i, patternSeen, endOfOptions, t, files, all)
    {
      var arg := args[i];
      if !endOfOptions && IsFlag(arg) {
        ArgsTurnAtFlag(cmd, args, i, patternSeen, t, files, all);
        if arg == "--" {
          endOfOptions := true;
        } else if takesPattern && arg in t.patternFlags {
          patternSeen := true;
          i := i + 1;
        } else if arg in valueFlags {
          i := i + 1;
        }
      } else {
        ArgsTurnAtOperand(cmd, args, i, patternSeen, endOfOptions, t, files, all);
        if !patternSeen {
          patternSeen := true;
        } else if NamesAConcretePath(arg) {
          files := files + [arg];
        }
      }
      i := i + 1;
    }
    ArgsEnd(cmd, args, i, patternSeen, endOfOptions, t, files, all);
  }

  method ScriptReadFiles(words: seq<string>, depth: nat, t: Tables) returns (files: seq<string>)
    requires words != [] && depth <= MAX_SUBST_DEPTH
    ensures ScriptOf(words[1..]).None? ==> files == []
    ensures ScriptOf(words[1..]).Some? ==> files == Reads(ScriptOf(words[1..]).value, depth + 1, t)
    decreases Room(depth), 0, 0
  {
    var i := 1;
    while i < |words| - 1
      invariant 1 <= i <= |words|
      invariant ScriptOf(words[i..]) == ScriptOf(words[1..])
    {
      assert words[i..][1..] == words[i + 1..];
      if words[i] == "-c" {
        files := ReadFiles(words[i + 1], depth + 1, t);
        return;
      }
      i := i + 1;
    }
    files := [];
  }

  // `all` is `files` and what `find` executes from index `i` on.
  ghost predicate ExecAhead(words: seq<string>, i: nat, depth: nat, t: Tables, files: seq<string>, all: seq<string>)
    requires depth <= MAX_SUBST_DEPTH
  {
    && i <= |words|
    && forall rest: seq<string> :: rest == words[i..] ==> files + BodiesReads(ExecBodies(rest), depth, t) == all
  }

  lemma ExecStarts(words: seq<string>, depth: nat, t: Tables)
    requires depth <= MAX_SUBST_DEPTH
    ensures ExecAhead(words, 0, depth, t, [], BodiesReads(ExecBodies(words), depth, t))
  {
    assert words[0..] == words;
    assert [] + BodiesReads(ExecBodies(words), depth, t) == BodiesReads(ExecBodies(words), depth, t);
  }

  lemma ExecSkips(words: seq<string>, i: nat, depth: nat, t: Tables, files: seq<string>, all: seq<string>)
    requires depth <= MAX_SUBST_DEPTH && ExecAhead(words, i, depth, t, files, all) && i < |words|
    requires words[i] != "-exec" && words[i] != "-execdir"
    ensures ExecAhead(words, i + 1, depth, t, files, all)
  {
    assert words[i..][1..] == words[i + 1..];
    assert files + BodiesReads(ExecBodies(words[i..]), depth, t) == all;
  }

  lemma FirstExec(words: seq<string>)
    requires words != [] && (words[0] == "-exec" || words[0] == "-execdir")
    ensures var rest, n := words[1..], BodyLength(words[1..]);
            ExecBodies(words) == [rest[..n]] + ExecBodies(rest[n..])
  {
  }

  lemma ExecSplits(words: seq<string>, i: nat, end: nat)
    requires i < end <= |words| && (words[i] == "-exec" || words[i] == "-execdir")
    requires end - i - 1 == BodyLength(words[i + 1..])
    ensures ExecBodies(words[i..]) == [words[i + 1..end]] + ExecBodies(words[end..])
  {
    FirstExec(words[i..]);
    assert words[i..][1..] == words[i + 1..];
    assert words[i + 1..][..end - i - 1] == words[i + 1..end];
    assert words[i + 1..][end - i - 1..] == words[end..];
  }

  lemma FirstBodyReads(body: seq<string>, rest: seq<seq<string>>, depth: nat, t: Tables)
    requires depth <= MAX_SUBST_DEPTH
    ensures BodiesReads([body] + rest, depth, t) == ProgramReads(body, depth + 1, t) + BodiesReads(rest, depth, t)
  {
    assert ([body] + rest)[1..] == rest;
  }

  lemma ExecTurns(words: seq<string>, i: nat, end: nat, depth: nat, t: Tables, files: seq<string>, all: seq<string>)
    requires depth <= MAX_SUBST_DEPTH && ExecAhead(words, i, depth, t, files, all) && i < end <= |words|
    requires (words[i] == "-exec" || words[i] == "-execdir") && end - i - 1 == BodyLength(words[i + 1..])
    ensures ExecAhead(words, end, depth, t, files + ProgramReads(words[i + 1..end], depth + 1, t), all)
  {
    var body, rest := words[i + 1..end], ExecBodies(words[end..]);
    ExecSplits(words, i, end);
    FirstBodyReads(body, rest, depth, t);
    assert files + BodiesReads(ExecBodies(words[i..]), depth, t) == all;
    Associate(files, ProgramReads(body, depth + 1, t), BodiesReads(rest, depth, t));
  }

  lemma ExecEnds(words: seq<string>, depth: nat, t: Tables, files: seq<string>, all: seq<string>)
    requires depth <= MAX_SUBST_DEPTH && ExecAhead(words, |words|, depth, t, files, all)
    ensures files == all
  {
    assert files + BodiesReads(ExecBodies(words[|words|..]), depth, t) == all;
    assert files + [] == files;
  }

  method ExecReadFiles(words: seq<string>, depth: nat, t: Tables) returns (files: seq<string>)
    requires depth <= MAX_SUBST_DEPTH
    ensures files == BodiesReads(ExecBodies(words), depth, t)
    decreases Room(depth), 0, 1
  {
    files := [];
    var i := 0;
    ghost var all := BodiesReads(ExecBodies(words), depth, t);
    ExecStarts(words, depth, t);
    while i < |words|
      invariant ExecAhead(words, i, depth, t, files, all)
    {
      if words[i] == "-exec" || words[i] == "-execdir" {
        var end := EndOfBody(words, i + 1);
        ExecTurns(words, i, end, depth, t, files, all);
        var found := ProgramReadFiles(words[i + 1..end], depth + 1, t);
        files := files + found;
        i := end;
      } else {
        ExecSkips(words, i, depth, t, files, all);
        i := i + 1;
      }
    }
    ExecEnds(words, depth, t, files, all);
  }

  method EndOfBody(words: seq<string>, from: nat) returns (i: nat)
    requires from <= |words|
    ensures from <= i <= |words|
    ensures i - from == BodyLength(words[from..])
  {
    i := from;
    while i < |words| && words[i] != ";" && words[i] != "+"
      invariant from <= i <= |words|
      invariant i - from + BodyLength(words[i..]) == BodyLength(words[from..])
    {
      assert words[i..][1..] == words[i + 1..];
      i := i + 1;
    }
  }

  method ProgramReadFiles(words: seq<string>, depth: nat, t: Tables) returns (files: seq<string>)
    ensures files == ProgramReads(words, depth, t)
    decreases Room(depth), 1, 0
  {
    if depth > MAX_SUBST_DEPTH {
      return [];
    }
    var argv := StripLeading(words, t);
    if argv == [] {
      return [];
    }
    var cmd := BaseName(argv[0]);
    if cmd in t.shellCmds {
      files := ScriptReadFiles(argv, depth, t);
    } else if cmd == "find" {
      files := ExecReadFiles(argv, depth, t);
    } else if cmd in t.readCmds {
      files := GatherArgs(cmd, argv[1..], t);
    } else {
      files := [];
    }
  }

  method SubCommandReadFiles(sub: seq<Token>, depth: nat, t: Tables) returns (files: seq<string>)
    requires depth <= MAX_SUBST_DEPTH
    ensures files == SubReads(sub, depth, t)
    decreases Room(depth), 2, 0
  {
    files := [];
    ghost var all := SubstReads(sub, depth, t);
    assert sub[0..] == sub && files + all == all;
    for i := 0 to |sub|
      invariant files + SubstReads(sub[i..], depth, t) == all
    {
      assert sub[i..][1..] == sub[i + 1..];
      if sub[i].kind == Subst {
        var found := ReadFiles(sub[i].text, depth + 1, t);
        Associate(files, found, SubstReads(sub[i + 1..], depth, t));
        files := files + found;
      }
    }
    var words := GatherWords(sub);
    var found := ProgramReadFiles(words, depth, t);
    files := files + found;
  }

  method EndOfRun(tokens: seq<Token>, from: nat) returns (i: nat)
    requires from <= |tokens|
    ensures from <= i <= |tokens| && i - from == RunLength(tokens[from..])
  {
    i := from;
    while i < |tokens| && !IsSeparator(tokens[i])
      invariant from <= i <= |tokens|
      invariant i - from + RunLength(tokens[i..]) == RunLength(tokens[from..])
    {
      assert tokens[i..][1..] == tokens[i + 1..];
      i := i + 1;
    }
  }

  // `all` is `files` and what the tokens from index `i` on read.
  ghost predicate TokensAhead(tokens: seq<Token>, i: nat, depth: nat, t: Tables, files: seq<string>, all: seq<string>)
    requires depth <= MAX_SUBST_DEPTH
  {
    i <= |tokens| && forall rest: seq<Token> :: rest == tokens[i..] ==> files + TokensReads(rest, depth, t) == all
  }

  lemma TokensStart(tokens: seq<Token>, depth: nat, t: Tables)
    requires depth <= MAX_SUBST_DEPTH
    ensures TokensAhead(tokens, 0, depth, t, [], TokensReads(tokens, depth, t))
  {
    assert tokens[0..] == tokens;
    assert [] + TokensReads(tokens, depth, t) == TokensReads(tokens, depth, t);
  }

  lemma TokensSkip(tokens: seq<Token>, i: nat, depth: nat, t: Tables, files: seq<string>, all: seq<string>)
    requires depth <= MAX_SUBST_DEPTH && TokensAhead(tokens, i, depth, t, files, all)
    requires i < |tokens| && IsSeparator(tokens[i])
    ensures TokensAhead(tokens, i + 1, depth, t, files, all)
  {
    assert tokens[i..][1..] == tokens[i + 1..];
    assert files + TokensReads(tokens[i..], depth, t) == all;
  }

  lemma TokensTurn(tokens: seq<Token>, i: nat, end: nat, depth: nat, t: Tables, files: seq<string>, all: seq<string>)
    requires depth <= MAX_SUBST_DEPTH && TokensAhead(tokens, i, depth, t, files, all)
    requires i < end <= |tokens| && !IsSeparator(tokens[i]) && end - i == RunLength(tokens[i..])
    ensures TokensAhead(tokens, end, depth, t, files + SubReads(tokens[i..end], depth, t), all)
  {
    assert tokens[i..][..end - i] == tokens[i..end] && tokens[i..][end - i..] == tokens[end..];
    assert files + TokensReads(tokens[i..], depth, t) == all;
    Associate(files, SubReads(tokens[i..end], depth, t), TokensReads(tokens[end..], depth, t));
  }

  lemma TokensEnd(tokens: seq<Token>, depth: nat, t: Tables, files: seq<string>, all: seq<string>)
    requires depth <= MAX_SUBST_DEPTH && TokensAhead(tokens, |tokens|, depth, t, files, all)
    ensures files == all
  {
    assert files + TokensReads(tokens[|tokens|..], depth, t) == all;
    assert files + [] == files;
  }

  method ReadFiles(command: string, depth: nat, t: Tables) returns (files: seq<string>)
    ensures files == Reads(command, depth, t)
    decreases Room(depth), 4, 0
  {
    files := [];
    if depth > MAX_SUBST_DEPTH {
      return;
    }
    var tokens := LexCommand(command);
    var i := 0;
    ghost var all := TokensReads(tokens, depth, t);
    TokensStart(tokens, depth, t);
    while i < |tokens|
      invariant TokensAhead(tokens, i, depth, t, files, all)
    {
      if IsSeparator(tokens[i]) {
        TokensSkip(tokens, i, depth, t, files, all);
        i := i + 1;
      } else {
        var end := EndOfRun(tokens, i);
        TokensTurn(tokens, i, end, depth, t, files, all);
        var found := SubCommandReadFiles(tokens[i..end], depth, t);
        files := files + found;
        i := end;
      }
    }
    TokensEnd(tokens, depth, t, files, all);
  }
}
