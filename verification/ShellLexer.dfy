// The lexer as it runs: an index moving over the command, a word buffer, a token list and a queue
// of announced here-documents. Each method is proved equal to its function in ShellSyntax.
module ShellLexer {
  import opened Wrappers
  import opened Sequences
  import opened ShellSyntax

  method StripLeft(line: string) returns (r: string)
    ensures r == StripLeadingTabs(line)
  {
    var i := 0;
    while i < |line| && line[i] == '\t'
      invariant 0 <= i <= |line|
      invariant StripLeadingTabs(line[i..]) == StripLeadingTabs(line)
    {
      assert line[i..][1..] == line[i + 1..];
      i := i + 1;
    }
    r := line[i..];
  }

  method StripRight(line: string) returns (r: string)
    ensures r == StripTrailingReturns(line)
  {
    var n := |line|;
    assert line[..n] == line;
    while 0 < n && line[n - 1] == '\r'
      invariant 0 <= n <= |line|
      invariant StripTrailingReturns(line[..n]) == StripTrailingReturns(line)
    {
      assert line[..n][..n - 1] == line[..n - 1];
      n := n - 1;
    }
    r := line[..n];
  }

  // What is left after the body of `doc` is `all`, wherever in the body the loop has got to.
  ghost predicate BodyAhead(command: string, at: nat, doc: HereDoc, all: string) {
    at <= |command| && forall s: string :: s == command[at..] ==> SkipBody(s, doc) == all
  }

  lemma BodyTurn(command: string, at: nat, doc: HereDoc, end: int, all: string)
    requires BodyAhead(command, at, doc, all) && end == FindChar(command[at..], '\n')
    ensures end < 0 ==> all == ""
    ensures 0 <= end ==> at + end < |command|
    ensures 0 <= end ==>
              if Terminates(command[at..at + end], doc) then all == command[at + end + 1..]
              else BodyAhead(command, at + end + 1, doc, all)
  {
    var s := command[at..];
    assert SkipBody(s, doc) == all;
    if 0 <= end {
      assert s[..end] == command[at..at + end];
      assert s[end + 1..] == command[at + end + 1..];
    }
  }

  lemma BodyStarts(command: string, at: nat, doc: HereDoc)
    requires at <= |command|
    ensures BodyAhead(command, at, doc, SkipBody(command[at..], doc))
  {
  }

  lemma BodyEnds(command: string, doc: HereDoc, all: string)
    requires BodyAhead(command, |command|, doc, all)
    ensures all == ""
  {
    assert SkipBody(command[|command|..], doc) == all;
  }

  method IsTerminator(line: string, doc: HereDoc) returns (yes: bool)
    ensures yes == Terminates(line, doc)
  {
    var candidate := line;
    if doc.stripTabs {
      candidate := StripLeft(line);
    }
    candidate := StripRight(candidate);
    yes := candidate == doc.delim;
  }

  // The index just past the body of the here-document whose first line starts at `i`.
  method SkipHeredocBody(command: string, i: nat, doc: HereDoc) returns (j: nat)
    requires i <= |command|
    ensures i <= j <= |command|
    ensures command[j..] == SkipBody(command[i..], doc)
  {
    j := i;
    ghost var all := SkipBody(command[i..], doc);
    BodyStarts(command, i, doc);
    while j < |command|
      invariant i <= j && BodyAhead(command, j, doc, all)
    {
      var end := FindChar(command[j..], '\n');
      BodyTurn(command, j, doc, end, all);
      var line := if end < 0 then command[j..] else command[j..j + end];
      var last := IsTerminator(line, doc);
      if last {
        j := if end < 0 then |command| else j + end + 1;
        return;
      }
      if end < 0 {
        j := |command|;
        return;
      }
      j := j + end + 1;
    }
    BodyEnds(command, doc, all);
  }

  // -- the scanners, unfolded at an index of the command ---------------------

  // The scan `all` is what is ahead of a loop at `at` that has already produced `text`.
  ghost predicate AnsiAhead(command: string, at: nat, text: string, all: Scan) {
    at <= |command| && forall s: string :: s == command[at..] ==> all == After(text, [], AnsiBody(s))
  }

  lemma AnsiStarts(command: string, at: nat, text: string)
    requires at <= |command|
    ensures AnsiAhead(command, at, text, After(text, [], AnsiBody(command[at..])))
  {
  }

  lemma AnsiTurn(command: string, at: nat, text: string, all: Scan)
    requires AnsiAhead(command, at, text, all) && at < |command|
    ensures command[at] == '\'' ==> all == Closed(command[at + 1..], text, [])
    ensures command[at] == '\\' && at + 1 < |command| ==>
              AnsiAhead(command, at + 2, text + [AnsiEscape(command[at + 1])], all)
    ensures command[at] != '\'' && (command[at] != '\\' || at + 1 == |command|) ==>
              AnsiAhead(command, at + 1, text + [command[at]], all)
  {
    var s := command[at..];
    assert s[1..] == command[at + 1..];
    assert all == After(text, [], AnsiBody(s));
    if s[0] == '\'' {
    } else if s[0] == '\\' && |s| > 1 {
      assert s[2..] == command[at + 2..];
      AfterAfter(text, [], [AnsiEscape(s[1])], [], AnsiBody(s[2..]));
    } else {
      AfterAfter(text, [], [s[0]], [], AnsiBody(s[1..]));
    }
  }

  lemma AnsiEnds(command: string, text: string, all: Scan)
    requires AnsiAhead(command, |command|, text, all)
    ensures all.Unclosed?
  {
    assert all == After(text, [], AnsiBody(command[|command|..]));
  }

  ghost predicate BacktickAhead(command: string, at: nat, inner: string, all: Scan) {
    at <= |command| && forall s: string :: s == command[at..] ==> all == After(inner, [], BacktickBody(s))
  }

  lemma BacktickStarts(command: string, at: nat)
    requires at <= |command|
    ensures BacktickAhead(command, at, "", BacktickBody(command[at..]))
  {
    AfterNothing(BacktickBody(command[at..]));
  }

  lemma BacktickTurn(command: string, at: nat, inner: string, all: Scan)
    requires BacktickAhead(command, at, inner, all) && at < |command|
    ensures command[at] == '`' ==> all == Closed(command[at + 1..], inner, [])
    ensures command[at] == '\\' && at + 1 < |command| ==>
              var text := if IsBacktickEscapable(command[at + 1]) then [command[at + 1]] else command[at..at + 2];
              BacktickAhead(command, at + 2, inner + text, all)
    ensures command[at] != '`' && (command[at] != '\\' || at + 1 == |command|) ==>
              BacktickAhead(command, at + 1, inner + [command[at]], all)
  {
    var s := command[at..];
    assert s[1..] == command[at + 1..];
    assert all == After(inner, [], BacktickBody(s));
    if s[0] == '`' {
    } else if s[0] == '\\' && |s| > 1 {
      assert s[2..] == command[at + 2..];
      assert s[..2] == command[at..at + 2];
      AfterAfter(inner, [], if IsBacktickEscapable(s[1]) then [s[1]] else s[..2], [], BacktickBody(s[2..]));
    } else {
      AfterAfter(inner, [], [s[0]], [], BacktickBody(s[1..]));
    }
  }

  lemma BacktickEnds(command: string, inner: string, all: Scan)
    requires BacktickAhead(command, |command|, inner, all)
    ensures all.Unclosed?
  {
    assert all == After(inner, [], BacktickBody(command[|command|..]));
  }

  ghost predicate DoubleAhead(command: string, at: nat, depth: nat, text: string, subs: seq<Token>, all: Scan) {
    at <= |command| && forall s: string :: s == command[at..] ==> all == After(text, subs, DoubleBody(s, depth))
  }

  lemma DoubleStarts(command: string, at: nat, depth: nat, text: string, subs: seq<Token>)
    requires at <= |command|
    ensures DoubleAhead(command, at, depth, text, subs, After(text, subs, DoubleBody(command[at..], depth)))
  {
  }

  lemma DoubleTurn(command: string, at: nat, depth: nat, text: string, subs: seq<Token>, all: Scan)
    requires DoubleAhead(command, at, depth, text, subs, all) && at < |command| && depth <= MAX_NEST
    ensures command[at] == '"' ==> all == Closed(command[at + 1..], text, subs)
    ensures command[at] == '\\' && at + 1 < |command| && IsDoubleEscapable(command[at + 1]) ==>
              DoubleAhead(command, at + 2, depth, if command[at + 1] == '\n' then text else text + [command[at + 1]],
                          subs, all)
    ensures command[at] != '"' && !AtSubstitution(command[at..])
            && !(command[at] == '\\' && at + 1 < |command| && IsDoubleEscapable(command[at + 1])) ==>
              DoubleAhead(command, at + 1, depth, text + [command[at]], subs, all)
  {
    var s := command[at..];
    assert s[1..] == command[at + 1..];
    assert all == After(text, subs, DoubleBody(s, depth));
    assert subs + [] == subs && text + "" == text;
    if s[0] == '"' {
    } else if s[0] == '\\' && |s| > 1 && IsDoubleEscapable(s[1]) {
      assert s[2..] == command[at + 2..];
      AfterAfter(text, subs, if s[1] == '\n' then "" else [s[1]], [], DoubleBody(s[2..], depth));
    } else if !AtSubstitution(s) {
      AfterAfter(text, subs, [s[0]], [], DoubleBody(s[1..], depth));
    }
  }

  // The same over a substitution, which ends before `k` if it ends.
  lemma DoubleTurnOver(command: string, at: nat, k: Option<nat>, depth: nat, text: string, subs: seq<Token>, all: Scan)
    requires DoubleAhead(command, at, depth, text, subs, all) && at < |command| && depth <= MAX_NEST
    requires AtSubstitution(command[at..])
    requires k.None? ==> Substitution(command[at..], depth + 1).Unclosed?
    requires k.Some? ==> at < k.value <= |command| && Substitution(command[at..], depth + 1).Closed?
                         && Substitution(command[at..], depth + 1).rest == command[k.value..]
    ensures k.None? ==> all == Unclosed(subs)
    ensures k.Some? ==> DoubleAhead(command, k.value, depth, text + [SUBST_MARK],
                                    subs + Substitution(command[at..], depth + 1).subs, all)
  {
    var s := command[at..];
    var sub := Substitution(s, depth + 1);
    assert all == After(text, subs, DoubleBody(s, depth)) == After(text, subs, Then(sub, s, depth));
    if k.Some? {
      AfterAfter(text, subs, sub.text, sub.subs, DoubleBody(sub.rest, depth));
    } else {
      assert subs + [] == subs;
    }
  }

  lemma DoubleEnds(command: string, depth: nat, text: string, subs: seq<Token>, all: Scan)
    requires DoubleAhead(command, |command|, depth, text, subs, all)
    ensures all == Unclosed(subs)
  {
    assert all == After(text, subs, DoubleBody(command[|command|..], depth));
    assert subs + [] == subs;
  }

  // The result `all` is what matching from `at` on comes to.
  ghost predicate ParenAhead(command: string, at: nat, nesting: int, depth: nat, all: Option<string>) {
    at <= |command| && forall s: string :: s == command[at..] ==> all == MatchParen(s, nesting, depth)
  }

  lemma ParenStarts(command: string, at: nat, nesting: int, depth: nat)
    requires at <= |command|
    ensures ParenAhead(command, at, nesting, depth, MatchParen(command[at..], nesting, depth))
  {
  }

  lemma ParenTurn(command: string, at: nat, nesting: int, depth: nat, all: Option<string>)
    requires ParenAhead(command, at, nesting, depth, all) && at < |command| && depth <= MAX_NEST
    ensures command[at] == '\\' && at + 1 < |command| ==> ParenAhead(command, at + 2, nesting, depth, all)
    ensures !IsQuote(command[at]) && (command[at] != '\\' || at + 1 == |command|) ==>
              if command[at] == ')' && nesting == 1 then all == Some(command[at + 1..])
              else ParenAhead(command, at + 1, Nest(command[at], nesting), depth, all)
  {
    var s := command[at..];
    assert s[1..] == command[at + 1..];
    assert all == MatchParen(s, nesting, depth);
    if s[0] == '\\' && |s| > 1 {
      assert s[2..] == command[at + 2..];
    }
  }

  lemma ParenTurnOver(command: string, at: nat, k: Option<nat>, nesting: int, depth: nat, all: Option<string>)
    requires ParenAhead(command, at, nesting, depth, all) && at < |command| && depth <= MAX_NEST
    requires IsQuote(command[at])
    requires k.None? ==> PastQuotes(command[at..], depth).None?
    requires k.Some? ==> k.value <= |command| && PastQuotes(command[at..], depth) == Some(command[k.value..])
    ensures k.None? ==> all.None?
    ensures k.Some? ==> ParenAhead(command, k.value, nesting, depth, all)
  {
    assert all == MatchParen(command[at..], nesting, depth);
  }

  lemma ParenEnds(command: string, nesting: int, depth: nat, all: Option<string>)
    requires ParenAhead(command, |command|, nesting, depth, all)
    ensures all.None?
  {
    assert all == MatchParen(command[|command|..], nesting, depth);
  }

  class Lexer {
    var buf: string
    var tokens: seq<Token>
    var inWord: bool
    var heredocs: seq<HereDoc>
    var pending: Option<bool>

    constructor ()
      ensures State() == START && tokens == []
    {
      buf, tokens, inWord, heredocs, pending := "", [], false, [], None;
    }

    ghost function State(): LexState
      reads this
    {
      LexState(buf, inWord, heredocs, pending)
    }

    // Close the open word, and let it name the here-document that awaits a delimiter.
    method Flush()
      modifies this
      ensures State() == Flushed(old(State()))
      ensures tokens == old(tokens) + FlushOut(old(State()))
    {
      if !inWord {
        return;
      }
      var text := buf;
      buf, inWord := "", false;
      tokens := tokens + [Token(text, Word)];
      if pending.Some? {
        heredocs := heredocs + [HereDoc(text, pending.value)];
        pending := None;
      }
    }

    // Consume `$'…'` at `i`; the result is the index after its close.
    method ScanAnsiC(command: string, i: nat) returns (j: Option<nat>)
      requires i + 2 <= |command|
      modifies this`buf
      ensures j.None? ==> AnsiBody(command[i + 2..]).Unclosed?
      ensures j.Some? ==> i + 2 < j.value <= |command|
      ensures j.Some? ==> After(old(buf), [], AnsiBody(command[i + 2..])) == Closed(command[j.value..], buf, [])
    {
      var at := i + 2;
      ghost var all := After(buf, [], AnsiBody(command[at..]));
      AnsiStarts(command, at, buf);
      while at < |command|
        invariant i + 2 <= at && AnsiAhead(command, at, buf, all)
      {
        var c := command[at];
        AnsiTurn(command, at, buf, all);
        if c == '\'' {
          return Some(at + 1);
        }
        if c == '\\' && at + 1 < |command| {
          buf := buf + [AnsiEscape(command[at + 1])];
          at := at + 2;
        } else {
          buf := buf + [c];
          at := at + 1;
        }
      }
      AnsiEnds(command, buf, all);
      return None;
    }

    // Consume a backtick substitution at `i` and emit its inner text.
    method ScanBacktick(command: string, i: nat) returns (j: Option<nat>)
      requires i < |command| && command[i] == '`'
      modifies this`tokens
      ensures j.None? ==> Backtick(command[i..]).Unclosed? && tokens == old(tokens)
      ensures j.Some? ==> i + 1 < j.value <= |command|
      ensures j.Some? ==>
                var r := Backtick(command[i..]);
                r.Closed? && r.rest == command[j.value..] && tokens == old(tokens) + r.subs
    {
      var inner := "";
      var at := i + 1;
      assert command[i..][1..] == command[i + 1..];
      ghost var all := BacktickBody(command[at..]);
      BacktickStarts(command, at);
      while at < |command|
        invariant i + 1 <= at && BacktickAhead(command, at, inner, all)
        invariant tokens == old(tokens)
      {
        BacktickTurn(command, at, inner, all);
        if command[at] == '`' {
          tokens := tokens + [Token(inner, Subst)];
          return Some(at + 1);
        }
        if command[at] == '\\' && at + 1 < |command| {
          inner := inner + (if IsBacktickEscapable(command[at + 1]) then [command[at + 1]] else command[at..at + 2]);
          at := at + 2;
        } else {
          inner := inner + [command[at]];
          at := at + 1;
        }
      }
      BacktickEnds(command, inner, all);
      return None;
    }

    // Consume either form of substitution at `i` and leave a mark in the word for its value.
    method ScanSubstitution(command: string, i: nat, depth: nat) returns (j: Option<nat>)
      requires i < |command| && AtSubstitution(command[i..])
      modifies this`buf, this`tokens
      ensures j.None? ==> Substitution(command[i..], depth).Unclosed? && tokens == old(tokens)
      ensures j.Some? ==> i + 1 < j.value <= |command|
      ensures j.Some? ==>
                var r := Substitution(command[i..], depth);
                && r.Closed? && r.rest == command[j.value..]
                && buf == old(buf) + [SUBST_MARK] && tokens == old(tokens) + r.subs
      decreases |command| - i, 4
    {
      if command[i] == '`' {
        j := ScanBacktick(command, i);
      } else {
        j := ScanDollarParen(command, i, depth);
      }
      if j.Some? {
        buf := buf + [SUBST_MARK];
      }
    }

    // Consume `"…"` at `i`, emitting the substitutions it passes over.
    method ScanDouble(command: string, i: nat, depth: nat) returns (j: Option<nat>)
      requires i < |command| && command[i] == '"'
      modifies this`buf, this`tokens
      ensures j.None? ==>
                After(old(buf), old(tokens), DoubleBody(command[i + 1..], depth)) == Unclosed(tokens)
      ensures j.Some? ==> i + 1 < j.value <= |command|
      ensures j.Some? ==>
                After(old(buf), old(tokens), DoubleBody(command[i + 1..], depth))
                == Closed(command[j.value..], buf, tokens)
      decreases |command| - i, 0
    {
      if depth > MAX_NEST {
        return None;
      }
      var at := i + 1;
      ghost var all := After(buf, tokens, DoubleBody(command[at..], depth));
      DoubleStarts(command, at, depth, buf, tokens);
      while at < |command|
        invariant i + 1 <= at && DoubleAhead(command, at, depth, buf, tokens, all)
      {
        var c := command[at];
        DoubleTurn(command, at, depth, buf, tokens, all);
        if c == '"' {
          return Some(at + 1);
        }
        if c == '\\' && at + 1 < |command| && IsDoubleEscapable(command[at + 1]) {
          if command[at + 1] != '\n' {
            buf := buf + [command[at + 1]];
          }
          at := at + 2;
        } else if AtSubstitution(command[at..]) {
          ghost var text, subs := buf, tokens;
          var k := ScanSubstitution(command, at, depth + 1);
          DoubleTurnOver(command, at, k, depth, text, subs, all);
          if k.None? {
            return None;
          }
          at := k.value;
        } else {
          buf := buf + [c];
          at := at + 1;
        }
      }
      DoubleEnds(command, depth, buf, tokens, all);
      return None;
    }

    // Consume `$(…)` at `i`, emitting its inner text unless it is arithmetic.
    method ScanDollarParen(command: string, i: nat, depth: nat) returns (j: Option<nat>)
      requires i < |command| && "$(" <= command[i..]
      modifies this`tokens
      ensures j.None? ==> DollarParen(command[i..], depth).Unclosed? && tokens == old(tokens)
      ensures j.Some? ==> i + 2 < j.value <= |command|
      ensures j.Some? ==>
                var r := DollarParen(command[i..], depth);
                r.Closed? && r.rest == command[j.value..] && tokens == old(tokens) + r.subs
      decreases |command| - i, 3
    {
      if depth > MAX_NEST {
        return None;
      }
      var arithmetic := "$((" <= command[i..];
      assert command[i..][1..] == command[i + 1..];
      assert command[i..][1] == '(';
      var close := FindClosingParen(command, i + 1, depth);
      if close.None? {
        return None;
      }
      ghost var s := command[i..];
      assert s[2..|s| - |command[close.value + 1..]| - 1] == command[i + 2..close.value];
      if !arithmetic {
        tokens := tokens + [Token(command[i + 2..close.value], Subst)];
      }
      return Some(close.value + 1);
    }

    // Step over the quoted run at `i`. The text and tokens of a double-quoted run are read again with
    // the body of the substitution, so both are left in a scratch lexer here.
    method StepOverQuotes(command: string, i: nat, depth: nat) returns (j: Option<nat>)
      requires i < |command| && IsQuote(command[i])
      ensures j.None? ==> PastQuotes(command[i..], depth).None?
      ensures j.Some? ==> i + 1 < j.value <= |command|
      ensures j.Some? ==> PastQuotes(command[i..], depth) == Some(command[j.value..])
      decreases |command| - i, 1
    {
      assert command[i..][1..] == command[i + 1..];
      if command[i] == '\'' {
        var k := FindChar(command[i + 1..], '\'');
        if k < 0 {
          return None;
        }
        assert command[i..][k + 2..] == command[i + k + 2..];
        return Some(i + k + 2);
      }
      var scratch := new Lexer();
      j := scratch.ScanDouble(command, i, depth + 1);
    }

    // The index of the parenthesis that closes the one at `i`.
    method FindClosingParen(command: string, i: nat, depth: nat) returns (j: Option<nat>)
      requires i < |command| && command[i] == '('
      ensures j.None? ==> MatchParen(command[i..], 0, depth).None?
      ensures j.Some? ==> i < j.value < |command|
      ensures j.Some? ==> MatchParen(command[i..], 0, depth) == Some(command[j.value + 1..])
      decreases |command| - i, 2
    {
      if depth > MAX_NEST {
        return None;
      }
      var nesting := 0;
      var at := i;
      ghost var all := MatchParen(command[i..], 0, depth);
      ParenStarts(command, i, 0, depth);
      while at < |command|
        invariant i <= at && ParenAhead(command, at, nesting, depth, all)
        invariant at == i ==> nesting == 0
      {
        var c := command[at];
        ParenTurn(command, at, nesting, depth, all);
        if c == '\\' && at + 1 < |command| {
          at := at + 2;
        } else if IsQuote(c) {
          var k := StepOverQuotes(command, at, depth);
          ParenTurnOver(command, at, k, nesting, depth, all);
          if k.None? {
            return None;
          }
          at := k.value;
        } else {
          nesting := Nest(c, nesting);
          if c == ')' && nesting == 0 {
            return Some(at);
          }
          at := at + 1;
        }
      }
      ParenEnds(command, nesting, depth, all);
      return None;
    }

    // Skip the bodies of every announced here-document, first announced first.
    method SkipHeredocs(command: string, i: nat) returns (j: nat)
      requires i <= |command|
      modifies this`heredocs
      ensures i <= j <= |command| && heredocs == []
      ensures command[j..] == SkipBodies(command[i..], old(heredocs))
    {
      j := i;
      for d := 0 to |heredocs|
        invariant i <= j <= |command| && heredocs == old(heredocs)
        invariant SkipBodies(command[j..], heredocs[d..]) == SkipBodies(command[i..], heredocs)
      {
        assert heredocs[d..][1..] == heredocs[d + 1..];
        j := SkipHeredocBody(command, j, heredocs[d]);
      }
      heredocs := [];
    }

    // The first operator of the table found at `i`.
    method FindOperator(command: string, i: nat) returns (op: Option<string>)
      requires i <= |command|
      ensures op == MatchOperator(command[i..])
    {
      op := FindPrefix(OPERATORS, command, i);
    }

    static method FindPrefix(ops: seq<string>, command: string, i: nat) returns (op: Option<string>)
      requires i <= |command|
      ensures op == FirstPrefix(ops, command[i..])
    {
      assert ops[0..] == ops;
      for k := 0 to |ops|
        invariant FirstPrefix(ops[k..], command[i..]) == FirstPrefix(ops, command[i..])
      {
        assert ops[k..][1..] == ops[k + 1..];
        if ops[k] <= command[i..] {
          return Some(ops[k]);
        }
      }
      return None;
    }

    // One turn of the main loop, at index `i`.
    method Advance(command: string, i: nat) returns (move: Move)
      requires i < |command|
      modifies this
      ensures Mirrors(Step(command[i..], old(State())), move, command, State(), old(tokens), tokens)
      ensures move.Goto? ==> i < move.next
    {
      var c := command[i];
      ghost var s := command[i..];
      assert s[1..] == command[i + 1..];
      if IsBlank(c) {
        Flush();
        return Goto(i + 1);
      }
      if c == '\n' {
        Flush();
        tokens := tokens + [Token("\n", Op)];
        var next := SkipHeredocs(command, i + 1);
        return Goto(next);
      }
      if c == '#' && !inWord {
        var k := FindChar(command[i..], '\n');
        if k < 0 {
          return Break;
        }
        assert s[k..] == command[i + k..];
        return Goto(i + k);
      }
      if c == '\\' {
        if i + 1 >= |command| {
          return Break;
        }
        assert s[2..] == command[i + 2..];
        if command[i + 1] != '\n' {
          buf, inWord := buf + [command[i + 1]], true;
        }
        return Goto(i + 2);
      }
      if IsQuote(c) || "$'" <= command[i..] || AtSubstitution(command[i..]) {
        move := AdvanceOverGroup(command, i);
      } else {
        move := AdvancePlain(command, i);
      }
    }

    // Step over the quoted run or the substitution at `i`.
    method AdvanceOverGroup(command: string, i: nat) returns (move: Move)
      requires i < |command|
      requires IsQuote(command[i]) || "$'" <= command[i..] || AtSubstitution(command[i..])
      modifies this
      ensures Mirrors(StepOverGroup(command[i..], old(State())), move, command, State(), old(tokens), tokens)
      ensures move.Goto? ==> i < move.next
    {
      var c := command[i];
      ghost var s := command[i..];
      assert s[1..] == command[i + 1..];
      if c == '\'' {
        var k := FindChar(command[i + 1..], '\'');
        if k < 0 {
          return Return;
        }
        assert s[k + 2..] == command[i + k + 2..];
        assert s[1..k + 1] == command[i + 1..i + k + 1];
        buf, inWord := buf + command[i + 1..i + k + 1], true;
        return Goto(i + k + 2);
      }
      var j: Option<nat>;
      if "$'" <= command[i..] {
        assert s[2..] == command[i + 2..];
        j := ScanAnsiC(command, i);
      } else if c == '"' {
        j := ScanDouble(command, i, 0);
      } else {
        j := ScanSubstitution(command, i, 0);
      }
      if j.None? {
        return Return;
      }
      inWord := true;
      return Goto(j.value);
    }

    // Close the open word and emit `op`, which may announce a here-document.
    method EmitOperator(op: string)
      modifies this
      ensures State() == Announced(op, Flushed(old(State())))
      ensures tokens == old(tokens) + (FlushOut(old(State())) + [Token(op, Op)])
    {
      Flush();
      tokens := tokens + [Token(op, Op)];
      if op in {"<<", "<<-"} {
        pending := Some(op == "<<-");
      }
    }

    // Emit the operator at `i`, or add its character to the open word.
    method AdvancePlain(command: string, i: nat) returns (move: Move)
      requires i < |command|
      modifies this
      ensures Mirrors(StepPlain(command[i..], old(State())), move, command, State(), old(tokens), tokens)
      ensures move.Goto? ==> i < move.next
    {
      var op := FindOperator(command, i);
      ghost var s := command[i..];
      if op.Some? {
        EmitOperator(op.value);
        assert s[|op.value|..] == command[i + |op.value|..];
        return Goto(i + |op.value|);
      }
      assert s[1..] == command[i + 1..];
      buf, inWord := buf + [command[i]], true;
      return Goto(i + 1);
    }
  }

  // What one turn of the main loop decides: go on at an index, leave the loop, or return at once.
  datatype Move = Goto(next: nat) | Break | Return

  ghost predicate Mirrors(o: Outcome, move: Move, command: string, st: LexState, before: seq<Token>,
                          tokens: seq<Token>) {
    match o
    case More(out, rest, st') =>
      move.Goto? && move.next <= |command| && command[move.next..] == rest && st == st' && tokens == before + out
    case Stop(last) => move.Break? && st == last && tokens == before
    case Abandon(out) => move.Return? && tokens == before + out
  }

  lemma LexTurn(command: string, i: nat, st: LexState, move: Move, st': LexState, before: seq<Token>, after: seq<Token>)
    requires i < |command|
    requires Mirrors(Step(command[i..], st), move, command, st', before, after)
    ensures move.Goto? ==> before + LexFrom(command[i..], st) == after + LexFrom(command[move.next..], st')
    ensures move.Break? ==> before + LexFrom(command[i..], st) == after + FlushOut(st')
    ensures move.Return? ==> before + LexFrom(command[i..], st) == after
  {
    if move.Goto? {
      Associate(before, Step(command[i..], st).out, LexFrom(command[move.next..], st'));
    }
  }

  method LexCommand(command: string) returns (tokens: seq<Token>)
    ensures tokens == Lex(command)
  {
    var lexer := new Lexer();
    var i := 0;
    assert command[i..] == command;
    ghost var all := lexer.tokens + LexFrom(command[i..], lexer.State());
    while i < |command|
      invariant 0 <= i <= |command|
      invariant lexer.tokens + LexFrom(command[i..], lexer.State()) == all
    {
      ghost var st, before := lexer.State(), lexer.tokens;
      var move := lexer.Advance(command, i);
      LexTurn(command, i, st, move, lexer.State(), before, lexer.tokens);
      match move
      case Goto(next) => i := next;
      case Break => lexer.Flush(); return lexer.tokens;
      case Return => return lexer.tokens;
    }
    lexer.Flush();
    tokens := lexer.tokens;
  }
}
