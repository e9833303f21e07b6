// Which files a shell command reads, as functions of its tokens. BashReader.dfy proves the loops
// equal to these functions.
module BashReads {
  import opened Wrappers
  import opened ShellSyntax

  // The programs and flags the extractor knows. Every law below holds whatever the tables contain.
  datatype Tables = Tables(
    readCmds: set<string>,
    wrapperCmds: set<string>,
    keywords: set<string>,
    shellCmds: set<string>,
    patternCmds: set<string>,
    patternFlags: set<string>,
    valueFlags: map<string, set<string>>)

  const REDIRECT_OPS: set<string> := {">", ">>", "<", ">&", "<&", "&>"}

  const FD_DUP_OPS: set<string> := {">&", "<&"}

  const MAX_SUBST_DEPTH: nat := 4

  predicate IsSeparator(t: Token) {
    t.kind == Op && t.text in SEPARATORS
  }

  function BaseName(word: string): string {
    if word == "" then ""
    else if word[|word| - 1] == '/' then ""
    else BaseName(word[..|word| - 1]) + [word[|word| - 1]]
  }

  // A name, then `=`.
  predicate IsAssignment(word: string) {
    word != "" && IsNameChar(word[0]) && !IsDigit(word[0]) && NameThenEquals(word[1..])
  }

  predicate NameThenEquals(s: string) {
    s != "" && (s[0] == '=' || (IsNameChar(s[0]) && NameThenEquals(s[1..])))
  }

  predicate IsNameChar(c: char) {
    'a' <= c <= 'z' || 'A' <= c <= 'Z' || IsDigit(c) || c == '_'
  }

  predicate IsDigit(c: char) {
    '0' <= c <= '9'
  }

  predicate IsNumber(word: string) {
    word != "" && forall c <- word :: IsDigit(c)
  }

  predicate IsFlag(word: string) {
    |word| > 1 && word[0] == '-'
  }

  predicate HasPlaceholder(word: string) {
    exists k | 0 <= k < |word| - 1 :: word[k] == '{' && word[k + 1] == '}'
  }

  // A mark, a placeholder or a glob is decided by something other than the text of the command.
  predicate NamesAConcretePath(arg: string) {
    SUBST_MARK !in arg && !HasPlaceholder(arg) && '*' !in arg && '?' !in arg
  }

  // -- the words of a sub-command --------------------------------------------

  // `words` so far, and whether the next word is the operand of a redirect and no argument.
  datatype Words = Words(words: seq<string>, skipOperand: bool)

  function TakeToken(w: Words, t: Token): Words {
    match t.kind
    case Subst => w
    case Op =>
      Words(if t.text in REDIRECT_OPS && w.words != [] && IsNumber(w.words[|w.words| - 1])
            then w.words[..|w.words| - 1] else w.words,
            t.text in HEREDOC_OPS || t.text in FD_DUP_OPS)
    case Word => if w.skipOperand then w.(skipOperand := false) else w.(words := w.words + [t.text])
  }

  function TakeTokens(w: Words, sub: seq<Token>): Words
    decreases |sub|
  {
    if sub == [] then w else TakeTokens(TakeToken(w, sub[0]), sub[1..])
  }

  function CommandWords(sub: seq<Token>): seq<string> {
    TakeTokens(Words([], false), sub).words
  }

  function DropFlags(words: seq<string>): (r: seq<string>)
    ensures |r| <= |words|
  {
    if words != [] && IsFlag(words[0]) then DropFlags(words[1..]) else words
  }

  // Everything before the real program is dropped: assignments, keywords and wrappers.
  function StripWrappers(words: seq<string>, t: Tables): seq<string>
    decreases |words|
  {
    if words == [] then []
    else if IsAssignment(words[0]) || words[0] in t.keywords then StripWrappers(words[1..], t)
    else if BaseName(words[0]) in t.wrapperCmds then StripWrappers(DropFlags(words[1..]), t)
    else words
  }

  // -- the arguments of a read command ---------------------------------------

  function DropValue(args: seq<string>): seq<string> {
    if |args| < 2 then [] else args[2..]
  }

  function ValueFlags(cmd: string, t: Tables): set<string> {
    if cmd in t.valueFlags then t.valueFlags[cmd] else {}
  }

  function ReadArgs(cmd: string, args: seq<string>, patternSeen: bool, endOfOptions: bool, t: Tables): seq<string>
    decreases |args|
  {
    if args == [] then []
    else
      var arg := args[0];
      if !endOfOptions && IsFlag(arg) then
        if arg == "--" then ReadArgs(cmd, args[1..], patternSeen, true, t)
        else if cmd in t.patternCmds && arg in t.patternFlags then ReadArgs(cmd, DropValue(args), true, endOfOptions, t)
        else if arg in ValueFlags(cmd, t) then ReadArgs(cmd, DropValue(args), patternSeen, endOfOptions, t)
        else ReadArgs(cmd, args[1..], patternSeen, endOfOptions, t)
      else if !patternSeen then ReadArgs(cmd, args[1..], true, endOfOptions, t)
      else (if NamesAConcretePath(arg) then [arg] else []) + ReadArgs(cmd, args[1..], patternSeen, endOfOptions, t)
  }

  // The files among the arguments of `cmd`, whose first operand may be a pattern.
  function ReaderFiles(cmd: string, args: seq<string>, t: Tables): seq<string> {
    ReadArgs(cmd, args, cmd !in t.patternCmds, false, t)
  }

  // -- recursion into other commands -----------------------------------------

  // The script of `sh -c script`: the word after the first `-c` that has a word after it.
  function ScriptOf(words: seq<string>): Option<string> {
    if |words| < 2 then None
    else if words[0] == "-c" then Some(words[1])
    else ScriptOf(words[1..])
  }

  // The words of an exec'd command end before `;` or `+`.
  function BodyLength(words: seq<string>): (n: nat)
    ensures n <= |words|
  {
    if words == [] || words[0] == ";" || words[0] == "+" then 0 else 1 + BodyLength(words[1..])
  }

  function ExecBodies(words: seq<string>): seq<seq<string>>
    decreases |words|
  {
    if words == [] then []
    else if words[0] == "-exec" || words[0] == "-execdir" then
      var n := BodyLength(words[1..]);
      [words[1..][..n]] + ExecBodies(words[1..][n..])
    else ExecBodies(words[1..])
  }

  // The length of the run of tokens before the next separator.
  function RunLength(tokens: seq<Token>): (n: nat)
    ensures n <= |tokens|
    ensures forall i | 0 <= i < n :: !IsSeparator(tokens[i])
    ensures n < |tokens| ==> IsSeparator(tokens[n])
  {
    if tokens == [] || IsSeparator(tokens[0]) then 0 else 1 + RunLength(tokens[1..])
  }

  // How far the recursion may still go below `depth`.
  function Room(depth: nat): nat {
    if depth > MAX_SUBST_DEPTH then 0 else MAX_SUBST_DEPTH + 1 - depth
  }

  function Reads(command: string, depth: nat, t: Tables): seq<string>
    decreases Room(depth), 4
  {
    if depth > MAX_SUBST_DEPTH then [] else TokensReads(Lex(command), depth, t)
  }

  function TokensReads(tokens: seq<Token>, depth: nat, t: Tables): seq<string>
    requires depth <= MAX_SUBST_DEPTH
    decreases Room(depth), 3, |tokens|
  {
    if tokens == [] then []
    else if IsSeparator(tokens[0]) then TokensReads(tokens[1..], depth, t)
    else
      var n := RunLength(tokens);
      SubReads(tokens[..n], depth, t) + TokensReads(tokens[n..], depth, t)
  }

  function SubReads(sub: seq<Token>, depth: nat, t: Tables): seq<string>
    requires depth <= MAX_SUBST_DEPTH
    decreases Room(depth), 2
  {
    SubstReads(sub, depth, t) + ProgramReads(CommandWords(sub), depth, t)
  }

  function SubstReads(sub: seq<Token>, depth: nat, t: Tables): seq<string>
    requires depth <= MAX_SUBST_DEPTH
    decreases Room(depth), 1, |sub|
  {
    if sub == [] then []
    else if sub[0].kind == Subst then Reads(sub[0].text, depth + 1, t) + SubstReads(sub[1..], depth, t)
    else SubstReads(sub[1..], depth, t)
  }

  function ProgramReads(words: seq<string>, depth: nat, t: Tables): seq<string>
    decreases Room(depth), 1, 0
  {
    var argv := StripWrappers(words, t);
    if depth > MAX_SUBST_DEPTH || argv == [] then []
    else
      var cmd := BaseName(argv[0]);
      if cmd in t.shellCmds then
        match ScriptOf(argv[1..])
        case None => []
        case Some(script) => Reads(script, depth + 1, t)
      else if cmd == "find" then BodiesReads(ExecBodies(argv), depth, t)
      else if cmd in t.readCmds then ReaderFiles(cmd, argv[1..], t)
      else []
  }

  function BodiesReads(bodies: seq<seq<string>>, depth: nat, t: Tables): seq<string>
    requires depth <= MAX_SUBST_DEPTH
    decreases Room(depth), 0, |bodies|
  {
    if bodies == [] then []
    else ProgramReads(bodies[0], depth + 1, t) + BodiesReads(bodies[1..], depth, t)
  }
}
