// Commands as trees: words made of quoted or bare literals and of command substitutions, which stand
// bare or inside double quotes and hold commands in turn, to any depth, between operators.
module ShellTrees {
  import opened ShellSyntax
  import opened ShellQuoting

  datatype Item =
    | WordItem(parts: seq<Part>)
    | OpItem(op: string)

  datatype Part =
    | Literal(piece: Piece)
    | Inner(body: seq<Item>)                  // $(…)
    | Quoted(text: string, inners: seq<Within>) // "text$(…)text…"

  // A substitution inside double quotes, and the text that follows it there.
  datatype Within = Within(body: seq<Item>, text: string)

  // -- the trees that can be printed ------------------------------------------

  // The matcher of parentheses reads `$'…'` as if it were `'…'`, so it takes an escaped quote inside
  // for the closing one.
  predicate IsNestable(p: Piece) {
    CanRender(p) && (p.style == AnsiC ==> FindChar(p.text, '\'') < 0)
  }

  predicate IsMarkFree(text: string) {
    SUBST_MARK !in text
  }

  // Operators that neither match as parentheses nor announce a here-document.
  predicate IsPlainOperator(op: string) {
    op == "\n" || (op in OPERATORS && op !in {"(", ")", "<<", "<<-"})
  }

  predicate IsCommand(c: seq<Item>)
    decreases c
  {
    c == [] || (IsItem(c[0]) && IsCommand(c[1..]))
  }

  predicate IsItem(item: Item)
    decreases item
  {
    match item
    case WordItem(parts) => parts != [] && AreParts(parts)
    case OpItem(op) => IsPlainOperator(op)
  }

  predicate AreParts(parts: seq<Part>)
    decreases parts
  {
    parts == [] || (IsPart(parts[0]) && AreParts(parts[1..]))
  }

  predicate IsPart(part: Part)
    decreases part
  {
    match part
    case Literal(p) => IsNestable(p) && IsMarkFree(p.text)
    case Inner(body) => IsCommand(body)
    case Quoted(text, inners) => IsMarkFree(text) && AreInners(inners)
  }

  predicate AreInners(inners: seq<Within>)
    decreases inners
  {
    inners == [] || (IsCommand(inners[0].body) && IsMarkFree(inners[0].text) && AreInners(inners[1..]))
  }

  // -- printing -----------------------------------------------------------------

  function Print(c: seq<Item>): string
    decreases c
  {
    if c == [] then "" else PrintItem(c[0]) + (" " + Print(c[1..]))
  }

  function PrintItem(item: Item): string
    decreases item
  {
    match item
    case WordItem(parts) => PrintParts(parts)
    case OpItem(op) => op
  }

  function PrintParts(parts: seq<Part>): string
    decreases parts
  {
    if parts == [] then "" else PrintPart(parts[0]) + PrintParts(parts[1..])
  }

  function PrintPart(part: Part): string
    decreases part
  {
    match part
    case Literal(p) => Render(p)
    case Inner(body) => "$(" + (Print(body) + ")")
    case Quoted(text, inners) => "\"" + (EscapeForDouble(text) + PrintInners(inners)) + "\""
  }

  function PrintInners(inners: seq<Within>): string
    decreases inners
  {
    if inners == [] then ""
    else "$(" + (Print(inners[0].body) + ")") + (EscapeForDouble(inners[0].text) + PrintInners(inners[1..]))
  }

  // -- what the printed text means ----------------------------------------------

  function PartsText(parts: seq<Part>): string {
    if parts == [] then "" else PartText(parts[0]) + PartsText(parts[1..])
  }

  function PartText(part: Part): string {
    match part
    case Literal(p) => p.text
    case Inner(_) => [SUBST_MARK]
    case Quoted(text, inners) => text + InnersText(inners)
  }

  function InnersText(inners: seq<Within>): string {
    if inners == [] then "" else [SUBST_MARK] + (inners[0].text + InnersText(inners[1..]))
  }

  function PartsTokens(parts: seq<Part>): seq<Token> {
    if parts == [] then [] else PartTokens(parts[0]) + PartsTokens(parts[1..])
  }

  function PartTokens(part: Part): seq<Token> {
    match part
    case Literal(_) => []
    case Inner(body) => [Token(Print(body), Subst)]
    case Quoted(_, inners) => InnersTokens(inners)
  }

  function InnersTokens(inners: seq<Within>): seq<Token> {
    if inners == [] then [] else [Token(Print(inners[0].body), Subst)] + InnersTokens(inners[1..])
  }

  function ItemTokens(item: Item): seq<Token> {
    match item
    case WordItem(parts) => PartsTokens(parts) + [Token(PartsText(parts), Word)]
    case OpItem(op) => [Token(op, Op)]
  }

  function Tokens(c: seq<Item>): seq<Token> {
    if c == [] then [] else ItemTokens(c[0]) + Tokens(c[1..])
  }

  // The commands that a word substitutes, in order.
  function Bodies(parts: seq<Part>): seq<seq<Item>> {
    if parts == [] then [] else PartBodies(parts[0]) + Bodies(parts[1..])
  }

  function PartBodies(part: Part): seq<seq<Item>> {
    match part
    case Literal(_) => []
    case Inner(body) => [body]
    case Quoted(_, inners) => InnerBodies(inners)
  }

  function InnerBodies(inners: seq<Within>): seq<seq<Item>> {
    if inners == [] then [] else [inners[0].body] + InnerBodies(inners[1..])
  }

  function BodiesTokens(bodies: seq<seq<Item>>): seq<Token> {
    if bodies == [] then [] else [Token(Print(bodies[0]), Subst)] + BodiesTokens(bodies[1..])
  }

  lemma {:induction false} BodiesTokensOfConcat(a: seq<seq<Item>>, b: seq<seq<Item>>)
    ensures BodiesTokens(a + b) == BodiesTokens(a) + BodiesTokens(b)
    decreases |a|
  {
    if a == [] {
      assert a + b == b;
    } else {
      assert (a + b)[1..] == a[1..] + b;
      BodiesTokensOfConcat(a[1..], b);
    }
  }

  lemma {:induction false} TokensOfInners(inners: seq<Within>)
    ensures InnersTokens(inners) == BodiesTokens(InnerBodies(inners))
  {
    if inners != [] {
      TokensOfInners(inners[1..]);
      BodiesTokensOfConcat([inners[0].body], InnerBodies(inners[1..]));
    }
  }

  lemma {:induction false} TokensOfParts(parts: seq<Part>)
    ensures PartsTokens(parts) == BodiesTokens(Bodies(parts))
  {
    if parts != [] {
      TokensOfParts(parts[1..]);
      BodiesTokensOfConcat(PartBodies(parts[0]), Bodies(parts[1..]));
      match parts[0]
      case Literal(_) =>
      case Inner(body) => assert [body][1..] == [];
      case Quoted(_, inners) => TokensOfInners(inners);
    }
  }

  // -- how deep double quotes and substitutions nest ------------------------------

  function Max(a: nat, b: nat): nat {
    if a < b then b else a
  }

  // How many levels further down the matcher of parentheses must go for a command: one for double
  // quotes, and one more for a substitution inside them. A bare substitution needs none.
  function Need(c: seq<Item>): nat
    decreases c
  {
    if c == [] then 0 else Max(NeedOfItem(c[0]), Need(c[1..]))
  }

  function NeedOfItem(item: Item): nat
    decreases item
  {
    match item
    case WordItem(parts) => NeedOfParts(parts)
    case OpItem(_) => 0
  }

  function NeedOfParts(parts: seq<Part>): nat
    decreases parts
  {
    if parts == [] then 0 else Max(NeedOfPart(parts[0]), NeedOfParts(parts[1..]))
  }

  function NeedOfPart(part: Part): nat
    decreases part
  {
    match part
    case Literal(p) => if p.style == Double then 1 else 0
    case Inner(body) => Need(body)
    case Quoted(_, inners) => 1 + NeedOfInners(inners)
  }

  function NeedOfInners(inners: seq<Within>): nat
    decreases inners
  {
    if inners == [] then 0 else Max(1 + Need(inners[0].body), NeedOfInners(inners[1..]))
  }

  // The same for the lexer itself, which is at level 0 in the double quotes of its own words.
  function Depth(c: seq<Item>): nat {
    if c == [] then 0 else Max(DepthOfItem(c[0]), Depth(c[1..]))
  }

  function DepthOfItem(item: Item): nat {
    match item
    case WordItem(parts) => DepthOfParts(parts)
    case OpItem(_) => 0
  }

  function DepthOfParts(parts: seq<Part>): nat {
    if parts == [] then 0 else Max(DepthOfPart(parts[0]), DepthOfParts(parts[1..]))
  }

  function DepthOfPart(part: Part): nat {
    match part
    case Literal(_) => 0
    case Inner(body) => Need(body)
    case Quoted(_, inners) => NeedOfInners(inners)
  }

  // The trees that stay within the bound of the lexer.
  predicate Fits(c: seq<Item>) {
    Depth(c) <= MAX_NEST
  }

  lemma {:induction false} DepthIsAtMostNeed(c: seq<Item>)
    ensures Depth(c) <= Need(c)
    decreases |c|
  {
    if c != [] {
      DepthIsAtMostNeed(c[1..]);
      if c[0].WordItem? {
        PartsDepthIsAtMostNeed(c[0].parts);
      }
    }
  }

  lemma {:induction false} PartsDepthIsAtMostNeed(parts: seq<Part>)
    ensures DepthOfParts(parts) <= NeedOfParts(parts)
    decreases |parts|
  {
    if parts != [] {
      PartsDepthIsAtMostNeed(parts[1..]);
    }
  }

  // -- no printed command starts with a parenthesis -------------------------------

  lemma PieceNeverStartsWithParen(p: Piece)
    requires CanRender(p)
    ensures Render(p) != "" && Render(p)[0] != '('
  {
    RenderStarts(p);
    if p.style == Bare {
      assert p.text[0] in p.text;
    }
  }

  lemma PartNeverStartsWithParen(part: Part)
    requires IsPart(part)
    ensures PrintPart(part) != "" && PrintPart(part)[0] != '('
  {
    match part
    case Literal(p) => PieceNeverStartsWithParen(p);
    case Inner(_) => assert PrintPart(part)[0] == '$';
    case Quoted(_, _) => assert PrintPart(part)[0] == '"';
  }

  lemma PlainOperatorText(op: string)
    requires IsPlainOperator(op)
    ensures op != "" && op[0] != '('
    ensures forall c <- op :: !IsQuote(c) && c != '\\' && c != '(' && c != ')'
  {
    if op != "\n" {
      var i :| 0 <= i < |OPERATORS| && OPERATORS[i] == op;
    }
  }

  lemma PrintNeverStartsWithParen(c: seq<Item>)
    requires IsCommand(c)
    ensures Print(c) == "" || Print(c)[0] != '('
  {
    if c != [] {
      match c[0]
      case OpItem(op) => PlainOperatorText(op);
      case WordItem(parts) => WordNeverStartsWithParen(parts);
    }
  }

  lemma WordNeverStartsWithParen(parts: seq<Part>)
    requires parts != [] && AreParts(parts)
    ensures PrintParts(parts) != "" && PrintParts(parts)[0] != '('
  {
    PartNeverStartsWithParen(parts[0]);
  }

  // -- the commands inside a command -----------------------------------------------

  lemma {:induction false} InnerBodiesAreCommands(inners: seq<Within>)
    requires AreInners(inners)
    ensures forall b <- InnerBodies(inners) :: IsCommand(b) && Need(b) < NeedOfInners(inners)
    decreases |inners|
  {
    if inners != [] {
      InnerBodiesAreCommands(inners[1..]);
    }
  }

  // A command inside a tree that fits is a tree that fits.
  lemma {:induction false} BodiesAreCommands(parts: seq<Part>)
    requires AreParts(parts) && DepthOfParts(parts) <= MAX_NEST
    ensures forall b <- Bodies(parts) :: IsCommand(b) && Fits(b)
    decreases |parts|
  {
    if parts != [] {
      BodiesAreCommands(parts[1..]);
      if parts[0].Quoted? {
        InnerBodiesAreCommands(parts[0].inners);
      }
      forall b <- PartBodies(parts[0])
        ensures IsCommand(b) && Fits(b)
      {
        DepthIsAtMostNeed(b);
      }
    }
  }
}
