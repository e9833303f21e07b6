// Lexing a command and then, again and again, the text of every substitution in it. The recursion
// ends because a substitution is always shorter than the command that contains it.
module ShellReread {
  import opened Sequences
  import opened ShellSyntax
  import opened ShellLength
  import opened ShellTrees
  import opened ShellRoundTrip

  // A word with its marks, and what stands behind each mark; or an operator.
  datatype Shape = WordShape(text: string, subs: seq<seq<Shape>>) | OpShape(op: string)

  function Reread(command: string): seq<Shape>
    decreases |command|, 1, 0
  {
    LexConserves(command);
    ReadTokens(Lex(command), [], |command|)
  }

  predicate AreShorter(tokens: seq<Token>, bound: nat) {
    forall t <- tokens :: t.kind == Subst ==> |t.text| < bound
  }

  lemma ShorterTail(a: seq<Token>, b: seq<Token>, bound: nat)
    requires AreShorter(a + b, bound)
    ensures AreShorter(b, bound)
  {
    assert forall t <- b :: t in a + b;
  }

  // `held` is what the substitutions of the word that is not complete yet were read as.
  function ReadTokens(tokens: seq<Token>, held: seq<seq<Shape>>, bound: nat): seq<Shape>
    requires AreShorter(tokens, bound)
    decreases bound, 0, |tokens|
  {
    if tokens == [] then []
    else
      var t := tokens[0];
      assert t in tokens && forall u <- tokens[1..] :: u in tokens;
      match t.kind
      case Subst => ReadTokens(tokens[1..], held + [Reread(t.text)], bound)
      case Word => [WordShape(t.text, held)] + ReadTokens(tokens[1..], [], bound)
      case Op => [OpShape(t.text)] + ReadTokens(tokens[1..], held, bound)
  }

  // The shape of a tree: everything but how its literals are quoted.
  function Erase(c: seq<Item>): seq<Shape>
    decreases c
  {
    if c == [] then [] else [EraseItem(c[0])] + Erase(c[1..])
  }

  function EraseItem(item: Item): Shape
    decreases item
  {
    match item
    case WordItem(parts) => WordShape(PartsText(parts), EraseParts(parts))
    case OpItem(op) => OpShape(op)
  }

  function EraseParts(parts: seq<Part>): seq<seq<Shape>>
    decreases parts
  {
    if parts == [] then [] else ErasePart(parts[0]) + EraseParts(parts[1..])
  }

  function ErasePart(part: Part): seq<seq<Shape>>
    decreases part
  {
    match part
    case Literal(_) => []
    case Inner(body) => [Erase(body)]
    case Quoted(_, inners) => EraseInners(inners)
  }

  function EraseInners(inners: seq<Within>): seq<seq<Shape>>
    decreases inners
  {
    if inners == [] then [] else [Erase(inners[0].body)] + EraseInners(inners[1..])
  }

  // `shapes` are the shapes of `bodies`, one by one.
  ghost predicate AreShapesOf(shapes: seq<seq<Shape>>, bodies: seq<seq<Item>>) {
    |shapes| == |bodies| && forall i | 0 <= i < |bodies| :: shapes[i] == Erase(bodies[i])
  }

  lemma {:induction false} ShapesOfInners(inners: seq<Within>)
    ensures AreShapesOf(EraseInners(inners), InnerBodies(inners))
    decreases |inners|
  {
    if inners != [] {
      ShapesOfInners(inners[1..]);
    }
  }

  lemma {:induction false} ShapesOfParts(parts: seq<Part>)
    ensures AreShapesOf(EraseParts(parts), Bodies(parts))
    decreases |parts|
  {
    if parts != [] {
      ShapesOfParts(parts[1..]);
      if parts[0].Quoted? {
        ShapesOfInners(parts[0].inners);
      }
    }
  }

  // -- reading what was printed -------------------------------------------------

  // Every one of `bodies` rereads as its shape.
  ghost predicate AreReread(bodies: seq<seq<Item>>) {
    forall b <- bodies :: Reread(Print(b)) == Erase(b)
  }

  lemma {:induction false} ReadBodies(bodies: seq<seq<Item>>, shapes: seq<seq<Shape>>, more: seq<Token>,
                                      held: seq<seq<Shape>>, bound: nat)
    requires AreReread(bodies) && AreShapesOf(shapes, bodies)
    requires AreShorter(BodiesTokens(bodies) + more, bound)
    ensures AreShorter(more, bound)
    ensures ReadTokens(BodiesTokens(bodies) + more, held, bound) == ReadTokens(more, held + shapes, bound)
    decreases |bodies|
  {
    ShorterTail(BodiesTokens(bodies), more, bound);
    if bodies == [] {
      assert BodiesTokens(bodies) + more == more && held + shapes == held;
    } else {
      var rest := BodiesTokens(bodies[1..]) + more;
      Associate([Token(Print(bodies[0]), Subst)], BodiesTokens(bodies[1..]), more);
      ShorterTail([Token(Print(bodies[0]), Subst)], rest, bound);
      assert bodies[0] in bodies && forall b <- bodies[1..] :: b in bodies;
      ReadSubst(Print(bodies[0]), rest, held, bound);
      ReadBodies(bodies[1..], shapes[1..], more, held + [shapes[0]], bound);
      Associate(held, [shapes[0]], shapes[1..]);
      assert [shapes[0]] + shapes[1..] == shapes;
    }
  }

  lemma ReadSubst(text: string, more: seq<Token>, held: seq<seq<Shape>>, bound: nat)
    requires AreShorter([Token(text, Subst)] + more, bound) && AreShorter(more, bound)
    ensures ReadTokens([Token(text, Subst)] + more, held, bound) == ReadTokens(more, held + [Reread(text)], bound)
  {
    assert ([Token(text, Subst)] + more)[1..] == more;
  }

  lemma ReadOperator(op: string, more: seq<Token>, bound: nat)
    requires AreShorter([Token(op, Op)] + more, bound)
    ensures AreShorter(more, bound)
    ensures ReadTokens([Token(op, Op)] + more, [], bound) == [OpShape(op)] + ReadTokens(more, [], bound)
  {
    var tokens := [Token(op, Op)] + more;
    assert tokens[1..] == more;
    assert forall t <- more :: t in tokens;
  }

  lemma ReadWord(bodies: seq<seq<Item>>, shapes: seq<seq<Shape>>, text: string, more: seq<Token>, bound: nat)
    requires AreReread(bodies) && AreShapesOf(shapes, bodies)
    requires AreShorter(BodiesTokens(bodies) + ([Token(text, Word)] + more), bound)
    ensures AreShorter(more, bound)
    ensures ReadTokens(BodiesTokens(bodies) + ([Token(text, Word)] + more), [], bound)
         == [WordShape(text, shapes)] + ReadTokens(more, [], bound)
  {
    var tail := [Token(text, Word)] + more;
    ReadBodies(bodies, shapes, tail, [], bound);
    assert forall t <- more :: t in tail;
    assert tail[1..] == more;
    assert [] + shapes == shapes;
  }

  lemma ReadItem(item: Item, more: seq<Token>, bound: nat)
    requires item.WordItem? ==> AreReread(Bodies(item.parts))
    requires AreShorter(ItemTokens(item) + more, bound)
    ensures AreShorter(more, bound)
    ensures ReadTokens(ItemTokens(item) + more, [], bound) == [EraseItem(item)] + ReadTokens(more, [], bound)
  {
    match item
    case OpItem(op) => ReadOperator(op, more, bound);
    case WordItem(parts) =>
      ShapesOfParts(parts);
      TokensOfParts(parts);
      Associate(PartsTokens(parts), [Token(PartsText(parts), Word)], more);
      ReadWord(Bodies(parts), EraseParts(parts), PartsText(parts), more, bound);
  }

  lemma {:induction false} ReadCommand(c: seq<Item>, bound: nat)
    requires IsCommand(c) && Fits(c)
    requires AreShorter(Tokens(c), bound)
    ensures ReadTokens(Tokens(c), [], bound) == Erase(c)
    decreases c, 0
  {
    if c != [] {
      assert Tokens(c) == ItemTokens(c[0]) + Tokens(c[1..]);
      ItemIsReread(c[0]);
      ReadItem(c[0], Tokens(c[1..]), bound);
      ReadCommand(c[1..], bound);
    }
  }

  lemma {:induction false} ItemIsReread(item: Item)
    requires IsItem(item) && DepthOfItem(item) <= MAX_NEST
    ensures item.WordItem? ==> AreReread(Bodies(item.parts))
    decreases item, 0
  {
    if item.WordItem? {
      PartsReread(item.parts);
    }
  }

  lemma {:induction false} PartsReread(parts: seq<Part>)
    requires AreParts(parts) && DepthOfParts(parts) <= MAX_NEST
    ensures AreReread(Bodies(parts))
    decreases parts, 0
  {
    if parts != [] {
      PartReread(parts[0]);
      PartsReread(parts[1..]);
    }
  }

  lemma {:induction false} PartReread(part: Part)
    requires IsPart(part) && DepthOfPart(part) <= MAX_NEST
    ensures AreReread(PartBodies(part))
    decreases part, 0
  {
    match part
    case Literal(_) =>
    case Inner(body) =>
      DepthIsAtMostNeed(body);
      RereadPrinted(body);
    case Quoted(_, inners) =>
      InnersReread(inners);
  }

  lemma {:induction false} InnersReread(inners: seq<Within>)
    requires AreInners(inners) && NeedOfInners(inners) <= MAX_NEST
    ensures AreReread(InnerBodies(inners))
    decreases inners, 0
  {
    if inners != [] {
      DepthIsAtMostNeed(inners[0].body);
      RereadPrinted(inners[0].body);
      InnersReread(inners[1..]);
    }
  }

  // Printing a tree, then lexing it and every substitution inside it, gives its shape.
  lemma {:induction false} RereadPrinted(c: seq<Item>)
    requires IsCommand(c) && Fits(c)
    ensures Reread(Print(c)) == Erase(c)
    decreases c, 1
  {
    LexOfPrintedExactly(c);
    LexConserves(Print(c));
    ReadCommand(c, |Print(c)|);
  }

  // -- a tree without its quotes ------------------------------------------------

  // A word as its texts and the commands between them.
  datatype Plain =
    | PlainWord(head: string, rest: seq<PlainInner>)
    | PlainOp(op: string)

  datatype PlainInner = PlainInner(body: seq<Plain>, text: string)

  datatype Segments = Segments(head: string, rest: seq<PlainInner>)

  // What a tree says, however its literals are split up and quoted.
  function Unquoted(c: seq<Item>): seq<Plain>
    decreases c
  {
    if c == [] then [] else [UnquotedItem(c[0])] + Unquoted(c[1..])
  }

  function UnquotedItem(item: Item): Plain
    decreases item
  {
    match item
    case WordItem(parts) => var word := UnquotedParts(parts); PlainWord(word.head, word.rest)
    case OpItem(op) => PlainOp(op)
  }

  function UnquotedParts(parts: seq<Part>): Segments
    decreases parts
  {
    if parts == [] then Segments("", []) else UnquotedPart(parts[0], UnquotedParts(parts[1..]))
  }

  function UnquotedPart(part: Part, more: Segments): Segments
    decreases part
  {
    match part
    case Literal(p) => Segments(p.text + more.head, more.rest)
    case Inner(body) => Segments("", [PlainInner(Unquoted(body), more.head)] + more.rest)
    case Quoted(text, inners) =>
      var all := UnquotedInners(inners, more);
      Segments(text + all.head, all.rest)
  }

  function UnquotedInners(inners: seq<Within>, more: Segments): Segments
    decreases inners
  {
    if inners == [] then more
    else
      var all := UnquotedInners(inners[1..], more);
      Segments("", [PlainInner(Unquoted(inners[0].body), inners[0].text + all.head)] + all.rest)
  }

  function ShapeOf(p: seq<Plain>): seq<Shape>
    decreases p
  {
    if p == [] then [] else [ShapeOfOne(p[0])] + ShapeOf(p[1..])
  }

  function ShapeOfOne(p: Plain): Shape
    decreases p
  {
    match p
    case PlainWord(head, rest) => WordShape(head + RestText(rest), RestShapes(rest))
    case PlainOp(op) => OpShape(op)
  }

  function RestText(rest: seq<PlainInner>): string {
    if rest == [] then "" else [SUBST_MARK] + (rest[0].text + RestText(rest[1..]))
  }

  function RestShapes(rest: seq<PlainInner>): seq<seq<Shape>>
    decreases rest
  {
    if rest == [] then [] else [ShapeOf(rest[0].body)] + RestShapes(rest[1..])
  }

  function SegmentsText(w: Segments): string {
    w.head + RestText(w.rest)
  }

  lemma {:induction false} ShapeIsOfUnquoted(c: seq<Item>)
    ensures Erase(c) == ShapeOf(Unquoted(c))
    decreases c, 0
  {
    if c != [] {
      ShapeIsOfUnquoted(c[1..]);
      assert Unquoted(c)[1..] == Unquoted(c[1..]);
      if c[0].WordItem? {
        PartsAreOfUnquoted(c[0].parts);
      }
    }
  }

  lemma {:induction false} PartsAreOfUnquoted(parts: seq<Part>)
    ensures PartsText(parts) == SegmentsText(UnquotedParts(parts))
    ensures EraseParts(parts) == RestShapes(UnquotedParts(parts).rest)
    decreases parts, 0
  {
    if parts != [] {
      PartsAreOfUnquoted(parts[1..]);
      PartIsOfUnquoted(parts[0], UnquotedParts(parts[1..]));
    }
  }

  lemma {:induction false} PartIsOfUnquoted(part: Part, more: Segments)
    ensures SegmentsText(UnquotedPart(part, more)) == PartText(part) + SegmentsText(more)
    ensures RestShapes(UnquotedPart(part, more).rest) == ErasePart(part) + RestShapes(more.rest)
    decreases part, 0
  {
    match part
    case Literal(p) => Associate(p.text, more.head, RestText(more.rest));
    case Inner(body) =>
      ShapeIsOfUnquoted(body);
      OneInner(Unquoted(body), more.head, more.rest);
    case Quoted(text, inners) =>
      InnersAreOfUnquoted(inners, more);
      var all := UnquotedInners(inners, more);
      Associate(text, all.head, RestText(all.rest));
      Associate(text, InnersText(inners), SegmentsText(more));
  }

  lemma OneInner(body: seq<Plain>, text: string, rest: seq<PlainInner>)
    ensures RestText([PlainInner(body, text)] + rest) == [SUBST_MARK] + (text + RestText(rest))
    ensures RestShapes([PlainInner(body, text)] + rest) == [ShapeOf(body)] + RestShapes(rest)
    ensures SegmentsText(Segments("", [PlainInner(body, text)] + rest)) == [SUBST_MARK] + (text + RestText(rest))
  {
    assert ([PlainInner(body, text)] + rest)[1..] == rest;
    assert "" + RestText([PlainInner(body, text)] + rest) == RestText([PlainInner(body, text)] + rest);
  }

  lemma {:induction false} InnersAreOfUnquoted(inners: seq<Within>, more: Segments)
    ensures SegmentsText(UnquotedInners(inners, more)) == InnersText(inners) + SegmentsText(more)
    ensures RestShapes(UnquotedInners(inners, more).rest) == EraseInners(inners) + RestShapes(more.rest)
    decreases inners, 0
  {
    if inners == [] {
      assert "" + SegmentsText(more) == SegmentsText(more);
      assert [] + RestShapes(more.rest) == RestShapes(more.rest);
    } else {
      var all, text := UnquotedInners(inners[1..], more), inners[0].text;
      ShapeIsOfUnquoted(inners[0].body);
      InnersAreOfUnquoted(inners[1..], more);
      OneInner(Unquoted(inners[0].body), text + all.head, all.rest);
      Associate(text, all.head, RestText(all.rest));
      Associate(text, InnersText(inners[1..]), SegmentsText(more));
      Associate([SUBST_MARK], text + InnersText(inners[1..]), SegmentsText(more));
      Associate([Erase(inners[0].body)], EraseInners(inners[1..]), RestShapes(more.rest));
    }
  }

  // -- the shape determines the tree ------------------------------------------

  predicate AreMarkFree(p: seq<Plain>)
    decreases p
  {
    p == [] || (IsPlainMarkFree(p[0]) && AreMarkFree(p[1..]))
  }

  predicate IsPlainMarkFree(p: Plain)
    decreases p
  {
    p.PlainWord? ==> IsMarkFree(p.head) && IsRestMarkFree(p.rest)
  }

  predicate IsRestMarkFree(rest: seq<PlainInner>)
    decreases rest
  {
    rest == [] || (AreMarkFree(rest[0].body) && IsMarkFree(rest[0].text) && IsRestMarkFree(rest[1..]))
  }

  predicate AreSegmentsMarkFree(w: Segments) {
    IsMarkFree(w.head) && IsRestMarkFree(w.rest)
  }

  lemma {:induction false} UnquotedIsMarkFree(c: seq<Item>)
    requires IsCommand(c)
    ensures AreMarkFree(Unquoted(c))
    decreases c, 0
  {
    if c != [] {
      UnquotedIsMarkFree(c[1..]);
      assert Unquoted(c)[1..] == Unquoted(c[1..]);
      if c[0].WordItem? {
        UnquotedPartsAreMarkFree(c[0].parts);
      }
    }
  }

  lemma {:induction false} UnquotedPartsAreMarkFree(parts: seq<Part>)
    requires AreParts(parts)
    ensures AreSegmentsMarkFree(UnquotedParts(parts))
    decreases parts, 0
  {
    if parts != [] {
      UnquotedPartsAreMarkFree(parts[1..]);
      UnquotedPartIsMarkFree(parts[0], UnquotedParts(parts[1..]));
    }
  }

  lemma {:induction false} UnquotedPartIsMarkFree(part: Part, more: Segments)
    requires IsPart(part) && AreSegmentsMarkFree(more)
    ensures AreSegmentsMarkFree(UnquotedPart(part, more))
    decreases part, 0
  {
    match part
    case Literal(_) =>
    case Inner(body) =>
      UnquotedIsMarkFree(body);
      MarkFreeInner(Unquoted(body), more.head, more.rest);
    case Quoted(_, inners) =>
      UnquotedInnersAreMarkFree(inners, more);
  }

  lemma MarkFreeInner(body: seq<Plain>, text: string, rest: seq<PlainInner>)
    requires AreMarkFree(body) && IsMarkFree(text) && IsRestMarkFree(rest)
    ensures IsRestMarkFree([PlainInner(body, text)] + rest)
  {
    assert ([PlainInner(body, text)] + rest)[1..] == rest;
  }

  lemma {:induction false} UnquotedInnersAreMarkFree(inners: seq<Within>, more: Segments)
    requires AreInners(inners) && AreSegmentsMarkFree(more)
    ensures AreSegmentsMarkFree(UnquotedInners(inners, more))
    decreases inners, 0
  {
    if inners != [] {
      UnquotedIsMarkFree(inners[0].body);
      UnquotedInnersAreMarkFree(inners[1..], more);
      var all := UnquotedInners(inners[1..], more);
      MarkFreeInner(Unquoted(inners[0].body), inners[0].text + all.head, all.rest);
    }
  }

  predicate StartsWithMark(s: string) {
    s == "" || s[0] == SUBST_MARK
  }

  lemma SplitAtMark(a: string, r: string, b: string, q: string)
    requires SUBST_MARK !in a && SUBST_MARK !in b && StartsWithMark(r) && StartsWithMark(q)
    requires a + r == b + q
    ensures a == b && r == q
  {
    MarkComesFirst(a, r, b, q);
    MarkComesFirst(b, q, a, r);
    assert a == (a + r)[..|a|] == b;
    assert r == (a + r)[|a|..] == q;
  }

  lemma MarkComesFirst(a: string, r: string, b: string, q: string)
    requires SUBST_MARK !in b && StartsWithMark(r) && a + r == b + q
    ensures |b| <= |a|
  {
    assert |a| + |r| == |b| + |q|;
    assert r != "" ==> (a + r)[|a|] == SUBST_MARK;
    assert forall i | 0 <= i < |b| :: (a + r)[i] == (b + q)[i] == b[i] && b[i] in b;
  }

  lemma {:induction false} ShapeDeterminesPlain(p: seq<Plain>, q: seq<Plain>)
    requires AreMarkFree(p) && AreMarkFree(q) && ShapeOf(p) == ShapeOf(q)
    ensures p == q
    decreases p
  {
    if p == [] || q == [] {
      assert ShapeOf(p) == [] && ShapeOf(q) == [];
    } else {
      assert ShapeOfOne(p[0]) == ShapeOf(p)[0] == ShapeOf(q)[0] == ShapeOfOne(q[0]);
      assert ShapeOf(p[1..]) == ShapeOf(p)[1..] == ShapeOf(q)[1..] == ShapeOf(q[1..]);
      ShapeDeterminesPlain(p[1..], q[1..]);
      ShapeDeterminesOne(p[0], q[0]);
      assert p == [p[0]] + p[1..] && q == [q[0]] + q[1..];
    }
  }

  lemma {:induction false} ShapeDeterminesOne(p: Plain, q: Plain)
    requires IsPlainMarkFree(p) && IsPlainMarkFree(q) && ShapeOfOne(p) == ShapeOfOne(q)
    ensures p == q
    decreases p
  {
    if p.PlainWord? {
      SplitAtMark(p.head, RestText(p.rest), q.head, RestText(q.rest));
      ShapeDeterminesRest(p.rest, q.rest);
    }
  }

  lemma {:induction false} ShapeDeterminesRest(r: seq<PlainInner>, q: seq<PlainInner>)
    requires IsRestMarkFree(r) && IsRestMarkFree(q) && RestShapes(r) == RestShapes(q) && RestText(r) == RestText(q)
    ensures r == q
    decreases r
  {
    if r == [] || q == [] {
      assert RestShapes(r) == [] && RestShapes(q) == [];
    } else {
      assert ShapeOf(r[0].body) == RestShapes(r)[0] == RestShapes(q)[0] == ShapeOf(q[0].body);
      assert RestShapes(r[1..]) == RestShapes(r)[1..] == RestShapes(q)[1..] == RestShapes(q[1..]);
      assert r[0].text + RestText(r[1..]) == RestText(r)[1..];
      assert q[0].text + RestText(q[1..]) == RestText(q)[1..];
      SplitAtMark(r[0].text, RestText(r[1..]), q[0].text, RestText(q[1..]));
      ShapeDeterminesPlain(r[0].body, q[0].body);
      ShapeDeterminesRest(r[1..], q[1..]);
      assert r == [r[0]] + r[1..] && q == [q[0]] + q[1..];
    }
  }

  lemma SameShapeExactly(c: seq<Item>, d: seq<Item>)
    requires IsCommand(c) && IsCommand(d)
    ensures Erase(c) == Erase(d) <==> Unquoted(c) == Unquoted(d)
  {
    ShapeIsOfUnquoted(c);
    ShapeIsOfUnquoted(d);
    UnquotedIsMarkFree(c);
    UnquotedIsMarkFree(d);
    if Erase(c) == Erase(d) {
      ShapeDeterminesPlain(Unquoted(c), Unquoted(d));
    }
  }

  // Two trees within the bound whose printed texts reread alike are the same tree but for how their
  // literals are split up and quoted, so the printed text of a tree determines what it says.
  lemma TreeIsRecovered(c: seq<Item>, d: seq<Item>)
    requires IsCommand(c) && IsCommand(d) && Fits(c) && Fits(d)
    ensures Reread(Print(c)) == Reread(Print(d)) <==> Unquoted(c) == Unquoted(d)
  {
    RereadPrinted(c);
    RereadPrinted(d);
    SameShapeExactly(c, d);
  }
}
