// Regular expressions as they are written (sdk/re/re.h): what each piece of a pattern
// stands for, character by character, and the answer of the matcher for whole patterns.

module RegexText {
  import opened Text
  import opened Regex
  import opened RegexClass
  import opened RegexCompile
  import opened RegexEngine
  import opened RegexMatch

  // ----- Patterns --------------------------------------------------------------------

  // One member of a class: a character, a range, or an escaped character.
  datatype Elem = Single(c: char) | Span(lo: char, hi: char) | Escaped(m: char)

  datatype Atom = Lit(c: char) | Any | Esc(m: char) | Set(neg: bool, elems: seq<Elem>)

  datatype Count = Once | Many | Some1 | Maybe

  datatype Factor = Factor(atom: Atom, count: Count)

  // ^items$, with either anchor or without.
  datatype Pattern = Pattern(start: bool, items: seq<Factor>, end: bool)

  predicate IsLetter(m: char) { m == 'd' || m == 'D' || m == 'w' || m == 'W' || m == 's' || m == 'S' }

  // A character that a class can hold as it stands.
  predicate Bare(c: char) { c != ']' && c != '\\' && c != '-' && c != '^' && c != '\0' }

  predicate GoodElem(e: Elem) {
    match e
    case Single(c) => Bare(c)
    case Span(lo, hi) => Bare(lo) && Bare(hi)
    case Escaped(m) => m != '\0'
  }

  predicate GoodAtom(a: Atom) {
    match a
    case Lit(c) => c != '\0'
    case Any => true
    case Esc(m) => IsLetter(m)
    case Set(_, elems) => forall k | 0 <= k < |elems| :: GoodElem(elems[k])
  }

  ghost predicate Good(items: seq<Factor>) { forall k | 0 <= k < |items| :: GoodAtom(items[k].atom) }

  // ----- What they stand for -----------------------------------------------------------

  // \d \w \s and their negations, and any other escaped character for itself.
  predicate EscTakes(m: char, c: char) {
    var digit := '0' <= c <= '9';
    var word := digit || 'a' <= c <= 'z' || 'A' <= c <= 'Z' || c == '_';
    var space := c == ' ' || c == '\t' || c == '\n' || c == '\r' || c as int == 11 || c as int == 12;
    match m
    case 'd' => digit
    case 'D' => !digit
    case 'w' => word
    case 'W' => !word
    case 's' => space
    case 'S' => !space
    case _ => c == m
  }

  predicate ElemTakes(e: Elem, c: char) {
    match e
    case Single(x) => c == x
    case Span(lo, hi) => lo <= c && c <= hi
    case Escaped(m) => EscTakes(m, c)
  }

  predicate AtomTakesChar(a: Atom, c: char) {
    match a
    case Lit(x) => c == x
    case Any => true
    case Esc(m) => EscTakes(m, c)
    case Set(neg, elems) => (exists k | 0 <= k < |elems| :: ElemTakes(elems[k], c)) != neg
  }

  predicate Stretch(a: Atom, T: string, j: nat, m: nat) {
    j <= m <= |T| && forall x | j <= x < m :: AtomTakesChar(a, T[x])
  }

  // T[j..k] is a match of the items: a piece for each, in order.
  ghost predicate Piece(items: seq<Factor>, T: string, j: nat, k: nat)
    decreases |items|
  {
    j <= k <= |T| &&
    if items == [] then j == k
    else
      var a, rest := items[0].atom, items[1..];
      match items[0].count
      case Once => j < k && AtomTakesChar(a, T[j]) && Piece(rest, T, j + 1, k)
      case Maybe => Piece(rest, T, j, k) || (j < k && AtomTakesChar(a, T[j]) && Piece(rest, T, j + 1, k))
      case Many => exists m: nat | j <= m <= k :: Stretch(a, T, j, m) && Piece(rest, T, m, k)
      case Some1 => exists m: nat | j < m <= k :: Stretch(a, T, j, m) && Piece(rest, T, m, k)
  }

  ghost predicate MatchAt(p: Pattern, T: string, x: nat, n: nat) {
    && x + n <= |T| && Piece(p.items, T, x, x + n)
    && (p.start ==> x == 0) && (p.end ==> x + n == |T|)
  }

  // The answer of a search: the smallest offset of a match, and its length; or -1.
  ghost predicate Answers(p: Pattern, T: string, pos: int, len: nat) {
    if pos < 0 then pos == -1 && forall x: nat, n: nat :: !MatchAt(p, T, x, n)
    else MatchAt(p, T, pos, len) && forall x: nat, n: nat | x < pos :: !MatchAt(p, T, x, n)
  }

  // ----- How they are written ------------------------------------------------------------

  predicate IsSpecial(c: char) {
    c == '^' || c == '$' || c == '.' || c == '*' || c == '+' || c == '?' || c == '\\' || c == '['
  }

  function ElemText(e: Elem): string {
    match e
    case Single(c) => [c]
    case Span(lo, hi) => [lo, '-', hi]
    case Escaped(m) => ['\\', m]
  }

  function ElemsText(es: seq<Elem>): string {
    if es == [] then "" else ElemText(es[0]) + ElemsText(es[1..])
  }

  function AtomText(a: Atom): string {
    match a
    case Lit(c) => if IsSpecial(c) then ['\\', c] else [c]
    case Any => "."
    case Esc(m) => ['\\', m]
    case Set(neg, elems) => if neg then "[^" + (ElemsText(elems) + "]") else "[" + (ElemsText(elems) + "]")
  }

  function CountText(q: Count): string {
    match q case Once => "" case Many => "*" case Some1 => "+" case Maybe => "?"
  }

  function ItemsText(items: seq<Factor>): string {
    if items == [] then "" else AtomText(items[0].atom) + (CountText(items[0].count) + ItemsText(items[1..]))
  }

  function PatternText(p: Pattern): string {
    (if p.start then "^" else "") + (ItemsText(p.items) + (if p.end then "$" else ""))
  }

  // ----- The program of a pattern -----------------------------------------------------------

  function NodeOf(a: Atom): Node {
    match a
    case Lit(c) => Char(c)
    case Any => Dot
    case Esc(m) => Meta(m)
    case Set(neg, elems) => Class(neg, ElemsText(elems))
  }

  function CountNodes(q: Count): seq<Node> {
    match q case Once => [] case Many => [Star] case Some1 => [Plus] case Maybe => [Question]
  }

  function ItemNodes(items: seq<Factor>): seq<Node> {
    if items == [] then [] else [NodeOf(items[0].atom)] + (CountNodes(items[0].count) + ItemNodes(items[1..]))
  }

  function Ending(end: bool): seq<Node> { if end then [End] else [] }

  function Nodes(p: Pattern): seq<Node> {
    (if p.start then [Begin] else []) + (ItemNodes(p.items) + Ending(p.end))
  }

  lemma {:induction false} ShowCat(a: seq<Node>, b: seq<Node>)
    ensures ShowAll(a + b) == ShowAll(a) + ShowAll(b)
    decreases |a|
  {
    hide Show;
    if a == [] {
      assert a + b == b;
    } else {
      assert (a + b)[1..] == a[1..] + b;
      ShowCat(a[1..], b);
      assert Show(a[0]) + (ShowAll(a[1..]) + ShowAll(b)) == Show(a[0]) + ShowAll(a[1..]) + ShowAll(b);
    }
  }

  lemma ShowOne(n: Node)
    ensures ShowAll([n]) == Show(n)
  {
    hide Show;
    assert ShowAll([n][1..]) == "";
  }

  lemma AtomShown(a: Atom)
    ensures Show(NodeOf(a)) == AtomText(a)
  {
    match a
    case Set(neg, elems) =>
      assert ['[', '^'] == "[^" && ['['] == "[" && [']'] == "]";
    case _ =>
  }

  lemma CountShown(q: Count)
    ensures ShowAll(CountNodes(q)) == CountText(q)
  {
    if q != Once { ShowOne(CountNodes(q)[0]); }
  }

  lemma {:induction false} ItemsShown(items: seq<Factor>)
    ensures ShowAll(ItemNodes(items)) == ItemsText(items)
    decreases |items|
  {
    hide Show, AtomText, NodeOf, CountNodes, CountText, ShowAll;
    NoneShown();
    if items != [] {
      var n, q, rest := NodeOf(items[0].atom), CountNodes(items[0].count), ItemNodes(items[1..]);
      ShowCat([n], q + rest); ShowCat(q, rest);
      ShowOne(n); AtomShown(items[0].atom); CountShown(items[0].count);
      ItemsShown(items[1..]);
    }
  }

  lemma NoneShown()
    ensures ShowAll([]) == ""
  {}

  lemma PatternShown(p: Pattern)
    ensures ShowAll(Nodes(p)) == PatternText(p)
  {
    hide ShowAll, ItemNodes, ItemsText;
    var body := ItemNodes(p.items) + Ending(p.end);
    NoneShown();
    ShowOne(Begin); ShowOne(End);
    assert Show(Begin) == "^" && Show(End) == "$";
    ItemsShown(p.items);
    ShowCat(ItemNodes(p.items), Ending(p.end));
    ShowCat(if p.start then [Begin] else [], body);
  }

  // ----- Classes -------------------------------------------------------------------------------

  predicate SomeTakes(es: seq<Elem>, c: char) { es != [] && (ElemTakes(es[0], c) || SomeTakes(es[1..], c)) }

  lemma {:induction false} SomeTakesIs(es: seq<Elem>, c: char)
    ensures SomeTakes(es, c) <==> exists k | 0 <= k < |es| :: ElemTakes(es[k], c)
    decreases |es|
  {
    hide ElemTakes;
    if es != [] {
      SomeTakesIs(es[1..], c);
      if k :| 0 <= k < |es| && ElemTakes(es[k], c) {
        if k > 0 { assert es[1..][k - 1] == es[k]; }
      }
      if k :| 0 <= k < |es[1..]| && ElemTakes(es[1..][k], c) { assert es[k + 1] == es[1..][k]; }
    }
  }

  // The scan of a class text goes member by member.
  lemma {:induction false} ElemsMatch(c: char, cls: string, i: nat, es: seq<Elem>)
    requires i <= |cls| && cls[i..] == ElemsText(es) && forall k | 0 <= k < |es| :: GoodElem(es[k])
    ensures ClassMatch(c, cls, i) == SomeTakes(es, c) && Contained(cls, i)
    decreases |es|
  {
    hide ElemTakes, ClassMatch, Contained, ElemText, GoodElem;
    if es == [] {
      NoElem(c, cls, i);
    } else {
      var rest := es[1..];
      assert forall k | 0 <= k < |rest| :: rest[k] == es[k + 1];
      NextElem(cls, i, es[0], rest);
      ElemsMatch(c, cls, i + |ElemText(es[0])|, rest);
      ElemStep(c, cls, i, es[0]);
    }
  }

  lemma NoElem(c: char, cls: string, i: nat)
    requires i == |cls|
    ensures !ClassMatch(c, cls, i) && Contained(cls, i)
  {}

  lemma ElemStep(c: char, cls: string, i: nat, e: Elem)
    requires GoodElem(e) && i + |ElemText(e)| <= |cls|
    requires forall k | 0 <= k < |ElemText(e)| :: cls[i + k] == ElemText(e)[k]
    requires var j := i + |ElemText(e)|; j < |cls| ==> cls[j] != '-'
    ensures var j := i + |ElemText(e)|;
      && (ClassMatch(c, cls, i) <==> ElemTakes(e, c) || ClassMatch(c, cls, j))
      && (Contained(cls, i) <==> Contained(cls, j))
  {
    hide MetaMatch, EscTakes;
    var t := ElemText(e);
    assert cls[i + 0] == t[0];
    if |t| > 1 { assert cls[i + 1] == t[1]; }
    if |t| > 2 { assert cls[i + 2] == t[2]; }
    if e.Escaped? { MetaTakes(e.m, c); }
  }

  lemma NextElem(cls: string, i: nat, e: Elem, rest: seq<Elem>)
    requires i <= |cls| && cls[i..] == ElemText(e) + ElemsText(rest) && GoodElem(e)
    requires rest != [] ==> GoodElem(rest[0])
    ensures i + |ElemText(e)| <= |cls| && cls[i + |ElemText(e)|..] == ElemsText(rest)
    ensures cls[i..i + |ElemText(e)|] == ElemText(e) && |ElemText(e)| > 0
    ensures forall k | 0 <= k < |ElemText(e)| :: cls[i + k] == ElemText(e)[k]
    ensures var j := i + |ElemText(e)|; j < |cls| ==> cls[j] != '-'
  {
    var t, tail := ElemText(e), ElemsText(rest);
    var u := cls[i..];
    assert forall k | 0 <= k < |t| :: cls[i + k] == u[k] == t[k];
    assert u[|t|..] == tail && cls[i + |t|..] == u[|t|..];
    if rest != [] {
      assert tail[0] == ElemText(rest[0])[0];
      assert i + |t| < |cls| ==> cls[i + |t|] == u[|t|] == tail[0];
    }
  }

  lemma MetaTakes(m: char, c: char)
    ensures MetaMatch(c, m) <==> EscTakes(m, c)
  {}

  lemma {:induction false} ElemsWritable(es: seq<Elem>)
    requires forall k | 0 <= k < |es| :: GoodElem(es[k])
    ensures ClassText(ElemsText(es)) && Without(ElemsText(es), '\0')
    ensures ElemsText(es) != "" ==> ElemsText(es)[0] != '^'
    decreases |es|
  {
    if es != [] {
      var t, rest := ElemText(es[0]), ElemsText(es[1..]);
      ElemsWritable(es[1..]);
      var u := t + rest;
      match es[0]
      case Single(c) => assert u[1..] == rest;
      case Escaped(m) => assert u[2..] == rest;
      case Span(lo, hi) =>
        assert u[1..][1..][1..] == rest && u[1..][0] == '-' && u[1..][1..][0] == hi;
    }
  }

  // ----- Atoms ----------------------------------------------------------------------------------

  lemma OneTakes(a: Atom, c: char)
    requires GoodAtom(a)
    ensures One(NodeOf(a), c) <==> AtomTakesChar(a, c)
  {
    hide EscTakes, MetaMatch, ElemTakes, ClassMatch;
    match a
    case Lit(_) =>
    case Any =>
    case Esc(m) => MetaTakes(m, c);
    case Set(neg, elems) =>
      var cls := ElemsText(elems);
      assert cls[0..] == cls;
      ElemsMatch(c, cls, 0, elems);
      SomeTakesIs(elems, c);
  }

  lemma AtomWritable(a: Atom)
    requires GoodAtom(a)
    ensures var n := NodeOf(a); Writable(n) && Without(Show(n), '\0') && (n.Class? ==> Contained(n.cls, 0))
  {
    hide ClassText, Contained, ElemsText;
    if a.Set? {
      var cls := ElemsText(a.elems);
      ElemsWritable(a.elems);
      assert cls[0..] == cls;
      ElemsMatch('a', cls, 0, a.elems);
    }
  }

  predicate GoodNode(n: Node) { Writable(n) && Without(Show(n), '\0') && (n.Class? ==> Contained(n.cls, 0)) }
  ghost predicate GoodNodes(P: seq<Node>) { forall k | 0 <= k < |P| :: GoodNode(P[k]) }

  lemma GoodCat(a: seq<Node>, b: seq<Node>)
    requires GoodNodes(a) && GoodNodes(b)
    ensures GoodNodes(a + b)
  {}

  lemma {:induction false} ItemsGood(items: seq<Factor>)
    requires Good(items)
    ensures GoodNodes(ItemNodes(items))
    decreases |items|
  {
    hide GoodNode, NodeOf, GoodAtom;
    if items != [] {
      assert Good(items[1..]) by { assert forall k | 0 <= k < |items| - 1 :: items[1..][k] == items[k + 1]; }
      AtomGood(items[0].atom);
      CountGood(items[0].count);
      ItemsGood(items[1..]);
      GoodCat(CountNodes(items[0].count), ItemNodes(items[1..]));
      GoodCat([NodeOf(items[0].atom)], CountNodes(items[0].count) + ItemNodes(items[1..]));
    }
  }

  lemma AtomGood(a: Atom)
    requires GoodAtom(a)
    ensures GoodNodes([NodeOf(a)])
  {
    AtomWritable(a);
  }

  lemma CountGood(q: Count)
    ensures GoodNodes(CountNodes(q))
  {}

  lemma PatternGood(p: Pattern)
    requires Good(p.items)
    ensures GoodNodes(Nodes(p))
  {
    ItemsGood(p.items);
    GoodCat(ItemNodes(p.items), Ending(p.end));
    GoodCat(if p.start then [Begin] else [], ItemNodes(p.items) + Ending(p.end));
  }

  lemma {:induction false} ShownClean(P: seq<Node>)
    requires GoodNodes(P)
    ensures Without(ShowAll(P), '\0')
    decreases |P|
  {
    hide Show, Contained, Writable;
    if P != [] {
      assert GoodNode(P[0]);
      assert forall k | 0 <= k < |P| - 1 :: P[1..][k] == P[k + 1];
      ShownClean(P[1..]);
      var a, b := Show(P[0]), ShowAll(P[1..]);
      forall k | 0 <= k < |a + b| ensures (a + b)[k] != '\0' { if k >= |a| { assert (a + b)[k] == b[k - |a|]; } }
    }
  }

  // ----- The language of the program is that of the pattern ----------------------------------------

  predicate IsCount(n: Node) { n.Star? || n.Plus? || n.Question? }

  function ShapeOf(q: Count): Shape {
    match q case Once => Shape.Single case Many => Starred case Some1 => Plussed case Maybe => Optional
  }

  function Width(q: Count): nat { if q == Once then 1 else 2 }

  // The program from an item on.
  lemma ItemShape(P: seq<Node>, i: nat, items: seq<Factor>, end: bool)
    requires items != [] && i <= |P| && P[i..] == ItemNodes(items) + Ending(end)
    ensures i < |P| && P[i] == NodeOf(items[0].atom) && ShapeAt(P, i) == ShapeOf(items[0].count)
    ensures var i' := i + Width(items[0].count); i' <= |P| && P[i'..] == ItemNodes(items[1..]) + Ending(end)
  {
    hide NodeOf, ItemNodes, Ending;
    var n, rest := NodeOf(items[0].atom), ItemNodes(items[1..]) + Ending(end);
    NotCount(items[1..], end);
    AtomNode(items[0].atom);
    ItemsStep(items, end);
    if items[0].count == Once {
      assert [] + rest == rest;
      OneNode(P, i, n, rest);
    } else {
      var q := CountNodes(items[0].count)[0];
      assert [n] + ([q] + rest) == [n, q] + rest;
      TwoNodesAt(P, i, n, q, rest);
    }
  }

  lemma AtomNode(a: Atom)
    ensures var n := NodeOf(a); !n.End? && !n.Begin? && !IsCount(n)
  {}

  lemma ItemsStep(items: seq<Factor>, end: bool)
    requires items != []
    ensures ItemNodes(items) + Ending(end)
         == [NodeOf(items[0].atom)] + (CountNodes(items[0].count) + (ItemNodes(items[1..]) + Ending(end)))
  {
    hide NodeOf, CountNodes, Ending;
  }

  lemma NotCount(items: seq<Factor>, end: bool)
    ensures var r := ItemNodes(items) + Ending(end); r != [] ==> !IsCount(r[0])
  {}

  lemma OneNode(P: seq<Node>, i: nat, n: Node, rest: seq<Node>)
    requires i <= |P| && P[i..] == [n] + rest
    ensures i < |P| && P[i] == n && P[i + 1..] == rest && (rest != [] ==> i + 1 < |P| && P[i + 1] == rest[0])
  {
    assert P[i] == P[i..][0] && P[i + 1..] == P[i..][1..];
    assert rest != [] ==> P[i + 1] == P[i + 1..][0];
  }

  lemma TwoNodesAt(P: seq<Node>, i: nat, n: Node, q: Node, rest: seq<Node>)
    requires i <= |P| && P[i..] == [n, q] + rest
    ensures i + 1 < |P| && P[i] == n && P[i + 1] == q && P[i + 2..] == rest
  {
    assert P[i] == P[i..][0] && P[i + 1] == P[i..][1] && P[i + 2..] == P[i..][2..];
  }

  lemma NoItems(P: seq<Node>, i: nat, end: bool)
    requires i <= |P| && P[i..] == ItemNodes([]) + Ending(end)
    ensures ShapeAt(P, i) == if end then AtEnd else Done
  {
    assert P[i..] == Ending(end);
    if end { assert P[i] == P[i..][0]; }
  }

  lemma RunIsStretch(P: seq<Node>, i: nat, a: Atom, T: string, j: nat, m: nat)
    requires i < |P| && P[i] == NodeOf(a) && GoodAtom(a)
    ensures Run(AsWritten(P), i, T, j, m) <==> Stretch(a, T, j, m)
  {
    hide One, NodeOf, AtomTakesChar;
    forall x | 0 <= x < |T| ensures AsWritten(P)(i, T[x]) <==> AtomTakesChar(a, T[x]) { OneTakes(a, T[x]); }
  }

  lemma {:induction false} LangIsPiece(P: seq<Node>, i: nat, items: seq<Factor>, end: bool, T: string, j: nat, k: nat)
    requires Good(items) && i <= |P| && P[i..] == ItemNodes(items) + Ending(end)
    ensures Lang(AsWritten(P), P, i, T, j, k) <==> Piece(items, T, j, k) && (end ==> k == |T|)
    decreases |items|
  {
    hide ItemNodes, NodeOf, GoodAtom, One, AtomTakesChar, AsWritten, ShapeAt, Run, Stretch;
    if items == [] {
      NoItems(P, i, end);
    } else {
      ItemShape(P, i, items, end);
      var a, rest, acc := items[0].atom, items[1..], AsWritten(P);
      var i' := i + Width(items[0].count);
      assert Good(rest) by { assert forall x | 0 <= x < |rest| :: rest[x] == items[x + 1]; }
      forall m: nat ensures Lang(acc, P, i', T, m, k) <==> Piece(rest, T, m, k) && (end ==> k == |T|) {
        LangIsPiece(P, i', rest, end, T, m, k);
      }
      forall m: nat ensures Run(acc, i, T, j, m) <==> Stretch(a, T, j, m) {
        RunIsStretch(P, i, a, T, j, m);
      }
      if j < |T| { TakesIs(P, i, a, T[j]); }
    }
  }

  lemma TakesIs(P: seq<Node>, i: nat, a: Atom, c: char)
    requires i < |P| && P[i] == NodeOf(a) && GoodAtom(a)
    ensures AsWritten(P)(i, c) <==> AtomTakesChar(a, c)
  {
    hide One, NodeOf, AtomTakesChar;
    OneTakes(a, c);
  }

  // ----- From the pattern to the answer ---------------------------------------------------------------

  lemma PatternLang(p: Pattern, T: string, x: nat, k: nat)
    requires Good(p.items)
    ensures var P := Nodes(p);
      First(P) == (if p.start then 1 else 0)
      && (Lang(AsWritten(P), P, First(P), T, x, k) <==> Piece(p.items, T, x, k) && (p.end ==> k == |T|))
  {
    hide Lang, Piece, ItemNodes, AsWritten;
    var P, body := Nodes(p), ItemNodes(p.items) + Ending(p.end);
    FirstIs(p);
    if p.start {
      assert P == [Begin] + body && P[1..] == body;
    } else {
      assert P == [] + body && P[0..] == body;
    }
    LangIsPiece(P, First(P), p.items, p.end, T, x, k);
  }

  lemma FirstIs(p: Pattern)
    ensures First(Nodes(p)) == if p.start then 1 else 0
  {
    var P, body := Nodes(p), ItemNodes(p.items) + Ending(p.end);
    if !p.start {
      assert P == body;
      if p.items != [] { assert body[0] == NodeOf(p.items[0].atom); }
    }
  }

  lemma FoundAnswers(p: Pattern, T: string, pos: int, len: nat)
    requires Good(p.items) && Found(AsWritten(Nodes(p)), Nodes(p), T, pos, len)
    ensures Answers(p, T, pos, len)
  {
    hide Nodes, AsWritten, Piece, First, Good;
    var P := Nodes(p);
    var acc, b := AsWritten(P), First(P);
    forall x: nat, n: nat
      ensures MatchAt(p, T, x, n) <==> x + n <= |T| && (b == 1 ==> x == 0) && Lang(acc, P, b, T, x, x + n)
    {
      PatternLang(p, T, x, x + n);
    }
    forall x: nat, n: nat | MatchAt(p, T, x, n) ensures Matches(acc, P, b, T, x) && x <= |T| {
      assert Lang(acc, P, b, T, x, x + n);
    }
    if pos >= 0 { PatternLang(p, T, pos, pos + len); }
    TriedIs(P, T);
  }

  lemma TriedIs(P: seq<Node>, T: string)
    ensures forall x: nat :: Tried(P, T, x) <==> x <= |T| && (First(P) == 1 ==> x == 0)
  {}

  // A pattern, compiled and run on a text: the leftmost match and its length, -1 if
  // there is none, and -1 as well if the pattern needs more than 95 nodes or its classes
  // more than the buffer.
  method MatchPattern(c: Compiler, p: Pattern, T: string, beyond: Accept) returns (pos: int, len: nat)
    requires c.Valid() && Good(p.items)
    modifies c, c.classBuf
    ensures if |Nodes(p)| <= 95 && Accepts(Nodes(p), 0) then Answers(p, T, pos, len) else pos == -1
  {
    hide Compile, Found, InMemory, AsWritten, Placed, Starts, ShowAll, Nodes, Accepts, Answers, GoodNode;
    hide Keeps, PatternText;
    ghost var P := Nodes(p);
    PatternGood(p);
    PatternShown(p);
    GoodIsWritable(P);
    ShownClean(P);
    CompileShown(P);
    ghost var re;
    pos, len, re := ReMatch(c, PatternText(p), T, beyond);
    if Compile(PatternText(p), 0, 0, 0).Some? {
      ContainedKeeps(P, T);
      FoundAnswers(p, T, pos, len);
    }
  }

  lemma GoodIsWritable(P: seq<Node>)
    requires GoodNodes(P)
    ensures (forall k | 0 <= k < |P| :: Writable(P[k])) && AllContained(P)
  {
    hide Writable, Contained, Show;
    forall k | 0 <= k < |P| ensures Writable(P[k]) && (P[k].Class? ==> Contained(P[k].cls, 0)) {
      assert GoodNode(P[k]);
    }
  }

  // ----- Literal patterns ---------------------------------------------------------------------------------

  function Literal(s: string): seq<Factor> {
    if s == "" then [] else [Factor(Lit(s[0]), Once)] + Literal(s[1..])
  }

  // No character of it has a meaning of its own.
  predicate PlainText(s: string) { forall k | 0 <= k < |s| :: !IsSpecial(s[k]) && s[k] != '\0' }

  lemma LiteralStep(s: string)
    requires s != ""
    ensures var items := Literal(s); items != [] && items[0] == Factor(Lit(s[0]), Once) && items[1..] == Literal(s[1..])
    ensures ItemNodes(Literal(s)) == [Char(s[0])] + ItemNodes(Literal(s[1..]))
    ensures !IsSpecial(s[0]) ==> ItemsText(Literal(s)) == [s[0]] + ItemsText(Literal(s[1..]))
  {
    var items, rest := Literal(s), Literal(s[1..]);
    assert items[1..] == rest;
    assert [] + ItemNodes(rest) == ItemNodes(rest) && "" + ItemsText(rest) == ItemsText(rest);
  }

  lemma {:induction false} LiteralIs(s: string)
    requires PlainText(s)
    ensures Good(Literal(s)) && ItemsText(Literal(s)) == s && |ItemNodes(Literal(s))| == |s|
    ensures forall k | 0 <= k < |ItemNodes(Literal(s))| :: ItemNodes(Literal(s))[k].Char?
    decreases |s|
  {
    hide ItemsText, ItemNodes, IsSpecial, Literal;
    if s == "" {
      EmptyLiteral();
    } else {
      LiteralStep(s);
      LiteralIs(s[1..]);
      var items := Literal(s);
      forall k | 0 <= k < |items| ensures GoodAtom(items[k].atom) { if k > 0 { assert items[k] == items[1..][k - 1]; } }
    }
  }

  lemma EmptyLiteral()
    ensures Literal("") == [] && ItemsText([]) == "" && ItemNodes([]) == []
  {}

  lemma {:induction false} LiteralPiece(s: string, T: string, j: nat, k: nat)
    ensures Piece(Literal(s), T, j, k) <==> j <= k <= |T| && T[j..k] == s
    decreases |s|
  {
    if s == "" {
      assert j <= k <= |T| ==> |T[j..k]| == k - j;
    } else {
      var items := Literal(s);
      assert items[0] == Factor(Lit(s[0]), Once) && items[1..] == Literal(s[1..]);
      LiteralPiece(s[1..], T, j + 1, k);
      if j < k <= |T| {
        assert T[j..k] == [T[j]] + T[j + 1..k];
        assert s == [s[0]] + s[1..];
      }
    }
  }

  lemma {:induction false} NoClassAccepted(P: seq<Node>, ci: nat)
    requires forall k | 0 <= k < |P| :: !P[k].Class?
    ensures Accepts(P, ci)
    decreases |P|
  {
    if P != [] {
      assert forall k | 0 <= k < |P| - 1 :: P[1..][k] == P[k + 1];
      NoClassAccepted(P[1..], ci + |Bytes(P[0])|);
    }
  }

  // The plain text stands in `T` at `x`.
  predicate StandsAt(s: string, T: string, x: nat) { x + |s| <= |T| && T[x..x + |s|] == s }

  // A pattern of plain characters finds its first occurrence in the text.
  method FindLiteral(c: Compiler, s: string, T: string, beyond: Accept) returns (pos: int, len: nat)
    requires c.Valid() && PlainText(s) && |s| <= 95
    modifies c, c.classBuf
    ensures pos >= 0 ==> StandsAt(s, T, pos) && len == |s| && forall x: nat | x < pos :: !StandsAt(s, T, x)
    ensures pos < 0 ==> pos == -1 && forall x: nat :: !StandsAt(s, T, x)
  {
    hide Accepts, Piece, ItemNodes, Literal, Compile;
    var p := Pattern(false, Literal(s), false);
    LiteralIs(s);
    assert Nodes(p) == ItemNodes(p.items);
    NoClassAccepted(Nodes(p), 0);
    pos, len := MatchPattern(c, p, T, beyond);
    forall x: nat, n: nat ensures MatchAt(p, T, x, n) <==> n == |s| && StandsAt(s, T, x) {
      LiteralPiece(s, T, x, x + n);
    }
    if pos >= 0 { assert MatchAt(p, T, pos, len); }
    forall x: nat | pos < 0 || x < pos ensures !StandsAt(s, T, x) {
      assert !MatchAt(p, T, x, |s|);
    }
  }
}
