// Integer arithmetic of `$((...))` (apps/system/shell_core/shell_cmds.c):
// a recursive-descent evaluator over a shared cursor. Printing an expression
// tree and evaluating the text gives the value of the tree, and a variable set to
// that value stands for the tree.

module ShellArith {
  import opened Chars
  import opened Text
  import opened Decimal

  const NAME_CAP := 24

  // A long of 32 bits, and what the machine leaves of a result.
  const MIN := -0x8000_0000
  const MAX := 0x7fff_ffff
  type Long = x: int | MIN <= x <= MAX

  function Wrap(x: int): Long { (x + 0x8000_0000) % 0x1_0000_0000 - 0x8000_0000 }
  function Minus(x: Long): Long { Wrap(0 - x) }

  // C division and remainder truncate toward zero.
  function TruncDiv(a: int, b: int): int
    requires b != 0
  {
    var q := (if a < 0 then -a else a) / (if b < 0 then -b else b);
    if (a < 0) == (b < 0) then q else -q
  }

  function TruncMod(a: int, b: int): int
    requires b != 0
  {
    a - b * TruncDiv(a, b)
  }

  // ----- The evaluator, as functions of the cursor ----------------------------

  // The text of each variable, empty if it is not set.
  type Vars = string -> string

  // atoi, on what follows the sign and on the whole.
  function Clamp(x: int): Long { if x < MIN then MIN else if x > MAX then MAX else x }

  function Unsigned(s: string, p: nat): nat
    requires p <= |s|
  {
    if p < |s| && IsDigit(s[p]) then ReadDigits(s, p, 0).0 else 0
  }

  function Atoi(s: string): Long {
    var p := SkipSpace(s, 0);
    if Sees(s, p, '-') then Clamp(0 - Unsigned(s, p + 1))
    else Clamp(Unsigned(s, if Sees(s, p, '+') then p + 1 else p))
  }

  // What %ld prints.
  function Show(x: Long): string { if x < 0 then "-" + Dec(0 - x) else Dec(x) }

  predicate Sees(s: string, p: nat, c: char) { p < |s| && s[p] == c }

  function NameEnd(s: string, p: nat, cap: nat): (q: nat)
    requires p <= |s|
    ensures p <= q <= |s| && q <= p + cap
    decreases cap
  {
    if p == |s| || cap == 0 || !IsNameChar(s[p]) then p else NameEnd(s, p + 1, cap - 1)
  }

  function Factor(v: Vars, s: string, p: nat): (r: (Long, nat))
    requires p <= |s|
    ensures p <= r.1 <= |s|
    decreases |s| - p, 0
  {
    var q := SkipBlanks(s, p);
    if Sees(s, q, '(') then
      var (x, e) := Expr(v, s, q + 1);
      (x, AfterClose(s, SkipBlanks(s, e)))
    else if Sees(s, q, '-') then
      var (x, e) := Factor(v, s, q + 1); (Minus(x), e)
    else if Sees(s, q, '+') then Factor(v, s, q + 1)
    else Atom(v, s, AfterDollar(s, q))
  }

  function AfterClose(s: string, p: nat): nat { if Sees(s, p, ')') then p + 1 else p }
  function AfterDollar(s: string, p: nat): nat { if Sees(s, p, '$') then p + 1 else p }

  function Atom(v: Vars, s: string, p: nat): (r: (Long, nat))
    requires p <= |s|
    ensures p <= r.1 <= |s|
  {
    if p < |s| && IsDigit(s[p]) then var (n, e) := ReadDigits(s, p, 0); (Wrap(n), e)
    else
      var q := NameEnd(s, p, NAME_CAP - 1);
      (if p == q then 0 else Atoi(v(s[p..q])), q)
  }

  predicate MulOp(s: string, p: nat) { p < |s| && (s[p] == '*' || s[p] == '/' || s[p] == '%') }
  predicate AddOp(s: string, p: nat) { p < |s| && (s[p] == '+' || s[p] == '-') }

  function Apply(op: char, x: Long, d: Long): Long {
    if op == '+' then Wrap(x + d)
    else if op == '-' then Wrap(x - d)
    else if op == '*' then Wrap(x * d)
    else if d == 0 then 0
    else if op == '/' then Wrap(TruncDiv(x, d)) else Wrap(TruncMod(x, d))
  }

  function Term(v: Vars, s: string, p: nat): (r: (Long, nat))
    requires p <= |s|
    ensures p <= r.1 <= |s|
    decreases |s| - p, 1
  {
    var (x, q) := Factor(v, s, p);
    TermLoop(v, x, s, q)
  }

  function TermLoop(v: Vars, x: Long, s: string, p: nat): (r: (Long, nat))
    requires p <= |s|
    ensures p <= r.1 <= |s|
    decreases |s| - p, 0
  {
    var q := SkipBlanks(s, p);
    if MulOp(s, q) then
      var (d, e) := Factor(v, s, q + 1);
      TermLoop(v, Apply(s[q], x, d), s, e)
    else (x, q)
  }

  function Expr(v: Vars, s: string, p: nat): (r: (Long, nat))
    requires p <= |s|
    ensures p <= r.1 <= |s|
    decreases |s| - p, 2
  {
    var (x, q) := Term(v, s, p);
    ExprLoop(v, x, s, q)
  }

  function ExprLoop(v: Vars, x: Long, s: string, p: nat): (r: (Long, nat))
    requires p <= |s|
    ensures p <= r.1 <= |s|
    decreases |s| - p, 0
  {
    var q := SkipBlanks(s, p);
    if AddOp(s, q) then
      var (d, e) := Term(v, s, q + 1);
      ExprLoop(v, Apply(s[q], x, d), s, e)
    else (x, q)
  }

  // ----- The evaluator with its cursor ----------------------------------------

  class Evaluator {
    const text: string
    const vars: Vars
    var pos: nat

    constructor (text: string, vars: Vars)
      ensures this.text == text && this.vars == vars && pos == 0
    {
      this.text, this.vars, pos := text, vars, 0;
    }

    method PassBlanks()
      requires pos <= |text|
      modifies this
      ensures pos == SkipBlanks(text, old(pos))
    {
      while pos < |text| && IsBlank(text[pos])
        invariant old(pos) <= pos <= |text| && SkipBlanks(text, pos) == SkipBlanks(text, old(pos))
      {
        pos := pos + 1;
      }
    }

    method EvalFactor() returns (x: Long)
      requires pos <= |text|
      modifies this
      ensures old(pos) <= pos <= |text| && (x, pos) == Factor(vars, text, old(pos))
      decreases |text| - pos, 0
    {
      hide Expr, Atom, SkipBlanks, Minus;
      PassBlanks();
      if pos < |text| && text[pos] == '(' {
        pos := pos + 1;
        x := EvalExpr();
        PassBlanks();
        if pos < |text| && text[pos] == ')' { pos := pos + 1; }
        return;
      }
      if pos < |text| && text[pos] == '-' {
        pos := pos + 1;
        x := EvalFactor();
        return Minus(x);
      }
      if pos < |text| && text[pos] == '+' {
        pos := pos + 1;
        x := EvalFactor();
        return;
      }
      if pos < |text| && text[pos] == '$' { pos := pos + 1; }
      x := EvalAtom();
    }

    // A number, or a variable name cut at the name buffer.
    method EvalAtom() returns (x: Long)
      requires pos <= |text|
      modifies this
      ensures old(pos) <= pos <= |text| && (x, pos) == Atom(vars, text, old(pos))
    {
      var start := pos;
      if pos < |text| && IsDigit(text[pos]) {
        var v: Long := 0;
        ghost var n: nat := 0;
        while pos < |text| && IsDigit(text[pos])
          invariant start <= pos <= |text| && ReadDigits(text, pos, n) == ReadDigits(text, start, 0)
          invariant v == Wrap(n)
        {
          WrapDigit(n, DigitVal(text[pos]));
          v := Wrap(v * 10 + DigitVal(text[pos]));
          n := n * 10 + DigitVal(text[pos]);
          pos := pos + 1;
        }
        return v;
      }
      var n := 0;
      while pos < |text| && IsNameChar(text[pos]) && n < NAME_CAP - 1
        invariant n < NAME_CAP && pos == start + n <= |text|
        invariant NameEnd(text, pos, NAME_CAP - 1 - n) == NameEnd(text, start, NAME_CAP - 1)
      {
        n, pos := n + 1, pos + 1;
      }
      x := if n == 0 then 0 else Atoi(vars(text[start..pos]));
    }

    method EvalTerm() returns (x: Long)
      requires pos <= |text|
      modifies this
      ensures old(pos) <= pos <= |text| && (x, pos) == Term(vars, text, old(pos))
      decreases |text| - pos, 1
    {
      hide SkipBlanks, Factor, Term, TermLoop, Wrap, TruncDiv, TruncMod;
      x := EvalFactor();
      TermOfFactor(vars, text, old(pos));
      while true
        invariant old(pos) <= pos <= |text|
        invariant TermLoop(vars, x, text, pos) == Term(vars, text, old(pos))
        decreases |text| - pos
      {
        MulStep(vars, x, text, pos);
        PassBlanks();
        if !MulOp(text, pos) { break; }
        var op := text[pos];
        pos := pos + 1;
        var d := EvalFactor();
        if op == '*' { x := Wrap(x * d); }
        else if op == '/' { x := if d != 0 then Wrap(TruncDiv(x, d)) else 0; }
        else { x := if d != 0 then Wrap(TruncMod(x, d)) else 0; }
      }
    }

    method EvalExpr() returns (x: Long)
      requires pos <= |text|
      modifies this
      ensures old(pos) <= pos <= |text| && (x, pos) == Expr(vars, text, old(pos))
      decreases |text| - pos, 2
    {
      hide SkipBlanks, Term, Expr, ExprLoop, Wrap;
      x := EvalTerm();
      SumOfTerm(vars, text, old(pos));
      while true
        invariant old(pos) <= pos <= |text|
        invariant ExprLoop(vars, x, text, pos) == Expr(vars, text, old(pos))
        decreases |text| - pos
      {
        AddStep(vars, x, text, pos);
        PassBlanks();
        if !AddOp(text, pos) { break; }
        var op := text[pos];
        pos := pos + 1;
        var d := EvalTerm();
        x := if op == '+' then Wrap(x + d) else Wrap(x - d);
      }
    }
  }

  // ----- Expression trees -----------------------------------------------------

  datatype Tree =
    | Num(n: nat)
    | Var(name: string, dollar: bool)
    | Neg(arg: Tree)
    | Pos(arg: Tree)
    | Bin(op: char, l: Tree, r: Tree)

  predicate Additive(op: char) { op == '+' || op == '-' }
  predicate Multiplicative(op: char) { op == '*' || op == '/' || op == '%' }

  predicate PlainName(name: string) {
    0 < |name| < NAME_CAP && !IsDigit(name[0]) && forall k | 0 <= k < |name| :: IsNameChar(name[k])
  }

  predicate WF(e: Tree) {
    match e
    case Num(_) => true
    case Var(name, _) => PlainName(name)
    case Neg(x) => WF(x)
    case Pos(x) => WF(x)
    case Bin(op, l, r) => (Additive(op) || Multiplicative(op)) && WF(l) && WF(r)
  }

  // The value in 32 bits; division and remainder by zero give 0.
  function Value(v: Vars, e: Tree): Long {
    match e
    case Num(n) => Wrap(n)
    case Var(name, _) => Atoi(v(name))
    case Neg(x) => Minus(Value(v, x))
    case Pos(x) => Value(v, x)
    case Bin(op, l, r) => Apply(op, Value(v, l), Value(v, r))
  }

  datatype Level = Sum | Product | Unit

  // Printed with the fewest parentheses that keep left association, and with
  // the blanks `sp` before every token.
  function Print(e: Tree, lvl: Level, sp: string): string {
    match e
    case Num(n) => sp + Dec(n)
    case Var(name, dollar) => sp + ((if dollar then "$" else "") + name)
    case Neg(x) => sp + (['-'] + Print(x, Unit, sp))
    case Pos(x) => sp + (['+'] + Print(x, Unit, sp))
    case Bin(op, l, r) =>
      if Additive(op) && lvl == Sum then
        Print(l, Sum, sp) + (sp + ([op] + Print(r, Product, sp)))
      else if Multiplicative(op) && lvl != Unit then
        Print(l, Product, sp) + (sp + ([op] + Print(r, Unit, sp)))
      else if Additive(op) then
        sp + (['('] + (Print(l, Sum, sp) + (sp + ([op] + Print(r, Product, sp))) + (sp + [')'])))
      else
        sp + (['('] + (Print(l, Product, sp) + (sp + ([op] + Print(r, Unit, sp))) + (sp + [')'])))
  }

  predicate AllBlank(sp: string) { forall k | 0 <= k < |sp| :: IsBlank(sp[k]) }

  // Nothing at `q` can be read as the rest of a number or name.
  predicate Stops(s: string, q: nat) { q <= |s| && (q == |s| || !IsNameChar(s[q])) }

  lemma {:induction false} SkipPad(s: string, p: nat, sp: string)
    requires At(s, p, sp) && AllBlank(sp)
    ensures SkipBlanks(s, p) == SkipBlanks(s, p + |sp|)
    decreases |sp|
  {
    if sp != [] {
      SkipPad(s, p + 1, sp[1..]);
    }
  }

  lemma SkipTwice(s: string, p: nat)
    requires p <= |s|
    ensures SkipBlanks(s, SkipBlanks(s, p)) == SkipBlanks(s, p)
    decreases |s| - p
  {}

  // Padding, then a visible token character.
  lemma SkipTo(s: string, p: nat, sp: string, c: char, L: string)
    requires At(s, p, sp + ([c] + L)) && AllBlank(sp) && !IsBlank(c)
    ensures p + |sp| < |s| && SkipBlanks(s, p) == p + |sp| && s[p + |sp|] == c && At(s, p + |sp| + 1, L)
  {
    AtSplit(s, p, sp, [c] + L);
    AtSplit(s, p + |sp|, [c], L);
    AtOne(s, p + |sp|, c);
    SkipPad(s, p, sp);
  }

  lemma {:induction false} NameEndOf(s: string, p: nat, name: string, cap: nat)
    requires At(s, p, name) && |name| <= cap && Stops(s, p + |name|)
    requires forall k | 0 <= k < |name| :: IsNameChar(name[k])
    ensures NameEnd(s, p, cap) == p + |name|
    decreases |name|
  {
    if name != [] {
      NameEndOf(s, p + 1, name[1..], cap - 1);
    }
  }

  lemma NumFactor(v: Vars, s: string, p: nat, n: nat, sp: string)
    requires AllBlank(sp) && At(s, p, sp + Dec(n)) && Stops(s, p + |sp| + |Dec(n)|)
    ensures Factor(v, s, p) == (Wrap(n), p + |sp| + |Dec(n)|)
  {
    hide At;
    AtSplit(s, p, sp, Dec(n));
    SkipPad(s, p, sp);
    var q := p + |sp|;
    AtIndex(s, q, Dec(n), 0);
    ReadDec(s, q, n);
  }

  lemma VarFactor(v: Vars, s: string, p: nat, name: string, dollar: bool, sp: string)
    requires AllBlank(sp) && PlainName(name) && At(s, p, Print(Var(name, dollar), Unit, sp))
    requires Stops(s, p + |Print(Var(name, dollar), Unit, sp)|)
    ensures Factor(v, s, p) == (Atoi(v(name)), p + |Print(Var(name, dollar), Unit, sp)|)
  {
    hide At;
    var d := if dollar then "$" else "";
    AtSplit(s, p, sp, d + name);
    AtSplit(s, p + |sp|, d, name);
    SkipPad(s, p, sp);
    var q := p + |sp| + |d|;
    AtIndex(s, q, name, 0);
    AtFits(s, q, name);
    if dollar { AtOne(s, p + |sp|, '$'); }
    assert SkipBlanks(s, p) == p + |sp|;
    assert AfterDollar(s, p + |sp|) == q;
    NameEndOf(s, q, name, NAME_CAP - 1);
    assert s[q..q + |name|] == name;
  }

  // ----- Evaluating printed text ----------------------------------------------

  // One step of the evaluator at a visible token.
  lemma SignStep(v: Vars, s: string, p: nat)
    requires p <= |s|
    ensures var q := SkipBlanks(s, p);
            && (Sees(s, q, '-') ==> Factor(v, s, p) == (Minus(Factor(v, s, q + 1).0), Factor(v, s, q + 1).1))
            && (Sees(s, q, '+') ==> Factor(v, s, p) == Factor(v, s, q + 1))
  {}

  lemma MulStep(v: Vars, x: Long, s: string, p: nat)
    requires p <= |s|
    ensures var q := SkipBlanks(s, p);
      TermLoop(v, x, s, p) ==
        if !MulOp(s, q) then (x, q)
        else var (d, e) := Factor(v, s, q + 1); TermLoop(v, Apply(s[q], x, d), s, e)
  {}

  lemma AddStep(v: Vars, x: Long, s: string, p: nat)
    requires p <= |s|
    ensures var q := SkipBlanks(s, p);
      ExprLoop(v, x, s, p) ==
        if !AddOp(s, q) then (x, q)
        else var (d, e) := Term(v, s, q + 1); ExprLoop(v, Apply(s[q], x, d), s, e)
  {}

  // Where no operator follows, a term or a sum only steps over blanks.
  lemma TermEnd(v: Vars, x: Long, s: string, p: nat)
    requires p <= |s| && !MulOp(s, SkipBlanks(s, p))
    ensures TermLoop(v, x, s, p) == (x, SkipBlanks(s, p))
  {}

  lemma SumPad(v: Vars, x: Long, s: string, p: nat)
    requires p <= |s|
    ensures ExprLoop(v, x, s, SkipBlanks(s, p)) == ExprLoop(v, x, s, p)
  {
    SkipTwice(s, p);
  }

  lemma BinParts(v: Vars, op: char, l: Tree, r: Tree)
    requires WF(Bin(op, l, r))
    ensures WF(l) && WF(r) && (Additive(op) || Multiplicative(op))
    ensures Value(v, Bin(op, l, r)) == Apply(op, Value(v, l), Value(v, r))
  {}

  lemma {:induction false} PrintedFactor(v: Vars, s: string, p: nat, e: Tree, sp: string)
    requires WF(e) && AllBlank(sp) && At(s, p, Print(e, Unit, sp)) && Stops(s, p + |Print(e, Unit, sp)|)
    ensures Factor(v, s, p) == (Value(v, e), p + |Print(e, Unit, sp)|)
    decreases e, 4
  {
    hide At, Apply, AllBlank, Factor, Stops, Wrap, Minus, Atoi;
    match e
    case Num(n) => NumFactor(v, s, p, n, sp);
    case Var(name, dollar) => VarFactor(v, s, p, name, dollar, sp);
    case Neg(x) => PrintedSign(v, s, p, '-', x, sp);
    case Pos(x) => PrintedSign(v, s, p, '+', x, sp);
    case Bin(op, l, r) =>
      PrintedParen(v, s, p, op, l, r, sp);
  }

  lemma {:induction false} PrintedSign(v: Vars, s: string, p: nat, c: char, x: Tree, sp: string)
    requires WF(x) && AllBlank(sp) && (c == '-' || c == '+') && At(s, p, sp + ([c] + Print(x, Unit, sp)))
    requires Stops(s, p + |sp| + 1 + |Print(x, Unit, sp)|)
    ensures var y := Value(v, x);
      Factor(v, s, p) == (if c == '-' then Minus(y) else y, p + |sp| + 1 + |Print(x, Unit, sp)|)
    decreases x, 9
  {
    hide At, Print, Value, WF, AllBlank, Minus;
    SkipTo(s, p, sp, c, Print(x, Unit, sp));
    SignStep(v, s, p);
    PrintedFactor(v, s, p + |sp| + 1, x, sp);
  }

  // Around a parenthesised text: what stands inside it, and what follows it.
  lemma ParenInside(s: string, p: nat, sp: string, body: string)
    requires At(s, p, sp + (['('] + (body + (sp + [')'])))) && AllBlank(sp)
    ensures p + |sp| < |s| && SkipBlanks(s, p) == p + |sp| && s[p + |sp|] == '('
    ensures var q := p + |sp| + 1;
            && At(s, q, body) && Stops(s, q + |body|)
            && SkipBlanks(s, q + |body|) == q + |body| + |sp| && Sees(s, q + |body| + |sp|, ')')
  {
    hide At;
    SkipTo(s, p, sp, '(', body + (sp + [')']));
    var q := p + |sp| + 1;
    AtSplit(s, q, body, sp + [')']);
    assert sp + [')'] == sp + ([')'] + []);
    SkipTo(s, q + |body|, sp, ')', []);
    StopsAtPad(s, q + |body|, sp, ')', []);
  }

  lemma ParenStep(v: Vars, x: Long, s: string, p: nat, e: nat)
    requires p <= |s| && e <= |s| && Sees(s, SkipBlanks(s, p), '(') && Sees(s, SkipBlanks(s, e), ')')
    requires Expr(v, s, SkipBlanks(s, p) + 1) == ExprLoop(v, x, s, e)
    ensures Factor(v, s, p) == (x, SkipBlanks(s, e) + 1)
  {
    SkipTwice(s, e);
    assert ExprLoop(v, x, s, e) == (x, SkipBlanks(s, e));
  }

  lemma StopsAtPad(s: string, p: nat, sp: string, c: char, L: string)
    requires At(s, p, sp + ([c] + L)) && AllBlank(sp) && !IsNameChar(c)
    ensures Stops(s, p)
  {
    AtIndex(s, p, sp + ([c] + L), 0);
  }

  // Left operand, operator at `q`, right operand behind it.
  ghost predicate BinAt(s: string, p: nat, q: nat, op: char, L: string, R: string) {
    && At(s, p, L) && Stops(s, p + |L|) && SkipBlanks(s, p + |L|) == q && q < |s| && s[q] == op && At(s, q + 1, R)
  }

  lemma BinShape(s: string, p: nat, op: char, L: string, R: string, sp: string) returns (q: nat)
    requires (Additive(op) || Multiplicative(op)) && AllBlank(sp) && At(s, p, L + (sp + ([op] + R)))
    ensures BinAt(s, p, q, op, L, R)
    ensures p + |L + (sp + ([op] + R))| == q + 1 + |R|
  {
    hide At;
    AtSplit(s, p, L, sp + ([op] + R));
    SkipTo(s, p + |L|, sp, op, R);
    StopsAtPad(s, p + |L|, sp, op, R);
    q := p + |L| + |sp|;
  }

  lemma OpAt(s: string, q: nat, op: char)
    requires q < |s| && s[q] == op
    ensures MulOp(s, q) <==> Multiplicative(op)
    ensures AddOp(s, q) <==> Additive(op)
    ensures Additive(op) ==> !Multiplicative(op)
  {}

  // The text of a parenthesised operation, and what it puts inside.
  function Inside(op: char, l: Tree, r: Tree, sp: string): string {
    if Additive(op) then Print(l, Sum, sp) + (sp + ([op] + Print(r, Product, sp)))
    else Print(l, Product, sp) + (sp + ([op] + Print(r, Unit, sp)))
  }

  lemma PrintBin(op: char, l: Tree, r: Tree, sp: string)
    requires Additive(op) || Multiplicative(op)
    ensures Print(Bin(op, l, r), Unit, sp) == sp + (['('] + (Inside(op, l, r, sp) + (sp + [')'])))
    ensures |Print(Bin(op, l, r), Unit, sp)| == |Inside(op, l, r, sp)| + 2 * |sp| + 2
    ensures Additive(op) ==> Print(Bin(op, l, r), Sum, sp) == Inside(op, l, r, sp)
    ensures Multiplicative(op) ==> Print(Bin(op, l, r), Product, sp) == Inside(op, l, r, sp)
    ensures Multiplicative(op) ==> Print(Bin(op, l, r), Sum, sp) == Inside(op, l, r, sp)
    ensures Multiplicative(op) ==> !Additive(op)
  {}

  lemma InsideShape(s: string, p: nat, op: char, l: Tree, r: Tree, sp: string) returns (q: nat)
    requires (Additive(op) || Multiplicative(op)) && AllBlank(sp) && At(s, p, Inside(op, l, r, sp))
    ensures Additive(op) ==> BinAt(s, p, q, op, Print(l, Sum, sp), Print(r, Product, sp))
    ensures Additive(op) ==> p + |Inside(op, l, r, sp)| == q + 1 + |Print(r, Product, sp)|
    ensures Multiplicative(op) ==> BinAt(s, p, q, op, Print(l, Product, sp), Print(r, Unit, sp))
    ensures Multiplicative(op) ==> p + |Inside(op, l, r, sp)| == q + 1 + |Print(r, Unit, sp)|
  {
    hide At, Print, BinAt;
    if Additive(op) {
      q := BinShape(s, p, op, Print(l, Sum, sp), Print(r, Product, sp), sp);
    } else {
      q := BinShape(s, p, op, Print(l, Product, sp), Print(r, Unit, sp), sp);
    }
  }

  lemma {:induction false} PrintedParen(v: Vars, s: string, p: nat, op: char, l: Tree, r: Tree, sp: string)
    requires WF(Bin(op, l, r)) && AllBlank(sp) && At(s, p, Print(Bin(op, l, r), Unit, sp))
    ensures Factor(v, s, p) == (Value(v, Bin(op, l, r)), p + |Print(Bin(op, l, r), Unit, sp)|)
    decreases Bin(op, l, r), 3
  {
    hide *;
    BinParts(v, op, l, r);
    PrintBin(op, l, r, sp);
    var x, L := Value(v, Bin(op, l, r)), |Inside(op, l, r, sp)|;
    ParenInside(s, p, sp, Inside(op, l, r, sp));
    var p' := p + |sp| + 1;
    NoMulAtClose(s, p' + L);
    PrintedInside(v, s, p', op, l, r, sp);
    if Multiplicative(op) {
      TermEnd(v, x, s, p' + L);
      SumPad(v, x, s, p' + L);
      SumOfTerm(v, s, p');
    }
    ParenStep(v, x, s, p, p' + L);
  }

  lemma SumOfTerm(v: Vars, s: string, p: nat)
    requires p <= |s|
    ensures Expr(v, s, p) == ExprLoop(v, Term(v, s, p).0, s, Term(v, s, p).1)
  {}

  lemma TermOfFactor(v: Vars, s: string, p: nat)
    requires p <= |s|
    ensures Term(v, s, p) == TermLoop(v, Factor(v, s, p).0, s, Factor(v, s, p).1)
  {}

  // What needs no parentheses is printed alike.
  lemma PrintSame(e: Tree, sp: string)
    ensures !(e.Bin? && Multiplicative(e.op)) ==> Print(e, Product, sp) == Print(e, Unit, sp)
    ensures !(e.Bin? && Additive(e.op)) ==> Print(e, Sum, sp) == Print(e, Product, sp)
  {}

  lemma NoMulAtClose(s: string, p: nat)
    requires p <= |s| && Sees(s, SkipBlanks(s, p), ')')
    ensures !MulOp(s, SkipBlanks(s, p))
  {}

  // What an operation's text evaluates to, as a product or as a sum.
  lemma {:induction false} PrintedInside(v: Vars, s: string, p: nat, op: char, l: Tree, r: Tree, sp: string)
    requires WF(Bin(op, l, r)) && AllBlank(sp) && At(s, p, Inside(op, l, r, sp))
    requires Stops(s, p + |Inside(op, l, r, sp)|)
    requires Additive(op) ==> !MulOp(s, SkipBlanks(s, p + |Inside(op, l, r, sp)|))
    ensures Multiplicative(op) ==>
              Term(v, s, p) == TermLoop(v, Value(v, Bin(op, l, r)), s, p + |Inside(op, l, r, sp)|)
    ensures Additive(op) ==>
              Expr(v, s, p) == ExprLoop(v, Value(v, Bin(op, l, r)), s, p + |Inside(op, l, r, sp)|)
    decreases Bin(op, l, r), 2
  {
    hide *;
    BinParts(v, op, l, r);
    var q := InsideShape(s, p, op, l, r, sp);
    if Additive(op) {
      PrintedSum(v, s, p, q, op, l, r, sp);
    }
    if Multiplicative(op) {
      PrintedProduct(v, s, p, q, op, l, r, sp);
    }
  }

  lemma {:induction false} PrintedProduct(v: Vars, s: string, p: nat, q: nat, op: char, l: Tree, r: Tree, sp: string)
    requires WF(Bin(op, l, r)) && Multiplicative(op) && AllBlank(sp)
    requires BinAt(s, p, q, op, Print(l, Product, sp), Print(r, Unit, sp))
    requires Stops(s, q + 1 + |Print(r, Unit, sp)|)
    ensures Term(v, s, p) == TermLoop(v, Value(v, Bin(op, l, r)), s, q + 1 + |Print(r, Unit, sp)|)
    decreases Bin(op, l, r), 0
  {
    hide Print, At, Value, WF, AllBlank, Stops, Factor, Term, TermLoop, Expr, ExprLoop, SkipBlanks, Apply, MulOp, AddOp;
    BinParts(v, op, l, r);
    OpAt(s, q, op);
    PrintedTerm(v, s, p, l, sp);
    PrintedFactor(v, s, q + 1, r, sp);
    MulStep(v, Value(v, l), s, p + |Print(l, Product, sp)|);
  }

  lemma {:induction false} PrintedSum(v: Vars, s: string, p: nat, q: nat, op: char, l: Tree, r: Tree, sp: string)
    requires WF(Bin(op, l, r)) && Additive(op) && AllBlank(sp)
    requires BinAt(s, p, q, op, Print(l, Sum, sp), Print(r, Product, sp))
    requires Stops(s, q + 1 + |Print(r, Product, sp)|) && !MulOp(s, SkipBlanks(s, q + 1 + |Print(r, Product, sp)|))
    ensures Expr(v, s, p) == ExprLoop(v, Value(v, Bin(op, l, r)), s, q + 1 + |Print(r, Product, sp)|)
    decreases Bin(op, l, r), 1
  {
    hide Print, At, Value, WF, AllBlank, Stops, Factor, Term, TermLoop, Expr, ExprLoop, SkipBlanks, Apply, MulOp, AddOp;
    BinParts(v, op, l, r);
    OpAt(s, q, op);
    PrintedExpr(v, s, p, l, sp);
    PrintedTerm(v, s, q + 1, r, sp);
    var end := q + 1 + |Print(r, Product, sp)|;
    AddStep(v, Value(v, l), s, p + |Print(l, Sum, sp)|);
    TermEnd(v, Value(v, r), s, end);
    SumPad(v, Value(v, Bin(op, l, r)), s, end);
  }

  lemma {:induction false} PrintedTerm(v: Vars, s: string, p: nat, e: Tree, sp: string)
    requires WF(e) && AllBlank(sp) && At(s, p, Print(e, Product, sp)) && Stops(s, p + |Print(e, Product, sp)|)
    ensures Term(v, s, p) == TermLoop(v, Value(v, e), s, p + |Print(e, Product, sp)|)
    decreases e, 5
  {
    hide *;
    if e.Bin? && Multiplicative(e.op) {
      PrintBin(e.op, e.l, e.r, sp);
      PrintedInside(v, s, p, e.op, e.l, e.r, sp);
    } else {
      PrintSame(e, sp);
      PrintedFactor(v, s, p, e, sp);
      TermOfFactor(v, s, p);
    }
  }

  lemma {:induction false} PrintedExpr(v: Vars, s: string, p: nat, e: Tree, sp: string)
    requires WF(e) && AllBlank(sp) && At(s, p, Print(e, Sum, sp))
    requires var q := p + |Print(e, Sum, sp)|; Stops(s, q) && !MulOp(s, SkipBlanks(s, q))
    ensures Expr(v, s, p) == ExprLoop(v, Value(v, e), s, p + |Print(e, Sum, sp)|)
    decreases e, 6
  {
    hide *;
    if e.Bin? && Additive(e.op) {
      PrintBin(e.op, e.l, e.r, sp);
      PrintedInside(v, s, p, e.op, e.l, e.r, sp);
    } else {
      PrintSame(e, sp);
      PrintedTerm(v, s, p, e, sp);
      SumOfTerm(v, s, p);
      var end := p + |Print(e, Sum, sp)|;
      TermEnd(v, Value(v, e), s, end);
      SumPad(v, Value(v, e), s, end);
    }
  }

  // The whole expression, with blanks allowed behind it: the value is right and
  // the cursor stops at the very end of the text.
  lemma EvalPrinted(v: Vars, e: Tree, sp: string, tail: string)
    requires WF(e) && AllBlank(sp) && AllBlank(tail)
    ensures var s := Print(e, Sum, sp) + tail; Expr(v, s, 0) == (Value(v, e), |s|)
  {
    var s := Print(e, Sum, sp) + tail;
    var q := |Print(e, Sum, sp)|;
    assert s == Print(e, Sum, sp) + tail + [] && s == [] + Print(e, Sum, sp) + tail;
    AtHere(Print(e, Sum, sp), tail, []);
    AtHere([], Print(e, Sum, sp), tail);
    SkipPad(s, q, tail);
    assert tail != [] ==> s[q] == tail[0];
    PrintedExpr(v, s, 0, e, sp);
  }

  // ----- Wrapping ------------------------------------------------------------------

  lemma WrapShift(x: int, k: int)
    ensures Wrap(x + 0x1_0000_0000 * k) == Wrap(x)
  {}

  // What wrapping takes off is a multiple of 2^32.
  function Turns(x: int): (k: int)
    ensures Wrap(x) == x - 0x1_0000_0000 * k
  {
    (x + 0x8000_0000) / 0x1_0000_0000
  }

  lemma WrapDigit(n: nat, d: nat)
    ensures Wrap(Wrap(n) * 10 + d) == Wrap(n * 10 + d)
  {
    WrapShift(n * 10 + d, -10 * Turns(n));
  }

  lemma WrapSums(a: int, b: int)
    ensures Wrap(Wrap(a) + Wrap(b)) == Wrap(a + b)
    ensures Wrap(Wrap(a) - Wrap(b)) == Wrap(a - b)
    ensures Minus(Wrap(a)) == Wrap(-a)
  {
    WrapShift(a + b, -Turns(a) - Turns(b));
    WrapShift(a - b, Turns(b) - Turns(a));
    WrapShift(-a, Turns(a));
  }

  lemma WrapProduct(a: int, b: int)
    ensures Wrap(Wrap(a) * Wrap(b)) == Wrap(a * b)
  {
    var i, j, m := Turns(a), Turns(b), 0x1_0000_0000;
    hide Wrap, Turns;
    var k := i * b + a * j - m * i * j;
    assert (a - m * i) * (b - m * j) == a * b - m * k;
    WrapShift(a * b, -k);
  }

  // The value over the integers, where division truncates as in C.
  function Exact(v: Vars, e: Tree): int {
    match e
    case Num(n) => n
    case Var(name, _) => Atoi(v(name))
    case Neg(x) => -Exact(v, x)
    case Pos(x) => Exact(v, x)
    case Bin(op, l, r) => ApplyExact(op, Exact(v, l), Exact(v, r))
  }

  function ApplyExact(op: char, x: int, d: int): int {
    if op == '+' then x + d
    else if op == '-' then x - d
    else if op == '*' then x * d
    else if d == 0 then 0
    else if op == '/' then TruncDiv(x, d) else TruncMod(x, d)
  }

  predicate FitsLong(x: int) { MIN <= x <= MAX }

  // What is divided, and by what, fits a long.
  predicate Firm(v: Vars, e: Tree) {
    match e
    case Neg(x) => Firm(v, x)
    case Pos(x) => Firm(v, x)
    case Bin(op, l, r) =>
      && Firm(v, l) && Firm(v, r)
      && (Additive(op) || op == '*' || (FitsLong(Exact(v, l)) && FitsLong(Exact(v, r))))
    case _ => true
  }

  // One operation on wrapped operands is the wrapped operation.
  lemma ApplyWraps(op: char, x: int, d: int)
    requires Additive(op) || op == '*' || (FitsLong(x) && FitsLong(d))
    ensures Apply(op, Wrap(x), Wrap(d)) == Wrap(ApplyExact(op, x, d))
  {
    WrapSums(x, d);
    WrapProduct(x, d);
    WrapSmall(x);
    WrapSmall(d);
    WrapSmall(0);
    hide Wrap, TruncDiv, TruncMod;
  }

  lemma {:induction false} ExactWraps(v: Vars, e: Tree)
    requires Firm(v, e)
    ensures Value(v, e) == Wrap(Exact(v, e))
  {
    hide Wrap, Atoi, Minus, Apply, ApplyExact;
    match e
    case Num(n) =>
    case Var(name, _) => WrapSmall(Atoi(v(name)));
    case Neg(x) => ExactWraps(v, x); WrapSums(Exact(v, x), 0);
    case Pos(x) => ExactWraps(v, x);
    case Bin(op, l, r) =>
      ExactWraps(v, l); ExactWraps(v, r);
      ApplyWraps(op, Exact(v, l), Exact(v, r));
  }

  lemma WrapSmall(x: int)
    ensures Wrap(x) == x <==> MIN <= x <= MAX
  {}

  // Where what is divided fits a long, the printed text evaluates to the value over the
  // integers if and only if that value fits a long, whatever else overflows on the way.
  lemma ExactPrinted(v: Vars, e: Tree, sp: string)
    requires WF(e) && Firm(v, e) && AllBlank(sp)
    ensures Expr(v, Print(e, Sum, sp), 0).0 == Exact(v, e) <==> FitsLong(Exact(v, e))
  {
    hide Wrap, Print, WF, AllBlank, Firm, Exact, Value, Expr;
    var s := Print(e, Sum, sp);
    NoBlanks();
    EvalPrinted(v, e, sp, "");
    assert s + "" == s;
    ExactWraps(v, e);
    WrapSmall(Exact(v, e));
  }

  // A tree without division needs no such condition.
  lemma {:induction false} RingIsFirm(v: Vars, e: Tree)
    requires Ring(e)
    ensures Firm(v, e)
  {
    match e
    case Neg(x) => RingIsFirm(v, x);
    case Pos(x) => RingIsFirm(v, x);
    case Bin(op, l, r) => RingIsFirm(v, l); RingIsFirm(v, r);
    case _ =>
  }

  predicate Ring(e: Tree) {
    match e
    case Neg(x) => Ring(x)
    case Pos(x) => Ring(x)
    case Bin(op, l, r) => (Additive(op) || op == '*') && Ring(l) && Ring(r)
    case _ => true
  }

  // Otherwise a result that fits can be wrong: (2147483647+1)/2.
  lemma WrappedDividend(v: Vars)
    ensures var e := Bin('/', Bin('+', Num(MAX), Num(1)), Num(2));
      && WF(e) && !Firm(v, e) && FitsLong(Exact(v, e))
      && Value(v, e) == -0x4000_0000 && Exact(v, e) == 0x4000_0000
  {
    var e := Bin('+', Num(MAX), Num(1));
    assert Value(v, e) == MIN && Exact(v, e) == MAX + 1;
    assert TruncDiv(MIN, 2) == -0x4000_0000 && TruncDiv(MAX + 1, 2) == 0x4000_0000;
  }

  lemma NoBlanks()
    ensures AllBlank("")
  {}

  // ----- Variables -----------------------------------------------------------------

  lemma SignRead(s: string, sign: string, n: nat)
    requires (sign == "" || sign == "-") && s == sign + Dec(n)
    ensures s != "" && Sees(s, 0, '-') == (sign == "-") && !IsSpace(s[0]) && s[0] != '+'
    ensures |sign| <= |s| && Unsigned(s, |sign|) == n
  {
    AtHere(sign, Dec(n), "");
    assert s == sign + Dec(n) + "";
    AtIndex(s, |sign|, Dec(n), 0);
    ReadDec(s, |sign|, n);
    assert sign == "-" ==> s[0] == '-';
  }

  // What is printed for a number reads back as that number.
  lemma ShowReads(x: Long)
    ensures Atoi(Show(x)) == x
  {
    hide Dec, Unsigned;
    SignRead(Show(x), if x < 0 then "-" else "", if x < 0 then 0 - x else x);
    if x >= 0 { assert "" + Dec(x) == Dec(x); }
    assert SkipSpace(Show(x), 0) == 0;
  }

  function Assign(v: Vars, name: string, value: string): Vars { n => if n == name then value else v(n) }

  // The tree with another one in place of a variable.
  function Subst(e: Tree, name: string, d: Tree): Tree {
    match e
    case Num(n) => e
    case Var(x, _) => if x == name then d else e
    case Neg(x) => Neg(Subst(x, name, d))
    case Pos(x) => Pos(Subst(x, name, d))
    case Bin(op, l, r) => Bin(op, Subst(l, name, d), Subst(r, name, d))
  }

  // After `name=$((d))`, an expression in the variable has the value it has with the
  // tree `d` written in its place.
  lemma {:induction false} SubstMeans(v: Vars, e: Tree, name: string, d: Tree)
    ensures Value(Assign(v, name, Show(Value(v, d))), e) == Value(v, Subst(e, name, d))
  {
    hide Show, Atoi, Apply, Wrap, Minus;
    match e
    case Num(n) =>
    case Var(x, _) => if x == name { ShowReads(Value(v, d)); }
    case Neg(x) => SubstMeans(v, x, name, d);
    case Pos(x) => SubstMeans(v, x, name, d);
    case Bin(op, l, r) => SubstMeans(v, l, name, d); SubstMeans(v, r, name, d);
  }

  // ----- Division, limits and texts that are no numbers ------------------------------

  // Quotient and remainder as C defines them: the remainder is smaller than the divisor
  // and has the sign of the dividend.
  lemma Truncates(a: int, b: int)
    requires b != 0
    ensures var q, r := TruncDiv(a, b), TruncMod(a, b);
      && a == q * b + r
      && (if b > 0 then -b < r < b else b < r < -b)
      && (a > 0 ==> r >= 0) && (a < 0 ==> r <= 0)
  {
    var m, n := if a < 0 then -a else a, if b < 0 then -b else b;
    assert m == (m / n) * n + m % n;
    assert TruncDiv(a, b) == m / n || TruncDiv(a, b) == -(m / n);
    Signs(m / n, n);
  }

  lemma Signs(x: int, y: int)
    ensures (-x) * y == -(x * y) && x * (-y) == -(x * y) && (-x) * (-y) == x * y
  {}

  // A text whose first visible character is no digit and no sign reads as 0, the empty
  // one among them.
  lemma NoNumber(pre: string, rest: string)
    requires forall k | 0 <= k < |pre| :: IsSpace(pre[k])
    requires rest == "" || (!IsSpace(rest[0]) && !IsDigit(rest[0]) && rest[0] != '-' && rest[0] != '+')
    ensures Atoi(pre + rest) == 0
  {
    SpacePassed(pre + rest, 0, pre, rest);
    assert rest != "" ==> (pre + rest)[|pre|] == rest[0];
  }

  lemma {:induction false} SpacePassed(s: string, p: nat, pre: string, rest: string)
    requires s == pre + rest && p <= |pre| && (forall k | p <= k < |pre| :: IsSpace(pre[k]))
    requires rest == "" || !IsSpace(rest[0])
    ensures SkipSpace(s, p) == |pre|
    decreases |pre| - p
  {
    if p < |pre| { SpacePassed(s, p + 1, pre, rest); } else { assert rest != "" ==> s[p] == rest[0]; }
  }

  // White space in front, a sign or none, and what follows the number: the number in
  // the range of a long, or the end of the range.
  lemma NumberRead(pre: string, sign: string, n: nat, rest: string)
    requires (forall k | 0 <= k < |pre| :: IsSpace(pre[k])) && (sign == "" || sign == "+" || sign == "-")
    requires rest == "" || !IsDigit(rest[0])
    ensures var v := if sign == "-" then 0 - n else n as int;
      Atoi(pre + (sign + (Dec(n) + rest)))
      == if v < -2147483648 then -2147483648 else if v > 2147483647 then 2147483647 else v
  {
    hide Dec, ReadDigits;
    var tail := sign + (Dec(n) + rest);
    var s, p := pre + tail, |pre|;
    AtHere(pre + sign, Dec(n), rest);
    assert s == (pre + sign) + Dec(n) + rest;
    AtIndex(s, p + |sign|, Dec(n), 0);
    assert sign != "" ==> s[p] == sign[0];
    assert tail[0] == s[p];
    SpacePassed(s, 0, pre, tail);
    var q := p + |sign| + |Dec(n)|;
    assert q < |s| ==> s[q] == rest[0];
    ReadDec(s, p + |sign|, n);
    assert Unsigned(s, p + |sign|) == n;
  }

  // A name is read up to its 23rd character.
  lemma LongName(v: Vars, s: string)
    requires |s| >= 23 && !IsDigit(s[0]) && forall k | 0 <= k < 23 :: IsNameChar(s[k])
    ensures Factor(v, s, 0) == (Atoi(v(s[..23])), 23)
  {
    hide Factor, NameEnd, Atoi;
    FactorIsAtom(v, s);
    NameRun(s, 0, 23);
    assert s[0..23] == s[..23];
  }

  lemma FactorIsAtom(v: Vars, s: string)
    requires s != "" && IsNameChar(s[0])
    ensures Factor(v, s, 0) == Atom(v, s, 0)
  {
    hide Atom;
    assert SkipBlanks(s, 0) == 0;
  }

  lemma {:induction false} NameRun(s: string, p: nat, cap: nat)
    requires p + cap <= |s| && forall k | p <= k < p + cap :: IsNameChar(s[k])
    ensures NameEnd(s, p, cap) == p + cap
    decreases cap
  {
    if cap > 0 { NameRun(s, p + 1, cap - 1); }
  }
}
