// Control flow of the DuneOS shell (apps/system/shell_core/shell_cmds.c).
//
// The shell keeps a script as a flat list of statements and runs if / for /
// while by moving an index over that list. Two flags stand in for a syntax
// tree: a run gate (off while a branch is skipped) and a pending
// break/continue. This module gives scripts a syntax tree and proves that the
// index-driven engine computes the meaning of the tree.

module ShellControl {
  import opened Chars

  // ----- Commands and state --------------------------------------------------

  datatype Ctl = NoCtl | Break | Continue

  // Everything a statement can change: `$?`, the pending break/continue, and
  // the rest (variables, files, the screen) as one abstract value.
  datatype World<E> = World(env: E, status: int, ctl: Ctl)

  // What the engine calls out to: running one statement, expanding the word
  // list of a `for`, and setting a variable.
  datatype Behaviour<!E> = Behaviour(
    exec: (string, World<E>) -> World<E>,
    expand: (string, World<E>) -> (World<E>, seq<string>),
    assign: (string, string, E) -> E)

  const WHILE_GUARD := 100000
  const STMT_CAP := 256
  const VAR_CAP := 24
  const WORDS_CAP := 32

  // ----- Keywords ------------------------------------------------------------

  function AfterBlanks(s: string): (r: string)
    ensures r == [] || !IsBlank(r[0])
  {
    s[SkipBlanks(s, 0)..]
  }

  predicate HasKw(s: string, k: string) {
    k <= s && (|s| == |k| || IsBlank(s[|k|]))
  }

  function AfterKw(s: string, k: string): string
    requires HasKw(s, k)
  {
    AfterBlanks(s[|k|..])
  }

  // The keywords the engine looks for, and a statement split at its keyword.
  datatype Word = KIf | KFor | KWhile | KThen | KDo | KElif | KElse | KFi | KDone | KNone

  datatype Stmt = Stmt(word: Word, text: string, arg: string)

  function Key(w: Word): string {
    match w
    case KIf => "if"
    case KFor => "for"
    case KWhile => "while"
    case KThen => "then"
    case KDo => "do"
    case KElif => "elif"
    case KElse => "else"
    case KFi => "fi"
    case KDone => "done"
    case KNone => ""
  }

  const KEYWORDS := [KIf, KFor, KWhile, KThen, KDo, KElif, KElse, KFi, KDone]

  function LexIn(s: string, ws: seq<Word>): Stmt {
    if ws == [] then Stmt(KNone, s, "")
    else if HasKw(s, Key(ws[0])) then Stmt(ws[0], s, AfterKw(s, Key(ws[0])))
    else LexIn(s, ws[1..])
  }

  function Lex(s: string): Stmt { LexIn(s, KEYWORDS) }

  function LexAll(S: seq<string>): (L: seq<Stmt>)
    ensures |L| == |S|
    ensures forall i | 0 <= i < |S| :: L[i] == Lex(S[i])
  {
    seq(|S|, i requires 0 <= i < |S| => Lex(S[i]))
  }

  predicate IsTerm(s: Stmt) { s.word.KFi? || s.word.KDone? || s.word.KElse? || s.word.KElif? }
  predicate Opens(s: Stmt) { s.word.KIf? || s.word.KFor? || s.word.KWhile? }
  predicate Closes(s: Stmt) { s.word.KFi? || s.word.KDone? }

  // Number of leading name characters of `s`, at most `cap`.
  function NameLen(s: string, cap: nat): (n: nat)
    ensures n <= |s| && n <= cap
    ensures forall k | 0 <= k < n :: IsNameChar(s[k])
    ensures n < |s| && n < cap ==> !IsNameChar(s[n])
  {
    if s == [] || cap == 0 || !IsNameChar(s[0]) then 0 else 1 + NameLen(s[1..], cap - 1)
  }

  datatype ForHead = BadFor | ForHead(name: string, words: string)

  // `for NAME in WORDS`, after the keyword.
  function ParseFor(r: string): ForHead {
    var n := NameLen(r, VAR_CAP - 1);
    var p := AfterBlanks(r[n..]);
    if n == 0 || !HasKw(p, "in") then BadFor else ForHead(r[..n], AfterKw(p, "in"))
  }

  // Statements are copied into a fixed buffer before they run.
  function Clip(s: string): string {
    if |s| < STMT_CAP then s else s[..STMT_CAP - 1]
  }

  function Run1<E>(b: Behaviour<E>, s: string, w: World<E>): World<E> {
    b.exec(Clip(s), w)
  }

  function Words<E>(b: Behaviour<E>, s: string, w: World<E>): (World<E>, seq<string>) {
    var (w1, ws) := b.expand(s, w);
    (w1, if |ws| <= WORDS_CAP then ws else ws[..WORDS_CAP])
  }

  // ----- The engine as functions of the statement list -----------------------

  // Index of the fi/done that brings `depth` open blocks to zero, else |S|.
  function FindBlockEnd(S: seq<Stmt>, j: nat, depth: nat): (e: nat)
    requires j <= |S|
    ensures j <= e <= |S|
    decreases |S| - j
  {
    if j == |S| then j
    else if Opens(S[j]) then FindBlockEnd(S, j + 1, depth + 1)
    else if Closes(S[j]) then if depth <= 1 then j else FindBlockEnd(S, j + 1, depth - 1)
    else FindBlockEnd(S, j + 1, depth)
  }

  // Skips the statement `k` (then / do / fi / done) when it is the next one.
  function SkipKw(S: seq<Stmt>, i: nat, k: Word): (i': nat)
    requires i <= |S|
    ensures i <= i' <= |S| && i' <= i + 1
  {
    if i < |S| && S[i].word == k then i + 1 else i
  }

  function Exec<E>(b: Behaviour<E>, S: seq<Stmt>, i: nat, run: bool, w: World<E>): (r: (nat, World<E>))
    requires i < |S|
    ensures i < r.0 <= |S|
    decreases |S| - i, 0, 0
  {
    var s := S[i];
    if s.word == KIf then
      var w1 := if run then Run1(b, s.arg, w) else w;
      var cond := run && w1.status == 0;
      var (i2, w2) := SeqUntil(b, S, SkipKw(S, i + 1, KThen), cond, w1);
      IfTail(b, S, i2, run, cond, w2)
    else if s.word == KFor then
      var body := SkipKw(S, i + 1, KDo);
      var end := FindBlockEnd(S, body, 1);
      var w1 := match ParseFor(s.arg)
        case BadFor => w
        case ForHead(name, words) =>
          if !run then w
          else var (w0, ws) := Words(b, words, w); ForLoop(b, S, body, end, name, ws, w0);
      (SkipKw(S, end, KDone), w1)
    else if s.word == KWhile then
      var body := SkipKw(S, i + 1, KDo);
      var end := FindBlockEnd(S, body, 1);
      var w1 := if run then WhileLoop(b, S, s.arg, body, end, 0, w) else w;
      (SkipKw(S, end, KDone), w1)
    else (i + 1, if run then Run1(b, s.text, w) else w)
  }

  function SeqUntil<E>(b: Behaviour<E>, S: seq<Stmt>, i: nat, run: bool, w: World<E>): (r: (nat, World<E>))
    requires i <= |S|
    ensures i <= r.0 <= |S|
    decreases |S| - i, 1, 0
  {
    if i < |S| && !IsTerm(S[i]) then
      var (i1, w1) := Exec(b, S, i, run && w.ctl == NoCtl, w);
      SeqUntil(b, S, i1, run, w1)
    else (i, w)
  }

  // The elif / else / fi part of an `if` whose first arm ends at `i`.
  function IfTail<E>(b: Behaviour<E>, S: seq<Stmt>, i: nat, run: bool, cond: bool, w: World<E>): (r: (nat, World<E>))
    requires i <= |S|
    ensures i <= r.0 <= |S|
    decreases |S| - i, 2, 0
  {
    var (i3, taken, w3) := Elifs(b, S, i, run, cond, w);
    ElsePart(b, S, i3, run && !taken, w3)
  }

  function ElsePart<E>(b: Behaviour<E>, S: seq<Stmt>, i: nat, run: bool, w: World<E>): (r: (nat, World<E>))
    requires i <= |S|
    ensures i <= r.0 <= |S|
    decreases |S| - i, 1, 0
  {
    if i < |S| && S[i].word == KElse then
      var (i4, w4) := SeqUntil(b, S, i + 1, run, w);
      (SkipKw(S, i4, KFi), w4)
    else (SkipKw(S, i, KFi), w)
  }

  function Elifs<E>(b: Behaviour<E>, S: seq<Stmt>, i: nat, run: bool, taken: bool, w: World<E>)
    : (r: (nat, bool, World<E>))
    requires i <= |S|
    ensures i <= r.0 <= |S|
    decreases |S| - i, 1, 0
  {
    if i < |S| && S[i].word == KElif then
      var w1 := if run && !taken then Run1(b, S[i].arg, w) else w;
      var c2 := run && !taken && w1.status == 0;
      var (i2, w2) := SeqUntil(b, S, SkipKw(S, i + 1, KThen), c2, w1);
      Elifs(b, S, i2, run, taken || c2, w2)
    else (i, taken, w)
  }

  function RunRange<E>(b: Behaviour<E>, S: seq<Stmt>, i: nat, end: nat, run: bool, w: World<E>): (r: (nat, World<E>))
    requires i <= |S| && end <= |S|
    ensures i <= r.0 <= |S|
    decreases |S| - i, 1, 0
  {
    if i < end then
      var (i1, w1) := Exec(b, S, i, run && w.ctl == NoCtl, w);
      RunRange(b, S, i1, end, run, w1)
    else (i, w)
  }

  function ForLoop<E>(b: Behaviour<E>, S: seq<Stmt>, body: nat, end: nat, name: string, ws: seq<string>, w: World<E>)
    : World<E>
    requires body <= |S| && end <= |S|
    decreases |S| - body, 2, |ws|
  {
    if ws == [] then w
    else
      var w1 := RunRange(b, S, body, end, true, w.(env := b.assign(name, ws[0], w.env))).1;
      if w1.ctl == Break then w1.(ctl := NoCtl)
      else ForLoop(b, S, body, end, name, ws[1..], w1.(ctl := NoCtl))
  }

  function WhileLoop<E>(b: Behaviour<E>, S: seq<Stmt>, cond: string, body: nat, end: nat, guard: nat, w: World<E>)
    : World<E>
    requires body <= |S| && end <= |S| && guard <= WHILE_GUARD
    decreases |S| - body, 2, WHILE_GUARD - guard
  {
    var w1 := Run1(b, cond, w);
    if w1.status != 0 then w1
    else
      var w2 := RunRange(b, S, body, end, true, w1).1;
      if w2.ctl == Break then w2.(ctl := NoCtl)
      else if guard + 1 > WHILE_GUARD then w2.(ctl := NoCtl)
      else WhileLoop(b, S, cond, body, end, guard + 1, w2.(ctl := NoCtl))
  }

  // The whole list, as run_script drives it: no gating at the top level, and a
  // stray break/continue is dropped at the end.
  function Script<E>(b: Behaviour<E>, S: seq<Stmt>, i: nat, w: World<E>): World<E>
    requires i <= |S|
    decreases |S| - i
  {
    if i == |S| then w.(ctl := NoCtl)
    else var (i1, w1) := Exec(b, S, i, true, w); Script(b, S, i1, w1)
  }

  // ----- Syntax trees and their meaning --------------------------------------

  datatype Block = Empty | Then(head: Tree, tail: Block)

  datatype Tree =
    | Cmd(text: string)
    | If(cond: string, thn: Block, rest: Else)
    | For(name: string, words: string, body: Block)
    | While(cond: string, body: Block)

  datatype Else = Fi | ElseFi(els: Block) | Elif(cond: string, thn: Block, rest: Else)

  // `break`/`continue` stop a block; the innermost loop consumes them.
  function MeanBlock<E>(b: Behaviour<E>, k: Block, w: World<E>): World<E>
    decreases k, 0
  {
    match k
    case Empty => w
    case Then(t, tl) => if w.ctl != NoCtl then w else MeanBlock(b, tl, Mean(b, t, w))
  }

  function Mean<E>(b: Behaviour<E>, t: Tree, w: World<E>): World<E>
    decreases t, 0
  {
    match t
    case Cmd(text) => b.exec(text, w)
    case If(c, thn, rest) =>
      var w1 := b.exec(c, w);
      if w1.status == 0 then MeanBlock(b, thn, w1) else MeanElse(b, rest, w1)
    case For(name, words, body) =>
      var (w0, ws) := Words(b, words, w);
      MeanFor(b, name, ws, body, w0)
    case While(c, body) => MeanWhile(b, c, body, 0, w)
  }

  function MeanElse<E>(b: Behaviour<E>, e: Else, w: World<E>): World<E>
    decreases e, 0
  {
    match e
    case Fi => w
    case ElseFi(els) => MeanBlock(b, els, w)
    case Elif(c, thn, rest) =>
      var w1 := b.exec(c, w);
      if w1.status == 0 then MeanBlock(b, thn, w1) else MeanElse(b, rest, w1)
  }

  function MeanFor<E>(b: Behaviour<E>, name: string, ws: seq<string>, body: Block, w: World<E>): World<E>
    decreases body, |ws| + 1
  {
    if ws == [] then w
    else
      var w1 := MeanBlock(b, body, w.(env := b.assign(name, ws[0], w.env)));
      if w1.ctl == Break then w1.(ctl := NoCtl)
      else MeanFor(b, name, ws[1..], body, w1.(ctl := NoCtl))
  }

  // A loop whose body has run WHILE_GUARD + 1 times is cut short.
  function MeanWhile<E>(b: Behaviour<E>, c: string, body: Block, done: nat, w: World<E>): World<E>
    requires done <= WHILE_GUARD
    decreases body, WHILE_GUARD - done + 1
  {
    var w1 := b.exec(c, w);
    if w1.status != 0 then w1
    else
      var w2 := MeanBlock(b, body, w1);
      if w2.ctl == Break || done == WHILE_GUARD then w2.(ctl := NoCtl)
      else MeanWhile(b, c, body, done + 1, w2.(ctl := NoCtl))
  }

  // ----- Flattening ----------------------------------------------------------

  function KwText(k: string, arg: string): string { k + " " + arg }
  function ForArg(name: string, words: string): string { name + " " + KwText("in", words) }

  const THEN := Stmt(KThen, "then", "")
  const DO := Stmt(KDo, "do", "")
  const ELSE := Stmt(KElse, "else", "")
  const FI := Stmt(KFi, "fi", "")
  const DONE := Stmt(KDone, "done", "")

  // The statements of a tree, in order. Their `text` is what the script holds.
  function Flat(t: Tree): (r: seq<Stmt>)
    ensures |r| >= 1
  {
    match t
    case Cmd(text) => [Stmt(KNone, text, "")]
    case If(c, thn, rest) => [Stmt(KIf, KwText("if", c), c), THEN] + FlatBlock(thn) + FlatElse(rest)
    case For(name, words, body) =>
      [Stmt(KFor, KwText("for", ForArg(name, words)), ForArg(name, words)), DO] + FlatBlock(body) + [DONE]
    case While(c, body) => [Stmt(KWhile, KwText("while", c), c), DO] + FlatBlock(body) + [DONE]
  }

  function FlatBlock(k: Block): seq<Stmt> {
    match k
    case Empty => []
    case Then(t, tl) => Flat(t) + FlatBlock(tl)
  }

  function FlatElse(e: Else): (r: seq<Stmt>)
    ensures |r| >= 1
  {
    match e
    case Fi => [FI]
    case ElseFi(els) => [ELSE] + FlatBlock(els) + [FI]
    case Elif(c, thn, rest) => [Stmt(KElif, KwText("elif", c), c), THEN] + FlatBlock(thn) + FlatElse(rest)
  }

  // A statement that starts with no control keyword and fits the statement buffer.
  predicate PlainCmd(s: string) {
    Lex(s).word == KNone && |s| < STMT_CAP
  }

  predicate PlainArg(s: string) {
    (s == [] || !IsBlank(s[0])) && |s| < STMT_CAP
  }

  predicate PlainName(s: string) {
    0 < |s| < VAR_CAP && forall k | 0 <= k < |s| :: IsNameChar(s[k])
  }

  predicate WF(t: Tree) {
    match t
    case Cmd(text) => PlainCmd(text)
    case If(c, thn, rest) => PlainArg(c) && WFBlock(thn) && WFElse(rest)
    case For(name, words, body) => PlainName(name) && PlainArg(words) && WFBlock(body)
    case While(c, body) => PlainArg(c) && WFBlock(body)
  }

  predicate WFBlock(k: Block) {
    match k
    case Empty => true
    case Then(t, tl) => WF(t) && WFBlock(tl)
  }

  predicate WFElse(e: Else) {
    match e
    case Fi => true
    case ElseFi(els) => WFBlock(els)
    case Elif(c, thn, rest) => PlainArg(c) && WFBlock(thn) && WFElse(rest)
  }

  // ----- Placement of a flattened tree in the list ---------------------------

  ghost predicate At(S: seq<Stmt>, i: nat, L: seq<Stmt>) {
    i + |L| <= |S| && forall k | 0 <= k < |L| :: S[i + k] == L[k]
  }

  lemma AtSplit(S: seq<Stmt>, i: nat, A: seq<Stmt>, B: seq<Stmt>)
    requires At(S, i, A + B)
    ensures At(S, i, A) && At(S, i + |A|, B)
  {
    forall k | 0 <= k < |A| ensures S[i + k] == A[k] {
      assert S[i + k] == (A + B)[k];
    }
    forall k | 0 <= k < |B| ensures S[i + |A| + k] == B[k] {
      assert S[i + (|A| + k)] == (A + B)[|A| + k];
    }
  }

  lemma AtOne(S: seq<Stmt>, i: nat, s: Stmt)
    requires At(S, i, [s])
    ensures i < |S| && S[i] == s
  {
    assert S[i + 0] == [s][0];
  }

  // A header, its then/do line, a body and what follows.
  lemma AtArm(S: seq<Stmt>, i: nat, s: Stmt, k: Stmt, A: seq<Stmt>, B: seq<Stmt>)
    requires At(S, i, [s, k] + A + B)
    ensures i + 2 + |A| + |B| <= |S| && S[i] == s && S[i + 1] == k
    ensures At(S, i + 2, A) && At(S, i + 2 + |A|, B)
  {
    AtSplit(S, i, [s, k] + A, B);
    AtSplit(S, i, [s, k], A);
    assert S[i + 0] == [s, k][0] && S[i + 1] == [s, k][1];
  }

  lemma AtElse(S: seq<Stmt>, i: nat, A: seq<Stmt>)
    requires At(S, i, [ELSE] + A + [FI])
    ensures i + 2 + |A| <= |S| && S[i] == ELSE && S[i + 1 + |A|] == FI
    ensures At(S, i + 1, A)
  {
    AtSplit(S, i, [ELSE] + A, [FI]);
    AtSplit(S, i, [ELSE], A);
    AtOne(S, i, ELSE);
    AtOne(S, i + 1 + |A|, FI);
  }

  // ----- find_block_end skips whole trees ------------------------------------

  lemma {:induction false} BlockEndTree(S: seq<Stmt>, j: nat, t: Tree, d: nat)
    requires At(S, j, Flat(t)) && d >= 1
    ensures FindBlockEnd(S, j, d) == FindBlockEnd(S, j + |Flat(t)|, d)
    decreases t, 0
  {
    hide At, FlatBlock, FlatElse, KwText, ForArg;
    match t
    case Cmd(text) =>
      AtOne(S, j, Stmt(KNone, text, ""));
    case If(c, thn, rest) =>
      AtArm(S, j, Stmt(KIf, KwText("if", c), c), THEN, FlatBlock(thn), FlatElse(rest));
      BlockEndBlock(S, j + 2, thn, d + 1);
      BlockEndElse(S, j + 2 + |FlatBlock(thn)|, rest, d);
    case For(name, words, body) =>
      BlockEndLoop(S, j, Stmt(KFor, KwText("for", ForArg(name, words)), ForArg(name, words)), body, d);
    case While(c, body) =>
      BlockEndLoop(S, j, Stmt(KWhile, KwText("while", c), c), body, d);
  }

  lemma {:induction false} BlockEndLoop(S: seq<Stmt>, j: nat, s: Stmt, body: Block, d: nat)
    requires At(S, j, [s, DO] + FlatBlock(body) + [DONE]) && Opens(s) && d >= 1
    ensures FindBlockEnd(S, j, d) == FindBlockEnd(S, j + 3 + |FlatBlock(body)|, d)
    decreases body, 1
  {
    AtArm(S, j, s, DO, FlatBlock(body), [DONE]);
    BlockEndBlock(S, j + 2, body, d + 1);
    AtOne(S, j + 2 + |FlatBlock(body)|, DONE);
  }

  lemma {:induction false} BlockEndBlock(S: seq<Stmt>, j: nat, k: Block, d: nat)
    requires At(S, j, FlatBlock(k)) && d >= 1
    ensures FindBlockEnd(S, j, d) == FindBlockEnd(S, j + |FlatBlock(k)|, d)
    decreases k, 0
  {
    match k
    case Empty =>
    case Then(t, tl) =>
      AtSplit(S, j, Flat(t), FlatBlock(tl));
      BlockEndTree(S, j, t, d);
      BlockEndBlock(S, j + |Flat(t)|, tl, d);
  }

  lemma {:induction false} BlockEndElse(S: seq<Stmt>, j: nat, e: Else, d: nat)
    requires At(S, j, FlatElse(e)) && d >= 1
    ensures FindBlockEnd(S, j, d + 1) == FindBlockEnd(S, j + |FlatElse(e)|, d)
    decreases e, 1
  {
    match e
    case Fi =>
      AtOne(S, j, FI);
    case ElseFi(els) =>
      AtElse(S, j, FlatBlock(els));
      BlockEndBlock(S, j + 1, els, d + 1);
    case Elif(c, thn, rest) =>
      BlockEndElif(S, j, c, thn, rest, d);
  }

  lemma {:induction false} BlockEndElif(S: seq<Stmt>, j: nat, c: string, thn: Block, rest: Else, d: nat)
    requires At(S, j, FlatElse(Elif(c, thn, rest))) && d >= 1
    ensures FindBlockEnd(S, j, d + 1) == FindBlockEnd(S, j + |FlatElse(Elif(c, thn, rest))|, d)
    decreases Elif(c, thn, rest), 0
  {
    AtArm(S, j, Stmt(KElif, KwText("elif", c), c), THEN, FlatBlock(thn), FlatElse(rest));
    BlockEndBlock(S, j + 2, thn, d + 1);
    BlockEndElse(S, j + 2 + |FlatBlock(thn)|, rest, d);
  }

  // ----- The engine computes the meaning of the tree -------------------------

  lemma {:induction false} SimTree<E>(b: Behaviour<E>, S: seq<Stmt>, i: nat, t: Tree, run: bool, w: World<E>)
    requires WF(t) && At(S, i, Flat(t))
    ensures Exec(b, S, i, run, w) == (i + |Flat(t)|, if run then Mean(b, t, w) else w)
    decreases t, 1
  {
    hide At, SeqUntil, IfTail, FlatBlock, FlatElse, MeanBlock, MeanElse, WFBlock, WFElse, KwText;
    match t
    case Cmd(text) =>
      AtOne(S, i, Stmt(KNone, text, ""));
    case If(c, thn, rest) =>
      SimIf(b, S, i, c, thn, rest, run, w);
    case For(name, words, body) =>
      SimForTree(b, S, i, name, words, body, run, w);
    case While(c, body) =>
      AtArm(S, i, Stmt(KWhile, KwText("while", c), c), DO, FlatBlock(body), [DONE]);
      SimLoopEnd(S, i + 2, body);
      if run {
        SimWhile(b, S, c, i + 2, body, 0, w);
      }
  }

  lemma {:induction false} SimIf<E>(b: Behaviour<E>, S: seq<Stmt>, i: nat, c: string, thn: Block, rest: Else,
                                    run: bool, w: World<E>)
    requires WF(If(c, thn, rest)) && At(S, i, Flat(If(c, thn, rest)))
    ensures Exec(b, S, i, run, w)
         == (i + |Flat(If(c, thn, rest))|, if run then Mean(b, If(c, thn, rest), w) else w)
    decreases If(c, thn, rest), 0
  {
    hide At, SeqUntil, IfTail, FlatBlock, FlatElse, MeanBlock, MeanElse, WFBlock, WFElse, KwText;
    AtArm(S, i, Stmt(KIf, KwText("if", c), c), THEN, FlatBlock(thn), FlatElse(rest));
    var w1 := if run then Run1(b, c, w) else w;
    var cond := run && w1.status == 0;
    ElseHead(S, i + 2 + |FlatBlock(thn)|, rest);
    SimBlock(b, S, i + 2, thn, cond, w1);
    var (i2, w2) := SeqUntil(b, S, i + 2, cond, w1);
    SimElse(b, S, i2, rest, run, cond, w2);
  }

  // What follows the statements of an arm is always a terminator.
  lemma ElseHead(S: seq<Stmt>, i: nat, e: Else)
    requires At(S, i, FlatElse(e))
    ensures i < |S| && IsTerm(S[i])
  {
    assert S[i + 0] == FlatElse(e)[0];
  }

  lemma SimLoopEnd(S: seq<Stmt>, j: nat, body: Block)
    requires At(S, j, FlatBlock(body)) && At(S, j + |FlatBlock(body)|, [DONE])
    ensures FindBlockEnd(S, j, 1) == j + |FlatBlock(body)|
    ensures j + |FlatBlock(body)| < |S| && S[j + |FlatBlock(body)|] == DONE
  {
    AtOne(S, j + |FlatBlock(body)|, DONE);
    BlockEndBlock(S, j, body, 1);
  }

  lemma {:induction false} SimForTree<E>(b: Behaviour<E>, S: seq<Stmt>, i: nat, name: string, words: string,
                                         body: Block, run: bool, w: World<E>)
    requires WF(For(name, words, body)) && At(S, i, Flat(For(name, words, body)))
    ensures Exec(b, S, i, run, w)
         == (i + |Flat(For(name, words, body))|, if run then Mean(b, For(name, words, body), w) else w)
    decreases For(name, words, body), 0
  {
    hide At, SeqUntil, IfTail, FlatBlock, FlatElse, MeanBlock, MeanElse, WFBlock, KwText, ForArg,
         ParseFor, PlainArg, PlainName;
    AtArm(S, i, Stmt(KFor, KwText("for", ForArg(name, words)), ForArg(name, words)), DO, FlatBlock(body), [DONE]);
    SimLoopEnd(S, i + 2, body);
    ForHeader(name, words);
    if run {
      var (w0, ws) := Words(b, words, w);
      SimFor(b, S, name, i + 2, body, ws, w0);
    }
  }

  lemma {:induction false} SimElse<E>(b: Behaviour<E>, S: seq<Stmt>, i: nat, e: Else,
                                      run: bool, cond: bool, w: World<E>)
    requires WFElse(e) && At(S, i, FlatElse(e))
    ensures IfTail(b, S, i, run, cond, w) == (i + |FlatElse(e)|, if run && !cond then MeanElse(b, e, w) else w)
    decreases e, 1
  {
    hide At, Exec, SeqUntil, IfTail, Elifs, FlatBlock, MeanBlock, WFBlock, Run1;
    match e
    case Fi =>
      AtOne(S, i, FI);
      TailIsElse(b, S, i, run, cond, w);
    case ElseFi(els) =>
      AtElse(S, i, FlatBlock(els));
      TailIsElse(b, S, i, run, cond, w);
      SimBlock(b, S, i + 1, els, run && !cond, w);
    case Elif(c, thn, rest) =>
      SimElif(b, S, i, c, thn, rest, run, cond, w);
  }

  lemma TailIsElse<E>(b: Behaviour<E>, S: seq<Stmt>, i: nat, run: bool, cond: bool, w: World<E>)
    requires i < |S| && S[i].word != KElif
    ensures IfTail(b, S, i, run, cond, w) == ElsePart(b, S, i, run && !cond, w)
  {}

  lemma {:induction false} SimElif<E>(b: Behaviour<E>, S: seq<Stmt>, i: nat, c: string, thn: Block, rest: Else,
                                      run: bool, cond: bool, w: World<E>)
    requires WFElse(Elif(c, thn, rest)) && At(S, i, FlatElse(Elif(c, thn, rest)))
    ensures IfTail(b, S, i, run, cond, w)
         == (i + |FlatElse(Elif(c, thn, rest))|, if run && !cond then MeanElse(b, Elif(c, thn, rest), w) else w)
    decreases Elif(c, thn, rest), 0
  {
    hide At, Exec, SeqUntil, IfTail, Elifs, ElsePart, FlatBlock, MeanBlock, WFBlock;
    AtArm(S, i, Stmt(KElif, KwText("elif", c), c), THEN, FlatBlock(thn), FlatElse(rest));
    var w1 := if run && !cond then Run1(b, c, w) else w;
    var c2 := run && !cond && w1.status == 0;
    ElseHead(S, i + 2 + |FlatBlock(thn)|, rest);
    SimBlock(b, S, i + 2, thn, c2, w1);
    var (i2, w2) := SeqUntil(b, S, i + 2, c2, w1);
    SimElse(b, S, i2, rest, run, cond || c2, w2);
    ElifStep(b, S, i, run, cond, w);
  }

  lemma ElifStep<E>(b: Behaviour<E>, S: seq<Stmt>, i: nat, run: bool, cond: bool, w: World<E>)
    requires i + 1 < |S| && S[i].word == KElif && S[i + 1] == THEN
    ensures var w1 := if run && !cond then Run1(b, S[i].arg, w) else w;
            var c2 := run && !cond && w1.status == 0;
            var (i2, w2) := SeqUntil(b, S, i + 2, c2, w1);
            IfTail(b, S, i, run, cond, w) == IfTail(b, S, i2, run, cond || c2, w2)
  {}

  lemma TreeHead(S: seq<Stmt>, i: nat, t: Tree)
    requires At(S, i, Flat(t))
    ensures i < |S| && !IsTerm(S[i])
  {
    assert S[i + 0] == Flat(t)[0];
  }

  lemma {:induction false} SimBlock<E>(b: Behaviour<E>, S: seq<Stmt>, i: nat, k: Block, run: bool, w: World<E>)
    requires WFBlock(k) && At(S, i, FlatBlock(k))
    requires var e := i + |FlatBlock(k)|; e == |S| || IsTerm(S[e])
    ensures SeqUntil(b, S, i, run, w) == (i + |FlatBlock(k)|, if run then MeanBlock(b, k, w) else w)
    decreases k, 0
  {
    hide At, Exec, Mean, Flat, WF;
    match k
    case Empty =>
    case Then(t, tl) =>
      AtSplit(S, i, Flat(t), FlatBlock(tl));
      TreeHead(S, i, t);
      var go := run && w.ctl == NoCtl;
      SimTree(b, S, i, t, go, w);
      var w1 := if go then Mean(b, t, w) else w;
      SimBlock(b, S, i + |Flat(t)|, tl, run, w1);
      if run && !go {
        PendingBlock(b, tl, w);
      }
  }

  lemma PendingBlock<E>(b: Behaviour<E>, k: Block, w: World<E>)
    requires w.ctl != NoCtl
    ensures MeanBlock(b, k, w) == w
  {}

  lemma {:induction false} SimRange<E>(b: Behaviour<E>, S: seq<Stmt>, i: nat, k: Block, run: bool, w: World<E>)
    requires WFBlock(k) && At(S, i, FlatBlock(k))
    ensures RunRange(b, S, i, i + |FlatBlock(k)|, run, w)
         == (i + |FlatBlock(k)|, if run then MeanBlock(b, k, w) else w)
    decreases k, 0
  {
    hide At, Exec, Mean, Flat, WF;
    match k
    case Empty =>
    case Then(t, tl) =>
      AtSplit(S, i, Flat(t), FlatBlock(tl));
      var go := run && w.ctl == NoCtl;
      SimTree(b, S, i, t, go, w);
      var w1 := if go then Mean(b, t, w) else w;
      SimRange(b, S, i + |Flat(t)|, tl, run, w1);
      if run && !go {
        PendingBlock(b, tl, w);
      }
  }

  lemma {:induction false} SimFor<E>(b: Behaviour<E>, S: seq<Stmt>, name: string, i: nat, k: Block,
                                     ws: seq<string>, w: World<E>)
    requires WFBlock(k) && At(S, i, FlatBlock(k))
    ensures ForLoop(b, S, i, i + |FlatBlock(k)|, name, ws, w) == MeanFor(b, name, ws, k, w)
    decreases k, |ws| + 1
  {
    if ws != [] {
      var w0 := w.(env := b.assign(name, ws[0], w.env));
      SimRange(b, S, i, k, true, w0);
      var w1 := MeanBlock(b, k, w0);
      if w1.ctl != Break {
        SimFor(b, S, name, i, k, ws[1..], w1.(ctl := NoCtl));
      }
    }
  }

  lemma {:induction false} SimWhile<E>(b: Behaviour<E>, S: seq<Stmt>, c: string, i: nat, k: Block,
                                       done: nat, w: World<E>)
    requires WFBlock(k) && At(S, i, FlatBlock(k)) && PlainArg(c) && done <= WHILE_GUARD
    ensures WhileLoop(b, S, c, i, i + |FlatBlock(k)|, done, w) == MeanWhile(b, c, k, done, w)
    decreases k, WHILE_GUARD - done + 1
  {
    var w1 := b.exec(c, w);
    if w1.status == 0 {
      SimRange(b, S, i, k, true, w1);
      var w2 := MeanBlock(b, k, w1);
      if w2.ctl != Break && done < WHILE_GUARD {
        SimWhile(b, S, c, i, k, done + 1, w2.(ctl := NoCtl));
      }
    }
  }

  // ----- Keywords of flattened statements ------------------------------------

  lemma NoBlanks(s: string)
    requires s == [] || !IsBlank(s[0])
    ensures AfterBlanks(s) == s && AfterBlanks(" " + s) == s
  {
    var t := " " + s;
    assert s != [] ==> t[1] == s[0];
    assert SkipBlanks(t, 1) == 1 && t[1..] == s;
  }

  lemma KwArg(k: string, c: string)
    requires c == [] || !IsBlank(c[0])
    ensures HasKw(KwText(k, c), k) && AfterKw(KwText(k, c), k) == c
  {
    var s := KwText(k, c);
    assert s[|k|] == ' ';
    assert s[|k|..] == " " + c;
    NoBlanks(c);
  }

  lemma NameLenOf(name: string, tail: string, cap: nat)
    requires forall k | 0 <= k < |name| :: IsNameChar(name[k])
    requires |name| <= cap && (tail == [] || !IsNameChar(tail[0]))
    ensures NameLen(name + tail, cap) == |name|
  {
    assert forall k | 0 <= k < |name| :: (name + tail)[k] == name[k];
    assert tail != [] ==> (name + tail)[|name|] == tail[0];
  }

  lemma ForHeader(name: string, words: string)
    requires PlainName(name) && PlainArg(words)
    ensures ForArg(name, words)[0] == name[0]
    ensures ParseFor(ForArg(name, words)) == ForHead(name, words)
  {
    var inw := KwText("in", words);
    var r := ForArg(name, words);
    assert r == name + (" " + inw);
    NameLenOf(name, " " + inw, VAR_CAP - 1);
    assert r[|name|..] == " " + inw && r[..|name|] == name;
    assert inw[0] == 'i';
    NoBlanks(inw);
    KwArg("in", words);
  }

  ghost predicate IsWord(k: string) {
    forall i | 0 <= i < |k| :: !IsBlank(k[i])
  }

  // A statement starts with at most one keyword.
  lemma KwUnique(s: string, k: string, k': string)
    requires HasKw(s, k) && HasKw(s, k') && IsWord(k) && IsWord(k')
    ensures k == k'
  {
    assert forall i | 0 <= i < |k| :: s[i] == k[i];
    assert forall i | 0 <= i < |k'| :: s[i] == k'[i];
  }

  lemma KeysDiffer(w: Word, w': Word)
    requires Key(w) == Key(w')
    ensures w == w'
  {
    assert |Key(w)| == |Key(w')|;
    assert |Key(w)| > 1 ==> Key(w)[0] == Key(w')[0] && Key(w)[1] == Key(w')[1];
    assert |Key(w)| > 2 ==> Key(w)[2] == Key(w')[2];
  }

  lemma KeyIsWord(w: Word)
    ensures IsWord(Key(w))
  {}

  lemma {:induction false} LexInKey(s: string, ws: seq<Word>, w: Word)
    requires w in ws
    ensures HasKw(s, Key(w)) ==> LexIn(s, ws) == Stmt(w, s, AfterKw(s, Key(w)))
  {
    if ws[0] != w {
      assert w in ws[1..];
      if HasKw(s, Key(w)) && HasKw(s, Key(ws[0])) {
        KeyIsWord(w); KeyIsWord(ws[0]);
        KwUnique(s, Key(w), Key(ws[0]));
        KeysDiffer(w, ws[0]);
      }
      LexInKey(s, ws[1..], w);
    }
  }

  lemma {:induction false} LexInText(s: string, ws: seq<Word>)
    requires KNone !in ws
    ensures var t := LexIn(s, ws); t.text == s && (t.word != KNone ==> HasKw(s, Key(t.word)))
  {
    if ws != [] && !HasKw(s, Key(ws[0])) {
      LexInText(s, ws[1..]);
    }
  }

  // The keyword of a statement is the one it begins with.
  lemma LexKey(s: string, w: Word)
    requires w != KNone
    ensures HasKw(s, Key(w)) <==> Lex(s).word == w
    ensures HasKw(s, Key(w)) ==> Lex(s).arg == AfterKw(s, Key(w))
    ensures Lex(s).text == s
  {
    LexInKey(s, KEYWORDS, w);
    LexInText(s, KEYWORDS);
  }

  // Reading a statement back gives the keyword it was written with.
  lemma LexHead(k: string, c: string, w: Word)
    requires w != KNone && k == Key(w) && (c == [] || !IsBlank(c[0]))
    ensures Lex(KwText(k, c)) == Stmt(w, KwText(k, c), c)
  {
    KwArg(k, c);
    LexKey(KwText(k, c), w);
  }

  lemma LexBare(k: string, w: Word)
    requires w != KNone && k == Key(w)
    ensures Lex(k) == Stmt(w, k, "")
  {
    LexKey(k, w);
    assert AfterKw(k, k) == "";
  }

  lemma LexPlain(s: string)
    ensures Lex(s).word == KNone ==> Lex(s) == Stmt(KNone, s, "")
  {
    LexInPlain(s, KEYWORDS);
  }

  lemma {:induction false} LexInPlain(s: string, ws: seq<Word>)
    requires KNone !in ws
    ensures LexIn(s, ws).word == KNone ==> LexIn(s, ws) == Stmt(KNone, s, "")
  {
    if ws != [] && !HasKw(s, Key(ws[0])) {
      LexInPlain(s, ws[1..]);
    }
  }

  ghost predicate Lexed(L: seq<Stmt>) {
    forall i | 0 <= i < |L| :: L[i] == Lex(L[i].text)
  }

  lemma LexedCat(A: seq<Stmt>, B: seq<Stmt>)
    requires Lexed(A) && Lexed(B)
    ensures Lexed(A + B)
  {}

  lemma LexedArm(s: Stmt, k: Stmt, A: seq<Stmt>, B: seq<Stmt>)
    requires Lexed([s]) && Lexed([k]) && Lexed(A) && Lexed(B)
    ensures Lexed([s, k] + A + B)
  {
    assert [s, k] == [s] + [k];
    LexedCat([s], [k]); LexedCat([s, k], A); LexedCat([s, k] + A, B);
  }

  lemma LexedOne(s: Stmt)
    requires s == Lex(s.text)
    ensures Lexed([s])
  {}

  lemma {:induction false} LexTree(t: Tree)
    requires WF(t)
    ensures Lexed(Flat(t))
    decreases t
  {
    hide Lex, Lexed, FlatBlock, FlatElse, KwText, ForArg, WFBlock, WFElse;
    LexKeywords();
    match t
    case Cmd(text) => LexPlain(text); LexedOne(Stmt(KNone, text, ""));
    case If(c, thn, rest) =>
      LexHead("if", c, KIf); LexBlock(thn); LexElse(rest);
      var s := Stmt(KIf, KwText("if", c), c);
      LexedOne(s);
      LexedArm(s, THEN, FlatBlock(thn), FlatElse(rest));
    case For(name, words, body) =>
      ForHeader(name, words);
      LexHead("for", ForArg(name, words), KFor); LexBlock(body);
      var s := Stmt(KFor, KwText("for", ForArg(name, words)), ForArg(name, words));
      LexedOne(s);
      LexedArm(s, DO, FlatBlock(body), [DONE]);
    case While(c, body) =>
      LexHead("while", c, KWhile); LexBlock(body);
      var s := Stmt(KWhile, KwText("while", c), c);
      LexedOne(s);
      LexedArm(s, DO, FlatBlock(body), [DONE]);
  }

  // The statements without an argument.
  lemma LexKeywords()
    ensures Lexed([THEN]) && Lexed([DO]) && Lexed([DONE]) && Lexed([FI]) && Lexed([ELSE])
  {
    LexBare("then", KThen); LexBare("do", KDo); LexBare("done", KDone); LexBare("fi", KFi); LexBare("else", KElse);
    hide Lex, Lexed;
    LexedOne(THEN); LexedOne(DO); LexedOne(DONE); LexedOne(FI); LexedOne(ELSE);
  }

  lemma {:induction false} LexBlock(k: Block)
    requires WFBlock(k)
    ensures Lexed(FlatBlock(k))
    decreases k
  {
    match k
    case Empty =>
    case Then(t, tl) => LexTree(t); LexBlock(tl); LexedCat(Flat(t), FlatBlock(tl));
  }

  lemma {:induction false} LexElse(e: Else)
    requires WFElse(e)
    ensures Lexed(FlatElse(e))
    decreases e
  {
    hide Lex, Lexed, FlatBlock, KwText, WFBlock;
    LexKeywords();
    match e
    case Fi =>
    case ElseFi(els) =>
      LexBlock(els);
      LexedCat([ELSE], FlatBlock(els)); LexedCat([ELSE] + FlatBlock(els), [FI]);
    case Elif(c, thn, rest) =>
      LexHead("elif", c, KElif); LexBlock(thn); LexElse(rest);
      LexedOne(Stmt(KElif, KwText("elif", c), c));
      LexedArm(Stmt(KElif, KwText("elif", c), c), THEN, FlatBlock(thn), FlatElse(rest));
  }

  function Texts(L: seq<Stmt>): (S: seq<string>)
    ensures |S| == |L| && forall i | 0 <= i < |L| :: S[i] == L[i].text
  {
    seq(|L|, i requires 0 <= i < |L| => L[i].text)
  }

  // ----- Whole scripts -------------------------------------------------------

  // The trees of a script one after the other, with no gating between them.
  function MeanTop<E>(b: Behaviour<E>, k: Block, w: World<E>): World<E> {
    match k
    case Empty => w.(ctl := NoCtl)
    case Then(t, tl) => MeanTop(b, tl, Mean(b, t, w))
  }

  lemma {:induction false} SimScript<E>(b: Behaviour<E>, S: seq<Stmt>, i: nat, k: Block, w: World<E>)
    requires WFBlock(k) && At(S, i, FlatBlock(k)) && i + |FlatBlock(k)| == |S|
    ensures Script(b, S, i, w) == MeanTop(b, k, w)
    decreases k
  {
    hide At, Exec, Mean, Flat, WF;
    match k
    case Empty =>
    case Then(t, tl) =>
      AtSplit(S, i, Flat(t), FlatBlock(tl));
      SimTree(b, S, i, t, true, w);
      SimScript(b, S, i + |Flat(t)|, tl, Mean(b, t, w));
  }

  // The statement texts of a well-formed script mean what its tree means.
  lemma ScriptMeansTree<E>(b: Behaviour<E>, k: Block, w: World<E>)
    requires WFBlock(k)
    ensures Script(b, LexAll(Texts(FlatBlock(k))), 0, w) == MeanTop(b, k, w)
  {
    LexBlock(k);
    assert LexAll(Texts(FlatBlock(k))) == FlatBlock(k);
    SimScript(b, FlatBlock(k), 0, k, w);
  }
}
