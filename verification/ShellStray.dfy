// A script is not quite a block: run_script (apps/system/shell_core/shell_cmds.c)
// does not test for a pending break or continue between its trees, a block does.
// Where the two differ, exactly, for a run and for all runs of a script.

module ShellStray {
  import opened ShellControl

  // ----- One run ---------------------------------------------------------------------

  // Each tree of the run but the last leaves nothing pending.
  predicate CleanRun<E>(b: Behaviour<E>, k: Block, w: World<E>)
    decreases k
  {
    match k
    case Empty => true
    case Then(t, tl) =>
      var w1 := Mean(b, t, w);
      tl == Empty || (w1.ctl == NoCtl && CleanRun(b, tl, w1))
  }

  // Such a run does what the block does.
  lemma {:induction false} TopIsBlock<E>(b: Behaviour<E>, k: Block, w: World<E>)
    requires w.ctl == NoCtl && CleanRun(b, k, w)
    ensures MeanTop(b, k, w) == MeanBlock(b, k, w).(ctl := NoCtl)
    decreases k
  {
    hide Mean;
    match k
    case Empty =>
    case Then(t, tl) =>
      if tl != Empty { TopIsBlock(b, tl, Mean(b, t, w)); }
  }

  // ----- Trees that can leave a break pending ------------------------------------------

  // `may` holds of the texts that may start a break or continue. A loop consumes what
  // its body leaves pending, but not what its condition or its words do.
  predicate Strays(may: string -> bool, t: Tree) {
    match t
    case Cmd(text) => may(text)
    case If(c, thn, rest) => may(c) || StraysBlock(may, thn) || StraysElse(may, rest)
    case For(name, words, body) => may(words)
    case While(c, body) => may(c)
  }

  predicate StraysBlock(may: string -> bool, k: Block) {
    match k
    case Empty => false
    case Then(t, tl) => Strays(may, t) || StraysBlock(may, tl)
  }

  predicate StraysElse(may: string -> bool, e: Else) {
    match e
    case Fi => false
    case ElseFi(els) => StraysBlock(may, els)
    case Elif(c, thn, rest) => may(c) || StraysBlock(may, thn) || StraysElse(may, rest)
  }

  // A tree that another one follows strays.
  predicate StraysAtTop(may: string -> bool, k: Block) {
    match k
    case Empty => false
    case Then(t, tl) => tl != Empty && (Strays(may, t) || StraysAtTop(may, tl))
  }

  // No text but those of `may` starts a break or continue.
  ghost predicate Respects<E(!new)>(b: Behaviour<E>, may: string -> bool) {
    forall s, w: World<E> :: w.ctl == NoCtl && !may(s) ==> ExecQuiet(b, s, w) && ExpandQuiet(b, s, w)
  }

  predicate ExecQuiet<E>(b: Behaviour<E>, s: string, w: World<E>) { b.exec(s, w).ctl == NoCtl }
  predicate ExpandQuiet<E>(b: Behaviour<E>, s: string, w: World<E>) { b.expand(s, w).0.ctl == NoCtl }

  // A for loop consumes whatever its body leaves pending, and so does a while loop.
  lemma {:induction false} ForConsumes<E>(b: Behaviour<E>, name: string, ws: seq<string>, k: Block, w: World<E>)
    requires w.ctl == NoCtl || ws != []
    ensures MeanFor(b, name, ws, k, w).ctl == NoCtl
    decreases |ws|
  {
    if ws != [] {
      var w1 := MeanBlock(b, k, w.(env := b.assign(name, ws[0], w.env)));
      if w1.ctl != Break {
        ForConsumes(b, name, ws[1..], k, w1.(ctl := NoCtl));
      }
    }
  }

  lemma {:induction false} WhileConsumes<E(!new)>(b: Behaviour<E>, may: string -> bool, c: string, k: Block,
                                                  done: nat, w: World<E>)
    requires w.ctl == NoCtl && done <= WHILE_GUARD && Respects(b, may) && !may(c)
    ensures MeanWhile(b, c, k, done, w).ctl == NoCtl
    decreases WHILE_GUARD - done
  {
    assert ExecQuiet(b, c, w);
    var w1 := b.exec(c, w);
    if w1.status == 0 {
      var w2 := MeanBlock(b, k, w1);
      if w2.ctl != Break && done < WHILE_GUARD {
        WhileConsumes(b, may, c, k, done + 1, w2.(ctl := NoCtl));
      }
    }
  }

  // A tree that does not stray leaves nothing pending.
  lemma {:induction false} QuietTree<E(!new)>(b: Behaviour<E>, may: string -> bool, t: Tree, w: World<E>)
    requires Respects(b, may) && !Strays(may, t) && w.ctl == NoCtl
    ensures Mean(b, t, w).ctl == NoCtl
    decreases t
  {
    match t
    case Cmd(text) => assert ExecQuiet(b, text, w);
    case If(c, thn, rest) =>
      assert ExecQuiet(b, c, w);
      var w1 := b.exec(c, w);
      if w1.status == 0 { QuietBlock(b, may, thn, w1); } else { QuietElse(b, may, rest, w1); }
    case For(name, words, body) =>
      assert ExpandQuiet(b, words, w);
      var (w0, ws) := Words(b, words, w);
      ForConsumes(b, name, ws, body, w0);
    case While(c, body) => WhileConsumes(b, may, c, body, 0, w);
  }

  lemma {:induction false} QuietBlock<E(!new)>(b: Behaviour<E>, may: string -> bool, k: Block, w: World<E>)
    requires Respects(b, may) && !StraysBlock(may, k) && w.ctl == NoCtl
    ensures MeanBlock(b, k, w).ctl == NoCtl
    decreases k
  {
    match k
    case Empty =>
    case Then(t, tl) => QuietTree(b, may, t, w); QuietBlock(b, may, tl, Mean(b, t, w));
  }

  lemma {:induction false} QuietElse<E(!new)>(b: Behaviour<E>, may: string -> bool, e: Else, w: World<E>)
    requires Respects(b, may) && !StraysElse(may, e) && w.ctl == NoCtl
    ensures MeanElse(b, e, w).ctl == NoCtl
    decreases e
  {
    match e
    case Fi =>
    case ElseFi(els) => QuietBlock(b, may, els, w);
    case Elif(c, thn, rest) =>
      assert ExecQuiet(b, c, w);
      var w1 := b.exec(c, w);
      if w1.status == 0 { QuietBlock(b, may, thn, w1); } else { QuietElse(b, may, rest, w1); }
  }

  lemma {:induction false} QuietIsClean<E(!new)>(b: Behaviour<E>, may: string -> bool, k: Block, w: World<E>)
    requires Respects(b, may) && !StraysAtTop(may, k) && w.ctl == NoCtl
    ensures CleanRun(b, k, w)
    decreases k
  {
    match k
    case Empty =>
    case Then(t, tl) =>
      if tl != Empty {
        QuietTree(b, may, t, w);
        QuietIsClean(b, may, tl, Mean(b, t, w));
      }
  }

  // ----- A behaviour that tells them apart -----------------------------------------------

  // What one statement or one word list is to do: its status, and whether it breaks.
  datatype Step = Step(status: int, breaks: bool)

  const FAIL := Step(1, false)

  // The state is a plan: each statement and each word list takes the next step of it.
  // Only the texts of `may` break.
  function Take(may: string -> bool, s: string, w: World<seq<Step>>): World<seq<Step>> {
    if w.env == [] then w.(status := 1)
    else World(w.env[1..], w.env[0].status, if w.env[0].breaks && may(s) then Break else w.ctl)
  }

  function Planned(may: string -> bool): Behaviour<seq<Step>> {
    Behaviour((s, w) => Take(may, s, w), (s, w) => (Take(may, s, w), []), (name, value, env) => env)
  }

  lemma PlannedRespects(may: string -> bool)
    ensures Respects(Planned(may), may)
  {}

  // The plan under which each statement of a tree fails.
  function Fails(t: Tree): seq<Step> {
    match t
    case If(c, thn, rest) => [FAIL] + FailsElse(rest)
    case _ => [FAIL]
  }

  function FailsBlock(k: Block): seq<Step> {
    match k
    case Empty => []
    case Then(t, tl) => Fails(t) + FailsBlock(tl)
  }

  function FailsElse(e: Else): seq<Step> {
    match e
    case Fi => []
    case ElseFi(els) => FailsBlock(els)
    case Elif(c, thn, rest) => [FAIL] + FailsElse(rest)
  }

  // The plan that leads to a text that breaks, for a tree that strays.
  function Leads(may: string -> bool, t: Tree): seq<Step> {
    match t
    case Cmd(text) => [Step(0, true)]
    case If(c, thn, rest) => LeadsArm(may(c), StraysBlock(may, thn), LeadsBlock(may, thn), LeadsElse(may, rest))
    case _ => [Step(1, true)]
  }

  function LeadsArm(here: bool, inside: bool, thn: seq<Step>, rest: seq<Step>): seq<Step> {
    if here then [Step(0, true)] else if inside then [Step(0, false)] + thn else [FAIL] + rest
  }

  function LeadsBlock(may: string -> bool, k: Block): seq<Step> {
    match k
    case Empty => []
    case Then(t, tl) => if Strays(may, t) then Leads(may, t) else Fails(t) + LeadsBlock(may, tl)
  }

  function LeadsElse(may: string -> bool, e: Else): seq<Step> {
    match e
    case Fi => []
    case ElseFi(els) => LeadsBlock(may, els)
    case Elif(c, thn, rest) => LeadsArm(may(c), StraysBlock(may, thn), LeadsBlock(may, thn), LeadsElse(may, rest))
  }

  lemma TakeNext(may: string -> bool, s: string, w: World<seq<Step>>, step: Step, rest: seq<Step>)
    requires w.env == [step] + rest && w.ctl == NoCtl
    ensures Take(may, s, w) == World(rest, step.status, if step.breaks && may(s) then Break else NoCtl)
  {
    assert w.env[1..] == rest && w.env[0] == step;
  }

  lemma TakeTwo(may: string -> bool, s: string, w: World<seq<Step>>, step: Step, a: seq<Step>, rest: seq<Step>)
    requires w.env == ([step] + a) + rest && w.ctl == NoCtl
    ensures Take(may, s, w) == World(a + rest, step.status, if step.breaks && may(s) then Break else NoCtl)
  {
    assert ([step] + a) + rest == [step] + (a + rest);
    TakeNext(may, s, w, step, a + rest);
  }

  lemma Assoc(w: World<seq<Step>>, a: seq<Step>, b: seq<Step>, c: seq<Step>)
    requires w.env == (a + b) + c
    ensures w.env == a + (b + c)
  {}

  // The tree took its part of the plan, and leaves `ctl` pending.
  predicate Took(w: World<seq<Step>>, rest: seq<Step>, ctl: Ctl) { w.env == rest && w.ctl == ctl }

  lemma {:induction false} FailsRun(may: string -> bool, t: Tree, w: World<seq<Step>>, rest: seq<Step>)
    requires Took(w, Fails(t) + rest, NoCtl)
    ensures Took(Mean(Planned(may), t, w), rest, NoCtl)
    decreases t
  {
    match t
    case Cmd(text) => TakeNext(may, text, w, FAIL, rest);
    case If(c, thn, els) =>
      TakeTwo(may, c, w, FAIL, FailsElse(els), rest);
      FailsElseRun(may, els, Take(may, c, w), rest);
    case For(name, words, body) => TakeNext(may, words, w, FAIL, rest);
    case While(c, body) => TakeNext(may, c, w, FAIL, rest);
  }

  lemma {:induction false} FailsBlockRun(may: string -> bool, k: Block, w: World<seq<Step>>, rest: seq<Step>)
    requires Took(w, FailsBlock(k) + rest, NoCtl)
    ensures Took(MeanBlock(Planned(may), k, w), rest, NoCtl)
    decreases k
  {
    match k
    case Empty => assert [] + rest == rest;
    case Then(t, tl) =>
      Assoc(w, Fails(t), FailsBlock(tl), rest);
      FailsRun(may, t, w, FailsBlock(tl) + rest);
      FailsBlockRun(may, tl, Mean(Planned(may), t, w), rest);
  }

  lemma {:induction false} FailsElseRun(may: string -> bool, e: Else, w: World<seq<Step>>, rest: seq<Step>)
    requires Took(w, FailsElse(e) + rest, NoCtl)
    ensures Took(MeanElse(Planned(may), e, w), rest, NoCtl)
    decreases e
  {
    match e
    case Fi => assert [] + rest == rest;
    case ElseFi(els) => FailsBlockRun(may, els, w, rest);
    case Elif(c, thn, els) =>
      TakeTwo(may, c, w, FAIL, FailsElse(els), rest);
      FailsElseRun(may, els, Take(may, c, w), rest);
  }

  // The first step of an if or elif: it breaks, or picks the arm that strays.
  lemma ArmStarts(may: string -> bool, c: string, thn: Block, els: Else, w: World<seq<Step>>, rest: seq<Step>)
    requires Took(w, LeadsArm(may(c), StraysBlock(may, thn), LeadsBlock(may, thn), LeadsElse(may, els)) + rest, NoCtl)
    ensures var w1 := Take(may, c, w);
      if may(c) then w1.status == 0 && Took(w1, rest, Break)
      else if StraysBlock(may, thn) then w1.status == 0 && Took(w1, LeadsBlock(may, thn) + rest, NoCtl)
      else w1.status == 1 && Took(w1, LeadsElse(may, els) + rest, NoCtl)
  {
    hide LeadsBlock, LeadsElse, Take, StraysBlock;
    if may(c) { TakeNext(may, c, w, Step(0, true), rest); }
    else if StraysBlock(may, thn) { TakeTwo(may, c, w, Step(0, false), LeadsBlock(may, thn), rest); }
    else { TakeTwo(may, c, w, FAIL, LeadsElse(may, els), rest); }
  }

  lemma {:induction false} LeadsRun(may: string -> bool, t: Tree, w: World<seq<Step>>, rest: seq<Step>)
    requires Strays(may, t) && Took(w, Leads(may, t) + rest, NoCtl)
    ensures Took(Mean(Planned(may), t, w), rest, Break)
    decreases t
  {
    match t
    case Cmd(text) => TakeNext(may, text, w, Step(0, true), rest);
    case If(c, thn, els) =>
      ArmStarts(may, c, thn, els, w, rest);
      var w1 := Take(may, c, w);
      if may(c) { PendingBlock(Planned(may), thn, w1); }
      else if StraysBlock(may, thn) { LeadsBlockRun(may, thn, w1, rest); }
      else { LeadsElseRun(may, els, w1, rest); }
    case For(name, words, body) => TakeNext(may, words, w, Step(1, true), rest);
    case While(c, body) => TakeNext(may, c, w, Step(1, true), rest);
  }

  lemma {:induction false} LeadsBlockRun(may: string -> bool, k: Block, w: World<seq<Step>>, rest: seq<Step>)
    requires StraysBlock(may, k) && Took(w, LeadsBlock(may, k) + rest, NoCtl)
    ensures Took(MeanBlock(Planned(may), k, w), rest, Break)
    decreases k
  {
    var t, tl := k.head, k.tail;
    if Strays(may, t) {
      LeadsRun(may, t, w, rest);
      PendingBlock(Planned(may), tl, Mean(Planned(may), t, w));
    } else {
      Assoc(w, Fails(t), LeadsBlock(may, tl), rest);
      FailsRun(may, t, w, LeadsBlock(may, tl) + rest);
      LeadsBlockRun(may, tl, Mean(Planned(may), t, w), rest);
    }
  }

  lemma {:induction false} LeadsElseRun(may: string -> bool, e: Else, w: World<seq<Step>>, rest: seq<Step>)
    requires StraysElse(may, e) && Took(w, LeadsElse(may, e) + rest, NoCtl)
    ensures Took(MeanElse(Planned(may), e, w), rest, Break)
    decreases e
  {
    match e
    case ElseFi(els) => LeadsBlockRun(may, els, w, rest);
    case Elif(c, thn, els) =>
      ArmStarts(may, c, thn, els, w, rest);
      var w1 := Take(may, c, w);
      if may(c) { PendingBlock(Planned(may), thn, w1); }
      else if StraysBlock(may, thn) { LeadsBlockRun(may, thn, w1, rest); }
      else { LeadsElseRun(may, els, w1, rest); }
  }

  // ----- The plan only gets shorter --------------------------------------------------------

  predicate NoLonger(w: World<seq<Step>>, w': World<seq<Step>>) { |w'.env| <= |w.env| }

  predicate Shorter(w: World<seq<Step>>, w': World<seq<Step>>) {
    NoLonger(w, w') && (w.env != [] ==> |w'.env| < |w.env|)
  }

  // Each tree takes at least one step.
  lemma {:induction false} TreeTakes(may: string -> bool, t: Tree, w: World<seq<Step>>)
    ensures Shorter(w, Mean(Planned(may), t, w))
    decreases t, 0
  {
    match t
    case Cmd(text) =>
    case If(c, thn, rest) =>
      var w1 := Take(may, c, w);
      if w1.status == 0 { BlockTakes(may, thn, w1); } else { ElseTakes(may, rest, w1); }
    case For(name, words, body) =>
    case While(c, body) => WhileTakes(may, c, body, 0, w);
  }

  lemma {:induction false} BlockTakes(may: string -> bool, k: Block, w: World<seq<Step>>)
    ensures NoLonger(w, MeanBlock(Planned(may), k, w))
    decreases k, 0
  {
    match k
    case Empty =>
    case Then(t, tl) => TreeTakes(may, t, w); BlockTakes(may, tl, Mean(Planned(may), t, w));
  }

  lemma {:induction false} ElseTakes(may: string -> bool, e: Else, w: World<seq<Step>>)
    ensures NoLonger(w, MeanElse(Planned(may), e, w))
    decreases e, 0
  {
    match e
    case Fi =>
    case ElseFi(els) => BlockTakes(may, els, w);
    case Elif(c, thn, rest) =>
      var w1 := Take(may, c, w);
      if w1.status == 0 { BlockTakes(may, thn, w1); } else { ElseTakes(may, rest, w1); }
  }

  lemma {:induction false} WhileTakes(may: string -> bool, c: string, k: Block, done: nat, w: World<seq<Step>>)
    requires done <= WHILE_GUARD
    ensures Shorter(w, MeanWhile(Planned(may), c, k, done, w))
    decreases k, WHILE_GUARD - done + 1
  {
    var w1 := Take(may, c, w);
    if w1.status == 0 {
      BlockTakes(may, k, w1);
      var w2 := MeanBlock(Planned(may), k, w1);
      if w2.ctl != Break && done < WHILE_GUARD {
        WhileTakes(may, c, k, done + 1, w2.(ctl := NoCtl));
      }
    }
  }

  lemma {:induction false} TopTakes(may: string -> bool, k: Block, w: World<seq<Step>>)
    ensures NoLonger(w, MeanTop(Planned(may), k, w))
    ensures k != Empty ==> Shorter(w, MeanTop(Planned(may), k, w))
    decreases k
  {
    match k
    case Empty =>
    case Then(t, tl) => TreeTakes(may, t, w); TopTakes(may, tl, Mean(Planned(may), t, w));
  }

  // ----- All runs ------------------------------------------------------------------------------

  // The plan that breaks in the first tree that strays, and fails once more behind it.
  function Plan(may: string -> bool, k: Block): seq<Step> {
    match k
    case Empty => []
    case Then(t, tl) => if Strays(may, t) then Leads(may, t) + [FAIL] else Fails(t) + Plan(may, tl)
  }

  // Under it a block stops at the break and leaves a step, and the script takes that too.
  lemma {:induction false} StrayDiffers(may: string -> bool, k: Block, w: World<seq<Step>>)
    requires StraysAtTop(may, k) && Took(w, Plan(may, k), NoCtl)
    ensures MeanBlock(Planned(may), k, w).env == [FAIL]
    ensures MeanTop(Planned(may), k, w).env == []
    decreases k
  {
    hide Mean;
    var t, tl := k.head, k.tail;
    var w1 := Mean(Planned(may), t, w);
    if Strays(may, t) {
      LeadsRun(may, t, w, [FAIL]);
      PendingBlock(Planned(may), tl, w1);
      TopTakes(may, tl, w1);
    } else {
      FailsRun(may, t, w, Plan(may, tl));
      StrayDiffers(may, tl, w1);
    }
  }

  // One run of the script ends as a run of the block does.
  ghost predicate Agree<E>(b: Behaviour<E>, k: Block, w: World<E>) {
    MeanTop(b, k, w) == MeanBlock(b, k, w).(ctl := NoCtl)
  }

  // Whatever the statements do: the script is a block if no tree but the last strays.
  lemma AgreeUnlessStray<E(!new)>(b: Behaviour<E>, may: string -> bool, k: Block, w: World<E>)
    requires Respects(b, may) && !StraysAtTop(may, k) && w.ctl == NoCtl
    ensures Agree(b, k, w)
  {
    QuietIsClean(b, may, k, w);
    TopIsBlock(b, k, w);
  }

  // And only then: a script is a block in all its runs, whatever its statements do as
  // long as only texts of `may` break, if and only if no tree but the last strays.
  lemma AgreeExactly(may: string -> bool, k: Block)
    ensures !StraysAtTop(may, k) <==>
      forall b: Behaviour<seq<Step>>, w: World<seq<Step>> | Respects(b, may) && w.ctl == NoCtl :: Agree(b, k, w)
  {
    if StraysAtTop(may, k) {
      var w := World(Plan(may, k), 0, NoCtl);
      PlannedRespects(may);
      StrayDiffers(may, k, w);
      assert !Agree(Planned(may), k, w);
    } else {
      forall b: Behaviour<seq<Step>>, w: World<seq<Step>> | Respects(b, may) && w.ctl == NoCtl
        ensures Agree(b, k, w)
      {
        AgreeUnlessStray(b, may, k, w);
      }
    }
  }

  // ----- The smallest script that differs --------------------------------------------------------

  // `break` breaks, and every other statement counts.
  function Counting(): Behaviour<int> {
    Behaviour(
      (s: string, w: World<int>) => if s == "break" then World(w.env, 0, Break) else World(w.env + 1, 0, w.ctl),
      (s, w) => (w, []), (name, value, env) => env)
  }

  lemma KeyStart(s: string)
    ensures var w := Lex(s).word; w != KNone ==> |s| >= 2 && s[..2] == Key(w)[..2]
  {
    var w := Lex(s).word;
    if w != KNone { LexKey(s, w); }
  }

  lemma PlainStart(s: string)
    requires 2 <= |s| < STMT_CAP && (s[..2] == "br" || s[..2] == "ec")
    ensures PlainCmd(s)
  {
    hide Lex;
    KeyStart(s);
    if Lex(s).word != KNone { KeyTwo(Lex(s).word); }
  }

  lemma KeyTwo(w: Word)
    requires w != KNone
    ensures |Key(w)| >= 2 && Key(w)[..2] != "br" && Key(w)[..2] != "ec"
  {
    assert Key(w)[..2][1] == Key(w)[1] && Key(w)[..2][0] == Key(w)[0];
  }

  // The command behind a break at the top runs; in a block it would not.
  lemma BreakThenEcho()
    ensures var k := Then(Cmd("break"), Then(Cmd("echo x"), Empty));
      && Script(Counting(), LexAll(Texts(FlatBlock(k))), 0, World(0, 0, NoCtl)) == World(1, 0, NoCtl)
      && MeanBlock(Counting(), k, World(0, 0, NoCtl)) == World(0, 0, Break)
  {
    hide Lex, PlainCmd, Script;
    PlainStart("break");
    PlainStart("echo x");
    var w := World(0, 0, NoCtl);
    var echo := Then(Cmd("echo x"), Empty);
    ScriptMeansTree(Counting(), Then(Cmd("break"), echo), w);
    PendingBlock(Counting(), echo, World(0, 0, Break));
  }
}
