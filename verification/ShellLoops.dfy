// What the loops of the shell do pass by pass (apps/system/shell_core/shell_cmds.c):
// the states a for loop and a while loop go through, from the texts of the script.

module ShellLoops {
  import opened Chars
  import opened ShellControl

  // The state a pass starts from: the variable holds its word.
  function Bound<E>(b: Behaviour<E>, name: string, word: string, w: World<E>): World<E> {
    World(b.assign(name, word, w.env), w.status, w.ctl)
  }

  // The states of a for loop: the k-th pass runs the body with the k-th word, and
  // what it leaves pending is gone when the next one starts.
  ghost predicate ForPasses<E>(b: Behaviour<E>, name: string, ws: seq<string>, body: Block, ts: seq<World<E>>) {
    && 1 <= |ts| <= |ws| + 1
    && forall k | 0 <= k < |ts| - 1 ::
         ts[k + 1] == MeanBlock(b, body, Bound(b, name, ws[k], ts[k])).(ctl := NoCtl)
  }

  // The pass that starts from `w` with this word ends in a break.
  predicate Breaks<E>(b: Behaviour<E>, name: string, word: string, body: Block, w: World<E>) {
    MeanBlock(b, body, Bound(b, name, word, w)).ctl == Break
  }

  // No pass but the last breaks, and if the last one does not, all words are used.
  ghost predicate ForEnds<E>(b: Behaviour<E>, name: string, ws: seq<string>, body: Block, ts: seq<World<E>>)
    requires 1 <= |ts| <= |ws| + 1
  {
    var n := |ts| - 1;
    && (forall k | 0 <= k < n - 1 :: !Breaks(b, name, ws[k], body, ts[k]))
    && (n == |ws| || (n > 0 && Breaks(b, name, ws[n - 1], body, ts[n - 1])))
  }

  lemma {:induction false} ForTrace<E>(b: Behaviour<E>, name: string, ws: seq<string>, body: Block, w: World<E>)
    returns (ts: seq<World<E>>)
    ensures ForPasses(b, name, ws, body, ts) && ForEnds(b, name, ws, body, ts)
    ensures ts[0] == w && MeanFor(b, name, ws, body, w) == ts[|ts| - 1]
    decreases |ws|
  {
    if ws == [] {
      ts := [w];
    } else {
      var w1 := MeanBlock(b, body, Bound(b, name, ws[0], w));
      if w1.ctl == Break {
        ts := [w, w1.(ctl := NoCtl)];
      } else {
        var rest := ForTrace(b, name, ws[1..], body, w1.(ctl := NoCtl));
        ts := [w] + rest;
        forall k | 0 <= k < |ts| - 1
          ensures ts[k + 1] == MeanBlock(b, body, Bound(b, name, ws[k], ts[k])).(ctl := NoCtl)
        {
          if k > 0 { assert ts[k] == rest[k - 1] && ts[k + 1] == rest[k] && ws[k] == ws[1..][k - 1]; }
        }
        forall k | 0 <= k < |ts| - 2 ensures !Breaks(b, name, ws[k], body, ts[k]) {
          if k > 0 { assert ts[k] == rest[k - 1] && ws[k] == ws[1..][k - 1]; }
        }
        var n := |rest| - 1;
        assert n > 0 ==> ts[n] == rest[n - 1] && ws[n] == ws[1..][n - 1];
      }
    }
  }

  // A for loop, run from its statements: with the words its list expands to, the
  // first 32 of them, one pass for each, in order, up to a break.
  lemma ForInOrder<E>(b: Behaviour<E>, name: string, words: string, body: Block, w: World<E>,
                      w0: World<E>, ws: seq<string>) returns (ts: seq<World<E>>)
    requires WF(For(name, words, body)) && b.expand(words, w) == (w0, ws)
    ensures var used := if |ws| <= 32 then ws else ws[..32];
      ForPasses(b, name, used, body, ts) && ForEnds(b, name, used, body, ts)
    ensures ts[0] == w0
    ensures var k := Then(For(name, words, body), Empty);
      Script(b, LexAll(Texts(FlatBlock(k))), 0, w) == ts[|ts| - 1].(ctl := NoCtl)
  {
    hide Script, LexAll, Texts, ForPasses, ForEnds, MeanFor;
    ts := ForTrace(b, name, if |ws| <= 32 then ws else ws[..32], body, w0);
    var tree := For(name, words, body);
    ScriptMeansTree(b, Then(tree, Empty), w);
    assert MeanTop(b, Empty, Mean(b, tree, w)) == Mean(b, tree, w).(ctl := NoCtl);
  }

  // The states before each test of a while loop: the condition succeeds, and the body
  // runs from what it leaves.
  ghost predicate WhilePasses<E>(b: Behaviour<E>, c: string, body: Block, ts: seq<World<E>>) {
    && |ts| >= 1
    && forall k | 0 <= k < |ts| - 1 ::
         && b.exec(c, ts[k]).status == 0
         && ts[k + 1] == MeanBlock(b, body, b.exec(c, ts[k])).(ctl := NoCtl)
  }

  lemma {:induction false} WhileTrace<E>(b: Behaviour<E>, c: string, body: Block, done: nat, w: World<E>)
    returns (ts: seq<World<E>>)
    requires done <= WHILE_GUARD
    ensures WhilePasses(b, c, body, ts) && ts[0] == w && |ts| <= WHILE_GUARD + 2 - done
    ensures var n := |ts| - 1; var end := MeanWhile(b, c, body, done, w);
      && (forall k | 0 <= k < n - 1 :: MeanBlock(b, body, b.exec(c, ts[k])).ctl != Break)
      && if n > 0 && MeanBlock(b, body, b.exec(c, ts[n - 1])).ctl == Break then end == ts[n]
         else if n == WHILE_GUARD + 1 - done then end == ts[n]
         else b.exec(c, ts[n]).status != 0 && end == b.exec(c, ts[n])
    decreases WHILE_GUARD - done
  {
    var w1 := b.exec(c, w);
    if w1.status != 0 {
      ts := [w];
    } else {
      var w2 := MeanBlock(b, body, w1);
      if w2.ctl == Break || done == WHILE_GUARD {
        ts := [w, w2.(ctl := NoCtl)];
      } else {
        var rest := WhileTrace(b, c, body, done + 1, w2.(ctl := NoCtl));
        ts := [w] + rest;
        WhileLonger(b, c, body, ts, rest);
        var n := |rest| - 1;
        assert ts[n + 1] == rest[n] && (n > 0 ==> ts[n] == rest[n - 1]);
      }
    }
  }

  lemma WhileLonger<E>(b: Behaviour<E>, c: string, body: Block, ts: seq<World<E>>, rest: seq<World<E>>)
    requires WhilePasses(b, c, body, rest) && |ts| == |rest| + 1 && ts[1..] == rest
    requires b.exec(c, ts[0]).status == 0
    requires rest[0] == MeanBlock(b, body, b.exec(c, ts[0])).(ctl := NoCtl)
    requires MeanBlock(b, body, b.exec(c, ts[0])).ctl != Break
    requires forall k | 0 <= k < |rest| - 2 :: MeanBlock(b, body, b.exec(c, rest[k])).ctl != Break
    ensures WhilePasses(b, c, body, ts)
    ensures forall k | 0 <= k < |ts| - 2 :: MeanBlock(b, body, b.exec(c, ts[k])).ctl != Break
  {
    forall k | 0 <= k < |ts| - 1
      ensures b.exec(c, ts[k]).status == 0
      ensures ts[k + 1] == MeanBlock(b, body, b.exec(c, ts[k])).(ctl := NoCtl)
    {
      if k > 0 { assert ts[k] == rest[k - 1] && ts[k + 1] == rest[k]; }
    }
    forall k | 0 <= k < |ts| - 2 ensures MeanBlock(b, body, b.exec(c, ts[k])).ctl != Break {
      if k > 0 { assert ts[k] == rest[k - 1]; }
    }
  }

  // A while loop, run from its statements: passes as long as the condition gives
  // status 0, up to a break or the 100001st of them; the guard leaves the status of
  // the last pass.
  lemma WhileInOrder<E>(b: Behaviour<E>, c: string, body: Block, w: World<E>) returns (ts: seq<World<E>>)
    requires WF(While(c, body))
    ensures WhilePasses(b, c, body, ts) && ts[0] == w && |ts| <= 100002
    ensures var n := |ts| - 1; var k := Then(While(c, body), Empty);
      Script(b, LexAll(Texts(FlatBlock(k))), 0, w)
      == (if (n > 0 && MeanBlock(b, body, b.exec(c, ts[n - 1])).ctl == Break) || n == 100001 then ts[n]
          else b.exec(c, ts[n])).(ctl := NoCtl)
    ensures var n := |ts| - 1;
      (n == 0 || MeanBlock(b, body, b.exec(c, ts[n - 1])).ctl != Break) && n != 100001 ==> b.exec(c, ts[n]).status != 0
  {
    hide Script, LexAll, Texts, WhilePasses, MeanWhile;
    ts := WhileTrace(b, c, body, 0, w);
    var tree := While(c, body);
    ScriptMeansTree(b, Then(tree, Empty), w);
    assert MeanTop(b, Empty, Mean(b, tree, w)) == Mean(b, tree, w).(ctl := NoCtl);
  }

  // An if, run from its statements: the first arm whose condition gives status 0, each
  // condition tested in the state the earlier ones leave.
  lemma IfInOrder<E>(b: Behaviour<E>, c: string, thn: Block, c2: string, thn2: Block, els: Block, w: World<E>)
    requires var t := If(c, thn, Elif(c2, thn2, ElseFi(els))); WF(t)
    ensures var w1 := b.exec(c, w); var w2 := b.exec(c2, w1);
      var k := Then(If(c, thn, Elif(c2, thn2, ElseFi(els))), Empty);
      Script(b, LexAll(Texts(FlatBlock(k))), 0, w)
      == (if w1.status == 0 then MeanBlock(b, thn, w1)
          else if w2.status == 0 then MeanBlock(b, thn2, w2) else MeanBlock(b, els, w2)).(ctl := NoCtl)
  {
    hide Script, LexAll, Texts;
    var last, w1 := ElseFi(els), b.exec(c, w);
    var w2 := b.exec(c2, w1);
    assert MeanElse(b, last, w2) == MeanBlock(b, els, w2);
    assert MeanElse(b, Elif(c2, thn2, last), w1)
        == if w2.status == 0 then MeanBlock(b, thn2, w2) else MeanElse(b, last, w2);
    var tree := If(c, thn, Elif(c2, thn2, last));
    ScriptMeansTree(b, Then(tree, Empty), w);
    assert MeanTop(b, Empty, Mean(b, tree, w)) == Mean(b, tree, w).(ctl := NoCtl);
  }

  // Without an else, nothing but the condition runs if it fails.
  lemma IfAlone<E>(b: Behaviour<E>, c: string, thn: Block, w: World<E>)
    requires PlainArg(c) && WFBlock(thn)
    ensures var w1 := b.exec(c, w);
      Script(b, LexAll(Texts(FlatBlock(Then(If(c, thn, Fi), Empty)))), 0, w)
      == (if w1.status == 0 then MeanBlock(b, thn, w1) else w1).(ctl := NoCtl)
  {
    hide Script, LexAll, Texts;
    var tree, last, w1 := If(c, thn, Fi), Fi, b.exec(c, w);
    assert MeanElse(b, last, w1) == w1;
    assert Mean(b, tree, w) == if w1.status == 0 then MeanBlock(b, thn, w1) else MeanElse(b, last, w1);
    ScriptMeansTree(b, Then(tree, Empty), w);
    assert MeanTop(b, Empty, Mean(b, tree, w)) == Mean(b, tree, w).(ctl := NoCtl);
  }

  // A statement longer than 255 characters runs cut to that.
  lemma LongStatement<E>(b: Behaviour<E>, s: string, w: World<E>)
    ensures Run1(b, s, w) == b.exec(if |s| <= 255 then s else s[..255], w)
  {}

  // The name of a loop variable ends behind its 23rd character: what stands there is
  // no `in`, and the loop does not run.
  lemma {:induction false} LongVariable(s: string, n: nat)
    requires n <= |s| && forall k | 0 <= k < n :: IsNameChar(s[k])
    ensures NameLen(s, n) == n
    decreases n
  {
    if n > 0 { LongVariable(s[1..], n - 1); }
  }

  lemma LongForRefused(s: string)
    requires |s| > 23 && (forall k | 0 <= k < |s| :: IsNameChar(s[k])) && s[23..] != "in"
    ensures ParseFor(s) == BadFor
  {
    LongVariable(s, 23);
    var r := s[23..];
    assert r[0] == s[23];
    assert SkipBlanks(r, 0) == 0;
    assert forall k | 0 <= k < |r| :: r[k] == s[23 + k];
  }
}
