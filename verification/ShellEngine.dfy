// The control-flow engine of the shell in the form the program has: an object
// with `$?` and the pending break/continue as fields, and methods that move an
// index over the statement strings. Each method is proved against the function
// of ShellControl it stands for.

module ShellEngine {
  import opened ShellControl

  // kw(): does `s` begin with keyword `w`, and what follows it?
  method Kw(s: string, w: Word) returns (found: bool, rest: string)
    requires w != KNone
    ensures found <==> Lex(s).word == w
    ensures found ==> rest == Lex(s).arg
    ensures Lex(s).text == s
  {
    LexKey(s, w);
    found, rest := HasKw(s, Key(w)), "";
    if found { rest := AfterKw(s, Key(w)); }
  }

  // is_term().
  method AtTerm(s: string) returns (r: bool)
    ensures r <==> IsTerm(Lex(s))
  {
    var r1, _ := Kw(s, KFi);
    var r2, _ := Kw(s, KDone);
    var r3, _ := Kw(s, KElse);
    var r4, _ := Kw(s, KElif);
    r := r1 || r2 || r3 || r4;
  }

  method OpensBlock(s: string) returns (r: bool)
    ensures r <==> Opens(Lex(s))
  {
    var o1, _ := Kw(s, KIf);
    var o2, _ := Kw(s, KFor);
    var o3, _ := Kw(s, KWhile);
    r := o1 || o2 || o3;
  }

  method ClosesBlock(s: string) returns (r: bool)
    ensures r <==> Closes(Lex(s))
  {
    var c1, _ := Kw(s, KFi);
    var c2, _ := Kw(s, KDone);
    r := c1 || c2;
  }

  // find_block_end().
  method FindEnd(S: seq<string>, start: nat) returns (e: nat)
    requires start <= |S|
    ensures e == FindBlockEnd(LexAll(S), start, 1)
  {
    ghost var L := LexAll(S);
    var depth, j := 1, start;
    while j < |S|
      invariant start <= j <= |S| && depth >= 1
      invariant FindBlockEnd(L, j, depth) == FindBlockEnd(L, start, 1)
    {
      var opens := OpensBlock(S[j]);
      var closes := ClosesBlock(S[j]);
      if opens {
        depth := depth + 1;
      } else if closes {
        depth := depth - 1;
        if depth == 0 { return j; }
      }
      j := j + 1;
    }
    return |S|;
  }

  // "if the next statement is `k`, step over it".
  method Skip(S: seq<string>, i: nat, w: Word) returns (i': nat)
    requires i <= |S| && w != KNone
    ensures i' == SkipKw(LexAll(S), i, w)
  {
    if i < |S| {
      var found, _ := Kw(S[i], w);
      if found { return i + 1; }
    }
    return i;
  }

  class Engine<E> {
    const b: Behaviour<E>
    var env: E
    var status: int
    var ctl: Ctl

    constructor (b: Behaviour<E>, env: E)
      ensures this.b == b && W() == World(env, 0, NoCtl)
    {
      this.b, this.env, status, ctl := b, env, 0, NoCtl;
    }

    function W(): World<E>
      reads this
    {
      World(env, status, ctl)
    }

    method Run(s: string)
      modifies this
      ensures W() == Run1(b, s, old(W()))
    {
      var w := b.exec(Clip(s), W());
      env, status, ctl := w.env, w.status, w.ctl;
    }

    method CtrlExec(S: seq<string>, i: nat, run: bool) returns (i': nat)
      requires i < |S|
      modifies this
      ensures i < i' <= |S|
      ensures (i', W()) == Exec(b, LexAll(S), i, run, old(W()))
      decreases |S| - i, 0, 1
    {
      var isIf, r := Kw(S[i], KIf);
      if isIf {
        i' := ExecIf(S, i, run, r);
        return;
      }
      var isFor, r' := Kw(S[i], KFor);
      if isFor {
        i' := ExecFor(S, i, run, r');
        return;
      }
      var isWhile, r'' := Kw(S[i], KWhile);
      if isWhile {
        i' := ExecWhile(S, i, run, r'');
        return;
      }
      if run { Run(S[i]); }
      i' := i + 1;
    }

    // if ... then ... {elif ...} [else ...] fi
    method ExecIf(S: seq<string>, i: nat, run: bool, r: string) returns (i': nat)
      requires i < |S| && Lex(S[i]).word == KIf && r == Lex(S[i]).arg
      modifies this
      ensures i < i' <= |S|
      ensures (i', W()) == Exec(b, LexAll(S), i, run, old(W()))
      decreases |S| - i, 0, 0
    {
      var cond := false;
      if run {
        Run(r);
        cond := status == 0;
      }
      i' := Skip(S, i + 1, KThen);
      i' := RunUntil(S, i', run && cond);
      i' := ExecTail(S, i', run, cond);
    }

    method ExecTail(S: seq<string>, i: nat, run: bool, cond: bool) returns (i': nat)
      requires i <= |S|
      modifies this
      ensures i <= i' <= |S|
      ensures (i', W()) == IfTail(b, LexAll(S), i, run, cond, old(W()))
      decreases |S| - i, 2, 0
    {
      var i3, taken := ExecElifs(S, i, run, cond);
      i' := ExecElse(S, i3, run && !taken);
    }

    method ExecElse(S: seq<string>, i: nat, run: bool) returns (i': nat)
      requires i <= |S|
      modifies this
      ensures i <= i' <= |S|
      ensures (i', W()) == ElsePart(b, LexAll(S), i, run, old(W()))
      decreases |S| - i, 1, 0
    {
      i' := i;
      if i < |S| {
        var isElse, _ := Kw(S[i], KElse);
        if isElse { i' := RunUntil(S, i + 1, run); }
      }
      i' := Skip(S, i', KFi);
    }

    method ExecElifs(S: seq<string>, i: nat, run: bool, cond: bool) returns (i': nat, taken: bool)
      requires i <= |S|
      modifies this
      ensures i <= i' <= |S|
      ensures (i', taken, W()) == Elifs(b, LexAll(S), i, run, cond, old(W()))
      decreases |S| - i, 1, 0
    {
      ghost var L := LexAll(S);
      i', taken := i, cond;
      while i' < |S|
        invariant i <= i' <= |S|
        invariant Elifs(b, L, i', run, taken, W()) == Elifs(b, L, i, run, cond, old(W()))
        decreases |S| - i'
      {
        var found, r := Kw(S[i'], KElif);
        if !found { break; }
        var c2 := false;
        if run && !taken {
          Run(r);
          c2 := status == 0;
        }
        i' := Skip(S, i' + 1, KThen);
        i' := RunUntil(S, i', run && !taken && c2);
        if c2 { taken := true; }
      }
    }

    method ExecFor(S: seq<string>, i: nat, run: bool, r: string) returns (i': nat)
      requires i < |S| && Lex(S[i]).word == KFor && r == Lex(S[i]).arg
      modifies this
      ensures i < i' <= |S|
      ensures (i', W()) == Exec(b, LexAll(S), i, run, old(W()))
      decreases |S| - i, 0, 0
    {
      var head := ParseFor(r);
      var body := Skip(S, i + 1, KDo);
      var end := FindEnd(S, body);
      if run && head.ForHead? {
        var (w0, ws) := Words(b, head.words, W());
        env, status, ctl := w0.env, w0.status, w0.ctl;
        LoopFor(S, head.name, ws, body, end);
      }
      i' := Skip(S, end, KDone);
    }

    method LoopFor(S: seq<string>, name: string, ws: seq<string>, body: nat, end: nat)
      requires body <= |S| && end <= |S|
      modifies this
      ensures W() == ForLoop(b, LexAll(S), body, end, name, ws, old(W()))
      decreases |S| - body, 2, 0
    {
      ghost var L := LexAll(S);
      var k := 0;
      while k < |ws|
        invariant k <= |ws|
        invariant ForLoop(b, L, body, end, name, ws[k..], W()) == ForLoop(b, L, body, end, name, ws, old(W()))
      {
        env := b.assign(name, ws[k], env);
        RunBody(S, body, end);
        if ctl == Break { ctl := NoCtl; break; }
        if ctl == Continue { ctl := NoCtl; }
        k := k + 1;
        assert ws[k - 1..][1..] == ws[k..];
      }
    }

    method ExecWhile(S: seq<string>, i: nat, run: bool, r: string) returns (i': nat)
      requires i < |S| && Lex(S[i]).word == KWhile && r == Lex(S[i]).arg
      modifies this
      ensures i < i' <= |S|
      ensures (i', W()) == Exec(b, LexAll(S), i, run, old(W()))
      decreases |S| - i, 0, 0
    {
      var body := Skip(S, i + 1, KDo);
      var end := FindEnd(S, body);
      if run { LoopWhile(S, r, body, end); }
      i' := Skip(S, end, KDone);
    }

    method LoopWhile(S: seq<string>, cond: string, body: nat, end: nat)
      requires body <= |S| && end <= |S|
      modifies this
      ensures W() == WhileLoop(b, LexAll(S), cond, body, end, 0, old(W()))
      decreases |S| - body, 2, 0
    {
      ghost var L := LexAll(S);
      var guard := 0;
      while true
        invariant guard <= WHILE_GUARD
        invariant WhileLoop(b, L, cond, body, end, guard, W()) == WhileLoop(b, L, cond, body, end, 0, old(W()))
        decreases WHILE_GUARD - guard
      {
        Run(cond);
        if status != 0 { break; }
        RunBody(S, body, end);
        if ctl == Break { ctl := NoCtl; break; }
        if ctl == Continue { ctl := NoCtl; }
        guard := guard + 1;
        if guard > WHILE_GUARD { break; }
      }
    }

    method RunUntil(S: seq<string>, i: nat, run: bool) returns (i': nat)
      requires i <= |S|
      modifies this
      ensures i <= i' <= |S|
      ensures (i', W()) == SeqUntil(b, LexAll(S), i, run, old(W()))
      decreases |S| - i, 1, 0
    {
      ghost var L := LexAll(S);
      i' := i;
      while i' < |S|
        invariant i <= i' <= |S|
        invariant SeqUntil(b, L, i', run, W()) == SeqUntil(b, L, i, run, old(W()))
        decreases |S| - i'
      {
        var stop := AtTerm(S[i']);
        if stop { break; }
        i' := CtrlExec(S, i', run && ctl == NoCtl);
      }
    }

    // One pass over a loop body.
    method RunBody(S: seq<string>, body: nat, end: nat)
      requires body <= |S| && end <= |S|
      modifies this
      ensures W() == RunRange(b, LexAll(S), body, end, true, old(W())).1
      decreases |S| - body, 1, 0
    {
      ghost var L := LexAll(S);
      var i := body;
      while i < end
        invariant body <= i <= |S|
        invariant RunRange(b, L, i, end, true, W()).1 == RunRange(b, L, body, end, true, old(W())).1
        decreases |S| - i
      {
        i := CtrlExec(S, i, ctl == NoCtl);
      }
    }

    // run_script, once the text has been cut into statements.
    method RunScript(S: seq<string>)
      modifies this
      ensures W() == Script(b, LexAll(S), 0, old(W()))
    {
      ghost var L := LexAll(S);
      var i := 0;
      while i < |S|
        invariant i <= |S|
        invariant Script(b, L, i, W()) == Script(b, L, 0, old(W()))
        decreases |S| - i
      {
        i := CtrlExec(S, i, true);
      }
      ctl := NoCtl;
    }
  }
}
