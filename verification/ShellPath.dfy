// Path normalisation of the shell (apps/system/shell_core/shell_cmds.c):
// `.`, `..` and repeated slashes are collapsed in the caller's buffer.

module ShellPath {

  const CWD_MAX := 256

  predicate IsSlash(c: char) { c == '/' }

  // ----- Components ------------------------------------------------------------

  function SkipSlashes(s: string, i: nat): (j: nat)
    requires i <= |s|
    ensures i <= j <= |s|
    ensures j < |s| ==> !IsSlash(s[j])
    ensures i < |s| && IsSlash(s[i]) ==> i < j
    decreases |s| - i
  {
    if i < |s| && IsSlash(s[i]) then SkipSlashes(s, i + 1) else i
  }

  function CompEnd(s: string, i: nat): (j: nat)
    requires i <= |s|
    ensures i <= j <= |s|
    ensures j < |s| ==> IsSlash(s[j])
    ensures i < |s| && !IsSlash(s[i]) ==> i < j
    decreases |s| - i
  {
    if i < |s| && !IsSlash(s[i]) then CompEnd(s, i + 1) else i
  }

  // The maximal slash-free runs of `s` from `i` on.
  function Parts(s: string, i: nat): seq<string>
    requires i <= |s|
    decreases |s| - i
  {
    var j := SkipSlashes(s, i);
    if j == |s| then [] else [s[j..CompEnd(s, j)]] + Parts(s, CompEnd(s, j))
  }

  // What one component does to the directory stack.
  function Step(st: seq<string>, c: string): seq<string> {
    if c == "." then st
    else if c == ".." then if st == [] then [] else st[..|st| - 1]
    else st + [c]
  }

  function Resolve(cs: seq<string>, st: seq<string>): seq<string> {
    if cs == [] then st else Resolve(cs[1..], Step(st, cs[0]))
  }

  // The path of a directory stack; the root is "/".
  function Tail(st: seq<string>): string {
    if st == [] then "" else Tail(st[..|st| - 1]) + ("/" + st[|st| - 1])
  }

  function Render(st: seq<string>): (r: string)
    ensures |r| >= 1
  {
    if st == [] then "/" else Tail(st)
  }

  function Normal(s: string): string { Render(Resolve(Parts(s, 0), [])) }

  // ----- Well-formed stacks ------------------------------------------------------

  predicate SlashFree(c: string) { forall k | 0 <= k < |c| :: !IsSlash(c[k]) }

  predicate Clean(c: string) { c != "" && SlashFree(c) && c != "." && c != ".." }

  predicate AllClean(st: seq<string>) { forall k | 0 <= k < |st| :: Clean(st[k]) }

  lemma {:induction false} CompIsFree(s: string, j: nat, k: nat)
    requires j <= |s| && j <= k < CompEnd(s, j)
    ensures !IsSlash(s[k])
    decreases k - j
  {
    if k > j { CompIsFree(s, j + 1, k); }
  }

  lemma {:induction false} PartsAreFree(s: string, i: nat)
    requires i <= |s|
    ensures forall k | 0 <= k < |Parts(s, i)| :: Parts(s, i)[k] != "" && SlashFree(Parts(s, i)[k])
    decreases |s| - i
  {
    var j := SkipSlashes(s, i);
    if j < |s| {
      var e := CompEnd(s, j);
      forall k | j <= k < e ensures !IsSlash(s[k]) { CompIsFree(s, j, k); }
      PartsAreFree(s, e);
    }
  }

  lemma StepClean(st: seq<string>, c: string)
    requires AllClean(st) && c != "" && SlashFree(c)
    ensures AllClean(Step(st, c))
  {}

  lemma {:induction false} ResolveClean(cs: seq<string>, st: seq<string>)
    requires AllClean(st) && forall k | 0 <= k < |cs| :: cs[k] != "" && SlashFree(cs[k])
    ensures AllClean(Resolve(cs, st))
    decreases |cs|
  {
    if cs != [] {
      StepClean(st, cs[0]);
      ResolveClean(cs[1..], Step(st, cs[0]));
    }
  }

  // The stack a path resolves to holds no empty, `.`, `..` or slashed component.
  lemma NormalStackClean(s: string)
    ensures AllClean(Resolve(Parts(s, 0), []))
  {
    PartsAreFree(s, 0);
    ResolveClean(Parts(s, 0), []);
  }

  // ----- The in-place algorithm ----------------------------------------------------

  // Drops the last component from the text of a stack.
  method Pop(out: array<char>, oi: nat, ghost st: seq<string>) returns (oi': nat)
    requires 1 <= oi <= out.Length && AllClean(st) && out[..oi] == Render(st)
    ensures 1 <= oi' <= oi && out[..oi'] == Render(Step(st, ".."))
  {
    hide AllClean, Clean, SlashFree;
    oi' := oi;
    ghost var c := if st == [] then "" else st[|st| - 1];
    ghost var base := if st == [] then oi else oi - |c|;
    if st != [] { LastComponent(st, out[..oi]); }
    while oi' > 1 && out[oi' - 1] != '/'
      invariant 1 <= oi' <= oi && base <= oi'
      invariant st != [] ==> 1 <= base && out[base - 1] == '/'
      invariant st == [] ==> oi' == 1
    {
      oi' := oi' - 1;
    }
    if oi' > 1 { oi' := oi' - 1; }
  }

  lemma LastComponent(st: seq<string>, r: string)
    requires st != [] && r == Render(st) && AllClean(st)
    ensures var c := st[|st| - 1]; var b := |r| - |c|;
      && 1 <= b < |r| && r[b - 1] == '/' && (forall k | b <= k < |r| :: r[k] != '/')
      && (|st| > 1 ==> b > 1 && r[..b - 1] == Render(st[..|st| - 1]))
      && (|st| == 1 ==> b == 1 && r[..1] == "/")
  {
    var c, t := st[|st| - 1], Tail(st[..|st| - 1]);
    assert r == t + ("/" + c);
    assert |st| == 1 ==> t == "";
  }

  // Appends a component, with its separator unless the stack is the root.
  method Push(out: array<char>, oi: nat, c: string, ghost st: seq<string>) returns (oi': nat)
    requires 1 <= oi && oi + |c| + (if oi == 1 then 0 else 1) < out.Length == CWD_MAX
    requires AllClean(st) && out[..oi] == Render(st) && Clean(c)
    modifies out
    ensures oi' == oi + |c| + (if st == [] then 0 else 1)
    ensures out[..oi'] == Render(st + [c])
  {
    hide *;
    ghost var r := Render(st);
    RenderSnoc(st, c);
    oi' := oi;
    if oi' > 1 && oi' < out.Length - 1 {
      out[oi'] := '/';
      oi' := oi' + 1;
    }
    ghost var base := oi';
    ghost var pre := out[..base];
    assert pre == if st == [] then "/" else r + "/";
    var i := 0;
    while i < |c| && oi' < out.Length - 1
      invariant i <= |c| && oi' == base + i
      invariant out[..base] == pre
      invariant forall k | 0 <= k < i :: out[base + k] == c[k]
    {
      out[oi'] := c[i];
      oi', i := oi' + 1, i + 1;
    }
    assert out[..oi'] == pre + c;
  }

  lemma RenderSnoc(st: seq<string>, c: string)
    requires AllClean(st)
    ensures Render(st + [c]) == (if st == [] then "/" else Render(st) + "/") + c
    ensures |Render(st)| == 1 <==> st == []
    ensures st == [] ==> Render(st) == "/"
  {
    assert (st + [c])[..|st|] == st;
    assert Tail(st + [c]) == Tail(st) + ("/" + c);
    if st != [] {
      assert |Tail(st)| >= 1 + |st[|st| - 1]|;
    }
  }

  method ScanSlashes(p: array<char>, len: nat, i: nat) returns (j: nat)
    requires i <= len <= p.Length
    ensures j == SkipSlashes(p[..len], i)
  {
    ghost var s := p[..len];
    j := i;
    while j < len && p[j] == '/'
      invariant i <= j <= len && SkipSlashes(s, j) == SkipSlashes(s, i)
    {
      j := j + 1;
    }
  }

  method ScanComponent(p: array<char>, len: nat, i: nat) returns (j: nat)
    requires i <= len <= p.Length
    ensures j == CompEnd(p[..len], i)
  {
    ghost var s := p[..len];
    j := i;
    while j < len && p[j] != '/'
      invariant i <= j <= len && CompEnd(s, j) == CompEnd(s, i)
    {
      j := j + 1;
    }
  }

  // One component against the text built so far.
  method Apply(out: array<char>, oi: nat, c: string, ghost st: seq<string>) returns (oi': nat)
    requires 1 <= oi && oi + |c| + (if oi == 1 then 0 else 1) < out.Length == CWD_MAX && c != "" && SlashFree(c)
    requires AllClean(st) && out[..oi] == Render(st)
    modifies out
    ensures 1 <= oi' <= oi + |c| + (if oi == 1 then 0 else 1)
    ensures AllClean(Step(st, c)) && out[..oi'] == Render(Step(st, c))
  {
    StepClean(st, c);
    RenderSnoc(st, c);
    oi' := oi;
    if c == "." {
    } else if c == ".." {
      oi' := Pop(out, oi, st);
    } else {
      oi' := Push(out, oi, c, st);
    }
  }

  // The scan over `p`, building the text of the stack in `out`.
  method Build(p: array<char>, len: nat, out: array<char>) returns (oi: nat)
    requires 0 < len <= p.Length && len < CWD_MAX && p[0] == '/' && out.Length == CWD_MAX && out != p
    modifies out
    ensures 1 <= oi <= len && out[..oi] == Normal(p[..len])
  {
    hide AllClean, Render, Resolve, Parts, SlashFree, Step, Clean;
    ghost var s := p[..len];
    out[0], oi := '/', 1;
    ghost var st: seq<string> := [];
    RootStack();
    assert out[..1] == "/";
    var i := 0;
    while i < len
      invariant i <= len && 1 <= oi && (i == 0 ==> oi == 1) && (i > 0 ==> oi <= i)
      invariant p[..len] == s && AllClean(st) && out[..oi] == Render(st)
      invariant i < len ==> p[i] == '/'
      invariant Resolve(Parts(s, i), st) == Resolve(Parts(s, 0), [])
    {
      var start := ScanSlashes(p, len, i);
      if start == len { PartsDone(s, i, st); return; }
      assert start > i by { assert s[i] == '/'; }
      var end := ScanComponent(p, len, start);
      PartStep(s, i, st);
      FreeComponent(s, start);
      var c := p[..len][start..end];
      assert c == s[start..end];
      oi := Apply(out, oi, c, st);
      st := Step(st, c);
      i := end;
    }
    PartsDone(s, i, st);
  }

  // normalize_path on an absolute path that fits CWD_MAX: the buffer then holds
  // the rendering of the stack its components resolve to, and it never grows.
  method NormalizePath(p: array<char>, len: nat) returns (len': nat)
    requires 0 < len < p.Length && len < 256 && p[0] == '/'
    modifies p
    ensures len' <= len && p[..len'] == Normal(old(p[..len])) && p[len'] == '\0'
  {
    var out := new char[CWD_MAX];
    len' := Build(p, len, out);
    ghost var r := out[..len'];
    var k := 0;
    while k < len'
      invariant k <= len' && out[..len'] == r && p[..k] == r[..k]
    {
      p[k] := out[k];
      k := k + 1;
    }
    p[len'] := '\0';
  }

  lemma RootStack()
    ensures AllClean([]) && Render([]) == "/"
  {}

  lemma PartsDone(s: string, i: nat, st: seq<string>)
    requires i <= |s| && SkipSlashes(s, i) == |s|
    ensures Resolve(Parts(s, i), st) == st
  {}

  lemma FreeComponent(s: string, j: nat)
    requires j < |s| && !IsSlash(s[j])
    ensures s[j..CompEnd(s, j)] != "" && SlashFree(s[j..CompEnd(s, j)])
  {
    forall k | j <= k < CompEnd(s, j) ensures !IsSlash(s[k]) { CompIsFree(s, j, k); }
  }

  lemma PartStep(s: string, i: nat, st: seq<string>)
    requires i <= |s| && SkipSlashes(s, i) < |s|
    ensures var j := SkipSlashes(s, i); var e := CompEnd(s, j);
      Resolve(Parts(s, i), st) == Resolve(Parts(s, e), Step(st, s[j..e]))
  {
    var j := SkipSlashes(s, i);
    var e := CompEnd(s, j);
    assert ([s[j..e]] + Parts(s, e))[1..] == Parts(s, e);
  }

  // ----- Rendering and reading back are inverse --------------------------------------

  lemma {:induction false} SkipInPrefix(s: string, t: string, i: nat)
    requires i <= |s| && s <= t
    ensures SkipSlashes(s, i) < |s| ==> SkipSlashes(t, i) == SkipSlashes(s, i)
    ensures SkipSlashes(s, i) == |s| ==> SkipSlashes(t, i) == SkipSlashes(t, |s|)
    decreases |s| - i
  {
    if i < |s| && IsSlash(s[i]) { SkipInPrefix(s, t, i + 1); }
  }

  lemma {:induction false} CompInPrefix(s: string, t: string, i: nat)
    requires i <= |s| < |t| && s <= t && IsSlash(t[|s|])
    ensures CompEnd(t, i) == CompEnd(s, i)
    decreases |s| - i
  {
    if i < |s| && !IsSlash(s[i]) { CompInPrefix(s, t, i + 1); }
  }

  lemma {:induction false} CompToEnd(t: string, i: nat)
    requires i <= |t| && forall k | i <= k < |t| :: !IsSlash(t[k])
    ensures CompEnd(t, i) == |t|
    decreases |t| - i
  {
    if i < |t| { CompToEnd(t, i + 1); }
  }

  // A path with one more component has that component last.
  lemma {:induction false} PartsSnoc(s: string, c: string, i: nat)
    requires i <= |s| && c != "" && SlashFree(c)
    ensures Parts(s + ("/" + c), i) == Parts(s, i) + [c]
    decreases |s| - i
  {
    var t := s + ("/" + c);
    assert t[|s|] == '/' && t[..|s|] == s;
    SkipInPrefix(s, t, i);
    var j := SkipSlashes(s, i);
    if j < |s| {
      CompInPrefix(s, t, j);
      var e := CompEnd(s, j);
      assert s[j..e] == t[j..e];
      PartsSnoc(s, c, e);
    } else {
      PartsLast(s, c, i);
    }
  }

  lemma PartsLast(s: string, c: string, i: nat)
    requires i <= |s| && c != "" && SlashFree(c)
    requires SkipSlashes(s + ("/" + c), i) == SkipSlashes(s + ("/" + c), |s|)
    ensures Parts(s + ("/" + c), i) == [c]
  {
    var t := s + ("/" + c);
    assert t[|s|] == '/' && t[|s| + 1] == c[0];
    assert SkipSlashes(t, |s| + 1) == |s| + 1;
    CompToEnd(t, |s| + 1);
    assert t[|s| + 1..|t|] == c;
    assert SkipSlashes(t, |t|) == |t|;
    assert Parts(t, i) == [t[|s| + 1..|t|]] + Parts(t, |t|);
  }

  lemma {:induction false} PartsOfTail(st: seq<string>)
    requires AllClean(st)
    ensures Parts(Tail(st), 0) == st
    decreases |st|
  {
    if st != [] {
      var c := st[|st| - 1];
      PartsOfTail(st[..|st| - 1]);
      PartsSnoc(Tail(st[..|st| - 1]), c, 0);
    }
  }

  // Reading the text of a stack gives the stack.
  lemma PartsOfRender(st: seq<string>)
    requires AllClean(st)
    ensures Parts(Render(st), 0) == st
  {
    PartsOfTail(st);
    if st == [] { assert SkipSlashes("/", 0) == SkipSlashes("/", 1) == 1; }
  }

  lemma {:induction false} ResolveFixed(cs: seq<string>, st: seq<string>)
    requires AllClean(cs)
    ensures Resolve(cs, st) == st + cs
    decreases |cs|
  {
    if cs != [] {
      ResolveFixed(cs[1..], st + [cs[0]]);
      assert st + [cs[0]] + cs[1..] == st + cs;
    }
  }

  // Normalising twice changes nothing, and the result reads back as a clean stack.
  lemma NormalIsStable(s: string)
    ensures Normal(Normal(s)) == Normal(s)
    ensures AllClean(Parts(Normal(s), 0)) && Render(Parts(Normal(s), 0)) == Normal(s)
  {
    var st := Resolve(Parts(s, 0), []);
    NormalStackClean(s);
    PartsOfRender(st);
    ResolveFixed(st, []);
    assert [] + st == st;
  }

  // `..` after any absolute path gives the parent, and undoes a clean component.
  lemma {:induction false} ResolveCat(cs: seq<string>, c: string, st: seq<string>)
    ensures Resolve(cs + [c], st) == Step(Resolve(cs, st), c)
    decreases |cs|
  {
    if cs == [] {
      assert Resolve([c], st) == Resolve([], Step(st, c));
    } else {
      assert (cs + [c])[1..] == cs[1..] + [c];
      ResolveCat(cs[1..], c, Step(st, cs[0]));
    }
  }

  lemma ParentUndoesChild(s: string, c: string)
    requires Clean(c)
    ensures Normal(s + ("/" + c) + ("/" + "..")) == Normal(s)
  {
    PartsSnoc(s, c, 0);
    PartsSnoc(s + ("/" + c), "..", 0);
    var st := Resolve(Parts(s, 0), []);
    ResolveCat(Parts(s, 0), c, []);
    ResolveCat(Parts(s, 0) + [c], "..", []);
    assert (st + [c])[..|st|] == st;
  }

  // ----- What a component does, on whole paths ----------------------------------------

  // Where a slash begins the second half, the components are those of the halves.
  lemma {:induction false} PartsCat(s: string, t: string, i: nat)
    requires i <= |s| && t != "" && t[0] == '/'
    ensures Parts(s + t, i) == Parts(s, i) + Parts(t, 0)
    decreases |s| - i
  {
    hide Parts, SkipSlashes, CompEnd;
    var u := s + t;
    assert u[|s|] == '/' && u[..|s|] == s;
    SkipInPrefix(s, u, i);
    var j := SkipSlashes(s, i);
    PartsAt(s, i);
    PartsAt(u, i);
    if j < |s| {
      CompInPrefix(s, u, j);
      var e := CompEnd(s, j);
      assert s[j..e] == u[j..e];
      PartsCat(s, t, e);
    } else {
      SkipOnly(u, i, |s|);
      PartsShift(s, t, 0);
    }
  }

  lemma PartsAt(s: string, i: nat)
    requires i <= |s|
    ensures var j := SkipSlashes(s, i);
      Parts(s, i) == if j == |s| then [] else [s[j..CompEnd(s, j)]] + Parts(s, CompEnd(s, j))
  {}

  lemma SkipOnly(u: string, i: nat, j: nat)
    requires i <= |u| && j <= |u| && SkipSlashes(u, i) == SkipSlashes(u, j)
    ensures Parts(u, i) == Parts(u, j)
  {}

  lemma {:induction false} SkipShift(s: string, t: string, i: nat)
    requires i <= |t|
    ensures SkipSlashes(s + t, |s| + i) == |s| + SkipSlashes(t, i)
    decreases |t| - i
  {
    if i < |t| {
      assert (s + t)[|s| + i] == t[i];
      if t[i] == '/' { SkipShift(s, t, i + 1); }
    }
  }

  lemma {:induction false} EndShift(s: string, t: string, i: nat)
    requires i <= |t|
    ensures CompEnd(s + t, |s| + i) == |s| + CompEnd(t, i)
    decreases |t| - i
  {
    if i < |t| {
      assert (s + t)[|s| + i] == t[i];
      if t[i] != '/' { EndShift(s, t, i + 1); }
    }
  }

  lemma SliceShift(s: string, t: string, a: nat, b: nat)
    requires a <= b <= |t|
    ensures (s + t)[|s| + a..|s| + b] == t[a..b]
  {
    var u := s + t;
    forall k | a <= k < b ensures u[|s| + k] == t[k] {}
  }

  lemma {:induction false} PartsShift(s: string, t: string, i: nat)
    requires i <= |t|
    ensures Parts(s + t, |s| + i) == Parts(t, i)
    decreases |t| - i
  {
    hide Parts, SkipSlashes, CompEnd;
    PartsAt(t, i);
    PartsAt(s + t, |s| + i);
    SkipShift(s, t, i);
    var j := SkipSlashes(t, i);
    if j < |t| {
      EndShift(s, t, j);
      CompGrows(t, j);
      SliceShift(s, t, j, CompEnd(t, j));
      PartsShift(s, t, CompEnd(t, j));
    }
  }

  lemma CompGrows(t: string, j: nat)
    requires j < |t| && !IsSlash(t[j])
    ensures j < CompEnd(t, j) <= |t|
  {}

  lemma {:induction false} ResolveAll(a: seq<string>, b: seq<string>, st: seq<string>)
    ensures Resolve(a + b, st) == Resolve(b, Resolve(a, st))
    decreases |a|
  {
    if a == [] {
      assert a + b == b;
    } else {
      assert (a + b)[1..] == a[1..] + b;
      ResolveAll(a[1..], b, Step(st, a[0]));
    }
  }

  // The rest of a path behind `s`: nothing, or what a slash begins.
  predicate Behind(t: string) { t == "" || t[0] == '/' }

  lemma NormalCat(s: string, t: string)
    requires Behind(t)
    ensures Normal(s + t) == Render(Resolve(Parts(t, 0), Resolve(Parts(s, 0), [])))
  {
    if t == "" {
      assert s + t == s;
      assert Parts(t, 0) == [];
    } else {
      PartsCat(s, t, 0);
      ResolveAll(Parts(s, 0), Parts(t, 0), []);
    }
  }

  // A dot in a path, or one more slash, changes nothing.
  lemma DotIsNothing(s: string, t: string)
    requires Behind(t)
    ensures Normal(s + "/." + t) == Normal(s + t)
    ensures Normal(s + "/" + t) == Normal(s + t)
  {
    PartsSnoc(s, ".", 0);
    assert s + ("/" + ".") == s + "/.";
    ResolveCat(Parts(s, 0), ".", []);
    NormalCat(s + "/.", t);
    NormalCat(s, t);
    NormalCat(s + "/", t);
    NormalCat(s, "/");
    PartsCat(s, "/", 0);
    assert SkipSlashes("/", 0) == SkipSlashes("/", 1) == 1;
    assert Parts("/", 0) == [];
    assert Parts(s, 0) + [] == Parts(s, 0);
  }

  // A component and `..` behind it are gone.
  lemma DotsDrop(s: string, c: string, t: string)
    requires Behind(t) && c != "" && (forall k | 0 <= k < |c| :: c[k] != '/') && c != "." && c != ".."
    ensures Normal(s + ("/" + c) + ("/" + "..") + t) == Normal(s + t)
  {
    PartsSnoc(s, c, 0);
    PartsSnoc(s + ("/" + c), "..", 0);
    hide Parts, Resolve, Render, Normal;
    var st := Resolve(Parts(s, 0), []);
    ResolveCat(Parts(s, 0), c, []);
    ResolveCat(Parts(s, 0) + [c], "..", []);
    assert (st + [c])[..|st|] == st;
    NormalCat(s + ("/" + c) + ("/" + ".."), t);
    NormalCat(s, t);
  }

  // The root has no parent.
  lemma RootIsTop(t: string)
    requires Behind(t)
    ensures Normal("/.." + t) == Normal("/" + t)
  {
    PartsSnoc("", "..", 0);
    assert "" + ("/" + "..") == "/..";
    assert Parts("", 0) == [] && [] + [".."] == [".."];
    assert Resolve([".."], []) == Resolve([], []);
    NormalCat("/..", t);
    assert SkipSlashes("/", 0) == SkipSlashes("/", 1) == 1;
    NormalCat("/", t);
  }

  // A path of proper components is normal already.
  lemma ProperKept(cs: seq<string>)
    requires forall k | 0 <= k < |cs| ::
      cs[k] != "" && cs[k] != "." && cs[k] != ".." && forall i | 0 <= i < |cs[k]| :: cs[k][i] != '/'
    ensures Normal(Slashed(cs)) == if cs == [] then "/" else Slashed(cs)
  {
    assert AllClean(cs);
    SlashedIsTail(cs);
    PartsOfTail(cs);
    ResolveFixed(cs, []);
    assert [] + cs == cs;
  }

  // Each component behind a slash.
  function Slashed(cs: seq<string>): string {
    if cs == [] then "" else "/" + cs[0] + Slashed(cs[1..])
  }

  lemma {:induction false} SlashedIsTail(cs: seq<string>)
    ensures Slashed(cs) == Tail(cs)
    decreases |cs|
  {
    if cs != [] {
      var n := |cs| - 1;
      SlashedSnoc(cs[..n], cs[n]);
      assert cs[..n] + [cs[n]] == cs;
      SlashedIsTail(cs[..n]);
    }
  }

  lemma {:induction false} SlashedSnoc(cs: seq<string>, c: string)
    ensures Slashed(cs + [c]) == Slashed(cs) + ("/" + c)
    decreases |cs|
  {
    if cs == [] {
      assert [c][1..] == [] && "/" + c + "" == "/" + c;
      assert Slashed([c]) == "/" + c + Slashed([]);
    } else {
      assert (cs + [c])[1..] == cs[1..] + [c];
      SlashedSnoc(cs[1..], c);
      assert "/" + cs[0] + (Slashed(cs[1..]) + ("/" + c)) == "/" + cs[0] + Slashed(cs[1..]) + ("/" + c);
    }
  }
}
