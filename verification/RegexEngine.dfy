// The matcher in the form the program has (sdk/re/re.c): cursors into the text and
// into the class buffer, and a length that grows through an out-parameter.

module RegexEngine {
  import opened Wrappers
  import opened Regex
  import opened RegexClass

  // ----- Atoms --------------------------------------------------------------------

  // class_match: the loop over the bytes of a class.
  method LookUp(c: char, mem: string, start: nat) returns (answer: Answer)
    ensures answer == Look(c, mem, start)
  {
    var p := start;
    while p < |mem| && mem[p] != '\0'
      invariant Look(c, mem, p) == Look(c, mem, start)
      decreases |mem| - p
    {
      if p + 1 >= |mem| { return Off; }
      if mem[p] == '\\' {
        if MetaMatch(c, mem[p + 1]) { return Hit; }
        p := p + 2;
      } else if mem[p + 1] == '-' && p + 2 >= |mem| {
        return Off;
      } else if mem[p + 1] == '-' && mem[p + 2] != '\0' {
        if mem[p] <= c <= mem[p + 2] { return Hit; }
        p := p + 3;
      } else {
        if c == mem[p] { return Hit; }
        p := p + 1;
      }
    }
    answer := if p < |mem| then Miss else Off;
  }

  // one_match.
  method OneMatch(re: Prog, i: nat, c: char) returns (ok: bool)
    requires i < |re.nodes| == |re.starts|
    ensures ok == InMemory(re)(i, c)
  {
    if re.nodes[i].Class? {
      var answer := LookUp(c, re.mem, re.starts[i]);
      var hit := if answer == Off then re.beyond(i, c) else answer == Hit;
      return hit != re.nodes[i].neg;
    }
    ok := One(re.nodes[i], c);
  }

  // ----- Matching -----------------------------------------------------------------

  method MatchHere(re: Prog, i: nat, T: string, j: nat, len: nat) returns (ok: bool, len': nat)
    requires j <= |T| && |re.starts| == |re.nodes|
    ensures var r := Here(InMemory(re), re.nodes, i, T, j);
      ok == r.Some? && len' == if ok then len + r.value else len
    decreases |re.nodes| - i, |T| - j + 1
  {
    hide InMemory;
    var shape := ShapeAt(re.nodes, i);
    if shape.Done? { return true, len; }
    if shape.AtEnd? { return j == |T|, len; }
    if shape.Starred? {
      ok, len' := MatchStar(re, i, i + 2, T, j, len);
      return;
    }
    if shape.Plussed? {
      ok, len' := MatchPlus(re, i, i + 2, T, j, len);
      return;
    }
    var takes := false;
    if j < |T| { takes := OneMatch(re, i, T[j]); }
    if shape.Optional? {
      if takes {
        var hit, sub := MatchHere(re, i + 2, T, j + 1, 0);
        if hit { return true, len + 1 + sub; }
      }
      ok, len' := MatchHere(re, i + 2, T, j, len);
      return;
    }
    if takes {
      var hit, sub := MatchHere(re, i + 1, T, j + 1, 0);
      if hit { return true, len + 1 + sub; }
    }
    return false, len;
  }

  method MatchStar(re: Prog, atom: nat, rest: nat, T: string, j: nat, len: nat) returns (ok: bool, len': nat)
    requires j <= |T| && atom < |re.nodes| == |re.starts|
    ensures var acc := InMemory(re); var r := Back(acc, re.nodes, rest, T, j, RunEnd(acc, atom, T, j));
      ok == r.Some? && len' == if ok then len + r.value else len
    decreases |re.nodes| - rest, |T| + 2
  {
    hide InMemory;
    ghost var acc := InMemory(re);
    var t := j;
    while t < |T|
      invariant j <= t <= |T| && RunEnd(acc, atom, T, t) == RunEnd(acc, atom, T, j)
    {
      var takes := OneMatch(re, atom, T[t]);
      if !takes { break; }
      t := t + 1;
    }
    while true
      invariant j <= t <= |T|
      invariant Back(acc, re.nodes, rest, T, j, t) == Back(acc, re.nodes, rest, T, j, RunEnd(acc, atom, T, j))
      decreases t
    {
      var hit, sub := MatchHere(re, rest, T, t, 0);
      if hit { return true, len + (t - j) + sub; }
      if t == j { return false, len; }
      t := t - 1;
    }
  }

  method MatchPlus(re: Prog, atom: nat, rest: nat, T: string, j: nat, len: nat) returns (ok: bool, len': nat)
    requires j <= |T| && atom < |re.nodes| == |re.starts|
    ensures var acc := InMemory(re);
      var r := if j < |T| && acc(atom, T[j])
               then Longer(Back(acc, re.nodes, rest, T, j + 1, RunEnd(acc, atom, T, j + 1)), 1) else None;
      ok == r.Some? && len' == if ok then len + r.value else len
    decreases |re.nodes| - rest, |T| + 3
  {
    hide InMemory;
    if j == |T| { return false, len; }
    var takes := OneMatch(re, atom, T[j]);
    if !takes { return false, len; }
    var hit, sub := MatchStar(re, atom, rest, T, j + 1, 0);
    if hit { return true, len + 1 + sub; }
    return false, len;
  }

  // What a search reports: the leftmost offset where the program matches, and the
  // length of a match there; -1 exactly when there is none. An anchored program is
  // tried at offset 0 only.
  ghost predicate Found(acc: Accept, P: seq<Node>, T: string, pos: int, len: nat) {
    var b: nat := First(P);
    if pos < 0 then pos == -1 && forall x: nat | Tried(P, T, x) :: !Matches(acc, P, b, T, x)
    else
      && Tried(P, T, pos) && pos + len <= |T| && Lang(acc, P, b, T, pos, pos + len)
      && forall x: nat | x < pos :: !Matches(acc, P, b, T, x)
  }

  // A leading `^` is passed over, and then only offset 0 is tried.
  function First(P: seq<Node>): nat { if P != [] && P[0].Begin? then 1 else 0 }
  predicate Tried(P: seq<Node>, T: string, x: nat) { x <= |T| && (First(P) == 1 ==> x == 0) }

  // re_matchp.
  method ReMatchp(re: Prog, T: string) returns (pos: int, len: nat)
    requires |re.starts| == |re.nodes|
    ensures Found(InMemory(re), re.nodes, T, pos, len)
  {
    hide InMemory, Here;
    ghost var acc := InMemory(re);
    var anchored := re.nodes != [] && re.nodes[0].Begin?;
    var b := if anchored then 1 else 0;
    var x := 0;
    while true
      invariant x <= |T| && (anchored ==> x == 0)
      invariant forall y: nat | y < x :: !Matches(acc, re.nodes, b, T, y)
      decreases |T| - x
    {
      var hit, n := MatchHere(re, b, T, x, 0);
      HereIff(acc, re.nodes, b, T, x);
      HereSound(acc, re.nodes, b, T, x);
      if hit {
        return x, n;
      }
      if anchored || x == |T| { return -1, 0; }
      x := x + 1;
    }
  }

  // What is found depends only on which characters of the text the atoms accept.
  lemma FoundAgrees(a: Accept, b: Accept, P: seq<Node>, T: string, pos: int, len: nat)
    requires AgreeOn(a, b, P, T) && AgreeOn(b, a, P, T) && Found(a, P, T, pos, len)
    ensures Found(b, P, T, pos, len)
  {
    hide AgreeOn;
    var f := if P != [] && P[0].Begin? then 1 else 0;
    if pos >= 0 { LangAgrees(a, b, P, f, T, pos, pos + len); }
    forall x: nat ensures Matches(a, P, f, T, x) == Matches(b, P, f, T, x) {
      if Matches(a, P, f, T, x) { MatchesAgree(a, b, P, f, T, x); }
      if Matches(b, P, f, T, x) { MatchesAgree(b, a, P, f, T, x); }
    }
  }

  lemma MatchesAgree(a: Accept, b: Accept, P: seq<Node>, i: nat, T: string, j: nat)
    requires AgreeOn(a, b, P, T) && Matches(a, P, i, T, j)
    ensures Matches(b, P, i, T, j)
  {
    var k :| j <= k <= |T| && Lang(a, P, i, T, j, k);
    LangAgrees(a, b, P, i, T, j, k);
  }
}
