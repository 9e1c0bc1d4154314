// The backtracking regular-expression matcher (sdk/re/re.c): what a compiled
// program matches, and that the greedy search finds a match exactly when one
// exists, at the leftmost offset.

module Regex {
  import opened Chars
  import opened Wrappers

  // ----- Programs ------------------------------------------------------------

  // `Meta` is one of \d \D \w \W \s \S; a class keeps its text.
  datatype Node =
    | Dot | Begin | End | Question | Star | Plus
    | Char(ch: char)
    | Class(neg: bool, cls: string)
    | Meta(m: char)

  predicate MetaMatch(c: char, m: char) {
    if m == 'd' then IsDigit(c)
    else if m == 'D' then !IsDigit(c)
    else if m == 'w' then IsNameChar(c)
    else if m == 'W' then !IsNameChar(c)
    else if m == 's' then IsSpace(c)
    else if m == 'S' then !IsSpace(c)
    else c == m
  }

  // Members of a class text from position `i`: escapes, ranges, single characters, a
  // backslash at the end among these.
  predicate ClassMatch(c: char, cls: string, i: nat)
    decreases |cls| - i
  {
    if i >= |cls| then false
    else if cls[i] == '\\' && i + 1 < |cls| then MetaMatch(c, cls[i + 1]) || ClassMatch(c, cls, i + 2)
    else if i + 2 < |cls| && cls[i + 1] == '-' then cls[i] <= c <= cls[i + 2] || ClassMatch(c, cls, i + 3)
    else c == cls[i] || ClassMatch(c, cls, i + 1)
  }

  // Does one atom, as it is written, accept one character? Anchors and quantifiers
  // accept none.
  predicate One(n: Node, c: char) {
    match n
    case Dot => true
    case Char(ch) => c == ch
    case Class(neg, cls) => ClassMatch(c, cls, 0) != neg
    case Meta(m) => MetaMatch(c, m)
    case _ => false
  }

  // The matcher only asks which atoms accept which characters. As written:
  type Accept = (nat, char) -> bool

  function AsWritten(P: seq<Node>): Accept { (i: nat, c: char) => i < |P| && One(P[i], c) }

  datatype Shape = Done | AtEnd | Starred | Plussed | Optional | Single

  // How the matcher reads the program at node `i`.
  function ShapeAt(P: seq<Node>, i: nat): (s: Shape)
    ensures s == Done ==> i >= |P|
    ensures s != Done ==> i < |P|
    ensures s == Starred || s == Plussed || s == Optional ==> i + 2 <= |P|
  {
    if i >= |P| then Done
    else if P[i].End? && i + 1 == |P| then AtEnd
    else if i + 1 < |P| && P[i + 1].Star? then Starred
    else if i + 1 < |P| && P[i + 1].Plus? then Plussed
    else if i + 1 < |P| && P[i + 1].Question? then Optional
    else Single
  }

  // ----- The language of a program --------------------------------------------

  predicate Run(acc: Accept, n: nat, T: string, j: nat, m: nat) {
    j <= m <= |T| && forall x | j <= x < m :: acc(n, T[x])
  }

  // T[j..k] is in the language of the program from node `i` on. `$` at the end
  // of the program also demands the end of the text.
  ghost predicate Lang(acc: Accept, P: seq<Node>, i: nat, T: string, j: nat, k: nat)
    decreases |P| - i
  {
    j <= k <= |T| &&
    match ShapeAt(P, i)
    case Done => j == k
    case AtEnd => j == k && j == |T|
    case Starred => exists m | j <= m <= k :: Run(acc, i, T, j, m) && Lang(acc, P, i + 2, T, m, k)
    case Plussed => exists m | j < m <= k :: Run(acc, i, T, j, m) && Lang(acc, P, i + 2, T, m, k)
    case Optional => Lang(acc, P, i + 2, T, j, k) || (j < k && acc(i, T[j]) && Lang(acc, P, i + 2, T, j + 1, k))
    case Single => j < k && acc(i, T[j]) && Lang(acc, P, i + 1, T, j + 1, k)
  }

  ghost predicate Matches(acc: Accept, P: seq<Node>, i: nat, T: string, j: nat) {
    exists k | j <= k <= |T| :: Lang(acc, P, i, T, j, k)
  }

  // ----- The search -------------------------------------------------------------

  function Longer(o: Option<nat>, n: nat): Option<nat> {
    match o
    case None => None
    case Some(x) => Some(n + x)
  }

  function RunEnd(acc: Accept, n: nat, T: string, j: nat): (m: nat)
    requires j <= |T|
    ensures j <= m <= |T|
    decreases |T| - j
  {
    if j < |T| && acc(n, T[j]) then RunEnd(acc, n, T, j + 1) else j
  }

  // match_here: the length of the match the greedy search settles on.
  function Here(acc: Accept, P: seq<Node>, i: nat, T: string, j: nat): (r: Option<nat>)
    requires j <= |T|
    decreases |P| - i, |T| - j + 1
  {
    match ShapeAt(P, i)
    case Done => Some(0)
    case AtEnd => if j == |T| then Some(0) else None
    case Starred => Back(acc, P, i + 2, T, j, RunEnd(acc, i, T, j))
    case Plussed =>
      if j < |T| && acc(i, T[j]) then Longer(Back(acc, P, i + 2, T, j + 1, RunEnd(acc, i, T, j + 1)), 1) else None
    case Optional =>
      if j < |T| && acc(i, T[j]) && Here(acc, P, i + 2, T, j + 1).Some? then Longer(Here(acc, P, i + 2, T, j + 1), 1)
      else Here(acc, P, i + 2, T, j)
    case Single =>
      if j < |T| && acc(i, T[j]) then Longer(Here(acc, P, i + 1, T, j + 1), 1) else None
  }

  // Backtracking of match_star: give characters back until the rest matches.
  function Back(acc: Accept, P: seq<Node>, i: nat, T: string, j: nat, m: nat): (r: Option<nat>)
    requires j <= m <= |T|
    decreases |P| - i, |T| + 2 + m - j
  {
    if Here(acc, P, i, T, m).Some? then Longer(Here(acc, P, i, T, m), m - j)
    else if m == j then None
    else Back(acc, P, i, T, j, m - 1)
  }

  // ----- Sound and complete -------------------------------------------------------

  lemma {:induction false} RunEndIsLongest(acc: Accept, n: nat, T: string, j: nat, m: nat)
    requires j <= |T|
    ensures Run(acc, n, T, j, RunEnd(acc, n, T, j))
    ensures Run(acc, n, T, j, m) ==> m <= RunEnd(acc, n, T, j)
    decreases |T| - j
  {
    if j < |T| && acc(n, T[j]) { RunEndIsLongest(acc, n, T, j + 1, if m > j then m else j + 1); }
  }

  lemma StarLang(acc: Accept, P: seq<Node>, i: nat, T: string, j: nat, m: nat, k: nat)
    requires Run(acc, i, T, j, m) && Lang(acc, P, i + 2, T, m, k)
    requires ShapeAt(P, i) == Starred || (ShapeAt(P, i) == Plussed && j < m)
    ensures Lang(acc, P, i, T, j, k)
  {}

  // Every success is a match of exactly the reported length.
  lemma {:induction false} HereSound(acc: Accept, P: seq<Node>, i: nat, T: string, j: nat)
    requires j <= |T|
    ensures var r := Here(acc, P, i, T, j); r.Some? ==> j + r.value <= |T| && Lang(acc, P, i, T, j, j + r.value)
    decreases |P| - i, |T| - j + 1, 1
  {
    match ShapeAt(P, i)
    case Starred => RunSound(acc, P, i, T, j);
    case Plussed => RunSound(acc, P, i, T, j);
    case Optional =>
      HereSound(acc, P, i + 2, T, j);
      if j < |T| { HereSound(acc, P, i + 2, T, j + 1); }
    case Single =>
      if j < |T| { HereSound(acc, P, i + 1, T, j + 1); }
    case _ =>
  }

  lemma {:induction false} RunSound(acc: Accept, P: seq<Node>, i: nat, T: string, j: nat)
    requires j <= |T| && (ShapeAt(P, i) == Starred || ShapeAt(P, i) == Plussed)
    ensures var r := Here(acc, P, i, T, j); r.Some? ==> j + r.value <= |T| && Lang(acc, P, i, T, j, j + r.value)
    decreases |P| - i, |T| - j + 1, 0
  {
    var r := Here(acc, P, i, T, j);
    if ShapeAt(P, i) == Starred {
      RunEndIsLongest(acc, i, T, j, j);
      var m := BackSound(acc, P, i + 2, T, j, RunEnd(acc, i, T, j));
      if r.Some? { StarLang(acc, P, i, T, j, m, j + r.value); }
    } else if j < |T| && acc(i, T[j]) {
      RunEndIsLongest(acc, i, T, j + 1, j + 1);
      var m := BackSound(acc, P, i + 2, T, j + 1, RunEnd(acc, i, T, j + 1));
      if r.Some? { StarLang(acc, P, i, T, j, m, j + r.value); }
    }
  }

  // Where backtracking stopped, and that no longer run had a match behind it.
  lemma {:induction false} BackSound(acc: Accept, P: seq<Node>, i: nat, T: string, j: nat, e: nat) returns (m: nat)
    requires j <= e <= |T|
    ensures j <= m <= e
    ensures var r := Back(acc, P, i, T, j, e);
      r.Some? ==> j + r.value <= |T| && m <= j + r.value && Lang(acc, P, i, T, m, j + r.value)
    ensures var r := Back(acc, P, i, T, j, e);
      r.Some? ==> Here(acc, P, i, T, m).Some? && forall x | m < x <= e :: Here(acc, P, i, T, x).None?
    decreases |P| - i, |T| + 2 + e - j, 0
  {
    HereSound(acc, P, i, T, e);
    if Here(acc, P, i, T, e).Some? || e == j {
      m := e;
    } else {
      m := BackSound(acc, P, i, T, j, e - 1);
    }
  }

  // If anything matches here, the search succeeds.
  lemma {:induction false} HereComplete(acc: Accept, P: seq<Node>, i: nat, T: string, j: nat, k: nat)
    requires j <= |T| && Lang(acc, P, i, T, j, k)
    ensures Here(acc, P, i, T, j).Some?
    decreases |P| - i, |T| - j + 1
  {
    match ShapeAt(P, i)
    case Done =>
    case AtEnd =>
    case Starred =>
      var m :| j <= m <= k && Run(acc, i, T, j, m) && Lang(acc, P, i + 2, T, m, k);
      RunEndIsLongest(acc, i, T, j, m);
      BackComplete(acc, P, i + 2, T, j, RunEnd(acc, i, T, j), m, k);
    case Plussed =>
      var m :| j < m <= k && Run(acc, i, T, j, m) && Lang(acc, P, i + 2, T, m, k);
      assert Run(acc, i, T, j + 1, m);
      RunEndIsLongest(acc, i, T, j + 1, m);
      BackComplete(acc, P, i + 2, T, j + 1, RunEnd(acc, i, T, j + 1), m, k);
    case Optional =>
      if Lang(acc, P, i + 2, T, j, k) { HereComplete(acc, P, i + 2, T, j, k); }
      else { HereComplete(acc, P, i + 2, T, j + 1, k); }
    case Single =>
      HereComplete(acc, P, i + 1, T, j + 1, k);
  }

  lemma {:induction false} BackComplete(acc: Accept, P: seq<Node>, i: nat, T: string, j: nat, e: nat, m: nat, k: nat)
    requires j <= m <= e <= |T| && Lang(acc, P, i, T, m, k)
    ensures Back(acc, P, i, T, j, e).Some?
    decreases |P| - i, |T| + 2 + e - j
  {
    if e == m { HereComplete(acc, P, i, T, m, k); }
    else if Here(acc, P, i, T, e).None? { BackComplete(acc, P, i, T, j, e - 1, m, k); }
  }

  // match_here succeeds exactly where the program matches.
  lemma HereIff(acc: Accept, P: seq<Node>, i: nat, T: string, j: nat)
    requires j <= |T|
    ensures Here(acc, P, i, T, j).Some? <==> Matches(acc, P, i, T, j)
  {
    HereSound(acc, P, i, T, j);
    if Matches(acc, P, i, T, j) {
      var k :| j <= k <= |T| && Lang(acc, P, i, T, j, k);
      HereComplete(acc, P, i, T, j, k);
    }
  }

  // The search kept the run up to m', and no longer run could have been kept.
  ghost predicate KeptRun(acc: Accept, P: seq<Node>, i: nat, T: string, j: nat, m': nat)
    requires j <= m' <= |T| && i < |P|
  {
    && Here(acc, P, i + 2, T, m').Some?
    && Here(acc, P, i, T, j) == Some(m' - j + Here(acc, P, i + 2, T, m').value)
    && forall x | m' < x <= |T| :: !(Run(acc, i, T, j, x) && Matches(acc, P, i + 2, T, x))
  }

  // `*` is greedy: the run it keeps is the longest one the rest can follow.
  lemma StarIsGreedy(acc: Accept, P: seq<Node>, i: nat, T: string, j: nat, m: nat)
    requires j <= |T| && ShapeAt(P, i) == Starred && Run(acc, i, T, j, m) && Matches(acc, P, i + 2, T, m)
    ensures exists m' | m <= m' <= |T| :: Run(acc, i, T, j, m') && KeptRun(acc, P, i, T, j, m')
  {
    var e := RunEnd(acc, i, T, j);
    RunEndIsLongest(acc, i, T, j, m);
    HereIff(acc, P, i + 2, T, m);
    var m' := BackGreedy(acc, P, i + 2, T, j, e, m);
    forall x | m' < x <= |T| ensures !(Run(acc, i, T, j, x) && Matches(acc, P, i + 2, T, x)) {
      RunEndIsLongest(acc, i, T, j, x);
      HereIff(acc, P, i + 2, T, x);
    }
    assert Run(acc, i, T, j, m');
  }

  lemma {:induction false} BackGreedy(acc: Accept, P: seq<Node>, i: nat, T: string, j: nat, e: nat, m: nat)
    returns (m': nat)
    requires j <= m <= e <= |T| && Here(acc, P, i, T, m).Some?
    ensures m <= m' <= e && Here(acc, P, i, T, m').Some?
    ensures Back(acc, P, i, T, j, e) == Some(m' - j + Here(acc, P, i, T, m').value)
    ensures forall x | m' < x <= e :: Here(acc, P, i, T, x).None?
    decreases e
  {
    if Here(acc, P, i, T, e).Some? { m' := e; } else { m' := BackGreedy(acc, P, i, T, j, e - 1, m); }
  }

  // ----- What the matcher depends on -------------------------------------------------

  // Both accept the same characters of the text, atom by atom.
  ghost predicate AgreeOn(a: Accept, b: Accept, P: seq<Node>, T: string) {
    forall i: nat, x | i < |P| && 0 <= x < |T| :: a(i, T[x]) == b(i, T[x])
  }

  lemma {:induction false} LangAgrees(a: Accept, b: Accept, P: seq<Node>, i: nat, T: string, j: nat, k: nat)
    requires AgreeOn(a, b, P, T) && Lang(a, P, i, T, j, k)
    ensures Lang(b, P, i, T, j, k)
    decreases |P| - i
  {
    match ShapeAt(P, i)
    case Done =>
    case AtEnd =>
    case Starred =>
      var m :| j <= m <= k && Run(a, i, T, j, m) && Lang(a, P, i + 2, T, m, k);
      LangAgrees(a, b, P, i + 2, T, m, k);
      assert Run(b, i, T, j, m);
    case Plussed =>
      var m :| j < m <= k && Run(a, i, T, j, m) && Lang(a, P, i + 2, T, m, k);
      LangAgrees(a, b, P, i + 2, T, m, k);
      assert Run(b, i, T, j, m);
    case Optional =>
      if Lang(a, P, i + 2, T, j, k) { LangAgrees(a, b, P, i + 2, T, j, k); }
      else { LangAgrees(a, b, P, i + 2, T, j + 1, k); }
    case Single =>
      LangAgrees(a, b, P, i + 1, T, j + 1, k);
  }
}
