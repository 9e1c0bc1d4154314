// From the text of a script to its statements (run_script in
// apps/system/shell_core/shell_cmds.c): how separators, quotes, comments and inline
// bodies are cut, how many statements there is room for, and what then runs.

module ShellCut {
  import opened Chars
  import opened Text
  import Sh = ShellControl
  import opened ShellEngine

  const MAX_STMTS := 190

  // ----- Cutting -----------------------------------------------------------------------

  predicate IsSep(c: char) { c == ' ' || c == '\t' || c == '\n' || c == '\r' || c == ';' }
  predicate IsTail(c: char) { c == ' ' || c == '\t' || c == '\r' }

  function SkipSeps(t: string, p: nat): (q: nat)
    requires p <= |t|
    ensures p <= q <= |t| && (q < |t| ==> !IsSep(t[q]))
    decreases |t| - p
  {
    if p < |t| && IsSep(t[p]) then SkipSeps(t, p + 1) else p
  }

  // Inside which quotes a scan is, or that it is over. A quote does not cross a newline.
  datatype Quote = Plain | Single | Double | Over

  function Turn(c: char, m: Quote): Quote {
    match m
    case Plain =>
      if c == ';' || c == '\n' then Over else if c == '\'' then Single else if c == '"' then Double else Plain
    case Single => if c == '\n' then Over else if c == '\'' then Plain else Single
    case Double => if c == '\n' then Over else if c == '"' then Plain else Double
    case Over => Over
  }

  function StmtEnd(t: string, p: nat, m: Quote): (e: nat)
    requires p <= |t|
    ensures p <= e <= |t|
    decreases |t| - p
  {
    if p == |t| || Turn(t[p], m) == Over then p else StmtEnd(t, p + 1, Turn(t[p], m))
  }

  function TrimTail(t: string, a: nat, e: nat): (r: nat)
    requires a <= e <= |t|
    ensures a <= r <= e
  {
    if a < e && IsTail(t[e - 1]) then TrimTail(t, a, e - 1) else e
  }

  // A cut text is a comment, or a keyword with its inline body, or one statement.
  function Pieces(s: string): (r: seq<string>)
    ensures |r| <= 2
  {
    if s == "" || s[0] == '#' then []
    else
      var k := Opener(s);
      if k == "" || s == k then [s] else [k] + Body(Sh.AfterBlanks(s[|k|..]))
  }

  function Body(s: string): (r: seq<string>)
    ensures |r| <= 1
  {
    if s == "" then [] else [s]
  }

  // The keyword that opens a body, if the text begins with one.
  function Opener(s: string): (k: string)
    ensures k <= s
  {
    if Sh.HasKw(s, "then") then "then"
    else if Sh.HasKw(s, "do") then "do"
    else if Sh.HasKw(s, "else") then "else" else ""
  }

  function Limit(S: seq<string>, room: nat): seq<string> { if |S| <= room then S else S[..room] }

  // The statements from `p` on, with `n` already there.
  function Cut(t: string, p: nat, n: nat): seq<string>
    requires p <= |t|
    decreases |t| - p
  {
    var q := SkipSeps(t, p);
    if n >= MAX_STMTS || q == |t| then []
    else
      var e := StmtEnd(t, q, Plain);
      StmtEndMoves(t, q);
      var S := Limit(Pieces(t[q..TrimTail(t, q, e)]), MAX_STMTS - n);
      S + Cut(t, After(t, e), n + |S|)
  }

  function After(t: string, e: nat): nat { if e < |t| then e + 1 else e }

  lemma StmtEndMoves(t: string, q: nat)
    requires q < |t| && !IsSep(t[q])
    ensures q < StmtEnd(t, q, Plain)
  {}

  // ----- Lines and gaps ----------------------------------------------------------------

  function Through(s: string, m: Quote): Quote
    decreases |s|
  {
    if s == "" then m else Through(s[1..], Turn(s[0], m))
  }

  // A text the cutter takes as a whole: no blank at its ends, and no separator in it
  // outside quotes. It may leave a quote open.
  predicate Solid(s: string) {
    s != "" && !IsSep(s[0]) && !IsTail(s[|s| - 1]) && Through(s, Plain) != Over
  }

  predicate AllSeps(g: string) { forall k | 0 <= k < |g| :: IsSep(g[k]) }

  // Behind blanks, the first separator ends a statement that leaves the scan at `m`:
  // a semicolon or a newline, and inside a quote only a newline.
  predicate Ends(g: string, m: Quote, last: bool)
    decreases |g|
  {
    if g == "" then last
    else if IsTail(g[0]) then Ends(g[1..], m, last)
    else Turn(g[0], m) == Over
  }

  // Solid texts, each with the separators behind it; the last may have none.
  datatype Line = Line(text: string, gap: string)

  ghost predicate Lines(ls: seq<Line>)
    decreases |ls|
  {
    ls != [] ==>
      && Solid(ls[0].text) && AllSeps(ls[0].gap) && Ends(ls[0].gap, Through(ls[0].text, Plain), |ls| == 1)
      && Lines(ls[1..])
  }

  function Laid(ls: seq<Line>): string
    decreases |ls|
  {
    if ls == [] then "" else ls[0].text + (ls[0].gap + Laid(ls[1..]))
  }

  function Stmts(ls: seq<Line>): seq<string>
    decreases |ls|
  {
    if ls == [] then [] else Pieces(ls[0].text) + Stmts(ls[1..])
  }

  lemma {:induction false} SkipGap(t: string, p: nat, g: string)
    requires At(t, p, g) && AllSeps(g)
    ensures p + |g| <= |t| && SkipSeps(t, p) == SkipSeps(t, p + |g|)
    decreases |g|
  {
    if g != [] { SkipGap(t, p + 1, g[1..]); }
  }

  lemma {:induction false} ThroughEnd(t: string, p: nat, s: string, m: Quote)
    requires At(t, p, s) && Through(s, m) != Over
    ensures p + |s| <= |t| && StmtEnd(t, p, m) == StmtEnd(t, p + |s|, Through(s, m))
    decreases |s|
  {
    if s != [] {
      if Turn(s[0], m) == Over { OverStays(s[1..]); }
      ThroughEnd(t, p + 1, s[1..], Turn(s[0], m));
    }
  }

  lemma {:induction false} OverStays(s: string)
    ensures Through(s, Over) == Over
    decreases |s|
  {
    if s != "" { OverStays(s[1..]); }
  }

  // Behind a text, the statement ends at the first break of the gap; the blanks
  // before it are trimmed and the separators behind it skipped.
  lemma {:induction false} GapEnd(t: string, p: nat, g: string, m: Quote)
    requires At(t, p, g) && AllSeps(g) && Ends(g, m, p + |g| == |t|) && m != Over
    ensures p + |g| <= |t|
    ensures var e := StmtEnd(t, p, m);
      && (forall k | p <= k < e :: IsTail(t[k]))
      && SkipSeps(t, After(t, e)) == SkipSeps(t, p + |g|)
    decreases |g|
  {
    hide AllSeps, SkipSeps;
    if g != "" {
      SepsTail(g);
      SkipGap(t, p, g);
      if IsTail(g[0]) {
        TailKeeps(g[0], m);
        GapEnd(t, p + 1, g[1..], m);
      } else {
        SkipGap(t, p + 1, g[1..]);
      }
    }
  }

  lemma SepsTail(g: string)
    requires AllSeps(g) && g != ""
    ensures IsSep(g[0]) && AllSeps(g[1..])
  {}

  lemma TailKeeps(c: char, m: Quote)
    requires IsTail(c) && m != Over
    ensures Turn(c, m) == m
  {}

  lemma {:induction false} TrimBack(t: string, a: nat, m: nat, e: nat)
    requires a < m <= e <= |t| && !IsTail(t[m - 1]) && forall k | m <= k < e :: IsTail(t[k])
    ensures TrimTail(t, a, e) == m
    decreases e
  {
    if m < e { TrimBack(t, a, m, e - 1); }
  }

  // One line is one turn of the cutter.
  lemma CutLine(t: string, p: nat, s: string, g: string, n: nat)
    requires Solid(s) && AllSeps(g) && n < MAX_STMTS
    requires At(t, p, s) && At(t, p + |s|, g) && Ends(g, Through(s, Plain), p + |s| + |g| == |t|)
    ensures p + |s| + |g| <= |t|
    ensures var S := Limit(Pieces(s), MAX_STMTS - n);
      Cut(t, p, n) == S + Cut(t, p + |s| + |g|, n + |S|)
  {
    hide Pieces, StmtEnd, TrimTail, Ends, AllSeps, Cut, At, Solid, SkipSeps, Limit, IsTail, After;
    SolidAt(t, p, s);
    ThroughEnd(t, p, s, Plain);
    GapEnd(t, p + |s|, g, Through(s, Plain));
    var e := StmtEnd(t, p, Plain);
    TrimBack(t, p, p + |s|, e);
    AtFits(t, p, s);
    CutStep(t, p, s, n);
    SameCut(t, After(t, e), p + |s| + |g|, n + |Limit(Pieces(s), MAX_STMTS - n)|);
  }

  lemma CutStep(t: string, p: nat, s: string, n: nat)
    requires p < |t| && SkipSeps(t, p) == p && n < MAX_STMTS
    requires s == t[p..TrimTail(t, p, StmtEnd(t, p, Plain))]
    ensures var S := Limit(Pieces(s), MAX_STMTS - n);
      Cut(t, p, n) == S + Cut(t, After(t, StmtEnd(t, p, Plain)), n + |S|)
  {
    hide Pieces, Limit, TrimTail, StmtEnd;
  }

  lemma SolidAt(t: string, p: nat, s: string)
    requires Solid(s) && At(t, p, s)
    ensures s != "" && p + |s| <= |t| && SkipSeps(t, p) == p < |t|
    ensures !IsTail(t[p + |s| - 1]) && Through(s, Plain) != Over
  {
    AtIndex(t, p, s, 0);
    AtIndex(t, p, s, |s| - 1);
  }

  lemma SameCut(t: string, p: nat, q: nat, n: nat)
    requires p <= |t| && q <= |t| && SkipSeps(t, p) == SkipSeps(t, q)
    ensures Cut(t, p, n) == Cut(t, q, n)
  {
    hide SkipSeps, StmtEnd, TrimTail, Pieces, Limit;
  }

  lemma {:induction false} CutLaidAt(t: string, p: nat, ls: seq<Line>, n: nat)
    requires Lines(ls) && At(t, p, Laid(ls)) && p + |Laid(ls)| == |t| && n <= MAX_STMTS
    ensures Cut(t, p, n) == Limit(Stmts(ls), MAX_STMTS - n)
    decreases |ls|
  {
    hide At, Pieces, Cut, Solid, AllSeps, Ends, Limit, Lines, Laid, Stmts;
    if ls == [] || n == MAX_STMTS {
      NoLines(ls);
      CutNone(t, p, n);
    } else {
      LinesStep(ls);
      var s, g := ls[0].text, ls[0].gap;
      AtSplit(t, p, s, g + Laid(ls[1..]));
      AtSplit(t, p + |s|, g, Laid(ls[1..]));
      CutLine(t, p, s, g, n);
      var S := Limit(Pieces(s), MAX_STMTS - n);
      LimitCat(Pieces(s), Stmts(ls[1..]), MAX_STMTS - n);
      CutLaidAt(t, p + |s| + |g|, ls[1..], n + |S|);
    }
  }

  lemma NoLines(ls: seq<Line>)
    ensures Limit(Stmts(ls), 0) == []
    ensures ls == [] ==> Laid(ls) == "" && forall room: nat :: Limit(Stmts(ls), room) == []
  {}

  lemma LinesStep(ls: seq<Line>)
    requires ls != [] && Lines(ls)
    ensures var s, g := ls[0].text, ls[0].gap;
      && Solid(s) && AllSeps(g) && Ends(g, Through(s, Plain), Laid(ls[1..]) == "") && Lines(ls[1..])
      && Laid(ls) == s + (g + Laid(ls[1..])) && |Laid(ls)| == |s| + |g| + |Laid(ls[1..])|
      && Stmts(ls) == Pieces(s) + Stmts(ls[1..])
  {
    hide Ends, AllSeps, Pieces, Through;
    if |ls| > 1 { assert ls[1..] != [] && Laid(ls[1..]) != ""; }
  }

  lemma CutNone(t: string, p: nat, n: nat)
    requires p <= |t| && (p == |t| || n >= MAX_STMTS)
    ensures Cut(t, p, n) == []
  {}

  lemma LimitCat(a: seq<string>, b: seq<string>, room: nat)
    ensures |Limit(a, room)| <= room
    ensures Limit(a + b, room) == Limit(a, room) + Limit(b, room - |Limit(a, room)|)
  {}

  // Lines laid out in any way come out as their statements in order, the first 190
  // of them.
  lemma CutLaid(pre: string, ls: seq<Line>)
    requires AllSeps(pre) && Lines(ls)
    ensures Cut(pre + Laid(ls), 0, 0) == if |Stmts(ls)| <= 190 then Stmts(ls) else Stmts(ls)[..190]
  {
    hide At, Cut, Stmts, Laid, Lines, AllSeps;
    var t := pre + Laid(ls);
    assert t == [] + pre + Laid(ls) && t == pre + Laid(ls) + [];
    AtHere([], pre, Laid(ls));
    AtHere(pre, Laid(ls), []);
    SkipGap(t, 0, pre);
    SameCut(t, 0, |pre|, 0);
    CutLaidAt(t, |pre|, ls, 0);
  }

  // ----- What a line is cut to -------------------------------------------------------------

  // A body may stand behind its keyword.
  lemma InlineBody(k: string, g: string, s: string)
    requires k == "then" || k == "do" || k == "else"
    requires g != "" && (forall i | 0 <= i < |g| :: IsBlank(g[i])) && s != "" && !IsBlank(s[0])
    ensures Pieces(k + (g + s)) == [k, s]
  {
    var t := k + (g + s);
    assert t[|k|..] == g + s && t[0] == k[0] && t[1] == k[1] && t[|k|] == g[0];
    SkipAll(g, s);
    assert Sh.HasKw(t, k);
    assert Opener(t) == k by { OpenerIs(t, k); }
  }

  lemma OpenerIs(t: string, k: string)
    requires Sh.HasKw(t, k) && (k == "then" || k == "do" || k == "else")
    ensures Opener(t) == k
  {
    assert |t| >= 2 && t[0] == k[0] && t[1] == k[1];
    assert Sh.HasKw(t, "then") ==> t[0] == 't';
    assert Sh.HasKw(t, "do") ==> t[0] == 'd';
    assert Sh.HasKw(t, "else") ==> t[0] == 'e';
  }

  lemma SkipAll(g: string, s: string)
    requires (forall i | 0 <= i < |g| :: IsBlank(g[i])) && s != "" && !IsBlank(s[0])
    ensures Sh.AfterBlanks(g + s) == s
  {
    SkipTo(g + s, 0, |g|);
  }

  lemma {:induction false} SkipTo(t: string, p: nat, q: nat)
    requires p <= q < |t| && (forall i | p <= i < q :: IsBlank(t[i])) && !IsBlank(t[q])
    ensures SkipBlanks(t, p) == q
    decreases q - p
  {
    if p < q { SkipTo(t, p + 1, q); }
  }

  lemma PlainPiece(s: string)
    requires s != "" && s[0] != '#' && (Opener(s) == "" || Opener(s) == s)
    ensures Pieces(s) == [s]
  {}

  lemma LineAnd(l: Line, more: seq<Line>) returns (ls: seq<Line>)
    requires Lines(more) && Solid(l.text) && AllSeps(l.gap) && Ends(l.gap, Through(l.text, Plain), more == [])
    ensures Lines(ls) && ls != [] && Laid(ls) == l.text + (l.gap + Laid(more))
    ensures Stmts(ls) == Pieces(l.text) + Stmts(more)
  {
    hide Solid, AllSeps, Ends, Through, Pieces;
    ls := [l] + more;
    assert ls[1..] == more;
  }

  lemma TwoLines(a: string, gap: string, b: string)
    requires Solid(a) && Solid(b) && AllSeps(gap) && Ends(gap, Through(a, Plain), false)
    ensures Cut(a + (gap + b), 0, 0) == Pieces(a) + Pieces(b)
  {
    hide Solid, Cut, Pieces, AllSeps, Ends, Through, Lines;
    NoLine();
    NoGap(Through(b, Plain));
    var none := LineAnd(Line(b, ""), []);
    var ls := LineAnd(Line(a, gap), none);
    assert b + ("" + "") == b && "" + Laid(ls) == Laid(ls);
    CutLaid("", ls);
    assert Stmts(none) == Pieces(b);
  }

  lemma NoLine()
    ensures Lines([]) && Laid([]) == "" && Stmts([]) == []
  {}

  lemma NoGap(m: Quote)
    ensures Ends("", m, true) && AllSeps("")
  {}

  // Behind the `#` of a comment the cutter still sees quotes and semicolons: what
  // follows a semicolon outside quotes is a statement, and runs.
  lemma CommentEnds(c: string, s: string)
    requires Solid(c) && c[0] == '#' && Through(c, Plain) == Plain && Solid(s) && Pieces(s) == [s]
    ensures Cut(c + (";" + s), 0, 0) == [s]
  {
    hide Solid, Cut, Through;
    TwoLines(c, ";", s);
    assert Pieces(c) == [] && [] + [s] == [s];
  }

  lemma {:induction false} ThroughCat(a: string, b: string, m: Quote)
    ensures Through(a + b, m) == Through(b, Through(a, m))
    decreases |a|
  {
    if a == "" {
      assert a + b == b;
    } else {
      assert (a + b)[1..] == a[1..] + b && (a + b)[0] == a[0];
      ThroughCat(a[1..], b, Turn(a[0], m));
    }
  }

  // A semicolon behind an apostrophe, or behind a quotation mark, is hidden: the rest
  // of the line belongs to the comment, and only the next line runs.
  lemma CommentHides(c: string, s: string, next: string)
    requires Solid(c) && c[0] == '#' && Through(c, Plain) != Plain
    requires s != "" && !IsTail(s[|s| - 1]) && Through(s, Through(c, Plain)) != Over
    requires Solid(next) && Pieces(next) == [next]
    ensures Cut((c + (";" + s)) + ("\n" + next), 0, 0) == [next]
  {
    hide Cut;
    var all := c + (";" + s);
    HiddenSolid(c, s);
    NewlineEnds(Through(all, Plain));
    TwoLines(all, "\n", next);
    assert Pieces(all) == [] && [] + [next] == [next];
  }

  lemma HiddenSolid(c: string, s: string)
    requires Solid(c) && Through(c, Plain) != Plain
    requires s != "" && !IsTail(s[|s| - 1]) && Through(s, Through(c, Plain)) != Over
    ensures var all := c + (";" + s); Solid(all) && all[0] == c[0]
  {
    var all, m := c + (";" + s), Through(c, Plain);
    ThroughCat(c, ";" + s, Plain);
    ThroughCat(";", s, m);
    assert Through(";", m) == m;
    assert all[0] == c[0] && all[|all| - 1] == s[|s| - 1];
  }

  lemma NewlineEnds(m: Quote)
    ensures Ends("\n", m, false) && AllSeps("\n")
  {}

  // ----- Quotes and separators, character by character ------------------------------------------

  // No quote and no separator but blanks.
  predicate Unquoted(s: string) {
    forall k | 0 <= k < |s| :: s[k] != '"' && s[k] != '\'' && s[k] != ';' && s[k] != '\n'
  }

  // Neither end of the text is cut away, and it is no comment.
  predicate Whole(t: string) {
    && t != "" && t[0] != ' ' && t[0] != '\t' && t[0] != '\r' && t[0] != ';' && t[0] != '\n' && t[0] != '#'
    && var c := t[|t| - 1]; c != ' ' && c != '\t' && c != '\r'
  }

  // then, do or else, alone or with something behind a blank.
  predicate Opening(t: string) {
    || ("then" <= t && (|t| == 4 || t[4] == ' ' || t[4] == '\t'))
    || ("do" <= t && (|t| == 2 || t[2] == ' ' || t[2] == '\t'))
    || ("else" <= t && (|t| == 4 || t[4] == ' ' || t[4] == '\t'))
  }

  lemma {:induction false} UnquotedStays(s: string)
    requires Unquoted(s)
    ensures Through(s, Plain) == Plain
    decreases |s|
  {
    if s != "" { UnquotedStays(s[1..]); }
  }

  lemma {:induction false} InsideStays(s: string, q: char)
    requires (q == '"' || q == '\'') && forall k | 0 <= k < |s| :: s[k] != q && s[k] != '\n'
    ensures var m := if q == '"' then Double else Single; Through(s, m) == m
    decreases |s|
  {
    if s != "" { InsideStays(s[1..], q); }
  }

  lemma OneLine(t: string)
    requires Whole(t) && !Opening(t) && Through(t, Plain) == Plain
    ensures Cut(t, 0, 0) == [t] && Solid(t) && Pieces(t) == [t]
  {
    hide Cut, Through;
    PlainPiece(t);
    NoLine();
    NoGap(Plain);
    assert Solid(t);
    hide Solid, Pieces;
    var ls := LineAnd(Line(t, ""), []);
    assert t + ("" + "") == t && "" + Laid(ls) == t;
    CutLaid("", ls);
    assert Stmts(ls) == [t] + [];
  }

  // Between two quotation marks, or two apostrophes, nothing separates: a text with one
  // such stretch is one statement.
  lemma QuotedIsOne(a: string, q: char, s: string, b: string)
    requires (q == '"' || q == '\'') && forall k | 0 <= k < |s| :: s[k] != q && s[k] != '\n'
    requires Unquoted(a) && Unquoted(b)
    requires var t := a + ([q] + (s + ([q] + b))); Whole(t) && !Opening(t)
    ensures var t := a + ([q] + (s + ([q] + b))); Cut(t, 0, 0) == [t]
  {
    hide Whole, Opening, Cut;
    var c, d, m := [q] + b, s + ([q] + b), if q == '"' then Double else Single;
    UnquotedStays(a); InsideStays(s, q); UnquotedStays(b);
    ThroughCat(a, [q] + d, Plain);
    ThroughCat([q], d, Plain);
    ThroughCat(s, c, m);
    ThroughCat([q], b, m);
    OneQuote(q);
    OneLine(a + ([q] + d));
  }

  lemma OneQuote(q: char)
    requires q == '"' || q == '\''
    ensures var m := if q == '"' then Double else Single; Through([q], Plain) == m && Through([q], m) == Plain
  {
    assert [q][1..] == "";
    assert Through([q][1..], Turn(q, Plain)) == Turn(q, Plain);
  }

  // Outside of them a semicolon or a newline separates, with any blanks and further
  // separators around it; blanks alone do not.
  lemma SeparatedAreTwo(pre: string, a: string, gap: string, b: string, post: string)
    requires Unquoted(a) && Whole(a) && !Opening(a) && Unquoted(b) && Whole(b) && !Opening(b)
    requires Separators(pre) && Separators(gap) && Separators(post)
    requires exists k | 0 <= k < |gap| :: gap[k] == ';' || gap[k] == '\n'
    ensures Cut(pre + (a + (gap + (b + (post + "")))), 0, 0) == [a, b]
  {
    hide Cut, Solid, Pieces, AllSeps, Ends, Through, Whole, Opening, Unquoted, Separators, Lines;
    UnquotedStays(a); UnquotedStays(b);
    OneLine(a); OneLine(b);
    GapBreaks(gap, false);
    SepsEnd(post);
    SameSeps(pre); SameSeps(gap); SameSeps(post);
    TwoStmts(pre, a, gap, b, post);
  }

  lemma TwoStmts(pre: string, a: string, gap: string, b: string, post: string)
    requires Solid(a) && Solid(b) && Pieces(a) == [a] && Pieces(b) == [b]
    requires AllSeps(pre) && AllSeps(gap) && AllSeps(post)
    requires Ends(gap, Through(a, Plain), false) && Ends(post, Through(b, Plain), true)
    ensures Cut(pre + (a + (gap + (b + (post + "")))), 0, 0) == [a, b]
  {
    hide Cut, Solid, Pieces, AllSeps, Ends, Through, Lines;
    NoLine();
    var last := LineAnd(Line(b, post), []);
    var ls := LineAnd(Line(a, gap), last);
    CutLaid(pre, ls);
    assert [b] + [] == [b] && [a] + [b] == [a, b];
  }

  predicate Separators(g: string) {
    forall k | 0 <= k < |g| :: g[k] == ' ' || g[k] == '\t' || g[k] == '\n' || g[k] == '\r' || g[k] == ';'
  }

  lemma SameSeps(g: string)
    requires Separators(g)
    ensures AllSeps(g)
  {}

  lemma {:induction false} GapBreaks(g: string, last: bool)
    requires Separators(g) && exists k | 0 <= k < |g| :: g[k] == ';' || g[k] == '\n'
    ensures Ends(g, Plain, last)
    decreases |g|
  {
    if IsTail(g[0]) {
      var k :| 0 <= k < |g| && (g[k] == ';' || g[k] == '\n');
      assert g[1..][k - 1] == g[k];
      GapBreaks(g[1..], last);
    }
  }

  lemma {:induction false} SepsEnd(g: string)
    requires Separators(g)
    ensures Ends(g, Plain, true)
    decreases |g|
  {
    if g != "" && IsTail(g[0]) { SepsEnd(g[1..]); }
  }

  // ----- Every text is laid out so ------------------------------------------------------------

  // The text from `p` on is separators and then lines.
  lemma {:induction false} EveryTextFrom(t: string, p: nat) returns (ls: seq<Line>)
    requires p <= |t|
    ensures Lines(ls) && t[p..] == t[p..SkipSeps(t, p)] + Laid(ls)
    ensures SkipSeps(t, p) == |t| ==> ls == []
    decreases |t| - p
  {
    hide StmtEnd, TrimTail, Solid, AllSeps, Ends, Through;
    var q := SkipSeps(t, p);
    if q == |t| {
      ls := [];
      assert t[p..] == t[p..q] + "";
    } else {
      StmtEndMoves(t, q);
      var e := StmtEnd(t, q, Plain);
      TrimStarts(t, q, e);
      var r := TrimTail(t, q, e);
      var more := EveryTextFrom(t, e);
      var gap := t[r..e] + t[e..SkipSeps(t, e)];
      SolidLine(t, q, r, e);
      GapEnds(t, q, r, e, more == []);
      ls := LineAnd(Line(t[q..r], gap), more);
      Reassemble(t, p, q, r, e, t[e..SkipSeps(t, e)], Laid(more));
    }
  }

  // So the lines are no special form of a text: every text has them.
  lemma EveryText(t: string) returns (pre: string, ls: seq<Line>)
    ensures AllSeps(pre) && Lines(ls) && t == pre + Laid(ls)
  {
    pre := t[0..SkipSeps(t, 0)];
    SkippedSeps(t, 0);
    ls := EveryTextFrom(t, 0);
    assert t[0..] == t;
  }

  lemma Reassemble(t: string, p: nat, q: nat, r: nat, e: nat, gap: string, rest: string)
    requires p <= q <= r <= e <= |t| && t[e..] == gap + rest
    ensures t[p..] == t[p..q] + (t[q..r] + ((t[r..e] + gap) + rest))
  {
    assert t[p..] == t[p..q] + (t[q..r] + (t[r..e] + t[e..]));
    assert (t[r..e] + gap) + rest == t[r..e] + (gap + rest);
  }

  lemma {:induction false} SkippedSeps(t: string, p: nat)
    requires p <= |t|
    ensures AllSeps(t[p..SkipSeps(t, p)])
    decreases |t| - p
  {
    if p < |t| && IsSep(t[p]) {
      SkippedSeps(t, p + 1);
      assert t[p..SkipSeps(t, p)] == [t[p]] + t[p + 1..SkipSeps(t, p + 1)];
    }
  }

  // How the scan stands at each place of a statement.
  lemma {:induction false} StmtThrough(t: string, q: nat, r: nat, m: Quote)
    requires q <= r <= |t| && r <= StmtEnd(t, q, m) && m != Over
    ensures Through(t[q..r], m) != Over && StmtEnd(t, r, Through(t[q..r], m)) == StmtEnd(t, q, m)
    decreases r - q
  {
    if q < r {
      assert t[q..r][0] == t[q] && t[q..r][1..] == t[q + 1..r];
      StmtThrough(t, q + 1, r, Turn(t[q], m));
    }
  }

  lemma {:induction false} Trimmed(t: string, a: nat, e: nat)
    requires a <= e <= |t|
    ensures var r := TrimTail(t, a, e);
      (forall k | r <= k < e :: IsTail(t[k])) && (r > a ==> !IsTail(t[r - 1]))
    decreases e
  {
    if a < e && IsTail(t[e - 1]) { Trimmed(t, a, e - 1); }
  }

  lemma SolidLine(t: string, q: nat, r: nat, e: nat)
    requires q < r <= e <= |t| && !IsSep(t[q]) && e == StmtEnd(t, q, Plain) && r == TrimTail(t, q, e)
    ensures Solid(t[q..r])
  {
    hide StmtEnd, TrimTail, IsTail, IsSep, Through;
    Trimmed(t, q, e);
    StmtThrough(t, q, r, Plain);
    assert t[q..r][0] == t[q] && t[q..r][|t[q..r]| - 1] == t[r - 1];
  }

  lemma {:induction false} TailsEnd(t: string, r: nat, e: nat, m: Quote, gap: string, last: bool)
    requires r <= e <= |t| && m != Over && (forall k | r <= k < e :: IsTail(t[k]))
    requires Ends(gap, m, last) && AllSeps(gap)
    ensures Ends(t[r..e] + gap, m, last) && AllSeps(t[r..e] + gap)
    decreases e - r
  {
    if r == e {
      assert t[r..e] + gap == gap;
    } else {
      TailsEnd(t, r + 1, e, m, gap, last);
      var tail := t[r + 1..e] + gap;
      assert t[r..e] + gap == [t[r]] + tail;
      OneTail(t[r], tail, m, last);
    }
  }

  lemma OneTail(c: char, g: string, m: Quote, last: bool)
    requires IsTail(c) && Ends(g, m, last) && AllSeps(g)
    ensures Ends([c] + g, m, last) && AllSeps([c] + g)
  {
    assert ([c] + g)[1..] == g;
  }

  lemma GapEnds(t: string, q: nat, r: nat, e: nat, last: bool)
    requires q < r <= e <= |t| && e == StmtEnd(t, q, Plain) && r == TrimTail(t, q, e)
    requires e == |t| ==> last
    ensures var gap := t[r..e] + t[e..SkipSeps(t, e)]; AllSeps(gap) && Ends(gap, Through(t[q..r], Plain), last)
  {
    hide TrimTail, AllSeps, Through, Ends, StmtEnd, SkipSeps;
    var m := Through(t[q..r], Plain);
    Trimmed(t, q, e);
    StmtThrough(t, q, r, Plain);
    StopsAt(t, r, m);
    SkippedSeps(t, e);
    FirstOf(t, e, m, last);
    TailsEnd(t, r, e, m, t[e..SkipSeps(t, e)], last);
  }

  lemma FirstOf(t: string, e: nat, m: Quote, last: bool)
    requires e <= |t| && m != Over && if e == |t| then last else Turn(t[e], m) == Over
    ensures Ends(t[e..SkipSeps(t, e)], m, last)
  {
    if e < |t| {
      assert IsSep(t[e]) && !IsTail(t[e]);
      assert t[e..SkipSeps(t, e)][0] == t[e];
    }
  }

  lemma {:induction false} StopsAt(t: string, r: nat, m: Quote)
    requires r <= |t| && m != Over && forall k | r <= k < StmtEnd(t, r, m) :: IsTail(t[k])
    ensures var e := StmtEnd(t, r, m); e == |t| || Turn(t[e], m) == Over
    decreases |t| - r
  {
    if r < |t| && Turn(t[r], m) != Over {
      TailKeeps(t[r], m);
      StopsAt(t, r + 1, m);
    }
  }

  // ----- The cutter with its loops -----------------------------------------------------------

  // Past a quoted stretch, up to its closing quote or the end of the line.
  method PassQuote(t: string, start: nat, m: Quote) returns (p: nat)
    requires start <= |t| && (m == Single || m == Double)
    ensures start <= p <= |t| && StmtEnd(t, p, Plain) == StmtEnd(t, start, m)
  {
    var c := if m == Single then '\'' else '"';
    p := start;
    while p < |t| && t[p] != c && t[p] != '\n'
      invariant start <= p <= |t| && StmtEnd(t, p, m) == StmtEnd(t, start, m)
    {
      p := p + 1;
    }
    if p < |t| && t[p] == c { p := p + 1; }
  }

  method EndOfStmt(t: string, start: nat) returns (p: nat)
    requires start <= |t|
    ensures p == StmtEnd(t, start, Plain)
  {
    p := start;
    while p < |t|
      invariant start <= p <= |t| && StmtEnd(t, p, Plain) == StmtEnd(t, start, Plain)
      decreases |t| - p
    {
      if t[p] == '\'' { p := PassQuote(t, p + 1, Single); continue; }
      if t[p] == '"' { p := PassQuote(t, p + 1, Double); continue; }
      if t[p] == ';' || t[p] == '\n' { break; }
      p := p + 1;
    }
  }

  method TrimmedEnd(t: string, start: nat, end: nat) returns (e: nat)
    requires start <= end <= |t|
    ensures e == TrimTail(t, start, end)
  {
    e := end;
    while e > start && IsTail(t[e - 1])
      invariant start <= e <= end && TrimTail(t, start, e) == TrimTail(t, start, end)
    {
      e := e - 1;
    }
  }

  // One cut text, split if a body stands behind its keyword, as far as there is room.
  method AddPieces(s: string, stmts: seq<string>) returns (more: seq<string>)
    requires s != "" && |stmts| < MAX_STMTS
    ensures more == stmts + Limit(Pieces(s), MAX_STMTS - |stmts|) && |more| <= MAX_STMTS
  {
    if s[0] == '#' { return stmts; }
    var k := "";
    if Sh.HasKw(s, "then") { k := "then"; }
    else if Sh.HasKw(s, "do") { k := "do"; }
    else if Sh.HasKw(s, "else") { k := "else"; }
    if k != "" && |s| > |k| {
      var body := Sh.AfterBlanks(s[|k|..]);
      more := stmts + [k];
      if body != "" && |more| < MAX_STMTS { more := more + [body]; }
      return;
    }
    more := stmts + [s];
  }

  method PassSeps(t: string, start: nat) returns (p: nat)
    requires start <= |t|
    ensures p == SkipSeps(t, start)
  {
    p := start;
    while p < |t| && IsSep(t[p])
      invariant start <= p <= |t| && SkipSeps(t, p) == SkipSeps(t, start)
    {
      p := p + 1;
    }
  }

  method CutScript(t: string) returns (stmts: seq<string>)
    ensures stmts == Cut(t, 0, 0) && |stmts| <= 190
  {
    hide SkipSeps, StmtEnd, TrimTail, Pieces, Limit, Cut, IsSep;
    stmts := [];
    var p := 0;
    assert [] + Cut(t, 0, 0) == Cut(t, 0, 0);
    while p < |t| && |stmts| < MAX_STMTS
      invariant p <= |t| && |stmts| <= MAX_STMTS && stmts + Cut(t, p, |stmts|) == Cut(t, 0, 0)
      decreases |t| - p
    {
      var start := PassSeps(t, p);
      if start == |t| { CutNoMore(t, p, |stmts|); return; }
      CutTurn(t, p, start, |stmts|);
      StmtEndMoves(t, start);
      var end := EndOfStmt(t, start);
      TrimStarts(t, start, end);
      var e := TrimmedEnd(t, start, end);
      ghost var was, at := stmts, p;
      stmts := AddPieces(t[start..e], stmts);
      p := if end < |t| then end + 1 else end;
      MoreCut(was, stmts[|was|..], Cut(t, p, |stmts|), Cut(t, at, |was|));
    }
    CutNone(t, p, |stmts|);
  }

  lemma MoreCut(a: seq<string>, b: seq<string>, c: seq<string>, d: seq<string>)
    requires d == b + c
    ensures a + d == (a + b) + c
  {}

  lemma CutNoMore(t: string, p: nat, n: nat)
    requires p <= |t| && SkipSeps(t, p) == |t|
    ensures Cut(t, p, n) == []
  {}

  lemma TrimStarts(t: string, a: nat, e: nat)
    requires a < e <= |t| && !IsSep(t[a])
    ensures TrimTail(t, a, e) > a
  {
    if e > a + 1 && IsTail(t[e - 1]) { TrimStarts(t, a, e - 1); }
  }

  lemma CutTurn(t: string, p: nat, q: nat, n: nat)
    requires p <= q < |t| && SkipSeps(t, p) == q && n < MAX_STMTS
    ensures var e := StmtEnd(t, q, Plain); var S := Limit(Pieces(t[q..TrimTail(t, q, e)]), MAX_STMTS - n);
      Cut(t, p, n) == S + Cut(t, After(t, e), n + |S|)
  {
    hide Pieces, Limit, TrimTail, StmtEnd, SkipSeps;
  }

  // run_script.
  method RunText<E>(sh: Engine<E>, t: string)
    modifies sh
    ensures sh.W() == Sh.Script(sh.b, Sh.LexAll(Cut(t, 0, 0)), 0, old(sh.W()))
  {
    var stmts := CutScript(t);
    sh.RunScript(stmts);
  }

  // ----- Trees as text -----------------------------------------------------------------------

  // The statements of a tree laid out in any way, with any separators: running the
  // text leaves the state the tree means, if there is room for the statements.
  lemma LaidMeansTree<E>(b: Sh.Behaviour<E>, k: Sh.Block, pre: string, ls: seq<Line>,
                         w: Sh.World<E>)
    requires Sh.WFBlock(k) && AllSeps(pre) && Lines(ls)
    requires Stmts(ls) == Sh.Texts(Sh.FlatBlock(k)) && |Stmts(ls)| <= MAX_STMTS
    ensures Sh.Script(b, Sh.LexAll(Cut(pre + Laid(ls), 0, 0)), 0, w) == Sh.MeanTop(b, k, w)
  {
    hide Cut, Laid, Lines, Sh.Script, Sh.WFBlock, Sh.MeanTop;
    CutLaid(pre, ls);
    Sh.ScriptMeansTree(b, k, w);
  }

  method RunTrees<E>(sh: Engine<E>, k: Sh.Block, pre: string, ls: seq<Line>)
    requires Sh.WFBlock(k) && AllSeps(pre) && Lines(ls)
    requires Stmts(ls) == Sh.Texts(Sh.FlatBlock(k)) && |Stmts(ls)| <= MAX_STMTS
    modifies sh
    ensures sh.W() == Sh.MeanTop(sh.b, k, old(sh.W()))
  {
    LaidMeansTree(sh.b, k, pre, ls, sh.W());
    RunText(sh, pre + Laid(ls));
  }

  // Each statement on a line of its own is such a layout.
  function OwnLines(S: seq<string>): seq<Line>
    decreases |S|
  {
    if S == [] then [] else [Line(S[0], "\n")] + OwnLines(S[1..])
  }

  lemma {:induction false} OwnLinesAre(S: seq<string>)
    requires forall i | 0 <= i < |S| :: Solid(S[i]) && Pieces(S[i]) == [S[i]]
    ensures Lines(OwnLines(S)) && Stmts(OwnLines(S)) == S
    decreases |S|
  {
    hide Solid, Pieces;
    if S != [] {
      OwnLinesAre(S[1..]);
      var ls := OwnLines(S);
      assert ls[0] == Line(S[0], "\n") && ls[1..] == OwnLines(S[1..]);
      assert [S[0]] + S[1..] == S;
    }
  }

  // In a tree, the keywords then, do and else stand alone.
  predicate Alone(s: Sh.Stmt) {
    s.word.KThen? || s.word.KDo? || s.word.KElse? ==> s.text == Sh.Key(s.word)
  }
  ghost predicate AllAlone(L: seq<Sh.Stmt>) { forall i | 0 <= i < |L| :: Alone(L[i]) }

  lemma AloneCat(A: seq<Sh.Stmt>, B: seq<Sh.Stmt>)
    requires AllAlone(A) && AllAlone(B)
    ensures AllAlone(A + B)
  {}

  lemma AloneArm(s: Sh.Stmt, k: Sh.Stmt, A: seq<Sh.Stmt>, B: seq<Sh.Stmt>)
    requires Alone(s) && Alone(k) && AllAlone(A) && AllAlone(B)
    ensures AllAlone([s, k] + A + B)
  {
    hide Alone;
    AloneCat([s, k], A);
    AloneCat([s, k] + A, B);
  }

  lemma {:induction false} TreeAlone(t: Sh.Tree)
    ensures AllAlone(Sh.Flat(t))
    decreases t
  {
    match t
    case Cmd(text) =>
    case If(c, thn, rest) =>
      BlockAlone(thn); ElseAlone(rest);
      var s := Sh.Stmt(Sh.KIf, Sh.KwText("if", c), c);
      AloneArm(s, Sh.THEN, Sh.FlatBlock(thn), Sh.FlatElse(rest));
    case For(name, words, body) =>
      BlockAlone(body);
      var arg := Sh.ForArg(name, words);
      var s := Sh.Stmt(Sh.KFor, Sh.KwText("for", arg), arg);
      AloneArm(s, Sh.DO, Sh.FlatBlock(body), [Sh.DONE]);
    case While(c, body) =>
      BlockAlone(body);
      var s := Sh.Stmt(Sh.KWhile, Sh.KwText("while", c), c);
      AloneArm(s, Sh.DO, Sh.FlatBlock(body), [Sh.DONE]);
  }

  lemma {:induction false} BlockAlone(k: Sh.Block)
    ensures AllAlone(Sh.FlatBlock(k))
    decreases k
  {
    match k
    case Empty =>
    case Then(t, tl) =>
      TreeAlone(t); BlockAlone(tl);
      AloneCat(Sh.Flat(t), Sh.FlatBlock(tl));
  }

  lemma {:induction false} ElseAlone(e: Sh.Else)
    ensures AllAlone(Sh.FlatElse(e))
    decreases e
  {
    match e
    case Fi =>
    case ElseFi(els) =>
      BlockAlone(els);
      AloneCat([Sh.ELSE], Sh.FlatBlock(els));
      AloneCat([Sh.ELSE] + Sh.FlatBlock(els), [Sh.FI]);
    case Elif(c, thn, rest) =>
      BlockAlone(thn); ElseAlone(rest);
      var s := Sh.Stmt(Sh.KElif, Sh.KwText("elif", c), c);
      AloneArm(s, Sh.THEN, Sh.FlatBlock(thn), Sh.FlatElse(rest));
  }

  lemma AlonePiece(s: Sh.Stmt)
    requires Alone(s) && s == Sh.Lex(s.text) && s.text != "" && s.text[0] != '#'
    ensures Pieces(s.text) == [s.text]
  {
    hide Sh.Lex;
    Sh.LexKey(s.text, Sh.KThen);
    Sh.LexKey(s.text, Sh.KDo);
    Sh.LexKey(s.text, Sh.KElse);
    PlainPiece(s.text);
  }

  // A tree whose texts are solid, written one statement to a line, means itself when
  // it runs as text.
  lemma TextMeansTree<E>(b: Sh.Behaviour<E>, k: Sh.Block, w: Sh.World<E>)
    requires Sh.WFBlock(k) && |Sh.FlatBlock(k)| <= MAX_STMTS
    requires forall s | s in Sh.FlatBlock(k) :: Solid(s.text) && s.text[0] != '#'
    ensures var t := Laid(OwnLines(Sh.Texts(Sh.FlatBlock(k))));
      Sh.Script(b, Sh.LexAll(Cut(t, 0, 0)), 0, w) == Sh.MeanTop(b, k, w)
  {
    hide Cut, Laid, OwnLines, Pieces, Sh.Script, Sh.WFBlock, Sh.Lex;
    var L := Sh.FlatBlock(k);
    var S := Sh.Texts(L);
    BlockAlone(k);
    Sh.LexBlock(k);
    forall i | 0 <= i < |S| ensures Solid(S[i]) && Pieces(S[i]) == [S[i]] {
      assert L[i] in L;
      AlonePiece(L[i]);
    }
    OwnLinesAre(S);
    LaidMeansTree(b, k, "", OwnLines(S), w);
    assert "" + Laid(OwnLines(S)) == Laid(OwnLines(S));
  }
}
