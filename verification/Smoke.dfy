// The incremental console matcher of the emulator bench (tools/dbt/qemu.py).
// Console text arrives in arbitrary chunks; each feed scans only a window. What
// the matcher holds depends on the whole text alone, not on how it was cut.

module Smoke {
  import opened Chars

  const OVERLAP := 512

  // The texts a regular expression matches, at the start of a line if it is anchored.
  datatype Pattern = Pattern(tag: string, anchored: bool, lang: string -> bool)

  function Literal(tag: string, anchored: bool, lit: string): Pattern { Pattern(tag, anchored, s => s == lit) }

  predicate LineStart(t: string, i: nat) { i <= |t| && (i == 0 || t[i - 1] == '\n') }

  predicate OccursAt(t: string, i: nat, j: nat, p: Pattern) {
    i <= j <= |t| && p.lang(t[i..j]) && (p.anchored ==> LineStart(t, i))
  }

  ghost predicate Occurs(t: string, p: Pattern) { exists i: nat, j: nat :: OccursAt(t, i, j, p) }

  // The boot banner: rst:0x and at least one hex digit.
  const BANNER := "rst:0x"

  predicate IsHex(c: char) { '0' <= c <= '9' || 'a' <= c <= 'f' || 'A' <= c <= 'F' }

  predicate BannerAt(t: string, i: nat) {
    && i + 6 < |t| && IsHex(t[i + 6])
    && t[i] == 'r' && t[i + 1] == 's' && t[i + 2] == 't' && t[i + 3] == ':' && t[i + 4] == '0' && t[i + 5] == 'x'
  }

  lemma BannerIsLiteral(t: string, i: nat)
    ensures BannerAt(t, i) <==> i + 6 < |t| && t[i..i + 6] == BANNER && IsHex(t[i + 6])
  {
    if i + 6 < |t| {
      var w := t[i..i + 6];
      assert w[0] == t[i] && w[1] == t[i + 1] && w[2] == t[i + 2];
      assert w[3] == t[i + 3] && w[4] == t[i + 4] && w[5] == t[i + 5];
      assert w == BANNER <==> (w[0] == 'r' && w[1] == 's' && w[2] == 't' && w[3] == ':' && w[4] == '0' && w[5] == 'x');
    }
  }

  // Banners that start at `a` or later and before `b`.
  function Banners(t: string, a: nat, b: nat): nat
    decreases b - a
  {
    if a >= b then 0 else (if BannerAt(t, a) then 1 else 0) + Banners(t, a + 1, b)
  }

  function BannerCount(t: string): nat { Banners(t, 0, |t|) }

  lemma {:induction false} BannersSplit(t: string, a: nat, m: nat, b: nat)
    requires a <= m <= b
    ensures Banners(t, a, b) == Banners(t, a, m) + Banners(t, m, b)
    decreases m - a
  {
    if a < m { BannersSplit(t, a + 1, m, b); }
  }

  lemma {:induction false} NoBanners(t: string, a: nat, b: nat)
    requires forall i | a <= i < b :: !BannerAt(t, i)
    ensures Banners(t, a, b) == 0
    decreases b - a
  {
    if a < b { NoBanners(t, a + 1, b); }
  }

  lemma {:induction false} SameBanners(t: string, u: string, a: nat, b: nat)
    requires forall i | a <= i < b :: BannerAt(t, i) <==> BannerAt(u, i)
    ensures Banners(t, a, b) == Banners(u, a, b)
    decreases b - a
  {
    if a < b { SameBanners(t, u, a + 1, b); }
  }

  lemma OneBanner(t: string, i: nat, e: nat)
    requires i < e && BannerAt(t, i)
    ensures Banners(t, i, e) == 1 + Banners(t, i + 1, e)
  {}

  // ----- Windows ------------------------------------------------------------------------

  // The start of the line `s` falls in.
  function LineOf(t: string, s: nat): (k: nat)
    requires s <= |t|
    ensures k <= s && LineStart(t, k)
  {
    if s == 0 || t[s - 1] == '\n' then s else LineOf(t, s - 1)
  }

  function WindowStart(t: string, scanned: nat): (k: nat)
    requires scanned <= |t|
    ensures k <= scanned && LineStart(t, k)
  {
    if scanned <= OVERLAP then 0 else LineOf(t, scanned - OVERLAP)
  }

  lemma BannersEnd(t: string)
    ensures forall i | |t| <= i :: !BannerAt(t, i)
  {}

  lemma {:induction false} LineOfAtLeast(t: string, s: nat, k: nat)
    requires k <= s <= |t| && LineStart(t, k)
    ensures LineOf(t, s) >= k
    decreases s
  {
    if k < s && t[s - 1] != '\n' { LineOfAtLeast(t, s - 1, k); }
  }

  lemma {:induction false} LineOfNone(t: string, s: nat)
    requires s <= |t| && forall k | 0 <= k < s :: t[k] != '\n'
    ensures LineOf(t, s) == 0
    decreases s
  {
    if s > 0 { LineOfNone(t, s - 1); }
  }

  lemma Slices(u: string, i: nat, w: string, a: nat, b: nat)
    requires i + |w| <= |u| && w == u[i..i + |w|] && a <= b <= |w|
    ensures w[a..b] == u[i + a..i + b]
  {
    forall k | a <= k < b ensures w[k] == u[i + k] {}
  }

  // An occurrence in a stretch `w` of `u`, which begins at `i`, is one in `u`.
  lemma Outwards(u: string, i: nat, w: string, a: nat, b: nat, p: Pattern)
    requires i + |w| <= |u| && w == u[i..i + |w|] && OccursAt(w, a, b, p)
    requires p.anchored && a == 0 ==> LineStart(u, i)
    ensures OccursAt(u, i + a, i + b, p)
  {
    Slices(u, i, w, a, b);
    if a > 0 { assert w[a - 1] == u[i + a - 1]; }
  }

  // An occurrence in `u` that lies in the stretch is one in `w`.
  lemma Inwards(u: string, i: nat, w: string, a: nat, b: nat, p: Pattern)
    requires i + |w| <= |u| && w == u[i..i + |w|] && OccursAt(u, a, b, p) && i <= a && b <= i + |w|
    ensures OccursAt(w, a - i, b - i, p)
  {
    Slices(u, i, w, a - i, b - i);
    if a > i { assert w[a - i - 1] == u[a - 1]; }
  }

  // ----- Patterns that no window cuts ----------------------------------------------------

  // An occurrence of t + chunk that neither t nor the window shows.
  ghost predicate Missed(t: string, chunk: string, p: Pattern) {
    var u := t + chunk;
    Occurs(u, p) && !Occurs(t, p) && !Occurs(u[WindowStart(u, |t|)..], p)
  }

  // A text the pattern matches, but not before its last character, and not within the
  // window that its last character would be scanned with.
  ghost predicate Lost(p: Pattern, w: string) {
    w != "" && p.lang(w) && !Occurs(w[..|w| - 1], p) && !Occurs(w[WindowStart(w, |w| - 1)..], p)
  }

  ghost predicate Safe(p: Pattern) { !p.lang("") && forall w :: !Lost(p, w) }

  // The occurrence that ends first.
  lemma {:induction false} FirstEnd(u: string, p: Pattern) returns (i: nat, j: nat)
    requires Occurs(u, p)
    ensures OccursAt(u, i, j, p) && (j > 0 ==> !Occurs(u[..j - 1], p))
    decreases |u|
  {
    i, j :| OccursAt(u, i, j, p);
    if j > 0 && Occurs(u[..j - 1], p) {
      var v := u[..j - 1];
      i, j := FirstEnd(v, p);
      Outwards(u, 0, v, i, j, p);
      assert j > 0 ==> v[..j - 1] == u[..j - 1];
    }
  }

  // What is missed is lost: cut the text just behind the occurrence that ends first.
  lemma MissedIsLost(t: string, chunk: string, p: Pattern) returns (w: string)
    requires Missed(t, chunk, p)
    ensures Lost(p, w)
  {
    hide Occurs, WindowStart;
    var u := t + chunk;
    var k := WindowStart(u, |t|);
    var i, j := FirstEnd(u, p);
    EndsLate(t, chunk, i, j, p);
    w := u[i..j];
    StartsEarly(u, k, i, j, p);
    NoneBefore(u, i, j, w, p);
    NoneInWindow(u, |t|, k, i, j, w, p);
  }

  lemma EndsLate(t: string, chunk: string, i: nat, j: nat, p: Pattern)
    requires OccursAt(t + chunk, i, j, p) && !Occurs(t, p)
    ensures j > |t| && i < j
  {
    var u := t + chunk;
    if j <= |t| {
      assert t == u[0..|t|];
      Inwards(u, 0, t, i, j, p);
    }
    if i == j {
      assert u[i..j] == t[0..0];
      assert OccursAt(t, 0, 0, p);
    }
  }

  lemma StartsEarly(u: string, k: nat, i: nat, j: nat, p: Pattern)
    requires OccursAt(u, i, j, p) && k <= |u| && !Occurs(u[k..], p)
    ensures i < k
  {
    if i >= k {
      assert u[k..] == u[k..k + |u[k..]|];
      Inwards(u, k, u[k..], i, j, p);
    }
  }

  lemma NoneBefore(u: string, i: nat, j: nat, w: string, p: Pattern)
    requires OccursAt(u, i, j, p) && i < j && w == u[i..j] && !Occurs(u[..j - 1], p)
    ensures !Occurs(w[..|w| - 1], p)
  {
    var v := w[..|w| - 1];
    if Occurs(v, p) {
      var a: nat, b: nat :| OccursAt(v, a, b, p);
      assert v == u[..j - 1][i..i + |v|];
      Outwards(u[..j - 1], i, v, a, b, p);
    }
  }

  lemma NoneInWindow(u: string, scanned: nat, k: nat, i: nat, j: nat, w: string, p: Pattern)
    requires OccursAt(u, i, j, p) && scanned < j && w == u[i..j]
    requires scanned <= |u| && k == WindowStart(u, scanned) && i < k && !Occurs(u[k..], p)
    ensures w != "" && !Occurs(w[WindowStart(w, |w| - 1)..], p)
  {
    var s := |w| - 1 - OVERLAP;
    assert w[k - i - 1] == u[k - 1];
    LineOfAtLeast(w, s, k - i);
    var m := WindowStart(w, |w| - 1);
    var v := w[m..];
    if Occurs(v, p) {
      var a: nat, b: nat :| OccursAt(v, a, b, p);
      var at := i + m - k;
      assert w[m - 1] == u[i + m - 1];
      assert u[k..][at..at + |v|] == v;
      assert at > 0 ==> u[k..][at - 1] == u[i + m - 1];
      Outwards(u[k..], at, v, a, b, p);
    }
  }

  // A pattern is missed for some text and some way of cutting it if and only if one
  // of the texts it matches is lost.
  lemma MissedExactly(p: Pattern)
    ensures (exists t, chunk :: Missed(t, chunk, p)) <==> exists w :: Lost(p, w)
  {
    if t, chunk :| Missed(t, chunk, p) {
      var w := MissedIsLost(t, chunk, p);
    }
    if w :| Lost(p, w) {
      var t, chunk := w[..|w| - 1], w[|w| - 1..];
      assert t + chunk == w && w[0..|w|] == w;
      assert OccursAt(w, 0, |w|, p);
      assert Missed(t, chunk, p);
    }
  }

  // One more chunk: an occurrence is an old one, or it is in the window.
  lemma OccursMore(t: string, chunk: string, p: Pattern)
    requires Safe(p)
    ensures var u := t + chunk; var k := WindowStart(u, |t|);
      Occurs(u, p) <==> Occurs(t, p) || Occurs(u[k..], p)
  {
    var u := t + chunk;
    var k := WindowStart(u, |t|);
    if Missed(t, chunk, p) { var w := MissedIsLost(t, chunk, p); }
    if i: nat, j: nat :| OccursAt(t, i, j, p) {
      assert t == u[0..|t|];
      Outwards(u, 0, t, i, j, p);
    }
    if i: nat, j: nat :| OccursAt(u[k..], i, j, p) {
      assert u[k..] == u[k..k + |u[k..]|];
      Outwards(u, k, u[k..], i, j, p);
    }
  }

  // A newline only among the last OVERLAP + 1 characters of what the pattern matches:
  // true of every pattern without a newline, and of every one of at most OVERLAP
  // characters.
  predicate Late(w: string) { w != "" && forall k | 0 <= k < |w| - (OVERLAP + 1) :: w[k] != '\n' }

  ghost predicate Local(p: Pattern) { forall w | p.lang(w) :: Late(w) }

  lemma WholeWindow(w: string)
    requires Late(w)
    ensures w[WindowStart(w, |w| - 1)..] == w
  {
    if |w| - 1 > OVERLAP { LineOfNone(w, |w| - 1 - OVERLAP); }
  }

  lemma LocalIsSafe(p: Pattern)
    requires Local(p)
    ensures Safe(p)
  {
    assert p.lang("") ==> Late("");
    forall w ensures !Lost(p, w) {
      if w != "" && p.lang(w) {
        WholeWindow(w);
        assert w[0..|w|] == w;
        assert OccursAt(w, 0, |w|, p);
      }
    }
  }

  // For a literal that is the exact condition.
  lemma LiteralSafe(tag: string, anchored: bool, lit: string)
    ensures Safe(Literal(tag, anchored, lit)) <==> Late(lit)
  {
    var p := Literal(tag, anchored, lit);
    if Late(lit) {
      LocalIsSafe(p);
    } else if lit != "" {
      var k :| 0 <= k < |lit| - (OVERLAP + 1) && lit[k] == '\n';
      LineOfAtLeast(lit, |lit| - 1 - OVERLAP, k + 1);
      TooShort(lit[..|lit| - 1], p, lit);
      TooShort(lit[WindowStart(lit, |lit| - 1)..], p, lit);
      assert Lost(p, lit);
    }
  }

  lemma TooShort(t: string, p: Pattern, lit: string)
    requires |t| < |lit| && forall s | p.lang(s) :: s == lit
    ensures !Occurs(t, p)
  {
    forall i: nat, j: nat | i <= j <= |t| ensures !p.lang(t[i..j]) {
      assert |t[i..j]| < |lit|;
    }
  }

  // ----- A pattern of the bench that can be lost -------------------------------------------

  function DigitsEnd(s: string, p: nat): (e: nat)
    requires p <= |s|
    ensures p <= e <= |s|
    decreases |s| - p
  {
    if p < |s| && IsDigit(s[p]) then DigitsEnd(s, p + 1) else p
  }

  // Core\s+\d+\s+panic'ed
  predicate CorePanic(s: string) {
    && |s| >= 4 && s[..4] == "Core"
    && var a := SkipSpace(s, 4); var b := DigitsEnd(s, a); var c := SkipSpace(s, b);
       a > 4 && b > a && c > b && s[c..] == "panic'ed"
  }

  const CORE_PANIC := Pattern("panic handler", false, CorePanic)

  lemma {:induction false} WhiteRun(s: string, p: nat, q: nat)
    requires p <= q < |s| && (forall k | p <= k < q :: IsSpace(s[k])) && !IsSpace(s[q])
    ensures SkipSpace(s, p) == q
    decreases q - p
  {
    if p < q { WhiteRun(s, p + 1, q); }
  }

  lemma CorePanicHas(s: string)
    requires CorePanic(s)
    ensures 'C' in s && 'd' in s
  {
    assert s[0] == s[..4][0];
    var c := SkipSpace(s, DigitsEnd(s, SkipSpace(s, 4)));
    assert s[c..][7] == s[c + 7];
  }

  lemma NoneWithout(v: string, c: char)
    requires c !in v && (c == 'C' || c == 'd')
    ensures !Occurs(v, CORE_PANIC)
  {
    if i: nat, j: nat :| OccursAt(v, i, j, CORE_PANIC) { CorePanicHas(v[i..j]); }
  }

  lemma CorePanicMatches(w: string, gap: string)
    requires w == "Core" + gap + "0 panic'ed" && gap != "" && forall k | 0 <= k < |gap| :: IsSpace(gap[k])
    ensures CorePanic(w)
  {
    var q := 4 + |gap|;
    assert forall k | 4 <= k < q :: w[k] == gap[k - 4];
    assert w[q] == '0' && w[q + 1] == ' ' && w[q + 2] == 'p';
    WhiteRun(w, 4, q);
    assert DigitsEnd(w, q) == q + 1;
    WhiteRun(w, q + 1, q + 2);
    assert w[..4] == "Core" && w[q + 2..] == "panic'ed";
  }

  // With more than OVERLAP line breaks in it, the text is lost.
  lemma CorePanicLost(gap: string)
    requires |gap| > 512 && forall k | 0 <= k < |gap| :: gap[k] == '\n'
    ensures Lost(CORE_PANIC, "Core" + gap + "0 panic'ed")
  {
    hide Occurs, CorePanic;
    var w := "Core" + gap + "0 panic'ed";
    CorePanicMatches(w, gap);
    NoEnd(w[..|w| - 1], gap);
    NoStart(w, gap);
  }

  lemma NoEnd(v: string, gap: string)
    requires v == ("Core" + gap + "0 panic'ed")[..|gap| + 13] && forall k | 0 <= k < |gap| :: gap[k] == '\n'
    ensures !Occurs(v, CORE_PANIC)
  {
    assert v == "Core" + gap + "0 panic'e";
    NoneWithout(v, 'd');
  }

  lemma NoStart(w: string, gap: string)
    requires w == "Core" + gap + "0 panic'ed" && |gap| > OVERLAP && forall k | 0 <= k < |gap| :: gap[k] == '\n'
    ensures !Occurs(w[WindowStart(w, |w| - 1)..], CORE_PANIC)
  {
    assert w[4] == gap[0];
    LineOfAtLeast(w, |w| - 1 - OVERLAP, 5);
    var tail := gap + "0 panic'ed";
    assert forall k | 4 <= k < |w| :: w[k] == tail[k - 4];
    NoneWithout(w[WindowStart(w, |w| - 1)..], 'C');
  }

  // ----- Literals and banners, character by character ---------------------------------------

  // A literal occurs exactly where it stands, at the start of a line if it is anchored.
  lemma LiteralOccurs(t: string, tag: string, anchored: bool, lit: string)
    ensures Occurs(t, Literal(tag, anchored, lit))
       <==> exists i: nat :: Stands(t, i, lit) && (anchored ==> i == 0 || t[i - 1] == '\n')
  {
    var p := Literal(tag, anchored, lit);
    if i: nat, j: nat :| OccursAt(t, i, j, p) {
      assert |t[i..j]| == j - i;
      assert Stands(t, i, lit) && (anchored ==> i == 0 || t[i - 1] == '\n');
    }
    if i: nat :| Stands(t, i, lit) && (anchored ==> i == 0 || t[i - 1] == '\n') {
      assert OccursAt(t, i, i + |lit|, p);
    }
  }

  predicate Stands(t: string, i: nat, lit: string) { i + |lit| <= |t| && t[i..i + |lit|] == lit }

  // The places of `rst:0x` with a hexadecimal digit behind it.
  ghost function BannerSet(t: string, a: nat, b: nat): set<nat> {
    set i: nat | a <= i < b && Stands(t, i, "rst:0x") && i + 6 < |t|
                 && ('0' <= t[i + 6] <= '9' || 'a' <= t[i + 6] <= 'f' || 'A' <= t[i + 6] <= 'F')
  }

  lemma {:induction false} BannersCounted(t: string, a: nat, b: nat)
    requires a <= b
    ensures Banners(t, a, b) == |BannerSet(t, a, b)|
    decreases b - a
  {
    if a < b {
      BannersCounted(t, a + 1, b);
      BannerIsLiteral(t, a);
      var rest := BannerSet(t, a + 1, b);
      assert BannerSet(t, a, b) == if BannerAt(t, a) then {a} + rest else rest;
    } else {
      assert BannerSet(t, a, b) == {};
    }
  }

  // The boot count is the number of these places.
  lemma BannerCountIs(t: string)
    ensures BannerCount(t) == |BannerSet(t, 0, |t|)|
  {
    BannersCounted(t, 0, |t|);
  }

  // ----- The matcher ----------------------------------------------------------------------

  // rx.search(window): some match begins and ends in it.
  method Search(w: string, p: Pattern) returns (found: bool)
    ensures found <==> Occurs(w, p)
  {
    var i := 0;
    while i <= |w|
      invariant i <= |w| + 1 && forall a: nat, b: nat | a < i :: !OccursAt(w, a, b, p)
    {
      var j := i;
      while j <= |w|
        invariant i <= j <= |w| + 1 && forall b: nat | b < j :: !OccursAt(w, i, b, p)
      {
        if OccursAt(w, i, j, p) { return true; }
        j := j + 1;
      }
      i := i + 1;
    }
    return false;
  }

  // A banner match runs over all its digits; no other banner starts inside it.
  method MatchEnd(t: string, i: nat) returns (e: nat)
    requires BannerAt(t, i)
    ensures i + 7 <= e <= |t| && forall j | i < j < e :: !BannerAt(t, j)
  {
    e := i + 7;
    while e < |t| && IsHex(t[e])
      invariant i + 7 <= e <= |t| && forall j | i + 6 <= j < e :: IsHex(t[j])
    {
      e := e + 1;
    }
  }

  // The five lists of the bench, one behind the other: assertions, panics, progress,
  // application failures and configuration failures. `found` holds the tags seen.
  class Matcher {
    const groups: seq<seq<Pattern>>
    var text: string
    var found: seq<seq<string>>
    var bootCount: nat
    var scanned: nat
    var bannerNext: nat

    // In each list a tag is there, once, exactly when one of its patterns occurs in
    // the text so far, and every banner of it has been counted once.
    ghost predicate Valid()
      reads this
    {
      && AllSafe() && |found| == |groups|
      && scanned == |text|
      && (forall q | 0 <= q < |groups| :: Lists(found[q], text, q))
      && bootCount == BannerCount(text)
      && bannerNext <= |text|
      && (forall i | bannerNext <= i :: !BannerAt(text, i))
      && (bannerNext > 0 ==> BannerAt(text, bannerNext - 1))
    }

    ghost predicate AllSafe() { forall q | 0 <= q < |groups| :: GroupSafe(groups[q]) }
    ghost predicate GroupSafe(ps: seq<Pattern>) { forall k | 0 <= k < |ps| :: Safe(ps[k]) }

    // The tags of list `q` that the text shows, each once.
    ghost predicate Lists(tags: seq<string>, t: string, q: nat)
      requires q < |groups|
    {
      && (forall g :: g in tags <==> Found(groups[q], t, g))
      && forall i, j | 0 <= i < j < |tags| :: tags[i] != tags[j]
    }

    ghost predicate Found(ps: seq<Pattern>, t: string, g: string) { FoundIn(ps, t, g, |ps|) }

    // Among the first `n` patterns, one with this tag occurs.
    ghost predicate FoundIn(ps: seq<Pattern>, t: string, g: string, n: nat) {
      exists k :: 0 <= k < n && k < |ps| && ps[k].tag == g && Occurs(t, ps[k])
    }

    constructor (groups: seq<seq<Pattern>>)
      requires forall q, k | 0 <= q < |groups| && 0 <= k < |groups[q]| :: Safe(groups[q][k])
      ensures this.groups == groups && text == "" && Valid()
    {
      this.groups := groups;
      found := seq(|groups|, q => []);
      text, bootCount, scanned, bannerNext := "", 0, 0, 0;
      new;
      forall q | 0 <= q < |groups| ensures Lists(found[q], "", q) {
        NothingFound(groups[q]);
      }
    }

    lemma NothingFound(ps: seq<Pattern>)
      requires GroupSafe(ps)
      ensures forall g :: !Found(ps, "", g)
    {
      forall k | 0 <= k < |ps| ensures !Occurs("", ps[k]) {
        assert ""[0..0] == "";
      }
    }

    method Feed(chunk: string)
      requires Valid()
      modifies this
      ensures Valid() && text == old(text) + chunk
    {
      hide Lists, BannerAt, WindowStart, GroupSafe;
      if chunk == "" {
        assert text + chunk == text;
        return;
      }
      text := text + chunk;
      var start := WindowStart(text, scanned);
      var window := text[start..];
      FeedPatterns(window, start, old(text), chunk);
      FeedBanners(start, old(text), chunk);
      scanned := |text|;
    }

    // The loop over the lists.
    method FeedPatterns(window: string, start: nat, ghost before: string, ghost chunk: string)
      requires AllSafe() && |found| == |groups|
      requires text == before + chunk && start == WindowStart(text, |before|) && window == text[start..]
      requires forall q | 0 <= q < |groups| :: Lists(found[q], before, q)
      modifies this`found
      ensures |found| == |groups| && forall q | 0 <= q < |groups| :: Lists(found[q], text, q)
    {
      hide Lists, WindowStart, GroupSafe;
      var q := 0;
      while q < |groups|
        invariant q <= |groups| && |found| == |groups|
        invariant forall k | 0 <= k < q :: Lists(found[k], text, k)
        invariant forall k | q <= k < |groups| :: Lists(found[k], before, k)
      {
        var tags := FeedGroup(q, found[q], window, start, before, chunk);
        found := found[q := tags];
        q := q + 1;
      }
    }

    // The loop over the patterns of one list.
    method FeedGroup(q: nat, was: seq<string>, window: string, start: nat, ghost before: string, ghost chunk: string)
      returns (tags: seq<string>)
      requires q < |groups| && GroupSafe(groups[q])
      requires text == before + chunk && start == WindowStart(text, |before|) && window == text[start..]
      requires Lists(was, before, q)
      ensures Lists(tags, text, q)
    {
      hide Occurs, Safe, GroupSafe, WindowStart, FoundIn;
      tags := was;
      var ps := groups[q];
      var k := 0;
      NoneYet(ps, window);
      while k < |ps|
        invariant k <= |ps|
        invariant forall g :: g in tags <==> Found(ps, before, g) || FoundIn(ps, window, g, k)
        invariant forall i, j | 0 <= i < j < |tags| :: tags[i] != tags[j]
      {
        var p := ps[k];
        FoundStep(ps, window, k);
        if p.tag !in tags {
          var hit := Search(window, p);
          if hit { tags := tags + [p.tag]; }
        }
        k := k + 1;
      }
      forall g ensures Found(ps, text, g) <==> Found(ps, before, g) || FoundIn(ps, window, g, |ps|) {
        FoundMore(ps, before, chunk, g);
      }
    }

    lemma NoneYet(ps: seq<Pattern>, w: string)
      ensures forall g :: !FoundIn(ps, w, g, 0)
    {}

    lemma FoundStep(ps: seq<Pattern>, w: string, n: nat)
      requires n < |ps|
      ensures forall g :: FoundIn(ps, w, g, n + 1) <==> FoundIn(ps, w, g, n) || (g == ps[n].tag && Occurs(w, ps[n]))
    {
      forall g ensures FoundIn(ps, w, g, n + 1) <==> FoundIn(ps, w, g, n) || (g == ps[n].tag && Occurs(w, ps[n])) {
        if g == ps[n].tag && Occurs(w, ps[n]) { assert FoundIn(ps, w, g, n + 1); }
      }
    }

    lemma FoundMore(ps: seq<Pattern>, before: string, chunk: string, g: string)
      requires GroupSafe(ps)
      ensures var t := before + chunk; var w := t[WindowStart(t, |before|)..];
        Found(ps, t, g) <==> Found(ps, before, g) || FoundIn(ps, w, g, |ps|)
    {
      hide Occurs, Safe, WindowStart;
      forall k | 0 <= k < |ps| { OccursMore(before, chunk, ps[k]); }
    }

    // The banner loop: every match of the window that starts at bannerNext or
    // later is a new one.
    method FeedBanners(start: nat, ghost before: string, ghost chunk: string)
      requires text == before + chunk && start == WindowStart(text, |before|)
      requires bootCount == BannerCount(before) && bannerNext <= |before|
      requires forall i | bannerNext <= i :: !BannerAt(before, i)
      requires bannerNext > 0 ==> BannerAt(before, bannerNext - 1)
      modifies this`bootCount, this`bannerNext
      ensures bootCount == BannerCount(text) && bannerNext <= |text|
      ensures forall i | bannerNext <= i :: !BannerAt(text, i)
      ensures bannerNext > 0 ==> BannerAt(text, bannerNext - 1)
    {
      hide Banners, BannerAt;
      ghost var n0 := bannerNext;
      OldBanners(before, chunk, n0, start);
      var pos := start;
      while pos < |text|
        invariant start <= pos <= |text|
        invariant bootCount == Banners(text, 0, n0) + Banners(text, n0, if pos < n0 then n0 else pos)
        invariant n0 <= bannerNext <= |text| && (pos <= n0 ==> bannerNext == n0) && (pos > n0 ==> bannerNext <= pos)
        invariant forall i | bannerNext <= i < pos :: !BannerAt(text, i)
        invariant bannerNext > 0 ==> BannerAt(text, bannerNext - 1)
      {
        if !BannerAt(text, pos) {
          NoBanners(text, pos, pos + 1);
          if pos >= n0 { BannersSplit(text, n0, pos, pos + 1); }
          else { NoBanners(text, n0, n0); }
          pos := pos + 1;
        } else {
          var e := MatchEnd(text, pos);
          NoBanners(text, pos + 1, e);
          if pos >= bannerNext {
            bootCount := bootCount + 1;
            bannerNext := pos + 1;
            BannersSplit(text, n0, pos, e);
            OneBanner(text, pos, e);
          } else {
            if e > n0 { NoBanners(text, n0, e); }
          }
          pos := e;
        }
      }
      BannersSplit(text, 0, n0, |text|);
      BannersEnd(text);
    }

    // Banners of the old text stay, and none is lost between them and the window.
    lemma OldBanners(before: string, chunk: string, n0: nat, start: nat)
      requires n0 <= |before| && start == WindowStart(before + chunk, |before|)
      requires forall i | n0 <= i :: !BannerAt(before, i)
      requires n0 > 0 ==> BannerAt(before, n0 - 1)
      ensures var t := before + chunk;
        && BannerCount(before) == Banners(t, 0, n0)
        && (forall i | n0 <= i < start :: !BannerAt(t, i))
        && Banners(t, n0, if start < n0 then n0 else start) == 0
        && (n0 > 0 ==> BannerAt(t, n0 - 1))
    {
      var t := before + chunk;
      forall i: nat | i + 6 < |before| ensures BannerAt(before, i) <==> BannerAt(t, i) {}
      forall i | 0 <= i < n0 ensures BannerAt(before, i) <==> BannerAt(t, i) {}
      SameBanners(before, t, 0, n0);
      BannersSplit(before, 0, n0, |before|);
      NoBanners(before, n0, |before|);
      StartBelow(t, |before|);
      assert forall i | n0 <= i < start :: !BannerAt(before, i);
      NoBanners(t, n0, if start < n0 then n0 else start);
    }

    lemma StartBelow(t: string, scanned: nat)
      requires scanned <= |t|
      ensures WindowStart(t, scanned) == 0 || WindowStart(t, scanned) + OVERLAP <= scanned
    {}
  }

  // However the console text is cut, the matcher ends with what the whole text holds.
  method FeedAll(groups: seq<seq<Pattern>>, chunks: seq<string>) returns (m: Matcher)
    requires forall q, k | 0 <= q < |groups| && 0 <= k < |groups[q]| :: Safe(groups[q][k])
    ensures fresh(m) && m.groups == groups && m.Valid() && m.text == Concat(chunks)
  {
    m := new Matcher(groups);
    var i := 0;
    while i < |chunks|
      invariant i <= |chunks| && fresh(m) && m.groups == groups && m.Valid()
      invariant m.text + Concat(chunks[i..]) == Concat(chunks)
    {
      assert chunks[i..][1..] == chunks[i + 1..];
      m.Feed(chunks[i]);
      i := i + 1;
    }
  }

  function Concat(chunks: seq<string>): string {
    if chunks == [] then "" else chunks[0] + Concat(chunks[1..])
  }
}
