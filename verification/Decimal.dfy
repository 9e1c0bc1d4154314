// Text at a position, and decimal numerals: what `%lu` / `%d` print and what
// the digit loops of the programs read back.

module Text {
  // `L` stands in `s` at position `p`.
  ghost predicate At<T>(s: seq<T>, p: nat, L: seq<T>): (r: bool)
    ensures r ==> p + |L| <= |s|
    decreases |L|
  {
    if L == [] then p <= |s| else p < |s| && s[p] == L[0] && At(s, p + 1, L[1..])
  }

  lemma {:induction false} AtFits<T>(s: seq<T>, p: nat, L: seq<T>)
    requires At(s, p, L)
    ensures p + |L| <= |s| && s[p..p + |L|] == L
    decreases |L|
  {
    if L != [] { AtFits(s, p + 1, L[1..]); }
  }

  lemma {:induction false} AtSlice<T>(s: seq<T>, p: nat, L: seq<T>)
    requires p + |L| <= |s| && s[p..p + |L|] == L
    ensures At(s, p, L)
    decreases |L|
  {
    if L != [] {
      assert s[p] == s[p..p + |L|][0];
      assert s[p + 1..p + |L|] == s[p..p + |L|][1..];
      AtSlice(s, p + 1, L[1..]);
    }
  }

  lemma AtSplit<T>(s: seq<T>, p: nat, A: seq<T>, B: seq<T>)
    requires At(s, p, A + B)
    ensures At(s, p, A) && At(s, p + |A|, B)
    ensures p + |A| + |B| <= |s|
  {
    AtFits(s, p, A + B);
    assert s[p..p + |A|] == s[p..p + |A + B|][..|A|] == A;
    assert s[p + |A|..p + |A| + |B|] == s[p..p + |A + B|][|A|..] == B;
    AtSlice(s, p, A);
    AtSlice(s, p + |A|, B);
  }

  lemma AtOne<T>(s: seq<T>, p: nat, x: T)
    requires At(s, p, [x])
    ensures p < |s| && s[p] == x
  {}

  lemma AtIndex<T>(s: seq<T>, p: nat, L: seq<T>, k: nat)
    requires At(s, p, L) && k < |L|
    ensures p + k < |s| && s[p + k] == L[k]
  {
    AtFits(s, p, L);
    assert s[p + k] == s[p..p + |L|][k];
  }

  lemma AtHere<T>(A: seq<T>, L: seq<T>, B: seq<T>)
    ensures At(A + L + B, |A|, L)
  {
    assert (A + L + B)[|A|..|A| + |L|] == L;
    AtSlice(A + L + B, |A|, L);
  }

  // Lines, each with the newline that ends it.
  function Join(lines: seq<string>): string {
    if lines == [] then "" else lines[0] + ("\n" + Join(lines[1..]))
  }

  lemma {:induction false} JoinCat(a: seq<string>, b: seq<string>)
    ensures Join(a + b) == Join(a) + Join(b)
    decreases |a|
  {
    if a == [] {
      assert a + b == b;
    } else {
      assert (a + b)[1..] == a[1..] + b;
      JoinCat(a[1..], b);
      assert a[0] + ("\n" + Join(a[1..])) + Join(b) == a[0] + ("\n" + (Join(a[1..]) + Join(b)));
    }
  }

  lemma JoinOne(l: string)
    ensures Join([l]) == l + "\n"
  {
    assert Join([l]) == l + ("\n" + Join([]));
  }

  // The index of the next newline, or the end of the text.
  function LineEnd(s: string, p: nat): (e: nat)
    requires p <= |s|
    ensures p <= e <= |s|
    ensures e < |s| ==> s[e] == '\n'
    decreases |s| - p
  {
    if p == |s| || s[p] == '\n' then p else LineEnd(s, p + 1)
  }

  lemma LineEndStep(s: string, p: nat)
    requires p <= |s|
    ensures p <= LineEnd(s, p) <= |s|
    ensures LineEnd(s, p) == p <==> p == |s| || s[p] == '\n'
    ensures LineEnd(s, p) > p ==> LineEnd(s, p + 1) == LineEnd(s, p)
  {}

  predicate Without(l: string, c: char) { forall k | 0 <= k < |l| :: l[k] != c }

  lemma {:induction false} EndOfLine(s: string, p: nat, l: string)
    requires At(s, p, l) && p + |l| < |s| && s[p + |l|] == '\n' && Without(l, '\n')
    ensures LineEnd(s, p) == p + |l|
    decreases |l|
  {
    if l != [] { EndOfLine(s, p + 1, l[1..]); }
  }
}

// Classes of characters, and passing over blanks and white space.
module Chars {
  predicate IsDigit(c: char) { '0' <= c <= '9' }
  predicate IsBlank(c: char) { c == ' ' || c == '\t' }

  // The blank, and the tab, newline, vertical tab, form feed and carriage return.
  predicate IsSpace(c: char) { c == ' ' || 9 <= c as int <= 13 }

  predicate IsNameChar(c: char) {
    'a' <= c <= 'z' || 'A' <= c <= 'Z' || '0' <= c <= '9' || c == '_'
  }

  function SkipBlanks(s: string, p: nat): (q: nat)
    requires p <= |s|
    ensures p <= q <= |s| && (q < |s| ==> !IsBlank(s[q]))
    decreases |s| - p
  {
    if p < |s| && IsBlank(s[p]) then SkipBlanks(s, p + 1) else p
  }

  function SkipSpace(s: string, p: nat): (q: nat)
    requires p <= |s|
    ensures p <= q <= |s| && (q < |s| ==> !IsSpace(s[q]))
    decreases |s| - p
  {
    if p < |s| && IsSpace(s[p]) then SkipSpace(s, p + 1) else p
  }
}

module Decimal {
  import opened Chars
  import opened Text

  function DigitVal(c: char): (d: nat)
    requires IsDigit(c)
    ensures d < 10
  {
    c as int - '0' as int
  }

  function DigitChar(d: nat): (c: char)
    requires d < 10
    ensures IsDigit(c) && DigitVal(c) == d
  {
    ('0' as int + d) as char
  }

  function Dec(n: nat): (s: string)
    ensures s != []
    ensures forall k | 0 <= k < |s| :: IsDigit(s[k])
  {
    if n < 10 then [DigitChar(n)] else Dec(n / 10) + [DigitChar(n % 10)]
  }

  // v = v * 10 + digit, for as long as there are digits.
  function ReadDigits(s: string, p: nat, v: nat): (r: (nat, nat))
    requires p <= |s|
    ensures p <= r.1 <= |s|
    ensures p < |s| && IsDigit(s[p]) ==> p < r.1
    decreases |s| - p
  {
    if p < |s| && IsDigit(s[p]) then ReadDigits(s, p + 1, v * 10 + DigitVal(s[p])) else (v, p)
  }

  lemma {:induction false} ReadAfterDec(s: string, p: nat, n: nat)
    requires At(s, p, Dec(n))
    ensures ReadDigits(s, p, 0) == ReadDigits(s, p + |Dec(n)|, n)
  {
    if n < 10 {
      AtOne(s, p, DigitChar(n));
    } else {
      AtSplit(s, p, Dec(n / 10), [DigitChar(n % 10)]);
      ReadAfterDec(s, p, n / 10);
      AtOne(s, p + |Dec(n / 10)|, DigitChar(n % 10));
    }
  }

  // A printed number reads back as itself, up to the first non-digit.
  lemma ReadDec(s: string, p: nat, n: nat)
    requires At(s, p, Dec(n))
    requires var q := p + |Dec(n)|; q == |s| || !IsDigit(s[q])
    ensures ReadDigits(s, p, 0) == (n, p + |Dec(n)|)
  {
    ReadAfterDec(s, p, n);
  }
}
