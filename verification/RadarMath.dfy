// The integer arithmetic of the radar scope (apps/user/radar/radar.c): the line
// it draws and the square root behind its distances.

module RadarMath {

  // ----- Lines ------------------------------------------------------------------------

  // The line of slope d/n, rounded: the minor coordinate after k major steps is
  // k*d/n to the nearest integer, a tie going down.
  function Minor(n: nat, d: nat, k: nat): int {
    if n == 0 then 0 else (k * d + (n - 1) / 2) / n
  }

  function Abs(v: int): nat { if v < 0 then -v else v }
  function Sign(v: int): int { if v < 0 then -1 else 1 }

  datatype Pixel = Pixel(x: int, y: int)

  function Length(x0: int, y0: int, x1: int, y1: int): nat {
    var dx, dy := Abs(x1 - x0), Abs(y1 - y0);
    if dx > dy then dx else dy
  }

  // The k-th pixel of the ideal line from (x0, y0) to (x1, y1).
  function PixelAt(x0: int, y0: int, x1: int, y1: int, k: nat): Pixel {
    var dx, dy, sx, sy := Abs(x1 - x0), Abs(y1 - y0), Sign(x1 - x0), Sign(y1 - y0);
    if dx > dy then Pixel(x0 + sx * k, y0 + sy * Minor(dx, dy, k))
    else Pixel(x0 + sx * Minor(dy, dx, k), y0 + sy * k)
  }

  lemma Quotient(a: int, n: nat, m: int)
    requires 0 < n && m * n <= a < m * n + n
    ensures a / n == m
  {
    var q := a / n;
    assert a == q * n + a % n;
    Below(q, m, n);
    Below(m, q, n);
  }

  lemma Below(a: int, b: int, n: nat)
    requires a * n < b * n + n
    ensures a <= b
  {
    if a > b { Monotone(b + 1, a, n); }
  }

  lemma Monotone(a: int, b: int, n: nat)
    requires a <= b
    ensures a * n <= b * n
  {
    assert (b - a) * n >= 0;
    assert b * n - a * n == (b - a) * n;
  }

  // The error term of the drawing loop, while k major and m minor steps are done.
  ghost predicate Tracks(n: nat, d: nat, k: nat, m: int, e: int) {
    0 <= e < n && e == n / 2 - k * d + m * n
  }

  // An error term in range determines the minor coordinate.
  lemma TrackedMinor(n: nat, d: nat, k: nat, m: int, e: int)
    requires Tracks(n, d, k, m, e)
    ensures m == Minor(n, d, k)
  {
    Quotient(k * d + (n - 1) / 2, n, m);
  }

  lemma MinorTracked(n: nat, d: nat, k: nat)
    requires 0 < n
    ensures Tracks(n, d, k, Minor(n, d, k), n / 2 - k * d + Minor(n, d, k) * n)
  {
    var a := k * d + (n - 1) / 2;
    assert a == (a / n) * n + a % n;
  }

  lemma TrackStep(n: nat, d: nat, k: nat, m: int, e: int)
    requires Tracks(n, d, k, m, e) && d <= n
    ensures e < d ==> Tracks(n, d, k + 1, m + 1, e - d + n)
    ensures e >= d ==> Tracks(n, d, k + 1, m, e - d)
  {
    assert (k + 1) * d == k * d + d;
    assert (m + 1) * n == m * n + n;
  }

  // Both ends are on the line.
  lemma EndPoints(x0: int, y0: int, x1: int, y1: int)
    ensures PixelAt(x0, y0, x1, y1, 0) == Pixel(x0, y0)
    ensures PixelAt(x0, y0, x1, y1, Length(x0, y0, x1, y1)) == Pixel(x1, y1)
  {
    var dx, dy := Abs(x1 - x0), Abs(y1 - y0);
    if dx > dy { MinorEnds(dx, dy); } else if dy > 0 { MinorEnds(dy, dx); }
  }

  lemma MinorEnds(n: nat, d: nat)
    requires 0 < n
    ensures Minor(n, d, 0) == 0 && Minor(n, d, n) == d
  {
    Quotient(0 * d + (n - 1) / 2, n, 0);
    assert n * d == d * n;
    Quotient(n * d + (n - 1) / 2, n, d);
  }

  // No pixel is more than half a pixel off the ideal line along the minor axis,
  // and each is the next one along the major axis.
  lemma WithinHalf(x0: int, y0: int, x1: int, y1: int, k: nat)
    ensures var p, dx, dy := PixelAt(x0, y0, x1, y1, k), Abs(x1 - x0), Abs(y1 - y0);
      && (dx > dy ==> Abs(p.x - x0) == k && 2 * Abs((p.y - y0) * Sign(y1 - y0) * dx - k * dy) <= dx)
      && (dx <= dy && 0 < dy ==>
            Abs(p.y - y0) == k && 2 * Abs((p.x - x0) * Sign(x1 - x0) * dy - k * dx) <= dy)
  {
    var p, dx, dy := PixelAt(x0, y0, x1, y1, k), Abs(x1 - x0), Abs(y1 - y0);
    if dx > dy {
      MinorTracked(dx, dy, k);
      assert (p.y - y0) * Sign(y1 - y0) == Minor(dx, dy, k);
    } else if 0 < dy {
      MinorTracked(dy, dx, k);
      assert (p.x - x0) * Sign(x1 - x0) == Minor(dy, dx, k);
    }
  }

  // Neighbouring pixels touch: the line has no gap.
  lemma Connected(x0: int, y0: int, x1: int, y1: int, k: nat)
    ensures var p, q := PixelAt(x0, y0, x1, y1, k), PixelAt(x0, y0, x1, y1, k + 1);
      Abs(q.x - p.x) <= 1 && Abs(q.y - p.y) <= 1
  {
    var dx, dy := Abs(x1 - x0), Abs(y1 - y0);
    if dx > dy { MinorGrows(dx, dy, k); } else if 0 < dy { MinorGrows(dy, dx, k); }
  }

  lemma MinorGrows(n: nat, d: nat, k: nat)
    requires 0 < n && d <= n
    ensures Minor(n, d, k) <= Minor(n, d, k + 1) <= Minor(n, d, k) + 1
  {
    hide Minor, Tracks;
    var m := Minor(n, d, k);
    var e := n / 2 - k * d + m * n;
    MinorTracked(n, d, k);
    TrackStep(n, d, k, m, e);
    if e < d { TrackedMinor(n, d, k + 1, m + 1, e - d + n); } else { TrackedMinor(n, d, k + 1, m, e - d); }
  }

  // C division by two: towards zero.
  function HalfTowardsZero(v: int): int { if v >= 0 then v / 2 else -((-v) / 2) }

  // The error term of the source: of x steps while dx > dy, negated otherwise.
  ghost predicate Error(dx: int, dy: int, k: nat, err: int)
    requires dx >= 0 && dy >= 0
  {
    if dx > dy then Tracks(dx, dy, k, Minor(dx, dy, k), err)
    else if dy > 0 then Tracks(dy, dx, k, Minor(dy, dx, k), -err)
    else err == 0
  }

  lemma ErrorStart(dx: int, dy: int)
    requires dx >= 0 && dy >= 0
    ensures Error(dx, dy, 0, HalfTowardsZero(if dx > dy then dx else -dy))
  {
    if dx > dy { MinorEnds(dx, dy); } else if dy > 0 { MinorEnds(dy, dx); }
  }

  // One turn of the loop keeps the error term and finds the next pixel.
  lemma ErrorStep(dx: int, dy: int, k: nat, err: int)
    requires dx >= 0 && dy >= 0 && (dx > 0 || dy > 0) && Error(dx, dy, k, err)
    ensures var right, down := err > -dx, err < dy;
      && Error(dx, dy, k + 1, err - (if right then dy else 0) + (if down then dx else 0))
      && (dx > dy ==> right && Minor(dx, dy, k + 1) == Minor(dx, dy, k) + if down then 1 else 0)
      && (dx <= dy ==> down && Minor(dy, dx, k + 1) == Minor(dy, dx, k) + if right then 1 else 0)
  {
    hide Minor;
    if dx > dy {
      var m := Minor(dx, dy, k);
      TrackStep(dx, dy, k, m, err);
      if err < dy { TrackedMinor(dx, dy, k + 1, m + 1, err - dy + dx); }
      else { TrackedMinor(dx, dy, k + 1, m, err - dy); }
    } else {
      var m := Minor(dy, dx, k);
      TrackStep(dy, dx, k, m, -err);
      if err > -dx { TrackedMinor(dy, dx, k + 1, m + 1, -err - dx + dy); }
      else { TrackedMinor(dy, dx, k + 1, m, -err - dx); }
    }
  }

  lemma PixelStep(x0: int, y0: int, x1: int, y1: int, k: nat, err: int)
    requires (x0, y0) != (x1, y1) && Error(Abs(x1 - x0), Abs(y1 - y0), k, err)
    ensures var p, dx, dy := PixelAt(x0, y0, x1, y1, k), Abs(x1 - x0) as int, Abs(y1 - y0) as int;
      var right, down := err > -dx, err < dy;
      && PixelAt(x0, y0, x1, y1, k + 1) ==
         Pixel(p.x + (if right then Sign(x1 - x0) else 0), p.y + (if down then Sign(y1 - y0) else 0))
      && Error(dx, dy, k + 1, err - (if right then dy else 0) + (if down then dx else 0))
  {
    hide Minor, Error;
    ErrorStep(Abs(x1 - x0), Abs(y1 - y0), k, err);
  }

  // The loop's exit test holds after the last pixel and not before.
  lemma OnlyAtEnd(x0: int, y0: int, x1: int, y1: int, k: nat)
    requires k <= Length(x0, y0, x1, y1)
    ensures PixelAt(x0, y0, x1, y1, k) == Pixel(x1, y1) <==> k == Length(x0, y0, x1, y1)
  {
    hide Minor;
    EndPoints(x0, y0, x1, y1);
  }

  // cv_line: the pixels it paints, in order.
  method CvLine(xa: int, ya: int, x1: int, y1: int) returns (pixels: seq<Pixel>)
    ensures |pixels| == Length(xa, ya, x1, y1) + 1
    ensures forall k | 0 <= k < |pixels| :: pixels[k] == PixelAt(xa, ya, x1, y1, k)
  {
    hide Error, PixelAt, Length;
    var x0, y0 := xa, ya;
    var dx := x1 - x0;
    var sx := if dx < 0 then -1 else 1;
    if dx < 0 { dx := -dx; }
    var dy := y1 - y0;
    var sy := if dy < 0 then -1 else 1;
    if dy < 0 { dy := -dy; }
    var err := HalfTowardsZero(if dx > dy then dx else -dy);
    pixels := [];
    ghost var n := Length(xa, ya, x1, y1);
    ErrorStart(dx, dy);
    EndPoints(xa, ya, x1, y1);
    while true
      invariant |pixels| <= n && Error(dx, dy, |pixels|, err)
      invariant Pixel(x0, y0) == PixelAt(xa, ya, x1, y1, |pixels|)
      invariant forall k | 0 <= k < |pixels| :: pixels[k] == PixelAt(xa, ya, x1, y1, k)
      decreases n - |pixels|
    {
      OnlyAtEnd(xa, ya, x1, y1, |pixels|);
      pixels := pixels + [Pixel(x0, y0)];
      if x0 == x1 && y0 == y1 { break; }
      NotEmpty(xa, ya, x1, y1, |pixels| - 1);
      PixelStep(xa, ya, x1, y1, |pixels| - 1, err);
      var e2 := err;
      if e2 > -dx { err := err - dy; x0 := x0 + sx; }
      if e2 < dy { err := err + dx; y0 := y0 + sy; }
    }
  }

  lemma NotEmpty(x0: int, y0: int, x1: int, y1: int, k: nat)
    requires k < Length(x0, y0, x1, y1)
    ensures (x0, y0) != (x1, y1)
  {}

  // ----- Square root ----------------------------------------------------------------------

  const U32 := 0x1_0000_0000

  function Square(s: nat): nat { s * s }

  predicate PowerOfTwo(s: nat) { s == 1 || (s > 0 && s % 2 == 0 && PowerOfTwo(s / 2)) }

  lemma StartWeight()
    ensures PowerOfTwo(32768) && Square(32768) == 0x4000_0000 && Square(0) == 0
  {
    assert PowerOfTwo(32) && PowerOfTwo(1024);
  }

  lemma SquareOfDouble(h: nat)
    ensures Square(2 * h) == 4 * Square(h) && (h > 0 ==> Square(h) > 0)
  {}

  lemma SquareOfOne()
    ensures Square(1) == 1 && Square(0) == 0
  {}

  lemma HalfPower(s: nat)
    requires PowerOfTwo(s)
    ensures s == 1 || (s == 2 * (s / 2) && s / 2 > 0 && PowerOfTwo(s / 2))
  {}

  // The next weight is half this one, and its square a quarter; after one comes none.
  lemma NextWeight(s: nat)
    requires PowerOfTwo(s)
    ensures Square(s) > 0 && Square(s) / 4 == Square(s / 2)
    ensures s == 1 ==> Square(s) == 1
    ensures s != 1 ==> s == 2 * (s / 2) && PowerOfTwo(s / 2) && Square(s) == 4 * Square(s / 2)
  {
    hide Square, PowerOfTwo;
    HalfPower(s);
    if s == 1 { SquareOfOne(); } else { SquareOfDouble(s / 2); }
  }

  // With `q` the root so far and `s` the weight of the digit to try, or none.
  ghost predicate Rooted(value: nat, q: nat, s: nat, v: nat, r: nat) {
    && v == value - q * q
    && (if s == 0 then r == q && value < (q + 1) * (q + 1)
        else r == 2 * (q * s) && value < (q + 2 * s) * (q + 2 * s))
  }

  // One digit of the root: the test asks whether q + s squared still fits.
  lemma RootDigit(value: nat, q: nat, s: nat, v: nat, r: nat)
    requires PowerOfTwo(s) && Rooted(value, q, s, v, r)
    ensures v >= r + Square(s) ==> Rooted(value, q + s, s / 2, v - (r + Square(s)), r / 2 + Square(s))
    ensures v < r + Square(s) ==> Rooted(value, q, s / 2, v, r / 2)
  {
    assert r / 2 == q * s;
    assert (q + s) * s == q * s + s * s;
    if s == 1 {
      assert q * s == q && (q + s) * s == q + 1;
    } else {
      var h := s / 2;
      assert s == 2 * h;
      TimesDouble(q, h);
      TimesDouble(q + s, h);
    }
  }

  lemma TimesDouble(a: nat, h: nat)
    ensures a * (2 * h) == 2 * (a * h)
  {}

  // isqrt32: the root, rounded down, digit by digit.
  method Isqrt32(value: nat) returns (r: nat)
    requires value < U32
    ensures r * r <= value < (r + 1) * (r + 1)
  {
    hide PowerOfTwo, Rooted, Square;
    var v: nat, b: nat := value, 0x4000_0000;
    r := 0;
    ghost var s: nat, q: nat := 32768, 0;
    StartWeight();
    while b > v
      invariant b == Square(s) && (b == 0 <==> s == 0) && (s == 0 || PowerOfTwo(s))
      invariant value < 4 * b || (b == 0 && value == 0)
      decreases s
    {
      NextWeight(s);
      if s != 1 { NextWeight(s / 2); }
      b := b / 4;
      s := s / 2;
    }
    RootStart(value, s);
    while b != 0
      invariant b == Square(s) && (b == 0 <==> s == 0) && (s == 0 || PowerOfTwo(s))
      invariant Rooted(value, q, s, v, r)
      decreases s
    {
      RootDigit(value, q, s, v, r);
      if v >= r + b {
        v := v - (r + b);
        r := r / 2 + b;
        q := q + s;
      } else {
        r := r / 2;
      }
      NextWeight(s);
      if s != 1 { NextWeight(s / 2); }
      b := b / 4;
      s := s / 2;
    }
    RootFound(value, q, v, r);
  }

  lemma RootStart(value: nat, s: nat)
    requires value < 4 * Square(s) || (s == 0 && value == 0)
    ensures Rooted(value, 0, s, value, 0)
  {
    assert (0 + 2 * s) * (0 + 2 * s) == 4 * Square(s);
  }

  lemma RootFound(value: nat, q: nat, v: nat, r: nat)
    requires Rooted(value, q, 0, v, r)
    ensures r * r <= value < (r + 1) * (r + 1)
  {}
}
