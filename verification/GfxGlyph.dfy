// Where gfx_text (sdk/display/gfx.c) puts each character, and which of its pixels are
// ink: a row byte of the font carries column 0 in its lowest bit.

module GfxGlyph {
  import opened GfxPicture
  import opened Gfx

  // ----- The bits of a row ---------------------------------------------------------

  function TwoTo(k: nat): (r: nat)
    ensures r > 0
  {
    if k == 0 then 1 else 2 * TwoTo(k - 1)
  }

  lemma Bit0(b: bv8) ensures b & 1 == 1 <==> b as int % 2 == 1 {}
  lemma Bit1(b: bv8) ensures (b >> 1) & 1 == 1 <==> b as int / 2 % 2 == 1 {}
  lemma Bit2(b: bv8) ensures (b >> 2) & 1 == 1 <==> b as int / 4 % 2 == 1 {}
  lemma Bit3(b: bv8) ensures (b >> 3) & 1 == 1 <==> b as int / 8 % 2 == 1 {}
  lemma Bit4(b: bv8) ensures (b >> 4) & 1 == 1 <==> b as int / 16 % 2 == 1 {}
  lemma Bit5(b: bv8) ensures (b >> 5) & 1 == 1 <==> b as int / 32 % 2 == 1 {}
  lemma Bit6(b: bv8) ensures (b >> 6) & 1 == 1 <==> b as int / 64 % 2 == 1 {}
  lemma Bit7(b: bv8) ensures (b >> 7) & 1 == 1 <==> b as int / 128 % 2 == 1 {}

  lemma Powers()
    ensures TwoTo(0) == 1 && TwoTo(1) == 2 && TwoTo(2) == 4 && TwoTo(3) == 8
    ensures TwoTo(4) == 16 && TwoTo(5) == 32 && TwoTo(6) == 64 && TwoTo(7) == 128
  {
    assert TwoTo(2) == 4 && TwoTo(4) == 16 && TwoTo(6) == 64;
  }

  // The pixel in this column of a row byte is ink.
  predicate Inked(row: bv8, col: nat) { row as int / TwoTo(col) % 2 == 1 }

  lemma BitIsInked(font: Font, g: nat, col: nat, row: nat)
    requires col < 8
    ensures Bit(font, g, col, row) <==> Inked(font(g, row), col)
  {
    hide Inked;
    var b := font(g, row);
    if col < 4 { LowBits(b, col); } else { HighBits(b, col); }
  }

  lemma LowBits(b: bv8, col: nat)
    requires col < 4
    ensures (b >> col) & 1 == 1 <==> Inked(b, col)
  {
    Powers();
    hide TwoTo;
    if col == 0 { Bit0(b); assert b >> 0 == b; }
    else if col == 1 { Bit1(b); }
    else if col == 2 { Bit2(b); }
    else { Bit3(b); }
  }

  lemma HighBits(b: bv8, col: nat)
    requires 4 <= col < 8
    ensures (b >> col) & 1 == 1 <==> Inked(b, col)
  {
    Powers();
    hide TwoTo;
    if col == 4 { Bit4(b); }
    else if col == 5 { Bit5(b); }
    else if col == 6 { Bit6(b); }
    else { Bit7(b); }
  }

  // The colour of a cell of a character: its glyph is the one of its code less 32, and
  // `?` stands for every character that has none.
  function CellColour(font: Font, ch: char, fg: Color, bg: Color, col: nat, row: nat): Color {
    var code := if 32 <= ch as int <= 127 then ch as int - 32 else 31;
    if Inked(font(code, row), col) then fg else bg
  }

  // ----- Where the characters go -----------------------------------------------------

  // How many characters a line takes: as many as there is room for, but at least one.
  function PerLine(x: int, width: nat): (m: nat)
    ensures m >= 1
  {
    if width - x < 16 then 1 else (width - x) / 8
  }

  function PenX(x: int, width: nat, k: nat): int { x + 8 * (k % PerLine(x, width)) }
  function PenY(x: int, y: int, width: nat, k: nat): int { y + 8 * (k / PerLine(x, width)) }

  predicate OneLine(s: string) { forall k | 0 <= k < |s| :: s[k] != '\n' }

  lemma NextCell(k: nat, m: nat)
    requires m > 0
    ensures if k % m + 1 == m then (k + 1) % m == 0 && (k + 1) / m == k / m + 1
            else (k + 1) % m == k % m + 1 && (k + 1) / m == k / m
  {
    Next(k, m, k / m, k % m);
  }

  lemma Next(k: nat, m: nat, q: nat, r: nat)
    requires r < m && k == q * m + r
    ensures if r + 1 == m then (k + 1) % m == 0 && (k + 1) / m == q + 1 else (k + 1) % m == r + 1 && (k + 1) / m == q
  {
    if r + 1 == m {
      assert (q + 1) * m == q * m + m;
      Quotient(k + 1, m, q + 1, 0);
    } else {
      Quotient(k + 1, m, q, r + 1);
    }
  }

  lemma Quotient(k: nat, m: nat, q: nat, r: nat)
    requires r < m && k == q * m + r
    ensures k / m == q && k % m == r
  {
    var a, b := k / m, k % m;
    assert k == a * m + b && 0 <= b < m;
    assert (a + 1) * m == a * m + m && (q + 1) * m == q * m + m;
    if a < q { MulMono(a + 1, q, m); }
    if q < a { MulMono(q + 1, a, m); }
  }

  // The pen moves on by 8, or back to the margin and 8 down when the line is full.
  lemma PenMoves(x: int, y: int, width: nat, k: nat)
    ensures PenX(x, width, 0) == x && PenY(x, y, width, 0) == y
    ensures if PenX(x, width, k) + 16 > width
            then PenX(x, width, k + 1) == x && PenY(x, y, width, k + 1) == PenY(x, y, width, k) + 8
            else PenX(x, width, k + 1) == PenX(x, width, k) + 8 && PenY(x, y, width, k + 1) == PenY(x, y, width, k)
  {
    var m := PerLine(x, width);
    NextCell(k, m);
    Quotient(0, m, 0, 0);
  }

  // Two characters never share a cell.
  lemma CellsApart(x: int, y: int, width: nat, i: nat, j: nat, u: int, v: int)
    requires i != j && InBox(PenX(x, width, i), PenY(x, y, width, i), 8, 8, u, v)
    ensures !InBox(PenX(x, width, j), PenY(x, y, width, j), 8, 8, u, v)
  {
    var m := PerLine(x, width);
    assert i == (i / m) * m + i % m && j == (j / m) * m + j % m;
  }

  // A text of one line paints the cells of its characters and nothing else.
  lemma {:induction false} PaintsCells(s: string, k: nat, x: int, y: int, width: nat, u: int, v: int)
    requires k <= |s| && OneLine(s)
    requires TextPaints(s, k, x, PenX(x, width, k), PenY(x, y, width, k), width, u, v)
    ensures exists j | k <= j < |s| :: InBox(PenX(x, width, j), PenY(x, y, width, j), 8, 8, u, v)
    decreases |s| - k
  {
    hide InBox, PenX, PenY;
    if k < |s| {
      PenMoves(x, y, width, k);
      if !InBox(PenX(x, width, k), PenY(x, y, width, k), 8, 8, u, v) {
        PaintsCells(s, k + 1, x, y, width, u, v);
      }
    }
  }

  // The k-th character of a line is drawn k cells on, broken at the right edge, and
  // each of its pixels has the colour of its ink.
  lemma {:induction false} TextCells(p: Pic, font: Font, s: string, k: nat, x: int, y: int, fg: Color, bg: Color,
                                     width: nat, i: nat, col: nat, row: nat)
    requires k <= i < |s| && OneLine(s) && col < 8 && row < 8
    ensures TextPic(p, font, s, k, x, PenX(x, width, k), PenY(x, y, width, k), fg, bg, width)
                   (PenX(x, width, i) + col, PenY(x, y, width, i) + row)
         == CellColour(font, s[i], fg, bg, col, row)
    decreases i - k
  {
    hide PenX, PenY, InBox, CellColour, GlyphPart, TextPaints;
    var cx, cy := PenX(x, width, k), PenY(x, y, width, k);
    var q := GlyphPart(p, font, GlyphIndex(s[k]), fg, bg, cx, cy, 64);
    PenMoves(x, y, width, k);
    if k < i {
      TextCells(q, font, s, k + 1, x, y, fg, bg, width, i, col, row);
    } else {
      var u, v := cx + col, cy + row;
      GlyphColour(p, font, s[k], fg, bg, cx, cy, col, row);
      NotPainted(s, k, x, y, width, u, v);
      TextPaint(q, q, font, s, k + 1, x, PenX(x, width, k + 1), PenY(x, y, width, k + 1), fg, bg, width, u, v);
    }
  }

  lemma NotPainted(s: string, k: nat, x: int, y: int, width: nat, u: int, v: int)
    requires k < |s| && OneLine(s) && InBox(PenX(x, width, k), PenY(x, y, width, k), 8, 8, u, v)
    ensures !TextPaints(s, k + 1, x, PenX(x, width, k + 1), PenY(x, y, width, k + 1), width, u, v)
  {
    hide InBox, PenX, PenY, TextPaints;
    if TextPaints(s, k + 1, x, PenX(x, width, k + 1), PenY(x, y, width, k + 1), width, u, v) {
      PaintsCells(s, k + 1, x, y, width, u, v);
      var j :| k + 1 <= j < |s| && InBox(PenX(x, width, j), PenY(x, y, width, j), 8, 8, u, v);
      CellsApart(x, y, width, k, j, u, v);
    }
  }

  lemma GlyphColour(p: Pic, font: Font, ch: char, fg: Color, bg: Color, cx: int, cy: int, col: nat, row: nat)
    requires col < 8 && row < 8
    ensures InBox(cx, cy, 8, 8, cx + col, cy + row)
    ensures GlyphPart(p, font, GlyphIndex(ch), fg, bg, cx, cy, 64)(cx + col, cy + row)
         == CellColour(font, ch, fg, bg, col, row)
  {
    hide Bit, Inked;
    var g := GlyphIndex(ch);
    BitIsInked(font, g, col, row);
    assert g == if 32 <= ch as int <= 127 then ch as int - 32 else 31;
    assert row * 8 + col < 64;
    assert Ink(font, g, fg, bg, col, row) == CellColour(font, ch, fg, bg, col, row);
  }

  // A newline ends the line: the rest of the text starts at the margin, 8 below.
  lemma {:induction false} NewlineDown(p: Pic, font: Font, a: string, b: string, k: nat, x: int, y: int,
                                       fg: Color, bg: Color, width: nat)
    requires k <= |a| && OneLine(a)
    ensures var s := a + ("\n" + b);
      var q := TextPic(p, font, a, k, x, PenX(x, width, k), PenY(x, y, width, k), fg, bg, width);
      TextPic(p, font, s, k, x, PenX(x, width, k), PenY(x, y, width, k), fg, bg, width)
      == TextPic(q, font, s, |a| + 1, x, x, PenY(x, y, width, |a|) + 8, fg, bg, width)
    decreases |a| - k
  {
    hide PenX, PenY, GlyphPart;
    var s := a + ("\n" + b);
    PenMoves(x, y, width, k);
    if k == |a| {
      assert s[k] == '\n';
    } else {
      assert s[k] == a[k];
      var q := GlyphPart(p, font, GlyphIndex(a[k]), fg, bg, PenX(x, width, k), PenY(x, y, width, k), 64);
      NewlineDown(q, font, a, b, k + 1, x, y, fg, bg, width);
    }
  }

  // ----- On the panel ------------------------------------------------------------------

  // A line of text on a black panel, in either mode and flushed: each pixel of each
  // character that lies on the panel has the colour of its ink, and all others are black.
  method DrawLine(disp: Panel, buffered: bool, font: Font, x: int, y: int, s: string, fg: Color, bg: Color)
    requires disp.Valid() && disp.width > 0 && disp.height > 0 && disp.Shows(Black()) && OneLine(s)
    modifies disp.pix
    ensures forall i, col, row, u: nat, v: nat |
      && 0 <= i < |s| && 0 <= col < 8 && 0 <= row < 8 && u < disp.width && v < disp.height
      && u == PenX(x, disp.width, i) + col && v == PenY(x, y, disp.width, i) + row ::
        disp.pix[v, u] == CellColour(font, s[i], fg, bg, col, row)
    ensures forall u: nat, v: nat | u < disp.width && v < disp.height
      && (forall i: nat | i < |s| :: !InBox(PenX(x, disp.width, i), PenY(x, y, disp.width, i), 8, 8, u, v)) ::
        disp.pix[v, u] == 0
  {
    hide TextPic, PenX, PenY, CellColour, InBox;
    var ctx := new Context(buffered, disp, font);
    ghost var q := TextPic(Black(), font, s, 0, x, x, y, fg, bg, disp.width);
    ctx.Text(x, y, s, fg, bg, Black());
    ctx.Flush(q, Black());
    PenMoves(x, y, disp.width, 0);
    forall i, col, row, u: nat, v: nat |
      && 0 <= i < |s| && 0 <= col < 8 && 0 <= row < 8 && u < disp.width && v < disp.height
      && u == PenX(x, disp.width, i) + col && v == PenY(x, y, disp.width, i) + row
      ensures disp.pix[v, u] == CellColour(font, s[i], fg, bg, col, row)
    {
      TextCells(Black(), font, s, 0, x, y, fg, bg, disp.width, i, col, row);
    }
    forall u: nat, v: nat | u < disp.width && v < disp.height
      && (forall i: nat | i < |s| :: !InBox(PenX(x, disp.width, i), PenY(x, y, disp.width, i), 8, 8, u, v))
      ensures disp.pix[v, u] == 0
    {
      TextRest(Black(), font, s, x, y, fg, bg, disp.width, u, v);
    }
  }

  lemma TextRest(p: Pic, font: Font, s: string, x: int, y: int, fg: Color, bg: Color, width: nat, u: int, v: int)
    requires OneLine(s)
    requires forall i: nat | i < |s| :: !InBox(PenX(x, width, i), PenY(x, y, width, i), 8, 8, u, v)
    ensures TextPic(p, font, s, 0, x, x, y, fg, bg, width)(u, v) == p(u, v)
  {
    hide InBox, PenX, PenY, TextPic, TextPaints;
    PenMoves(x, y, width, 0);
    if TextPaints(s, 0, x, x, y, width, u, v) { PaintsCells(s, 0, x, y, width, u, v); }
    TextPaint(p, p, font, s, 0, x, x, y, fg, bg, width, u, v);
  }
}
