// What the drawing operations of libgfx mean: pictures, clipped to no panel,
// and the effect of one operation on them (sdk/display/gfx.c).

module GfxPicture {

  type Color = bv16

  // A picture gives every point of the plane a colour; a panel shows the part
  // of it that lies on the panel.
  type Pic = (int, int) -> Color

  type Font = (nat, nat) -> bv8

  const MAX_ROW := 320

  function Black(): Pic { (u, v) => 0 }

  predicate InBox(x: int, y: int, w: int, h: int, u: int, v: int) {
    x <= u < x + w && y <= v < y + h
  }

  function FillPic(c: Color): Pic { (u, v) => c }

  function RectPic(p: Pic, x: int, y: int, w: int, h: int, c: Color): Pic {
    (u, v) => if InBox(x, y, w, h, u, v) then c else p(u, v)
  }

  // Row-major pixels of width `w`; 0 outside.
  function Px(px: seq<Color>, w: nat, c: int, r: int): Color {
    if 0 <= r && 0 <= c && r * w + c < |px| then px[r * w + c] else 0
  }

  function BlitPic(p: Pic, x: int, y: int, w: int, h: int, px: seq<Color>): Pic {
    (u, v) => if InBox(x, y, w, h, u, v) && w > 0 then Px(px, w, u - x, v - y) else p(u, v)
  }

  // Characters without a glyph show as '?'.
  function GlyphIndex(ch: char): (g: nat)
    ensures g < 96
  {
    if 32 <= ch as int <= 127 then ch as int - 32 else '?' as int - 32
  }

  predicate Bit(font: Font, g: nat, col: nat, row: nat) {
    col < 8 && (font(g, row) >> col) & 1 == 1
  }

  function Ink(font: Font, g: nat, fg: Color, bg: Color, col: int, row: int): Color {
    if 0 <= col < 8 && 0 <= row && Bit(font, g, col, row) then fg else bg
  }

  // The first `n` cells, row by row, of a glyph at (cx, cy); 64 is all of it.
  function GlyphPart(p: Pic, font: Font, g: nat, fg: Color, bg: Color, cx: int, cy: int, n: int): Pic {
    (u, v) => if InBox(cx, cy, 8, 8, u, v) && (v - cy) * 8 + (u - cx) < n
              then Ink(font, g, fg, bg, u - cx, v - cy) else p(u, v)
  }

  // Text from character `i` on, the pen at (cx, cy), left margin `x`, on a panel
  // `width` wide: a newline or a full line returns the pen to the margin.
  function TextPic(p: Pic, font: Font, s: string, i: nat, x: int, cx: int, cy: int,
                   fg: Color, bg: Color, width: nat): Pic
    requires i <= |s|
    decreases |s| - i
  {
    if i == |s| then p
    else if s[i] == '\n' then TextPic(p, font, s, i + 1, x, x, cy + 8, fg, bg, width)
    else
      var q := GlyphPart(p, font, GlyphIndex(s[i]), fg, bg, cx, cy, 64);
      if cx + 16 > width then TextPic(q, font, s, i + 1, x, x, cy + 8, fg, bg, width)
      else TextPic(q, font, s, i + 1, x, cx + 8, cy, fg, bg, width)
  }

  // ----- Operations ---------------------------------------------------------------------

  datatype Op =
    | Fill(c: Color)
    | Pixel(x: int, y: int, c: Color)
    | Rect(x: int, y: int, w: int, h: int, c: Color)
    | Text(x: int, y: int, s: string, fg: Color, bg: Color)
    | Blit(x: int, y: int, w: int, h: int, px: seq<Color>)

  // The pixels handed to a blit are all there.
  predicate WF(op: Op) { op.Blit? && op.w > 0 && op.h > 0 ==> |op.px| >= op.w * op.h }

  function OpPic(p: Pic, font: Font, op: Op, width: nat): Pic {
    match op
    case Fill(c) => FillPic(c)
    case Pixel(x, y, c) => RectPic(p, x, y, 1, 1, c)
    case Rect(x, y, w, h, c) => RectPic(p, x, y, w, h, c)
    case Text(x, y, s, fg, bg) => TextPic(p, font, s, 0, x, x, y, fg, bg, width)
    case Blit(x, y, w, h, px) => BlitPic(p, x, y, w, h, px)
  }

  function OpsPic(p: Pic, font: Font, ops: seq<Op>, width: nat): Pic {
    if ops == [] then p else OpsPic(OpPic(p, font, ops[0], width), font, ops[1..], width)
  }

  // What a streamed panel of that width does not draw: fills and rectangles whose row
  // is longer than the row buffer.
  predicate Dropped(op: Op, width: nat) {
    match op
    case Fill(c) => width > MAX_ROW
    case Rect(x, y, w, h, c) => Hi(x + w, width) - Lo(x) > MAX_ROW
    case _ => false
  }

  function SentPic(p: Pic, font: Font, op: Op, width: nat): Pic {
    if Dropped(op, width) then p else OpPic(p, font, op, width)
  }

  function SentOpsPic(p: Pic, font: Font, ops: seq<Op>, width: nat): Pic {
    if ops == [] then p else SentOpsPic(SentPic(p, font, ops[0], width), font, ops[1..], width)
  }

  // ----- Panels ---------------------------------------------------------------------------

  // Two pictures look the same on a panel.
  ghost predicate Same(p: Pic, q: Pic, width: nat, height: nat) {
    forall u: nat, v: nat | u < width && v < height :: p(u, v) == q(u, v)
  }

  function Lo(x: int): int { if x < 0 then 0 else x }
  function Hi(x: int, lim: nat): int { if x > lim then lim else x }

  // Clipping a box to the panel changes nothing on it.
  lemma RectClip(p: Pic, x: int, y: int, w: int, h: int, c: Color, W: nat, H: nat)
    requires w > 0 && h > 0
    ensures var x1, y1 := Lo(x), Lo(y);
      Same(RectPic(p, x1, y1, Hi(x + w, W) - x1, Hi(y + h, H) - y1, c), RectPic(p, x, y, w, h, c), W, H)
  {
    var x1, y1 := Lo(x), Lo(y);
    var a, b := RectPic(p, x1, y1, Hi(x + w, W) - x1, Hi(y + h, H) - y1, c), RectPic(p, x, y, w, h, c);
    forall u: nat, v: nat | u < W && v < H ensures a(u, v) == b(u, v) {
      assert a(u, v) == if InBox(x1, y1, Hi(x + w, W) - x1, Hi(y + h, H) - y1, u, v) then c else p(u, v);
      assert b(u, v) == if InBox(x, y, w, h, u, v) then c else p(u, v);
    }
  }

  // A rectangle grows by a cell, and by a row.
  lemma RectGrowX(p: Pic, x: int, y: int, k: nat, c: Color, W: nat, H: nat)
    ensures Same(RectPic(RectPic(p, x, y, k, 1, c), x + k, y, 1, 1, c), RectPic(p, x, y, k + 1, 1, c), W, H)
  {
    var a, b := RectPic(RectPic(p, x, y, k, 1, c), x + k, y, 1, 1, c), RectPic(p, x, y, k + 1, 1, c);
    forall u: nat, v: nat | u < W && v < H ensures a(u, v) == b(u, v) {
      assert RectPic(p, x, y, k, 1, c)(u, v) == if InBox(x, y, k, 1, u, v) then c else p(u, v);
      assert b(u, v) == if InBox(x, y, k + 1, 1, u, v) then c else p(u, v);
    }
  }

  lemma RectGrowY(p: Pic, x: int, y: int, w: nat, k: nat, c: Color, W: nat, H: nat)
    ensures Same(RectPic(RectPic(p, x, y, w, k, c), x, y + k, w, 1, c), RectPic(p, x, y, w, k + 1, c), W, H)
  {
    var a, b := RectPic(RectPic(p, x, y, w, k, c), x, y + k, w, 1, c), RectPic(p, x, y, w, k + 1, c);
    forall u: nat, v: nat | u < W && v < H ensures a(u, v) == b(u, v) {
      assert RectPic(p, x, y, w, k, c)(u, v) == if InBox(x, y, w, k, u, v) then c else p(u, v);
      assert b(u, v) == if InBox(x, y, w, k + 1, u, v) then c else p(u, v);
    }
  }

  // A box that is nothing changes nothing; one row of one colour is a rectangle.
  lemma RectNone(p: Pic, x: int, y: int, w: int, h: int, c: Color, W: nat, H: nat)
    requires w <= 0 || h <= 0
    ensures Same(p, RectPic(p, x, y, w, h, c), W, H)
  {
    var b := RectPic(p, x, y, w, h, c);
    forall u: nat, v: nat | u < W && v < H ensures p(u, v) == b(u, v) {
      assert !InBox(x, y, w, h, u, v);
    }
  }

  lemma ConstRow(p: Pic, x: int, y: int, row: seq<Color>, c: Color, W: nat, H: nat)
    requires row != [] && forall i | 0 <= i < |row| :: row[i] == c
    ensures Same(BlitPic(p, x, y, |row|, 1, row), RectPic(p, x, y, |row|, 1, c), W, H)
  {
    var a, b := BlitPic(p, x, y, |row|, 1, row), RectPic(p, x, y, |row|, 1, c);
    forall u: nat, v: nat | u < W && v < H ensures a(u, v) == b(u, v) {
      assert b(u, v) == if InBox(x, y, |row|, 1, u, v) then c else p(u, v);
      if InBox(x, y, |row|, 1, u, v) { assert Px(row, |row|, u - x, 0) == row[u - x]; }
    }
  }

  lemma RectAll(p: Pic, c: Color, W: nat, H: nat)
    ensures Same(RectPic(p, 0, 0, W, H, c), FillPic(c), W, H)
  {
    var a := RectPic(p, 0, 0, W, H, c);
    forall u: nat, v: nat | u < W && v < H ensures a(u, v) == FillPic(c)(u, v) {
      assert InBox(0, 0, W, H, u, v);
    }
  }

  // The clipped part of a blit, its first `k` rows done.
  function BlitRows(p: Pic, x: int, y: int, w: int, px: seq<Color>, x1: int, x2: int, y1: int, k: int): Pic {
    (u, v) => if x1 <= u < x2 && y1 <= v < y1 + k && w > 0 then Px(px, w, u - x, v - y) else p(u, v)
  }

  lemma BlitClip(p: Pic, x: int, y: int, w: int, h: int, px: seq<Color>, W: nat, H: nat)
    requires w > 0 && h > 0
    ensures Same(BlitRows(p, x, y, w, px, Lo(x), Hi(x + w, W), Lo(y), Hi(y + h, H) - Lo(y)),
                 BlitPic(p, x, y, w, h, px), W, H)
  {
    hide Px;
    var a := BlitRows(p, x, y, w, px, Lo(x), Hi(x + w, W), Lo(y), Hi(y + h, H) - Lo(y));
    var b := BlitPic(p, x, y, w, h, px);
    forall u: nat, v: nat | u < W && v < H ensures a(u, v) == b(u, v) {
      assert b(u, v) == if InBox(x, y, w, h, u, v) then Px(px, w, u - x, v - y) else p(u, v);
      assert InBox(x, y, w, h, u, v)
        <==> Lo(x) <= u < Hi(x + w, W) && Lo(y) <= v < Lo(y) + (Hi(y + h, H) - Lo(y));
    }
  }

  // The source row of a blit, as the copy takes it.
  lemma SourceRow(px: seq<Color>, w: nat, h: nat, r: nat, c: nat, n: nat)
    requires |px| >= w * h && r < h && c + n <= w
    ensures r * w + c + n <= |px|
    ensures var row := px[r * w + c..r * w + c + n]; forall i | 0 <= i < n :: row[i] == Px(px, w, c + i, r)
  {
    assert (r + 1) * w <= h * w by { MulMono(r + 1, h, w); }
    assert (r + 1) * w == r * w + w;
  }

  lemma MulMono(a: nat, b: nat, w: nat)
    requires a <= b
    ensures a * w <= b * w
  {}

  lemma BlitRow(p: Pic, x: int, y: int, w: int, px: seq<Color>, x1: int, x2: int, y1: int, k: nat,
                row: seq<Color>, W: nat, H: nat)
    requires w > 0 && x1 < x2 && |row| == x2 - x1
    requires forall i | 0 <= i < |row| :: row[i] == Px(px, w, x1 - x + i, y1 + k - y)
    ensures Same(BlitPic(BlitRows(p, x, y, w, px, x1, x2, y1, k), x1, y1 + k, |row|, 1, row),
                 BlitRows(p, x, y, w, px, x1, x2, y1, k + 1), W, H)
  {
    var q := BlitRows(p, x, y, w, px, x1, x2, y1, k);
    var a := BlitPic(q, x1, y1 + k, |row|, 1, row);
    var b := BlitRows(p, x, y, w, px, x1, x2, y1, k + 1);
    forall u: nat, v: nat | u < W && v < H ensures a(u, v) == b(u, v) {
      assert a(u, v) == if InBox(x1, y1 + k, |row|, 1, u, v) then Px(row, |row|, u - x1, v - (y1 + k)) else q(u, v);
      if InBox(x1, y1 + k, |row|, 1, u, v) {
        assert v == y1 + k && Px(row, |row|, u - x1, 0) == row[u - x1];
        assert row[u - x1] == Px(px, w, x1 - x + (u - x1), y1 + k - y);
      }
    }
  }

  lemma BlitRowsNone(p: Pic, x: int, y: int, w: int, px: seq<Color>, x1: int, x2: int, y1: int, k: int, W: nat, H: nat)
    requires x1 >= x2 || k <= 0
    ensures Same(p, BlitRows(p, x, y, w, px, x1, x2, y1, k), W, H)
  {
    var b := BlitRows(p, x, y, w, px, x1, x2, y1, k);
    forall u: nat, v: nat | u < W && v < H ensures p(u, v) == b(u, v) {
      assert !(x1 <= u < x2 && y1 <= v < y1 + k);
    }
  }

  lemma BlitNone(p: Pic, x: int, y: int, w: int, h: int, px: seq<Color>, W: nat, H: nat)
    requires w <= 0 || h <= 0
    ensures Same(p, BlitPic(p, x, y, w, h, px), W, H)
  {
    var b := BlitPic(p, x, y, w, h, px);
    forall u: nat, v: nat | u < W && v < H ensures p(u, v) == b(u, v) {
      assert !InBox(x, y, w, h, u, v);
    }
  }

  // ----- Glyphs ---------------------------------------------------------------------------

  // The next cell of a glyph, painted or off the panel.
  lemma GlyphCell(p: Pic, font: Font, g: nat, fg: Color, bg: Color, cx: int, cy: int, r: nat, c: nat, W: nat, H: nat)
    requires r < 8 && c < 8
    ensures Same(RectPic(GlyphPart(p, font, g, fg, bg, cx, cy, r * 8 + c), cx + c, cy + r, 1, 1,
                         Ink(font, g, fg, bg, c, r)),
                 GlyphPart(p, font, g, fg, bg, cx, cy, r * 8 + c + 1), W, H)
    ensures !(0 <= cx + c < W && 0 <= cy + r < H) ==>
              Same(GlyphPart(p, font, g, fg, bg, cx, cy, r * 8 + c),
                   GlyphPart(p, font, g, fg, bg, cx, cy, r * 8 + c + 1), W, H)
  {
    hide Ink;
    var n := r * 8 + c;
    var q, b := GlyphPart(p, font, g, fg, bg, cx, cy, n), GlyphPart(p, font, g, fg, bg, cx, cy, n + 1);
    var a := RectPic(q, cx + c, cy + r, 1, 1, Ink(font, g, fg, bg, c, r));
    forall u: nat, v: nat | u < W && v < H
      ensures a(u, v) == b(u, v)
      ensures !(0 <= cx + c < W && 0 <= cy + r < H) ==> q(u, v) == b(u, v)
    {
      assert q(u, v) == if InBox(cx, cy, 8, 8, u, v) && (v - cy) * 8 + (u - cx) < n
                        then Ink(font, g, fg, bg, u - cx, v - cy) else p(u, v);
    }
  }

  lemma GlyphStart(p: Pic, font: Font, g: nat, fg: Color, bg: Color, cx: int, cy: int, W: nat, H: nat)
    ensures Same(p, GlyphPart(p, font, g, fg, bg, cx, cy, 0), W, H)
  {
    var b := GlyphPart(p, font, g, fg, bg, cx, cy, 0);
    forall u: nat, v: nat | u < W && v < H ensures p(u, v) == b(u, v) {
      assert InBox(cx, cy, 8, 8, u, v) ==> (v - cy) * 8 + (u - cx) >= 0;
    }
  }

  // The part of a glyph in a box, its first `k` rows done.
  function GlyphRows(p: Pic, font: Font, g: nat, fg: Color, bg: Color, cx: int, cy: int,
                     dx: int, dw: int, dy: int, k: int): Pic
  {
    (u, v) => if dx <= u < dx + dw && dy <= v < dy + k then Ink(font, g, fg, bg, u - cx, v - cy) else p(u, v)
  }

  // The box a glyph leaves on the panel, all rows done, is the glyph.
  lemma GlyphClip(p: Pic, font: Font, g: nat, fg: Color, bg: Color, cx: int, cy: int,
                  dx: int, dw: int, dy: int, dh: int, W: nat, H: nat)
    requires dx == Lo(cx) && dx + dw == Hi(cx + 8, W) && dy == Lo(cy) && dy + dh == Hi(cy + 8, H)
    ensures Same(GlyphRows(p, font, g, fg, bg, cx, cy, dx, dw, dy, dh), GlyphPart(p, font, g, fg, bg, cx, cy, 64), W, H)
  {
    hide Ink;
    var a := GlyphRows(p, font, g, fg, bg, cx, cy, dx, dw, dy, dh);
    var b := GlyphPart(p, font, g, fg, bg, cx, cy, 64);
    forall u: nat, v: nat | u < W && v < H ensures a(u, v) == b(u, v) {
      assert InBox(cx, cy, 8, 8, u, v) ==> (v - cy) * 8 + (u - cx) < 64;
      assert InBox(cx, cy, 8, 8, u, v) <==> dx <= u < dx + dw && dy <= v < dy + dh;
    }
  }

  lemma GlyphRow(p: Pic, font: Font, g: nat, fg: Color, bg: Color, cx: int, cy: int, dx: int, dw: int, dy: int, k: nat,
                 row: seq<Color>, W: nat, H: nat)
    requires dw > 0 && |row| == dw && forall i | 0 <= i < dw :: row[i] == Ink(font, g, fg, bg, dx - cx + i, dy + k - cy)
    ensures Same(BlitPic(GlyphRows(p, font, g, fg, bg, cx, cy, dx, dw, dy, k), dx, dy + k, dw, 1, row),
                 GlyphRows(p, font, g, fg, bg, cx, cy, dx, dw, dy, k + 1), W, H)
  {
    hide Ink;
    var q := GlyphRows(p, font, g, fg, bg, cx, cy, dx, dw, dy, k);
    var a := BlitPic(q, dx, dy + k, dw, 1, row);
    var b := GlyphRows(p, font, g, fg, bg, cx, cy, dx, dw, dy, k + 1);
    forall u: nat, v: nat | u < W && v < H ensures a(u, v) == b(u, v) {
      assert a(u, v) == if InBox(dx, dy + k, dw, 1, u, v) then Px(row, dw, u - dx, v - (dy + k)) else q(u, v);
      if InBox(dx, dy + k, dw, 1, u, v) {
        assert v == dy + k && Px(row, dw, u - dx, 0) == row[u - dx];
        assert row[u - dx] == Ink(font, g, fg, bg, dx - cx + (u - dx), dy + k - cy);
      }
    }
  }

  // The whole raster at once.
  lemma GlyphWhole(p: Pic, font: Font, g: nat, fg: Color, bg: Color, cx: int, cy: int,
                   raster: seq<Color>, W: nat, H: nat)
    requires |raster| == 64
    requires forall r, c | 0 <= r < 8 && 0 <= c < 8 :: raster[r * 8 + c] == Ink(font, g, fg, bg, c, r)
    ensures Same(BlitPic(p, cx, cy, 8, 8, raster), GlyphPart(p, font, g, fg, bg, cx, cy, 64), W, H)
  {
    hide Ink;
    var a, b := BlitPic(p, cx, cy, 8, 8, raster), GlyphPart(p, font, g, fg, bg, cx, cy, 64);
    forall u: nat, v: nat | u < W && v < H ensures a(u, v) == b(u, v) {
      assert a(u, v) == if InBox(cx, cy, 8, 8, u, v) then Px(raster, 8, u - cx, v - cy) else p(u, v);
      if InBox(cx, cy, 8, 8, u, v) {
        assert Px(raster, 8, u - cx, v - cy) == raster[(v - cy) * 8 + (u - cx)];
      }
    }
  }

  // A glyph wholly off the panel leaves no mark.
  lemma GlyphOff(p: Pic, font: Font, g: nat, fg: Color, bg: Color, cx: int, cy: int, W: nat, H: nat)
    requires !(cx + 8 > 0 && cy + 8 > 0 && cx < W && cy < H)
    ensures Same(p, GlyphPart(p, font, g, fg, bg, cx, cy, 64), W, H)
  {
    var b := GlyphPart(p, font, g, fg, bg, cx, cy, 64);
    forall u: nat, v: nat | u < W && v < H ensures p(u, v) == b(u, v) {
      assert !InBox(cx, cy, 8, 8, u, v);
    }
  }

  // ----- When the modes agree ------------------------------------------------------------------

  // Does the operation give the point (u, v) a colour of its own?
  predicate Paints(op: Op, width: nat, u: int, v: int) {
    match op
    case Fill(c) => true
    case Pixel(x, y, c) => InBox(x, y, 1, 1, u, v)
    case Rect(x, y, w, h, c) => InBox(x, y, w, h, u, v)
    case Text(x, y, s, fg, bg) => TextPaints(s, 0, x, x, y, width, u, v)
    case Blit(x, y, w, h, px) => InBox(x, y, w, h, u, v)
  }

  predicate TextPaints(s: string, i: nat, x: int, cx: int, cy: int, width: nat, u: int, v: int)
    requires i <= |s|
    decreases |s| - i
  {
    if i == |s| then false
    else if s[i] == '\n' then TextPaints(s, i + 1, x, x, cy + 8, width, u, v)
    else
      || InBox(cx, cy, 8, 8, u, v)
      || (if cx + 16 > width then TextPaints(s, i + 1, x, x, cy + 8, width, u, v)
          else TextPaints(s, i + 1, x, cx + 8, cy, width, u, v))
  }

  // What an operation paints does not depend on what was there, and the rest stays.
  lemma {:induction false} TextPaint(p: Pic, q: Pic, font: Font, s: string, i: nat, x: int, cx: int, cy: int,
                                     fg: Color, bg: Color, width: nat, u: int, v: int)
    requires i <= |s|
    ensures var a, b := TextPic(p, font, s, i, x, cx, cy, fg, bg, width)(u, v),
                        TextPic(q, font, s, i, x, cx, cy, fg, bg, width)(u, v);
      && (TextPaints(s, i, x, cx, cy, width, u, v) || p(u, v) == q(u, v) ==> a == b)
      && (!TextPaints(s, i, x, cx, cy, width, u, v) ==> a == p(u, v))
    decreases |s| - i
  {
    hide InBox, Ink;
    if i < |s| {
      if s[i] == '\n' {
        TextPaint(p, q, font, s, i + 1, x, x, cy + 8, fg, bg, width, u, v);
      } else {
        var g := GlyphIndex(s[i]);
        var p1 := GlyphPart(p, font, g, fg, bg, cx, cy, 64);
        var q1 := GlyphPart(q, font, g, fg, bg, cx, cy, 64);
        GlyphPaint(p, q, font, g, fg, bg, cx, cy, u, v);
        if cx + 16 > width {
          TextPaint(p1, q1, font, s, i + 1, x, x, cy + 8, fg, bg, width, u, v);
        } else {
          TextPaint(p1, q1, font, s, i + 1, x, cx + 8, cy, fg, bg, width, u, v);
        }
      }
    }
  }

  lemma GlyphPaint(p: Pic, q: Pic, font: Font, g: nat, fg: Color, bg: Color, cx: int, cy: int, u: int, v: int)
    ensures var a, b := GlyphPart(p, font, g, fg, bg, cx, cy, 64)(u, v),
                        GlyphPart(q, font, g, fg, bg, cx, cy, 64)(u, v);
      && (InBox(cx, cy, 8, 8, u, v) || p(u, v) == q(u, v) ==> a == b)
      && (!InBox(cx, cy, 8, 8, u, v) ==> a == p(u, v))
  {
    hide Ink;
  }

  lemma OpPaint(p: Pic, q: Pic, font: Font, op: Op, width: nat, u: int, v: int)
    ensures var a, b := OpPic(p, font, op, width)(u, v), OpPic(q, font, op, width)(u, v);
      && (Paints(op, width, u, v) || p(u, v) == q(u, v) ==> a == b)
      && (!Paints(op, width, u, v) ==> a == p(u, v))
  {
    hide Px, TextPic, TextPaints;
    if op.Text? {
      TextPaint(p, q, font, op.s, 0, op.x, op.x, op.y, op.fg, op.bg, width, u, v);
    }
  }

  // Some operation that is sent paints the point.
  predicate SentPaints(ops: seq<Op>, width: nat, u: int, v: int) {
    ops != [] && ((!Dropped(ops[0], width) && Paints(ops[0], width, u, v)) || SentPaints(ops[1..], width, u, v))
  }

  // Every dropped operation that paints the point is painted over by a later one
  // that is sent.
  predicate SettledAt(ops: seq<Op>, width: nat, u: int, v: int) {
    ops == [] || ((Dropped(ops[0], width) && Paints(ops[0], width, u, v) ==> SentPaints(ops[1..], width, u, v))
                  && SettledAt(ops[1..], width, u, v))
  }

  ghost predicate Settled(ops: seq<Op>, width: nat, height: nat) {
    forall u: nat, v: nat | u < width && v < height :: SettledAt(ops, width, u, v)
  }

  lemma {:induction false} AgreeAt(p: Pic, q: Pic, font: Font, ops: seq<Op>, width: nat, u: int, v: int)
    requires SettledAt(ops, width, u, v) && (p(u, v) == q(u, v) || SentPaints(ops, width, u, v))
    ensures SentOpsPic(p, font, ops, width)(u, v) == OpsPic(q, font, ops, width)(u, v)
    decreases |ops|
  {
    hide OpPic, Dropped, Paints;
    if ops != [] {
      OpPaint(p, q, font, ops[0], width, u, v);
      OpPaint(q, p, font, ops[0], width, u, v);
      AgreeAt(SentPic(p, font, ops[0], width), OpPic(q, font, ops[0], width), font, ops[1..], width, u, v);
    }
  }

  lemma ModesAgree(p: Pic, font: Font, ops: seq<Op>, width: nat, height: nat)
    requires Settled(ops, width, height)
    ensures Same(SentOpsPic(p, font, ops, width), OpsPic(p, font, ops, width), width, height)
  {
    hide SettledAt, SentOpsPic, OpsPic;
    var a, b := SentOpsPic(p, font, ops, width), OpsPic(p, font, ops, width);
    forall u: nat, v: nat | u < width && v < height ensures a(u, v) == b(u, v) {
      AgreeAt(p, p, font, ops, width, u, v);
    }
  }

  lemma {:induction false} NarrowSettled(ops: seq<Op>, width: nat, height: nat)
    requires width <= MAX_ROW
    ensures Settled(ops, width, height)
    decreases |ops|
  {
    hide Paints;
    if ops != [] {
      NarrowSettled(ops[1..], width, height);
      forall u: nat, v: nat | u < width && v < height ensures SettledAt(ops, width, u, v) {
        assert SettledAt(ops[1..], width, u, v);
      }
    }
  }

  // A fill or rectangle in another colour.
  function WithColour(op: Op, c: Color): Op {
    match op
    case Fill(_) => Fill(c)
    case Rect(x, y, w, h, _) => Rect(x, y, w, h, c)
    case _ => op
  }

  function Recoloured(ops: seq<Op>, k: nat, c: Color): seq<Op>
    requires k < |ops|
  {
    ops[k := WithColour(ops[k], c)]
  }

  lemma RecolourTail(ops: seq<Op>, k: nat, c: Color)
    requires 0 < k < |ops|
    ensures Recoloured(ops, k, c)[0] == ops[0] && Recoloured(ops, k, c)[1..] == Recoloured(ops[1..], k - 1, c)
  {}

  lemma {:induction false} NothingPaints(p: Pic, font: Font, ops: seq<Op>, width: nat, u: int, v: int)
    requires SettledAt(ops, width, u, v) && !SentPaints(ops, width, u, v)
    ensures SentOpsPic(p, font, ops, width)(u, v) == OpsPic(p, font, ops, width)(u, v) == p(u, v)
    decreases |ops|
  {
    hide OpPic, Dropped, Paints;
    if ops != [] {
      OpPaint(p, p, font, ops[0], width, u, v);
      NothingPaints(SentPic(p, font, ops[0], width), font, ops[1..], width, u, v);
      NothingPaints(OpPic(p, font, ops[0], width), font, ops[1..], width, u, v);
    }
  }

  // Where a dropped operation is left showing, the choice of its colour alone makes
  // the two modes differ.
  lemma {:induction false} UnsettledDiffers(p: Pic, q: Pic, font: Font, ops: seq<Op>, width: nat, u: int, v: int)
    returns (k: nat, c: Color)
    requires !SettledAt(ops, width, u, v)
    ensures k < |ops| && Dropped(ops[k], width)
    ensures SentOpsPic(p, font, Recoloured(ops, k, c), width)(u, v)
         != OpsPic(q, font, Recoloured(ops, k, c), width)(u, v)
    decreases |ops|
  {
    hide OpPic, Dropped, Paints, WithColour;
    var tail := ops[1..];
    if SettledAt(tail, width, u, v) {
      k, c := 0, if p(u, v) == 0 then 1 else 0;
      var r := Recoloured(ops, 0, c);
      assert r[1..] == tail;
      ColourShows(q, font, ops[0], width, u, v, c);
      NothingPaints(p, font, tail, width, u, v);
      NothingPaints(OpPic(q, font, r[0], width), font, tail, width, u, v);
    } else {
      k, c := UnsettledDiffers(SentPic(p, font, ops[0], width), OpPic(q, font, ops[0], width), font, tail, width, u, v);
      k := k + 1;
      RecolourTail(ops, k, c);
    }
  }

  lemma ColourShows(p: Pic, font: Font, op: Op, width: nat, u: int, v: int, c: Color)
    requires Dropped(op, width) && Paints(op, width, u, v)
    ensures Dropped(WithColour(op, c), width) && OpPic(p, font, WithColour(op, c), width)(u, v) == c
  {}

  lemma {:induction false} RecolourSettled(ops: seq<Op>, k: nat, c: Color, width: nat, u: int, v: int)
    requires k < |ops|
    ensures SentPaints(Recoloured(ops, k, c), width, u, v) == SentPaints(ops, width, u, v)
    ensures SettledAt(Recoloured(ops, k, c), width, u, v) == SettledAt(ops, width, u, v)
    decreases |ops|
  {
    hide Dropped, Paints, WithColour;
    SameShape(ops[k], c, width, u, v);
    if k == 0 {
      assert Recoloured(ops, 0, c)[1..] == ops[1..];
    } else {
      RecolourTail(ops, k, c);
      RecolourSettled(ops[1..], k - 1, c, width, u, v);
    }
  }

  lemma SameShape(op: Op, c: Color, width: nat, u: int, v: int)
    ensures Dropped(WithColour(op, c), width) == Dropped(op, width)
    ensures Paints(WithColour(op, c), width, u, v) == Paints(op, width, u, v)
  {}

  // The two modes leave the same pixels, whatever the colour of a dropped fill or
  // rectangle, if and only if each pixel of the panel it paints is painted over by a
  // later operation that is sent.
  lemma ModesAgreeExactly(p: Pic, font: Font, ops: seq<Op>, width: nat, height: nat)
    ensures Settled(ops, width, height) <==>
            forall k: nat, c: Color | k < |ops| && Dropped(ops[k], width) ::
              AgreeRecoloured(p, font, ops, k, c, width, height)
  {
    hide AgreeRecoloured, Dropped, Recoloured, SettledAt;
    if Settled(ops, width, height) {
      forall k: nat, c: Color | k < |ops| && Dropped(ops[k], width)
        ensures AgreeRecoloured(p, font, ops, k, c, width, height)
      {
        RecolouredAgree(p, font, ops, k, c, width, height);
      }
    } else {
      var u: nat, v: nat :| u < width && v < height && !SettledAt(ops, width, u, v);
      var k, c := UnsettledDiffers(p, p, font, ops, width, u, v);
      Disagree(p, font, ops, k, c, width, height, u, v);
    }
  }

  ghost predicate AgreeRecoloured(p: Pic, font: Font, ops: seq<Op>, k: nat, c: Color, width: nat, height: nat)
    requires k < |ops|
  {
    var r := Recoloured(ops, k, c);
    Same(SentOpsPic(p, font, r, width), OpsPic(p, font, r, width), width, height)
  }

  lemma RecolouredAgree(p: Pic, font: Font, ops: seq<Op>, k: nat, c: Color, width: nat, height: nat)
    requires k < |ops| && Settled(ops, width, height)
    ensures AgreeRecoloured(p, font, ops, k, c, width, height)
  {
    hide SettledAt, Recoloured;
    forall u: nat, v: nat | u < width && v < height ensures SettledAt(Recoloured(ops, k, c), width, u, v) {
      RecolourSettled(ops, k, c, width, u, v);
    }
    ModesAgree(p, font, Recoloured(ops, k, c), width, height);
  }

  lemma Disagree(p: Pic, font: Font, ops: seq<Op>, k: nat, c: Color, width: nat, height: nat, u: nat, v: nat)
    requires k < |ops| && u < width && v < height
    requires SentOpsPic(p, font, Recoloured(ops, k, c), width)(u, v)
          != OpsPic(p, font, Recoloured(ops, k, c), width)(u, v)
    ensures !AgreeRecoloured(p, font, ops, k, c, width, height)
  {
    hide OpsPic, SentOpsPic, Recoloured;
  }
}
