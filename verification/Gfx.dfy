// The drawing context of libgfx (sdk/display/gfx.c) in its two modes: BUFFERED
// paints a back buffer that a flush pushes to the panel, STREAM sends clipped
// areas to the panel at once. Each operation, in each mode, turns the picture
// shown into the picture GfxPicture gives for it.

module Gfx {
  import opened GfxPicture

  // The display backend: a grid of pixels that takes rectangular writes.
  class Panel {
    const width: nat
    const height: nat
    const pix: array2<Color>

    ghost predicate Valid() { pix.Length0 == height && pix.Length1 == width }

    ghost predicate Shows(p: Pic)
      requires Valid()
      reads pix
    {
      forall u: nat, v: nat | u < width && v < height :: pix[v, u] == p(u, v)
    }

    constructor (w: nat, h: nat)
      ensures width == w && height == h && Valid() && fresh(pix) && Shows(Black())
    {
      width, height := w, h;
      pix := new Color[h, w]((i, j) => 0);
    }

    // disp_write_area: only ever called with an area on the panel.
    method WriteArea(x: nat, y: nat, w: nat, h: nat, px: seq<Color>, ghost p: Pic)
      requires Valid() && Shows(p) && w > 0 && x + w <= width && y + h <= height && |px| == w * h
      modifies pix
      ensures Shows(BlitPic(p, x, y, w, h, px))
    {
      var r := 0;
      while r < h
        invariant r <= h
        invariant forall u: nat, v: nat | u < width && v < height ::
          pix[v, u] == if InBox(x, y, w, r, u, v) then Px(px, w, u - x, v - y) else p(u, v)
      {
        WriteRow(x, y, w, h, r, px, p);
        r := r + 1;
      }
      ghost var q := BlitPic(p, x, y, w, h, px);
      forall u: nat, v: nat | u < width && v < height ensures pix[v, u] == q(u, v) {}
    }

    method WriteRow(x: nat, y: nat, w: nat, h: nat, r: nat, px: seq<Color>, ghost p: Pic)
      requires Valid() && w > 0 && x + w <= width && y + h <= height && |px| == w * h && r < h
      requires forall u: nat, v: nat | u < width && v < height ::
        pix[v, u] == if InBox(x, y, w, r, u, v) then Px(px, w, u - x, v - y) else p(u, v)
      modifies pix
      ensures forall u: nat, v: nat | u < width && v < height ::
        pix[v, u] == if InBox(x, y, w, r + 1, u, v) then Px(px, w, u - x, v - y) else p(u, v)
    {
      hide Px;
      var c := 0;
      while c < w
        invariant c <= w
        invariant forall u: nat, v: nat | u < width && v < height ::
          pix[v, u] == if InBox(x, y, w, r, u, v) || (v == y + r && x <= u < x + c)
                       then Px(px, w, u - x, v - y) else p(u, v)
      {
        pix[y + r, x + c] := Px(px, w, c, r);
        c := c + 1;
      }
    }
  }

  class Context {
    const buffered: bool
    const width: nat
    const height: nat
    const font: Font
    const buf: array<Color>
    const disp: Panel

    ghost predicate Valid() {
      && disp.Valid() && 0 < disp.width == width && 0 < disp.height == height
      && (buffered ==> buf.Length == width * height)
    }

    // gfx_open_mode on a display backend: the back buffer starts black.
    constructor (buffered: bool, disp: Panel, font: Font)
      requires disp.Valid() && disp.width > 0 && disp.height > 0
      ensures Valid() && this.buffered == buffered && this.disp == disp && this.font == font && fresh(buf)
      ensures buffered ==> BufShows(Black())
    {
      this.buffered, this.disp, this.font := buffered, disp, font;
      width, height := disp.width, disp.height;
      MulMono(0, disp.height, disp.width);
      buf := new Color[if buffered then disp.width * disp.height else 0](i => 0);
      new;
      if buffered {
        forall u: nat, v: nat | u < width && v < height
          ensures (IdxIn(u, v); buf[Idx(u, v)]) == Black()(u, v)
        {
          IdxIn(u, v);
        }
      }
    }

    // Where the pixel (u, v) is in the back buffer.
    function Idx(u: nat, v: nat): nat { v * width + u }

    lemma IdxIn(u: nat, v: nat)
      requires Valid() && buffered && u < width && v < height
      ensures Idx(u, v) < buf.Length
    {
      MulMono(v + 1, height, width);
      assert (v + 1) * width == v * width + width;
    }

    lemma IdxApart(u: nat, v: nat, u': nat, v': nat)
      requires u < width && u' < width && Idx(u, v) == Idx(u', v')
      ensures u == u' && v == v'
    {
      if v < v' { IdxBelow(u, v, u', v'); }
      if v' < v { IdxBelow(u', v', u, v); }
    }

    lemma IdxBelow(u: nat, v: nat, u': nat, v': nat)
      requires u < width && v < v'
      ensures Idx(u, v) < Idx(u', v')
    {
      MulMono(v + 1, v', width);
      assert (v + 1) * width == v * width + width;
    }

    ghost predicate BufShows(p: Pic)
      requires Valid() && buffered
      reads buf
    {
      forall u: nat, v: nat | u < width && v < height :: (IdxIn(u, v); buf[Idx(u, v)]) == p(u, v)
    }

    // The picture an application sees in this context.
    ghost predicate Shows(p: Pic)
      requires Valid()
      reads buf, disp.pix
    {
      if buffered then BufShows(p) else disp.Shows(p)
    }

    // What drawing writes: the back buffer, or the panel itself.
    ghost function Target(): set<object> {
      if buffered then {buf} else {disp.pix}
    }

    // One assignment to the back buffer.
    method SetPixel(u: nat, v: nat, c: Color, ghost p: Pic)
      requires Valid() && buffered && u < width && v < height && BufShows(p)
      modifies buf
      ensures BufShows(RectPic(p, u, v, 1, 1, c))
    {
      IdxIn(u, v);
      buf[Idx(u, v)] := c;
      ghost var q := RectPic(p, u, v, 1, 1, c);
      forall u': nat, v': nat | u' < width && v' < height
        ensures (IdxIn(u', v'); buf[Idx(u', v')]) == q(u', v')
      {
        IdxIn(u', v');
        if Idx(u', v') == Idx(u, v) { IdxApart(u', v', u, v); }
      }
    }

    lemma BufSame(p: Pic, q: Pic)
      requires Valid() && buffered && BufShows(p) && Same(p, q, width, height)
      ensures BufShows(q)
    {
      forall u: nat, v: nat | u < width && v < height ensures (IdxIn(u, v); buf[Idx(u, v)]) == q(u, v) {
        IdxIn(u, v);
        assert p(u, v) == q(u, v);
      }
    }

    lemma ShowsSame(p: Pic, q: Pic)
      requires Valid() && Shows(p) && Same(p, q, width, height)
      ensures Shows(q)
    {
      if buffered { BufSame(p, q); }
    }

    // stream_write_area on a display backend. The area lies on the panel.
    method StreamArea(x: int, y: int, w: int, h: int, px: seq<Color>, ghost p: Pic)
      requires Valid() && !buffered && Shows(p)
      requires 0 <= x && 0 <= y && 0 < w && 0 <= h && x + w <= width && y + h <= height && |px| == w * h
      modifies disp.pix
      ensures Shows(BlitPic(p, x, y, w, h, px))
    {
      disp.WriteArea(x, y, w, h, px, p);
    }

    // ----- fill -----

    method Fill(c: Color, ghost p: Pic)
      requires Valid() && Shows(p)
      modifies Target()
      ensures Shows(if buffered || width <= 320 then FillPic(c) else p)
    {
      if buffered {
        var i := 0;
        while i < buf.Length
          invariant i <= buf.Length && forall k | 0 <= k < i :: buf[k] == c
        {
          buf[i] := c;
          i := i + 1;
        }
        forall u: nat, v: nat | u < width && v < height
          ensures (IdxIn(u, v); buf[Idx(u, v)]) == FillPic(c)(u, v)
        {
          IdxIn(u, v);
        }
        return;
      }
      if width > MAX_ROW { return; }
      StreamRows(0, 0, width, height, c, p);
      RectAll(p, c, width, height);
      ShowsSame(RectPic(p, 0, 0, width, height, c), FillPic(c));
    }

    // One row of the colour, sent `h` times.
    method StreamRows(x1: int, y1: int, w: nat, h: nat, c: Color, ghost p: Pic)
      requires Valid() && !buffered && Shows(p)
      requires 0 <= x1 && 0 <= y1 && x1 + w <= width && y1 + h <= height && w <= MAX_ROW
      modifies disp.pix
      ensures Shows(RectPic(p, x1, y1, w, h, c))
    {
      RectNone(p, x1, y1, w, 0, c, width, height);
      ShowsSame(p, RectPic(p, x1, y1, w, 0, c));
      if w == 0 {
        RectNone(p, x1, y1, w, h, c, width, height);
        ShowsSame(p, RectPic(p, x1, y1, w, h, c));
        return;
      }
      var row := seq(w, i => c);
      var k := 0;
      while k < h
        invariant k <= h && Shows(RectPic(p, x1, y1, w, k, c))
      {
        ghost var q := RectPic(p, x1, y1, w, k, c);
        StreamArea(x1, y1 + k, w, 1, row, q);
        ConstRow(q, x1, y1 + k, row, c, width, height);
        ShowsSame(BlitPic(q, x1, y1 + k, w, 1, row), RectPic(q, x1, y1 + k, w, 1, c));
        RectGrowY(p, x1, y1, w, k, c, width, height);
        ShowsSame(RectPic(q, x1, y1 + k, w, 1, c), RectPic(p, x1, y1, w, k + 1, c));
        k := k + 1;
      }
    }

    // ----- pixel -----

    method Pixel(x: int, y: int, c: Color, ghost p: Pic)
      requires Valid() && Shows(p)
      modifies Target()
      ensures Shows(RectPic(p, x, y, 1, 1, c))
    {
      if x < 0 || y < 0 || x >= width || y >= height {
        OffPanel(p, x, y, c);
        ShowsSame(p, RectPic(p, x, y, 1, 1, c));
        return;
      }
      if buffered {
        SetPixel(x, y, c, p);
        return;
      }
      StreamArea(x, y, 1, 1, [c], p);
      ConstRow(p, x, y, [c], c, width, height);
      ShowsSame(BlitPic(p, x, y, 1, 1, [c]), RectPic(p, x, y, 1, 1, c));
    }

    lemma OffPanel(p: Pic, x: int, y: int, c: Color)
      requires x < 0 || y < 0 || x >= width || y >= height
      ensures Same(p, RectPic(p, x, y, 1, 1, c), width, height)
    {
      var b := RectPic(p, x, y, 1, 1, c);
      forall u: nat, v: nat | u < width && v < height ensures p(u, v) == b(u, v) {
        assert !InBox(x, y, 1, 1, u, v);
      }
    }

    // ----- rect -----

    method Rect(x: int, y: int, w: int, h: int, c: Color, ghost p: Pic)
      requires Valid() && Shows(p)
      modifies Target()
      ensures var left, right := if x < 0 then 0 else x, if x + w > width then width else x + w;
        Shows(if buffered || right - left <= 320 then RectPic(p, x, y, w, h, c) else p)
    {
      if w <= 0 || h <= 0 {
        RectNone(p, x, y, w, h, c, width, height);
        ShowsSame(p, RectPic(p, x, y, w, h, c));
        return;
      }
      var x1, y1 := Lo(x), Lo(y);
      var x2, y2 := Hi(x + w, width), Hi(y + h, height);
      RectClip(p, x, y, w, h, c, width, height);
      if x1 >= x2 || y1 >= y2 {
        RectNone(p, x1, y1, x2 - x1, y2 - y1, c, width, height);
        ShowsSame(p, RectPic(p, x1, y1, x2 - x1, y2 - y1, c));
      } else if buffered {
        RectBuffered(x1, y1, x2 - x1, y2 - y1, c, p);
      } else {
        if x2 - x1 > MAX_ROW { return; }
        StreamRows(x1, y1, x2 - x1, y2 - y1, c, p);
      }
      ShowsSame(RectPic(p, x1, y1, x2 - x1, y2 - y1, c), RectPic(p, x, y, w, h, c));
    }

    method RectBuffered(x1: nat, y1: nat, w: nat, h: nat, c: Color, ghost p: Pic)
      requires Valid() && buffered && Shows(p) && x1 + w <= width && y1 + h <= height
      modifies buf
      ensures Shows(RectPic(p, x1, y1, w, h, c))
    {
      RectNone(p, x1, y1, w, 0, c, width, height);
      ShowsSame(p, RectPic(p, x1, y1, w, 0, c));
      var k := 0;
      while k < h
        invariant k <= h && Shows(RectPic(p, x1, y1, w, k, c))
      {
        ghost var q := RectPic(p, x1, y1, w, k, c);
        RectNone(q, x1, y1 + k, 0, 1, c, width, height);
        ShowsSame(q, RectPic(q, x1, y1 + k, 0, 1, c));
        var i := 0;
        while i < w
          invariant i <= w && Shows(RectPic(q, x1, y1 + k, i, 1, c))
        {
          SetPixel(x1 + i, y1 + k, c, RectPic(q, x1, y1 + k, i, 1, c));
          RectGrowX(q, x1, y1 + k, i, c, width, height);
          ShowsSame(RectPic(RectPic(q, x1, y1 + k, i, 1, c), x1 + i, y1 + k, 1, 1, c),
                    RectPic(q, x1, y1 + k, i + 1, 1, c));
          i := i + 1;
        }
        RectGrowY(p, x1, y1, w, k, c, width, height);
        ShowsSame(RectPic(q, x1, y1 + k, w, 1, c), RectPic(p, x1, y1, w, k + 1, c));
        k := k + 1;
      }
    }

    // ----- blit -----

    method Blit(x: int, y: int, w: int, h: int, px: seq<Color>, ghost p: Pic)
      requires Valid() && Shows(p) && (w > 0 && h > 0 ==> |px| >= w * h)
      modifies Target()
      ensures Shows(BlitPic(p, x, y, w, h, px))
    {
      if w <= 0 || h <= 0 {
        BlitNone(p, x, y, w, h, px, width, height);
        ShowsSame(p, BlitPic(p, x, y, w, h, px));
        return;
      }
      var x1, y1 := Lo(x), Lo(y);
      var x2, y2 := Hi(x + w, width), Hi(y + h, height);
      BlitClip(p, x, y, w, h, px, width, height);
      ghost var clipped := BlitRows(p, x, y, w, px, x1, x2, y1, y2 - y1);
      if x1 >= x2 || y1 >= y2 {
        BlitRowsNone(p, x, y, w, px, x1, x2, y1, y2 - y1, width, height);
        ShowsSame(p, clipped);
        ShowsSame(clipped, BlitPic(p, x, y, w, h, px));
        return;
      }
      var cw, ch := x2 - x1, y2 - y1;
      if !buffered && cw == w && ch == h {
        MulMono(0, h, w);
        StreamArea(x1, y1, cw, ch, px[..w * h], p);
        PxPrefix(p, x, y, w, h, px);
        ShowsSame(BlitPic(p, x, y, w, h, px[..w * h]), BlitPic(p, x, y, w, h, px));
        return;
      }
      BlitRowsNone(p, x, y, w, px, x1, x2, y1, 0, width, height);
      ShowsSame(p, BlitRows(p, x, y, w, px, x1, x2, y1, 0));
      var k := 0;
      while k < ch
        invariant 0 <= k <= ch && Shows(BlitRows(p, x, y, w, px, x1, x2, y1, k))
      {
        ghost var q := BlitRows(p, x, y, w, px, x1, x2, y1, k);
        SourceRow(px, w, h, y1 - y + k, x1 - x, cw);
        var off := (y1 - y + k) * w + (x1 - x);
        var row := px[off..off + cw];
        PutRow(x1, y1 + k, row, q);
        BlitRow(p, x, y, w, px, x1, x2, y1, k, row, width, height);
        ShowsSame(BlitPic(q, x1, y1 + k, |row|, 1, row), BlitRows(p, x, y, w, px, x1, x2, y1, k + 1));
        k := k + 1;
      }
      ShowsSame(clipped, BlitPic(p, x, y, w, h, px));
    }

    // Pixels behind the last one of a blit are not looked at.
    lemma PxPrefix(p: Pic, x: int, y: int, w: nat, h: nat, px: seq<Color>)
      requires w > 0 && |px| >= w * h
      ensures Same(BlitPic(p, x, y, w, h, px[..w * h]), BlitPic(p, x, y, w, h, px), width, height)
    {
      var a, b := BlitPic(p, x, y, w, h, px[..w * h]), BlitPic(p, x, y, w, h, px);
      forall u: nat, v: nat | u < width && v < height ensures a(u, v) == b(u, v) {
        if InBox(x, y, w, h, u, v) {
          var r, c := v - y, u - x;
          SourceRow(px[..w * h], w, h, r, c, 1);
          assert Px(px, w, c, r) == px[r * w + c] == px[..w * h][r * w + c] == Px(px[..w * h], w, c, r);
        }
      }
    }

    // One row of pixels: a copy into the back buffer, or one streamed area.
    method PutRow(x: int, y: int, row: seq<Color>, ghost p: Pic)
      requires Valid() && Shows(p) && 0 <= x && 0 <= y < height && row != [] && x + |row| <= width
      modifies Target()
      ensures Shows(BlitPic(p, x, y, |row|, 1, row))
    {
      if !buffered {
        StreamArea(x, y, |row|, 1, row, p);
        return;
      }
      BlitRowsNone(p, x, y, |row|, row, x, x, y, 1, width, height);
      ShowsSame(p, BlitRows(p, x, y, |row|, row, x, x, y, 1));
      var i := 0;
      while i < |row|
        invariant i <= |row| && Shows(BlitRows(p, x, y, |row|, row, x, x + i, y, 1))
      {
        ghost var q := BlitRows(p, x, y, |row|, row, x, x + i, y, 1);
        SetPixel(x + i, y, row[i], q);
        NextPx(p, x, y, row, i);
        ShowsSame(RectPic(q, x + i, y, 1, 1, row[i]), BlitRows(p, x, y, |row|, row, x, x + i + 1, y, 1));
        i := i + 1;
      }
      WholeRow(p, x, y, row);
      ShowsSame(BlitRows(p, x, y, |row|, row, x, x + |row|, y, 1), BlitPic(p, x, y, |row|, 1, row));
    }

    lemma NextPx(p: Pic, x: int, y: int, row: seq<Color>, i: nat)
      requires i < |row|
      ensures Same(RectPic(BlitRows(p, x, y, |row|, row, x, x + i, y, 1), x + i, y, 1, 1, row[i]),
                   BlitRows(p, x, y, |row|, row, x, x + i + 1, y, 1), width, height)
    {
      var q := BlitRows(p, x, y, |row|, row, x, x + i, y, 1);
      var a, b := RectPic(q, x + i, y, 1, 1, row[i]), BlitRows(p, x, y, |row|, row, x, x + i + 1, y, 1);
      forall u: nat, v: nat | u < width && v < height ensures a(u, v) == b(u, v) {
        assert a(u, v) == if InBox(x + i, y, 1, 1, u, v) then row[i] else q(u, v);
        assert Px(row, |row|, i, 0) == row[i];
      }
    }

    lemma WholeRow(p: Pic, x: int, y: int, row: seq<Color>)
      requires row != []
      ensures Same(BlitRows(p, x, y, |row|, row, x, x + |row|, y, 1), BlitPic(p, x, y, |row|, 1, row), width, height)
    {
      var a, b := BlitRows(p, x, y, |row|, row, x, x + |row|, y, 1), BlitPic(p, x, y, |row|, 1, row);
      forall u: nat, v: nat | u < width && v < height ensures a(u, v) == b(u, v) {
        assert InBox(x, y, |row|, 1, u, v) <==> x <= u < x + |row| && y <= v < y + 1;
      }
    }

    // ----- text -----

    // rasterize_glyph.
    method Raster(g: nat, fg: Color, bg: Color) returns (cells: seq<Color>)
      ensures |cells| == 64
      ensures forall r, c | 0 <= r < 8 && 0 <= c < 8 :: cells[r * 8 + c] == Ink(font, g, fg, bg, c, r)
    {
      cells := seq(64, i requires 0 <= i < 64 => Ink(font, g, fg, bg, i % 8, i / 8));
      forall r, c | 0 <= r < 8 && 0 <= c < 8 ensures cells[r * 8 + c] == Ink(font, g, fg, bg, c, r) {
        assert (r * 8 + c) % 8 == c && (r * 8 + c) / 8 == r;
      }
    }

    // A glyph into the back buffer, cell by cell with a bounds test.
    method GlyphBuffered(cx: int, cy: int, g: nat, fg: Color, bg: Color, ghost p: Pic)
      requires Valid() && buffered && Shows(p)
      modifies buf
      ensures Shows(GlyphPart(p, font, g, fg, bg, cx, cy, 64))
    {
      GlyphStart(p, font, g, fg, bg, cx, cy, width, height);
      ShowsSame(p, GlyphPart(p, font, g, fg, bg, cx, cy, 0));
      var r := 0;
      while r < 8
        invariant r <= 8 && Shows(GlyphPart(p, font, g, fg, bg, cx, cy, r * 8))
      {
        var c := 0;
        while c < 8
          invariant c <= 8 && Shows(GlyphPart(p, font, g, fg, bg, cx, cy, r * 8 + c))
        {
          ghost var q := GlyphPart(p, font, g, fg, bg, cx, cy, r * 8 + c);
          ghost var q' := GlyphPart(p, font, g, fg, bg, cx, cy, r * 8 + c + 1);
          GlyphCell(p, font, g, fg, bg, cx, cy, r, c, width, height);
          var px, py := cx + c, cy + r;
          var color := Ink(font, g, fg, bg, c, r);
          if px < 0 || py < 0 || px >= width || py >= height {
            ShowsSame(q, q');
          } else {
            SetPixel(px, py, color, q);
            ShowsSame(RectPic(q, px, py, 1, 1, color), q');
          }
          c := c + 1;
        }
        r := r + 1;
      }
    }

    // A glyph as streamed areas, clipped to the panel.
    method GlyphStream(cx: int, cy: int, g: nat, fg: Color, bg: Color, ghost p: Pic)
      requires Valid() && !buffered && Shows(p)
      modifies disp.pix
      ensures Shows(GlyphPart(p, font, g, fg, bg, cx, cy, 64))
    {
      ghost var done := GlyphPart(p, font, g, fg, bg, cx, cy, 64);
      if !(cx + 8 > 0 && cy + 8 > 0 && cx < width && cy < height) {
        GlyphOff(p, font, g, fg, bg, cx, cy, width, height);
        ShowsSame(p, done);
        return;
      }
      var cells := Raster(g, fg, bg);
      var dx, dy := Lo(cx), Lo(cy);
      var dw := if cx + 8 > width then width - dx else 8 - (dx - cx);
      var dh := if cy + 8 > height then height - dy else 8 - (dy - cy);
      if dw == 8 && dh == 8 {
        StreamArea(dx, dy, 8, 8, cells, p);
        GlyphWhole(p, font, g, fg, bg, cx, cy, cells, width, height);
        ShowsSame(BlitPic(p, cx, cy, 8, 8, cells), done);
        return;
      }
      GlyphRowwise(cx, cy, dx, dy, dw, dh, cells, g, fg, bg, p);
      GlyphClip(p, font, g, fg, bg, cx, cy, dx, dw, dy, dh, width, height);
      ShowsSame(GlyphRows(p, font, g, fg, bg, cx, cy, dx, dw, dy, dh), done);
    }

    // The clipped box, a row at a time, from its place in the raster.
    method GlyphRowwise(cx: int, cy: int, dx: nat, dy: nat, dw: nat, dh: nat, cells: seq<Color>,
                        g: nat, fg: Color, bg: Color, ghost p: Pic)
      requires Valid() && !buffered && Shows(p) && |cells| == 64
      requires forall r, c | 0 <= r < 8 && 0 <= c < 8 :: cells[r * 8 + c] == Ink(font, g, fg, bg, c, r)
      requires dw > 0 && cx <= dx && dx + dw <= cx + 8 && cy <= dy && dy + dh <= cy + 8
      requires dx + dw <= width && dy + dh <= height
      modifies disp.pix
      ensures Shows(GlyphRows(p, font, g, fg, bg, cx, cy, dx, dw, dy, dh))
    {
      hide Ink;
      GlyphRowsNone(p, g, fg, bg, cx, cy, dx, dw, dy);
      ShowsSame(p, GlyphRows(p, font, g, fg, bg, cx, cy, dx, dw, dy, 0));
      var k := 0;
      while k < dh
        invariant k <= dh && Shows(GlyphRows(p, font, g, fg, bg, cx, cy, dx, dw, dy, k))
      {
        ghost var q := GlyphRows(p, font, g, fg, bg, cx, cy, dx, dw, dy, k);
        var off := (k + (dy - cy)) * 8 + (dx - cx);
        var row := cells[off..off + dw];
        forall i | 0 <= i < dw ensures row[i] == Ink(font, g, fg, bg, dx - cx + i, dy + k - cy) {
          assert row[i] == cells[(k + (dy - cy)) * 8 + (dx - cx + i)];
        }
        StreamArea(dx, dy + k, dw, 1, row, q);
        GlyphRow(p, font, g, fg, bg, cx, cy, dx, dw, dy, k, row, width, height);
        ShowsSame(BlitPic(q, dx, dy + k, dw, 1, row), GlyphRows(p, font, g, fg, bg, cx, cy, dx, dw, dy, k + 1));
        k := k + 1;
      }
    }

    lemma GlyphRowsNone(p: Pic, g: nat, fg: Color, bg: Color, cx: int, cy: int, dx: int, dw: int, dy: int)
      ensures Same(p, GlyphRows(p, font, g, fg, bg, cx, cy, dx, dw, dy, 0), width, height)
    {
      var b := GlyphRows(p, font, g, fg, bg, cx, cy, dx, dw, dy, 0);
      forall u: nat, v: nat | u < width && v < height ensures p(u, v) == b(u, v) {
        assert !(dy <= v < dy + 0);
      }
    }

    method Text(x: int, y: int, s: string, fg: Color, bg: Color, ghost p: Pic)
      requires Valid() && Shows(p)
      modifies Target()
      ensures Shows(TextPic(p, font, s, 0, x, x, y, fg, bg, width))
    {
      var cx, cy := x, y;
      ghost var q := p;
      var i := 0;
      while i < |s|
        invariant i <= |s| && Shows(q)
        invariant TextPic(q, font, s, i, x, cx, cy, fg, bg, width) == TextPic(p, font, s, 0, x, x, y, fg, bg, width)
      {
        if s[i] == '\n' {
          cx, cy := x, cy + 8;
        } else {
          var g := GlyphIndex(s[i]);
          if buffered { GlyphBuffered(cx, cy, g, fg, bg, q); } else { GlyphStream(cx, cy, g, fg, bg, q); }
          q := GlyphPart(q, font, g, fg, bg, cx, cy, 64);
          cx := cx + 8;
          if cx + 8 > width { cx, cy := x, cy + 8; }
        }
        i := i + 1;
      }
    }

    // ----- sequences of operations, and flush -----

    method Draw(op: Op, ghost p: Pic)
      requires Valid() && Shows(p) && WF(op)
      modifies Target()
      ensures Shows(if buffered then OpPic(p, font, op, width) else SentPic(p, font, op, width))
    {
      match op
      case Fill(c) => Fill(c, p);
      case Pixel(x, y, c) => Pixel(x, y, c, p);
      case Rect(x, y, w, h, c) => Rect(x, y, w, h, c, p);
      case Text(x, y, s, fg, bg) => Text(x, y, s, fg, bg, p);
      case Blit(x, y, w, h, px) => Blit(x, y, w, h, px, p);
    }

    method DrawAll(ops: seq<Op>, ghost p: Pic)
      requires Valid() && Shows(p) && forall k | 0 <= k < |ops| :: WF(ops[k])
      modifies Target()
      ensures Shows(Drawn(p, ops))
    {
      hide OpPic, SentPic, WF;
      ghost var q: Pic := p;
      var i := 0;
      while i < |ops|
        invariant i <= |ops| && Shows(q) && Drawn(q, ops[i..]) == Drawn(p, ops)
      {
        assert ops[i..][1..] == ops[i + 1..];
        Draw(ops[i], q);
        q := if buffered then OpPic(q, font, ops[i], width) else SentPic(q, font, ops[i], width);
        i := i + 1;
      }
    }

    // The picture a list of operations leaves in this context.
    ghost function Drawn(p: Pic, ops: seq<Op>): Pic {
      if buffered then OpsPic(p, font, ops, width) else SentOpsPic(p, font, ops, width)
    }

    // gfx_flush: nothing to do for a streamed panel, the whole buffer otherwise.
    method Flush(ghost p: Pic, ghost before: Pic)
      requires Valid() && Shows(p) && (buffered ==> disp.Shows(before))
      modifies disp.pix
      ensures disp.Shows(p)
    {
      if !buffered { return; }
      disp.WriteArea(0, 0, width, height, buf[..], before);
      ghost var q := BlitPic(before, 0, 0, width, height, buf[..]);
      forall u: nat, v: nat | u < width && v < height ensures disp.pix[v, u] == p(u, v) {
        IdxIn(u, v);
        assert disp.pix[v, u] == q(u, v);
        assert InBox(0, 0, width, height, u, v);
        assert buf[Idx(u, v)] == p(u, v);
      }
    }
  }

  // The same calls on two panels that start black, one streamed and one buffered
  // and then flushed: each shows the picture of its mode, and the two are the same
  // if no dropped operation is left showing. Up to 320 columns nothing is dropped.
  method SamePixels(a: Panel, b: Panel, font: Font, ops: seq<Op>)
    requires a.Valid() && b.Valid() && a.pix != b.pix && a.width == b.width && a.height == b.height
    requires 0 < a.width && 0 < a.height && forall k | 0 <= k < |ops| :: WF(ops[k])
    requires a.Shows(Black()) && b.Shows(Black())
    modifies a.pix, b.pix
    ensures a.Shows(SentOpsPic(Black(), font, ops, a.width)) && b.Shows(OpsPic(Black(), font, ops, a.width))
    ensures a.width <= 320 || Settled(ops, a.width, a.height) ==>
              && a.Shows(OpsPic(Black(), font, ops, a.width))
              && forall u: nat, v: nat | u < a.width && v < a.height :: a.pix[v, u] == b.pix[v, u]
  {
    hide OpsPic, SentOpsPic, InBox, Black, WF, Settled;
    var streamed := new Context(false, a, font);
    var back := new Context(true, b, font);
    ghost var p, q := SentOpsPic(Black(), font, ops, a.width), OpsPic(Black(), font, ops, a.width);
    streamed.DrawAll(ops, Black());
    back.DrawAll(ops, Black());
    streamed.Flush(p, Black());
    back.Flush(q, Black());
    ShownAgree(a, b, font, ops);
  }

  lemma ShownAgree(a: Panel, b: Panel, font: Font, ops: seq<Op>)
    requires a.Valid() && b.Valid() && a.width == b.width && a.height == b.height
    requires a.Shows(SentOpsPic(Black(), font, ops, a.width)) && b.Shows(OpsPic(Black(), font, ops, a.width))
    ensures a.width <= 320 || Settled(ops, a.width, a.height) ==>
              && a.Shows(OpsPic(Black(), font, ops, a.width))
              && forall u: nat, v: nat | u < a.width && v < a.height :: a.pix[v, u] == b.pix[v, u]
  {
    hide OpsPic, SentOpsPic, Black, Settled;
    if a.width <= MAX_ROW { NarrowSettled(ops, a.width, a.height); }
    if Settled(ops, a.width, a.height) { ModesAgree(Black(), font, ops, a.width, a.height); }
  }
}
