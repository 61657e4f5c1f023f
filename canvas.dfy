/** The GFX canvas as a value. The 128 x 64 monochrome canvas (`canvas_t`) is
    128 columns of 8 page bytes, one bit per pixel, stored column after column:
    byte `x * 8 + page` is `canvas_[x][page]`. Page 7 holds rows 0-7 and page 0
    rows 56-63; inside a page, bit 7 is the page's top row. These functions say
    what each drawing operation makes of the canvas. */
module CanvasModel {
  import opened Basics

  const Width := 128
  const Height := 64
  const PageCount := 8
  const CanvasSize := 1024

  /** `font1`: glyphs 8 pixels wide for the characters 32 to 126, stored row by
      row (row r of glyph g is byte g + 95 * r). */
  const GlyphWidth := 8
  const FontOffset := 32
  const NumGlyphs := 95
  const FontSize := 760

  /** `GFX::Pixel`: a point with `uint8_t` coordinates. */
  datatype Pixel = Pixel(x: u8, y: u8)

  type Canvas = c: seq<bv8> | |c| == CanvasSize witness seq(1024, _ => 0 as bv8)

  type Font = f: seq<bv8> | |f| == FontSize witness seq(760, _ => 0 as bv8)

  /** `1 << k` as a byte: only bit k set. */
  function BitMask(k: nat): bv8
    requires k < 8
  {
    if k == 0 then 1 else if k == 1 then 2 else if k == 2 then 4 else if k == 3 then 8
    else if k == 4 then 16 else if k == 5 then 32 else if k == 6 then 64 else 128
  }

  lemma BitMasksDisjoint(a: nat, b: nat)
    requires a < 8 && b < 8 && a != b
    ensures BitMask(a) & BitMask(b) == 0
  {
  }

  /** `get_page_and_mask`: the page byte holding a row and the row's bit in it.
      A row below the canvas gives a page that wraps around `uint8_t` and lies
      outside the canvas. */
  function PageAndMask(row: u8): (r: (u8, bv8))
    ensures r.1 == BitMask(7 - row % 8)
    ensures row < Height ==> r.0 < PageCount && 8 * (7 - r.0) <= row < 8 * (7 - r.0) + 8
    ensures row >= Height ==> r.0 >= 232
  {
    (ToU8(7 - row / 8), BitMask(7 - row % 8))
  }

  /** Two different rows of the canvas never share a bit: their pages differ or
      their masks are disjoint. */
  lemma DistinctRowsDistinctBits(r1: u8, r2: u8)
    requires r1 < Height && r2 < Height && r1 != r2
    ensures PageAndMask(r1).0 != PageAndMask(r2).0 || PageAndMask(r1).1 & PageAndMask(r2).1 == 0
  {
    if PageAndMask(r1).0 == PageAndMask(r2).0 {
      assert r1 / 8 == r2 / 8;
      BitMasksDisjoint(7 - r1 % 8, 7 - r2 % 8);
    }
  }

  predicate OnCanvas(p: Pixel)
  {
    p.x < Width && p.y < Height
  }

  /** The index of `canvas_[x][page]`. */
  function ByteIndex(x: nat, page: nat): nat
  {
    x * 8 + page
  }

  /** `get_pixel`. */
  function PixelOf(c: Canvas, p: Pixel): bool
    requires OnCanvas(p)
  {
    var (page, mask) := PageAndMask(p.y);
    c[ByteIndex(p.x, page)] & mask != 0
  }

  /** `set_pixel`: the pixel's bit set (`val`) or cleared. */
  function WithPixel(c: Canvas, p: Pixel, val: bool): Canvas
    requires OnCanvas(p)
  {
    var (page, mask) := PageAndMask(p.y);
    var i := ByteIndex(p.x, page);
    c[i := if val then c[i] | mask else c[i] & !mask]
  }

  /** After `set_pixel` the pixel reads back as the value written and every
      other pixel reads as before. */
  lemma PixelAfterWithPixel(c: Canvas, p: Pixel, val: bool, q: Pixel)
    requires OnCanvas(p) && OnCanvas(q)
    ensures PixelOf(WithPixel(c, p, val), q) == if q == p then val else PixelOf(c, q)
  {
    if q != p && PageAndMask(q.y).0 == PageAndMask(p.y).0 && q.x == p.x {
      DistinctRowsDistinctBits(p.y, q.y);
    }
  }

  /** `toggle_pixel`: `set_pixel` with the opposite of what `get_pixel` reads. */
  function Toggled(c: Canvas, p: Pixel): Canvas
    requires OnCanvas(p)
  {
    WithPixel(c, p, !PixelOf(c, p))
  }

  /** Toggling flips the pixel and leaves every other pixel as it was. */
  lemma PixelAfterToggle(c: Canvas, p: Pixel, q: Pixel)
    requires OnCanvas(p) && OnCanvas(q)
    ensures PixelOf(Toggled(c, p), q) == if q == p then !PixelOf(c, p) else PixelOf(c, q)
  {
    PixelAfterWithPixel(c, p, !PixelOf(c, p), q);
  }

  /** Toggling the same pixel twice restores the canvas byte for byte. */
  lemma ToggleTwiceRestores(c: Canvas, p: Pixel)
    requires OnCanvas(p)
    ensures Toggled(Toggled(c, p), p) == c
  {
    var (page, mask) := PageAndMask(p.y);
    var i := ByteIndex(p.x, page);
    var once := Toggled(c, p);
    assert once == c[i := once[i]];
    assert Toggled(once, p) == c[i := Toggled(once, p)[i]];
    assert Toggled(once, p)[i] == c[i];
  }

  /** `clear_canvas`: every byte zero. */
  function Blank(): (c: Canvas)
    ensures forall p :: OnCanvas(p) ==> !PixelOf(c, p)
  {
    seq(CanvasSize, _ => 0)
  }

  /** The pixels of column x from row y0 up to, not including, yEnd, in the
      order `pixel_iterate` visits them. */
  function ColumnVisits(x: u8, y0: u8, yEnd: u8): seq<Pixel>
    decreases yEnd
  {
    if yEnd <= y0 then [] else ColumnVisits(x, y0, yEnd - 1) + [Pixel(x, yEnd - 1)]
  }

  /** The pixels `pixel_iterate` hands its callback in the columns before xEnd:
      column by column from `from.x`, each from row `from.y` up to yEnd. */
  function RectVisits(from: Pixel, xEnd: u8, yEnd: u8): seq<Pixel>
    decreases xEnd
  {
    if xEnd <= from.x then [] else RectVisits(from, xEnd - 1, yEnd) + ColumnVisits(xEnd - 1, from.y, yEnd)
  }

  /** Everything `pixel_iterate(from, to, callback)` hands the callback, in order. */
  function Visits(from: Pixel, to: Pixel): seq<Pixel>
  {
    RectVisits(from, to.x, to.y)
  }

  /** The visit after row y of column x. */
  lemma NextVisit(visited: seq<Pixel>, done: seq<Pixel>, x: u8, y0: u8, y: u8)
    requires y0 <= y < 255 && visited == done + ColumnVisits(x, y0, y)
    ensures visited + [Pixel(x, y)] == done + ColumnVisits(x, y0, y + 1)
  {
  }

  /** Once the row loop of column x is over, the visits so far are those of
      the columns up to x. */
  lemma NextColumn(from: Pixel, x: u8, y: u8, yEnd: u8)
    requires from.x <= x < 255 && y >= yEnd && (y == from.y || from.y <= y <= yEnd)
    ensures RectVisits(from, x, yEnd) + ColumnVisits(x, from.y, y) == RectVisits(from, x + 1, yEnd)
  {
    assert ColumnVisits(x, from.y, y) == ColumnVisits(x, from.y, yEnd);
  }

  lemma {:induction false} ColumnVisitsMembers(x: u8, y0: u8, yEnd: u8, q: Pixel)
    ensures q in ColumnVisits(x, y0, yEnd) <==> q.x == x && y0 <= q.y < yEnd
    decreases yEnd
  {
    if yEnd > y0 {
      ColumnVisitsMembers(x, y0, yEnd - 1, q);
    }
  }

  lemma {:induction false} RectVisitsMembers(from: Pixel, xEnd: u8, yEnd: u8, q: Pixel)
    ensures q in RectVisits(from, xEnd, yEnd) <==> from.x <= q.x < xEnd && from.y <= q.y < yEnd
    decreases xEnd
  {
    if xEnd > from.x {
      RectVisitsMembers(from, xEnd - 1, yEnd, q);
      ColumnVisitsMembers(xEnd - 1, from.y, yEnd, q);
    }
  }

  /** `pixel_iterate` visits exactly the pixels of the half-open rectangle
      [from.x, to.x) x [from.y, to.y); when `from` is not less than `to` in
      either coordinate it visits none. */
  lemma VisitsExactlyRectangle(from: Pixel, to: Pixel, q: Pixel)
    ensures q in Visits(from, to) <==> from.x <= q.x < to.x && from.y <= q.y < to.y
    ensures from.x >= to.x || from.y >= to.y ==> Visits(from, to) == []
  {
    RectVisitsMembers(from, to.x, to.y, q);
    if from.x >= to.x || from.y >= to.y {
      if Visits(from, to) != [] {
        RectVisitsMembers(from, to.x, to.y, Visits(from, to)[0]);
      }
    }
  }

  /** Pixel p comes before q in `pixel_iterate`'s order: column first, then row. */
  predicate VisitedBefore(p: Pixel, q: Pixel)
  {
    p.x < q.x || (p.x == q.x && p.y < q.y)
  }

  lemma {:induction false} ColumnVisitsOrdered(x: u8, y0: u8, yEnd: u8)
    ensures forall i, j :: 0 <= i < j < |ColumnVisits(x, y0, yEnd)| ==>
              VisitedBefore(ColumnVisits(x, y0, yEnd)[i], ColumnVisits(x, y0, yEnd)[j])
    decreases yEnd
  {
    if yEnd > y0 {
      var prev := ColumnVisits(x, y0, yEnd - 1);
      ColumnVisitsOrdered(x, y0, yEnd - 1);
      forall i | 0 <= i < |prev|
        ensures prev[i].x == x && prev[i].y < yEnd - 1
      {
        ColumnVisitsMembers(x, y0, yEnd - 1, prev[i]);
      }
    }
  }

  /** Each pixel is visited once, columns left to right and rows top to bottom
      within a column. */
  lemma {:induction false} RectVisitsOrdered(from: Pixel, xEnd: u8, yEnd: u8)
    ensures forall i, j :: 0 <= i < j < |RectVisits(from, xEnd, yEnd)| ==>
              VisitedBefore(RectVisits(from, xEnd, yEnd)[i], RectVisits(from, xEnd, yEnd)[j])
    decreases xEnd
  {
    if xEnd > from.x {
      var prev := RectVisits(from, xEnd - 1, yEnd);
      var col := ColumnVisits(xEnd - 1, from.y, yEnd);
      RectVisitsOrdered(from, xEnd - 1, yEnd);
      ColumnVisitsOrdered(xEnd - 1, from.y, yEnd);
      forall i | 0 <= i < |prev|
        ensures prev[i].x < xEnd - 1
      {
        RectVisitsMembers(from, xEnd - 1, yEnd, prev[i]);
      }
      forall j | 0 <= j < |col|
        ensures col[j].x == xEnd - 1
      {
        ColumnVisitsMembers(xEnd - 1, from.y, yEnd, col[j]);
      }
    }
  }

  predicate AllOnCanvas(ps: seq<Pixel>)
  {
    forall i :: 0 <= i < |ps| ==> OnCanvas(ps[i])
  }

  /** The canvas after `set_pixel(p, val)` for each p of ps in turn. A pixel off
      the canvas is one `set_pixel` must not be given; it is skipped here, and
      `RectangleFollowsVisits` shows that `draw_rectangle` never hands one over. */
  function Painted(c: Canvas, ps: seq<Pixel>, val: bool): Canvas
    decreases |ps|
  {
    if ps == [] then c
    else
      var prev := Painted(c, ps[..|ps| - 1], val);
      var p := ps[|ps| - 1];
      if OnCanvas(p) then WithPixel(prev, p, val) else prev
  }

  /** Painting one more pixel is one more `set_pixel`. */
  lemma PaintedAppend(c: Canvas, ps: seq<Pixel>, p: Pixel, val: bool, r: Canvas)
    requires OnCanvas(p) && r == WithPixel(Painted(c, ps, val), p, val)
    ensures r == Painted(c, ps + [p], val)
  {
    assert (ps + [p])[..|ps|] == ps;
  }

  /** Painting a sequence of pixels sets exactly the pixels of the canvas that
      occur in it to val. */
  lemma {:induction false} PixelAfterPainted(c: Canvas, ps: seq<Pixel>, val: bool, q: Pixel)
    requires OnCanvas(q)
    ensures PixelOf(Painted(c, ps, val), q) == if q in ps then val else PixelOf(c, q)
    decreases |ps|
  {
    if ps != [] {
      var prev := ps[..|ps| - 1];
      var p := ps[|ps| - 1];
      assert ps == prev + [p];
      PixelAfterPainted(c, prev, val, q);
      if OnCanvas(p) {
        PixelAfterWithPixel(Painted(c, prev, val), p, val, q);
      } else {
        assert p != q;
      }
    }
  }

  /** What `draw_rectangle` needs so that no write leaves the canvas: an empty
      rectangle, or one whose exclusive corner is within the canvas. */
  predicate RectFits(from: Pixel, to: Pixel)
  {
    from.x >= to.x || from.y >= to.y || (to.x <= Width && to.y <= Height)
  }

  /** Painting ps after a then b is painting a + b. */
  lemma {:induction false} PaintedConcat(c: Canvas, a: seq<Pixel>, b: seq<Pixel>, val: bool)
    ensures Painted(c, a + b, val) == Painted(Painted(c, a, val), b, val)
    decreases |b|
  {
    if b == [] {
      assert a + b == a;
    } else {
      var shorter := b[..|b| - 1];
      var p := b[|b| - 1];
      PaintedConcat(c, a, shorter, val);
      assert (a + b)[..|a + b| - 1] == a + shorter;
      assert (a + b)[|a + b| - 1] == p;
    }
  }

  /** `set_pixel(curr, val)` down column x, rows y0 up to before yEnd. */
  function PaintColumn(c: Canvas, x: u8, y0: u8, yEnd: u8, val: bool): Canvas
    requires y0 < yEnd ==> x < Width && yEnd <= Height
    decreases yEnd
  {
    if yEnd <= y0 then c else WithPixel(PaintColumn(c, x, y0, yEnd - 1, val), Pixel(x, yEnd - 1), val)
  }

  /** One more row of a column is one more `set_pixel`: r, the canvas after
      `set_pixel` on row y over the rows before it, is the column up to the
      next row. */
  lemma PaintColumnStep(c: Canvas, x: u8, y0: u8, y: u8, next: u8, val: bool, before: Canvas, r: seq<bv8>)
    requires y0 <= y && OnCanvas(Pixel(x, y)) && next == y + 1
    requires before == PaintColumn(c, x, y0, y, val)
    requires r == WithPixel(before, Pixel(x, y), val)
    ensures r == PaintColumn(c, x, y0, next, val)
  {
  }

  /** The row loop of a column ends at yEnd, or at once when it starts past it. */
  lemma ColumnFinished(c: Canvas, x: u8, y0: u8, y: u8, yEnd: u8, val: bool)
    requires y0 < yEnd ==> x < Width && yEnd <= Height
    requires y >= yEnd && (y == y0 || y0 <= y <= yEnd)
    ensures PaintColumn(c, x, y0, y, val) == PaintColumn(c, x, y0, yEnd, val)
  {
  }

  /** `draw_rectangle`'s `set_pixel` calls for the columns before xEnd. */
  function PaintRect(c: Canvas, from: Pixel, xEnd: u8, yEnd: u8, val: bool): Canvas
    requires from.x < xEnd && from.y < yEnd ==> xEnd <= Width && yEnd <= Height
    decreases xEnd
  {
    if xEnd <= from.x then c
    else PaintColumn(PaintRect(c, from, xEnd - 1, yEnd, val), xEnd - 1, from.y, yEnd, val)
  }

  /** `draw_rectangle(from, to, val)`. */
  function Rectangle(c: Canvas, from: Pixel, to: Pixel, val: bool): Canvas
    requires RectFits(from, to)
  {
    PaintRect(c, from, to.x, to.y, val)
  }

  /** Every pixel of a rectangle that fits is on the canvas. */
  lemma RectVisitsOnCanvas(from: Pixel, xEnd: u8, yEnd: u8)
    requires from.x < xEnd && from.y < yEnd ==> xEnd <= Width && yEnd <= Height
    ensures AllOnCanvas(RectVisits(from, xEnd, yEnd))
  {
    var ps := RectVisits(from, xEnd, yEnd);
    forall i | 0 <= i < |ps|
      ensures OnCanvas(ps[i])
    {
      RectVisitsMembers(from, xEnd, yEnd, ps[i]);
    }
  }

  lemma {:induction false} PaintColumnFollowsVisits(c: Canvas, x: u8, y0: u8, yEnd: u8, val: bool)
    requires y0 < yEnd ==> x < Width && yEnd <= Height
    ensures PaintColumn(c, x, y0, yEnd, val) == Painted(c, ColumnVisits(x, y0, yEnd), val)
    decreases yEnd
  {
    if yEnd > y0 {
      PaintColumnFollowsVisits(c, x, y0, yEnd - 1, val);
      PaintedAppend(c, ColumnVisits(x, y0, yEnd - 1), Pixel(x, yEnd - 1), val, PaintColumn(c, x, y0, yEnd, val));
    }
  }

  /** Column xEnd - 1 painted over what the earlier columns' visits left. */
  lemma PaintRectUnfold(c: Canvas, from: Pixel, xEnd: u8, yEnd: u8, val: bool)
    requires from.x < xEnd && (from.y < yEnd ==> xEnd <= Width && yEnd <= Height)
    requires PaintRect(c, from, xEnd - 1, yEnd, val) == Painted(c, RectVisits(from, xEnd - 1, yEnd), val)
    ensures PaintRect(c, from, xEnd, yEnd, val)
         == PaintColumn(Painted(c, RectVisits(from, xEnd - 1, yEnd), val), xEnd - 1, from.y, yEnd, val)
  {
  }

  /** A canvas that is b painted over a painted is a + b painted. */
  lemma PaintedThen(c: Canvas, a: seq<Pixel>, b: seq<Pixel>, val: bool, r: Canvas)
    requires r == Painted(Painted(c, a, val), b, val)
    ensures r == Painted(c, a + b, val)
  {
    PaintedConcat(c, a, b, val);
  }

  /** One more column painted is the earlier columns' visits and then this
      column's, painted. */
  lemma PaintRectStep(c: Canvas, from: Pixel, xEnd: u8, yEnd: u8, val: bool)
    requires from.x < xEnd && (from.y < yEnd ==> xEnd <= Width && yEnd <= Height)
    requires PaintRect(c, from, xEnd - 1, yEnd, val) == Painted(c, RectVisits(from, xEnd - 1, yEnd), val)
    ensures PaintRect(c, from, xEnd, yEnd, val)
         == Painted(c, RectVisits(from, xEnd - 1, yEnd) + ColumnVisits(xEnd - 1, from.y, yEnd), val)
  {
    var done := RectVisits(from, xEnd - 1, yEnd);
    var col := ColumnVisits(xEnd - 1, from.y, yEnd);
    PaintRectUnfold(c, from, xEnd, yEnd, val);
    PaintColumnFollowsVisits(Painted(c, done, val), xEnd - 1, from.y, yEnd, val);
    PaintedThen(c, done, col, val, PaintRect(c, from, xEnd, yEnd, val));
  }

  lemma {:induction false} PaintRectFollowsVisits(c: Canvas, from: Pixel, xEnd: u8, yEnd: u8, val: bool)
    requires from.x < xEnd && from.y < yEnd ==> xEnd <= Width && yEnd <= Height
    ensures PaintRect(c, from, xEnd, yEnd, val) == Painted(c, RectVisits(from, xEnd, yEnd), val)
    decreases xEnd
  {
    if xEnd > from.x {
      PaintRectFollowsVisits(c, from, xEnd - 1, yEnd, val);
      PaintRectStep(c, from, xEnd, yEnd, val);
    }
  }

  /** `draw_rectangle` is `set_pixel(curr, val)` on each pixel `pixel_iterate`
      visits, in its order, and every one of them is on the canvas. */
  lemma RectangleFollowsVisits(c: Canvas, from: Pixel, to: Pixel, val: bool)
    requires RectFits(from, to)
    ensures AllOnCanvas(Visits(from, to))
    ensures Rectangle(c, from, to, val) == Painted(c, Visits(from, to), val)
  {
    RectVisitsOnCanvas(from, to.x, to.y);
    PaintRectFollowsVisits(c, from, to.x, to.y, val);
  }

  /** `draw_rectangle` sets every pixel of the half-open rectangle to val and
      leaves every pixel outside it unchanged. */
  lemma PixelAfterRectangle(c: Canvas, from: Pixel, to: Pixel, val: bool, q: Pixel)
    requires RectFits(from, to) && OnCanvas(q)
    ensures PixelOf(Rectangle(c, from, to, val), q)
         == if from.x <= q.x < to.x && from.y <= q.y < to.y then val else PixelOf(c, q)
  {
    RectangleFollowsVisits(c, from, to, val);
    PixelAfterPainted(c, Visits(from, to), val, q);
    VisitsExactlyRectangle(from, to, q);
  }

  /** The glyph `render_glyph` draws for character c: none for characters
      before the font's first or past its last. */
  function GlyphIndex(c: char): (r: Option<nat>)
    ensures r.Some? <==> FontOffset <= c as int < FontOffset + NumGlyphs
    ensures r.Some? ==> r.value < NumGlyphs && r.value + FontOffset == c as int
  {
    if (c as int) < FontOffset then None
    else if c as int - FontOffset >= NumGlyphs then None
    else Some(c as int - FontOffset)
  }

  /** Bit `col` of row r of glyph g; bit 7 is the glyph's leftmost column. */
  function GlyphBit(font: Font, g: nat, r: nat, col: nat): bool
    requires g < NumGlyphs && r < 8 && col < 8
  {
    font[g + r * 95] & BitMask(col) != 0
  }

  /** `column_val` after the first n glyph rows of column `col`: row r's bit
      lands in bit 7 - r. */
  function ColumnBits(font: Font, g: nat, col: nat, n: nat): bv8
    requires g < NumGlyphs && col < 8 && n <= 8
  {
    if n == 0 then 0
    else ColumnBits(font, g, col, n - 1) | (if GlyphBit(font, g, n - 1, col) then BitMask(7 - (n - 1)) else 0)
  }

  /** The column byte holds glyph row r in bit 7 - r, which is where
      `get_page_and_mask` looks for row r of a page. */
  lemma {:induction false} ColumnBitsHoldRows(font: Font, g: nat, col: nat, n: nat, r: nat)
    requires g < NumGlyphs && col < 8 && n <= 8 && r < 8
    ensures (ColumnBits(font, g, col, n) & BitMask(7 - r) != 0) == (r < n && GlyphBit(font, g, r, col))
  {
    if n > 0 {
      ColumnBitsHoldRows(font, g, col, n - 1, r);
      if r != n - 1 {
        BitMasksDisjoint(7 - (n - 1), 7 - r);
      }
    }
  }

  /** The canvas after `render_glyph` wrote the first n of glyph g's 8 column
      bytes, leftmost first, from column x of the given page. */
  function GlyphColumns(c: Canvas, font: Font, g: nat, x: nat, page: nat, n: nat): Canvas
    requires g < NumGlyphs && x + 8 <= Width && page < PageCount && n <= 8
  {
    if n == 0 then c
    else GlyphColumns(c, font, g, x, page, n - 1)[ByteIndex(x + n - 1, page) := ColumnBits(font, g, 7 - (n - 1), 8)]
  }

  /** Different (column, page) pairs are different canvas bytes. */
  lemma ByteIndexInjective(x1: nat, p1: nat, x2: nat, p2: nat)
    requires p1 < PageCount && p2 < PageCount && (x1 != x2 || p1 != p2)
    ensures ByteIndex(x1, p1) != ByteIndex(x2, p2)
  {
    if x1 < x2 {
      assert ByteIndex(x1, p1) < x1 * 8 + 8 <= x2 * 8;
    } else if x2 < x1 {
      assert ByteIndex(x2, p2) < x2 * 8 + 8 <= x1 * 8;
    }
  }

  /** Writing the columns touches only columns x .. x + n - 1 of the page, and
      column x + k holds the glyph's column 7 - k. */
  lemma {:induction false} GlyphColumnsBytes(c: Canvas, font: Font, g: nat, x: nat, page: nat, n: nat)
    requires g < NumGlyphs && x + 8 <= Width && page < PageCount && n <= 8
    ensures forall x' :: x <= x' < x + n ==>
              GlyphColumns(c, font, g, x, page, n)[ByteIndex(x', page)] == ColumnBits(font, g, 7 - (x' - x), 8)
    ensures forall x', p' :: 0 <= x' < Width && 0 <= p' < PageCount && !(x <= x' < x + n && p' == page) ==>
              GlyphColumns(c, font, g, x, page, n)[ByteIndex(x', p')] == c[ByteIndex(x', p')]
  {
    if n > 0 {
      GlyphColumnsBytes(c, font, g, x, page, n - 1);
      var prev := GlyphColumns(c, font, g, x, page, n - 1);
      var r := GlyphColumns(c, font, g, x, page, n);
      forall x' | x <= x' < x + n - 1
        ensures r[ByteIndex(x', page)] == prev[ByteIndex(x', page)]
      {
        ByteIndexInjective(x', page, x + n - 1, page);
      }
      forall x', p' | 0 <= x' < Width && 0 <= p' < PageCount && !(x <= x' < x + n && p' == page)
        ensures r[ByteIndex(x', p')] == prev[ByteIndex(x', p')]
      {
        ByteIndexInjective(x', p', x + n - 1, page);
      }
    }
  }

  /** The page `render_glyph` writes for text line y: lines past 7 are drawn on
      line 7, the bottom one. */
  function TextPage(y: u8): (page: nat)
    ensures page < PageCount
    ensures y <= 7 ==> page + y == 7
    ensures y > 7 ==> page == 0
  {
    7 - (if y > 7 then 7 else y)
  }

  /** What `render_glyph` needs so that it stays on the canvas: a glyph it
      draws must end within the canvas's 128 columns. */
  predicate GlyphFits(pos: Pixel, ch: char)
  {
    GlyphIndex(ch).Some? ==> pos.x as int + GlyphWidth <= Width
  }

  /** `render_glyph(pos, ch)`: the 8 x 8 glyph drawn with its top left corner at
      column pos.x of text line pos.y; a character without a glyph draws nothing. */
  function RenderedGlyph(c: Canvas, font: Font, pos: Pixel, ch: char): Canvas
    requires GlyphFits(pos, ch)
  {
    match GlyphIndex(ch)
    case None => c
    case Some(g) => GlyphColumns(c, font, g, pos.x, TextPage(pos.y), 8)
  }

  /** After `render_glyph` the pixel at column pos.x + k and row r of the text
      line shows bit 7 - k of the glyph's row r. */
  lemma GlyphPixels(c: Canvas, font: Font, pos: Pixel, ch: char, k: nat, r: nat)
    requires GlyphFits(pos, ch) && GlyphIndex(ch).Some? && k < 8 && r < 8
    ensures OnCanvas(Pixel(pos.x + k, 8 * (7 - TextPage(pos.y)) + r))
    ensures PixelOf(RenderedGlyph(c, font, pos, ch), Pixel(pos.x + k, 8 * (7 - TextPage(pos.y)) + r))
         == GlyphBit(font, GlyphIndex(ch).value, r, 7 - k)
  {
    var g := GlyphIndex(ch).value;
    var q := Pixel(pos.x + k, 8 * (7 - TextPage(pos.y)) + r);
    GlyphColumnsBytes(c, font, g, pos.x, TextPage(pos.y), 8);
    assert PageAndMask(q.y).0 == TextPage(pos.y);
    ColumnBitsHoldRows(font, g, 7 - k, 8, r);
  }

  /** `render_glyph` leaves every pixel outside the glyph's 8 x 8 cell unchanged. */
  lemma GlyphLeavesRestUnchanged(c: Canvas, font: Font, pos: Pixel, ch: char, q: Pixel)
    requires GlyphFits(pos, ch) && OnCanvas(q)
    requires !(pos.x <= q.x < pos.x + 8 && 8 * (7 - TextPage(pos.y)) <= q.y < 8 * (7 - TextPage(pos.y)) + 8)
    ensures PixelOf(RenderedGlyph(c, font, pos, ch), q) == PixelOf(c, q)
  {
    if GlyphIndex(ch).Some? {
      GlyphColumnsBytes(c, font, GlyphIndex(ch).value, pos.x, TextPage(pos.y), 8);
    }
  }

  /** `draw_text`'s cursor: `curr_x`, `curr_page`, and whether drawing goes on
      (`state` is still true and the loop has not returned). */
  datatype Cursor = Cursor(x: u8, page: u8, live: bool)

  function At(cur: Cursor): Pixel
  {
    Pixel(cur.x, cur.page)
  }

  /** `render_one`'s cursor update after a glyph: advance by the glyph width,
      wrapping around `uint8_t`; from column 119 on the next glyph would not
      fit, so the cursor moves to the start of the next line, and past line 7
      drawing stops. */
  function AfterGlyph(cur: Cursor): (r: Cursor)
    ensures r.x < 127 - GlyphWidth
    ensures r.live <==> ToU8(cur.x + GlyphWidth) < 127 - GlyphWidth || ToU8(cur.page + 1) <= 7
  {
    var x := ToU8(cur.x + GlyphWidth);
    if x >= 127 - GlyphWidth then
      var page := ToU8(cur.page + 1);
      if page > 7 then Cursor(0, 0, false) else Cursor(0, page, true)
    else Cursor(x, cur.page, true)
  }

  /** `render_one`'s effect on the cursor: nothing once drawing has stopped. */
  function OneCursor(cur: Cursor): Cursor
  {
    if cur.live then AfterGlyph(cur) else cur
  }

  /** The cursor after one character of the text. Once drawing has stopped it
      stays stopped; a live cursor always ends left of the last glyph position,
      a carriage return keeps the line and a line feed starts the next. */
  function CursorStep(cur: Cursor, ch: char): (r: Cursor)
    ensures !cur.live ==> r == cur
    ensures r.live ==> cur.live
    ensures cur.live ==> r.x < 127 - GlyphWidth
    ensures cur.live && ch == '\r' ==> r.x == 0 && r.page == cur.page && r.live
    ensures cur.live && ch == '\n' ==> r.x == 0
    ensures cur.live && ch == '\n' ==> r == Cursor(0, ToU8(cur.page + 1), ToU8(cur.page + 1) <= 7)
    ensures cur.live && ch == '\n' && cur.page <= 7 ==> (r.live <==> cur.page < 7)
    ensures cur.page <= 7 && r.live ==> r.page <= 7
  {
    if !cur.live then cur
    else if ch == '\r' then cur.(x := 0)
    else if ch == '\n' then
      var page := ToU8(cur.page + 1);
      Cursor(0, page, page <= 7)
    else if ch == '\t' then OneCursor(OneCursor(cur))
    else AfterGlyph(cur)
  }

  /** No glyph that one character draws leaves the canvas. */
  predicate StepFits(cur: Cursor, ch: char)
  {
    !cur.live || ch == '\r' || ch == '\n' ||
    ((ch == '\t' ==> GlyphFits(At(cur), ' ') && (AfterGlyph(cur).live ==> GlyphFits(At(AfterGlyph(cur)), ' '))) &&
     (ch != '\t' ==> GlyphFits(At(cur), ch)))
  }

  /** `render_one(ch)` on the canvas. */
  function OneCanvas(c: Canvas, font: Font, cur: Cursor, ch: char): Canvas
    requires cur.live ==> GlyphFits(At(cur), ch)
  {
    if cur.live then RenderedGlyph(c, font, At(cur), ch) else c
  }

  /** The canvas after one character of the text: carriage return and line feed
      only move the cursor, a tab is two spaces, any other character is drawn. */
  function CanvasStep(c: Canvas, font: Font, cur: Cursor, ch: char): Canvas
    requires StepFits(cur, ch)
  {
    if !cur.live || ch == '\r' || ch == '\n' then c
    else if ch == '\t' then OneCanvas(OneCanvas(c, font, cur, ' '), font, AfterGlyph(cur), ' ')
    else OneCanvas(c, font, cur, ch)
  }

  /** The cursor after the characters of txt, from `start`. */
  function CursorAfter(start: Cursor, txt: seq<char>): Cursor
    decreases |txt|
  {
    if txt == [] then start else CursorStep(CursorAfter(start, txt[..|txt| - 1]), txt[|txt| - 1])
  }

  /** What `draw_text` needs so that it stays on the canvas: no character draws
      a glyph that would end past column 127. */
  predicate TextFits(start: Cursor, txt: seq<char>)
    decreases |txt|
  {
    txt == [] ||
    (TextFits(start, txt[..|txt| - 1]) && StepFits(CursorAfter(start, txt[..|txt| - 1]), txt[|txt| - 1]))
  }

  /** The canvas after the characters of txt, from `start`. */
  function CanvasAfter(start: Cursor, c: Canvas, font: Font, txt: seq<char>): Canvas
    requires TextFits(start, txt)
    decreases |txt|
  {
    if txt == [] then c
    else
      var prefix := txt[..|txt| - 1];
      CanvasStep(CanvasAfter(start, c, font, prefix), font, CursorAfter(start, prefix), txt[|txt| - 1])
  }

  /** `draw_text(pos, txt)`: txt drawn from column pos.x of text line pos.y. */
  function DrawnText(c: Canvas, font: Font, pos: Pixel, txt: seq<char>): Canvas
    requires TextFits(Cursor(pos.x, pos.y, true), txt)
  {
    CanvasAfter(Cursor(pos.x, pos.y, true), c, font, txt)
  }

  /** Text that starts at column 120 or before never runs off the canvas: after
      every character the cursor is at column 120 or before, since the cursor
      wraps to the next line before a glyph could cross the right edge. */
  lemma {:induction false} TextFromLeftFits(start: Cursor, txt: seq<char>)
    requires start.x as int + GlyphWidth <= Width
    ensures CursorAfter(start, txt).x as int + GlyphWidth <= Width
    ensures TextFits(start, txt)
    decreases |txt|
  {
    if txt != [] {
      TextFromLeftFits(start, txt[..|txt| - 1]);
    }
  }

  /** Once drawing has stopped, the rest of the text changes neither the cursor
      nor the canvas. */
  lemma {:induction false} StoppedDrawsNothing(start: Cursor, c: Canvas, font: Font, done: seq<char>, rest: seq<char>)
    requires TextFits(start, done) && !CursorAfter(start, done).live
    ensures CursorAfter(start, done + rest) == CursorAfter(start, done)
    ensures TextFits(start, done + rest)
    ensures CanvasAfter(start, c, font, done + rest) == CanvasAfter(start, c, font, done)
    decreases |rest|
  {
    if rest != [] {
      var shorter := rest[..|rest| - 1];
      assert (done + rest)[..|done + rest| - 1] == done + shorter;
      StoppedDrawsNothing(start, c, font, done, shorter);
    } else {
      assert done + rest == done;
    }
  }

  /** A tab draws exactly what two spaces draw. */
  lemma TabIsTwoSpaces(c: Canvas, font: Font, cur: Cursor)
    requires cur.x as int + GlyphWidth <= Width
    ensures CursorStep(cur, '\t') == CursorStep(CursorStep(cur, ' '), ' ')
    ensures CanvasStep(c, font, cur, '\t')
         == CanvasStep(CanvasStep(c, font, cur, ' '), font, CursorStep(cur, ' '), ' ')
  {
  }

  /** The cursor after n glyphs drawn in a row. */
  function AfterGlyphs(cur: Cursor, n: nat): Cursor
  {
    if n == 0 then cur else OneCursor(AfterGlyphs(cur, n - 1))
  }

  /** A line holds 15 glyphs: from column 0 of line `page`, the k-th glyph
      (k < 15) is drawn at column 8 * k, and after the 15th the cursor is at
      the start of the next line, or drawing stops after line 7. */
  lemma {:induction false} FifteenGlyphsPerLine(page: u8, k: nat)
    requires k <= 15
    ensures k < 15 ==> AfterGlyphs(Cursor(0, page, true), k) == Cursor(8 * k, page, true)
    ensures k == 15 ==> AfterGlyphs(Cursor(0, page, true), k)
                        == if ToU8(page + 1) <= 7 then Cursor(0, ToU8(page + 1), true) else Cursor(0, 0, false)
  {
    if k > 0 {
      FifteenGlyphsPerLine(page, k - 1);
    }
  }

  /** A prefix of a text that fits fits too. */
  lemma {:induction false} FitsPrefix(start: Cursor, txt: seq<char>, n: nat)
    requires TextFits(start, txt) && n <= |txt|
    ensures TextFits(start, txt[..n])
    decreases |txt| - n
  {
    if n < |txt| {
      assert txt[..|txt| - 1][..n] == txt[..n];
      FitsPrefix(start, txt[..|txt| - 1], n);
    } else {
      assert txt[..n] == txt;
    }
  }

  /** One more character of the text: its step applies to the cursor and the
      canvas reached after the characters before it. */
  lemma NextCharacter(start: Cursor, c: Canvas, font: Font, txt: seq<char>, i: nat)
    requires TextFits(start, txt) && i < |txt|
    ensures TextFits(start, txt[..i]) && TextFits(start, txt[..i + 1])
    ensures StepFits(CursorAfter(start, txt[..i]), txt[i])
    ensures CursorAfter(start, txt[..i + 1]) == CursorStep(CursorAfter(start, txt[..i]), txt[i])
    ensures CanvasAfter(start, c, font, txt[..i + 1])
         == CanvasStep(CanvasAfter(start, c, font, txt[..i]), font, CursorAfter(start, txt[..i]), txt[i])
  {
    FitsPrefix(start, txt, i + 1);
    assert txt[..i + 1][..i] == txt[..i];
  }

  /** When drawing has stopped after the first n characters, the whole text
      leaves the canvas as those n characters did. */
  lemma StopsEarly(start: Cursor, c: Canvas, font: Font, txt: seq<char>, n: nat)
    requires TextFits(start, txt) && n <= |txt|
    ensures TextFits(start, txt[..n])
    ensures !CursorAfter(start, txt[..n]).live ==>
              CanvasAfter(start, c, font, txt) == CanvasAfter(start, c, font, txt[..n])
  {
    FitsPrefix(start, txt, n);
    if !CursorAfter(start, txt[..n]).live {
      StoppedDrawsNothing(start, c, font, txt[..n], txt[n..]);
      assert txt[..n] + txt[n..] == txt;
    }
  }
}
