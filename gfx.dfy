/** `GFX`: the drawing object that owns the canvas. Each method is proved to
    leave the canvas as the matching function of `CanvasModel` describes. */
module Graphics {
  import opened Basics
  import opened CText
  import opened CanvasModel

  class Gfx {
    /** `canvas_`, byte `x * 8 + page` being `canvas_[x][page]`. */
    const canvas: array<bv8>
    /** The font's glyph rows (`my_fonts::font1.font_`). */
    const font: Font

    ghost predicate Valid()
      reads this
    {
      canvas.Length == CanvasSize
    }

    /** `canvas_` starts zero-initialised. */
    constructor (font: Font)
      ensures Valid() && fresh(canvas) && this.font == font
      ensures canvas[..] == Blank()
    {
      this.font := font;
      canvas := new bv8[CanvasSize](_ => 0);
    }

    /** `set_pixel`; `val` defaults to true. */
    method SetPixel(pix: Pixel, val: bool := true)
      requires Valid() && OnCanvas(pix)
      modifies canvas
      ensures canvas[..] == WithPixel(old(canvas[..]), pix, val)
    {
      var (page, mask) := PageAndMask(pix.y);
      var i := pix.x * 8 + page;
      if val {
        canvas[i] := canvas[i] | mask;
      } else {
        canvas[i] := canvas[i] & !mask;
      }
    }

    /** `reset_pixel`. */
    method ResetPixel(pix: Pixel)
      requires Valid() && OnCanvas(pix)
      modifies canvas
      ensures canvas[..] == WithPixel(old(canvas[..]), pix, false)
    {
      SetPixel(pix, false);
    }

    /** `get_pixel`. */
    method GetPixel(pix: Pixel) returns (lit: bool)
      requires Valid() && OnCanvas(pix)
      ensures lit == PixelOf(canvas[..], pix)
    {
      var (page, mask) := PageAndMask(pix.y);
      lit := canvas[pix.x * 8 + page] & mask != 0;
    }

    /** `toggle_pixel`. */
    method TogglePixel(pix: Pixel)
      requires Valid() && OnCanvas(pix)
      modifies canvas
      ensures canvas[..] == Toggled(old(canvas[..]), pix)
    {
      var lit := GetPixel(pix);
      SetPixel(pix, !lit);
    }

    /** `clear_canvas`: all 1024 bytes set to zero at once. */
    method ClearCanvas()
      requires Valid()
      modifies canvas
      ensures canvas[..] == Blank()
    {
      forall i | 0 <= i < canvas.Length {
        canvas[i] := 0;
      }
    }

    /** `pixel_iterate(from, to, callback)`: the pixels handed to the callback,
        in the order it receives them. */
    method PixelIterate(from: Pixel, to: Pixel) returns (visited: seq<Pixel>)
      ensures visited == Visits(from, to)
    {
      visited := [];
      var x: u8 := from.x;
      while x < to.x
        invariant x == from.x || from.x <= x <= to.x
        invariant visited == RectVisits(from, x, to.y)
        decreases (to.x - x)
      {
        var y: u8 := from.y;
        while y < to.y
          invariant y == from.y || from.y <= y <= to.y
          invariant visited == RectVisits(from, x, to.y) + ColumnVisits(x, from.y, y)
          decreases (to.y - y)
        {
          NextVisit(visited, RectVisits(from, x, to.y), x, from.y, y);
          visited := visited + [Pixel(x, y)];
          y := y + 1;
        }
        NextColumn(from, x, y, to.y);
        x := x + 1;
      }
      assert RectVisits(from, x, to.y) == Visits(from, to);
    }

    /** `draw_rectangle`: `pixel_iterate` with a callback that calls
        `set_pixel(curr, val)`; `val` defaults to true. */
    method DrawRectangle(topLeft: Pixel, bottomRight: Pixel, val: bool := true)
      requires Valid() && RectFits(topLeft, bottomRight)
      modifies canvas
      ensures canvas[..] == Rectangle(old(canvas[..]), topLeft, bottomRight, val)
    {
      ghost var before := canvas[..];
      var x: u8 := topLeft.x;
      while x < bottomRight.x
        invariant x == topLeft.x || topLeft.x <= x <= bottomRight.x
        invariant canvas[..] == PaintRect(before, topLeft, x, bottomRight.y, val)
        decreases (bottomRight.x - x)
      {
        DrawRectangleColumn(x, topLeft.y, bottomRight.y, val);
        x := x + 1;
      }
    }

    /** The inner loop of `pixel_iterate` under `draw_rectangle`'s callback,
        `set_pixel(curr, val)`: column x, from row y0 to before yEnd. */
    method DrawRectangleColumn(x: u8, y0: u8, yEnd: u8, val: bool)
      requires Valid() && (y0 < yEnd ==> x < Width && yEnd <= Height)
      modifies canvas
      ensures canvas[..] == PaintColumn(old(canvas[..]), x, y0, yEnd, val)
    {
      ghost var columnStart := canvas[..];
      var y: u8 := y0;
      while y < yEnd
        invariant y == y0 || y0 <= y <= yEnd
        invariant canvas[..] == PaintColumn(columnStart, x, y0, y, val)
        decreases (yEnd - y)
      {
        ghost var row := y;
        ghost var rowsBefore := canvas[..];
        SetPixel(Pixel(x, y), val);
        y := y + 1;
        PaintColumnStep(columnStart, x, y0, row, y, val, rowsBefore, canvas[..]);
      }
      ColumnFinished(columnStart, x, y0, y, yEnd, val);
    }

    /** `render_glyph`: the glyph's 8 column bytes, each built from bit `col`
        of the glyph's 8 rows, written from column `pos.x` of line `pos.y`. */
    method RenderGlyph(pos: Pixel, c: char)
      requires Valid() && GlyphFits(pos, c)
      modifies canvas
      ensures canvas[..] == RenderedGlyph(old(canvas[..]), font, pos, c)
    {
      var xOffset := pos.x;
      var page := 7 - (if pos.y > 7 then 7 else pos.y);
      if (c as int) < FontOffset {
        return;
      }
      var index := c as int - FontOffset;
      if index >= NumGlyphs {
        return;
      }
      ghost var before := canvas[..];
      var col := 7;
      while col >= 0
        invariant -1 <= col <= 7
        invariant canvas[..] == GlyphColumns(before, font, index, xOffset, page, 7 - col)
      {
        var columnVal := GlyphColumnByte(index, col);
        canvas[(7 - col + xOffset) * 8 + page] := columnVal;
        col := col - 1;
      }
    }

    /** The inner loop of `render_glyph`: column `col` of glyph `index` as a
        byte, glyph row r going to bit 7 - r. */
    method GlyphColumnByte(index: nat, col: nat) returns (columnVal: bv8)
      requires index < NumGlyphs && col < 8
      ensures columnVal == ColumnBits(font, index, col, 8)
    {
      columnVal := 0;
      var glyphRow := 0;
      while glyphRow < 8
        invariant 0 <= glyphRow <= 8
        invariant columnVal == ColumnBits(font, index, col, glyphRow)
      {
        var a := font[index + glyphRow * 95];
        columnVal := columnVal | (if a & BitMask(col) != 0 then BitMask(7 - glyphRow) else 0);
        glyphRow := glyphRow + 1;
      }
    }

    /** `render_one`: draw one glyph at the cursor and advance it, unless
        drawing has stopped. */
    method RenderOne(c: char, cur: Cursor) returns (next: Cursor)
      requires Valid() && (cur.live ==> GlyphFits(At(cur), c))
      modifies canvas
      ensures next == OneCursor(cur)
      ensures canvas[..] == OneCanvas(old(canvas[..]), font, cur, c)
    {
      if !cur.live {
        return cur;
      }
      RenderGlyph(At(cur), c);
      var x := ToU8(cur.x + GlyphWidth);
      next := Cursor(x, cur.page, true);
      if x >= 127 - GlyphWidth {
        var page := ToU8(cur.page + 1);
        next := Cursor(0, page, true);
        if page > 7 {
          next := Cursor(0, 0, false);
          return;
        }
      }
    }

    /** `draw_text(pos, txt)`: the characters up to the terminator, in order;
        the loop ends early once the screen is full. */
    method DrawText(pos: Pixel, txt: CString)
      requires Valid() && TextFits(Cursor(pos.x, pos.y, true), txt)
      modifies canvas
      ensures canvas[..] == DrawnText(old(canvas[..]), font, pos, txt)
    {
      ghost var before := canvas[..];
      var cur := Cursor(pos.x, pos.y, true);
      ghost var start := cur;
      var i := 0;
      while i < |txt|
        invariant 0 <= i <= |txt|
        invariant TextFits(start, txt[..i])
        invariant cur == CursorAfter(start, txt[..i])
        invariant canvas[..] == CanvasAfter(start, before, font, txt[..i])
      {
        NextCharacter(start, before, font, txt, i);
        if !cur.live {
          StopsEarly(start, before, font, txt, i);
          return;
        }
        var ch := txt[i];
        if ch == '\r' {
          cur := cur.(x := 0);
        } else if ch == '\n' {
          var page := ToU8(cur.page + 1);
          cur := Cursor(0, page, page <= 7);
          if page > 7 {
            StopsEarly(start, before, font, txt, i + 1);
            return;
          }
        } else if ch == '\t' {
          cur := RenderOne(' ', cur);
          cur := RenderOne(' ', cur);
        } else {
          cur := RenderOne(ch, cur);
        }
        i := i + 1;
      }
      assert txt[..i] == txt;
    }
  }
}
