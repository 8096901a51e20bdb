/** Glyph rasterisation of ssd1306-font.c: an 8x8 bitmap character drawn
    into the frame one pixel at a time.

    The kernel font lookup is an oracle: `None` when no font matches,
    otherwise a table from character code to its eight row bytes.

    The rasteriser is stated for either pixel layout: `AsWritten` is the
    driver as it stands, calling `ssd1306_draw_pxl` without the header
    offset; `Offset` is the same loop over the corrected setter. */
module Font {
  import opened Errors
  import opened Framebuffer

  const FONT_WIDTH: nat := 8
  const FONT_HEIGHT: nat := 8

  /** Eight rows, top first; in each row byte the most significant bit is
      the leftmost pixel. */
  type Glyph = g: seq<bv8> | |g| == FONT_HEIGHT witness [0, 0, 0, 0, 0, 0, 0, 0]

  type FontTable = bv8 -> Glyph

  /** The glyph has ink at column `col` of row `row`. */
  predicate InkAt(g: Glyph, row: nat, col: nat)
    requires row < FONT_HEIGHT && col < FONT_WIDTH
  {
    BitSet(g[row], 7 - col)
  }

  /** Pixel (px, py) lies in the glyph box at (x, y) and is inked. */
  predicate Covers(g: Glyph, x: int, y: int, px: int, py: int) {
    && x <= px < x + FONT_WIDTH
    && y <= py < y + FONT_HEIGHT
    && InkAt(g, py - y, px - x)
  }

  /** Covered and already visited: rows before `row`, or columns before
      `col` of row `row`. */
  predicate CoveredBefore(g: Glyph, x: int, y: int, row: nat, col: nat, px: int, py: int) {
    && Covers(g, x, y, px, py)
    && (py - y < row || (py - y == row && px - x < col))
  }

  /** Testing the top bit of the row byte shifted left `col` times reads
      bit `7 - col`: the walk goes left to right. */
  lemma ShiftedTopBit(b: bv8, col: nat)
    requires col < 8
    ensures ((b << col) & 0x80 != 0) <==> BitSet(b, 7 - col)
  {
  }

  /** Read in layout `l`, every on-screen pixel is on exactly when it was
      on in `before` or is covered before (row, col). */
  ghost predicate DrawnUpTo(l: Layout, before: Frame, now: Frame, g: Glyph, x: int, y: int, row: nat, col: nat) {
    forall px, py :: OnScreen(px, py) ==>
      (Lit(l, now, px, py) <==> Lit(l, before, px, py) || CoveredBefore(g, x, y, row, col, px, py))
  }

  /** Visiting (row, col) adds that one pixel, if inked, to the covered set. */
  lemma CoveredStep(g: Glyph, x: int, y: int, row: nat, col: nat, px: int, py: int)
    requires row < FONT_HEIGHT && col < FONT_WIDTH
    ensures CoveredBefore(g, x, y, row, col + 1, px, py) <==>
      CoveredBefore(g, x, y, row, col, px, py) || (px == x + col && py == y + row && InkAt(g, row, col))
  {
  }

  /** One step of the inner loop keeps the drawn set in step with the walk. */
  lemma DrawStep(l: Layout, before: Frame, o: Oled, g: Glyph, x: int, y: int, row: nat, col: nat)
    requires row < FONT_HEIGHT && col < FONT_WIDTH
    requires DrawnUpTo(l, before, o.fb, g, x, y, row, col)
    ensures var next := if InkAt(g, row, col) then SetPixel(l, Some(o), x + col, y + row).0.value else o;
      && next.client == o.client && next.fb[Spare(l)] == o.fb[Spare(l)]
      && DrawnUpTo(l, before, next.fb, g, x, y, row, col + 1)
  {
    var next := if InkAt(g, row, col) then SetPixel(l, Some(o), x + col, y + row).0.value else o;
    forall px, py | OnScreen(px, py)
      ensures Lit(l, next.fb, px, py) <==> Lit(l, before, px, py) || CoveredBefore(g, x, y, row, col + 1, px, py)
    {
      CoveredStep(g, x, y, row, col, px, py);
    }
  }

  /** Having walked a whole row is having walked up to the next one. */
  lemma RowDone(l: Layout, before: Frame, now: Frame, g: Glyph, x: int, y: int, row: nat)
    requires DrawnUpTo(l, before, now, g, x, y, row, FONT_WIDTH)
    ensures DrawnUpTo(l, before, now, g, x, y, row + 1, 0)
  {
    forall px, py | OnScreen(px, py)
      ensures CoveredBefore(g, x, y, row, FONT_WIDTH, px, py) <==> CoveredBefore(g, x, y, row + 1, 0, px, py)
    {
    }
  }

  /** The inner loop of `ssd1306_print_char`: one glyph row, left to
      right, a pixel drawn per set bit; a pixel off the screen is refused
      by the pixel setter and that refusal is ignored. */
  method DrawRow(l: Layout, oled: Oled, before: Frame, g: Glyph, x: int, y: int, row: nat) returns (out: Oled)
    requires row < FONT_HEIGHT
    requires DrawnUpTo(l, before, oled.fb, g, x, y, row, 0)
    ensures out.client == oled.client && out.fb[Spare(l)] == oled.fb[Spare(l)]
    ensures DrawnUpTo(l, before, out.fb, g, x, y, row + 1, 0)
  {
    out := oled;
    var vline := g[row];
    var col: nat := 0;
    while col < FONT_WIDTH
      invariant col <= FONT_WIDTH
      invariant vline == g[row] << col
      invariant out.client == oled.client && out.fb[Spare(l)] == oled.fb[Spare(l)]
      invariant DrawnUpTo(l, before, out.fb, g, x, y, row, col)
    {
      ShiftedTopBit(g[row], col);
      DrawStep(l, before, out, g, x, y, row, col);
      if vline & 0x80 != 0 {
        var drawn := SetPixel(l, Some(out), x + col, y + row);
        out := drawn.0.value;
      }
      vline := vline << 1;
      col := col + 1;
    }
    RowDone(l, before, out.fb, g, x, y, row);
  }

  /** `ssd1306_print_char` over the pixel setter of layout `l`: with a
      valid handle, an on-screen origin and a font, the glyph of `c` is
      ORed into the frame, as layout `l` reads it, with its top-left
      corner at (x, y); parts falling off the screen are clipped and the
      call still succeeds. Nothing else changes and no pixel is cleared.
      `PrintChar(AsWritten, ...)` is the driver as it stands. */
  method PrintChar(l: Layout, oled: Option<Oled>, font: Option<FontTable>, x: int, y: int, c: bv8) returns (out: Option<Oled>, status: Status)
    ensures oled.None? || !OnScreen(x, y) || font.None? ==> out == oled && status == Fail(EPERM)
    ensures oled.Some? && OnScreen(x, y) && font.Some? ==>
      && status == Ok
      && out.Some? && out.value.client == oled.value.client
      && out.value.fb[Spare(l)] == oled.value.fb[Spare(l)]
      && forall px, py :: OnScreen(px, py) ==>
           (Lit(l, out.value.fb, px, py) <==> Lit(l, oled.value.fb, px, py) || Covers(font.value(c), x, y, px, py))
  {
    if oled.None? {
      return oled, Fail(EPERM);
    }
    if x < 0 || y < 0 {
      return oled, Fail(EPERM);
    }
    if x >= WIDTH {
      return oled, Fail(EPERM);
    }
    if y >= HEIGHT {
      return oled, Fail(EPERM);
    }
    if font.None? {
      return oled, Fail(EPERM);
    }
    var g := font.value(c);
    var before := oled.value.fb;
    var cur := oled.value;
    var row: nat := 0;
    while row < FONT_HEIGHT
      invariant row <= FONT_HEIGHT
      invariant cur.client == oled.value.client && cur.fb[Spare(l)] == before[Spare(l)]
      invariant DrawnUpTo(l, before, cur.fb, g, x, y, row, 0)
    {
      cur := DrawRow(l, cur, before, g, x, y, row);
      row := row + 1;
    }
    out, status := Some(cur), Ok;
  }
}
