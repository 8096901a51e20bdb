/** The pixel framebuffer of ssd1306-drv.c.

    The buffer is sent in one transfer whose first byte is the I2C control
    byte announcing display data (the value of SET_DISP_START_LINE, 0x40);
    the remaining bytes fill GDDRAM in horizontal addressing mode, so data
    byte `page * WIDTH + x` holds column `x` of page `page`, bit `y % 8`
    being row `y` (sections 8.7 and 10.1.3 of the SSD1306 datasheet). */
module Framebuffer {
  import opened Errors
  import Commands

  const WIDTH: nat := 128       // SSD1306_HORIZONTAL_MAX
  const HEIGHT: nat := 64       // SSD1306_VERTICAL_MAX
  const PAGE_ROWS: nat := 8     // SSD1306_CELL_CAPACITY
  const PAGES: nat := HEIGHT / PAGE_ROWS
  /** DISP_BUFF_SIZE: one header byte followed by every page of GDDRAM. */
  const BUFF_SIZE: nat := PAGES * WIDTH + 1

  type Frame = s: seq<bv8> | |s| == BUFF_SIZE witness seq(BUFF_SIZE, _ => 0)

  /** The part of `struct ssd1306` the core uses: whether an I2C client is
      bound, and the display buffer. */
  datatype Oled = Oled(client: bool, fb: Frame)

  predicate OnScreen(x: int, y: int) {
    0 <= x < WIDTH && 0 <= y < HEIGHT
  }

  predicate BitSet(b: bv8, k: nat)
    requires k < 8
  {
    (b >> k) & 1 == 1
  }

  /** Index into the frame of the GDDRAM byte holding pixel (x, y). */
  function Address(x: int, y: int): (i: nat)
    requires OnScreen(x, y)
    ensures 1 <= i < BUFF_SIZE
  {
    1 + x + (y / PAGE_ROWS) * WIDTH
  }

  /** Pixel (x, y) is lit in the GDDRAM image a frame carries. */
  predicate PixelOn(fb: Frame, x: int, y: int)
    requires OnScreen(x, y)
  {
    Lit(Offset, fb, x, y)
  }

  /** Where a pixel setter stores pixel (x, y): `AsWritten` is the cell
      arithmetic of `ssd1306_draw_pxl`, `Offset` skips the header byte as
      the frame layout needs. */
  datatype Layout = AsWritten | Offset

  /** The one byte no pixel is stored in: the header under `Offset`, the
      last byte of the buffer under `AsWritten`. */
  function Spare(l: Layout): (i: nat) {
    if l.Offset? then 0 else BUFF_SIZE - 1
  }

  /** The byte that holds pixel (x, y) under layout `l`. */
  function Cell(l: Layout, x: int, y: int): (i: nat)
    requires OnScreen(x, y)
    ensures i < BUFF_SIZE && i != Spare(l)
    ensures l.AsWritten? ==> i == x + (y / PAGE_ROWS) * WIDTH
  {
    if l.Offset? then Address(x, y) else Address(x, y) - 1
  }

  /** Bit y % 8 of pixel (x, y)'s byte under layout `l` is set. */
  predicate Lit(l: Layout, fb: Frame, x: int, y: int)
    requires OnScreen(x, y)
  {
    BitSet(fb[Cell(l, x, y)], y % PAGE_ROWS)
  }

  /** `b` is `a` with bit `k` of byte `cell` set, and nothing else. */
  ghost predicate OnlyBitAdded(a: Frame, b: Frame, cell: int, k: int) {
    forall i, j :: 0 <= i < BUFF_SIZE && 0 <= j < 8 ==>
      (BitSet(b[i], j) <==> BitSet(a[i], j) || (i == cell && j == k))
  }

  lemma OrBit(b: bv8, k: nat, j: nat)
    requires k < 8 && j < 8
    ensures BitSet(b | (1 << k), j) <==> BitSet(b, j) || j == k
  {
  }

  lemma BitsDetermineByte(a: bv8, b: bv8)
    requires forall j :: 0 <= j < 8 ==> (BitSet(a, j) <==> BitSet(b, j))
    ensures a == b
  {
    assert BitSet(a, 0) == BitSet(b, 0) && BitSet(a, 1) == BitSet(b, 1);
    assert BitSet(a, 2) == BitSet(b, 2) && BitSet(a, 3) == BitSet(b, 3);
    assert BitSet(a, 4) == BitSet(b, 4) && BitSet(a, 5) == BitSet(b, 5);
    assert BitSet(a, 6) == BitSet(b, 6) && BitSet(a, 7) == BitSet(b, 7);
  }

  /** Sets bit `k` of byte `cell` by OR, as `disp_buff[cell_addr] |= bit`. */
  function OrIn(fb: Frame, cell: nat, k: nat): (r: Frame)
    requires cell < BUFF_SIZE && k < 8
    ensures OnlyBitAdded(fb, r, cell, k)
    ensures forall i :: 0 <= i < BUFF_SIZE && i != cell ==> r[i] == fb[i]
  {
    var r := fb[cell := fb[cell] | (1 << k)];
    assert forall j :: 0 <= j < 8 ==> (BitSet(r[cell], j) <==> BitSet(fb[cell], j) || j == k) by {
      forall j | 0 <= j < 8 {
        OrBit(fb[cell], k, j);
      }
    }
    r
  }

  /** `ssd1306_draw_pxl` exactly as written: the cell is `x + page * WIDTH`,
      without the header offset, so the pixels of column 0 in page 0 share
      byte 0 with the header and every other pixel lands in the GDDRAM
      byte before its own: one column to the left, or the last column of
      the page above for column 0. */
  function DrawPixelAsWritten(oled: Option<Oled>, x: int, y: int): (r: (Option<Oled>, Status))
    ensures !(oled.Some? && OnScreen(x, y)) ==> r == (oled, Fail(EPERM))
    ensures oled.Some? && OnScreen(x, y) ==>
      && r.1 == Ok
      && r.0.Some? && r.0.value.client == oled.value.client
      && OnlyBitAdded(oled.value.fb, r.0.value.fb, x + (y / PAGE_ROWS) * WIDTH, y % PAGE_ROWS)
  {
    if oled.None? then (oled, Fail(EPERM))
    else if x < 0 || y < 0 then (oled, Fail(EPERM))
    else if x >= WIDTH then (oled, Fail(EPERM))
    else if y >= HEIGHT then (oled, Fail(EPERM))
    else
      var row := y / PAGE_ROWS;
      var cell := x + row * WIDTH;
      if cell >= BUFF_SIZE then (oled, Fail(ERANGE))
      else (Some(oled.value.(fb := OrIn(oled.value.fb, cell, y % PAGE_ROWS))), Ok)
  }

  /** The ERANGE guard of draw_pxl is dead: every on-screen pixel's cell,
      with or without the header offset, lies inside the buffer. */
  lemma RangeGuardUnreachable(x: int, y: int)
    requires OnScreen(x, y)
    ensures x + (y / PAGE_ROWS) * WIDTH < BUFF_SIZE - 1
    ensures Address(x, y) < BUFF_SIZE
  {
  }

  /** `ssd1306_draw_pxl` with the header offset the frame layout needs. */
  function DrawPixel(oled: Option<Oled>, x: int, y: int): (r: (Option<Oled>, Status))
    ensures !(oled.Some? && OnScreen(x, y)) ==> r == (oled, Fail(EPERM))
    ensures oled.Some? && OnScreen(x, y) ==>
      && r.1 == Ok
      && r.0.Some? && r.0.value.client == oled.value.client
      && r.0.value.fb[0] == oled.value.fb[0]
      && forall px, py :: OnScreen(px, py) ==>
           (PixelOn(r.0.value.fb, px, py) <==> PixelOn(oled.value.fb, px, py) || (px == x && py == y))
  {
    if oled.None? then (oled, Fail(EPERM))
    else if x < 0 || y < 0 then (oled, Fail(EPERM))
    else if x >= WIDTH then (oled, Fail(EPERM))
    else if y >= HEIGHT then (oled, Fail(EPERM))
    else
      var cell := Address(x, y);
      var fb := OrIn(oled.value.fb, cell, y % PAGE_ROWS);
      assert forall px, py :: OnScreen(px, py) ==>
          (PixelOn(fb, px, py) <==> PixelOn(oled.value.fb, px, py) || (px == x && py == y)) by {
        forall px, py | OnScreen(px, py)
          ensures PixelOn(fb, px, py) <==> PixelOn(oled.value.fb, px, py) || (px == x && py == y)
        {
          AddressSeparates(px, py, x, y);
        }
      }
      (Some(oled.value.(fb := fb)), Ok)
  }

  /** Two distinct pixels never share both byte and bit. */
  lemma AddressSeparates(px: int, py: int, x: int, y: int)
    requires OnScreen(px, py) && OnScreen(x, y)
    ensures Address(px, py) == Address(x, y) && py % PAGE_ROWS == y % PAGE_ROWS ==> px == x && py == y
  {
    if Address(px, py) == Address(x, y) {
      assert py / PAGE_ROWS == y / PAGE_ROWS;
    }
  }

  /** Under either layout every byte but the spare one, bit by bit, holds
      some pixel. */
  lemma CellOnto(l: Layout, i: int, k: int) returns (x: int, y: int)
    requires 0 <= i < BUFF_SIZE && i != Spare(l) && 0 <= k < 8
    ensures OnScreen(x, y) && Cell(l, x, y) == i && y % PAGE_ROWS == k
  {
    var a := if l.Offset? then i else i + 1;
    var page := (a - 1) / WIDTH;
    x := (a - 1) % WIDTH;
    y := page * PAGE_ROWS + k;
    assert y / PAGE_ROWS == page;
  }

  /** A frame is determined by its spare byte and its pixels, under either
      layout. */
  lemma {:induction false} PixelsDetermineFrame(l: Layout, a: Frame, b: Frame)
    requires a[Spare(l)] == b[Spare(l)]
    requires forall x, y :: OnScreen(x, y) ==> (Lit(l, a, x, y) <==> Lit(l, b, x, y))
    ensures a == b
  {
    forall i | 0 <= i < BUFF_SIZE && i != Spare(l)
      ensures a[i] == b[i]
    {
      forall k | 0 <= k < 8
        ensures BitSet(a[i], k) <==> BitSet(b[i], k)
      {
        var x, y := CellOnto(l, i, k);
        assert Lit(l, a, x, y) <==> Lit(l, b, x, y);
      }
      BitsDetermineByte(a[i], b[i]);
    }
  }

  /** Drawing a pixel twice is drawing it once: pixels are only ORed in. */
  lemma DrawPixelIdempotent(oled: Option<Oled>, x: int, y: int)
    ensures DrawPixel(DrawPixel(oled, x, y).0, x, y) == DrawPixel(oled, x, y)
  {
    var once := DrawPixel(oled, x, y);
    var twice := DrawPixel(once.0, x, y);
    if oled.Some? && OnScreen(x, y) {
      var a, b := twice.0.value.fb, once.0.value.fb;
      forall px, py | OnScreen(px, py)
        ensures Lit(Offset, a, px, py) <==> Lit(Offset, b, px, py)
      {
        assert PixelOn(a, px, py) <==> PixelOn(b, px, py);
      }
      PixelsDetermineFrame(Offset, a, b);
    }
  }

  /** The same holds for the as-written cell arithmetic. */
  lemma DrawPixelAsWrittenIdempotent(oled: Option<Oled>, x: int, y: int)
    ensures DrawPixelAsWritten(DrawPixelAsWritten(oled, x, y).0, x, y) == DrawPixelAsWritten(oled, x, y)
  {
    var once := DrawPixelAsWritten(oled, x, y);
    var twice := DrawPixelAsWritten(once.0, x, y);
    if oled.Some? && OnScreen(x, y) {
      var a, b := twice.0.value.fb, once.0.value.fb;
      var cell := x + (y / PAGE_ROWS) * WIDTH;
      forall i | 0 <= i < BUFF_SIZE
        ensures a[i] == b[i]
      {
        forall j | 0 <= j < 8
          ensures BitSet(a[i], j) <==> BitSet(b[i], j)
        {
          assert BitSet(a[i], j) <==> BitSet(b[i], j) || (i == cell && j == y % PAGE_ROWS);
          assert BitSet(b[i], j) <==> BitSet(oled.value.fb[i], j) || (i == cell && j == y % PAGE_ROWS);
        }
        BitsDetermineByte(a[i], b[i]);
      }
      assert a == b;
    }
  }

  /** In its own layout the as-written setter adds exactly the drawn pixel
      and never touches the last byte of the buffer. */
  lemma AsWrittenAddsPixel(oled: Option<Oled>, x: int, y: int)
    ensures oled.Some? && OnScreen(x, y) ==>
      var d := DrawPixelAsWritten(oled, x, y).0.value;
      && d.fb[Spare(AsWritten)] == oled.value.fb[Spare(AsWritten)]
      && forall px, py :: OnScreen(px, py) ==>
           (Lit(AsWritten, d.fb, px, py) <==> Lit(AsWritten, oled.value.fb, px, py) || (px == x && py == y))
  {
    if oled.Some? && OnScreen(x, y) {
      var d := DrawPixelAsWritten(oled, x, y).0.value;
      forall px, py | OnScreen(px, py)
        ensures Lit(AsWritten, d.fb, px, py) <==> Lit(AsWritten, oled.value.fb, px, py) || (px == x && py == y)
      {
        AddressSeparates(px, py, x, y);
      }
      BitsDetermineByte(d.fb[BUFF_SIZE - 1], oled.value.fb[BUFF_SIZE - 1]);
    }
  }

  /** The corrected setter, read in its own layout. */
  lemma OffsetAddsPixel(oled: Option<Oled>, x: int, y: int)
    ensures oled.Some? && OnScreen(x, y) ==>
      var d := DrawPixel(oled, x, y).0.value;
      && d.fb[Spare(Offset)] == oled.value.fb[Spare(Offset)]
      && forall px, py :: OnScreen(px, py) ==>
           (Lit(Offset, d.fb, px, py) <==> Lit(Offset, oled.value.fb, px, py) || (px == x && py == y))
  {
    if oled.Some? && OnScreen(x, y) {
      var d := DrawPixel(oled, x, y).0.value;
      forall px, py | OnScreen(px, py)
        ensures Lit(Offset, d.fb, px, py) <==> Lit(Offset, oled.value.fb, px, py) || (px == x && py == y)
      {
        assert PixelOn(d.fb, px, py) <==> PixelOn(oled.value.fb, px, py) || (px == x && py == y);
      }
    }
  }

  /** What the panel shows of a pixel stored in the as-written layout: the
      panel pixel one column to its left, or for column 0 the last column
      of the page above; column 0 of page 0 is stored in the header byte. */
  lemma AsWrittenShift(fb: Frame, x: int, y: int)
    requires OnScreen(x, y)
    ensures 0 < x ==> (Lit(AsWritten, fb, x, y) <==> PixelOn(fb, x - 1, y))
    ensures x == 0 && PAGE_ROWS <= y ==>
      (Lit(AsWritten, fb, x, y) <==> PixelOn(fb, WIDTH - 1, y - PAGE_ROWS))
    ensures x == 0 && y < PAGE_ROWS ==> Cell(AsWritten, x, y) == 0
  {
    if x == 0 && PAGE_ROWS <= y {
      assert (y - PAGE_ROWS) / PAGE_ROWS == y / PAGE_ROWS - 1;
    }
  }

  /** The pixel setter of layout `l`: `ssd1306_draw_pxl` as written, or
      with the header offset. Either way an on-screen pixel is added to
      the frame as that layout reads it, and nothing else changes. */
  function SetPixel(l: Layout, oled: Option<Oled>, x: int, y: int): (r: (Option<Oled>, Status))
    ensures !(oled.Some? && OnScreen(x, y)) ==> r == (oled, Fail(EPERM))
    ensures oled.Some? && OnScreen(x, y) ==>
      && r.1 == Ok
      && r.0.Some? && r.0.value.client == oled.value.client
      && r.0.value.fb[Spare(l)] == oled.value.fb[Spare(l)]
      && forall px, py :: OnScreen(px, py) ==>
           (Lit(l, r.0.value.fb, px, py) <==> Lit(l, oled.value.fb, px, py) || (px == x && py == y))
  {
    if l.Offset? then
      OffsetAddsPixel(oled, x, y);
      DrawPixel(oled, x, y)
    else
      AsWrittenAddsPixel(oled, x, y);
      DrawPixelAsWritten(oled, x, y)
  }

  /** The header repair of `ssd1306_display`: byte 0 forced to the
      start-line value, the rest of the frame untouched. */
  function RepairHeader(fb: Frame): (r: Frame)
    ensures r[0] == Commands.SET_DISP_START_LINE
    ensures r[1..] == fb[1..]
    ensures fb[0] == Commands.SET_DISP_START_LINE ==> r == fb
  {
    if fb[0] != Commands.SET_DISP_START_LINE then fb[0 := Commands.SET_DISP_START_LINE] else fb
  }

  /** With the header offset, a drawn pixel survives the header repair and
      reaches GDDRAM at page y / 8, column x. */
  lemma DrawnPixelReachesPanel(oled: Oled, x: int, y: int)
    requires OnScreen(x, y)
    ensures var d := DrawPixel(Some(oled), x, y).0.value;
      PixelOn(RepairHeader(d.fb), x, y)
  {
    var d := DrawPixel(Some(oled), x, y).0.value;
    assert RepairHeader(d.fb)[Address(x, y)] == d.fb[Address(x, y)];
  }

  /** As written, pixel (0, 0) is drawn into the header byte, so the header
      repair wipes it and the transfer is the same as if it was never drawn. */
  lemma AsWrittenPixelLost()
    ensures var blank := Oled(true, seq(BUFF_SIZE, _ => 0));
      var d := DrawPixelAsWritten(Some(blank), 0, 0).0.value;
      && d.fb != blank.fb
      && RepairHeader(d.fb) == RepairHeader(blank.fb)
      && !PixelOn(RepairHeader(d.fb), 0, 0)
  {
    var blank := Oled(true, seq(BUFF_SIZE, _ => 0));
    var d := DrawPixelAsWritten(Some(blank), 0, 0).0.value;
    assert BitSet(d.fb[0], 0);
    forall i | 1 <= i < BUFF_SIZE
      ensures d.fb[i] == blank.fb[i]
    {
      BitsDetermineByte(d.fb[i], blank.fb[i]);
    }
    assert RepairHeader(d.fb)[1..] == RepairHeader(blank.fb)[1..];
    assert RepairHeader(d.fb)[Address(0, 0)] == 0;
  }
}
