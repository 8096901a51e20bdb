/** Character mode of ssd1306-cmode.c: the grid of text lines sized from
    the font and the resolution, and the cutting of a string into it.

    A C string is a byte sequence here, without its terminating NUL;
    reading past its end yields that NUL. */
module CharMode {
  import opened Errors

  /** `struct ssd1306_cmode`: `lines[l]` is `actual_disp[l]`, which holds
      `maxCols` characters and one extra slot for a line terminator. */
  datatype CharGrid = CharGrid(maxCols: nat, maxLines: nat, maxBuffSize: nat, lines: seq<seq<bv8>>)

  /** The shape `ssd1306_cmode_setup` allocates. */
  predicate WellFormed(g: CharGrid) {
    && |g.lines| == g.maxLines
    && forall l :: 0 <= l < |g.lines| ==> |g.lines[l]| == g.maxCols + 1
  }

  /** Every slot of every line, terminators included, is zero. */
  predicate Blank(g: CharGrid) {
    forall l, c :: 0 <= l < |g.lines| && 0 <= c < |g.lines[l]| ==> g.lines[l][c] == 0
  }

  /** `ALFANUM`: printable ASCII, space to tilde. */
  predicate Printable(b: bv8) {
    0x20 <= b <= 0x7E
  }

  /** `ssd1306_cmode_setup`: a null structure or a font larger than the
      display is rejected; otherwise as many cells as fit, each a font
      width plus one pixel of spacing wide, all zeroed. Font sizes are
      positive here, so the divisions are defined. */
  function Setup(cmode: Option<CharGrid>, fontWidth: int, fontHeight: int, resWidth: int, resHeight: int): (r: (Option<CharGrid>, Status))
    requires fontWidth >= 0 && fontHeight > 0
    ensures r.1 == Ok <==> cmode.Some? && fontHeight <= resHeight && fontWidth <= resWidth
    ensures r.1.Fail? ==> r == (cmode, Fail(EINVAL))
    ensures r.1 == Ok ==> r.0.Some? && WellFormed(r.0.value) && Blank(r.0.value)
    ensures r.1 == Ok ==> var g := r.0.value;
      && g.maxCols * (fontWidth + 1) <= resWidth < (g.maxCols + 1) * (fontWidth + 1)
      && g.maxLines * fontHeight <= resHeight < (g.maxLines + 1) * fontHeight
      && g.maxBuffSize == g.maxCols * g.maxLines
  {
    if cmode.None? then (cmode, Fail(EINVAL))
    else if fontHeight > resHeight then (cmode, Fail(EINVAL))
    else if fontWidth > resWidth then (cmode, Fail(EINVAL))
    else
      var cols := resWidth / (fontWidth + 1);
      var lines := resHeight / fontHeight;
      FloorDiv(resWidth, fontWidth + 1);
      FloorDiv(resHeight, fontHeight);
      (Some(CharGrid(cols, lines, cols * lines, seq(lines, _ => seq(cols + 1, _ => 0)))), Ok)
  }

  /** Euclidean division of naturals is the floor: the quotient is the
      largest count of b that fits in a. */
  lemma FloorDiv(a: int, b: int)
    requires a >= 0 && b > 0
    ensures (a / b) * b <= a < (a / b + 1) * b
  {
  }

  /** The smaller of two counts: the characters copied are the printable
      run, capped by the grid's capacity. */
  function Min(a: int, b: int): (m: int)
    ensures m <= a && m <= b && (m == a || m == b)
  {
    if a <= b then a else b
  }

  /** Length of the leading run of printable characters. */
  function PrintableRun(s: seq<bv8>): (n: nat)
    ensures n <= |s|
    ensures forall i :: 0 <= i < n ==> Printable(s[i])
    ensures n < |s| ==> !Printable(s[n])
  {
    if s == [] || !Printable(s[0]) then 0 else 1 + PrintableRun(s[1..])
  }

  /** The character the i-th cell (row-major) shows after cutting `s`:
      the leading printable run, then zeros. */
  function CellFor(s: seq<bv8>, i: nat): (b: bv8) {
    if i < PrintableRun(s) then s[i] else 0
  }

  /** Reference definition of `ssd1306_cut_str`: every character cell is
      rewritten, the terminator slots are left alone. */
  function Cut(g: CharGrid, s: seq<bv8>): (r: CharGrid)
    requires WellFormed(g)
    ensures WellFormed(r)
  {
    g.(lines := seq(g.maxLines, l requires 0 <= l < g.maxLines =>
         seq(g.maxCols + 1, c requires 0 <= c <= g.maxCols =>
           if c < g.maxCols then CellFor(s, l * g.maxCols + c) else g.lines[l][c])))
  }

  /** Lines 0 .. n - 1 hold their cut characters; every terminator slot
      is as in `g`. */
  ghost predicate CutUpTo(g: CharGrid, s: seq<bv8>, lines: seq<seq<bv8>>, n: nat) {
    && WellFormed(g)
    && |lines| == g.maxLines
    && (forall l :: 0 <= l < |lines| ==> |lines[l]| == g.maxCols + 1 && lines[l][g.maxCols] == g.lines[l][g.maxCols])
    && forall l, c :: 0 <= l < n && l < |lines| && 0 <= c < g.maxCols ==> lines[l][c] == CellFor(s, l * g.maxCols + c)
  }

  /** All lines cut is the reference result. */
  lemma CutUpToAll(g: CharGrid, s: seq<bv8>, lines: seq<seq<bv8>>)
    requires CutUpTo(g, s, lines, g.maxLines)
    ensures lines == Cut(g, s).lines
  {
    var want := Cut(g, s).lines;
    forall l | 0 <= l < |lines|
      ensures lines[l] == want[l]
    {
      forall c | 0 <= c < |lines[l]|
        ensures lines[l][c] == want[l][c]
      {
      }
    }
  }

  /** The zeroing loop of `ssd1306_cut_str`: the string has run out of
      printable characters before cell `col` of line `lineNum`, so that
      cell and every later one of the line become zero. */
  method BlankRest(g: CharGrid, s: seq<bv8>, lines: seq<seq<bv8>>, lineNum: nat, col: nat) returns (lines': seq<seq<bv8>>)
    requires lineNum < g.maxLines && col <= g.maxCols && CutUpTo(g, s, lines, lineNum)
    requires PrintableRun(s) <= lineNum * g.maxCols + col
    requires forall c :: 0 <= c < col ==> lines[lineNum][c] == CellFor(s, lineNum * g.maxCols + c)
    ensures CutUpTo(g, s, lines', lineNum + 1)
  {
    var cols := g.maxCols;
    lines' := lines;
    var k := col;
    while k < cols
      invariant col <= k <= cols
      invariant CutUpTo(g, s, lines', lineNum)
      invariant forall c :: 0 <= c < k ==> lines'[lineNum][c] == CellFor(s, lineNum * cols + c)
    {
      lines' := lines'[lineNum := lines'[lineNum][k := 0]];
      k := k + 1;
    }
  }

  /** One pass of the outer loop of `ssd1306_cut_str`: fill line `lineNum`
      from `pos`. A non-printable character zeroes the rest of the line
      and ends the pass without being consumed. */
  method CutLine(g: CharGrid, s: seq<bv8>, lines: seq<seq<bv8>>, lineNum: nat, pos: nat, counter: nat)
    returns (lines': seq<seq<bv8>>, pos': nat, counter': nat)
    requires lineNum < g.maxLines && CutUpTo(g, s, lines, lineNum)
    requires counter == pos == Min(PrintableRun(s), lineNum * g.maxCols)
    ensures CutUpTo(g, s, lines', lineNum + 1)
    ensures counter' == pos' == Min(PrintableRun(s), (lineNum + 1) * g.maxCols)
  {
    var cols, run := g.maxCols, PrintableRun(s);
    lines', pos', counter' := lines, pos, counter;
    var col: nat := 0;
    while col < cols
      invariant col <= cols
      invariant CutUpTo(g, s, lines', lineNum)
      invariant counter' == pos' == Min(run, lineNum * cols + col)
      invariant forall c :: 0 <= c < col ==> lines'[lineNum][c] == CellFor(s, lineNum * cols + c)
    {
      var ch: bv8 := if pos' < |s| then s[pos'] else 0;
      if !Printable(ch) {
        assert pos' == run;
        lines' := BlankRest(g, s, lines', lineNum, col);
        col := cols;
        break;
      } else {
        lines' := lines'[lineNum := lines'[lineNum][col := ch]];
        counter' := counter' + 1;
      }
      pos' := pos' + 1;
      col := col + 1;
    }
    assert (lineNum + 1) * cols == lineNum * cols + cols;
  }

  /** `ssd1306_cut_str`. The C tests the pointer `position` rather than the
      character it points to, so its end-of-string branch is never taken:
      the terminating NUL is a non-printable character like any other,
      which blanks the rest of its line without being consumed, so every
      later line is blanked too. */
  method CutStr(cmode: Option<CharGrid>, str: Option<seq<bv8>>) returns (out: Option<CharGrid>, r: Result<nat>)
    requires cmode.Some? ==> WellFormed(cmode.value)
    ensures cmode.None? || str.None? ==> out == cmode && r == Failure(EINVAL)
    ensures cmode.Some? && str.Some? ==>
      && out == Some(Cut(cmode.value, str.value))
      && r == Success(Min(PrintableRun(str.value), cmode.value.maxCols * cmode.value.maxLines))
  {
    if str.None? || cmode.None? {
      return cmode, Failure(EINVAL);
    }
    var g, s := cmode.value, str.value;
    var lines := g.lines;
    var pos: nat := 0;
    var counter: nat := 0;
    var lineNum: nat := 0;
    while lineNum < g.maxLines
      invariant lineNum <= g.maxLines
      invariant CutUpTo(g, s, lines, lineNum)
      invariant counter == pos == Min(PrintableRun(s), lineNum * g.maxCols)
    {
      lines, pos, counter := CutLine(g, s, lines, lineNum, pos, counter);
      lineNum := lineNum + 1;
    }
    CutUpToAll(g, s, lines);
    assert g.maxLines * g.maxCols == g.maxCols * g.maxLines;
    out := Some(g.(lines := lines));
    r := Success(counter);
  }

  /** The characters a grid shows, line after line, `cols` per line. */
  function Text(lines: seq<seq<bv8>>, cols: nat): (text: seq<bv8>)
    requires forall l :: 0 <= l < |lines| ==> |lines[l]| >= cols
  {
    if lines == [] then [] else lines[0][..cols] + Text(lines[1..], cols)
  }

  lemma {:induction false} TextLength(lines: seq<seq<bv8>>, cols: nat)
    requires forall l :: 0 <= l < |lines| ==> |lines[l]| >= cols
    ensures |Text(lines, cols)| == |lines| * cols
  {
    if lines != [] {
      TextLength(lines[1..], cols);
    }
  }

  /** A cell of line l < n lies before the end of n lines. */
  lemma {:induction false} CellInside(l: nat, c: nat, n: nat, cols: nat)
    requires l < n && c < cols
    ensures l * cols + c < n * cols
    decreases n
  {
    assert n * cols == (n - 1) * cols + cols;
    if l < n - 1 {
      CellInside(l, c, n - 1, cols);
    }
  }

  /** Dropping the first line moves every later cell back by one line. */
  lemma ShiftLine(l: nat, c: nat, cols: nat)
    requires l > 0
    ensures l * cols + c == cols + ((l - 1) * cols + c)
  {
  }

  /** Cell c of line l is character l * cols + c of the text. */
  lemma {:induction false} TextAt(lines: seq<seq<bv8>>, cols: nat, l: nat, c: nat)
    requires forall l :: 0 <= l < |lines| ==> |lines[l]| >= cols
    requires l < |lines| && c < cols
    ensures l * cols + c < |Text(lines, cols)|
    ensures Text(lines, cols)[l * cols + c] == lines[l][c]
  {
    TextLength(lines, cols);
    CellInside(l, c, |lines|, cols);
    if l > 0 {
      TextAt(lines[1..], cols, l - 1, c);
      ShiftLine(l, c, cols);
    }
  }

  /** Row-major position i of a grid with `lines` lines of `cols` cells
      is cell i % cols of line i / cols. */
  lemma RowMajor(i: nat, cols: nat, lines: nat)
    requires i < cols * lines
    ensures cols > 0 && i / cols < lines && i % cols < cols
    ensures i == (i / cols) * cols + i % cols
  {
  }

  /** Character i of the text of a cut grid is the cell reference. */
  lemma CutTextAt(g: CharGrid, s: seq<bv8>, i: nat)
    requires WellFormed(g) && i < g.maxCols * g.maxLines
    ensures i < |Text(Cut(g, s).lines, g.maxCols)|
    ensures Text(Cut(g, s).lines, g.maxCols)[i] == CellFor(s, i)
  {
    var cols := g.maxCols;
    RowMajor(i, cols, g.maxLines);
    TextAt(Cut(g, s).lines, cols, i / cols, i % cols);
  }

  /** Reading the grid back after a cut gives the part of the string that
      was copied followed by blank cells: the copied part is the leading
      printable run, cut short at the grid's capacity. */
  lemma CutText(g: CharGrid, s: seq<bv8>)
    requires WellFormed(g)
    ensures var cap := g.maxCols * g.maxLines;
      var n := Min(PrintableRun(s), cap);
      Text(Cut(g, s).lines, g.maxCols) == s[..n] + seq(cap - n, _ => 0)
  {
    var cap := g.maxCols * g.maxLines;
    var n := Min(PrintableRun(s), cap);
    var t, want := Text(Cut(g, s).lines, g.maxCols), s[..n] + seq(cap - n, _ => 0);
    TextLength(Cut(g, s).lines, g.maxCols);
    assert |t| == cap;
    forall i | 0 <= i < cap
      ensures t[i] == want[i]
    {
      CutTextAt(g, s, i);
    }
  }

  /** Cutting the same string twice changes nothing the second time. */
  lemma CutIdempotent(g: CharGrid, s: seq<bv8>)
    requires WellFormed(g)
    ensures Cut(Cut(g, s), s) == Cut(g, s)
  {
    var once := Cut(g, s);
    var twice := Cut(once, s);
    forall l | 0 <= l < g.maxLines
      ensures twice.lines[l] == once.lines[l]
    {
    }
  }

  /** A grid fresh from setup keeps every line NUL-terminated through any
      cut, and every character cell holds a printable character or zero. */
  lemma CutKeepsTerminators(g: CharGrid, s: seq<bv8>)
    requires WellFormed(g) && Blank(g)
    ensures forall l :: 0 <= l < g.maxLines ==> Cut(g, s).lines[l][g.maxCols] == 0
    ensures forall l, c :: 0 <= l < g.maxLines && 0 <= c < g.maxCols ==>
      var b := Cut(g, s).lines[l][c]; b == 0 || Printable(b)
  {
    forall l, c | 0 <= l < g.maxLines && 0 <= c < g.maxCols
      ensures var b := Cut(g, s).lines[l][c]; b == 0 || Printable(b)
    {
      var i := l * g.maxCols + c;
      assert Cut(g, s).lines[l][c] == CellFor(s, i);
      if i < PrintableRun(s) {
        assert Printable(s[i]);
      }
    }
  }

  /** What the grid held before a cut does not matter beyond its
      terminator slots. */
  lemma CutForgetsContent(g: CharGrid, h: CharGrid, s: seq<bv8>)
    requires WellFormed(g) && WellFormed(h)
    requires g.maxCols == h.maxCols && g.maxLines == h.maxLines && g.maxBuffSize == h.maxBuffSize
    requires forall l :: 0 <= l < g.maxLines ==> g.lines[l][g.maxCols] == h.lines[l][h.maxCols]
    ensures Cut(g, s) == Cut(h, s)
  {
    var a, b := Cut(g, s), Cut(h, s);
    forall l | 0 <= l < g.maxLines
      ensures a.lines[l] == b.lines[l]
    {
    }
  }

  /** The 8x8 kernel font on the 128x64 panel: 14 columns of 9 pixels and
      8 lines, 112 characters in all. */
  lemma SetupDefaultFont(cmode: CharGrid)
    ensures var r := Setup(Some(cmode), 8, 8, 128, 64);
      && r.1 == Ok
      && r.0.value.maxCols == 14 && r.0.value.maxLines == 8 && r.0.value.maxBuffSize == 112
  {
  }

  const BLANK_LINE: seq<bv8> := [0, 0, 0, 0, 0, 0, 0, 0, 0, 0, 0]

  /** On a blank grid of two lines of ten, a cut whose copied part fits in
      line 0 leaves line 0 holding that part and zeros, and line 1 blank. */
  lemma CutShortText(g: CharGrid, s: seq<bv8>, first: seq<bv8>)
    requires WellFormed(g) && Blank(g) && g.maxCols == 10 && g.maxLines == 2
    requires |first| == 11 && PrintableRun(s) <= 10
    requires forall c :: 0 <= c < 11 ==> first[c] == CellFor(s, c)
    ensures Cut(g, s).lines == [first, BLANK_LINE]
  {
    var cut := Cut(g, s).lines;
    forall c | 0 <= c < 11
      ensures cut[0][c] == first[c] && cut[1][c] == BLANK_LINE[c]
    {
      if c < 10 {
        assert cut[0][c] == CellFor(s, c);
        assert cut[1][c] == CellFor(s, 10 + c) == 0;
      } else {
        assert cut[0][c] == g.lines[0][10] && cut[1][c] == g.lines[1][10];
      }
    }
    assert cut[0] == first && cut[1] == BLANK_LINE;
  }

  /** "Hello" on a blank grid of two lines of ten: the word and zeros on
      line 0, line 1 blank, five characters copied. */
  lemma CutHello(g: CharGrid)
    requires WellFormed(g) && Blank(g) && g.maxCols == 10 && g.maxLines == 2
    ensures var s: seq<bv8> := [0x48, 0x65, 0x6C, 0x6C, 0x6F];
      && Min(PrintableRun(s), 20) == 5
      && Cut(g, s).lines == [[0x48, 0x65, 0x6C, 0x6C, 0x6F, 0, 0, 0, 0, 0, 0], BLANK_LINE]
  {
    var s: seq<bv8> := [0x48, 0x65, 0x6C, 0x6C, 0x6F];
    assert PrintableRun(s[5..]) == 0;
    assert PrintableRun(s) == 5;
    CutShortText(g, s, [0x48, 0x65, 0x6C, 0x6C, 0x6F, 0, 0, 0, 0, 0, 0]);
  }

  /** "Hi\nBob" on the same grid: the line feed is not consumed, so it
      blanks the rest of line 0 and all of line 1; two characters copied. */
  lemma CutNewline(g: CharGrid)
    requires WellFormed(g) && Blank(g) && g.maxCols == 10 && g.maxLines == 2
    ensures var s: seq<bv8> := [0x48, 0x69, 0x0A, 0x42, 0x6F, 0x62];
      && Min(PrintableRun(s), 20) == 2
      && Cut(g, s).lines == [[0x48, 0x69, 0, 0, 0, 0, 0, 0, 0, 0, 0], BLANK_LINE]
  {
    var s: seq<bv8> := [0x48, 0x69, 0x0A, 0x42, 0x6F, 0x62];
    assert PrintableRun(s[2..]) == 0;
    assert PrintableRun(s) == 2;
    CutShortText(g, s, [0x48, 0x69, 0, 0, 0, 0, 0, 0, 0, 0, 0]);
  }

  /** The empty string blanks the grid and copies nothing. */
  lemma CutEmpty(g: CharGrid)
    requires WellFormed(g) && Blank(g) && g.maxCols == 10 && g.maxLines == 2
    ensures Min(PrintableRun([]), 20) == 0
    ensures Cut(g, []).lines == [BLANK_LINE, BLANK_LINE]
  {
    CutShortText(g, [], BLANK_LINE);
  }

  /** `n` NUL cells. */
  function Zeros(n: nat): (z: seq<bv8>)
    ensures |z| == n && forall i :: 0 <= i < n ==> z[i] == 0
  {
    seq(n, _ => 0)
  }

  /** One line of the cut that the comment in `ssd1306_cut_str` describes,
      where a special character is dropped and the text goes on at the
      next line: the printable run up to `cols` characters, then zeros,
      and what the next line starts from. A non-printable byte ends the
      line and is consumed; a NUL ends the text. */
  function SkipLine(s: seq<bv8>, cols: nat): (r: (seq<bv8>, seq<bv8>, nat))
    ensures |r.0| == cols && r.2 <= cols && r.2 + |r.1| <= |s|
    ensures r.0 == s[..r.2] + Zeros(cols - r.2)
  {
    var run := Min(PrintableRun(s), cols);
    var rest :=
      if run == cols then s[run..]
      else if run < |s| && s[run] != 0 then s[run + 1..]
      else [];
    (s[..run] + Zeros(cols - run), rest, run)
  }

  /** The whole skipping cut: `lines` lines of `cols` cells and the count
      of characters copied. */
  function CutSkipping(s: seq<bv8>, cols: nat, lines: nat): (r: (seq<seq<bv8>>, nat))
    ensures |r.0| == lines
    ensures forall l :: 0 <= l < lines ==> |r.0[l]| == cols
    ensures r.1 <= |s|
    decreases lines
  {
    if lines == 0 then ([], 0)
    else
      var first := SkipLine(s, cols);
      var next := CutSkipping(first.1, cols, lines - 1);
      ([first.0] + next.0, first.2 + next.1)
  }

  /** With the skip, a printable word followed by a line feed (or any other
      non-printable, non-NUL byte) fills the first line, and whatever
      follows the line feed starts the next one. */
  lemma NewlineStartsLine(a: seq<bv8>, b: bv8, t: seq<bv8>, cols: nat, lines: nat)
    requires |a| < cols && lines > 0
    requires forall i :: 0 <= i < |a| ==> Printable(a[i])
    requires !Printable(b) && b != 0
    ensures var r := CutSkipping(a + [b] + t, cols, lines);
      var next := CutSkipping(t, cols, lines - 1);
      && r.0 == [a + Zeros(cols - |a|)] + next.0
      && r.1 == |a| + next.1
  {
    var s := a + [b] + t;
    assert s[|a|] == b;
    assert PrintableRun(s) == |a|;
    assert s[..|a|] == a;
    assert s[|a| + 1..] == t;
    assert SkipLine(s, cols) == (a + Zeros(cols - |a|), t, |a|);
  }

  /** A string of printable characters only is its own printable run. */
  lemma PrintableWhole(s: seq<bv8>)
    requires forall i :: 0 <= i < |s| ==> Printable(s[i])
    ensures PrintableRun(s) == |s|
  {
  }

  /** One line of the skipping cut of a printable string: up to `cols`
      characters, then zeros; the rest goes to the next line. */
  lemma SkipLinePrintable(s: seq<bv8>, cols: nat)
    requires PrintableRun(s) == |s|
    ensures var run := Min(|s|, cols);
      && SkipLine(s, cols).0 == s[..run] + Zeros(cols - run)
      && SkipLine(s, cols).1 == s[run..]
      && SkipLine(s, cols).2 == run
  {
    var run := Min(|s|, cols);
    assert Min(PrintableRun(s), cols) == run;
    if run < cols {
      assert s[run..] == [];
    }
  }

  /** On printable text the first line holds the first `cols` characters,
      padded with zeros, and the rest is cut from there. */
  lemma PrintableFirstLine(s: seq<bv8>, cols: nat, lines: nat)
    requires PrintableRun(s) == |s| && lines > 0
    ensures var run := Min(|s|, cols);
      var next := CutSkipping(s[run..], cols, lines - 1);
      && CutSkipping(s, cols, lines).0 == [s[..run] + Zeros(cols - run)] + next.0
      && CutSkipping(s, cols, lines).1 == run + next.1
  {
    var run := Min(|s|, cols);
    SkipLinePrintable(s, cols);
    assert SkipLine(s, cols).1 == s[run..];
    assert SkipLine(s, cols).0 == s[..run] + Zeros(cols - run);
    assert SkipLine(s, cols).2 == run;
    CutSkippingCons(s, cols, lines);
  }

  /** The skipping cut is its first line followed by the cut of the rest. */
  lemma CutSkippingCons(s: seq<bv8>, cols: nat, lines: nat)
    requires lines > 0
    ensures var first := SkipLine(s, cols);
      var next := CutSkipping(first.1, cols, lines - 1);
      && CutSkipping(s, cols, lines).0 == [first.0] + next.0
      && CutSkipping(s, cols, lines).1 == first.2 + next.1
  {
  }

  /** Character i of `s`, or NUL past its end. */
  function At(s: seq<bv8>, i: nat): (b: bv8)
    ensures i < |s| ==> b == s[i]
    ensures i >= |s| ==> b == 0
  {
    if i < |s| then s[i] else 0
  }

  /** Cell c of row l is character `Cells(cols, l) + c` of `s`: the rows
      read `s` line after line, zeros past its end. */
  ghost predicate RowsRead(rows: seq<seq<bv8>>, s: seq<bv8>, cols: nat) {
    && (forall l :: 0 <= l < |rows| ==> |rows[l]| == cols)
    && forall l, c :: 0 <= l < |rows| && 0 <= c < cols ==> rows[l][c] == At(s, Cells(cols, l) + c)
  }

  /** A line holding the first `cols` characters of `s`, followed by lines
      that read the rest of `s`, reads `s`. */
  lemma LinesRead(s: seq<bv8>, cols: nat, rows: seq<seq<bv8>>, more: seq<seq<bv8>>)
    requires rows == [s[..Min(|s|, cols)] + Zeros(cols - Min(|s|, cols))] + more
    requires RowsRead(more, s[Min(|s|, cols)..], cols)
    ensures RowsRead(rows, s, cols)
  {
    forall l, c | 0 <= l < |rows| && 0 <= c < cols
      ensures rows[l][c] == At(s, Cells(cols, l) + c)
    {
      if l > 0 {
        assert rows[l] == more[l - 1];
        assert Cells(cols, l) == cols + Cells(cols, l - 1);
      }
    }
  }

  lemma {:induction false} SkippingCells(s: seq<bv8>, cols: nat, lines: nat)
    requires PrintableRun(s) == |s|
    ensures RowsRead(CutSkipping(s, cols, lines).0, s, cols)
    decreases lines
  {
    if lines > 0 {
      var rest := s[Min(|s|, cols)..];
      PrintableWhole(rest);
      SkippingCells(rest, cols, lines - 1);
      PrintableFirstLine(s, cols, lines);
      LinesRead(s, cols, CutSkipping(s, cols, lines).0, CutSkipping(rest, cols, lines - 1).0);
    }
  }

  lemma {:induction false} SkippingCount(s: seq<bv8>, cols: nat, lines: nat)
    requires PrintableRun(s) == |s|
    ensures CutSkipping(s, cols, lines).1 == Min(|s|, Cells(cols, lines))
    decreases lines
  {
    if lines > 0 {
      var rest := s[Min(|s|, cols)..];
      PrintableWhole(rest);
      SkippingCount(rest, cols, lines - 1);
      PrintableFirstLine(s, cols, lines);
    }
  }

  /** The cells of `lines` lines of `cols`, counted line by line. */
  function Cells(cols: nat, lines: nat): (n: nat)
    decreases lines
  {
    if lines == 0 then 0 else cols + Cells(cols, lines - 1)
  }

  lemma {:induction false} CellsProduct(cols: nat, lines: nat)
    ensures Cells(cols, lines) == lines * cols
    decreases lines
  {
    if lines > 0 {
      CellsProduct(cols, lines - 1);
      Unfold(cols, lines);
    }
  }

  lemma Unfold(cols: nat, lines: nat)
    requires lines > 0
    ensures lines * cols == cols + (lines - 1) * cols
  {
  }

  lemma ReadCell(rows: seq<seq<bv8>>, s: seq<bv8>, cols: nat, l: nat, c: nat)
    requires RowsRead(rows, s, cols) && l < |rows| && c < cols
    ensures rows[l][c] == At(s, Cells(cols, l) + c)
  {
  }

  /** Character cell c of line l after a cut as written. */
  lemma CutCell(g: CharGrid, s: seq<bv8>, l: nat, c: nat)
    requires WellFormed(g) && l < g.maxLines && c < g.maxCols
    ensures Cut(g, s).lines[l][c] == CellFor(s, l * g.maxCols + c)
  {
  }

  /** Without a line break, cell c of line l of the skipping cut is the
      cell the cut as written fills. */
  lemma SameCell(g: CharGrid, s: seq<bv8>, l: nat, c: nat)
    requires WellFormed(g) && PrintableRun(s) == |s| && l < g.maxLines && c < g.maxCols
    requires RowsRead(CutSkipping(s, g.maxCols, g.maxLines).0, s, g.maxCols)
    ensures CutSkipping(s, g.maxCols, g.maxLines).0[l][c] == Cut(g, s).lines[l][c]
  {
    var i := l * g.maxCols + c;
    ReadCell(CutSkipping(s, g.maxCols, g.maxLines).0, s, g.maxCols, l, c);
    CellsProduct(g.maxCols, l);
    assert Cells(g.maxCols, l) + c == i;
    CutCell(g, s, l, c);
    assert CellFor(s, i) == At(s, i);
  }

  /** Without a line break the skip changes nothing: on a string of
      printable characters the skipping cut fills every character cell as
      the cut as written does and copies as many characters. */
  lemma CutSkippingPrintable(g: CharGrid, s: seq<bv8>)
    requires WellFormed(g) && PrintableRun(s) == |s|
    ensures var r := CutSkipping(s, g.maxCols, g.maxLines);
      && (forall l, c :: 0 <= l < g.maxLines && 0 <= c < g.maxCols ==> r.0[l][c] == Cut(g, s).lines[l][c])
      && r.1 == Min(PrintableRun(s), g.maxCols * g.maxLines)
  {
    SkippingCells(s, g.maxCols, g.maxLines);
    forall l, c | 0 <= l < g.maxLines && 0 <= c < g.maxCols
      ensures CutSkipping(s, g.maxCols, g.maxLines).0[l][c] == Cut(g, s).lines[l][c]
    {
      SameCell(g, s, l, c);
    }
    SkippingCount(s, g.maxCols, g.maxLines);
    CellsProduct(g.maxCols, g.maxLines);
  }

  /** A printable string shorter than a line fills one line, padded with zero bytes. */
  lemma OneShortLine(t: seq<bv8>, cols: nat)
    requires |t| < cols && PrintableRun(t) == |t|
    ensures CutSkipping(t, cols, 1).0 == [t + Zeros(cols - |t|)]
    ensures CutSkipping(t, cols, 1).1 == |t|
  {
    SkipLinePrintable(t, cols);
    CutSkippingCons(t, cols, 1);
    assert t[..|t|] == t;
    assert SkipLine(t, cols).0 == t + Zeros(cols - |t|);
    assert SkipLine(t, cols).2 == |t|;
  }

  /** Two short printable strings joined by a non-printable byte fill two lines, one each. */
  lemma TwoShortLines(a: seq<bv8>, b: bv8, t: seq<bv8>, cols: nat)
    requires |a| < cols && |t| < cols
    requires forall i :: 0 <= i < |a| ==> Printable(a[i])
    requires forall i :: 0 <= i < |t| ==> Printable(t[i])
    requires !Printable(b) && b != 0
    ensures CutSkipping(a + [b] + t, cols, 2).0 == [a + Zeros(cols - |a|), t + Zeros(cols - |t|)]
    ensures CutSkipping(a + [b] + t, cols, 2).1 == |a| + |t|
  {
    NewlineStartsLine(a, b, t, cols, 2);
    PrintableWhole(t);
    OneShortLine(t, cols);
  }

  /** "Hi\nBob" on a 10x2 grid: the corrected cut puts "Bob" on the second line and consumes five characters. */
  lemma CutSkippingNewline(s: seq<bv8>)
    requires s == [0x48, 0x69, 0x0A, 0x42, 0x6F, 0x62]
    ensures CutSkipping(s, 10, 2).0 == [[0x48, 0x69] + Zeros(8), [0x42, 0x6F, 0x62] + Zeros(7)]
    ensures CutSkipping(s, 10, 2).1 == 5
  {
    var hi: seq<bv8>, bob: seq<bv8> := [0x48, 0x69], [0x42, 0x6F, 0x62];
    assert s == hi + [0x0A] + bob;
    TwoShortLines(hi, 0x0A, bob, 10);
  }
}
