/// The offline raster layout of the converter: a rendered grid is laid out on
/// a width x height image, one cell per glyph, and each glyph becomes drawing
/// commands. The block glyphs are filled rectangles; every other glyph is a
/// text stamp. The image itself is described by a painter: a pixel shows the
/// colour of the last filled rectangle that covers it.
module Raster {
  import opened GlyphMapper

  /** A colour in the image's channel order: blue, green, red. */
  datatype Bgr = Bgr(b: byte, g: byte, r: byte)

  const Black: Bgr := Bgr(0, 0, 0)

  function ToBgr(c: Rgb): Bgr { Bgr(c.b, c.g, c.r) }

  /**
   * A drawing command: a filled rectangle between two corners, both included,
   * or a glyph stamped as text with its baseline origin at (x, y).
   */
  datatype Command =
    | FillRect(x0: int, y0: int, x1: int, y1: int, color: Bgr)
    | PutText(glyph: char, x: int, y: int, color: Bgr)

  const FullBlock: char := '█'
  const DarkShade: char := '▓'
  const MediumShade: char := '▒'

  /** The glyphs drawn as rectangles rather than as text. */
  predicate IsBlock(ch: char) { ch == FullBlock || ch == DarkShade || ch == MediumShade }

  /**
   * The commands for one glyph in the cell whose top-left corner is (x, y) and
   * whose size is w by h. A full block fills the cell; a dark shade fills it
   * and blacks out the middle half in each direction; a medium shade fills it
   * and blacks out the top-left and bottom-right quarters; any other glyph is
   * stamped as text 5 pixels above the cell's bottom edge.
   */
  function DrawCharacter(ch: char, color: Rgb, x: int, y: int, w: int, h: int): (cmds: seq<Command>)
    ensures |cmds| >= 1
    ensures IsBlock(ch) <==> cmds[0].FillRect?
    ensures !IsBlock(ch) ==> |cmds| == 1
  {
    var fill := FillRect(x, y, x + w, y + h, ToBgr(color));
    if ch == FullBlock then [fill]
    else if ch == DarkShade then [fill, FillRect(x + w / 4, y + h / 4, x + w * 3 / 4, y + h * 3 / 4, Black)]
    else if ch == MediumShade then [fill] + ShadeQuarters(x, y, w, h, 0)
    else [PutText(ch, x, y + h - 5, ToBgr(color))]
  }

  /** Each block glyph starts by filling its whole cell in its colour; any other glyph is one text stamp. */
  lemma GlyphCommands(ch: char, color: Rgb, x: int, y: int, w: int, h: int)
    ensures IsBlock(ch) ==> DrawCharacter(ch, color, x, y, w, h)[0] == FillRect(x, y, x + w, y + h, ToBgr(color))
    ensures !IsBlock(ch) ==> DrawCharacter(ch, color, x, y, w, h) == [PutText(ch, x, y + h - 5, ToBgr(color))]
  {
  }

  /** The black quarters (i, j) with i + j even, for i then j from 0 to 1, starting at flat index k = 2i + j. */
  function ShadeQuarters(x: int, y: int, w: int, h: int, k: nat): seq<Command>
    requires k <= 4
    decreases 4 - k
  {
    if k == 4 then []
    else
      var i, j := k / 2, k % 2;
      (if (i + j) % 2 == 0 then [FillRect(x + i * w / 2, y + j * h / 2, x + (i + 1) * w / 2, y + (j + 1) * h / 2, Black)] else [])
        + ShadeQuarters(x, y, w, h, k + 1)
  }

  /** The commands for the first m cells of row `row`, drawn at row index y, left to right. */
  function DrawRow(row: seq<Cell>, y: nat, cw: int, ch: int, m: nat): (cmds: seq<Command>)
    requires m <= |row|
    ensures cmds == [] <==> m == 0
  {
    if m == 0 then []
    else DrawRow(row, y, cw, ch, m - 1) + DrawCharacter(row[m - 1].glyph, row[m - 1].color, (m - 1) * cw, y * ch, cw, ch)
  }

  /** The commands for the first n rows, top to bottom. */
  function DrawRows(data: seq<seq<Cell>>, cw: int, ch: int, n: nat): (cmds: seq<Command>)
    requires n <= |data|
    ensures cmds == [] <==> CellCount(data, n) == 0
  {
    if n == 0 then [] else DrawRows(data, cw, ch, n - 1) + DrawRow(data[n - 1], n - 1, cw, ch, |data[n - 1]|)
  }

  /** The number of cells in the first n rows. */
  function CellCount(data: seq<seq<Cell>>, n: nat): nat
    requires n <= |data|
  {
    if n == 0 then 0 else CellCount(data, n - 1) + |data[n - 1]|
  }

  /**
   * ascii_to_image: the commands that draw `data` on a blank width x height
   * image. The cell size is width // columns by height // rows, with the
   * column count taken from the first row. No data draws nothing; a first row
   * with no cells is a division by zero, modelled as None.
   */
  function AsciiToImage(data: seq<seq<Cell>>, width: int, height: int): (r: Option<seq<Command>>)
    ensures data == [] ==> r == Some([])
    ensures data != [] ==> (r == None <==> data[0] == [])
  {
    if data == [] then Some([])
    else if |data[0]| == 0 then None
    else Some(DrawRows(data, width / |data[0]|, height / |data|, |data|))
  }

  datatype Option<T> = None | Some(value: T)

  function Min(a: int, b: int): int { if a <= b then a else b }
  function Max(a: int, b: int): int { if a >= b then a else b }

  /** A filled rectangle covers every pixel between its corners, both edges included, whichever way round they are given. */
  predicate Covers(c: Command, px: int, py: int)
  {
    c.FillRect? && Min(c.x0, c.x1) <= px <= Max(c.x0, c.x1) && Min(c.y0, c.y1) <= py <= Max(c.y0, c.y1)
  }

  /** The colour of pixel (px, py) after the commands are drawn over a pixel of colour bg. */
  function PixelAt(cmds: seq<Command>, px: int, py: int, bg: Bgr): Bgr
  {
    if cmds == [] then bg
    else if Covers(cmds[|cmds| - 1], px, py) then cmds[|cmds| - 1].color
    else PixelAt(cmds[..|cmds| - 1], px, py, bg)
  }

  /** Drawing a + b is drawing b over what a left. */
  lemma {:induction false} PixelAtAppend(a: seq<Command>, b: seq<Command>, px: int, py: int, bg: Bgr)
    ensures PixelAt(a + b, px, py, bg) == PixelAt(b, px, py, PixelAt(a, px, py, bg))
  {
    if b == [] {
      assert a + b == a;
    } else {
      var ab := a + b;
      assert ab[|ab| - 1] == b[|b| - 1];
      assert ab[..|ab| - 1] == a + b[..|b| - 1];
      PixelAtAppend(a, b[..|b| - 1], px, py, bg);
    }
  }

  /** One command paints the pixels it covers and leaves the rest. */
  lemma PixelAtSingle(c: Command, px: int, py: int, bg: Bgr)
    ensures PixelAt([c], px, py, bg) == if Covers(c, px, py) then c.color else bg
  {
    assert [c][..0] == [];
  }

  /** (px, py) lies in the w by h cell at (x, y), edges included. */
  predicate InCell(px: int, py: int, x: int, y: int, w: nat, h: nat)
  {
    x <= px <= x + w && y <= py <= y + h
  }

  /** A full block paints its whole cell in the glyph's colour and nothing else. */
  lemma FullBlockFillsCell(color: Rgb, x: int, y: int, w: nat, h: nat, px: int, py: int, bg: Bgr)
    ensures PixelAt(DrawCharacter(FullBlock, color, x, y, w, h), px, py, bg) ==
      if InCell(px, py, x, y, w, h) then ToBgr(color) else bg
  {
    PixelAtSingle(FillRect(x, y, x + w, y + h, ToBgr(color)), px, py, bg);
  }

  /** A dark shade is the glyph's colour in its cell except for a black middle, from a quarter to three quarters each way. */
  lemma DarkShadeHasBlackMiddle(color: Rgb, x: int, y: int, w: nat, h: nat, px: int, py: int, bg: Bgr)
    ensures PixelAt(DrawCharacter(DarkShade, color, x, y, w, h), px, py, bg) ==
      if InCell(px, py, x + w / 4, y + h / 4, w * 3 / 4 - w / 4, h * 3 / 4 - h / 4) then Black
      else if InCell(px, py, x, y, w, h) then ToBgr(color)
      else bg
  {
    var fill := FillRect(x, y, x + w, y + h, ToBgr(color));
    var middle := FillRect(x + w / 4, y + h / 4, x + w * 3 / 4, y + h * 3 / 4, Black);
    assert w / 4 <= w * 3 / 4 && h / 4 <= h * 3 / 4;
    PixelAtAppend([fill], [middle], px, py, bg);
    PixelAtSingle(fill, px, py, bg);
    PixelAtSingle(middle, px, py, PixelAt([fill], px, py, bg));
  }

  /**
   * A medium shade is the glyph's colour in its cell except that the top-left
   * quarter (up to half the width and height) and the bottom-right quarter
   * (from half on) are black.
   */
  lemma MediumShadeChecksQuarters(color: Rgb, x: int, y: int, w: nat, h: nat, px: int, py: int, bg: Bgr)
    ensures PixelAt(DrawCharacter(MediumShade, color, x, y, w, h), px, py, bg) ==
      if InCell(px, py, x, y, w / 2, h / 2) then Black
      else if InCell(px, py, x + w / 2, y + h / 2, w - w / 2, h - h / 2) then Black
      else if InCell(px, py, x, y, w, h) then ToBgr(color)
      else bg
  {
    var fill := FillRect(x, y, x + w, y + h, ToBgr(color));
    var topLeft := FillRect(x, y, x + w / 2, y + h / 2, Black);
    var bottomRight := FillRect(x + w / 2, y + h / 2, x + w, y + h, Black);
    MediumShadeCommands(color, x, y, w, h);
    PixelAtAppend([fill] + [topLeft], [bottomRight], px, py, bg);
    PixelAtAppend([fill], [topLeft], px, py, bg);
    PixelAtSingle(fill, px, py, bg);
    PixelAtSingle(topLeft, px, py, PixelAt([fill], px, py, bg));
    PixelAtSingle(bottomRight, px, py, PixelAt([fill] + [topLeft], px, py, bg));
  }

  lemma MediumShadeCommands(color: Rgb, x: int, y: int, w: nat, h: nat)
    ensures DrawCharacter(MediumShade, color, x, y, w, h) ==
      [FillRect(x, y, x + w, y + h, ToBgr(color))] + [FillRect(x, y, x + w / 2, y + h / 2, Black)]
        + [FillRect(x + w / 2, y + h / 2, x + w, y + h, Black)]
  {
    assert ShadeQuarters(x, y, w, h, 3) == [FillRect(x + w / 2, y + h / 2, x + w, y + h, Black)] by {
      assert 2 * w / 2 == w && 2 * h / 2 == h;
    }
  }

  // ---------------------------------------------------------------------
  // The layout as a whole: where the cells go on the image.
  // ---------------------------------------------------------------------

  /**
   * The commands for cell (y, x) are those of its glyph at origin (x * cw, y * ch),
   * preceded by those of every earlier row and of the earlier cells of its row.
   */
  lemma CellOrigin(data: seq<seq<Cell>>, width: int, height: int, y: nat, x: nat) returns (rest: seq<Command>)
    requires y < |data| && x < |data[y]| && data[0] != []
    ensures var cw, ch := width / |data[0]|, height / |data|;
      AsciiToImage(data, width, height) == Some(DrawRows(data, cw, ch, y) + DrawRow(data[y], y, cw, ch, x)
        + DrawCharacter(data[y][x].glyph, data[y][x].color, x * cw, y * ch, cw, ch) + rest)
  {
    var cw, ch := width / |data[0]|, height / |data|;
    var rows := RowsPrefix(data, cw, ch, y + 1, |data|);
    var cells := RowPrefix(data[y], y, cw, ch, x + 1, |data[y]|);
    var a, b := DrawRows(data, cw, ch, y), DrawRow(data[y], y, cw, ch, x);
    var c := DrawCharacter(data[y][x].glyph, data[y][x].color, x * cw, y * ch, cw, ch);
    rest := cells + rows;
    Regroup(a, b, c, cells, rows);
  }

  lemma Regroup(a: seq<Command>, b: seq<Command>, c: seq<Command>, d: seq<Command>, e: seq<Command>)
    ensures a + (b + c + d) + e == a + b + c + (d + e)
  {
  }

  /** The commands for the first m cells of a row extend those for the first k. */
  lemma {:induction false} RowPrefix(row: seq<Cell>, y: nat, cw: int, ch: int, k: nat, m: nat) returns (rest: seq<Command>)
    requires k <= m <= |row|
    decreases m
    ensures DrawRow(row, y, cw, ch, m) == DrawRow(row, y, cw, ch, k) + rest
  {
    if m == k {
      rest := [];
      assert DrawRow(row, y, cw, ch, k) + rest == DrawRow(row, y, cw, ch, k);
    } else {
      var r := RowPrefix(row, y, cw, ch, k, m - 1);
      var d := DrawCharacter(row[m - 1].glyph, row[m - 1].color, (m - 1) * cw, y * ch, cw, ch);
      AppendAssoc(DrawRow(row, y, cw, ch, k), r, d);
      rest := r + d;
    }
  }

  /** The commands for the first n rows extend those for the first k. */
  lemma {:induction false} RowsPrefix(data: seq<seq<Cell>>, cw: int, ch: int, k: nat, n: nat) returns (rest: seq<Command>)
    requires k <= n <= |data|
    decreases n
    ensures DrawRows(data, cw, ch, n) == DrawRows(data, cw, ch, k) + rest
  {
    if n == k {
      rest := [];
      assert DrawRows(data, cw, ch, k) + rest == DrawRows(data, cw, ch, k);
    } else {
      var r := RowsPrefix(data, cw, ch, k, n - 1);
      RowsPrefixStep(data, cw, ch, k, n, r);
      rest := r + DrawRow(data[n - 1], n - 1, cw, ch, |data[n - 1]|);
    }
  }

  lemma RowsPrefixStep(data: seq<seq<Cell>>, cw: int, ch: int, k: nat, n: nat, r: seq<Command>)
    requires k < n <= |data|
    requires DrawRows(data, cw, ch, n - 1) == DrawRows(data, cw, ch, k) + r
    ensures DrawRows(data, cw, ch, n) == DrawRows(data, cw, ch, k) + (r + DrawRow(data[n - 1], n - 1, cw, ch, |data[n - 1]|))
  {
    AppendAssoc(DrawRows(data, cw, ch, k), r, DrawRow(data[n - 1], n - 1, cw, ch, |data[n - 1]|));
  }

  lemma AppendAssoc(a: seq<Command>, b: seq<Command>, c: seq<Command>)
    ensures (a + b) + c == a + (b + c)
  {
  }

  /** Every filled rectangle has both corners on the width x height image, edges included. */
  predicate Within(cmds: seq<Command>, width: int, height: int)
  {
    forall k :: 0 <= k < |cmds| && cmds[k].FillRect? ==>
      0 <= cmds[k].x0 <= width && 0 <= cmds[k].x1 <= width &&
      0 <= cmds[k].y0 <= height && 0 <= cmds[k].y1 <= height
  }

  lemma WithinAppend(a: seq<Command>, b: seq<Command>, width: int, height: int)
    requires Within(a, width, height) && Within(b, width, height)
    ensures Within(a + b, width, height)
  {
    forall k | 0 <= k < |a + b|
      ensures (a + b)[k] == if k < |a| then a[k] else b[k - |a|]
    {
    }
  }

  /** Every filled rectangle has both corners in the w x h cell whose corner is (x, y), edges included. */
  predicate InBox(cmds: seq<Command>, x: int, y: int, w: int, h: int)
  {
    forall k :: 0 <= k < |cmds| && cmds[k].FillRect? ==>
      x <= cmds[k].x0 <= x + w && x <= cmds[k].x1 <= x + w &&
      y <= cmds[k].y0 <= y + h && y <= cmds[k].y1 <= y + h
  }

  /** Every rectangle of a glyph lies in its cell. */
  lemma {:induction false} CharacterInBox(ch: char, color: Rgb, x: nat, y: nat, w: nat, h: nat)
    ensures InBox(DrawCharacter(ch, color, x, y, w, h), x, y, w, h)
  {
    if ch == DarkShade {
      assert w / 4 <= w * 3 / 4 <= w && h / 4 <= h * 3 / 4 <= h;
    } else if ch == MediumShade {
      assert w / 2 <= w && h / 2 <= h;
      MediumShadeCommands(color, x, y, w, h);
    }
  }

  /** A glyph's rectangles are on the image whenever its cell is. */
  lemma CharacterWithin(ch: char, color: Rgb, x: nat, y: nat, w: nat, h: nat, width: int, height: int)
    requires x + w <= width && y + h <= height
    ensures Within(DrawCharacter(ch, color, x, y, w, h), width, height)
  {
    CharacterInBox(ch, color, x, y, w, h);
  }

  /** The first m cells of row y lie in the first m columns of that row's band. */
  lemma {:induction false} RowWithin(row: seq<Cell>, y: nat, cw: nat, ch: nat, m: nat, width: int, height: int)
    requires m <= |row| && m * cw <= width && y * ch + ch <= height
    ensures Within(DrawRow(row, y, cw, ch, m), width, height)
  {
    if m > 0 {
      var x := (m - 1) * cw;
      NextCellOrigin(m - 1, cw);
      var a := DrawRow(row, y, cw, ch, m - 1);
      var b := DrawCharacter(row[m - 1].glyph, row[m - 1].color, x, y * ch, cw, ch);
      assert DrawRow(row, y, cw, ch, m) == a + b;
      RowWithin(row, y, cw, ch, m - 1, width, height);
      CharacterWithin(row[m - 1].glyph, row[m - 1].color, x, y * ch, cw, ch, width, height);
      WithinAppend(a, b, width, height);
    }
  }

  lemma {:induction false} RowsWithin(data: seq<seq<Cell>>, cols: nat, cw: nat, ch: nat, n: nat, width: int, height: int)
    requires n <= |data| && IsGrid(data, |data|, cols)
    requires cols * cw <= width && n * ch <= height
    ensures Within(DrawRows(data, cw, ch, n), width, height)
  {
    if n > 0 {
      NextCellOrigin(n - 1, ch);
      RowsWithin(data, cols, cw, ch, n - 1, width, height);
      RowWithin(data[n - 1], n - 1, cw, ch, cols, width, height);
      WithinAppend(DrawRows(data, cw, ch, n - 1), DrawRow(data[n - 1], n - 1, cw, ch, cols), width, height);
    }
  }

  /** Rectangular data with at least one column is drawn, and entirely on the image. */
  lemma LayoutWithinImage(data: seq<seq<Cell>>, cols: nat, width: nat, height: nat)
    requires data != [] && cols > 0 && IsGrid(data, |data|, cols)
    ensures AsciiToImage(data, width, height).Some?
    ensures Within(AsciiToImage(data, width, height).value, width, height)
  {
    var cw, ch := width / cols, height / |data|;
    DivBounds(width, cols);
    DivBounds(height, |data|);
    assert cols * cw <= width && |data| * ch <= height;
    RowsWithin(data, cols, cw, ch, |data|, width, height);
  }

  predicate AllFullBlocks(data: seq<seq<Cell>>)
  {
    forall y, x :: 0 <= y < |data| && 0 <= x < |data[y]| ==> data[y][x].glyph == FullBlock
  }

  /** Cell k + 1 starts where cell k ends. */
  lemma NextCellOrigin(k: nat, c: int)
    ensures k * c + c == (k + 1) * c
  {
  }

  /** k whole cells of size c fit below p exactly when p's cell index is at least k. */
  lemma CellIndexBounds(p: int, c: int, k: int)
    requires c > 0 && p >= 0
    ensures k * c <= p ==> k <= p / c
    ensures p < k * c ==> p / c < k
  {
    DivBounds(p, c);
    var q := p / c;
    if k * c <= p {
      assert k * c < (q + 1) * c;
      MulCancelStrict(k, q + 1, c);
    }
    if p < k * c {
      MulCancelStrict(q, k, c);
    }
  }

  /**
   * The colour the first m full blocks of row y give pixel (px, py) over bg:
   * they cover the band from y * ch to y * ch + ch and columns 0 to m * cw,
   * and a pixel on a shared edge shows the later cell.
   */
  function RowAt(row: seq<Cell>, y: nat, cw: nat, ch: nat, m: nat, px: int, py: int, bg: Bgr): Bgr
    requires m <= |row| && cw > 0
  {
    if m > 0 && 0 <= px <= m * cw && y * ch <= py <= y * ch + ch then ToBgr(row[Min(px / cw, m - 1)].color) else bg
  }

  /** The colour the first n rows of full blocks give pixel (px, py) over bg. */
  function MosaicAt(data: seq<seq<Cell>>, cols: nat, cw: nat, ch: nat, n: nat, px: int, py: int, bg: Bgr): Bgr
    requires n <= |data| && IsGrid(data, |data|, cols) && cols > 0 && cw > 0 && ch > 0
  {
    if n > 0 && 0 <= px <= cols * cw && 0 <= py <= n * ch
    then ToBgr(data[Min(py / ch, n - 1)][Min(px / cw, cols - 1)].color) else bg
  }

  /** Adding cell m - 1 to a row: it shows in its own cell and the shorter row shows elsewhere. */
  lemma RowAtStep(row: seq<Cell>, y: nat, cw: nat, ch: nat, m: nat, px: int, py: int, bg: Bgr)
    requires 0 < m <= |row| && cw > 0
    ensures RowAt(row, y, cw, ch, m, px, py, bg) ==
      if InCell(px, py, (m - 1) * cw, y * ch, cw, ch) then ToBgr(row[m - 1].color) else RowAt(row, y, cw, ch, m - 1, px, py, bg)
  {
    var x := (m - 1) * cw;
    NextCellOrigin(m - 1, cw);
    if 0 <= px {
      CellIndexBounds(px, cw, m - 1);
    }
  }

  /** Adding row n - 1 to the mosaic: it shows in its band and the shorter mosaic shows elsewhere. */
  lemma MosaicAtStep(data: seq<seq<Cell>>, cols: nat, cw: nat, ch: nat, n: nat, px: int, py: int, bg: Bgr)
    requires 0 < n <= |data| && IsGrid(data, |data|, cols) && cols > 0 && cw > 0 && ch > 0
    ensures MosaicAt(data, cols, cw, ch, n, px, py, bg) ==
      RowAt(data[n - 1], n - 1, cw, ch, cols, px, py, MosaicAt(data, cols, cw, ch, n - 1, px, py, bg))
  {
    var top, bottom := (n - 1) * ch, n * ch;
    NextCellOrigin(n - 1, ch);
    if 0 <= py {
      CellIndexBounds(py, ch, n - 1);
    }
  }

  lemma {:induction false} RowMosaic(row: seq<Cell>, y: nat, cw: nat, ch: nat, m: nat, px: int, py: int, bg: Bgr)
    requires m <= |row| && cw > 0
    requires forall x :: 0 <= x < |row| ==> row[x].glyph == FullBlock
    ensures PixelAt(DrawRow(row, y, cw, ch, m), px, py, bg) == RowAt(row, y, cw, ch, m, px, py, bg)
  {
    if m > 0 {
      var init := DrawRow(row, y, cw, ch, m - 1);
      RowMosaic(row, y, cw, ch, m - 1, px, py, bg);
      PixelAtAppend(init, DrawCharacter(FullBlock, row[m - 1].color, (m - 1) * cw, y * ch, cw, ch), px, py, bg);
      FullBlockFillsCell(row[m - 1].color, (m - 1) * cw, y * ch, cw, ch, px, py, PixelAt(init, px, py, bg));
      RowAtStep(row, y, cw, ch, m, px, py, bg);
    }
  }

  lemma {:induction false} RowsMosaic(data: seq<seq<Cell>>, cols: nat, cw: nat, ch: nat, n: nat, px: int, py: int, bg: Bgr)
    requires n <= |data| && IsGrid(data, |data|, cols) && AllFullBlocks(data)
    requires cols > 0 && cw > 0 && ch > 0
    ensures PixelAt(DrawRows(data, cw, ch, n), px, py, bg) == MosaicAt(data, cols, cw, ch, n, px, py, bg)
  {
    if n > 0 {
      var init := DrawRows(data, cw, ch, n - 1);
      var row := DrawRow(data[n - 1], n - 1, cw, ch, cols);
      assert |data[n - 1]| == cols;
      assert DrawRows(data, cw, ch, n) == init + row;
      RowsMosaic(data, cols, cw, ch, n - 1, px, py, bg);
      PixelAtAppend(init, row, px, py, bg);
      RowMosaic(data[n - 1], n - 1, cw, ch, cols, px, py, PixelAt(init, px, py, bg));
      MosaicAtStep(data, cols, cw, ch, n, px, py, bg);
    }
  }

  /**
   * Art made only of full blocks comes out as a mosaic: with the cell size
   * width // columns by height // rows, pixel (px, py) inside the drawn area
   * shows the colour of cell (py // ch, px // cw) (the last row or column for
   * the closing edge), and every other pixel stays black.
   */
  lemma FullBlockMosaic(data: seq<seq<Cell>>, cols: nat, width: nat, height: nat, px: int, py: int)
    requires data != [] && cols > 0 && IsGrid(data, |data|, cols) && AllFullBlocks(data)
    requires width / cols >= 1 && height / |data| >= 1
    ensures AsciiToImage(data, width, height).Some?
    ensures var cw, ch := width / cols, height / |data|;
      PixelAt(AsciiToImage(data, width, height).value, px, py, Black) ==
        if 0 <= px <= cols * cw && 0 <= py <= |data| * ch
        then ToBgr(data[Min(py / ch, |data| - 1)][Min(px / cw, cols - 1)].color) else Black
  {
    var cw, ch := width / cols, height / |data|;
    CellIndexBounds(width, cols, 1);
    CellIndexBounds(height, |data|, 1);
    RowsMosaic(data, cols, cw, ch, |data|, px, py, Black);
  }
}
