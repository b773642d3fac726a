/// The differential terminal compositor of the playback loop: it compares the
/// new grid with the glyphs already on screen and, for each cell whose glyph
/// differs, in row-major order, emits a cursor move and a coloured glyph, then
/// records the glyph as displayed. Only the glyph is compared: a cell whose
/// colour alone changes is not redrawn.
module Compositor {
  import opened GlyphMapper
  import opened Numerals

  const Escape: char := '\U{1B}'

  /** The glyphs currently on screen, row-major. */
  type Screen = seq<seq<char>>

  /** Moves the cursor to 0-based cell (y, x): ESC [ y+1 ; x+1 H. */
  function CursorTo(y: nat, x: nat): (s: string)
    ensures |s| >= 6 && s[..2] == [Escape, '['] && s[|s| - 1] == 'H'
  {
    var a, c := Decimal(y + 1), Decimal(x + 1);
    var s := [Escape, '['] + a + [';'] + c + ['H'];
    CursorFields(s, a, c);
    s
  }

  /** The two fields of a cursor move read back as the 1-based row and column. */
  lemma CursorToReadsBack(y: nat, x: nat)
    ensures var s, i := CursorTo(y, x), 2 + |Decimal(y + 1)|;
      i < |s| - 1 && s[i] == ';' && AllDigits(s[2..i]) && AllDigits(s[i + 1..|s| - 1]) &&
      ParseDecimal(s[2..i]) == y + 1 && ParseDecimal(s[i + 1..|s| - 1]) == x + 1
  {
    CursorFields(CursorTo(y, x), Decimal(y + 1), Decimal(x + 1));
    ParseDecimalRoundTrip(y + 1);
    ParseDecimalRoundTrip(x + 1);
  }

  /** The fields of a cursor move built from decimal texts a and c sit between "ESC [", ';' and 'H'. */
  lemma CursorFields(s: string, a: string, c: string)
    requires |a| >= 1 && AllDigits(a) && AllDigits(c)
    requires s == [Escape, '['] + a + [';'] + c + ['H']
    ensures |s| == |a| + |c| + 4 && s[..2] == [Escape, '['] && s[|s| - 1] == 'H' && s[2 + |a|] == ';'
    ensures s[2..2 + |a|] == a && s[3 + |a|..|s| - 1] == c
  {
    SeparatorPosition(s, a, c);
  }

  /** Sets the 24-bit foreground colour and writes the glyph: ESC [ 38;2;r;g;b m glyph. */
  function PaintCell(c: Cell): (s: string)
    ensures |s| >= 13 && s[..7] == [Escape] + "[38;2;" && s[|s| - 2..] == ['m', c.glyph]
  {
    [Escape] + "[38;2;" + Decimal(c.color.r as nat) + [';'] + Decimal(c.color.g as nat) + [';']
      + Decimal(c.color.b as nat) + ['m', c.glyph]
  }

  /**
   * The three fields of a paint directive, between "ESC [38;2;", the two ';'
   * and the final 'm', read back as the cell's red, green and blue.
   */
  lemma PaintCellReadsBack(c: Cell)
    ensures var s, i, j := PaintCell(c), RedEnd(c), GreenEnd(c);
      j + 3 <= |s| && s[i] == ';' && s[j] == ';' && s[|s| - 2] == 'm' && s[|s| - 1] == c.glyph
    ensures var s, i := PaintCell(c), RedEnd(c);
      AllDigits(s[7..i]) && ParseDecimal(s[7..i]) == c.color.r as nat
    ensures var s, i, j := PaintCell(c), RedEnd(c), GreenEnd(c);
      AllDigits(s[i + 1..j]) && ParseDecimal(s[i + 1..j]) == c.color.g as nat
    ensures var s, j := PaintCell(c), GreenEnd(c);
      AllDigits(s[j + 1..|s| - 2]) && ParseDecimal(s[j + 1..|s| - 2]) == c.color.b as nat
  {
    var r, g, b := Decimal(c.color.r as nat), Decimal(c.color.g as nat), Decimal(c.color.b as nat);
    var s, i, j := PaintCell(c), RedEnd(c), GreenEnd(c);
    PaintFields(s, r, g, b, c.glyph);
    FieldReadsBack(s, 7, i, c.color.r as nat);
    FieldReadsBack(s, i + 1, j, c.color.g as nat);
    FieldReadsBack(s, j + 1, |s| - 2, c.color.b as nat);
  }

  /** A stretch of text that is the decimal text of n is all digits and reads back as n. */
  lemma FieldReadsBack(s: string, lo: nat, hi: nat, n: nat)
    requires lo <= hi <= |s| && s[lo..hi] == Decimal(n)
    ensures AllDigits(s[lo..hi]) && ParseDecimal(s[lo..hi]) == n
  {
    ParseDecimalRoundTrip(n);
  }

  /** The position of the ';' after the red field of a paint directive. */
  function RedEnd(c: Cell): nat { 7 + |Decimal(c.color.r as nat)| }

  /** The position of the ';' after the green field of a paint directive. */
  function GreenEnd(c: Cell): nat { RedEnd(c) + 1 + |Decimal(c.color.g as nat)| }

  /** Where the fields a, b and c of a paint directive sit. */
  lemma PaintFields(s: string, a: string, b: string, c: string, glyph: char)
    requires s == [Escape] + "[38;2;" + a + [';'] + b + [';'] + c + ['m', glyph]
    ensures var i, j := 7 + |a|, 8 + |a| + |b|;
      |s| == j + |c| + 3 && s[i] == ';' && s[j] == ';' && s[|s| - 2] == 'm' && s[|s| - 1] == glyph &&
      s[7..i] == a && s[i + 1..j] == b && s[j + 1..|s| - 2] == c
  {
    var i, j := 7 + |a|, 8 + |a| + |b|;
    assert s[7..i] == a by {
      forall k | 0 <= k < |a| ensures s[7 + k] == a[k] { }
    }
    assert s[i + 1..j] == b by {
      forall k | 0 <= k < |b| ensures s[i + 1 + k] == b[k] { }
    }
    assert s[j + 1..|s| - 2] == c by {
      forall k | 0 <= k < |c| ensures s[j + 1 + k] == c[k] { }
    }
  }

  /**
   * Every row of the frame that has cells lies within the screen. A row with
   * no cells never indexes the screen, so it may lie below it.
   */
  predicate Fits(frame: Grid, prev: Screen)
  {
    forall y :: 0 <= y < |frame| && frame[y] != [] ==> y < |prev| && |frame[y]| <= |prev[y]|
  }

  /** Fits, for a screen of the given height and width. */
  predicate FitsIn(frame: Grid, height: int, width: int)
  {
    forall y :: 0 <= y < |frame| && frame[y] != [] ==> y < height && |frame[y]| <= width
  }

  /** Rows with no cells below a frame never make it too large for the screen. */
  lemma EmptyRowsFit(frame: Grid, height: int, width: int, k: nat)
    requires FitsIn(frame, height, width)
    ensures FitsIn(frame + seq(k, _ => []), height, width)
  {
    var longer := frame + seq(k, _ => []);
    forall y | 0 <= y < |longer| && longer[y] != []
      ensures y < height && |longer[y]| <= width
    {
      assert longer[y] == frame[y];
    }
  }

  predicate InFrame(frame: Grid, p: (nat, nat))
  {
    p.0 < |frame| && p.1 < |frame[p.0]|
  }

  predicate AllInFrame(frame: Grid, cells: seq<(nat, nat)>)
  {
    forall k :: 0 <= k < |cells| ==> InFrame(frame, cells[k])
  }

  /** Cell p of the frame shows a different glyph from the screen. */
  predicate Changed(frame: Grid, prev: Screen, p: (nat, nat))
    requires Fits(frame, prev)
  {
    InFrame(frame, p) && frame[p.0][p.1].glyph != prev[p.0][p.1]
  }

  /** p comes strictly before q in row-major order. */
  predicate Before(p: (nat, nat), q: (nat, nat))
  {
    p.0 < q.0 || (p.0 == q.0 && p.1 < q.1)
  }

  /** Strictly increasing in row-major order. */
  predicate Ordered(cells: seq<(nat, nat)>)
  {
    forall i, j :: 0 <= i < j < |cells| ==> Before(cells[i], cells[j])
  }

  /** (y, x) is a position of the row-major scan; (|frame|, 0) is its end. */
  predicate Position(frame: Grid, y: nat, x: nat)
  {
    y <= |frame| && if y < |frame| then x <= |frame[y]| else x == 0
  }

  /** The changed cells before position (y, x), in row-major order. */
  function Scan(frame: Grid, prev: Screen, y: nat, x: nat): (cells: seq<(nat, nat)>)
    requires Fits(frame, prev) && Position(frame, y, x)
    ensures AllInFrame(frame, cells)
    decreases y, x
  {
    if x > 0 then
      Scan(frame, prev, y, x - 1) + if frame[y][x - 1].glyph != prev[y][x - 1] then [(y, x - 1)] else []
    else if y == 0 then []
    else Scan(frame, prev, y - 1, |frame[y - 1]|)
  }

  /** Every cell of the frame whose glyph differs from the screen, in row-major order. */
  function ChangedCells(frame: Grid, prev: Screen): (cells: seq<(nat, nat)>)
    requires Fits(frame, prev)
    ensures forall p :: p in cells <==> Changed(frame, prev, p)
    ensures Ordered(cells)
  {
    ScanExact(frame, prev);
    ScanOrdered(frame, prev, |frame|, 0);
    Scan(frame, prev, |frame|, 0)
  }

  /** The output for a list of cells: a cursor move and then a coloured glyph for each, in order. */
  function Directives(frame: Grid, cells: seq<(nat, nat)>): (out: seq<string>)
    requires AllInFrame(frame, cells)
    ensures |out| == 2 * |cells|
  {
    if cells == [] then []
    else
      var p := cells[|cells| - 1];
      Directives(frame, cells[..|cells| - 1]) + [CursorTo(p.0, p.1), PaintCell(frame[p.0][p.1])]
  }

  /** The screen after the frame is drawn over it: the frame's glyphs where it has cells, the old ones elsewhere. */
  function Overlay(frame: Grid, prev: Screen): (next: Screen)
    requires Fits(frame, prev)
    ensures |next| == |prev| && forall y :: 0 <= y < |prev| ==> |next[y]| == |prev[y]|
  {
    seq(|prev|, y requires 0 <= y < |prev| =>
      seq(|prev[y]|, x requires 0 <= x < |prev[y]| =>
        if y < |frame| && x < |frame[y]| then frame[y][x].glyph else prev[y][x]))
  }

  /** The glyphs held by the compositor's scratch array. */
  ghost function ScreenOf(a: array2<char>): (s: Screen)
    reads a
    ensures IsGrid(s, a.Length0, a.Length1)
    ensures forall y, x :: 0 <= y < a.Length0 && 0 <= x < a.Length1 ==> s[y][x] == a[y, x]
  {
    seq(a.Length0, y requires 0 <= y < a.Length0 reads a =>
      seq(a.Length1, x requires 0 <= x < a.Length1 reads a => a[y, x]))
  }

  /** The blank screen prev_frame starts as: all spaces. */
  method NewScreen(height: nat, width: nat) returns (a: array2<char>)
    ensures fresh(a) && a.Length0 == height && a.Length1 == width
    ensures forall y, x :: 0 <= y < height && 0 <= x < width ==> a[y, x] == ' '
  {
    a := new char[height, width]((y, x) => ' ');
  }

  /** Entry 2k of the output moves the cursor to the k-th cell and entry 2k + 1 paints it. */
  lemma {:induction false} DirectivesAt(frame: Grid, cells: seq<(nat, nat)>)
    requires AllInFrame(frame, cells)
    ensures forall k :: 0 <= k < |cells| ==>
      Directives(frame, cells)[2 * k] == CursorTo(cells[k].0, cells[k].1) &&
      Directives(frame, cells)[2 * k + 1] == PaintCell(frame[cells[k].0][cells[k].1])
  {
    if cells != [] {
      DirectivesAt(frame, cells[..|cells| - 1]);
    }
  }

  lemma DirectivesSnoc(frame: Grid, cells: seq<(nat, nat)>, p: (nat, nat))
    requires AllInFrame(frame, cells)
    requires InFrame(frame, p)
    ensures Directives(frame, cells + [p]) == Directives(frame, cells) + [CursorTo(p.0, p.1), PaintCell(frame[p.0][p.1])]
  {
    assert (cells + [p])[..|cells|] == cells;
  }

  /** What scanning cell (y, x) emits: a cursor move and the cell, if its glyph differs from the screen. */
  function CellOutput(frame: Grid, prev: Screen, y: nat, x: nat): seq<string>
    requires Fits(frame, prev) && y < |frame| && x < |frame[y]|
  {
    if frame[y][x].glyph != prev[y][x] then [CursorTo(y, x), PaintCell(frame[y][x])] else []
  }

  /** The output of the scan once it has reached position (y, x). */
  function Emitted(frame: Grid, prev: Screen, y: nat, x: nat): seq<string>
    requires Fits(frame, prev) && Position(frame, y, x)
    decreases y, x
  {
    if x > 0 then Emitted(frame, prev, y, x - 1) + CellOutput(frame, prev, y, x - 1)
    else if y == 0 then []
    else Emitted(frame, prev, y - 1, |frame[y - 1]|)
  }

  /**
   * The differential update for one frame. `prev` is the screen; every row
   * of the frame with cells must lie within it (a cell outside it makes the
   * source raise IndexError).
   * Returns the output buffer and leaves the frame's glyphs on the screen.
   */
  method Composite(frame: Grid, prev: array2<char>) returns (out: seq<string>)
    requires FitsIn(frame, prev.Length0, prev.Length1)
    modifies prev
    ensures Fits(frame, old(ScreenOf(prev)))
    ensures out == Directives(frame, ChangedCells(frame, old(ScreenOf(prev))))
    ensures ScreenOf(prev) == Overlay(frame, old(ScreenOf(prev)))
  {
    ghost var before := ScreenOf(prev);
    assert Fits(frame, before);
    out := Scanned(frame, prev, before);
    EmittedAll(frame, before);
    OverlayOfScreen(frame, before, prev);
  }

  /** The nested loops of the update: every cell of the frame in row-major order, from the screen `before`. */
  method Scanned(frame: Grid, prev: array2<char>, ghost before: Screen) returns (out: seq<string>)
    requires IsGrid(before, prev.Length0, prev.Length1) && Fits(frame, before)
    requires Painted(frame, before, prev, 0, 0)
    modifies prev
    ensures out == Emitted(frame, before, |frame|, 0)
    ensures Painted(frame, before, prev, |frame|, 0)
  {
    out := [];
    var y := 0;
    while y < |frame|
      invariant 0 <= y <= |frame|
      invariant out == Emitted(frame, before, y, 0)
      invariant Painted(frame, before, prev, y, 0)
    {
      var row := frame[y];
      var x := 0;
      while x < |row|
        invariant 0 <= x <= |row|
        invariant out == Emitted(frame, before, y, x)
        invariant Painted(frame, before, prev, y, x)
      {
        out := CompositeCell(frame, prev, y, x, out, before);
        x := x + 1;
      }
      y := y + 1;
    }
  }

  /** At the end of the scan, the output is the directives for every changed cell. */
  lemma EmittedAll(frame: Grid, prev: Screen)
    requires Fits(frame, prev)
    ensures Emitted(frame, prev, |frame|, 0) == Directives(frame, ChangedCells(frame, prev))
  {
    EmittedIsDirectives(frame, prev, |frame|, 0);
  }

  /**
   * One pass of the playback loop's update block. A frame with a cell below
   * or to the right of the screen makes the source's indexing of prev_frame
   * raise IndexError, which ends playback before anything of that frame is
   * written: that is `ok` false with no output. Rows with no cells index
   * nothing, wherever they lie. Otherwise the output and the
   * new screen are Composite's.
   */
  method DrawFrame(frame: Grid, prev: array2<char>) returns (ok: bool, out: seq<string>)
    modifies prev
    ensures ok <==> FitsIn(frame, prev.Length0, prev.Length1)
    ensures !ok ==> out == []
    ensures ok ==> out == Directives(frame, ChangedCells(frame, old(ScreenOf(prev))))
    ensures ok ==> ScreenOf(prev) == Overlay(frame, old(ScreenOf(prev)))
  {
    if FitsIn(frame, prev.Length0, prev.Length1) {
      ok := true;
      out := Composite(frame, prev);
    } else {
      ok, out := false, [];
    }
  }

  /** One step of the scan: cell (y, x) is drawn, and recorded on the screen, only if its glyph changed. */
  method CompositeCell(frame: Grid, prev: array2<char>, y: nat, x: nat, out: seq<string>, ghost before: Screen)
    returns (out': seq<string>)
    requires IsGrid(before, prev.Length0, prev.Length1) && Fits(frame, before)
    requires y < |frame| && x < |frame[y]|
    requires Painted(frame, before, prev, y, x)
    modifies prev
    ensures out' == out + CellOutput(frame, before, y, x)
    ensures Painted(frame, before, prev, y, x + 1)
  {
    out' := out;
    var cell := frame[y][x];
    if cell.glyph != prev[y, x] {
      out' := out + [CursorTo(y, x), PaintCell(cell)];
      prev[y, x] := cell.glyph;
      forall j, i | 0 <= j < prev.Length0 && 0 <= i < prev.Length1
        ensures prev[j, i] == if Done(frame, j, i, y, x + 1) then frame[j][i].glyph else before[j][i]
      {
        if j != y || i != x {
          assert prev[j, i] == old(prev[j, i]);
        }
      }
    }
  }

  /** What the scan has emitted is the directives for the changed cells it has passed. */
  lemma {:induction false} EmittedIsDirectives(frame: Grid, prev: Screen, y: nat, x: nat)
    requires Fits(frame, prev) && Position(frame, y, x)
    ensures Emitted(frame, prev, y, x) == Directives(frame, Scan(frame, prev, y, x))
    decreases y, x
  {
    if x > 0 {
      EmittedIsDirectives(frame, prev, y, x - 1);
      EmittedStep(frame, prev, y, x);
    } else if y > 0 {
      EmittedIsDirectives(frame, prev, y - 1, |frame[y - 1]|);
    }
  }

  lemma EmittedStep(frame: Grid, prev: Screen, y: nat, x: nat)
    requires Fits(frame, prev) && Position(frame, y, x) && x > 0
    requires Emitted(frame, prev, y, x - 1) == Directives(frame, Scan(frame, prev, y, x - 1))
    ensures Emitted(frame, prev, y, x) == Directives(frame, Scan(frame, prev, y, x))
  {
    if frame[y][x - 1].glyph != prev[y][x - 1] {
      DirectivesSnoc(frame, Scan(frame, prev, y, x - 1), (y, x - 1));
    } else {
      assert Scan(frame, prev, y, x) == Scan(frame, prev, y, x - 1);
    }
  }

  /**
   * The array holds the frame's glyph in every cell the scan has passed
   * (row y, column x) and the old screen's glyph everywhere else.
   */
  ghost predicate Painted(frame: Grid, before: Screen, a: array2<char>, y: int, x: int)
    requires IsGrid(before, a.Length0, a.Length1)
    reads a
  {
    forall j, i :: 0 <= j < a.Length0 && 0 <= i < a.Length1 ==>
      a[j, i] == if Done(frame, j, i, y, x) then frame[j][i].glyph else before[j][i]
  }

  /** Cell (j, i) of the frame has been drawn once the scan has reached row y, column x. */
  predicate Done(frame: Grid, j: int, i: int, y: int, x: int)
  {
    0 <= j < |frame| && 0 <= i < |frame[j]| && (j < y || (j == y && i < x))
  }

  lemma OverlayOfScreen(frame: Grid, before: Screen, a: array2<char>)
    requires Fits(frame, before) && IsGrid(before, a.Length0, a.Length1)
    requires Painted(frame, before, a, |frame|, 0)
    ensures ScreenOf(a) == Overlay(frame, before)
  {
    var now, next := ScreenOf(a), Overlay(frame, before);
    forall j | 0 <= j < |now|
      ensures now[j] == next[j]
    {
    }
  }

  /** Every cell the scan lists before (y, x) changed and lies before (y, x). */
  lemma {:induction false} ScanSound(frame: Grid, prev: Screen, y: nat, x: nat)
    requires Fits(frame, prev) && Position(frame, y, x)
    ensures forall k :: 0 <= k < |Scan(frame, prev, y, x)| ==>
      Changed(frame, prev, Scan(frame, prev, y, x)[k]) && Before(Scan(frame, prev, y, x)[k], (y, x))
    decreases y, x
  {
    var cells := Scan(frame, prev, y, x);
    if x > 0 {
      ScanSound(frame, prev, y, x - 1);
      var a := Scan(frame, prev, y, x - 1);
      forall k | 0 <= k < |cells|
        ensures Changed(frame, prev, cells[k]) && Before(cells[k], (y, x))
      {
        if k < |a| {
          assert cells[k] == a[k];
        }
      }
    } else if y > 0 {
      ScanSound(frame, prev, y - 1, |frame[y - 1]|);
    }
  }

  /** Every changed cell before (y, x) is listed by the scan. */
  lemma {:induction false} ScanComplete(frame: Grid, prev: Screen, y: nat, x: nat, p: (nat, nat))
    requires Fits(frame, prev) && Position(frame, y, x)
    requires Changed(frame, prev, p) && Before(p, (y, x))
    ensures p in Scan(frame, prev, y, x)
    decreases y, x
  {
    if x > 0 {
      if p == (y, x - 1) {
        ScanKeeps(frame, prev, y, x, p);
      } else {
        ScanComplete(frame, prev, y, x - 1, p);
        ScanKeeps(frame, prev, y, x, p);
      }
    } else if y > 0 {
      ScanComplete(frame, prev, y - 1, |frame[y - 1]|, p);
    }
  }

  /** One more column keeps what the scan had listed, and adds that column's cell if it changed. */
  lemma ScanKeeps(frame: Grid, prev: Screen, y: nat, x: nat, p: (nat, nat))
    requires Fits(frame, prev) && Position(frame, y, x) && x > 0
    requires p in Scan(frame, prev, y, x - 1) || (p == (y, x - 1) && Changed(frame, prev, p))
    ensures p in Scan(frame, prev, y, x)
  {
  }

  /** The scan lists cells strictly in row-major order, so none is emitted twice. */
  lemma {:induction false} ScanOrdered(frame: Grid, prev: Screen, y: nat, x: nat)
    requires Fits(frame, prev) && Position(frame, y, x)
    ensures Ordered(Scan(frame, prev, y, x))
    decreases y, x
  {
    if x > 0 {
      ScanOrdered(frame, prev, y, x - 1);
      ScanSound(frame, prev, y, x - 1);
      var a, cells := Scan(frame, prev, y, x - 1), Scan(frame, prev, y, x);
      forall i, j | 0 <= i < j < |cells|
        ensures Before(cells[i], cells[j])
      {
        assert cells[i] == a[i];
        if j < |a| {
          assert cells[j] == a[j];
        }
      }
    } else if y > 0 {
      ScanOrdered(frame, prev, y - 1, |frame[y - 1]|);
    }
  }

  /** The full scan lists exactly the cells whose glyph differs. */
  lemma ScanExact(frame: Grid, prev: Screen)
    requires Fits(frame, prev)
    ensures forall p :: p in Scan(frame, prev, |frame|, 0) <==> Changed(frame, prev, p)
  {
    ScanSound(frame, prev, |frame|, 0);
    forall p | Changed(frame, prev, p)
      ensures p in Scan(frame, prev, |frame|, 0)
    {
      ScanComplete(frame, prev, |frame|, 0, p);
    }
  }

  /** A frame whose glyphs all match the screen produces no output. */
  lemma UnchangedEmitsNothing(frame: Grid, prev: Screen)
    requires Fits(frame, prev)
    requires forall y, x :: 0 <= y < |frame| && 0 <= x < |frame[y]| ==> frame[y][x].glyph == prev[y][x]
    ensures ChangedCells(frame, prev) == []
    ensures Directives(frame, ChangedCells(frame, prev)) == []
  {
    ScanSound(frame, prev, |frame|, 0);
    var cells := ChangedCells(frame, prev);
    assert cells == [] || Changed(frame, prev, cells[0]);
  }

  /** Drawing the same frame a second time emits nothing. */
  lemma RedrawIsIdle(frame: Grid, prev: Screen)
    requires Fits(frame, prev)
    ensures Fits(frame, Overlay(frame, prev))
    ensures Directives(frame, ChangedCells(frame, Overlay(frame, prev))) == []
  {
    UnchangedEmitsNothing(frame, Overlay(frame, prev));
  }

  /** When the frame covers the whole screen, the new screen is exactly the frame's glyphs. */
  lemma OverlayCoversScreen(frame: Grid, prev: Screen)
    requires |frame| == |prev| && forall y :: 0 <= y < |frame| ==> |frame[y]| == |prev[y]|
    ensures Fits(frame, prev)
    ensures forall y, x :: 0 <= y < |frame| && 0 <= x < |frame[y]| ==> Overlay(frame, prev)[y][x] == frame[y][x].glyph
  {
  }

  /** On the blank start screen, the first frame draws exactly its non-space cells. */
  lemma FirstFrameDrawsNonBlank(frame: Grid, blank: Screen, p: (nat, nat))
    requires Fits(frame, blank)
    requires forall y, x :: 0 <= y < |blank| && 0 <= x < |blank[y]| ==> blank[y][x] == ' '
    ensures p in ChangedCells(frame, blank) <==> InFrame(frame, p) && frame[p.0][p.1].glyph != ' '
  {
  }

  /** In a cursor move for a row of decimal text a, the first ';' after "ESC [" is the one right after a. */
  lemma SeparatorPosition(s: string, a: string, c: string)
    requires AllDigits(a)
    requires s == [Escape, '['] + a + [';'] + c + ['H']
    ensures |s| == |a| + |c| + 4 && s[2 + |a|] == ';'
    ensures forall i :: 2 <= i < 2 + |a| ==> s[i] != ';'
    ensures s[2..2 + |a|] == a && s[3 + |a|..|s| - 1] == c
  {
    forall i | 2 <= i < 2 + |a|
      ensures s[i] != ';'
    {
      assert s[i] == a[i - 2];
    }
  }

  /** Different cells get different cursor moves. */
  lemma CursorToInjective(y: nat, x: nat, y': nat, x': nat)
    requires CursorTo(y, x) == CursorTo(y', x')
    ensures y == y' && x == x'
  {
    var a, b := Decimal(y + 1), Decimal(y' + 1);
    var c, d := Decimal(x + 1), Decimal(x' + 1);
    var s := CursorTo(y, x);
    SeparatorPosition(s, a, c);
    SeparatorPosition(s, b, d);
    assert |a| == |b|;
    DecimalInjective(y + 1, y' + 1);
    DecimalInjective(x + 1, x' + 1);
  }
}
