/// The glyph mapper: turns one resized RGB raster into a grid of
/// (glyph, colour) cells, choosing each glyph by quantising the pixel's
/// ITU-R BT.601 luma onto an ordered character set.
///
/// The arithmetic is exact: the luma is (299 r + 587 g + 114 b) / 1000 and the
/// output height is width * h / (2 w), each truncated as Python's int() does.
module GlyphMapper {

  /** One 8-bit colour channel. */
  newtype byte = x: int | 0 <= x < 256

  datatype Rgb = Rgb(r: byte, g: byte, b: byte)

  /** One terminal cell: the glyph and the colour it is drawn in. */
  datatype Cell = Cell(glyph: char, color: Rgb)

  type Grid = seq<seq<Cell>>

  /** What render_frame returns: the rows and the height; ([], 0) when the frame yields nothing. */
  datatype RenderResult = RenderResult(rows: Grid, height: int)

  /** Exactly h rows of exactly w entries each. */
  predicate IsGrid<T>(g: seq<seq<T>>, h: int, w: int)
  {
    |g| == h && forall y :: 0 <= y < |g| ==> |g[y]| == w
  }

  /** Either the empty result, or as many rows as the reported height. */
  predicate WellFormed(r: RenderResult)
  {
    (r.rows == [] && r.height == 0) || (r.height > 0 && |r.rows| == r.height)
  }

  const Minimal: string := " ░▒▓█"
  const Simple: string := " .:-=+*#%@"
  const Detailed: string := " .'`^\",:;Il!i><~+_-?][}{1)(|\\/tfjrxnuvczXYUJCLQ0OZmwqpdbkhao*#MW&8%B@$"
  const Extended: string := "$@B%8&WM#*oahkbdpqwmZO0QLCJUYXzcvunxrjft/\\|()1{}[]?-_+~<>i!lI;:,\"^`'. "
  const Block: string := " █"
  const Art: string := " ♥♦♣♠•◘○◙♂♀♪♫☼►◄↕‼¶§▬↨↑↓→←∟↔▲▼"

  /** The named character sets, darkest glyph first; an unknown name selects "detailed". */
  function CharSet(name: string): (chars: string)
    ensures |chars| >= 2
    ensures name !in {"minimal", "simple", "extended", "block", "art"} ==> chars == Detailed
  {
    if name == "minimal" then Minimal
    else if name == "simple" then Simple
    else if name == "extended" then Extended
    else if name == "block" then Block
    else if name == "art" then Art
    else Detailed
  }

  /** Division that truncates toward zero, as int() does to a quotient. */
  function TruncDiv(n: int, d: int): (q: int)
    requires d > 0
    ensures 0 <= n ==> 0 <= q && q * d <= n < q * d + d
    ensures n < 0 ==> q <= 0 && n <= q * d < n + d
  {
    var m := if n >= 0 then n else -n;
    DivBounds(m, d);
    if n >= 0 then m / d else -(m / d)
  }

  /** Euclidean division of a natural number: the quotient times the divisor falls short of it by less than the divisor. */
  lemma DivBounds(m: nat, d: int)
    requires d > 0
    ensures 0 <= m / d && (m / d) * d <= m < (m / d) * d + d
  {
  }

  /**
   * The output height for a frame of frameH rows and frameW columns rendered
   * `width` glyphs wide: width * (frameH / frameW) * 0.5, truncated.
   */
  function OutputHeight(width: int, frameH: nat, frameW: nat): (h: int)
    requires frameW > 0
    ensures width >= 0 ==> 0 <= h && h * (2 * frameW) <= width * frameH < h * (2 * frameW) + 2 * frameW
    ensures width <= 0 ==> h <= 0
  {
    TruncDiv(width * frameH, 2 * frameW)
  }

  /** 1000 times the BT.601 luma of a pixel. */
  function Luma1000(p: Rgb): int
  {
    299 * p.r as int + 587 * p.g as int + 114 * p.b as int
  }

  /** The pixel's brightness: its luma, truncated to an integer. */
  function Brightness(p: Rgb): (v: byte)
    ensures 1000 * v as int <= Luma1000(p) < 1000 * (v as int + 1)
  {
    (Luma1000(p) / 1000) as byte
  }

  /** The grey that stands for a brightness when colour is off. */
  function Gray(v: byte): Rgb { Rgb(v, v, v) }

  /**
   * Index into a character set of n glyphs for brightness v:
   * min(int(v / 255 * (n - 1)), n - 1).
   */
  function GlyphIndex(v: byte, n: nat): (i: nat)
    requires n >= 1
    ensures i < n
    ensures 255 * i <= v as int * (n - 1) < 255 * (i + 1)
  {
    var m := v as int * (n - 1);
    MulMonotone(v as int, 255, n - 1);
    var q := m / 255;
    if q < n - 1 then q else n - 1
  }

  /**
   * The cell one pixel becomes: the glyph at the pixel's brightness scaled to
   * the set's positions, in the pixel's colour or in a grey.
   */
  function MapPixel(p: Rgb, chars: string, colorize: bool): (r: Cell)
    requires |chars| >= 1
    ensures exists i :: (0 <= i < |chars| && r.glyph == chars[i] &&
                         255 * i <= Brightness(p) as int * (|chars| - 1) < 255 * (i + 1))
    ensures colorize ==> r.color == p
    ensures !colorize ==> r.color.r == r.color.g == r.color.b
  {
    var v := Brightness(p);
    var glyph := chars[GlyphIndex(v, |chars|)];
    if colorize then Cell(glyph, p) else Cell(glyph, Gray(v))
  }

  /**
   * render_frame from the resized raster on. frameH and frameW are the decoded
   * frame's dimensions; `pixels` is what the resampler returns for the
   * computed size, row-major. A zero frame width (a division by zero caught
   * by render_frame) and a non-positive height both give ([], 0).
   */
  method RenderFrame(frameH: nat, frameW: nat, width: int, pixels: seq<seq<Rgb>>, charset: string, colorize: bool)
    returns (r: RenderResult)
    requires frameW > 0 && OutputHeight(width, frameH, frameW) > 0 ==>
      IsGrid(pixels, OutputHeight(width, frameH, frameW), width)
    ensures WellFormed(r)
    ensures r == RenderResult([], 0) <==> frameW == 0 || OutputHeight(width, frameH, frameW) <= 0
    ensures frameW > 0 && OutputHeight(width, frameH, frameW) > 0 ==>
      r.height == OutputHeight(width, frameH, frameW) && IsGrid(r.rows, r.height, width) &&
      forall y, x :: 0 <= y < r.height && 0 <= x < width ==>
        r.rows[y][x] == MapPixel(pixels[y][x], CharSet(charset), colorize)
  {
    if frameW == 0 {
      return RenderResult([], 0);
    }
    var height := OutputHeight(width, frameH, frameW);
    if height <= 0 {
      return RenderResult([], 0);
    }
    var chars := CharSet(charset);
    var frameData: Grid := [];
    var y := 0;
    while y < height
      invariant 0 <= y <= height
      invariant |frameData| == y
      invariant forall j :: 0 <= j < y ==> |frameData[j]| == width
      invariant forall j, x :: 0 <= j < y && 0 <= x < width ==>
        frameData[j][x] == MapPixel(pixels[j][x], chars, colorize)
    {
      var row: seq<Cell> := [];
      var x := 0;
      while x < width
        invariant 0 <= x <= width
        invariant |row| == x
        invariant forall i :: 0 <= i < x ==> row[i] == MapPixel(pixels[y][i], chars, colorize)
      {
        var p := pixels[y][x];
        var brightness := Brightness(p);
        var ch := chars[GlyphIndex(brightness, |chars|)];
        if colorize {
          row := row + [Cell(ch, p)];
        } else {
          row := row + [Cell(ch, Gray(brightness))];
        }
        x := x + 1;
      }
      frameData := frameData + [row];
      y := y + 1;
    }
    return RenderResult(frameData, height);
  }

  /** Brightness is monotone in each channel. */
  lemma BrightnessMonotone(p: Rgb, q: Rgb)
    requires p.r <= q.r && p.g <= q.g && p.b <= q.b
    ensures Brightness(p) <= Brightness(q)
  {
  }

  /** Black is brightness 0 and white is brightness 255. */
  lemma BrightnessExtremes()
    ensures Brightness(Rgb(0, 0, 0)) == 0
    ensures Brightness(Rgb(255, 255, 255)) == 255
  {
  }

  /** A grey pixel's brightness is its grey level. */
  lemma BrightnessOfGray(v: byte)
    ensures Brightness(Gray(v)) == v
  {
    assert Luma1000(Gray(v)) == 1000 * v as int;
  }

  /** The glyph index is non-decreasing in brightness. */
  lemma GlyphIndexMonotone(v: byte, w: byte, n: nat)
    requires n >= 1 && v <= w
    ensures GlyphIndex(v, n) <= GlyphIndex(w, n)
  {
    var i, j := GlyphIndex(v, n), GlyphIndex(w, n);
    assert v as int * (n - 1) <= w as int * (n - 1) by {
      MulMonotone(v as int, w as int, n - 1);
    }
    assert 255 * i < 255 * (j + 1);
  }

  lemma MulMonotone(a: int, b: int, k: nat)
    requires a <= b
    ensures a * k <= b * k
  {
  }

  /** Brightness 0 picks the first (darkest) glyph and 255 the last (brightest). */
  lemma GlyphIndexExtremes(n: nat)
    requires n >= 1
    ensures GlyphIndex(0, n) == 0
    ensures GlyphIndex(255, n) == n - 1
  {
  }

  /**
   * Colour only decides the cell's colour: the glyph is the same either way,
   * the colour is the pixel's own with colour on and the brightness grey
   * with it off.
   */
  lemma ColorizeOnlyChangesColor(p: Rgb, chars: string)
    requires |chars| >= 1
    ensures MapPixel(p, chars, true).glyph == MapPixel(p, chars, false).glyph
    ensures MapPixel(p, chars, true).color == p
    ensures MapPixel(p, chars, false).color == Rgb(Brightness(p), Brightness(p), Brightness(p))
  {
  }

  /** A brighter pixel never gets a glyph earlier in the character set. */
  lemma MapPixelMonotone(p: Rgb, q: Rgb, chars: string, colorize: bool)
    requires |chars| >= 1
    requires p.r <= q.r && p.g <= q.g && p.b <= q.b
    ensures GlyphIndex(Brightness(p), |chars|) <= GlyphIndex(Brightness(q), |chars|)
    ensures MapPixel(p, chars, colorize).glyph == chars[GlyphIndex(Brightness(p), |chars|)]
    ensures MapPixel(q, chars, colorize).glyph == chars[GlyphIndex(Brightness(q), |chars|)]
  {
    BrightnessMonotone(p, q);
    GlyphIndexMonotone(Brightness(p), Brightness(q), |chars|);
  }

  /** A square frame rendered 4 glyphs wide is 2 rows tall. */
  lemma SquareFrameHeight(side: nat)
    requires side > 0
    ensures OutputHeight(4, side, side) == 2
  {
    var h, m := OutputHeight(4, side, side), 2 * side;
    assert h * m <= 2 * m < (h + 1) * m;
    MulCancel(h, 2, m);
    MulCancelStrict(2, h + 1, m);
  }

  lemma MulCancel(a: int, b: int, m: int)
    requires m > 0 && a * m <= b * m
    ensures a <= b
  {
  }

  lemma MulCancelStrict(a: int, b: int, m: int)
    requires m > 0 && a * m < b * m
    ensures a < b
  {
  }

  /** The "minimal" set: five glyphs from a space up to a full block. */
  lemma MinimalSet()
    ensures CharSet("minimal") == Minimal
    ensures |Minimal| == 5 && Minimal[0] == ' ' && Minimal[2] == '▒' && Minimal[4] == '█'
  {
  }

  /**
   * The end-to-end case for the "minimal" set with colour off: black, mid grey
   * and white become a space, '▒' and '█'.
   */
  lemma MinimalBlack()
    ensures MapPixel(Gray(0), Minimal, false) == Cell(' ', Gray(0))
  {
    MinimalSet();
    GlyphIndexExtremes(5);
    BrightnessOfGray(0);
  }

  lemma MinimalWhite()
    ensures MapPixel(Gray(255), Minimal, false) == Cell('█', Gray(255))
  {
    MinimalSet();
    GlyphIndexExtremes(5);
    BrightnessOfGray(255);
  }

  lemma MinimalMidGray()
    ensures MapPixel(Gray(128), Minimal, false) == Cell('▒', Gray(128))
  {
    MinimalSet();
    BrightnessOfGray(128);
    var i := GlyphIndex(128, 5);
    assert 255 * i <= 512 < 255 * (i + 1);
  }
}
