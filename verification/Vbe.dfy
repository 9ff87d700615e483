/** The 24-bit graphical console: a cache of drawn glyphs, and a text grid that scrolls pixel rows. */
module Vbe {
  import opened Machine
  import opened Arith
  import opened Bits
  import CString

  const NEWLINE: Byte := 0x0A
  const RETURN: Byte := 0x0D
  const NONE: Byte := 255

  datatype Color = Color(r: Byte, g: Byte, b: Byte)

  /** A colour as a pixel value. */
  function Packed(c: Color): nat {
    c.r * 65536 + c.g * 256 + c.b
  }

  /** The bytes of one pixel in the frame buffer, blue first. */
  function PixelBytes(c: Color): (p: seq<Byte>)
    ensures |p| == 3
  {
    [c.b, c.g, c.r]
  }

  lemma PackedBytes(c: Color)
    ensures [Packed(c) % 256, Packed(c) / 256 % 256, Packed(c) / 65536 % 256] == PixelBytes(c)
  {
    Shifted(c.r * 256 + c.g, c.b);
    Shifted(c.r, c.g);
    Shifted(0, c.r);
    assert Packed(c) / 65536 == Packed(c) / 256 / 256;
  }

  lemma Shifted(q: nat, b: Byte)
    ensures (q * 256 + b) / 256 == q && (q * 256 + b) % 256 == b
  {
  }

  /** A loaded bitmap font of glyphs up to 8x16; `glyphOf` gives the glyph of a character, or NONE. */
  datatype Font = Font(bitmap: seq<Byte>, count: nat, bytesPerGlyph: nat, height: nat, width: nat, glyphOf: seq<Byte>) {
    ghost predicate Valid() {
      && 1 <= width <= 8 && 1 <= height <= 16 && count <= 512
      && height <= bytesPerGlyph && |bitmap| == count * bytesPerGlyph
      && |glyphOf| == 256 && forall c :: 0 <= c < 256 ==> glyphOf[c] == NONE || glyphOf[c] < count
    }

    /** The glyph drawn for a character: its own, that of the question mark, or none. */
    function Glyph(c: Byte): (g: Byte)
      requires Valid()
      ensures g == NONE || g < count
    {
      if glyphOf[c] == NONE then glyphOf['?' as int] else glyphOf[c]
    }

    /** Pixel j of row i of a glyph is set. */
    predicate Dot(glyph: nat, i: nat, j: nat)
      requires Valid() && glyph < count && i < height && j < width
    {
      RowInBitmap(this, glyph);
      Bit(bitmap[glyph * bytesPerGlyph + i], 7 - j)
    }
  }

  lemma RowInBitmap(f: Font, glyph: nat)
    requires f.Valid() && glyph < f.count
    ensures 0 <= glyph * f.bytesPerGlyph && glyph * f.bytesPerGlyph + f.height <= |f.bitmap|
  {
    var n := f.bytesPerGlyph;
    assert f.count * n == (glyph + 1) * n + (f.count - glyph - 1) * n;
    assert (glyph + 1) * n == glyph * n + n;
  }

  /** Foreground and background. */
  datatype Colors = Colors(fg: Color, bg: Color)

  function Shade(f: Font, glyph: nat, i: nat, j: nat, colors: Colors): Color
    requires f.Valid() && glyph < f.count && i < f.height && j < f.width
  {
    if f.Dot(glyph, i, j) then colors.fg else colors.bg
  }

  /** The first n dots of a row, read from the left as a binary number. */
  function DotsValue(f: Font, glyph: nat, i: nat, n: nat): nat
    requires f.Valid() && glyph < f.count && i < f.height && n <= f.width
  {
    if n == 0 then 0 else 2 * DotsValue(f, glyph, i, n - 1) + if f.Dot(glyph, i, n - 1) then 1 else 0
  }

  /** The leftmost dot is the highest bit of the row's byte; a font of width 8 uses all of it. */
  lemma {:induction false} DotsAreBits(f: Font, glyph: nat, i: nat, n: nat)
    requires f.Valid() && glyph < f.count && i < f.height && n <= f.width
    ensures 0 <= glyph * f.bytesPerGlyph + i < |f.bitmap|
    ensures DotsValue(f, glyph, i, n) == f.bitmap[glyph * f.bytesPerGlyph + i] / Pow2(8 - n)
  {
    RowInBitmap(f, glyph);
    var at := glyph * f.bytesPerGlyph + i;
    if n == 0 {
      assert Pow2(4) == 16 && Pow2(8) == 256;
    } else {
      DotsAreBits(f, glyph, i, n - 1);
      ShiftStep(f.bitmap[at], 8 - n);
    }
  }

  // ----- drawing pixel by pixel, the reference

  /** The visible bytes of pixel rows, from top to bottom. */
  type Image = seq<seq<Byte>>

  ghost predicate Uniform(rows: Image, width: nat) {
    forall y :: 0 <= y < |rows| ==> |rows[y]| == 3 * width
  }

  /** s with t written over it from position `at`. */
  function Splice(s: seq<Byte>, at: nat, t: seq<Byte>): (r: seq<Byte>)
    requires at + |t| <= |s|
    ensures |r| == |s|
  {
    s[..at] + t + s[at + |t|..]
  }

  lemma SpliceNothing(s: seq<Byte>, at: nat)
    requires at <= |s|
    ensures Splice(s, at, []) == s
  {
  }

  lemma SpliceAll(s: seq<Byte>, t: seq<Byte>)
    requires |s| == |t|
    ensures Splice(s, 0, t) == t
  {
  }

  /** Splicing byte by byte. */
  lemma SpliceAt(s: seq<Byte>, at: nat, t: seq<Byte>, k: nat)
    requires at + |t| <= |s| && k < |s|
    ensures Splice(s, at, t)[k] == if at <= k < at + |t| then t[k - at] else s[k]
  {
  }

  /** One pixel drawn, clipped to the screen. */
  function WithPixel(rows: Image, x: nat, y: nat, color: Color, width: nat): (r: Image)
    requires Uniform(rows, width)
    ensures |r| == |rows| && Uniform(r, width)
  {
    if x < width && y < |rows| then rows[y := Splice(rows[y], 3 * x, PixelBytes(color))] else rows
  }

  /** The first j pixels of row i of a glyph, drawn one by one. */
  function PixelRow(rows: Image, x: nat, y: nat, f: Font, glyph: nat, i: nat, j: nat, colors: Colors,
          width: nat): (r: Image)
    requires Uniform(rows, width) && f.Valid() && glyph < f.count && i < f.height && j <= f.width
    ensures |r| == |rows| && Uniform(r, width)
  {
    if j == 0 then rows
    else
      var before := PixelRow(rows, x, y, f, glyph, i, j - 1, colors, width);
      WithPixel(before, x + j - 1, y, Shade(f, glyph, i, j - 1, colors), width)
  }

  /** The first i rows of a glyph at the pixel (x, y). */
  function ByPixels(rows: Image, x: nat, y: nat, f: Font, glyph: nat, i: nat, colors: Colors, width: nat): (r: Image)
    requires Uniform(rows, width) && f.Valid() && glyph < f.count && i <= f.height
    ensures |r| == |rows| && Uniform(r, width)
  {
    if i == 0 then rows
    else
      var before := ByPixels(rows, x, y, f, glyph, i - 1, colors, width);
      PixelRow(before, x, y + i - 1, f, glyph, i - 1, f.width, colors, width)
  }

  // ----- drawing row by row

  /** The bytes of the first j pixels of row i of a glyph. */
  function GlyphBytes(f: Font, glyph: nat, i: nat, j: nat, colors: Colors): (r: seq<Byte>)
    requires f.Valid() && glyph < f.count && i < f.height && j <= f.width
    ensures |r| == 3 * j
  {
    if j == 0 then [] else GlyphBytes(f, glyph, i, j - 1, colors) + PixelBytes(Shade(f, glyph, i, j - 1, colors))
  }

  /** Row i of a glyph drawn pixel by pixel is its bytes copied over the pixel row. */
  lemma {:induction false} RowByPixels(rows: Image, x: nat, y: nat, f: Font, glyph: nat, i: nat, j: nat,
          colors: Colors, width: nat)
    requires Uniform(rows, width) && f.Valid() && glyph < f.count && i < f.height && j <= f.width
    requires x + f.width <= width && y < |rows|
    ensures PixelRow(rows, x, y, f, glyph, i, j, colors, width) ==
      rows[y := Splice(rows[y], 3 * x, GlyphBytes(f, glyph, i, j, colors))]
  {
    hide Font.Dot, Font.Valid, Shade;
    if j == 0 {
      assert Splice(rows[y], 3 * x, []) == rows[y];
    } else {
      RowByPixels(rows, x, y, f, glyph, i, j - 1, colors, width);
      var before, pixel := GlyphBytes(f, glyph, i, j - 1, colors), PixelBytes(Shade(f, glyph, i, j - 1, colors));
      SpliceTwice(rows[y], 3 * x, before, pixel);
    }
  }

  lemma SpliceTwice(s: seq<Byte>, at: nat, a: seq<Byte>, b: seq<Byte>)
    requires at + |a| + |b| <= |s|
    ensures Splice(Splice(s, at, a), at + |a|, b) == Splice(s, at, a + b)
  {
  }

  /** A whole glyph: rows y.. get the bytes of the glyph over x, all others stay. */
  lemma {:induction false} GlyphByPixels(rows: Image, x: nat, y: nat, f: Font, glyph: nat, i: nat, colors: Colors,
          width: nat)
    requires Uniform(rows, width) && f.Valid() && glyph < f.count && i <= f.height
    requires x + f.width <= width && y + i <= |rows|
    ensures var r := ByPixels(rows, x, y, f, glyph, i, colors, width);
      forall k :: 0 <= k < |rows| ==>
        r[k] == if y <= k < y + i then Splice(rows[k], 3 * x, GlyphBytes(f, glyph, k - y, f.width, colors)) else rows[k]
  {
    hide Splice, GlyphBytes, Font.Valid, PixelRow;
    if i > 0 {
      GlyphByPixels(rows, x, y, f, glyph, i - 1, colors, width);
      var before := ByPixels(rows, x, y, f, glyph, i - 1, colors, width);
      RowByPixels(before, x, y + i - 1, f, glyph, i - 1, f.width, colors, width);
    }
  }

  // ----- the unbounded canvas

  /** A graphics mode with a font. */
  datatype Setup = Setup(width: nat, height: nat, pitch: nat, font: Font) {
    ghost predicate Valid() {
      font.Valid() && font.width <= width && font.height <= height && 3 * width <= pitch
    }

    function Columns(): (n: nat)
      requires Valid()
      ensures n >= 1
    {
      width / font.width
    }

    function Lines(): (n: nat)
      requires Valid()
      ensures n >= 1
    {
      height / font.height
    }

    /** Where pixel row y starts in the frame buffer. */
    function Start(y: nat): nat { y * pitch }
  }

  /** Every pixel row ever shown, and the cursor on the text grid of the last `height` of them. */
  datatype Canvas = Canvas(rows: Image, col: nat, line: nat) {
    ghost predicate Valid(s: Setup) {
      s.Valid() && Uniform(rows, s.width) && s.height <= |rows| && col < s.Columns() && line < s.Lines()
    }

    /** The pixel row where the cursor's line of text starts. */
    function Top(s: Setup): nat
      requires s.height <= |rows|
    {
      |rows| - s.height + line * s.font.height
    }
  }

  /** Pixel j of a prerendered row holds the blue, green and red of the foreground where the glyph has a dot. */
  lemma {:induction false} GlyphPixel(f: Font, glyph: nat, i: nat, j: nat, n: nat, colors: Colors)
    requires f.Valid() && glyph < f.count && i < f.height && j < n <= f.width
    ensures var c := if f.Dot(glyph, i, j) then colors.fg else colors.bg;
      && |GlyphBytes(f, glyph, i, n, colors)| == 3 * n
      && GlyphBytes(f, glyph, i, n, colors)[3 * j..3 * j + 3] == [c.b, c.g, c.r]
    decreases n
  {
    hide Font.Valid, Font.Dot;
    if j < n - 1 {
      GlyphPixel(f, glyph, i, j, n - 1, colors);
    }
  }

  /** Every pixel of a fresh row holds the blue, green and red of the background. */
  lemma {:induction false} BlankPixel(n: nat, j: nat, bg: Color)
    requires j < n
    ensures BlankPixels(n, bg)[3 * j..3 * j + 3] == [bg.b, bg.g, bg.r]
  {
    if j < n - 1 {
      BlankPixel(n - 1, j, bg);
    }
  }

  function BlankPixels(n: nat, bg: Color): (r: seq<Byte>)
    ensures |r| == 3 * n
  {
    if n == 0 then [] else BlankPixels(n - 1, bg) + PixelBytes(bg)
  }

  function BlankRows(n: nat, width: nat, bg: Color): (r: Image)
    ensures |r| == n && Uniform(r, width)
  {
    seq(n, _ => BlankPixels(width, bg))
  }

  lemma Quotient(n: nat, size: nat, k: nat)
    requires size > 0 && k < n / size
    ensures k * size >= 0 && k * size + size <= n
  {
    MulAtLeast(size, n / size, k);
    assert n == size * (n / size) + n % size && k * size == size * k;
  }

  /** The cursor is in the grid, so its cell lies on the screen. */
  lemma CellOnScreen(t: Canvas, s: Setup)
    requires t.Valid(s)
    ensures 0 <= t.col * s.font.width && t.col * s.font.width + s.font.width <= s.width
    ensures |t.rows| - s.height <= t.Top(s) && t.Top(s) + s.font.height <= |t.rows|
  {
    Quotient(s.width, s.font.width, t.col);
    Quotient(s.height, s.font.height, t.line);
  }

  /** To the start of the next line; below the last one, fresh pixel rows appear. */
  function NextLine(t: Canvas, s: Setup, bg: Color): (r: Canvas)
    requires t.Valid(s)
    ensures r.Valid(s)
  {
    if t.line < s.Lines() - 1 then Canvas(t.rows, 0, t.line + 1)
    else Canvas(t.rows + BlankRows(s.font.height, s.width, bg), 0, t.line)
  }

  /** The pixel rows after drawing a character under the cursor. */
  ghost function Drawn(t: Canvas, s: Setup, c: Byte, colors: Colors): (r: Image)
    requires t.Valid(s)
    ensures |r| == |t.rows| && Uniform(r, s.width)
  {
    CellOnScreen(t, s);
    var g := s.font.Glyph(c);
    if g == NONE then t.rows
    else ByPixels(t.rows, t.col * s.font.width, t.Top(s), s.font, g, s.font.height, colors, s.width)
  }

  ghost function Put(t: Canvas, s: Setup, c: Byte, colors: Colors): (r: Canvas)
    requires t.Valid(s)
    ensures r.Valid(s)
  {
    if c == NEWLINE then NextLine(t, s, colors.bg)
    else if c == RETURN then t.(col := 0)
    else
      var rows := Drawn(t, s, c, colors);
      if t.col + 1 >= s.Columns() then NextLine(Canvas(rows, t.col, t.line), s, colors.bg)
      else Canvas(rows, t.col + 1, t.line)
  }

  ghost function PutAll(t: Canvas, s: Setup, text: seq<Byte>, colors: Colors): (r: Canvas)
    requires t.Valid(s)
    ensures r.Valid(s)
  {
    if text == [] then t else Put(PutAll(t, s, text[..|text| - 1], colors), s, text[|text| - 1], colors)
  }

  // ----- what the canvas shows

  /** The cell of column `col` on the line starting at pixel row y shows a glyph. */
  ghost predicate CellShows(rows: Image, s: Setup, col: nat, y: nat, glyph: nat, colors: Colors) {
    && s.Valid() && Uniform(rows, s.width) && glyph < s.font.count && col < s.Columns() && y + s.font.height <= |rows|
    && forall i, k :: 0 <= i < s.font.height && 0 <= k < 3 * s.font.width ==>
      CellByte(rows, s, col, y, i, k) == Some(GlyphBytes(s.font, glyph, i, s.font.width, colors)[k])
  }

  /** Byte k of row i of a cell. */
  function CellByte(rows: Image, s: Setup, col: nat, y: nat, i: nat, k: nat): Option<Byte> {
    ByteOf(rows, y + i, 3 * (col * s.font.width) + k)
  }

  function ByteOf(rows: Image, y: int, k: int): Option<Byte> {
    if 0 <= y < |rows| && 0 <= k < |rows[y]| then Some(rows[y][k]) else None
  }

  ghost predicate InCell(t: Canvas, s: Setup, y: int, k: int)
    requires s.height <= |t.rows|
  {
    t.Top(s) <= y < t.Top(s) + s.font.height
      && 3 * (t.col * s.font.width) <= k < 3 * (t.col * s.font.width) + 3 * s.font.width
  }

  /** A visible byte after drawing a glyph at the pixel (x, y) pixel by pixel. */
  lemma DrawnByte(rows: Image, x: nat, y: nat, f: Font, glyph: nat, colors: Colors, width: nat, row: int, k: int)
    requires Uniform(rows, width) && f.Valid() && glyph < f.count && x + f.width <= width && y + f.height <= |rows|
    ensures ByteOf(ByPixels(rows, x, y, f, glyph, f.height, colors, width), row, k) ==
      if y <= row < y + f.height && 3 * x <= k < 3 * x + 3 * f.width then
        Some(GlyphBytes(f, glyph, row - y, f.width, colors)[k - 3 * x])
      else ByteOf(rows, row, k)
  {
    GlyphByPixels(rows, x, y, f, glyph, f.height, colors, width);
    hide Splice, GlyphBytes, Font.Valid, ByPixels;
    if y <= row < y + f.height && 0 <= k < 3 * width {
      SpliceAt(rows[row], 3 * x, GlyphBytes(f, glyph, row - y, f.width, colors), k);
    }
  }

  /** Drawing a character changes only the cell under the cursor, which then shows the glyph. */
  lemma DrawnInCell(t: Canvas, s: Setup, c: Byte, colors: Colors)
    requires t.Valid(s)
    ensures var r := Drawn(t, s, c, colors);
      && (forall y, k :: !InCell(t, s, y, k) ==> ByteOf(r, y, k) == ByteOf(t.rows, y, k))
      && (s.font.Glyph(c) != NONE ==> CellShows(r, s, t.col, t.Top(s), s.font.Glyph(c), colors))
  {
    CellOnScreen(t, s);
    var f, g, x, top := s.font, s.font.Glyph(c), t.col * s.font.width, t.Top(s);
    if g != NONE {
      var r := Drawn(t, s, c, colors);
      assert r == ByPixels(t.rows, x, top, f, g, f.height, colors, s.width);
      hide GlyphBytes, Font.Valid, Drawn, ByPixels, ByteOf, Setup.Lines, Setup.Columns, Canvas.Top;
      forall y, k | !InCell(t, s, y, k) ensures ByteOf(r, y, k) == ByteOf(t.rows, y, k) {
        DrawnByte(t.rows, x, top, f, g, colors, s.width, y, k);
      }
      forall i, k | 0 <= i < f.height && 0 <= k < 3 * f.width
        ensures CellByte(r, s, t.col, top, i, k) == Some(GlyphBytes(f, g, i, f.width, colors)[k])
      {
        DrawnByte(t.rows, x, top, f, g, colors, s.width, top + i, 3 * x + k);
      }
    }
  }

  /** Printing never changes a visible byte outside the cell under the cursor. */
  lemma PutKeeps(t: Canvas, s: Setup, c: Byte, colors: Colors, y: nat, k: int)
    requires t.Valid(s) && y < |t.rows| && !InCell(t, s, y, k)
    ensures ByteOf(Put(t, s, c, colors).rows, y, k) == ByteOf(t.rows, y, k)
  {
    hide Drawn, InCell;
    DrawnInCell(t, s, c, colors);
  }

  /**
  A newline and a full line move the cursor to the start of the text line below; a return to the start of its own.
  */
  lemma PutMoves(t: Canvas, s: Setup, c: Byte, colors: Colors)
    requires t.Valid(s)
    ensures var r := Put(t, s, c, colors);
      if c == RETURN then r.col == 0 && r.Top(s) == t.Top(s)
      else if c == NEWLINE || t.col + 1 == s.Columns() then r.col == 0 && r.Top(s) == t.Top(s) + s.font.height
      else r.col == t.col + 1 && r.Top(s) == t.Top(s)
    ensures c == NEWLINE || c == RETURN ==> t.rows <= Put(t, s, c, colors).rows
  {
    hide Drawn;
    assert (t.line + 1) * s.font.height == t.line * s.font.height + s.font.height;
  }

  /** A pixel row that printing appends shows the background in every pixel. */
  lemma FreshRows(t: Canvas, s: Setup, c: Byte, colors: Colors, y: nat, j: nat)
    requires t.Valid(s) && |t.rows| <= y < |Put(t, s, c, colors).rows| && j < s.width
    ensures |Put(t, s, c, colors).rows[y]| == 3 * s.width
    ensures Put(t, s, c, colors).rows[y][3 * j..3 * j + 3] == [colors.bg.b, colors.bg.g, colors.bg.r]
  {
    hide Drawn, BlankPixels, Font.Valid, Setup.Lines, Setup.Columns;
    BlankPixel(s.width, j, colors.bg);
    assert Put(t, s, c, colors).rows[y] == BlankRows(s.font.height, s.width, colors.bg)[y - |t.rows|];
  }

  predicate Printable(text: seq<Byte>) { NEWLINE !in text && RETURN !in text }

  /** A place for a character: its column, and the pixel row where its line starts. */
  datatype Spot = Spot(col: nat, top: nat)

  /** Where character n of a text lands: lines run on below each other. */
  function SpotAt(t: Canvas, s: Setup, n: nat): Spot
    requires s.Valid() && s.height <= |t.rows|
  {
    if n == 0 then Spot(t.col, t.Top(s))
    else
      var p := SpotAt(t, s, n - 1);
      if p.col + 1 >= s.Columns() then Spot(0, p.top + s.font.height) else Spot(p.col + 1, p.top)
  }

  predicate Before(s: Setup, p: Spot, q: Spot) {
    p.top + s.font.height <= q.top || (p.top == q.top && p.col < q.col)
  }

  lemma {:induction false} SpotsAdvance(t: Canvas, s: Setup, m: nat, n: nat)
    requires s.Valid() && s.height <= |t.rows| && m < n
    ensures Before(s, SpotAt(t, s, m), SpotAt(t, s, n))
  {
    hide Font.Valid, Setup.Columns;
    if m < n - 1 {
      SpotsAdvance(t, s, m, n - 1);
    }
  }

  /** Every character of a text of any length that has a glyph is shown in its own cell, and stays there. */
  lemma {:induction false} TextShows(t: Canvas, s: Setup, text: seq<Byte>, colors: Colors)
    requires t.Valid(s) && Printable(text)
    ensures var r := PutAll(t, s, text, colors);
      && Spot(r.col, r.Top(s)) == SpotAt(t, s, |text|)
      && forall n :: 0 <= n < |text| && s.font.Glyph(text[n]) != NONE ==>
        CellShows(r.rows, s, SpotAt(t, s, n).col, SpotAt(t, s, n).top, s.font.Glyph(text[n]), colors)
  {
    hide CellShows, InCell, Drawn, Put, Font.Valid, Canvas.Top, SpotAt;
    if text != [] {
      var front, c := text[..|text| - 1], text[|text| - 1];
      assert c in text && forall b :: b in front ==> b in text;
      TextShows(t, s, front, colors);
      var before, r := PutAll(t, s, front, colors), PutAll(t, s, text, colors);
      SpotStep(t, s, before, c, colors, |front|);
      PutDraws(before, s, c, colors);
      DrawnInCell(before, s, c, colors);
      var drawn := Drawn(before, s, c, colors);
      forall n | 0 <= n < |text| && s.font.Glyph(text[n]) != NONE
        ensures CellShows(r.rows, s, SpotAt(t, s, n).col, SpotAt(t, s, n).top, s.font.Glyph(text[n]), colors)
      {
        var p := SpotAt(t, s, n);
        if n < |front| {
          SpotsAdvance(t, s, n, |front|);
          CellStays(before, s, drawn, p, s.font.Glyph(text[n]), colors);
        }
        CellShowsOn(drawn, r.rows, s, p, s.font.Glyph(text[n]), colors);
      }
    } else {
      SpotStart(t, s);
    }
  }

  lemma SpotStart(t: Canvas, s: Setup)
    requires s.Valid() && s.height <= |t.rows|
    ensures SpotAt(t, s, 0) == Spot(t.col, t.Top(s))
  {
  }

  lemma SpotStep(t: Canvas, s: Setup, before: Canvas, c: Byte, colors: Colors, n: nat)
    requires s.Valid() && s.height <= |t.rows| && before.Valid(s) && c != NEWLINE && c != RETURN
    requires Spot(before.col, before.Top(s)) == SpotAt(t, s, n)
    ensures var r := Put(before, s, c, colors); Spot(r.col, r.Top(s)) == SpotAt(t, s, n + 1)
  {
    hide Put, Canvas.Top, Setup.Columns, Font.Valid;
    PutMoves(before, s, c, colors);
  }

  /** Printing draws the character, and may add rows below. */
  lemma PutDraws(t: Canvas, s: Setup, c: Byte, colors: Colors)
    requires t.Valid(s) && c != NEWLINE && c != RETURN
    ensures Drawn(t, s, c, colors) <= Put(t, s, c, colors).rows
  {
    hide Drawn;
  }

  /** A glyph in an earlier cell stays when only the cell under the cursor changes. */
  lemma CellStays(t: Canvas, s: Setup, rows: Image, p: Spot, glyph: nat, colors: Colors)
    requires t.Valid(s) && CellShows(t.rows, s, p.col, p.top, glyph, colors) && Before(s, p, Spot(t.col, t.Top(s)))
    requires |rows| == |t.rows| && Uniform(rows, s.width)
    requires forall y, k :: !InCell(t, s, y, k) ==> ByteOf(rows, y, k) == ByteOf(t.rows, y, k)
    ensures CellShows(rows, s, p.col, p.top, glyph, colors)
  {
    hide GlyphBytes, Font.Valid, Setup.Lines, Setup.Columns, Canvas.Top;
    var f := s.font;
    if p.col < t.col { MulAtLeast(f.width, t.col, p.col); }
    assert p.col * f.width == f.width * p.col && t.col * f.width == f.width * t.col;
    forall i, k | 0 <= i < f.height && 0 <= k < 3 * f.width
      ensures CellByte(rows, s, p.col, p.top, i, k) == CellByte(t.rows, s, p.col, p.top, i, k)
    {
      assert !InCell(t, s, p.top + i, 3 * (p.col * f.width) + k);
    }
  }

  /** More rows below change nothing. */
  lemma CellShowsOn(rows: Image, longer: Image, s: Setup, p: Spot, glyph: nat, colors: Colors)
    requires CellShows(rows, s, p.col, p.top, glyph, colors) && rows <= longer && Uniform(longer, s.width)
    ensures CellShows(longer, s, p.col, p.top, glyph, colors)
  {
    hide GlyphBytes, Font.Valid;
    forall i, k | 0 <= i < s.font.height && 0 <= k < 3 * s.font.width
      ensures CellByte(longer, s, p.col, p.top, i, k) == CellByte(rows, s, p.col, p.top, i, k)
    {
      assert longer[p.top + i] == rows[p.top + i];
    }
  }

  // ----- the frame buffer

  lemma StartNext(s: Setup, y: nat)
    ensures s.Start(0) == 0 && s.Start(y + 1) == s.Start(y) + s.pitch
  {
  }

  lemma StartBelow(s: Setup, y: nat, z: nat)
    requires y < z
    ensures s.Start(y) + s.pitch <= s.Start(z)
  {
    MulAtLeast(s.pitch, z, y);
  }

  lemma StartSum(s: Setup, y: nat, z: nat)
    ensures s.Start(y + z) == s.Start(y) + s.Start(z)
  {
  }

  /** The visible part of a pixel row of the frame buffer. */
  function RowAt(memory: seq<Byte>, s: Setup, y: nat): (r: seq<Byte>)
    requires |memory| == s.Start(s.height) && 3 * s.width <= s.pitch && y < s.height
    ensures |r| == 3 * s.width
  {
    hide Setup.Start;
    StartBelow(s, y, s.height);
    memory[s.Start(y)..s.Start(y) + 3 * s.width]
  }

  function RowsOf(memory: seq<Byte>, s: Setup): (r: Image)
    requires |memory| == s.Start(s.height) && 3 * s.width <= s.pitch
    ensures |r| == s.height && Uniform(r, s.width)
  {
    seq(s.height, y requires 0 <= y < s.height => RowAt(memory, s, y))
  }

  /** Bytes copied within one pixel row change that row alone. */
  lemma RowsSpliced(memory: seq<Byte>, s: Setup, y: nat, at: nat, t: seq<Byte>)
    requires |memory| == s.Start(s.height) && 3 * s.width <= s.pitch && y < s.height && at + |t| <= 3 * s.width
    ensures s.Start(y) + s.pitch <= |memory|
    ensures RowsOf(Splice(memory, s.Start(y) + at, t), s) == RowsOf(memory, s)[y := Splice(RowsOf(memory, s)[y], at, t)]
  {
    hide Setup.Start, Splice;
    StartBelow(s, y, s.height);
    var now := Splice(memory, s.Start(y) + at, t);
    forall r | 0 <= r < s.height
      ensures RowAt(now, s, r) == if r == y then Splice(RowAt(memory, s, y), at, t) else RowAt(memory, s, r)
    {
      StartBelow(s, r, s.height);
      if r < y {
        StartBelow(s, r, y);
      } else if y < r {
        StartBelow(s, y, r);
      }
      SliceOfSplice(memory, s.Start(y) + at, t, s.Start(r), 3 * s.width);
    }
  }

  /** A slice of a splice that does not meet the new bytes, or holds all of them. */
  lemma SliceOfSplice(memory: seq<Byte>, at: nat, t: seq<Byte>, from: nat, n: nat)
    requires at + |t| <= |memory| && from + n <= |memory|
    ensures from + n <= at || at + |t| <= from ==> Splice(memory, at, t)[from..from + n] == memory[from..from + n]
    ensures from <= at && at + |t| <= from + n ==>
      Splice(memory, at, t)[from..from + n] == Splice(memory[from..from + n], at - from, t)
  {
    hide Splice;
    var now := Splice(memory, at, t);
    forall p | from <= p < from + n
      ensures now[p] == if at <= p < at + |t| then t[p - at] else memory[p]
    {
      SpliceAt(memory, at, t, p);
    }
    if from <= at && at + |t| <= from + n {
      var row, slice := Splice(memory[from..from + n], at - from, t), now[from..from + n];
      forall p | 0 <= p < n
        ensures row[p] == slice[p]
      {
        SpliceAt(memory[from..from + n], at - from, t, p);
      }
      assert slice == row;
    }
  }

  class Screen {
    const setup: Setup
    const framebuffer: array<Byte>
    const cache: array3<Byte>
    var colors: Colors
    var col: nat
    var line: nat

    ghost predicate Valid()
      reads this`col, this`line
    {
      Sized() && col < setup.Columns() && line < setup.Lines()
    }

    ghost predicate Sized() {
      && setup.Valid() && framebuffer.Length == setup.Start(setup.height)
      && cache.Length0 == 512 && cache.Length1 == 16 && cache.Length2 == 24
    }

    ghost function Rows(): (r: Image)
      requires Sized()
      reads framebuffer
      ensures |r| == setup.height && Uniform(r, setup.width)
    {
      RowsOf(framebuffer[..], setup)
    }

    /** Row i of a cached glyph holds its bytes in the current colours. */
    ghost predicate RowCached(glyph: nat, i: nat)
      requires Sized() && glyph < setup.font.count && i < setup.font.height
      reads this`colors, cache
    {
      var bytes := GlyphBytes(setup.font, glyph, i, setup.font.width, colors);
      forall k :: 0 <= k < 3 * setup.font.width ==> cache[glyph, i, k] == bytes[k]
    }

    ghost predicate Cached()
      requires Sized()
      reads this`colors, cache
    {
      forall glyph: nat, i: nat :: glyph < setup.font.count && i < setup.font.height ==> RowCached(glyph, i)
    }

    // ----- the cache

    /** The loop over the pixels of one row. */
    method UpdateRow(glyph: nat, i: nat)
      requires Sized() && glyph < setup.font.count && i < setup.font.height
      modifies cache
      ensures RowCached(glyph, i)
      ensures forall g, r, k :: 0 <= g < 512 && 0 <= r < 16 && 0 <= k < 24 && (g != glyph || r != i) ==>
        cache[g, r, k] == old(cache[g, r, k])
    {
      var f := setup.font;
      var j := 0;
      while j < f.width
        invariant 0 <= j <= f.width
        invariant forall k :: 0 <= k < 3 * j ==> cache[glyph, i, k] == GlyphBytes(f, glyph, i, j, colors)[k]
        invariant forall g, r, k :: 0 <= g < 512 && 0 <= r < 16 && 0 <= k < 24 && (g != glyph || r != i) ==>
          cache[g, r, k] == old(cache[g, r, k])
      {
        var color := Packed(if f.Dot(glyph, i, j) then colors.fg else colors.bg);
        PackedBytes(Shade(f, glyph, i, j, colors));
        cache[glyph, i, 3 * j] := color % 256;
        cache[glyph, i, 3 * j + 1] := color / 256 % 256;
        cache[glyph, i, 3 * j + 2] := color / 65536 % 256;
        j := j + 1;
      }
    }

    method UpdateGlyph(glyph: nat)
      requires Sized() && glyph < setup.font.count
      modifies cache
      ensures forall i: nat :: i < setup.font.height ==> RowCached(glyph, i)
      ensures forall g: nat, i: nat :: g < setup.font.count && i < setup.font.height && g != glyph ==>
        old(RowCached(g, i)) ==> RowCached(g, i)
    {
      assert setup.font.height <= 16 && setup.font.width <= 8;
      hide GlyphBytes, Font.Valid, Setup.Columns, Setup.Lines;
      var i := 0;
      while i < setup.font.height
        invariant 0 <= i <= setup.font.height
        invariant forall r: nat :: r < i ==> RowCached(glyph, r)
        invariant forall g, r, k :: 0 <= g < 512 && 0 <= r < 16 && 0 <= k < 24 && g != glyph ==>
          cache[g, r, k] == old(cache[g, r, k])
      {
        label before:
        UpdateRow(glyph, i);
        forall r: nat | r < i ensures RowCached(glyph, r) {
          assert old@before(RowCached(glyph, r));
        }
        i := i + 1;
      }
    }

    method UpdatePrerendered()
      requires Sized()
      modifies cache
      ensures Cached()
    {
      hide RowCached;
      var glyph := 0;
      while glyph < setup.font.count
        invariant 0 <= glyph <= setup.font.count
        invariant forall g: nat, i: nat :: g < glyph && i < setup.font.height ==> RowCached(g, i)
      {
        UpdateGlyph(glyph);
        glyph := glyph + 1;
      }
    }

    method SetFgColor(r: Byte, g: Byte, b: Byte)
      requires Sized()
      modifies this`colors, cache
      ensures colors == Colors(Color(r, g, b), old(colors.bg)) && Cached()
    {
      colors := Colors(Color(r, g, b), colors.bg);
      UpdatePrerendered();
    }

    method SetBgColor(r: Byte, g: Byte, b: Byte)
      requires Sized()
      modifies this`colors, cache
      ensures colors == Colors(old(colors.fg), Color(r, g, b)) && Cached()
    {
      colors := Colors(colors.fg, Color(r, g, b));
      UpdatePrerendered();
    }

    method ResetTextColor()
      requires Sized()
      modifies this`colors, cache
      ensures colors == Colors(Color(255, 255, 255), Color(0, 0, 0)) && Cached()
    {
      colors := Colors(Color(255, 255, 255), Color(0, 0, 0));
      UpdatePrerendered();
    }

    // ----- drawing

    /** The three bytes of a pixel. */
    method StorePixel(at: nat, c: Color)
      requires at + 3 <= framebuffer.Length
      modifies framebuffer
      ensures framebuffer[..] == Splice(old(framebuffer[..]), at, PixelBytes(c))
    {
      PackedBytes(c);
      var color := Packed(c);
      framebuffer[at] := color % 256;
      framebuffer[at + 1] := color / 256 % 256;
      framebuffer[at + 2] := color / 65536 % 256;
    }

    /** Draw one pixel; a pixel outside the screen is ignored. */
    method DrawPixel(x: nat, y: nat, c: Color)
      requires Sized()
      modifies framebuffer
      ensures Rows() == WithPixel(old(Rows()), x, y, c, setup.width)
    {
      if x >= setup.width || y >= setup.height {
        return;
      }
      hide Setup.Start, Setup.Valid, RowsOf;
      ghost var was := framebuffer[..];
      RowsSpliced(was, setup, y, 3 * x, PixelBytes(c));
      StorePixel(setup.Start(y) + 3 * x, c);
    }

    /** Copy a cached row of a glyph into the frame buffer. */
    method CopyRow(dest: nat, glyph: nat, i: nat)
      requires Sized() && glyph < setup.font.count && i < setup.font.height && RowCached(glyph, i)
      requires dest + 3 * setup.font.width <= framebuffer.Length
      modifies framebuffer
      ensures framebuffer[..] ==
        Splice(old(framebuffer[..]), dest, GlyphBytes(setup.font, glyph, i, setup.font.width, colors))
    {
      assert glyph < 512 && i < 16 && setup.font.width <= 8;
      ghost var was, bytes := framebuffer[..], GlyphBytes(setup.font, glyph, i, setup.font.width, colors);
      assert forall k :: 0 <= k < 3 * setup.font.width ==> cache[glyph, i, k] == bytes[k];
      hide Setup.Start, Setup.Valid, Font.Valid, GlyphBytes, RowCached;
      var n := 3 * setup.font.width;
      var k := 0;
      while k < n
        invariant 0 <= k <= n
        invariant forall p :: 0 <= p < framebuffer.Length ==>
          framebuffer[p] == if dest <= p < dest + k then bytes[p - dest] else was[p]
      {
        framebuffer[dest + k] := cache[glyph, i, k];
        k := k + 1;
      }
      assert framebuffer[..] == Splice(was, dest, bytes);
    }

    /** Drawing from the cache leaves the frame buffer as drawing pixel by pixel does. */
    method DrawChar(c: Byte, x: nat, y: nat)
      requires Sized() && Cached() && x + setup.font.width <= setup.width && y + setup.font.height <= setup.height
      modifies framebuffer
      ensures var f := setup.font;
        Rows() ==
          if f.Glyph(c) == NONE then old(Rows())
          else ByPixels(old(Rows()), x, y, f, f.Glyph(c), f.height, colors, setup.width)
    {
      var f := setup.font;
      var glyph := f.Glyph(c);
      if glyph == NONE {
        return;
      }
      ghost var was := Rows();
      hide PixelRow, RowsOf, Font.Valid, Setup.Columns, Setup.Lines, Setup.Start, RowCached, Rows, Uniform;
      var dest := setup.Start(y) + x * 3;
      var i := 0;
      while i < f.height
        invariant 0 <= i <= f.height
        invariant dest == setup.Start(y + i) + 3 * x
        invariant Rows() == ByPixels(was, x, y, f, glyph, i, colors, setup.width)
      {
        DrawRow(dest, x, y + i, glyph, i);
        StartNext(setup, y + i);
        dest := dest + setup.pitch;
        i := i + 1;
      }
    }

    method DrawRow(dest: nat, x: nat, y: nat, glyph: nat, i: nat)
      requires Sized() && glyph < setup.font.count && i < setup.font.height && RowCached(glyph, i)
      requires x + setup.font.width <= setup.width && y < setup.height && dest == setup.Start(y) + 3 * x
      modifies framebuffer
      ensures Rows() == PixelRow(old(Rows()), x, y, setup.font, glyph, i, setup.font.width, colors, setup.width)
    {
      hide GlyphBytes, PixelRow, Splice, RowsOf, Font.Valid, Setup.Columns, Setup.Lines, Setup.Start, RowCached;
      ghost var bytes := GlyphBytes(setup.font, glyph, i, setup.font.width, colors);
      RowsSpliced(framebuffer[..], setup, y, 3 * x, bytes);
      RowByPixels(Rows(), x, y, setup.font, glyph, i, setup.font.width, colors, setup.width);
      CopyRow(dest, glyph, i);
    }

    // ----- the text grid

    /** The screen is the last `height` rows of the canvas, and the cursors agree. */
    ghost predicate Shows(t: Canvas)
      reads this, framebuffer
    {
      Valid() && t.Valid(setup) && Rows() == t.rows[|t.rows| - setup.height..] && col == t.col && line == t.line
    }

    /** Fill the visible part of pixel row y with the background. */
    method ClearRow(y: nat)
      requires Sized() && y < setup.height
      modifies framebuffer
      ensures Rows() == old(Rows())[y := BlankPixels(setup.width, colors.bg)]
    {
      hide Setup.Start, Font.Valid, Setup.Columns, Setup.Lines, Splice, RowsOf;
      ghost var was := framebuffer[..];
      RowsSpliced(was, setup, y, 0, BlankPixels(setup.width, colors.bg));
      var row := setup.Start(y);
      var j := 0;
      SpliceNothing(was, row);
      SpliceAll(Rows()[y], BlankPixels(setup.width, colors.bg));
      while j < setup.width
        invariant 0 <= j <= setup.width
        invariant framebuffer[..] == Splice(was, row, BlankPixels(j, colors.bg))
      {
        SpliceTwice(was, row, BlankPixels(j, colors.bg), PixelBytes(colors.bg));
        StorePixel(row + 3 * j, colors.bg);
        j := j + 1;
      }
    }

    method ShiftBytes(from: nat, n: nat)
      requires from + n == framebuffer.Length
      modifies framebuffer
      ensures framebuffer[..n] == old(framebuffer[from..])
    {
      CString.Memmove(framebuffer, 0, from, n);
      assert framebuffer[..n] == framebuffer[0..0 + n];
    }

    /** The pixel rows move up by the height of a line of text. */
    method MoveUp()
      requires Sized()
      modifies framebuffer
      ensures Rows()[..setup.height - setup.font.height] == old(Rows())[setup.font.height..]
    {
      var s, step := setup, setup.font.height;
      assert step <= s.height && 3 * s.width <= s.pitch;
      ghost var was := framebuffer[..];
      hide Setup.Start, Setup.Valid, RowsOf, Uniform;
      StartSum(s, step, s.height - step);
      ShiftBytes(s.Start(step), s.Start(s.height - step));
      RowsMoved(was, framebuffer[..], s, step);
    }

    method ScrollUp()
      requires Sized()
      modifies framebuffer
      ensures Rows() == old(Rows())[setup.font.height..] + BlankRows(setup.font.height, setup.width, colors.bg)
    {
      var step := setup.font.height;
      assert step <= setup.height;
      hide RowsOf, Setup.Valid, Setup.Columns, Setup.Lines, Setup.Start, BlankPixels, Rows, Uniform;
      ghost var kept := Rows()[step..];
      MoveUp();
      var i := setup.height - step;
      assert Rows()[..i] == kept;
      while i < setup.height
        invariant setup.height - step <= i <= setup.height
        invariant Rows()[..i] == kept + BlankRows(i - (setup.height - step), setup.width, colors.bg)
      {
        ghost var before := Rows();
        ClearRow(i);
        assert Rows()[..i + 1] == before[..i] + [BlankPixels(setup.width, colors.bg)];
        i := i + 1;
      }
      assert Rows()[..i] == Rows();
    }

    // ----- printing

    method PutChar(c: Byte, ghost t: Canvas)
      requires Shows(t) && Cached()
      modifies this`col, this`line, framebuffer
      ensures Shows(Put(t, setup, c, colors)) && Cached()
    {
      assert t.Valid(setup);
      hide Drawn, NextLine, RowsOf, Rows, RowCached, Setup.Columns, Setup.Lines, Setup.Start, Setup.Valid;
      if c == NEWLINE {
        NewLine(t);
      } else if c == RETURN {
        col := 0;
      } else {
        DrawCursor(c, t);
        ghost var drawn := Canvas(Drawn(t, setup, c, colors), t.col, t.line);
        if col + 1 >= setup.Columns() {
          NewLine(drawn);
        } else {
          col := col + 1;
        }
      }
    }

    method NewLine(ghost t: Canvas)
      requires Shows(t)
      modifies this`col, this`line, framebuffer
      ensures Shows(NextLine(t, setup, colors.bg))
    {
      col := 0;
      if line < setup.Lines() - 1 {
        line := line + 1;
      } else {
        ScrollUp();
        ghost var longer := t.rows + BlankRows(setup.font.height, setup.width, colors.bg);
        assert Rows() == longer[|longer| - setup.height..];
        line := setup.Lines() - 1;
      }
    }

    /** Draw a character under the cursor. */
    method DrawCursor(c: Byte, ghost t: Canvas)
      requires Shows(t) && Cached()
      modifies framebuffer
      ensures Shows(Canvas(Drawn(t, setup, c, colors), t.col, t.line))
    {
      CellOnScreen(t, setup);
      var x, y := col * setup.font.width, line * setup.font.height;
      ghost var f, top := setup.font, |t.rows| - setup.height;
      DrawChar(c, x, y);
      if f.Glyph(c) != NONE {
        WindowByPixels(t.rows, top, x, y, f, f.Glyph(c), f.height, colors, setup.width);
      }
    }
  }

  /** Drawing in the lower part of an image is drawing in the image, seen through that part. */
  lemma WindowByPixels(rows: Image, top: nat, x: nat, y: nat, f: Font, glyph: nat, i: nat, colors: Colors, width: nat)
    requires top <= |rows| && Uniform(rows, width) && Uniform(rows[top..], width)
    requires f.Valid() && glyph < f.count && i <= f.height
    requires x + f.width <= width && top + y + i <= |rows|
    ensures ByPixels(rows, x, top + y, f, glyph, i, colors, width)[top..] ==
      ByPixels(rows[top..], x, y, f, glyph, i, colors, width)
  {
    hide Splice, GlyphBytes, ByPixels, Font.Valid;
    GlyphByPixels(rows, x, top + y, f, glyph, i, colors, width);
    GlyphByPixels(rows[top..], x, y, f, glyph, i, colors, width);
  }

  lemma RowsMoved(was: seq<Byte>, now: seq<Byte>, s: Setup, step: nat)
    requires s.Valid() && step <= s.height
      && |was| == |now| == s.Start(s.height) == s.Start(step) + s.Start(s.height - step)
    requires now[..s.Start(s.height - step)] == was[s.Start(step)..]
    ensures RowsOf(now, s)[..s.height - step] == RowsOf(was, s)[step..]
  {
    forall y | 0 <= y < s.height - step ensures RowsOf(now, s)[y] == RowsOf(was, s)[y + step] {
      RowMoved(was, now, s, step, y);
    }
  }

  lemma RowMoved(was: seq<Byte>, now: seq<Byte>, s: Setup, step: nat, y: nat)
    requires s.Valid() && step <= s.height && y < s.height - step
    requires |was| == |now| == s.Start(s.height) == s.Start(step) + s.Start(s.height - step)
    requires now[..s.Start(s.height - step)] == was[s.Start(step)..]
    ensures RowsOf(now, s)[y] == RowsOf(was, s)[y + step]
  {
    hide Setup.Start;
    StartBelow(s, y, s.height);
    StartBelow(s, y, s.height - step);
    StartSum(s, step, y);
    SliceOfPrefix(was, now, s.Start(step), s.Start(s.height - step), s.Start(y), 3 * s.width);
  }

  lemma SliceOfPrefix(was: seq<Byte>, now: seq<Byte>, from: nat, n: nat, at: nat, k: nat)
    requires at + k <= n <= |now| && from + n == |was| && now[..n] == was[from..]
    ensures now[at..at + k] == was[from + at..from + at + k]
  {
    assert now[at..at + k] == now[..n][at..at + k];
    assert was[from + at..from + at + k] == was[from..][at..at + k];
  }
}
