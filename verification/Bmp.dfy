/** Windows bitmaps: 24 or 32 bits per pixel, rows padded to four bytes, stored bottom-up or top-down. */
module Bmp {
  import opened Machine
  import opened Arith

  datatype Pixel = Pixel(blue: Byte, green: Byte, red: Byte, alpha: Byte)

  /** A picture as its rows from top to bottom. */
  type Picture = seq<seq<Pixel>>

  datatype Status = Decoded | InvalidSignature | InvalidHeader | UnsupportedBpp | BufferTooSmall

  /** The fields of the two headers that the decoder uses. */
  datatype Header =
    Header(offset: Word, headerSize: Word, width: int, height: int, bpp: int, compression: Word, imageSize: Word)

  function Signed(w: Word): int {
    if w < 0x8000_0000 then w else w - 0x1_0000_0000
  }

  function Parse(b: seq<Byte>): Header
    requires 54 <= |b|
  {
    Header(U32(b, 10), U32(b, 14), Signed(U32(b, 18)), Signed(U32(b, 22)), U16(b, 28), U32(b, 30), U32(b, 34))
  }

  /** The verdict on a buffer of `size` bytes at the start of b. */
  function Verdict(b: seq<Byte>, size: Word): Status
    requires size <= |b|
  {
    if size < 54 then BufferTooSmall
    else if U16(b, 0) != 0x4D42 then InvalidSignature
    else
      var h := Parse(b);
      if h.headerSize < 40 || h.width <= 0 || h.height == 0 then InvalidHeader
      else if h.bpp != 24 && h.bpp != 32 then UnsupportedBpp
      else if h.compression != 0 then InvalidHeader
      else if size < Wrap32(h.offset + h.imageSize) then BufferTooSmall
      else Decoded
  }

  // ----- where the pixels are

  /** What every accepted header satisfies. */
  predicate Usable(h: Header) {
    h.width > 0 && h.height != 0 && (h.bpp == 24 || h.bpp == 32)
  }

  function Rows(height: int): nat {
    if height > 0 then height else -height
  }

  /** The bytes of n pixels. */
  function Bytes(bpp: int, n: nat): nat {
    if bpp == 32 then 4 * n else 3 * n
  }

  function PaddedRow(bpp: int, width: nat): (p: nat)
    ensures p % 4 == 0 && Bytes(bpp, width) <= p < Bytes(bpp, width) + 4 && p <= 4 * width
  {
    var row := Bytes(bpp, width);
    RoundedUp(row, width);
    row + (4 - row % 4) % 4
  }

  lemma RoundedUp(row: nat, width: nat)
    requires row <= 4 * width
    ensures var p := row + (4 - row % 4) % 4; p % 4 == 0 && row <= p < row + 4 && p <= 4 * width
  {
    var q, r := row / 4, row % 4;
    assert row == 4 * q + r && row + (4 - r) % 4 == 4 * (if r == 0 then q else q + 1);
  }

  function SourceRow(height: int, y: nat): (r: nat)
    requires y < Rows(height)
    ensures r < Rows(height)
  {
    if height > 0 then height - 1 - y else y
  }

  function RowStart(h: Header, y: nat): nat
    requires Usable(h) && y < Rows(h.height)
  {
    h.offset + SourceRow(h.height, y) * PaddedRow(h.bpp, h.width)
  }

  /** One past the last byte of the last stored row. */
  function ReadEnd(h: Header): nat
    requires Usable(h)
  {
    h.offset + (Rows(h.height) - 1) * PaddedRow(h.bpp, h.width) + Bytes(h.bpp, h.width)
  }

  lemma RowInside(h: Header, y: nat)
    requires Usable(h) && y < Rows(h.height)
    ensures RowStart(h, y) + Bytes(h.bpp, h.width) <= ReadEnd(h)
  {
    Monotone(SourceRow(h.height, y), Rows(h.height) - 1, PaddedRow(h.bpp, h.width));
  }

  lemma Monotone(a: nat, b: nat, size: nat)
    requires a <= b
    ensures a * size <= b * size
  {
    assert b * size == a * size + (b - a) * size;
  }

  /** Where the decoder looks for row y: every product is one of 32-bit numbers. */
  function SourceStart(h: Header, y: nat): nat
    requires Usable(h) && y < Rows(h.height)
  {
    var rowSize := Wrap32(Bytes(h.bpp, h.width));
    var padded := Wrap32(rowSize + (4 - rowSize % 4) % 4);
    h.offset + Wrap32(SourceRow(h.height, y) * padded)
  }

  /** Where it looks for pixel x of the row. */
  function SourcePixel(h: Header, y: nat, x: nat): nat
    requires Usable(h) && y < Rows(h.height)
  {
    SourceStart(h, y) + Wrap32(Bytes(h.bpp, x))
  }

  /** When the stored rows end below 4 GiB, no product of the decoder wraps. */
  lemma NoWrap(h: Header, y: nat)
    requires Usable(h) && y < Rows(h.height) && ReadEnd(h) - h.offset < 0x1_0000_0000
    ensures SourceStart(h, y) == RowStart(h, y)
    ensures forall x: nat :: x < h.width ==> SourcePixel(h, y, x) == RowStart(h, y) + Bytes(h.bpp, x)
  {
    var p, n := PaddedRow(h.bpp, h.width), Rows(h.height) - 1;
    Positive(n, p);
    ProductFits(SourceRow(h.height, y), n, p);
    PixelsFit(h.bpp, h.width);
    assert SourceStart(h, y) == RowStart(h, y);
    hide PaddedRow, SourceRow, SourceStart, RowStart, ReadEnd, Bytes, Wrap32;
  }

  lemma PixelsFit(bpp: int, width: nat)
    requires Bytes(bpp, width) < 0x1_0000_0000
    ensures forall x: nat :: x <= width ==> Wrap32(Bytes(bpp, x)) == Bytes(bpp, x)
  {
  }

  lemma ProductFits(r: nat, n: nat, p: nat)
    requires r <= n && n * p < 0x1_0000_0000
    ensures Wrap32(r * Wrap32(p)) == r * p
  {
    Monotone(r, n, p);
    Positive(r, p);
    if r > 0 {
      Monotone(1, n, p);
      assert Wrap32(p) == p;
    } else {
      assert r * Wrap32(p) == 0;
    }
  }

  /** Every byte the decoder takes lies before `size`. */
  ghost predicate ReadsInside(h: Header, size: nat)
    requires Usable(h)
  {
    forall y: nat, x: nat :: y < Rows(h.height) && x < h.width ==> SourcePixel(h, y, x) + Bytes(h.bpp, 1) <= size
  }

  /**
  The decoder stays inside when the last stored row ends there; and it does not otherwise, unless the pixel data is so
  large that its products wrap.
  */
  lemma ReadsInsideIff(h: Header, size: Word)
    requires Usable(h)
    ensures ReadEnd(h) <= size ==> ReadsInside(h, size)
    ensures ReadEnd(h) - h.offset < 0x1_0000_0000 ==> (ReadsInside(h, size) <==> ReadEnd(h) <= size)
  {
    hide RowStart, PaddedRow, SourceStart, SourcePixel;
    if ReadEnd(h) - h.offset < 0x1_0000_0000 && ReadsInside(h, size) {
      var last := if h.height > 0 then 0 else Rows(h.height) - 1;
      LastRow(h, last);
      NoWrap(h, last);
      assert SourcePixel(h, last, h.width - 1) + Bytes(h.bpp, 1) <= size;
    }
    if ReadEnd(h) <= size {
      forall y: nat, x: nat | y < Rows(h.height) && x < h.width
        ensures SourcePixel(h, y, x) + Bytes(h.bpp, 1) <= size
      {
        NoWrap(h, y);
        RowInside(h, y);
      }
    }
  }

  lemma LastRow(h: Header, y: nat)
    requires Usable(h) && y < Rows(h.height) && SourceRow(h.height, y) == Rows(h.height) - 1
    ensures RowStart(h, y) + Bytes(h.bpp, h.width) == ReadEnd(h)
  {
  }

  /** An image size that covers all padded rows, with no wrap in the check, keeps all reads in the buffer. */
  lemma CoveredReadsInside(b: seq<Byte>, size: Word)
    requires size <= |b| && Verdict(b, size) == Decoded
    requires var h := Parse(b);
      h.offset + h.imageSize < 0x1_0000_0000 && h.imageSize >= Rows(h.height) * PaddedRow(h.bpp, h.width)
    ensures ReadsInside(Parse(b), size)
  {
    hide U16, U32, RowStart, PaddedRow, SourceRow, ReadsInside;
    var h := Parse(b);
    EndCovered(h);
    ReadsInsideIff(h, size);
  }

  lemma EndCovered(h: Header)
    requires Usable(h)
    ensures ReadEnd(h) <= h.offset + Rows(h.height) * PaddedRow(h.bpp, h.width)
  {
    var p := PaddedRow(h.bpp, h.width);
    assert Rows(h.height) * p == (Rows(h.height) - 1) * p + p;
  }

  // ----- decoding

  function PixelAt(b: seq<Byte>, at: nat, bpp: int): Pixel
    requires at + Bytes(bpp, 1) <= |b|
  {
    Pixel(b[at], b[at + 1], b[at + 2], if bpp == 32 then b[at + 3] else 0xFF)
  }

  function RowOf(b: seq<Byte>, start: nat, bpp: int, width: nat): (r: seq<Pixel>)
    requires start + Bytes(bpp, width) <= |b|
    ensures |r| == width
  {
    seq(width, x requires 0 <= x < width => PixelAt(b, start + Bytes(bpp, x), bpp))
  }

  function PictureOf(b: seq<Byte>, h: Header): (p: Picture)
    requires Usable(h) && ReadEnd(h) <= |b|
    ensures |p| == Rows(h.height) && forall y :: 0 <= y < |p| ==> |p[y]| == h.width
  {
    seq(Rows(h.height), y requires 0 <= y < Rows(h.height) =>
      RowInside(h, y);
      RowOf(b, RowStart(h, y), h.bpp, h.width))
  }

  /** The rows one after the other: the pixel (x, y) is at y * width + x. */
  function Raster(p: Picture): seq<Pixel> {
    if p == [] then [] else Raster(p[..|p| - 1]) + p[|p| - 1]
  }

  lemma RasterEmpty()
    ensures Raster([]) == []
  {
  }

  lemma RasterStep(p: Picture, y: nat)
    requires y < |p|
    ensures Raster(p[..y + 1]) == Raster(p[..y]) + p[y]
  {
    assert p[..y + 1][..y] == p[..y];
  }

  lemma {:induction false} RasterAt(p: Picture, width: nat, y: nat, x: nat)
    requires (forall i :: 0 <= i < |p| ==> |p[i]| == width) && y < |p| && x < width
    ensures |Raster(p)| == |p| * width && y * width + x < |Raster(p)| && Raster(p)[y * width + x] == p[y][x]
  {
    var front := p[..|p| - 1];
    RasterLength(front, width);
    RasterLength(p, width);
    if y < |front| {
      RasterAt(front, width, y, x);
    }
  }

  lemma {:induction false} RasterLength(p: Picture, width: nat)
    requires forall i :: 0 <= i < |p| ==> |p[i]| == width
    ensures |Raster(p)| == |p| * width
  {
    if p != [] {
      var n := |p| - 1;
      RasterLength(p[..n], width);
      assert |p| * width == n * width + width;
    }
  }

  /** The number of pixels. */
  function Area(h: Header): nat
    requires Usable(h)
  {
    Positive(Rows(h.height), h.width);
    Rows(h.height) * h.width
  }

  /**
  The decoder; `size` bytes of b belong to the file, and the caller provides an output large enough for the
  picture.
  */
  method ReadBmp(b: seq<Byte>, size: Word, output: array<Pixel>) returns (status: Status, width: Word, height: Word)
    requires size <= |b| < 0x1_0000_0000 && output.Length < 0x4000_0000
    requires Verdict(b, size) == Decoded ==>
      ReadEnd(Parse(b)) <= |b| && Area(Parse(b)) <= output.Length
    modifies output
    ensures status == Verdict(b, size)
    ensures status != Decoded ==> output[..] == old(output[..])
    ensures status == Decoded ==>
      var h := Parse(b);
      && width == h.width && height == Rows(h.height)
      && output[..Area(h)] == Raster(PictureOf(b, h))
      && output[Area(h)..] == old(output[Area(h)..])
  {
    hide U16, U32, Raster, PictureOf, ReadEnd, Area, Parse;
    if size < 54 {
      return BufferTooSmall, 0, 0;
    }
    if U16(b, 0) != 0x4D42 {
      return InvalidSignature, 0, 0;
    }
    var h := Parse(b);
    if h.headerSize < 40 || h.width <= 0 || h.height == 0 {
      return InvalidHeader, 0, 0;
    }
    if h.bpp != 24 && h.bpp != 32 {
      return UnsupportedBpp, 0, 0;
    }
    if h.compression != 0 {
      return InvalidHeader, 0, 0;
    }
    if size < Wrap32(h.offset + h.imageSize) {
      return BufferTooSmall, 0, 0;
    }
    SidesBelow(h, output.Length);
    width, height := h.width, Rows(h.height);
    DecodeRows(b, h, output);
    status := Decoded;
  }

  lemma SidesBelow(h: Header, n: nat)
    requires Usable(h) && Area(h) <= n
    ensures Rows(h.height) <= n && h.width <= n
  {
    Monotone(1, Rows(h.height), h.width);
    Monotone(1, h.width, Rows(h.height));
  }

  method DecodeRows(b: seq<Byte>, h: Header, output: array<Pixel>)
    requires Usable(h) && ReadEnd(h) <= |b| < 0x1_0000_0000
    requires Area(h) <= output.Length < 0x4000_0000
    modifies output
    ensures output[..Area(h)] == Raster(PictureOf(b, h)) && output[Area(h)..] == old(output[Area(h)..])
  {
    var width, height := h.width, Rows(h.height);
    ghost var picture, n := PictureOf(b, h), Area(h);
    hide PictureOf, RowStart, ReadEnd, PaddedRow, SourceRow, Raster;
    RasterEmpty();
    var y := 0;
    assert picture[..0] == [];
    while y < height
      invariant 0 <= y <= height && y * width <= n
      invariant output[..y * width] == Raster(picture[..y])
      invariant output[n..] == old(output[n..])
    {
      Monotone(y + 1, height, width);
      assert (y + 1) * width == y * width + width;
      DecodeRow(b, h, y, output);
      RasterStep(picture, y);
      y := y + 1;
    }
    assert picture[..height] == picture;
  }

  /** One row; the index arithmetic is the 32-bit one of the source. */
  method DecodeRow(b: seq<Byte>, h: Header, y: nat, output: array<Pixel>)
    requires Usable(h) && ReadEnd(h) <= |b| < 0x1_0000_0000 && y < Rows(h.height)
    requires RowBase(h, y) + h.width <= output.Length < 0x4000_0000
    modifies output
    ensures output[..RowBase(h, y) + h.width] == old(output[..RowBase(h, y)]) + PictureOf(b, h)[y]
    ensures output[RowBase(h, y) + h.width..] == old(output[RowBase(h, y) + h.width..])
  {
    hide PictureOf, RowOf, RowStart, SourceStart, SourcePixel, ReadEnd, PaddedRow, SourceRow, RowBase, Wrap32;
    var row := FindRow(h, y);
    SourceRowIs(b, h, y);
    BaseFits(h, y);
    FillRow(b, row, h.bpp, h.width, output, Wrap32(y * h.width));
  }

  lemma BaseFits(h: Header, y: nat)
    requires Usable(h) && RowBase(h, y) < 0x1_0000_0000
    ensures Wrap32(y * h.width) == RowBase(h, y)
  {
  }

  lemma SourceRowIs(b: seq<Byte>, h: Header, y: nat)
    requires Usable(h) && ReadEnd(h) <= |b| < 0x1_0000_0000 && y < Rows(h.height)
    ensures SourceStart(h, y) + Bytes(h.bpp, h.width) <= |b|
    ensures PictureOf(b, h)[y] == RowOf(b, SourceStart(h, y), h.bpp, h.width)
  {
    hide RowOf, RowStart, SourceStart, SourcePixel, ReadEnd, PaddedRow, SourceRow;
    NoWrap(h, y);
    RowIs(b, h, y);
  }

  /** The index of the first pixel of row y in the output. */
  function RowBase(h: Header, y: nat): nat
    requires Usable(h)
  {
    Positive(y, h.width);
    y * h.width
  }

  method FindRow(h: Header, y: nat) returns (row: nat)
    requires Usable(h) && y < Rows(h.height)
    ensures row == SourceStart(h, y)
  {
    var rowSize: int := Wrap32(Bytes(h.bpp, h.width));
    var padded := Wrap32(rowSize + (4 - rowSize % 4) % 4);
    row := h.offset + Wrap32(SourceRow(h.height, y) * padded);
  }

  lemma RowIs(b: seq<Byte>, h: Header, y: nat)
    requires Usable(h) && ReadEnd(h) <= |b| && y < Rows(h.height)
    ensures RowStart(h, y) + Bytes(h.bpp, h.width) <= |b|
    ensures PictureOf(b, h)[y] == RowOf(b, RowStart(h, y), h.bpp, h.width)
  {
    RowInside(h, y);
  }

  method FillRow(b: seq<Byte>, row: nat, bpp: int, width: nat, output: array<Pixel>, base: Word)
    requires row + Bytes(bpp, width) <= |b| < 0x1_0000_0000 && base + width <= output.Length < 0x4000_0000
    modifies output
    ensures output[..base + width] == old(output[..base]) + RowOf(b, row, bpp, width)
    ensures output[base + width..] == old(output[base + width..])
  {
    ghost var pixels := RowOf(b, row, bpp, width);
    PixelsFit(bpp, width);
    assert forall x :: 0 <= x < width ==> pixels[x] == PixelAt(b, row + Bytes(bpp, x), bpp);
    hide PixelAt, RowOf;
    var x := 0;
    while x < width
      invariant 0 <= x <= width
      invariant output[..base + x] == old(output[..base]) + pixels[..x]
      invariant output[base + width..] == old(output[base + width..])
    {
      output[Wrap32(base + x)] := PixelAt(b, row + Wrap32(Bytes(bpp, x)), bpp);
      x := x + 1;
      assert output[..base + x] == output[..base + x - 1] + [pixels[x - 1]];
    }
  }

  lemma Positive(a: nat, b: nat)
    ensures a * b >= 0
  {
  }

  // ----- encoding, for the round trip

  ghost predicate Encodable(p: Picture, bpp: int) {
    && p != [] && p[0] != [] && (bpp == 24 || bpp == 32)
    && (forall i :: 0 <= i < |p| ==> |p[i]| == |p[0]|)
    && 54 + |p| * PaddedRow(bpp, |p[0]|) < 0x1_0000_0000
  }

  function PixelBytes(p: Pixel, bpp: int): (r: seq<Byte>)
    ensures |r| == Bytes(bpp, 1)
  {
    [p.blue, p.green, p.red] + if bpp == 32 then [p.alpha] else []
  }

  function RowBytes(row: seq<Pixel>, bpp: int): (r: seq<Byte>)
    ensures |r| == Bytes(bpp, |row|)
  {
    if row == [] then [] else RowBytes(row[..|row| - 1], bpp) + PixelBytes(row[|row| - 1], bpp)
  }

  /** A row with its padding. */
  function Line(row: seq<Pixel>, bpp: int): (r: seq<Byte>)
    ensures |r| == PaddedRow(bpp, |row|)
  {
    RowBytes(row, bpp) + seq(PaddedRow(bpp, |row|) - Bytes(bpp, |row|), _ => 0)
  }

  function Lines(rows: Picture, bpp: int): seq<Byte> {
    if rows == [] then [] else Lines(rows[..|rows| - 1], bpp) + Line(rows[|rows| - 1], bpp)
  }

  /** The rows in the order of the file. */
  function Stored(p: Picture, topDown: bool): (r: Picture)
    ensures |r| == |p|
  {
    if topDown then p else seq(|p|, i requires 0 <= i < |p| => p[|p| - 1 - i])
  }

  /** The header fields that the decoder reads past: file size, two reserved words, planes, resolution and palette. */
  datatype Unread = Unread(fileSize: Word, reserved: Word, planes: int, tail: seq<Byte>) {
    predicate Valid() { 0 <= planes < 65536 && |tail| == 16 }
  }

  predicate Storable(h: Header) {
    -0x8000_0000 <= h.width < 0x8000_0000 && -0x8000_0000 <= h.height < 0x8000_0000 && 0 <= h.bpp < 65536
  }

  /** The file header, which begins with two letters, and the info header. */
  function HeaderBytes(first: Byte, second: Byte, h: Header, u: Unread): (r: seq<Byte>)
    requires Storable(h) && u.Valid()
    ensures |r| == 54
  {
    [first, second] + Le32(u.fileSize) + Le32(u.reserved) + Le32(h.offset)
    + (Le32(h.headerSize) + Le32(Wrap32(h.width)) + Le32(Wrap32(h.height)) + Le16(u.planes) + Le16(h.bpp)
       + Le32(h.compression) + Le32(h.imageSize) + u.tail)
  }

  /** The headers of an uncompressed picture whose rows follow directly. */
  function Headers(width: int, height: int, bpp: int, imageSize: Word): (r: seq<Byte>)
    requires -0x8000_0000 <= width < 0x8000_0000 && -0x8000_0000 <= height < 0x8000_0000 && 0 <= bpp < 65536
    ensures |r| == 54
  {
    HeaderBytes(0x42, 0x4D, Header(54, 40, width, height, bpp, 0, imageSize),
                Unread(Wrap32(54 + imageSize), 0, 1, Fill(0, 16)))
  }

  /** The file for a picture, with its rows bottom-up (positive height) or top-down (negative height). */
  ghost function Encode(p: Picture, bpp: int, topDown: bool): (r: seq<Byte>)
    requires Encodable(p, bpp)
    ensures |r| == 54 + |p| * PaddedRow(bpp, |p[0]|)
  {
    SidesFit(|p|, |p[0]|, PaddedRow(bpp, |p[0]|));
    LinesLength(Stored(p, topDown), bpp, |p[0]|);
    var data := Lines(Stored(p, topDown), bpp);
    Headers(|p[0]|, if topDown then -|p| else |p|, bpp, |data|) + data
  }

  lemma {:induction false} LinesLength(rows: Picture, bpp: int, width: nat)
    requires forall i :: 0 <= i < |rows| ==> |rows[i]| == width
    ensures |Lines(rows, bpp)| == |rows| * PaddedRow(bpp, width)
  {
    hide PaddedRow;
    if rows != [] {
      var n := |rows| - 1;
      LinesLength(rows[..n], bpp, width);
      OneMore(n, PaddedRow(bpp, width));
    }
  }

  lemma {:induction false} LineAt(rows: Picture, bpp: int, width: nat, r: nat)
    requires (forall i :: 0 <= i < |rows| ==> |rows[i]| == width) && r < |rows|
    ensures var at := r * PaddedRow(bpp, width);
      at + Bytes(bpp, width) <= |Lines(rows, bpp)|
        && Lines(rows, bpp)[at..at + Bytes(bpp, width)] == RowBytes(rows[r], bpp)
  {
    hide PaddedRow, RowBytes;
    var n, p, k := |rows| - 1, PaddedRow(bpp, width), Bytes(bpp, width);
    LinesLength(rows[..n], bpp, width);
    Positive(r, p);
    if r < n {
      LineAt(rows[..n], bpp, width, r);
      InFirst(Lines(rows[..n], bpp), Line(rows[n], bpp), r * p, k);
    } else {
      InSecond(Lines(rows[..n], bpp), Line(rows[n], bpp), 0, k);
    }
  }

  // ----- the round trip

  /** What a row looks like after decoding: 24-bit files make every pixel opaque. */
  function Shown(row: seq<Pixel>, bpp: int): (r: seq<Pixel>)
    ensures |r| == |row|
  {
    seq(|row|, x requires 0 <= x < |row| => if bpp == 32 then row[x] else row[x].(alpha := 0xFF))
  }

  lemma {:induction false} RowComesBack(b: seq<Byte>, start: nat, bpp: int, row: seq<Pixel>)
    requires start + Bytes(bpp, |row|) <= |b| && b[start..start + Bytes(bpp, |row|)] == RowBytes(row, bpp)
    ensures RowOf(b, start, bpp, |row|) == Shown(row, bpp)
  {
    if row != [] {
      var n := |row| - 1;
      var at := start + Bytes(bpp, n);
      SplitAt(b, start, Bytes(bpp, n), Bytes(bpp, 1), RowBytes(row[..n], bpp), PixelBytes(row[n], bpp));
      RowComesBack(b, start, bpp, row[..n]);
      PixelComesBack(b, at, bpp, row[n]);
      assert RowOf(b, start, bpp, n + 1) == RowOf(b, start, bpp, n) + [PixelAt(b, at, bpp)];
      assert Shown(row, bpp) == Shown(row[..n], bpp) + [if bpp == 32 then row[n] else row[n].(alpha := 0xFF)];
    }
  }

  lemma SplitAt(b: seq<Byte>, start: nat, n: nat, k: nat, x: seq<Byte>, y: seq<Byte>)
    requires start + n + k <= |b| && |x| == n && |y| == k && b[start..start + n + k] == x + y
    ensures b[start..start + n] == x && b[start + n..start + n + k] == y
  {
    var s := b[start..start + n + k];
    assert b[start..start + n] == s[..n] && b[start + n..start + n + k] == s[n..];
  }

  lemma PixelComesBack(b: seq<Byte>, at: nat, bpp: int, p: Pixel)
    requires at + Bytes(bpp, 1) <= |b| && b[at..at + Bytes(bpp, 1)] == PixelBytes(p, bpp)
    ensures PixelAt(b, at, bpp) == if bpp == 32 then p else p.(alpha := 0xFF)
  {
    var s := b[at..at + Bytes(bpp, 1)];
    assert s[0] == b[at] && s[1] == b[at + 1] && s[2] == b[at + 2] && (bpp == 32 ==> s[3] == b[at + 3]);
  }

  lemma FieldsInPlace(b: seq<Byte>, first: Byte, second: Byte, h: Header, u: Unread)
    requires Storable(h) && u.Valid() && HeaderBytes(first, second, h, u) <= b
    ensures b[0] == first && b[1] == second && b[10..14] == Le32(h.offset) && b[14..18] == Le32(h.headerSize)
    ensures b[18..22] == Le32(Wrap32(h.width)) && b[22..26] == Le32(Wrap32(h.height)) && b[28..30] == Le16(h.bpp)
    ensures b[30..34] == Le32(h.compression) && b[34..38] == Le32(h.imageSize)
  {
    var r := HeaderBytes(first, second, h, u);
    assert r == b[..54];
    SliceOfFront(b, 54, 10, 14);
    SliceOfFront(b, 54, 14, 18);
    SliceOfFront(b, 54, 18, 22);
    SliceOfFront(b, 54, 22, 26);
    SliceOfFront(b, 54, 28, 30);
    SliceOfFront(b, 54, 30, 34);
    SliceOfFront(b, 54, 34, 38);
  }

  lemma SliceOfFront(b: seq<Byte>, n: nat, from: nat, to: nat)
    requires from <= to <= n <= |b|
    ensures b[..n][from..to] == b[from..to]
  {
  }

  /** Written headers are parsed into the fields written. */
  lemma HeaderComesBack(b: seq<Byte>, first: Byte, second: Byte, h: Header, u: Unread)
    requires Storable(h) && u.Valid() && HeaderBytes(first, second, h, u) <= b
    ensures Parse(b) == h
  {
    hide HeaderBytes, Le16, Le32, U16, U32, Wrap32, Signed;
    FieldsInPlace(b, first, second, h, u);
    SignedWrap(h.width);
    SignedWrap(h.height);
    WordComesBack(b, 10, h.offset);
    WordComesBack(b, 14, h.headerSize);
    WordComesBack(b, 18, Wrap32(h.width));
    WordComesBack(b, 22, Wrap32(h.height));
    HalfComesBack(b, 28, h.bpp);
    WordComesBack(b, 30, h.compression);
    WordComesBack(b, 34, h.imageSize);
  }

  lemma SignedWrap(v: int)
    requires -0x8000_0000 <= v < 0x8000_0000
    ensures Signed(Wrap32(v)) == v
  {
  }

  /**
  What is said of every file with written headers: too small for them; no BM in front; a header size, side or
  compression that is not supported; another depth than 24 and 32; pixels behind the end; and acceptance in
  every other case.
  */
  lemma VerdictOnHeaders(b: seq<Byte>, size: Word, first: Byte, second: Byte, h: Header, u: Unread)
    requires Storable(h) && u.Valid() && HeaderBytes(first, second, h, u) <= b && size <= |b|
    ensures var signed := size >= 54 && first == 'B' as int && second == 'M' as int;
      var sides := signed && h.headerSize >= 40 && h.width > 0 && h.height != 0;
      var deep := sides && (h.bpp == 24 || h.bpp == 32);
      var plain := deep && h.compression == 0;
      var verdict := Verdict(b, size);
      && (verdict == Decoded <==> plain && (h.offset + h.imageSize) % 0x1_0000_0000 <= size)
      && (verdict == InvalidSignature <==> size >= 54 && !signed)
      && (verdict == InvalidHeader <==> (signed && !sides) || (deep && !plain))
      && (verdict == UnsupportedBpp <==> sides && !deep)
      && (verdict == BufferTooSmall <==>
          size < 54 || (plain && size < (h.offset + h.imageSize) % 0x1_0000_0000))
  {
    hide HeaderBytes, Parse, Le16, Le32;
    HeaderComesBack(b, first, second, h, u);
    FieldsInPlace(b, first, second, h, u);
    assert U16(b, 0) == first + 256 * second;
  }

  lemma HeadersComeBack(width: int, height: int, bpp: int, data: seq<Byte>)
    requires -0x8000_0000 <= width < 0x8000_0000 && -0x8000_0000 <= height < 0x8000_0000
    requires 0 <= bpp < 65536 && |data| < 0x1_0000_0000
    ensures var b := Headers(width, height, bpp, |data|) + data;
      U16(b, 0) == 0x4D42 && Parse(b) == Header(54, 40, width, height, bpp, 0, |data|)
  {
    hide HeaderBytes, Parse;
    var b := Headers(width, height, bpp, |data|) + data;
    var h := Header(54, 40, width, height, bpp, 0, |data|);
    var u := Unread(Wrap32(54 + |data|), 0, 1, Fill(0, 16));
    HeaderComesBack(b, 0x42, 0x4D, h, u);
    FieldsInPlace(b, 0x42, 0x4D, h, u);
  }

  /** Either encoding of a picture is accepted and decodes to it, reading nothing outside the file. */
  lemma PictureComesBack(p: Picture, bpp: int, topDown: bool)
    requires Encodable(p, bpp)
    ensures var b := Encode(p, bpp, topDown);
      && Verdict(b, |b|) == Decoded
      && ReadsInside(Parse(b), |b|) && ReadEnd(Parse(b)) <= |b|
      && PictureOf(b, Parse(b)) == seq(|p|, y requires 0 <= y < |p| => Shown(p[y], bpp))
  {
    hide U16, U32, Headers, Lines, Stored, PaddedRow;
    var b := Encode(p, bpp, topDown);
    EncodedHeader(p, bpp, topDown);
    var h := Parse(b);
    OneMore(|p| - 1, PaddedRow(bpp, |p[0]|));
    assert ReadEnd(h) <= |b|;
    ReadsInsideIff(h, |b|);
    forall y | 0 <= y < |p| ensures PictureOf(b, h)[y] == Shown(p[y], bpp) {
      RowIs(b, h, y);
      RowStored(p, bpp, topDown, y);
      RowComesBack(b, RowStart(h, y), bpp, p[y]);
    }
  }

  lemma EncodedHeader(p: Picture, bpp: int, topDown: bool)
    requires Encodable(p, bpp)
    ensures var b := Encode(p, bpp, topDown);
      U16(b, 0) == 0x4D42 && Parse(b) == Header(54, 40, |p[0]|, if topDown then -|p| else |p|, bpp, 0, |b| - 54)
  {
    hide U16, U32, Headers, Lines, Parse;
    SidesFit(|p|, |p[0]|, PaddedRow(bpp, |p[0]|));
    LinesLength(Stored(p, topDown), bpp, |p[0]|);
    HeadersComeBack(|p[0]|, if topDown then -|p| else |p|, bpp, Lines(Stored(p, topDown), bpp));
  }

  /**
  The size check believes the image size of the header: with 0 there, headers alone are accepted and pixels
  are read behind them.
  */
  lemma ZeroImageSize()
    ensures var b := Headers(1, 1, 24, 0);
      Verdict(b, 54) == Decoded && !ReadsInside(Parse(b), 54)
  {
    hide U16, U32, Headers, Parse;
    var b := Headers(1, 1, 24, 0);
    assert b + [] == b;
    HeadersComeBack(1, 1, 24, []);
    ReadsInsideIff(Parse(b), 54);
  }

  lemma SidesFit(height: nat, width: nat, padded: nat)
    requires width > 0 && height > 0 && 3 * width <= padded && 54 + height * padded < 0x1_0000_0000
    ensures height < 0x8000_0000 && width < 0x8000_0000
  {
    Monotone(1, height, padded);
    OneMore(2, height);
    assert height * padded == padded * height;
    Monotone(3, padded, height);
  }

  /** The stored row that the decoder reads for row y is row y. */
  lemma RowStored(p: Picture, bpp: int, topDown: bool, y: nat)
    requires Encodable(p, bpp) && y < |p|
    requires var h := Parse(Encode(p, bpp, topDown));
      h.offset == 54 && h.width == |p[0]| && h.height == (if topDown then -|p| else |p|) && h.bpp == bpp
    ensures var b, start := Encode(p, bpp, topDown), RowStart(Parse(Encode(p, bpp, topDown)), y);
      start + Bytes(bpp, |p[y]|) <= |b| && b[start..start + Bytes(bpp, |p[y]|)] == RowBytes(p[y], bpp)
  {
    var height := if topDown then -|p| else |p|;
    var data := Lines(Stored(p, topDown), bpp);
    RowInLines(p, bpp, topDown, y);
    hide U16, U32, Headers, Lines, PaddedRow, Parse, SourceRow, RowBytes, Stored;
    var at := SourceRow(height, y) * PaddedRow(bpp, |p[0]|);
    InSecond(Headers(|p[0]|, height, bpp, |data|), data, at, Bytes(bpp, |p[0]|));
  }

  lemma RowInLines(p: Picture, bpp: int, topDown: bool, y: nat)
    requires Encodable(p, bpp) && y < |p|
    ensures var data := Lines(Stored(p, topDown), bpp);
      var at := SourceRow(if topDown then -|p| else |p|, y) * PaddedRow(bpp, |p[0]|);
      && |data| == |p| * PaddedRow(bpp, |p[0]|) && 0 <= at
      && at + Bytes(bpp, |p[y]|) <= |data| && data[at..at + Bytes(bpp, |p[y]|)] == RowBytes(p[y], bpp)
  {
    hide Lines, PaddedRow, RowBytes;
    var rows := Stored(p, topDown);
    var r := SourceRow(if topDown then -|p| else |p|, y);
    assert rows[r] == p[y];
    Positive(r, PaddedRow(bpp, |p[0]|));
    LinesLength(rows, bpp, |p[0]|);
    LineAt(rows, bpp, |p[0]|, r);
  }

  lemma InFirst(a: seq<Byte>, b: seq<Byte>, at: nat, n: nat)
    requires at + n <= |a|
    ensures (a + b)[at..at + n] == a[at..at + n]
  {
  }

  lemma InSecond(a: seq<Byte>, b: seq<Byte>, at: nat, n: nat)
    requires at + n <= |b|
    ensures (a + b)[|a| + at..|a| + at + n] == b[at..at + n]
  {
  }
}
