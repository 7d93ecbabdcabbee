/**
 * Pixel-block writers over a flat destination buffer of 4 bytes per pixel.
 *
 * Pixel (X, Y) of a destination `destWidth` pixels wide starts at byte
 * (Y * destWidth + X) * 4. A block of `w` by `h` source pixels drawn at
 * (destOffsetX, destOffsetY) puts its pixel (x, y) at destination pixel
 * (destOffsetY + y) * destWidth + destOffsetX + x; nothing stops that from
 * running past the end of a row into the next one.
 */
module ImageExtensions {

  type byte = b: int | 0 <= b < 256

  /** A decoded image: R, G, B, A bytes per pixel, row after row. */
  datatype Image = Image(width: nat, height: nat, pixels: seq<byte>)

  datatype Rgba = Rgba(r: byte, g: byte, b: byte, a: byte)

  predicate ValidImage(img: Image) {
    |img.pixels| == img.width * img.height * 4
  }

  // --- Arithmetic facts -------------------------------------------------------

  lemma MulMonotone(a: nat, b: nat, c: nat)
    requires a <= b
    ensures a * c <= b * c
  {
  }

  /** Euclidean division is unique: n = a*d + b with 0 <= b < d fixes n/d and n%d. */
  lemma DivModUnique(n: int, d: int, a: int, b: int)
    requires d > 0 && 0 <= b < d && n == a * d + b
    ensures n / d == a && n % d == b
  {
    var a', b' := n / d, n % d;
    assert n == a' * d + b';
    var t := a' - a;
    assert t * d == b - b' by {
      assert t * d == a' * d - a * d;
    }
    if t >= 1 {
      MulAtLeast(t, d);
    } else if t <= -1 {
      MulAtLeast(-t, d);
    }
  }

  lemma MulAtLeast(t: int, d: int)
    requires t >= 1 && d > 0
    ensures t * d >= d
  {
    MulMonotone(1, t, d);
  }

  /** Row-major offsets of a `w` by `h` grid stay below w*h. */
  lemma RowMajorBound(x: nat, y: nat, w: nat, h: nat)
    requires x < w && y < h
    ensures y * w + x < h * w
  {
    MulMonotone(y + 1, h, w);
  }

  /** The pixel of an image at row-major position (x, y). */
  function PixelAt(img: Image, x: nat, y: nat): Rgba
    requires ValidImage(img) && x < img.width && y < img.height
  {
    RowMajorBound(x, y, img.width, img.height);
    var o := (y * img.width + x) * 4;
    Rgba(img.pixels[o], img.pixels[o + 1], img.pixels[o + 2], img.pixels[o + 3])
  }

  // --- Where a block lands ------------------------------------------------------

  /** The destination pixel that source pixel (x, y) of a block at (ox, oy) lands on. */
  function PixelIndex(ox: nat, oy: nat, destWidth: nat, x: nat, y: nat): nat {
    (oy + y) * destWidth + ox + x
  }

  /** How far destination pixel p lies past the block's first pixel. */
  function Rel(ox: nat, oy: nat, destWidth: nat, p: int): int {
    p - (oy * destWidth + ox)
  }

  /**
   * Destination pixel p is written by a `w` by `h` block at (ox, oy): p lies
   * q pixels past the block's first pixel with q = y * destWidth + x for
   * some x < w, y < h. (A block no wider than the destination never writes
   * one pixel twice, so x and y are q's remainder and quotient.)
   */
  predicate InBlock(ox: nat, oy: nat, destWidth: nat, w: nat, h: nat, p: int) {
    destWidth > 0 &&
    var q := Rel(ox, oy, destWidth, p);
    0 <= q && q / destWidth < h && q % destWidth < w
  }

  /** Block pixel (x, y) sits at row y, column x of the block's offsets. */
  lemma BlockCoordinates(ox: nat, oy: nat, destWidth: nat, x: nat, y: nat)
    requires x < destWidth
    ensures Rel(ox, oy, destWidth, PixelIndex(ox, oy, destWidth, x, y)) == y * destWidth + x
    ensures Rel(ox, oy, destWidth, PixelIndex(ox, oy, destWidth, x, y)) / destWidth == y
    ensures Rel(ox, oy, destWidth, PixelIndex(ox, oy, destWidth, x, y)) % destWidth == x
  {
    assert (oy + y) * destWidth == oy * destWidth + y * destWidth;
    DivModUnique(y * destWidth + x, destWidth, y, x);
  }

  /** The block's pixels all lie at or before its last pixel. */
  lemma BlockLastPixel(ox: nat, oy: nat, destWidth: nat, w: nat, h: nat, x: nat, y: nat)
    requires x < w && y < h
    ensures PixelIndex(ox, oy, destWidth, x, y) <= PixelIndex(ox, oy, destWidth, w - 1, h - 1)
  {
    MulMonotone(oy + y, oy + h - 1, destWidth);
  }

  /** Pixel p is in the block exactly when it is the landing pixel of some (x, y) of it. */
  lemma InBlockIsLanding(ox: nat, oy: nat, destWidth: nat, w: nat, h: nat, p: int)
    requires w <= destWidth && InBlock(ox, oy, destWidth, w, h, p)
    ensures var q := Rel(ox, oy, destWidth, p);
      p == PixelIndex(ox, oy, destWidth, q % destWidth, q / destWidth)
  {
    var q := Rel(ox, oy, destWidth, p);
    assert q == q / destWidth * destWidth + q % destWidth;
    assert (oy + q / destWidth) * destWidth == oy * destWidth + q / destWidth * destWidth;
  }

  /**
   * The written pixels form a true rectangle of rows [oy, oy+h) and columns
   * [ox, ox+w) exactly when the block does not run past the row end.
   */
  lemma BlockIsRectangle(ox: nat, oy: nat, destWidth: nat, w: nat, h: nat, p: nat)
    requires destWidth > 0 && ox + w <= destWidth
    ensures InBlock(ox, oy, destWidth, w, h, p) <==>
      oy <= p / destWidth < oy + h && ox <= p % destWidth < ox + w
  {
    if InBlock(ox, oy, destWidth, w, h, p) {
      InBlockInRectangle(ox, oy, destWidth, w, h, p);
    }
    if oy <= p / destWidth < oy + h && ox <= p % destWidth < ox + w {
      RectangleInBlock(ox, oy, destWidth, w, h, p);
    }
  }

  lemma InBlockInRectangle(ox: nat, oy: nat, destWidth: nat, w: nat, h: nat, p: nat)
    requires destWidth > 0 && ox + w <= destWidth && InBlock(ox, oy, destWidth, w, h, p)
    ensures oy <= p / destWidth < oy + h && ox <= p % destWidth < ox + w
  {
    var q := Rel(ox, oy, destWidth, p);
    InBlockIsLanding(ox, oy, destWidth, w, h, p);
    var y, x := q / destWidth, q % destWidth;
    assert p == (oy + y) * destWidth + (ox + x);
    DivModUnique(p, destWidth, oy + y, ox + x);
  }

  lemma RectangleInBlock(ox: nat, oy: nat, destWidth: nat, w: nat, h: nat, p: nat)
    requires destWidth > 0 && oy <= p / destWidth < oy + h && ox <= p % destWidth < ox + w
    ensures InBlock(ox, oy, destWidth, w, h, p)
  {
    var q := Rel(ox, oy, destWidth, p);
    var row, col := p / destWidth, p % destWidth;
    assert p == row * destWidth + col;
    assert q == (row - oy) * destWidth + (col - ox) by {
      assert row * destWidth == (row - oy) * destWidth + oy * destWidth;
    }
    DivModUnique(q, destWidth, row - oy, col - ox);
  }

  /**
   * A block that runs past the row end is not the rectangle it is meant to be:
   * some pixel it writes lies outside rows oy .. oy + h - 1 or columns ox .. ox + w - 1.
   * When it starts inside the row, column 0 of the next row is written; when it starts
   * at or past the row end, already its first pixel falls in a later row.
   */
  lemma BlockWrapsPastRowEnd(ox: nat, oy: nat, destWidth: nat, w: nat, h: nat) returns (p: nat)
    requires 1 <= w <= destWidth < ox + w && h >= 1
    ensures InBlock(ox, oy, destWidth, w, h, p)
    ensures !(oy <= p / destWidth < oy + h && ox <= p % destWidth < ox + w)
  {
    if ox < destWidth {
      p := (oy + 1) * destWidth;
      BlockCoordinates(ox, oy, destWidth, destWidth - ox, 0);
      assert PixelIndex(ox, oy, destWidth, destWidth - ox, 0) == p;
      DivModUnique(p, destWidth, oy + 1, 0);
    } else {
      p := oy * destWidth + ox;
      BlockCoordinates(ox, oy, destWidth, 0, 0);
      assert PixelIndex(ox, oy, destWidth, 0, 0) == p;
    }
  }

  // --- Drawing order ------------------------------------------------------------

  /**
   * Both writers run x outer, y inner. Before step (cx, cy) the pixels
   * already written are the block pixels in columns < cx, and those of
   * column cx in rows < cy.
   */
  predicate Done(ox: nat, oy: nat, destWidth: nat, w: nat, h: nat, cx: nat, cy: nat, p: int) {
    InBlock(ox, oy, destWidth, w, h, p) &&
    var q := Rel(ox, oy, destWidth, p);
    q % destWidth < cx || (q % destWidth == cx && q / destWidth < cy)
  }

  lemma FrontierStep(ox: nat, oy: nat, destWidth: nat, w: nat, h: nat, x: nat, y: nat, p: int)
    requires x < w <= destWidth && y < h
    ensures Done(ox, oy, destWidth, w, h, x, y + 1, p) <==>
      Done(ox, oy, destWidth, w, h, x, y, p) || p == PixelIndex(ox, oy, destWidth, x, y)
  {
    BlockCoordinates(ox, oy, destWidth, x, y);
    if Done(ox, oy, destWidth, w, h, x, y + 1, p) && !Done(ox, oy, destWidth, w, h, x, y, p) {
      InBlockIsLanding(ox, oy, destWidth, w, h, p);
    }
  }

  lemma FrontierEnds(ox: nat, oy: nat, destWidth: nat, w: nat, h: nat)
    ensures forall p :: !Done(ox, oy, destWidth, w, h, 0, 0, p)
    ensures forall x: nat, p :: Done(ox, oy, destWidth, w, h, x, h, p) == Done(ox, oy, destWidth, w, h, x + 1, 0, p)
    ensures forall p :: Done(ox, oy, destWidth, w, h, w, 0, p) == InBlock(ox, oy, destWidth, w, h, p)
  {
  }

  /** Channel c of a pixel stored in B, G, R, A order. */
  function BgraByte(px: Rgba, c: int): byte {
    if c == 0 then px.b else if c == 1 then px.g else if c == 2 then px.r else px.a
  }

  /** The source pixel that lands on destination pixel p. */
  function SourcePixel(img: Image, ox: nat, oy: nat, destWidth: nat, p: int): Rgba
    requires ValidImage(img) && img.width <= destWidth && InBlock(ox, oy, destWidth, img.width, img.height, p)
  {
    var q := Rel(ox, oy, destWidth, p);
    PixelAt(img, q % destWidth, q / destWidth)
  }

  /** The destination bytes `s` after `img` is drawn into them at (ox, oy). */
  function DrawnImage(s: seq<byte>, img: Image, ox: nat, oy: nat, destWidth: nat): seq<byte>
    requires ValidImage(img) && img.width <= destWidth
  {
    seq(|s|, k requires 0 <= k < |s| =>
      if InBlock(ox, oy, destWidth, img.width, img.height, k / 4)
      then BgraByte(SourcePixel(img, ox, oy, destWidth, k / 4), k % 4)
      else s[k])
  }

  /** Channel c of the solid colour (r, g, b) with alpha 255. */
  function SolidByte(r: byte, g: byte, b: byte, c: int): byte {
    if c == 0 then r else if c == 1 then g else if c == 2 then b else 255
  }

  /** The destination bytes `s` after a `w` by `h` block at (ox, oy) is filled with (r, g, b, 255). */
  function FilledBlock(s: seq<byte>, r: byte, g: byte, b: byte, w: nat, h: nat, ox: nat, oy: nat, destWidth: nat): seq<byte> {
    seq(|s|, k requires 0 <= k < |s| =>
      if InBlock(ox, oy, destWidth, w, h, k / 4) then SolidByte(r, g, b, k % 4) else s[k])
  }

  /** For every source pixel (x, y), the four bytes it lands on hold its B, G, R and A. */
  lemma DrawnImagePixel(s: seq<byte>, img: Image, ox: nat, oy: nat, destWidth: nat, x: nat, y: nat)
    requires ValidImage(img) && img.width <= destWidth && x < img.width && y < img.height
    requires PixelIndex(ox, oy, destWidth, x, y) * 4 + 3 < |s|
    ensures var d, o, px := DrawnImage(s, img, ox, oy, destWidth), PixelIndex(ox, oy, destWidth, x, y) * 4, PixelAt(img, x, y);
      |d| == |s| && d[o] == px.b && d[o + 1] == px.g && d[o + 2] == px.r && d[o + 3] == px.a
  {
    BlockCoordinates(ox, oy, destWidth, x, y);
  }

  /** For every pixel (x, y) of the block, the bytes at offsets 0..3 hold r, g, b and 255. */
  lemma FilledBlockPixel(s: seq<byte>, r: byte, g: byte, b: byte, w: nat, h: nat, ox: nat, oy: nat, destWidth: nat, x: nat, y: nat)
    requires w <= destWidth && x < w && y < h
    requires PixelIndex(ox, oy, destWidth, x, y) * 4 + 3 < |s|
    ensures var d, o := FilledBlock(s, r, g, b, w, h, ox, oy, destWidth), PixelIndex(ox, oy, destWidth, x, y) * 4;
      |d| == |s| && d[o] == r && d[o + 1] == g && d[o + 2] == b && d[o + 3] == 255
  {
    BlockCoordinates(ox, oy, destWidth, x, y);
  }

  /** Filling the same block with the same colour twice gives what filling it once gives. */
  lemma FilledBlockIdempotent(s: seq<byte>, r: byte, g: byte, b: byte, w: nat, h: nat, ox: nat, oy: nat, destWidth: nat)
    ensures var once := FilledBlock(s, r, g, b, w, h, ox, oy, destWidth);
      FilledBlock(once, r, g, b, w, h, ox, oy, destWidth) == once
  {
  }

  // --- The writers ------------------------------------------------------------------

  /**
   * Draws `image` into the destination with its top-left pixel at
   * (destOffsetX, destOffsetY). Nothing checks the bounds, so the last
   * byte written must lie inside the array.
   */
  method DrawImageToByteArray(image: Image, destOffsetX: nat, destOffsetY: nat, destWidth: nat, destImageArray: array<byte>)
    requires ValidImage(image) && image.width <= destWidth
    requires image.width > 0 && image.height > 0 ==>
      PixelIndex(destOffsetX, destOffsetY, destWidth, image.width - 1, image.height - 1) * 4 + 3 < destImageArray.Length
    modifies destImageArray
    ensures destImageArray[..] == DrawnImage(old(destImageArray[..]), image, destOffsetX, destOffsetY, destWidth)
  {
    ghost var before := destImageArray[..];
    ghost var ox, oy, w, h := destOffsetX, destOffsetY, image.width, image.height;
    FrontierEnds(ox, oy, destWidth, w, h);
    for x := 0 to image.width
      invariant forall k :: 0 <= k < destImageArray.Length ==>
        destImageArray[k] == if Done(ox, oy, destWidth, w, h, x, 0, k / 4)
          then BgraByte(SourcePixel(image, ox, oy, destWidth, k / 4), k % 4) else before[k]
    {
      for y := 0 to image.height
        invariant forall k :: 0 <= k < destImageArray.Length ==>
          destImageArray[k] == if Done(ox, oy, destWidth, w, h, x, y, k / 4)
            then BgraByte(SourcePixel(image, ox, oy, destWidth, k / 4), k % 4) else before[k]
      {
        var newX := destOffsetX + x;
        var newY := destOffsetY + y;
        var pixel := PixelAt(image, x, y);
        var offset := (newY * destWidth + newX) * 4;
        BlockLastPixel(ox, oy, destWidth, w, h, x, y);
        BlockCoordinates(ox, oy, destWidth, x, y);
        destImageArray[offset + 0] := pixel.b;
        destImageArray[offset + 1] := pixel.g;
        destImageArray[offset + 2] := pixel.r;
        destImageArray[offset + 3] := pixel.a;
        forall k | 0 <= k < destImageArray.Length
          ensures destImageArray[k] == if Done(ox, oy, destWidth, w, h, x, y + 1, k / 4)
            then BgraByte(SourcePixel(image, ox, oy, destWidth, k / 4), k % 4) else before[k]
        {
          FrontierStep(ox, oy, destWidth, w, h, x, y, k / 4);
        }
      }
    }
    assert destImageArray[..] == DrawnImage(before, image, ox, oy, destWidth);
  }

  /**
   * Fills a `srcWidth` by `srcHeight` block at (destOffsetX, destOffsetY)
   * with bytes r, g, b, 255 at pixel offsets 0..3. Nothing checks the
   * bounds, so the last byte written must lie inside the array.
   */
  method DrawColorToByteArray(r: byte, g: byte, b: byte, srcWidth: nat, srcHeight: nat,
                              destOffsetX: nat, destOffsetY: nat, destWidth: nat, destImageArray: array<byte>)
    requires srcWidth <= destWidth
    requires srcWidth > 0 && srcHeight > 0 ==>
      PixelIndex(destOffsetX, destOffsetY, destWidth, srcWidth - 1, srcHeight - 1) * 4 + 3 < destImageArray.Length
    modifies destImageArray
    ensures destImageArray[..] == FilledBlock(old(destImageArray[..]), r, g, b, srcWidth, srcHeight, destOffsetX, destOffsetY, destWidth)
  {
    ghost var before := destImageArray[..];
    ghost var ox, oy, w, h := destOffsetX, destOffsetY, srcWidth, srcHeight;
    FrontierEnds(ox, oy, destWidth, w, h);
    for x := 0 to srcWidth
      invariant forall k :: 0 <= k < destImageArray.Length ==>
        destImageArray[k] == if Done(ox, oy, destWidth, w, h, x, 0, k / 4) then SolidByte(r, g, b, k % 4) else before[k]
    {
      for y := 0 to srcHeight
        invariant forall k :: 0 <= k < destImageArray.Length ==>
          destImageArray[k] == if Done(ox, oy, destWidth, w, h, x, y, k / 4) then SolidByte(r, g, b, k % 4) else before[k]
      {
        var newX := destOffsetX + x;
        var newY := destOffsetY + y;
        var offset := (newY * destWidth + newX) * 4;
        BlockLastPixel(ox, oy, destWidth, w, h, x, y);
        BlockCoordinates(ox, oy, destWidth, x, y);
        destImageArray[offset + 0] := r;
        destImageArray[offset + 1] := g;
        destImageArray[offset + 2] := b;
        destImageArray[offset + 3] := 255;
        forall k | 0 <= k < destImageArray.Length
          ensures destImageArray[k] == if Done(ox, oy, destWidth, w, h, x, y + 1, k / 4) then SolidByte(r, g, b, k % 4) else before[k]
        {
          FrontierStep(ox, oy, destWidth, w, h, x, y, k / 4);
        }
      }
    }
    assert destImageArray[..] == FilledBlock(before, r, g, b, w, h, ox, oy, destWidth);
  }
}
