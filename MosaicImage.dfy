/**
 * The mosaic builder: average colours, the grid of pattern cells, and the
 * greedy assignment of candidate images to cells in spiral order.
 *
 * Colour arithmetic that the source does in `double` (and `float`) is done
 * here on exact reals.
 */
module MosaicImage {
  import opened ImageExtensions
  import opened LoopPatterns

  datatype Option<T> = None | Some(value: T)

  /** The exceptions the builder can raise. */
  datatype Error =
    | NotSupported      // CreateImage with no images added
    | DivideByZero      // AnalyzeCells with no images added: desiredSize / 0
    | IndexOutOfRange   // a cell's block runs past the end of the output buffer

  datatype Result<T> = Success(value: T) | Failure(error: Error)

  datatype Outcome = Pass | Fail(error: Error)

  // --- Colours ----------------------------------------------------------------

  /** A mean colour, each channel a mean of bytes / 255. */
  datatype ColorValue = ColorValue(r: real, g: real, b: real) {

    /** The squared Euclidean length of the colour as a vector. */
    function Length(): (l: real)
      ensures l >= 0.0
    {
      SquareNonNegative(r);
      SquareNonNegative(g);
      SquareNonNegative(b);
      r * r + g * g + b * b
    }

    /** Channel-wise difference: adding `other` back gives this colour; it is black exactly for equal colours. */
    function Minus(other: ColorValue): (d: ColorValue)
      ensures d.r + other.r == r && d.g + other.g == g && d.b + other.b == b
      ensures d == ColorValue(0.0, 0.0, 0.0) <==> this == other
    {
      ColorValue(r - other.r, g - other.g, b - other.b)
    }

    /** Orders by length, but never answers "equal". */
    function CompareTo(other: ColorValue): (c: int)
      ensures c == 1 || c == -1
      ensures c == 1 <==> !LessOrEqual(other)
    {
      if Length() > other.Length() then 1 else -1
    }

    /** The source's `<=`: the mirror image of `>=`, and total. */
    predicate LessOrEqual(other: ColorValue): (le: bool)
      ensures le <==> other.GreaterOrEqual(this)
      ensures le || GreaterOrEqual(other)
    {
      Length() <= other.Length()
    }

    /** The source's `>=`: a colour is `>=` itself and every colour of no greater length. */
    predicate GreaterOrEqual(other: ColorValue): (ge: bool)
      ensures other.Length() <= Length() ==> ge
      ensures other == this ==> ge
    {
      Length() >= other.Length()
    }
  }

  const Black := ColorValue(0.0, 0.0, 0.0)

  lemma SquareNonNegative(x: real)
    ensures x * x >= 0.0
  {
    if x < 0.0 {
      assert x * x == (-x) * (-x);
    }
  }

  /** A colour minus itself is black, whose length is 0. */
  lemma MinusSelfIsBlack(a: ColorValue)
    ensures a.Minus(a) == Black && a.Minus(a).Length() == 0.0
  {
  }

  /** `CompareTo` is not a valid ordering: a colour compared with itself is "less", never 0. */
  lemma CompareToSelfIsLess(a: ColorValue)
    ensures a.CompareTo(a) == -1
    ensures a.LessOrEqual(a) && a.GreaterOrEqual(a)
  {
  }

  /** `<=` and `>=` are total, and hold together exactly when the lengths are equal. */
  lemma ComparisonsTotal(a: ColorValue, b: ColorValue)
    ensures a.LessOrEqual(b) || a.GreaterOrEqual(b)
    ensures a.LessOrEqual(b) && a.GreaterOrEqual(b) <==> a.Length() == b.Length()
  {
  }

  predicate UnitChannel(v: real) {
    0.0 <= v <= 1.0
  }

  predicate UnitColor(c: ColorValue) {
    UnitChannel(c.r) && UnitChannel(c.g) && UnitChannel(c.b)
  }

  /** The source's `(byte)(v * 255)` for a channel in [0, 1]: the conversion truncates. */
  function ToByte(v: real): (b: byte)
    requires UnitChannel(v)
    ensures b as real <= v * 255.0 < b as real + 1.0
  {
    var f := (v * 255.0).Floor;
    assert 0 <= f <= 255;
    f
  }

  // --- Candidates ---------------------------------------------------------------

  /** A candidate: its mean colour and the file to load it from. */
  datatype ImageData = ImageData(color: ColorValue, imageFile: string) {
    function CompareTo(other: ImageData): (c: int)
      ensures c == color.CompareTo(other.color)
      ensures c != 0
    {
      color.CompareTo(other.color)
    }
  }

  function Abs(v: real): real {
    if v < 0.0 then -v else v
  }

  /** How far a candidate is from a desired colour: `Math.Abs((desired - c.Color).Length())`. */
  function Distance(desired: ColorValue, c: ImageData): (d: real)
    ensures d == (desired.Minus(c.color)).Length() && d >= 0.0
  {
    Abs(desired.Minus(c.color).Length())
  }

  /**
   * The candidate `MinBy` picks: the first one at minimal distance.
   * (`MinBy` is a library call; first-of-the-minimal is the assumption made here.)
   */
  function MinBy(list: seq<ImageData>, desired: ColorValue): (i: nat)
    requires |list| > 0
    ensures i < |list|
    ensures forall j :: 0 <= j < |list| ==> Distance(desired, list[i]) <= Distance(desired, list[j])
    ensures forall j :: 0 <= j < i ==> Distance(desired, list[j]) > Distance(desired, list[i])
  {
    if |list| == 1 then 0
    else
      var i := MinBy(list[..|list| - 1], desired);
      if Distance(desired, list[|list| - 1]) < Distance(desired, list[i]) then |list| - 1 else i
  }

  /** `List.Remove` of the element at index i (a candidate is an object: Remove drops that one). */
  function RemoveAt(s: seq<ImageData>, i: nat): (r: seq<ImageData>)
    requires i < |s|
    ensures |r| == |s| - 1
    ensures multiset(r) + multiset{s[i]} == multiset(s)
  {
    assert s == s[..i] + [s[i]] + s[i + 1..];
    s[..i] + s[i + 1..]
  }

  // --- Greedy assignment ----------------------------------------------------------

  /**
   * The candidates the cells receive, in visiting order: each desired colour
   * takes the closest remaining candidate, which is then removed; once none
   * remain, the remaining cells receive none.
   */
  function Greedy(targets: seq<ColorValue>, pool: seq<ImageData>): (g: seq<ImageData>)
    ensures |g| == Min(|targets|, |pool|)
    decreases |targets|
  {
    if |targets| == 0 || |pool| == 0 then []
    else
      var i := MinBy(pool, targets[0]);
      [pool[i]] + Greedy(targets[1..], RemoveAt(pool, i))
  }

  /** A single cell takes the `MinBy` choice, if any candidate is left. */
  lemma GreedyOne(c: ColorValue, pool: seq<ImageData>)
    ensures Greedy([c], pool) == if |pool| > 0 then [pool[MinBy(pool, c)]] else []
  {
    assert [c][1..] == [];
  }

  /** The candidates still in the list after the cells of `targets` were served. */
  function Leftover(targets: seq<ColorValue>, pool: seq<ImageData>): (l: seq<ImageData>)
    ensures |l| == |pool| - Min(|targets|, |pool|)
    decreases |targets|
  {
    if |targets| == 0 || |pool| == 0 then pool
    else Leftover(targets[1..], RemoveAt(pool, MinBy(pool, targets[0])))
  }

  function Min(a: int, b: int): int {
    if a <= b then a else b
  }

  /**
   * No candidate fills two cells: the chosen and the leftover candidates
   * together are exactly the original list. min(cells, candidates) cells
   * are image-filled, and the list shrinks by one for each of them.
   */
  lemma GreedyUsesEachAtMostOnce(targets: seq<ColorValue>, pool: seq<ImageData>)
    ensures multiset(Greedy(targets, pool)) + multiset(Leftover(targets, pool)) == multiset(pool)
    ensures |Greedy(targets, pool)| == Min(|targets|, |pool|)
    ensures |Leftover(targets, pool)| == |pool| - |Greedy(targets, pool)|
  {
    GreedySplitsPool(targets, pool);
  }

  lemma {:induction false} GreedySplitsPool(targets: seq<ColorValue>, pool: seq<ImageData>)
    ensures multiset(Greedy(targets, pool)) + multiset(Leftover(targets, pool)) == multiset(pool)
    decreases |targets|
  {
    if |targets| > 0 && |pool| > 0 {
      var i := MinBy(pool, targets[0]);
      var pool' := RemoveAt(pool, i);
      GreedySplitsPool(targets[1..], pool');
      assert multiset([pool[i]] + Greedy(targets[1..], pool')) == multiset{pool[i]} + multiset(Greedy(targets[1..], pool'));
    }
  }

  /** The list of candidates remaining when the k-th cell is served. */
  function PoolBefore(targets: seq<ColorValue>, pool: seq<ImageData>, k: nat): seq<ImageData>
    requires k <= |targets|
  {
    Leftover(targets[..k], pool)
  }

  /**
   * The k-th image-filled cell takes a candidate that was still in the list
   * and is at least as close to its colour as every other candidate still
   * there; the earlier ones in the list are all strictly farther.
   */
  lemma GreedyChoosesClosest(targets: seq<ColorValue>, pool: seq<ImageData>, k: nat)
    requires k < |Greedy(targets, pool)|
    ensures k < |targets|
    ensures var rest, chosen := PoolBefore(targets, pool, k), Greedy(targets, pool)[k];
      |rest| > 0 && chosen == rest[MinBy(rest, targets[k])] &&
      forall c :: c in rest ==> Distance(targets[k], chosen) <= Distance(targets[k], c)
  {
    GreedyPicksMinBy(targets, pool, k);
    var rest := PoolBefore(targets, pool, k);
    var m := MinBy(rest, targets[k]);
    forall c | c in rest
      ensures Distance(targets[k], rest[m]) <= Distance(targets[k], c)
    {
      var j :| 0 <= j < |rest| && rest[j] == c;
    }
  }

  /** The k-th image-filled cell takes the `MinBy` choice among the candidates left for it. */
  lemma {:induction false} GreedyPicksMinBy(targets: seq<ColorValue>, pool: seq<ImageData>, k: nat)
    requires k < |Greedy(targets, pool)|
    ensures k < |targets|
    ensures var rest := PoolBefore(targets, pool, k);
      |rest| > 0 && Greedy(targets, pool)[k] == rest[MinBy(rest, targets[k])]
    decreases k
  {
    var i := MinBy(pool, targets[0]);
    var pool' := RemoveAt(pool, i);
    assert Greedy(targets, pool) == [pool[i]] + Greedy(targets[1..], pool');
    if k == 0 {
      assert targets[..0] == [];
    } else {
      GreedyPicksMinBy(targets[1..], pool', k - 1);
      assert targets[..k][1..] == targets[1..][..k - 1];
      assert PoolBefore(targets, pool, k) == PoolBefore(targets[1..], pool', k - 1);
    }
  }

  // --- Grid size ------------------------------------------------------------------

  function CeilSqrtFrom(n: nat, k: nat): (r: nat)
    requires k == 0 || (k - 1) * (k - 1) < n
    ensures r * r >= n && (r == 0 || (r - 1) * (r - 1) < n)
    decreases n - k
  {
    if k * k >= n then k
    else
      assert k < n by {
        if k >= 1 { MulMonotone(1, k, k); }
      }
      CeilSqrtFrom(n, k + 1)
  }

  /** The least k with k * k >= n: the source's `Math.Ceiling(Math.Sqrt(n))`. */
  function CeilSqrt(n: nat): (r: nat)
    ensures r * r >= n
    ensures forall k: nat :: k * k >= n ==> r <= k
  {
    var r := CeilSqrtFrom(n, 0);
    forall k: nat | k * k >= n
      ensures r <= k
    {
      if k < r {
        MulMonotone(k, r - 1, k);
        MulMonotone(k, r - 1, r - 1);
      }
    }
    r
  }

  lemma CeilSqrtExamples()
    ensures CeilSqrt(10) == 4 && CeilSqrt(16) == 4 && CeilSqrt(17) == 5 && CeilSqrt(1) == 1 && CeilSqrt(0) == 0
  {
    assert CeilSqrtFrom(10, 0) == 4;
    assert CeilSqrtFrom(16, 0) == 4;
    assert CeilSqrtFrom(17, 0) == 5;
  }

  // --- Average colours ------------------------------------------------------------

  /**
   * Every pixel of a `w` by `h` block at (ox, oy) of a buffer `stride` pixels
   * wide has its R, G, B bytes inside a buffer of `len` bytes.
   */
  predicate Readable(len: nat, stride: nat, ox: nat, oy: nat, w: nat, h: nat) {
    w == 0 || h == 0 || PixelIndex(ox, oy, stride, w - 1, h - 1) * 4 + 3 < len
  }

  /** A readable block stays readable with one column or one row fewer. */
  lemma ReadableShrinks(len: nat, stride: nat, ox: nat, oy: nat, w: nat, h: nat)
    requires Readable(len, stride, ox, oy, w, h) && w > 0
    ensures Readable(len, stride, ox, oy, w - 1, h)
    ensures h > 0 ==> Readable(len, stride, ox, oy, w, h - 1)
    ensures h > 0 ==> PixelIndex(ox, oy, stride, w - 1, h - 1) * 4 + 3 < len
  {
    if h > 0 {
      if w >= 2 {
        BlockLastPixel(ox, oy, stride, w, h, w - 2, h - 1);
      }
      if h >= 2 {
        BlockLastPixel(ox, oy, stride, w, h, w - 1, h - 2);
      }
    }
  }

  /** A sub-block sharing the first pixel of a readable block is readable. */
  lemma ReadableWithin(len: nat, stride: nat, ox: nat, oy: nat, w: nat, h: nat, x: nat, y: nat)
    requires Readable(len, stride, ox, oy, w, h) && x <= w && y <= h
    ensures Readable(len, stride, ox, oy, x, y)
    ensures x > 0 && y > 0 ==> PixelIndex(ox, oy, stride, x - 1, y - 1) * 4 + 3 < len
  {
    if x > 0 && y > 0 {
      BlockLastPixel(ox, oy, stride, w, h, x - 1, y - 1);
    }
  }

  /** Channel c of block pixel (x, y), as a fraction of 255. */
  function Channel(pixels: seq<byte>, stride: nat, ox: nat, oy: nat, x: nat, y: nat, c: nat): (v: real)
    requires c < 3 && PixelIndex(ox, oy, stride, x, y) * 4 + 3 < |pixels|
    ensures UnitChannel(v)
  {
    pixels[PixelIndex(ox, oy, stride, x, y) * 4 + c] as real / 255.0
  }

  /** The sum of channel c over pixels (x, 0) .. (x, h - 1) of the block. */
  function ColumnSum(pixels: seq<byte>, stride: nat, ox: nat, oy: nat, x: nat, h: nat, c: nat): (s: real)
    requires c < 3 && Readable(|pixels|, stride, ox, oy, x + 1, h)
    ensures 0.0 <= s <= h as real
  {
    if h == 0 then 0.0
    else
      ReadableShrinks(|pixels|, stride, ox, oy, x + 1, h);
      ColumnSum(pixels, stride, ox, oy, x, h - 1, c) + Channel(pixels, stride, ox, oy, x, h - 1, c)
  }

  /** The sum of channel c over the `w` by `h` block, column by column. */
  function BlockSum(pixels: seq<byte>, stride: nat, ox: nat, oy: nat, w: nat, h: nat, c: nat): (s: real)
    requires c < 3 && Readable(|pixels|, stride, ox, oy, w, h)
    ensures 0.0 <= s <= (w * h) as real
  {
    if w == 0 then 0.0
    else
      ReadableShrinks(|pixels|, stride, ox, oy, w, h);
      assert (w * h) as real == ((w - 1) * h) as real + h as real;
      BlockSum(pixels, stride, ox, oy, w - 1, h, c) + ColumnSum(pixels, stride, ox, oy, w - 1, h, c)
  }

  /** The mean of the block's channels: each channel sum divided by `count`. */
  function BlockMean(pixels: seq<byte>, stride: nat, ox: nat, oy: nat, w: nat, h: nat, count: nat): (m: ColorValue)
    requires Readable(|pixels|, stride, ox, oy, w, h) && count == w * h && count > 0
    ensures UnitColor(m)
  {
    var n := count as real;
    Fraction(BlockSum(pixels, stride, ox, oy, w, h, 0), n);
    Fraction(BlockSum(pixels, stride, ox, oy, w, h, 1), n);
    Fraction(BlockSum(pixels, stride, ox, oy, w, h, 2), n);
    ColorValue(BlockSum(pixels, stride, ox, oy, w, h, 0) / n,
               BlockSum(pixels, stride, ox, oy, w, h, 1) / n,
               BlockSum(pixels, stride, ox, oy, w, h, 2) / n)
  }

  lemma Fraction(s: real, n: real)
    requires 0.0 <= s <= n && n > 0.0
    ensures UnitChannel(s / n)
  {
    assert s / n * n == s;
  }

  /**
   * Sums the R, G, B fractions of every pixel of the block, x outermost, and
   * counts the pixels visited.
   */
  method SumBlock(pixels: seq<byte>, stride: nat, ox: nat, oy: nat, w: nat, h: nat)
    returns (aR: real, aG: real, aB: real, pixelCount: nat)
    requires Readable(|pixels|, stride, ox, oy, w, h)
    ensures aR == BlockSum(pixels, stride, ox, oy, w, h, 0)
    ensures aG == BlockSum(pixels, stride, ox, oy, w, h, 1)
    ensures aB == BlockSum(pixels, stride, ox, oy, w, h, 2)
    ensures pixelCount == w * h
  {
    aR, aG, aB, pixelCount := 0.0, 0.0, 0.0, 0;
    for x := 0 to w
      invariant aR == BlockSum(pixels, stride, ox, oy, x, h, 0)
      invariant aG == BlockSum(pixels, stride, ox, oy, x, h, 1)
      invariant aB == BlockSum(pixels, stride, ox, oy, x, h, 2)
      invariant pixelCount == x * h
    {
      ReadableWithin(|pixels|, stride, ox, oy, w, h, x + 1, h);
      aR, aG, aB, pixelCount := SumColumn(pixels, stride, ox, oy, x, h, aR, aG, aB, pixelCount);
      assert (x + 1) * h == x * h + h;
    }
  }

  /** The inner loop: adds the fractions of column x of the block to the sums and counts its pixels. */
  method SumColumn(pixels: seq<byte>, stride: nat, ox: nat, oy: nat, x: nat, h: nat,
                   aR0: real, aG0: real, aB0: real, count0: nat)
    returns (aR: real, aG: real, aB: real, pixelCount: nat)
    requires Readable(|pixels|, stride, ox, oy, x + 1, h)
    ensures aR == aR0 + ColumnSum(pixels, stride, ox, oy, x, h, 0)
    ensures aG == aG0 + ColumnSum(pixels, stride, ox, oy, x, h, 1)
    ensures aB == aB0 + ColumnSum(pixels, stride, ox, oy, x, h, 2)
    ensures pixelCount == count0 + h
  {
    aR, aG, aB, pixelCount := aR0, aG0, aB0, count0;
    for y := 0 to h
      invariant aR == aR0 + ColumnSum(pixels, stride, ox, oy, x, y, 0)
      invariant aG == aG0 + ColumnSum(pixels, stride, ox, oy, x, y, 1)
      invariant aB == aB0 + ColumnSum(pixels, stride, ox, oy, x, y, 2)
      invariant pixelCount == count0 + y
    {
      ReadableWithin(|pixels|, stride, ox, oy, x + 1, h, x + 1, y + 1);
      var offset := PixelIndex(ox, oy, stride, x, y) * 4;
      var r, g, b := pixels[offset + 0], pixels[offset + 1], pixels[offset + 2];
      aR := aR + r as real / 255.0;
      aG := aG + g as real / 255.0;
      aB := aB + b as real / 255.0;
      pixelCount := pixelCount + 1;
    }
  }

  /** The mean colour of a whole nonempty image. */
  function ImageMean(img: Image): (m: ColorValue)
    requires ValidImage(img) && img.width > 0 && img.height > 0
    ensures UnitColor(m)
  {
    WholeImageReadable(img);
    BlockMean(img.pixels, img.width, 0, 0, img.width, img.height, img.width * img.height)
  }

  lemma WholeImageReadable(img: Image)
    requires ValidImage(img)
    ensures Readable(|img.pixels|, img.width, 0, 0, img.width, img.height)
  {
    if img.width > 0 && img.height > 0 {
      RowMajorBound(img.width - 1, img.height - 1, img.width, img.height);
    }
  }

  // --- Painting the mosaic ----------------------------------------------------------

  /** Point p names an existing cell of the colour grid. */
  predicate InCells(p: Point, cells: seq<seq<ColorValue>>) {
    0 <= p.x < |cells| && 0 <= p.y < |cells[p.x]|
  }

  predicate AllInCells(order: seq<Point>, cells: seq<seq<ColorValue>>) {
    forall k :: 0 <= k < |order| ==> InCells(order[k], cells)
  }

  predicate UnitCells(cells: seq<seq<ColorValue>>) {
    forall i, j :: 0 <= i < |cells| && 0 <= j < |cells[i]| ==> UnitColor(cells[i][j])
  }

  /** Every image `load` yields is an `a` by `a` image: the loaded file resized to the avatar size. */
  ghost predicate AvatarsFit(load: string -> Image, a: nat) {
    forall f :: ValidImage(load(f)) && load(f).width == a && load(f).height == a
  }

  /**
   * The `a` by `a` block of cell p, drawn into a buffer `ds` pixels wide at
   * (p.x * a, p.y * a), stays inside a buffer of `len` bytes.
   */
  predicate BlockFits(p: Point, a: nat, ds: nat, len: nat) {
    p.x >= 0 && p.y >= 0 && Readable(len, ds, p.x * a, p.y * a, a, a)
  }

  /** The desired colours of the cells, in visiting order. */
  function Targets(order: seq<Point>, cells: seq<seq<ColorValue>>): (t: seq<ColorValue>)
    requires AllInCells(order, cells)
    ensures |t| == |order|
    ensures forall k :: 0 <= k < |order| ==> t[k] == cells[order[k].x][order[k].y]
  {
    if order == [] then []
    else [cells[order[0].x][order[0].y]] + Targets(order[1..], cells)
  }

  function Zeros(n: nat): (z: seq<byte>)
    ensures |z| == n && forall k :: 0 <= k < n ==> z[k] == 0
  {
    seq(n, _ => 0)
  }

  /**
   * The buffer after drawing cell (x, y), of colour c: the first of
   * `choices` when there is one, else a solid block of c with its channels
   * written as B, G, R.
   */
  function DrawCell(x: nat, y: nat, c: ColorValue, choices: seq<ImageData>,
                    load: string -> Image, a: nat, ds: nat, buf: seq<byte>): (next: seq<byte>)
    requires a <= ds && AvatarsFit(load, a) && UnitColor(c)
    ensures |next| == |buf|
  {
    if |choices| > 0
    then DrawnImage(buf, load(choices[0].imageFile), x * a, y * a, ds)
    else FilledBlock(buf, ToByte(c.b), ToByte(c.g), ToByte(c.r), a, a, x * a, y * a, ds)
  }

  /**
   * Pixel (i, j) of a drawn cell holds the B, G, R, A bytes of the chosen
   * avatar's pixel (i, j), or, with no choice left, the cell colour's
   * B * 255, G * 255, R * 255 truncated, and 255.
   */
  lemma DrawCellPixel(x: nat, y: nat, c: ColorValue, choices: seq<ImageData>,
                      load: string -> Image, a: nat, ds: nat, buf: seq<byte>, i: nat, j: nat)
    requires a <= ds && AvatarsFit(load, a) && UnitColor(c) && i < a && j < a
    requires PixelIndex(x * a, y * a, ds, i, j) * 4 + 3 < |buf|
    ensures var d, o := DrawCell(x, y, c, choices, load, a, ds, buf), PixelIndex(x * a, y * a, ds, i, j) * 4;
      if |choices| > 0 then
        var px := PixelAt(load(choices[0].imageFile), i, j);
        d[o] == px.b && d[o + 1] == px.g && d[o + 2] == px.r && d[o + 3] == px.a
      else
        d[o] == ToByte(c.b) && d[o + 1] == ToByte(c.g) && d[o + 2] == ToByte(c.r) && d[o + 3] == 255
  {
    if |choices| > 0 {
      DrawnImagePixel(buf, load(choices[0].imageFile), x * a, y * a, ds, i, j);
    } else {
      FilledBlockPixel(buf, ToByte(c.b), ToByte(c.g), ToByte(c.r), a, a, x * a, y * a, ds, i, j);
    }
  }

  /**
   * Drawing the cells of `order` into `buf`, the k-th one with the k-th of
   * `choices` while choices remain, and with its own colour as a solid
   * block (channels as B, G, R) after that. Drawing a block that does not
   * fit in the buffer fails.
   */
  function Paint(order: seq<Point>, cells: seq<seq<ColorValue>>, choices: seq<ImageData>,
                 load: string -> Image, a: nat, ds: nat, buf: seq<byte>): (r: Result<seq<byte>>)
    requires a <= ds && AvatarsFit(load, a) && UnitCells(cells) && AllInCells(order, cells)
    ensures r.Success? ==> |r.value| == |buf|
    ensures r.Failure? ==> r.error == IndexOutOfRange
    ensures r.Success? <==> forall k :: 0 <= k < |order| ==> BlockFits(order[k], a, ds, |buf|)
    decreases |order|
  {
    if order == [] then Success(buf)
    else
      var p := order[0];
      if !BlockFits(p, a, ds, |buf|) then Failure(IndexOutOfRange)
      else
        var next := DrawCell(p.x, p.y, cells[p.x][p.y], choices, load, a, ds, buf);
        var rest := Paint(order[1..], cells, if |choices| > 0 then choices[1..] else [], load, a, ds, next);
        assert forall k :: 1 <= k < |order| ==> order[k] == order[1..][k - 1];
        rest
  }

  // --- Which cells fit ----------------------------------------------------------

  /** In a `ds`-square buffer, every cell of an n by n grid of a by a blocks fits when n * a <= ds. */
  lemma BlockFitsWithin(p: Point, n: nat, a: nat, ds: nat)
    requires 0 <= p.x < n && 0 <= p.y < n && n * a <= ds
    ensures BlockFits(p, a, ds, ds * ds * 4)
  {
    if a > 0 {
      MulMonotone(p.y + 1, n, a);
      MulMonotone(p.x + 1, n, a);
      var row, col := p.y * a + a - 1, p.x * a + a - 1;
      assert (p.y + 1) * a == row + 1 && (p.x + 1) * a == col + 1;
      assert row <= ds - 1 && col <= ds - 1;
      MulMonotone(row, ds - 1, ds);
      assert (ds - 1) * ds + ds == ds * ds;
      assert PixelIndex(p.x * a, p.y * a, ds, a - 1, a - 1) == row * ds + col;
    }
  }

  /** The block of cell (n, n) overruns a `ds`-square buffer as soon as (n + 1) * a > ds. */
  lemma CornerBlockOverruns(n: nat, a: nat, ds: nat)
    requires (n + 1) * a > ds
    ensures !BlockFits(Point(n, n), a, ds, ds * ds * 4)
  {
    var row := n * a + a - 1;
    assert (n + 1) * a == n * a + a;
    MulMonotone(ds, row, ds);
    assert PixelIndex(n * a, n * a, ds, a - 1, a - 1) == row * ds + n * a + a - 1;
  }

  /** The as-written walk of a W by W grid stays within cells 0 .. W of each axis. */
  lemma AsWrittenWalkWithin(n: nat)
    ensures forall q :: q in SpiralOrder(n, n) ==> 0 <= q.x <= n && 0 <= q.y <= n
    ensures n == 0 ==> SpiralOrder(n, n) == []
  {
    assert Max(n, n) == n;
    EmittedWithinCentreBox(n, n, n * n);
    assert n / 2 + n / 2 <= n;
  }

  /** An n-cell row of a `ds`-pixel image has cells ds / n pixels wide, at least one, filling at most ds. */
  lemma CellSize(ds: nat, n: nat)
    requires 1 <= n <= ds
    ensures 1 <= ds / n <= ds && n * (ds / n) <= ds
  {
    DivModUnique(ds, n, ds / n, ds % n);
    MulMonotone(1, n, ds / n);
  }

  /** Every cell of a walk that stays within an m by m grid fits when m * a <= ds. */
  lemma WalkFits(order: seq<Point>, m: nat, a: nat, ds: nat)
    requires forall q :: q in order ==> 0 <= q.x < m && 0 <= q.y < m
    requires m * a <= ds
    ensures forall k :: 0 <= k < |order| ==> BlockFits(order[k], a, ds, ds * ds * 4)
  {
    forall k | 0 <= k < |order|
      ensures BlockFits(order[k], a, ds, ds * ds * 4)
    {
      assert order[k] in order;
      BlockFitsWithin(order[k], m, a, ds);
    }
  }

  /** A walk within cells 0 .. n of each axis names only cells of a colour array with more than n rows and columns. */
  lemma WalkWithinCells(order: seq<Point>, n: nat, cells: seq<seq<ColorValue>>)
    requires forall q :: q in order ==> 0 <= q.x <= n && 0 <= q.y <= n
    requires n == 0 ==> order == []
    requires n > 0 ==> |cells| > n && forall i :: 0 <= i < |cells| ==> |cells[i]| > n
    ensures AllInCells(order, cells)
  {
    forall k | 0 <= k < |order|
      ensures InCells(order[k], cells)
    {
      assert order[k] in order;
    }
  }

  /** The as-written walk of an odd grid fits. */
  lemma OddWalkFits(n: nat, a: nat, ds: nat)
    requires n % 2 == 1 && n * a <= ds
    ensures forall k :: 0 <= k < |SpiralOrder(n, n)| ==> BlockFits(SpiralOrder(n, n)[k], a, ds, ds * ds * 4)
  {
    OddSpiralCoversGridOnce(n);
    WalkFits(SpiralOrder(n, n), n, a, ds);
  }

  /** The as-written walk of an even grid fits exactly when a grid one cell larger would. */
  lemma EvenWalkFitsIff(n: nat, a: nat, ds: nat)
    requires n % 2 == 0 && a <= ds
    ensures (forall k :: 0 <= k < |SpiralOrder(n, n)| ==> BlockFits(SpiralOrder(n, n)[k], a, ds, ds * ds * 4)) <==>
      (n + 1) * a <= ds
  {
    var order := SpiralOrder(n, n);
    AsWrittenWalkWithin(n);
    if (n + 1) * a <= ds {
      WalkFits(order, n + 1, a, ds);
    } else {
      assert n >= 2;
      EvenSpiralMissesZeroReachesSide(n);
      CornerBlockOverruns(n, a, ds);
      var k :| 0 <= k < |order| && order[k] == Point(n, n);
    }
  }

  /**
   * Four images and a 4-pixel output make a 2 by 2 grid of 2-pixel cells.
   * The as-written walk starts at cell (1, 1), whose block fits, and goes on
   * to cell (2, 1): its block is drawn at pixel (4, 2), one past the row end,
   * so its pixel (0, 1) lands on byte 64 of the 64-byte buffer, the first
   * write out of range. Cell (2, 2), visited next, would start at byte 80.
   */
  lemma FourImagesOverrunFourPixels()
    ensures CeilSqrt(4) == 2 && 4 / CeilSqrt(4) == 2
    ensures |SpiralOrder(2, 2)| == 4
    ensures SpiralOrder(2, 2)[0] == Point(1, 1) && BlockFits(Point(1, 1), 2, 4, 4 * 4 * 4)
    ensures SpiralOrder(2, 2)[1] == Point(2, 1) && !BlockFits(Point(2, 1), 2, 4, 4 * 4 * 4)
    ensures PixelIndex(2 * 2, 1 * 2, 4, 0, 0) * 4 + 3 < 4 * 4 * 4
    ensures PixelIndex(2 * 2, 1 * 2, 4, 0, 1) * 4 == 4 * 4 * 4
    ensures Point(2, 2) in SpiralOrder(2, 2) && PixelIndex(2 * 2, 2 * 2, 4, 0, 0) * 4 == 80
    ensures !BlockFits(Point(2, 2), 2, 4, 4 * 4 * 4)
  {
    FourImagesGrid();
    TwoByTwoVisitsCorner();
  }

  lemma FourImagesGrid()
    ensures CeilSqrt(4) == 2
  {
    assert CeilSqrtFrom(4, 0) == 2;
  }

  lemma TwoByTwoVisitsCorner()
    ensures |SpiralOrder(2, 2)| == 4
    ensures SpiralOrder(2, 2)[0] == Point(1, 1) && SpiralOrder(2, 2)[1] == Point(2, 1)
    ensures Point(2, 2) in SpiralOrder(2, 2)
  {
    TwoByTwoSpiral();
    var s := [Point(1, 1), Point(2, 1), Point(2, 2), Point(1, 2)];
    assert s[2] == Point(2, 2);
  }

  /** A colour array as a grid of rows. */
  function Grid(cells: array2<ColorValue>): (g: seq<seq<ColorValue>>)
    reads cells
    ensures |g| == cells.Length0
    ensures forall i :: 0 <= i < |g| ==> |g[i]| == cells.Length1
    ensures forall i, j :: 0 <= i < cells.Length0 && 0 <= j < cells.Length1 ==> g[i][j] == cells[i, j]
  {
    seq(cells.Length0, i requires 0 <= i < cells.Length0 reads cells =>
      seq(cells.Length1, j requires 0 <= j < cells.Length1 reads cells => cells[i, j]))
  }

  /**
   * The mean colour of pattern cell (x, y): its `a` by `a` block at
   * (x * a, y * a). A cell whose block is not inside the pattern has none
   * (Black); no analysed cell is such a cell.
   */
  function CellMean(pattern: Image, a: nat, x: nat, y: nat): (m: ColorValue)
    ensures UnitColor(m)
  {
    if a > 0 && Readable(|pattern.pixels|, pattern.width, x * a, y * a, a, a)
    then BlockMean(pattern.pixels, pattern.width, x * a, y * a, a, a, a * a)
    else Black
  }

  /**
   * Cell (x, y) of colour c, whose block fits the buffer: the closest
   * remaining candidate is removed from the list and its avatar drawn into
   * the block; with the list empty, the block is filled with c.
   */
  method PaintCell(x: nat, y: nat, c: ColorValue, allImages: seq<ImageData>, load: string -> Image,
                   a: nat, ds: nat, imageBytes: array<byte>)
    returns (remaining: seq<ImageData>)
    requires UnitColor(c) && a <= ds && AvatarsFit(load, a)
    requires BlockFits(Point(x, y), a, ds, imageBytes.Length)
    modifies imageBytes
    ensures remaining == if |allImages| > 0 then RemoveAt(allImages, MinBy(allImages, c)) else []
    ensures imageBytes[..] == DrawCell(x, y, c, Greedy([c], allImages), load, a, ds, old(imageBytes[..]))
  {
    GreedyOne(c, allImages);
    remaining := allImages;
    if |remaining| > 0 {
      var closest := MinBy(remaining, c);
      var chosen := remaining[closest];
      remaining := RemoveAt(remaining, closest);
      DrawAvatar(x, y, c, chosen, load, a, ds, imageBytes);
    } else {
      DrawFallback(x, y, c, load, a, ds, imageBytes);
    }
  }

  /** Draws the avatar of `chosen` into the block of cell (x, y). */
  method DrawAvatar(x: nat, y: nat, c: ColorValue, chosen: ImageData, load: string -> Image,
                    a: nat, ds: nat, imageBytes: array<byte>)
    requires UnitColor(c) && a <= ds && AvatarsFit(load, a)
    requires BlockFits(Point(x, y), a, ds, imageBytes.Length)
    modifies imageBytes
    ensures imageBytes[..] == DrawCell(x, y, c, [chosen], load, a, ds, old(imageBytes[..]))
  {
    var avatarImage := load(chosen.imageFile);
    DrawImageToByteArray(avatarImage, x * a, y * a, ds, imageBytes);
  }

  /** Fills the block of cell (x, y) with the cell's own colour, channels in B, G, R order. */
  method DrawFallback(x: nat, y: nat, c: ColorValue, load: string -> Image,
                      a: nat, ds: nat, imageBytes: array<byte>)
    requires UnitColor(c) && a <= ds && AvatarsFit(load, a)
    requires BlockFits(Point(x, y), a, ds, imageBytes.Length)
    modifies imageBytes
    ensures imageBytes[..] == DrawCell(x, y, c, [], load, a, ds, old(imageBytes[..]))
  {
    DrawColorToByteArray(ToByte(c.b), ToByte(c.g), ToByte(c.r), a, a, x * a, y * a, ds, imageBytes);
  }

  /**
   * One step of the walk: a first block that does not fit fails the whole
   * walk; one that fits is drawn with the greedy choice for its cell, and the
   * rest of the walk continues from the drawn buffer with that choice removed.
   */
  lemma PaintStep(order: seq<Point>, cells: seq<seq<ColorValue>>, pool: seq<ImageData>,
                  load: string -> Image, a: nat, ds: nat, buf: seq<byte>)
    requires a <= ds && AvatarsFit(load, a) && UnitCells(cells) && AllInCells(order, cells) && order != []
    ensures AllInCells(order[1..], cells)
    ensures var p := order[0];
      var c := cells[p.x][p.y];
      var whole := Paint(order, cells, Greedy(Targets(order, cells), pool), load, a, ds, buf);
      if BlockFits(p, a, ds, |buf|) then
        whole == Paint(order[1..], cells,
                       Greedy(Targets(order[1..], cells), if |pool| > 0 then RemoveAt(pool, MinBy(pool, c)) else []),
                       load, a, ds, DrawCell(p.x, p.y, c, Greedy([c], pool), load, a, ds, buf))
      else whole == Failure(IndexOutOfRange)
  {
    var p := order[0];
    var c := cells[p.x][p.y];
    assert forall k :: 0 <= k < |order| - 1 ==> order[1..][k] == order[k + 1];
    assert Targets(order, cells) == [c] + Targets(order[1..], cells);
    GreedyOne(c, pool);
    if |pool| > 0 {
      assert Greedy(Targets(order, cells), pool)[1..] == Greedy(Targets(order[1..], cells), RemoveAt(pool, MinBy(pool, c)));
    }
  }

  /**
   * The callback run over `order` on a fresh all-zero buffer: each cell
   * whose block fits takes the closest remaining candidate, or its own colour;
   * the first cell whose block does not fit stops the walk with IndexOutOfRange.
   */
  method PaintWalk(order: seq<Point>, imageCells: array2<ColorValue>, images: seq<ImageData>,
                   load: string -> Image, a: nat, ds: nat) returns (r: Result<seq<byte>>)
    requires a <= ds && AvatarsFit(load, a) && UnitCells(Grid(imageCells)) && AllInCells(order, Grid(imageCells))
    ensures var cells := Grid(imageCells);
      r == Paint(order, cells, Greedy(Targets(order, cells), images), load, a, ds, Zeros(ds * ds * 4))
  {
    ghost var cells := Grid(imageCells);
    var allImages := images;
    var imageBytes := new byte[ds * ds * 4](_ => 0);
    assert imageBytes[..] == Zeros(ds * ds * 4);
    ghost var whole := Paint(order, cells, Greedy(Targets(order, cells), images), load, a, ds, imageBytes[..]);
    for i := 0 to |order|
      invariant AllInCells(order[i..], cells)
      invariant whole == Paint(order[i..], cells, Greedy(Targets(order[i..], cells), allImages), load, a, ds, imageBytes[..])
    {
      var item := order[i];
      PaintStep(order[i..], cells, allImages, load, a, ds, imageBytes[..]);
      assert order[i..][0] == item && order[i..][1..] == order[i + 1..];
      if !BlockFits(item, a, ds, imageBytes.Length) {
        // The block's last pixel lies past the end of the buffer: the first write there throws.
        return Failure(IndexOutOfRange);
      }
      var cellDesiredColor := imageCells[item.x, item.y];
      allImages := PaintCell(item.x, item.y, cellDesiredColor, allImages, load, a, ds, imageBytes);
    }
    r := Success(imageBytes[..]);
  }

  // --- The builder ----------------------------------------------------------------

  class MosaicImage {
    const desiredSize: nat
    const mosaicPattern: Image
    var images: seq<ImageData>
    var imageCells: array2<ColorValue>
    var imagesPerRow: nat
    var avatarSize: nat

    /**
     * The pattern is a desiredSize-square image; the grid of cells fits in
     * it; when there are cells, the colour array has one more row and
     * column than the grid, and every colour is in [0, 1].
     */
    ghost predicate Valid()
      reads this, imageCells
    {
      ValidImage(mosaicPattern) && mosaicPattern.width == desiredSize && mosaicPattern.height == desiredSize &&
      avatarSize <= desiredSize && imagesPerRow * avatarSize <= desiredSize &&
      (imagesPerRow > 0 ==> imageCells.Length0 > imagesPerRow && imageCells.Length1 > imagesPerRow) &&
      forall i, j :: 0 <= i < imageCells.Length0 && 0 <= j < imageCells.Length1 ==> UnitColor(imageCells[i, j])
    }

    /** The pattern must already have the output's size. */
    constructor (mosaicPattern: Image, desiredSize: nat)
      requires ValidImage(mosaicPattern) && mosaicPattern.width == desiredSize && mosaicPattern.height == desiredSize
      ensures Valid()
      ensures this.mosaicPattern == mosaicPattern && this.desiredSize == desiredSize
      ensures images == [] && imagesPerRow == 0 && avatarSize == 0
    {
      this.images := [];
      this.mosaicPattern := mosaicPattern;
      this.desiredSize := desiredSize;
      imagesPerRow := 0;
      avatarSize := 0;
      imageCells := new ColorValue[0, 0]((_, _) => Black);
    }

    /**
     * Adds the mean colour of a loaded image under its file name; an image
     * that failed to load (`None`) adds nothing. Always answers null.
     */
    method AddImage(loaded: Option<Image>, filepath: string) returns (r: Option<ImageData>)
      requires Valid()
      requires loaded.Some? ==> ValidImage(loaded.value) && loaded.value.width > 0 && loaded.value.height > 0
      modifies this`images
      ensures Valid()
      ensures r == None
      ensures loaded.None? ==> images == old(images)
      ensures loaded.Some? ==> images == old(images) + [ImageData(ImageMean(loaded.value), filepath)]
    {
      if loaded.Some? {
        var image := loaded.value;
        WholeImageReadable(image);
        var aR, aG, aB, pixelCount := SumBlock(image.pixels, image.width, 0, 0, image.width, image.height);
        var n := pixelCount as real;
        var imageData := ImageData(ColorValue(aR / n, aG / n, aB / n), filepath);
        images := images + [imageData];
      }
      return None;
    }

    /**
     * Sizes the grid by the number of images and records the mean colour of
     * each cell of the pattern. With no images, the division by the grid
     * size fails.
     */
    method AnalyzeCells() returns (outcome: Outcome)
      requires Valid()
      requires CeilSqrt(|images|) <= desiredSize
      modifies this
      ensures Valid()
      ensures images == old(images)
      ensures imagesPerRow == CeilSqrt(|images|)
      ensures imagesPerRow == 0 <==> |images| == 0
      ensures |images| == 0 ==>
        outcome == Fail(DivideByZero) && avatarSize == old(avatarSize) && imageCells == old(imageCells)
      ensures |images| > 0 ==>
        outcome == Pass && avatarSize == desiredSize / imagesPerRow && fresh(imageCells) &&
        imageCells.Length0 == imagesPerRow + 1 && imageCells.Length1 == imagesPerRow + 1
      ensures |images| > 0 ==>
        forall i, j :: 0 <= i <= imagesPerRow && 0 <= j <= imagesPerRow ==>
          imageCells[i, j] == if i < imagesPerRow && j < imagesPerRow then CellMean(mosaicPattern, avatarSize, i, j) else Black
      ensures |images| > 0 ==>
        forall i, j :: 0 <= i < imagesPerRow && 0 <= j < imagesPerRow ==>
          BlockFits(Point(i, j), avatarSize, desiredSize, |mosaicPattern.pixels|)
    {
      imagesPerRow := CeilSqrt(|images|);
      if imagesPerRow == 0 {
        return Fail(DivideByZero);
      }
      avatarSize := desiredSize / imagesPerRow;
      var n, a := imagesPerRow, avatarSize;
      CellSize(desiredSize, n);
      var cells := new ColorValue[n + 1, n + 1]((_, _) => Black);
      imageCells := cells;
      FillCells(cells, n, a);
      forall i, j | 0 <= i < n && 0 <= j < n
        ensures BlockFits(Point(i, j), avatarSize, desiredSize, |mosaicPattern.pixels|)
      {
        BlockFitsWithin(Point(i, j), n, a, desiredSize);
      }
      outcome := Pass;
    }

    /** Records the mean colour of every cell of the n by n grid, column by column. */
    method FillCells(cells: array2<ColorValue>, n: nat, a: nat)
      requires ValidImage(mosaicPattern) && mosaicPattern.width == desiredSize && mosaicPattern.height == desiredSize
      requires n * a <= desiredSize && a > 0
      requires cells.Length0 == n + 1 && cells.Length1 == n + 1
      requires forall i, j :: 0 <= i <= n && 0 <= j <= n ==> cells[i, j] == Black
      modifies cells
      ensures forall i, j :: 0 <= i <= n && 0 <= j <= n ==>
        cells[i, j] == if i < n && j < n then CellMean(mosaicPattern, a, i, j) else Black
    {
      var cellPixelCount := (a * a) as real;
      for cellX := 0 to n
        invariant forall i, j :: 0 <= i <= n && 0 <= j <= n ==>
          cells[i, j] == if i < cellX && j < n then CellMean(mosaicPattern, a, i, j) else Black
      {
        for cellY := 0 to n
          invariant forall i, j :: 0 <= i <= n && 0 <= j <= n ==>
            cells[i, j] == if (i < cellX || (i == cellX && j < cellY)) && j < n then CellMean(mosaicPattern, a, i, j) else Black
        {
          cells[cellX, cellY] := AnalyzeCell(cellX, cellY, n, a, cellPixelCount);
        }
      }
    }

    /** The mean colour of one cell of an n by n grid of a by a cells, summed over its block. */
    method AnalyzeCell(cellX: nat, cellY: nat, n: nat, a: nat, cellPixelCount: real) returns (c: ColorValue)
      requires ValidImage(mosaicPattern) && mosaicPattern.width == desiredSize && mosaicPattern.height == desiredSize
      requires cellX < n && cellY < n && n * a <= desiredSize && a > 0 && cellPixelCount == (a * a) as real
      ensures c == CellMean(mosaicPattern, a, cellX, cellY)
    {
      var cellOffsetX := cellX * a;
      var cellOffsetY := cellY * a;
      BlockFitsWithin(Point(cellX, cellY), n, a, desiredSize);
      var aR, aG, aB, _ := SumBlock(mosaicPattern.pixels, mosaicPattern.width, cellOffsetX, cellOffsetY, a, a);
      c := ColorValue(aR / cellPixelCount, aG / cellPixelCount, aB / cellPixelCount);
    }

    /** The order visits only cells of the colour array. */
    ghost predicate WalkInCells(order: seq<Point>)
      reads this, imageCells
    {
      AllInCells(order, Grid(imageCells))
    }

    /**
     * The mosaic drawn over `order`: starting from an all-zero buffer, cells
     * receive the greedy choice of candidates, then solid colour.
     */
    function Mosaic(order: seq<Point>, load: string -> Image): (r: Result<Image>)
      reads this, imageCells
      requires Valid() && AvatarsFit(load, avatarSize) && WalkInCells(order)
      ensures r.Success? ==>
        r.value.width == desiredSize && r.value.height == desiredSize && |r.value.pixels| == desiredSize * desiredSize * 4
      ensures r.Failure? ==> r.error == IndexOutOfRange
      ensures r.Success? <==> forall k :: 0 <= k < |order| ==> BlockFits(order[k], avatarSize, desiredSize, desiredSize * desiredSize * 4)
    {
      var cells := Grid(imageCells);
      match Paint(order, cells, Greedy(Targets(order, cells), images), load, avatarSize, desiredSize,
                  Zeros(desiredSize * desiredSize * 4))
      case Success(bytes) => Success(Image(desiredSize, desiredSize, bytes))
      case Failure(e) => Failure(e)
    }

    /**
     * The action run for every visited cell, in order: the closest remaining
     * candidate is removed from the list and drawn into the cell; once the
     * list is empty the cell is filled with its own colour.
     */
    method DrawCells(order: seq<Point>, load: string -> Image) returns (r: Result<Image>)
      requires Valid() && AvatarsFit(load, avatarSize) && WalkInCells(order)
      ensures r == Mosaic(order, load)
    {
      var bytes := PaintWalk(order, imageCells, images, load, avatarSize, desiredSize);
      match bytes
      case Success(b) => r := Success(Image(desiredSize, desiredSize, b));
      case Failure(e) => r := Failure(e);
    }

    /**
     * The mosaic as the source builds it: the as-written spiral over the
     * imagesPerRow-square grid. An odd grid always fits; an even one fits
     * exactly when one more row of cells would, since the walk reaches cell
     * (imagesPerRow, imagesPerRow).
     */
    method CreateImage(load: string -> Image) returns (r: Result<Image>)
      requires Valid() && AvatarsFit(load, avatarSize)
      ensures |images| == 0 ==> r == Failure(NotSupported)
      ensures |images| > 0 ==>
        WalkInCells(SpiralOrder(imagesPerRow, imagesPerRow)) &&
        r == Mosaic(SpiralOrder(imagesPerRow, imagesPerRow), load)
      ensures r.Success? ==>
        r.value.width == desiredSize && r.value.height == desiredSize && |r.value.pixels| == desiredSize * desiredSize * 4
      ensures r.Failure? ==> r.error == if |images| == 0 then NotSupported else IndexOutOfRange
      ensures |images| > 0 && imagesPerRow % 2 == 1 ==> r.Success?
      ensures |images| > 0 && imagesPerRow % 2 == 0 ==>
        (r.Success? <==> (imagesPerRow + 1) * avatarSize <= desiredSize)
    {
      if |images| == 0 {
        return Failure(NotSupported);
      }
      var pattern := new SpiralLoopPattern(imagesPerRow, imagesPerRow);
      var order := pattern.Execute();
      var n, a, ds := imagesPerRow, avatarSize, desiredSize;
      AsWrittenWalkWithin(n);
      WalkWithinCells(order, n, Grid(imageCells));
      r := DrawCells(order, load);
      if n % 2 == 1 {
        OddWalkFits(n, a, ds);
      } else {
        EvenWalkFitsIff(n, a, ds);
      }
    }

    /**
     * The mosaic over the corrected walk, which visits each cell of the grid
     * exactly once: with images added it always succeeds.
     */
    method CreateImageWithinGrid(load: string -> Image) returns (r: Result<Image>)
      requires Valid() && AvatarsFit(load, avatarSize)
      ensures |images| == 0 ==> r == Failure(NotSupported)
      ensures |images| > 0 ==>
        WalkInCells(SpiralGridOrder(imagesPerRow, imagesPerRow)) &&
        r == Mosaic(SpiralGridOrder(imagesPerRow, imagesPerRow), load)
      ensures |images| > 0 ==> r.Success?
      ensures r.Success? ==>
        r.value.width == desiredSize && r.value.height == desiredSize && |r.value.pixels| == desiredSize * desiredSize * 4
    {
      if |images| == 0 {
        return Failure(NotSupported);
      }
      var pattern := new SpiralLoopPattern(imagesPerRow, imagesPerRow);
      var order := pattern.ExecuteWithinGrid();
      var n, a, ds := imagesPerRow, avatarSize, desiredSize;
      SpiralGridCoversGridOnce(n, n);
      forall k | 0 <= k < |order|
        ensures InCells(order[k], Grid(imageCells)) && BlockFits(order[k], a, ds, ds * ds * 4)
      {
        assert order[k] in order;
        BlockFitsWithin(order[k], n, a, ds);
      }
      r := DrawCells(order, load);
    }
  }
}
