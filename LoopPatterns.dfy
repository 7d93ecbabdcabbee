/**
 * The two orders in which the mosaic builder visits its grid cells.
 *
 * A pattern in the source hands each point to a callback; here `Execute`
 * returns the sequence of points it would pass to that callback, in order.
 */
module LoopPatterns {

  /** The (X, Y) value handed to a pattern's per-cell action. */
  datatype Point = Point(x: int, y: int)

  predicate InGrid(p: Point, width: int, height: int) {
    0 <= p.x < width && 0 <= p.y < height
  }

  predicate Distinct(s: seq<Point>) {
    forall i, j :: 0 <= i < j < |s| ==> s[i] != s[j]
  }

  function Max(a: int, b: int): int {
    if a >= b then a else b
  }

  // ---------------------------------------------------------------------
  // Column-major loop
  // ---------------------------------------------------------------------

  /** The points of column `x`, top to bottom. */
  function Column(x: int, height: nat): seq<Point> {
    seq(height, y => Point(x, y))
  }

  /** The points the plain loop visits: column 0 first, each column top to bottom. */
  function ColumnMajorOrder(width: nat, height: nat): seq<Point> {
    if width == 0 then [] else ColumnMajorOrder(width - 1, height) + Column(width - 1, height)
  }

  /** The plain loop visits exactly the cells of the grid, each once. */
  lemma {:induction false} ColumnMajorExactlyOnce(width: nat, height: nat)
    ensures |ColumnMajorOrder(width, height)| == width * height
    ensures forall p :: p in ColumnMajorOrder(width, height) <==> InGrid(p, width, height)
    ensures Distinct(ColumnMajorOrder(width, height))
  {
    if width > 0 {
      ColumnMajorExactlyOnce(width - 1, height);
      var prev, col := ColumnMajorOrder(width - 1, height), Column(width - 1, height);
      assert ColumnMajorOrder(width, height) == prev + col;
      assert |prev + col| == (width - 1) * height + height == width * height;
      forall p
        ensures p in prev + col <==> InGrid(p, width, height)
      {
        if InGrid(p, width, height) && p.x == width - 1 {
          assert col[p.y] == p;
        }
      }
      forall i, j | 0 <= i < j < |prev + col|
        ensures (prev + col)[i] != (prev + col)[j]
      {
        if i < |prev| && j >= |prev| {
          assert (prev + col)[i] in prev;
        }
      }
    }
  }

  /** x is the outer loop and y the inner one: cell (x, y) is visited at step x*height + y. */
  lemma {:induction false} ColumnMajorIndex(width: nat, height: nat, x: nat, y: nat)
    requires x < width && y < height
    ensures x * height + y < |ColumnMajorOrder(width, height)|
    ensures ColumnMajorOrder(width, height)[x * height + y] == Point(x, y)
  {
    ColumnMajorExactlyOnce(width - 1, height);
    var prev := ColumnMajorOrder(width - 1, height);
    assert |prev| == (width - 1) * height;
    if x < width - 1 {
      ColumnMajorIndex(width - 1, height, x, y);
      assert x * height + y < (width - 1) * height by {
        assert x * height <= (width - 2) * height;
      }
    } else {
      assert x * height + y == |prev| + y;
    }
  }

  /** A pattern over a `Width` by `Height` grid. */
  class LoopPattern {
    const Width: nat
    const Height: nat

    constructor (width: nat, height: nat)
      ensures Width == width && Height == height
    {
      Width := width;
      Height := height;
    }

    /** Visits the cells column by column. */
    method Execute() returns (visited: seq<Point>)
      ensures visited == ColumnMajorOrder(Width, Height)
    {
      visited := [];
      for x := 0 to Width
        invariant visited == ColumnMajorOrder(x, Height)
      {
        for y := 0 to Height
          invariant visited == ColumnMajorOrder(x, Height) + Column(x, Height)[..y]
        {
          visited := visited + [Point(x, y)];
          assert Column(x, Height)[..y + 1] == Column(x, Height)[..y] + [Point(x, y)];
        }
        assert Column(x, Height)[..Height] == Column(x, Height);
      }
    }
  }

  // ---------------------------------------------------------------------
  // Spiral walk
  // ---------------------------------------------------------------------

  /** The spiral's state: a position relative to the centre and a direction. */
  datatype Walker = Walker(x: int, y: int, dx: int, dy: int)

  /** The state before the first iteration. */
  const Start := Walker(0, 0, 0, -1)

  /** The condition under which the walk turns before it moves. */
  predicate TurnsAt(x: int, y: int) {
    x == y || (x < 0 && x == -y) || (x > 0 && x == 1 - y)
  }

  /** One iteration's move: turn (dx, dy) into (-dy, dx) when `TurnsAt`, then take one step. */
  function Step(w: Walker): Walker {
    var dx := if TurnsAt(w.x, w.y) then -w.dy else w.dx;
    var dy := if TurnsAt(w.x, w.y) then w.dx else w.dy;
    Walker(w.x + dx, w.y + dy, dx, dy)
  }

  /** The state at the start of iteration `i`. */
  function WalkerAt(i: nat): Walker {
    if i == 0 then Start else Step(WalkerAt(i - 1))
  }

  /** Which relative positions a spiral hands to its action. */
  datatype Filter =
    | CentreBox  // the test as written: |x| <= Width/2 and |y| <= Height/2
    | GridBox    // the evidently intended test: the shifted point lies in [0,Width) x [0,Height)

  /**
   * The source writes `-Width / 2`; C# divides by truncation, so for a
   * non-negative width that is -(Width / 2), which is what is written here
   * (Dafny's own `/` rounds down, so `(-Width) / 2` would differ for odd widths).
   */
  predicate Accepts(f: Filter, width: nat, height: nat, p: Point) {
    match f
    case CentreBox => -(width / 2) <= p.x <= width / 2 && -(height / 2) <= p.y <= height / 2
    case GridBox => 0 <= width / 2 + p.x < width && 0 <= height / 2 + p.y < height
  }

  /** A relative position as a grid cell: offset by the centre cell. */
  function Shift(width: nat, height: nat, p: Point): Point {
    Point(width / 2 + p.x, height / 2 + p.y)
  }

  function Position(w: Walker): Point {
    Point(w.x, w.y)
  }

  /** The points handed to the action during the first `n` iterations. */
  function Emitted(f: Filter, width: nat, height: nat, n: nat): seq<Point> {
    if n == 0 then []
    else
      var p := Position(WalkerAt(n - 1));
      Emitted(f, width, height, n - 1) + (if Accepts(f, width, height, p) then [Shift(width, height, p)] else [])
  }

  /** What `SpiralLoopPattern.Execute` hands to its action, in order. */
  function SpiralOrder(width: nat, height: nat): seq<Point> {
    var t := Max(width, height);
    Emitted(CentreBox, width, height, t * t)
  }

  predicate UnitAxis(dx: int, dy: int) {
    (dx == 0 && (dy == 1 || dy == -1)) || (dy == 0 && (dx == 1 || dx == -1))
  }

  /** The direction is always one of (0,1), (0,-1), (1,0), (-1,0). */
  lemma {:induction false} DirectionIsUnitAxis(i: nat)
    ensures UnitAxis(WalkerAt(i).dx, WalkerAt(i).dy)
  {
    if i > 0 {
      DirectionIsUnitAxis(i - 1);
    }
  }

  /** Every iteration moves the position by exactly one unit step along an axis. */
  lemma UnitStep(i: nat)
    ensures var a, b := WalkerAt(i), WalkerAt(i + 1);
      UnitAxis(b.x - a.x, b.y - a.y) && b.x - a.x == b.dx && b.y - a.y == b.dy
  {
    DirectionIsUnitAxis(i + 1);
  }

  /** Every point of the as-written spiral satisfies Width/2 - Width/2 <= X <= Width/2 + Width/2, and likewise for Y. */
  lemma {:induction false} EmittedWithinCentreBox(width: nat, height: nat, n: nat)
    ensures forall q :: q in Emitted(CentreBox, width, height, n) ==>
      width / 2 - width / 2 <= q.x <= width / 2 + width / 2 &&
      height / 2 - height / 2 <= q.y <= height / 2 + height / 2
  {
    if n > 0 {
      EmittedWithinCentreBox(width, height, n - 1);
    }
  }

  /** The first point handed to the action is the centre cell (Width/2, Height/2). */
  lemma {:induction false} EmittedStartsAtCentre(f: Filter, width: nat, height: nat, n: nat)
    requires n >= 1 && width >= 1 && height >= 1
    ensures |Emitted(f, width, height, n)| >= 1
    ensures Emitted(f, width, height, n)[0] == Point(width / 2, height / 2)
  {
    if n > 1 {
      EmittedStartsAtCentre(f, width, height, n - 1);
    } else {
      assert WalkerAt(0) == Start;
    }
  }

  // --- The walk, ring by ring ---------------------------------------------
  //
  // Ring k >= 1 is the set of positions at distance k (maximum norm) from
  // the centre: 8k positions, entered at iteration (2k-1)^2 at (k, 1-k).
  // Offset j within the ring walks up the right side, left along the top,
  // down the left side and right along the bottom.

  /** The iteration at which ring k is entered; `RingStartIsSquare` shows it is (2k-1)^2. */
  function RingStart(k: int): nat
    requires k >= 1
  {
    if k == 1 then 1 else RingStart(k - 1) + 8 * (k - 1)
  }

  lemma {:induction false} RingStartIsSquare(k: int)
    requires k >= 1
    ensures RingStart(k) == (2 * k - 1) * (2 * k - 1)
  {
    if k > 1 {
      RingStartIsSquare(k - 1);
      assert (2 * k - 1) * (2 * k - 1) == (2 * k - 3) * (2 * k - 3) + 8 * (k - 1);
    }
  }

  function RingState(k: int, j: int): Walker
    requires k >= 1 && 0 <= j < 8 * k
  {
    if j < 2 * k then Walker(k, 1 - k + j, if j == 0 then 1 else 0, if j == 0 then 0 else 1)
    else if j < 4 * k then Walker(3 * k - 1 - j, k, -1, 0)
    else if j < 6 * k then Walker(-k, 5 * k - 1 - j, 0, -1)
    else Walker(j - 7 * k + 1, -k, 1, 0)
  }

  function RingPos(k: int, j: int): Point
    requires k >= 1 && 0 <= j < 8 * k
  {
    Position(RingState(k, j))
  }

  lemma RingStep(k: int, j: int)
    requires k >= 1 && 1 <= j < 8 * k
    ensures Step(RingState(k, j - 1)) == RingState(k, j)
  {
  }

  /** The walker's state at iteration RingStart(k) + j is `RingState(k, j)`. */
  lemma {:induction false} WalkerOnRing(k: int, j: int)
    requires k >= 1 && 0 <= j < 8 * k
    ensures WalkerAt(RingStart(k) + j) == RingState(k, j)
    decreases k, j
  {
    if j > 0 {
      WalkerOnRing(k, j - 1);
      OnRingNext(k, j);
    } else if k == 1 {
      assert WalkerAt(1) == Step(Start);
    } else {
      WalkerOnRing(k - 1, 8 * (k - 1) - 1);
      OnRingEntry(k);
    }
  }

  lemma WalkerNext(n: nat)
    ensures WalkerAt(n + 1) == Step(WalkerAt(n))
  {
  }

  /** One step along ring k. */
  lemma OnRingNext(k: int, j: int)
    requires k >= 1 && 1 <= j < 8 * k
    requires WalkerAt(RingStart(k) + j - 1) == RingState(k, j - 1)
    ensures WalkerAt(RingStart(k) + j) == RingState(k, j)
  {
    RingStep(k, j);
    WalkerNext(RingStart(k) + j - 1);
  }

  /** Leaving the last position of ring k-1 enters ring k at offset 0. */
  lemma OnRingEntry(k: int)
    requires k >= 2
    requires WalkerAt(RingStart(k - 1) + 8 * (k - 1) - 1) == RingState(k - 1, 8 * (k - 1) - 1)
    ensures WalkerAt(RingStart(k)) == RingState(k, 0)
  {
    var m := RingStart(k - 1) + 8 * (k - 1) - 1;
    assert RingStart(k) == m + 1;
    WalkerNext(m);
    assert RingState(k - 1, 8 * (k - 1) - 1) == Walker(k - 1, 1 - k, 1, 0);
  }

  function Ring(k: int): (r: seq<Point>)
    requires k >= 1
    ensures |r| == 8 * k
  {
    seq(8 * k, j requires 0 <= j < 8 * k => RingPos(k, j))
  }

  /** The positions of the first RingStart(k + 1) iterations: the centre, then rings 1..k. */
  function Rings(k: nat): seq<Point> {
    if k == 0 then [Point(0, 0)] else Rings(k - 1) + Ring(k)
  }

  /** What a spiral with filter `f` makes of a sequence of relative positions. */
  function Select(f: Filter, width: nat, height: nat, s: seq<Point>): seq<Point> {
    if s == [] then []
    else
      var p := s[|s| - 1];
      Select(f, width, height, s[..|s| - 1]) + (if Accepts(f, width, height, p) then [Shift(width, height, p)] else [])
  }

  /** The positions of the first `n` iterations, filtered or not. */
  function Trail(n: nat): (t: seq<Point>)
    ensures |t| == n
  {
    if n == 0 then [] else Trail(n - 1) + [Position(WalkerAt(n - 1))]
  }

  /** The spiral hands over exactly the filtered trail. */
  lemma {:induction false} EmittedIsSelectedTrail(f: Filter, width: nat, height: nat, n: nat)
    ensures Emitted(f, width, height, n) == Select(f, width, height, Trail(n))
  {
    if n > 0 {
      EmittedIsSelectedTrail(f, width, height, n - 1);
      var t := Trail(n);
      assert t[..|t| - 1] == Trail(n - 1);
    }
  }

  lemma RingPrefixNext(k: int, j: int)
    requires k >= 1 && 1 <= j <= 8 * k
    ensures Rings(k - 1) + Ring(k)[..j] == (Rings(k - 1) + Ring(k)[..j - 1]) + [RingPos(k, j - 1)]
  {
    assert Ring(k)[..j] == Ring(k)[..j - 1] + [RingPos(k, j - 1)];
  }

  lemma RingWalkerPosition(k: int, j: int, n: nat)
    requires k >= 1 && 0 <= j < 8 * k && n == RingStart(k) + j
    ensures Position(WalkerAt(n)) == RingPos(k, j)
  {
    WalkerOnRing(k, j);
  }

  /** The trail runs through the rings in order: after RingStart(k) + j iterations it is rings 0..k-1, then j positions of ring k. */
  lemma {:induction false} TrailOnRing(k: int, j: int)
    requires k >= 1 && 0 <= j <= 8 * k
    ensures Trail(RingStart(k) + j) == Rings(k - 1) + Ring(k)[..j]
    decreases k, j
  {
    if j > 0 {
      TrailOnRing(k, j - 1);
      TrailStep(k, j);
    } else if k == 1 {
      assert Trail(1) == [Position(WalkerAt(0))];
    } else {
      TrailOnRing(k - 1, 8 * (k - 1));
      TrailEntry(k);
    }
  }

  lemma TrailStep(k: int, j: int)
    requires k >= 1 && 1 <= j <= 8 * k
    requires Trail(RingStart(k) + j - 1) == Rings(k - 1) + Ring(k)[..j - 1]
    ensures Trail(RingStart(k) + j) == Rings(k - 1) + Ring(k)[..j]
  {
    var n := RingStart(k) + j - 1;
    RingWalkerPosition(k, j - 1, n);
    assert Trail(n + 1) == Trail(n) + [Position(WalkerAt(n))];
    RingPrefixNext(k, j);
  }

  lemma TrailEntry(k: int)
    requires k >= 2
    requires Trail(RingStart(k - 1) + 8 * (k - 1)) == Rings(k - 2) + Ring(k - 1)[..8 * (k - 1)]
    ensures Trail(RingStart(k) + 0) == Rings(k - 1) + Ring(k)[..0]
  {
    assert Ring(k - 1)[..8 * (k - 1)] == Ring(k - 1);
    assert RingStart(k) == RingStart(k - 1) + 8 * (k - 1);
    assert Rings(k - 1) + Ring(k)[..0] == Rings(k - 1);
  }

  /** The spiral emits, ring by ring, the filtered positions of `Rings`. */
  lemma EmittedByRing(f: Filter, width: nat, height: nat, k: int, j: int)
    requires k >= 1 && 0 <= j <= 8 * k
    ensures Emitted(f, width, height, RingStart(k) + j) == Select(f, width, height, Rings(k - 1) + Ring(k)[..j])
  {
    EmittedIsSelectedTrail(f, width, height, RingStart(k) + j);
    TrailOnRing(k, j);
  }

  /** After RingStart(k + 1) iterations the spiral has emitted the filtered `Rings(k)`. */
  lemma EmittedRings(f: Filter, width: nat, height: nat, k: nat)
    ensures Emitted(f, width, height, RingStart(k + 1)) == Select(f, width, height, Rings(k))
  {
    EmittedByRing(f, width, height, k + 1, 0);
    assert Rings(k) + Ring(k + 1)[..0] == Rings(k);
  }

  // --- What the rings cover -------------------------------------------------

  function Abs(a: int): nat {
    if a < 0 then -a else a
  }

  /** Distance from the centre in the maximum norm. */
  function Norm(p: Point): nat {
    Max(Abs(p.x), Abs(p.y))
  }

  lemma RingPosNorm(k: int, j: int)
    requires k >= 1 && 0 <= j < 8 * k
    ensures Norm(RingPos(k, j)) == k
  {
  }

  lemma RingPosInjective(k: int, i: int, j: int)
    requires k >= 1 && 0 <= i < j < 8 * k
    ensures RingPos(k, i) != RingPos(k, j)
  {
  }

  /** The offset on ring k at which the walker passes `p`. */
  function RingOffset(k: int, p: Point): (j: int)
    requires k >= 1 && Norm(p) == k
    ensures 0 <= j < 8 * k && RingPos(k, j) == p
  {
    if p.x == k && p.y > -k then p.y - 1 + k
    else if p.y == k && p.x < k then 3 * k - 1 - p.x
    else if p.x == -k && p.y < k then 5 * k - 1 - p.y
    else p.x + 7 * k - 1
  }

  lemma RingMembers(k: int)
    requires k >= 1
    ensures forall p :: p in Ring(k) <==> Norm(p) == k
    ensures Distinct(Ring(k))
  {
    forall p
      ensures p in Ring(k) <==> Norm(p) == k
    {
      if p in Ring(k) {
        var j :| 0 <= j < 8 * k && Ring(k)[j] == p;
        RingPosNorm(k, j);
      }
      if Norm(p) == k {
        assert Ring(k)[RingOffset(k, p)] == p;
      }
    }
    forall i, j | 0 <= i < j < |Ring(k)|
      ensures Ring(k)[i] != Ring(k)[j]
    {
      RingPosInjective(k, i, j);
    }
  }

  /** The first RingStart(k + 1) positions are the square of norm <= k, each once. */
  lemma {:induction false} RingsCoverSquare(k: nat)
    ensures |Rings(k)| == RingStart(k + 1)
    ensures forall p :: p in Rings(k) <==> Norm(p) <= k
    ensures Distinct(Rings(k))
  {
    if k > 0 {
      RingsCoverSquare(k - 1);
      RingMembers(k);
      var lower, ring := Rings(k - 1), Ring(k);
      assert Rings(k) == lower + ring;
      forall p
        ensures p in lower + ring <==> Norm(p) <= k
      {
      }
      forall i, j | 0 <= i < j < |lower + ring|
        ensures (lower + ring)[i] != (lower + ring)[j]
      {
        if i < |lower| && j >= |lower| {
          assert (lower + ring)[i] in lower;
          assert (lower + ring)[j] in ring;
        }
      }
    }
  }

  // --- Filtering --------------------------------------------------------------

  lemma {:induction false} SelectMembers(f: Filter, width: nat, height: nat, s: seq<Point>)
    ensures forall q :: q in Select(f, width, height, s) <==>
      exists p :: p in s && Accepts(f, width, height, p) && q == Shift(width, height, p)
    decreases |s|
  {
    if s != [] {
      var init, last := s[..|s| - 1], s[|s| - 1];
      assert s == init + [last];
      SelectMembers(f, width, height, init);
      forall q
        ensures q in Select(f, width, height, s) <==>
          exists p :: p in s && Accepts(f, width, height, p) && q == Shift(width, height, p)
      {
        if exists p :: p in s && Accepts(f, width, height, p) && q == Shift(width, height, p) {
          var p :| p in s && Accepts(f, width, height, p) && q == Shift(width, height, p);
          if p != last {
            assert p in init;
          }
        }
      }
    }
  }

  /** A point of the filtered sequence comes from an accepted position. */
  lemma SelectWitness(f: Filter, width: nat, height: nat, s: seq<Point>, q: Point) returns (p: Point)
    requires q in Select(f, width, height, s)
    ensures p in s && Accepts(f, width, height, p) && q == Shift(width, height, p)
  {
    SelectMembers(f, width, height, s);
    p :| p in s && Accepts(f, width, height, p) && q == Shift(width, height, p);
  }

  /** An accepted position is kept, shifted. */
  lemma SelectKeeps(f: Filter, width: nat, height: nat, s: seq<Point>, p: Point)
    requires p in s && Accepts(f, width, height, p)
    ensures Shift(width, height, p) in Select(f, width, height, s)
  {
    SelectMembers(f, width, height, s);
  }

  lemma {:induction false} SelectDistinct(f: Filter, width: nat, height: nat, s: seq<Point>)
    requires Distinct(s)
    ensures Distinct(Select(f, width, height, s))
    decreases |s|
  {
    if s != [] {
      var init, last := s[..|s| - 1], s[|s| - 1];
      assert last !in init by {
        forall m | 0 <= m < |init|
          ensures init[m] != last
        {
          assert init[m] == s[m];
        }
      }
      SelectDistinct(f, width, height, init);
      SelectMembers(f, width, height, init);
      var a := Select(f, width, height, init);
      if Accepts(f, width, height, last) {
        assert Shift(width, height, last) !in a;
        var r := a + [Shift(width, height, last)];
        assert Select(f, width, height, s) == r;
        forall i, j | 0 <= i < j < |r|
          ensures r[i] != r[j]
        {
          if j == |a| {
            assert r[i] in a;
          }
        }
      }
    }
  }

  /** When every position passes the filter, nothing is dropped. */
  lemma {:induction false} SelectAllAccepted(f: Filter, width: nat, height: nat, s: seq<Point>)
    requires forall p :: p in s ==> Accepts(f, width, height, p)
    ensures |Select(f, width, height, s)| == |s|
    decreases |s|
  {
    if s != [] {
      SelectAllAccepted(f, width, height, s[..|s| - 1]);
      assert s[|s| - 1] in s;
    }
  }

  // --- The three coverage results ------------------------------------------------

  lemma OddSpiralIsRings(side: nat)
    requires side % 2 == 1
    ensures SpiralOrder(side, side) == Select(CentreBox, side, side, Rings(side / 2))
  {
    var k := side / 2;
    RingStartIsSquare(k + 1);
    assert Max(side, side) * Max(side, side) == RingStart(k + 1);
    EmittedRings(CentreBox, side, side, k);
  }

  /** For an odd square grid the as-written spiral hands every cell to the action exactly once. */
  lemma OddSpiralCoversGridOnce(side: nat)
    requires side % 2 == 1
    ensures |SpiralOrder(side, side)| == side * side
    ensures Distinct(SpiralOrder(side, side))
    ensures forall q :: q in SpiralOrder(side, side) <==> InGrid(q, side, side)
  {
    var k := side / 2;
    OddSpiralIsRings(side);
    OddRingsCoverGrid(side, k);
  }

  /** The rings up to k, kept and shifted by the centre box of side 2k+1, are that grid once over. */
  lemma OddRingsCoverGrid(side: nat, k: nat)
    requires side == k + k + 1
    ensures |Select(CentreBox, side, side, Rings(k))| == side * side
    ensures Distinct(Select(CentreBox, side, side, Rings(k)))
    ensures forall q :: q in Select(CentreBox, side, side, Rings(k)) <==> InGrid(q, side, side)
  {
    var rings := Rings(k);
    RingStartIsSquare(k + 1);
    RingsCoverSquare(k);
    SelectAllAccepted(CentreBox, side, side, rings);
    SelectDistinct(CentreBox, side, side, rings);
    forall q
      ensures q in Select(CentreBox, side, side, rings) <==> InGrid(q, side, side)
    {
      if q in Select(CentreBox, side, side, rings) {
        OddSelectedInGrid(side, k, q);
      }
      if InGrid(q, side, side) {
        OddGridSelected(side, k, q);
      }
    }
  }

  lemma OddSelectedInGrid(side: nat, k: nat, q: Point)
    requires side == k + k + 1 && q in Select(CentreBox, side, side, Rings(k))
    ensures InGrid(q, side, side)
  {
    var p := SelectWitness(CentreBox, side, side, Rings(k), q);
  }

  lemma OddGridSelected(side: nat, k: nat, q: Point)
    requires side == k + k + 1 && InGrid(q, side, side)
    ensures q in Select(CentreBox, side, side, Rings(k))
  {
    var p := Point(q.x - k, q.y - k);
    assert side / 2 == k;
    assert Norm(p) <= k;
    InRings(k, p);
    assert Accepts(CentreBox, side, side, p) && Shift(side, side, p) == q;
    SelectKeeps(CentreBox, side, side, Rings(k), p);
  }

  lemma InRings(k: nat, p: Point)
    requires Norm(p) <= k
    ensures p in Rings(k)
  {
    RingsCoverSquare(k);
  }

  /** For side 2k the walk stops one short of the half-way point of ring k. */
  lemma EvenSpiralIsPartialRing(side: nat, k: int)
    requires side == k + k && k >= 1
    ensures SpiralOrder(side, side) == Select(CentreBox, side, side, Rings(k - 1) + Ring(k)[..4 * k - 1])
  {
    RingStartIsSquare(k);
    assert Max(side, side) * Max(side, side) == RingStart(k) + (4 * k - 1);
    EmittedByRing(CentreBox, side, side, k, 4 * k - 1);
  }

  /** The positions of the even spiral lie strictly right of and below the top-left corner of ring side/2. */
  lemma EvenSpiralPositions(k: int, p: Point)
    requires k >= 1 && p in Rings(k - 1) + Ring(k)[..4 * k - 1]
    ensures -k < p.x <= k && -k < p.y <= k
  {
    var lower, part := Rings(k - 1), Ring(k)[..4 * k - 1];
    if p in lower {
      RingsCoverSquare(k - 1);
      assert Norm(p) <= k - 1;
    } else {
      assert p in part;
      var j :| 0 <= j < |part| && part[j] == p;
      assert p == RingPos(k, j);
    }
  }

  lemma EvenSpiralBounds(side: nat)
    requires side % 2 == 0 && side >= 2
    ensures forall q :: q in SpiralOrder(side, side) ==> 1 <= q.x <= side && 1 <= q.y <= side
  {
    var k := side / 2;
    var s := Rings(k - 1) + Ring(k)[..4 * k - 1];
    EvenSpiralIsPartialRing(side, k);
    forall q | q in SpiralOrder(side, side)
      ensures 1 <= q.x <= side && 1 <= q.y <= side
    {
      var p := SelectWitness(CentreBox, side, side, s, q);
      EvenSpiralPositions(k, p);
    }
  }

  lemma EvenSpiralReaches(side: nat)
    requires side % 2 == 0 && side >= 2
    ensures Point(side, side) in SpiralOrder(side, side)
    ensures Point(side, 1) in SpiralOrder(side, side)
  {
    var k := side / 2;
    var s := Rings(k - 1) + Ring(k)[..4 * k - 1];
    EvenSpiralIsPartialRing(side, k);
    PartialRingCorners(k);
    assert Shift(side, side, Point(k, k)) == Point(side, side);
    assert Shift(side, side, Point(k, 1 - k)) == Point(side, 1);
    SelectKeeps(CentreBox, side, side, s, Point(k, k));
    SelectKeeps(CentreBox, side, side, s, Point(k, 1 - k));
  }

  /** The first 4k - 1 positions of ring k include its bottom-right corner and its first position. */
  lemma PartialRingCorners(k: int)
    requires k >= 1
    ensures Point(k, k) in Rings(k - 1) + Ring(k)[..4 * k - 1]
    ensures Point(k, 1 - k) in Rings(k - 1) + Ring(k)[..4 * k - 1]
  {
    var lower, ring := Rings(k - 1), Ring(k);
    var s := lower + ring[..4 * k - 1];
    assert s[|lower| + 2 * k - 1] == ring[2 * k - 1] == Point(k, k);
    assert s[|lower|] == ring[0] == Point(k, 1 - k);
  }

  /**
   * For an even square grid (side 2k) the as-written spiral stops partway
   * round ring k: it never hands over column 0 or row 0, and it does hand
   * over cells in column `side` and row `side`, among them (side, side).
   */
  lemma EvenSpiralMissesZeroReachesSide(side: nat)
    requires side % 2 == 0 && side >= 2
    ensures forall q :: q in SpiralOrder(side, side) ==> 1 <= q.x <= side && 1 <= q.y <= side
    ensures Point(side, side) in SpiralOrder(side, side)
    ensures Point(side, 1) in SpiralOrder(side, side)
  {
    EvenSpiralBounds(side);
    EvenSpiralReaches(side);
  }

  /** The 2 by 2 walk: (1,1), (2,1), (2,2), (1,2). */
  lemma TwoByTwoSpiral()
    ensures SpiralOrder(2, 2) == [Point(1, 1), Point(2, 1), Point(2, 2), Point(1, 2)]
  {
    assert WalkerAt(1) == Walker(1, 0, 1, 0);
    assert WalkerAt(2) == Walker(1, 1, 0, 1);
    assert WalkerAt(3) == Walker(0, 1, -1, 0);
  }

  /** The walk the corrected spiral makes: whole rings out to the larger half-side, filtered to the grid. */
  function SpiralGridOrder(width: nat, height: nat): seq<Point> {
    Emitted(GridBox, width, height, RingStart(Max(width, height) / 2 + 1))
  }

  /** The corrected spiral starts at the centre and hands every cell of any grid to the action exactly once. */
  lemma SpiralGridCoversGridOnce(width: nat, height: nat)
    ensures Distinct(SpiralGridOrder(width, height))
    ensures forall q :: q in SpiralGridOrder(width, height) <==> InGrid(q, width, height)
    ensures width >= 1 && height >= 1 ==>
      |SpiralGridOrder(width, height)| >= 1 && SpiralGridOrder(width, height)[0] == Point(width / 2, height / 2)
  {
    var k := Max(width, height) / 2;
    EmittedRings(GridBox, width, height, k);
    RingsCoverSquare(k);
    SelectDistinct(GridBox, width, height, Rings(k));
    forall q
      ensures q in SpiralGridOrder(width, height) <==> InGrid(q, width, height)
    {
      SpiralGridMember(width, height, q);
    }
    if width >= 1 && height >= 1 {
      EmittedStartsAtCentre(GridBox, width, height, RingStart(k + 1));
    }
  }

  lemma SpiralGridMember(width: nat, height: nat, q: Point)
    ensures q in SpiralGridOrder(width, height) <==> InGrid(q, width, height)
  {
    var k := Max(width, height) / 2;
    var s := Rings(k);
    EmittedRings(GridBox, width, height, k);
    assert SpiralGridOrder(width, height) == Select(GridBox, width, height, s);
    if q in Select(GridBox, width, height, s) {
      var p := SelectWitness(GridBox, width, height, s, q);
    }
    if InGrid(q, width, height) {
      var p := CellOffset(width, height, q);
      RingsCoverSquare(k);
      assert p in s;
      SelectKeeps(GridBox, width, height, s, p);
    }
  }

  /** A grid cell, relative to the centre: within half the larger side, and accepted by the grid filter. */
  lemma CellOffset(width: nat, height: nat, q: Point) returns (p: Point)
    requires InGrid(q, width, height)
    ensures Norm(p) <= Max(width, height) / 2
    ensures Accepts(GridBox, width, height, p) && Shift(width, height, p) == q
  {
    p := Point(q.x - width / 2, q.y - height / 2);
    assert width / 2 <= Max(width, height) / 2 && height / 2 <= Max(width, height) / 2;
  }

  /** One more iteration appends the current position if the filter accepts it, and takes one step. */
  lemma EmittedNext(f: Filter, width: nat, height: nat, n: nat)
    ensures WalkerAt(n + 1) == Step(WalkerAt(n))
    ensures var p := Position(WalkerAt(n));
      Emitted(f, width, height, n + 1) ==
        Emitted(f, width, height, n) + (if Accepts(f, width, height, p) then [Shift(width, height, p)] else [])
  {
  }

  /** Rings 1..k end after (2k+1)^2 iterations. */
  lemma WholeRingsIterations(k: nat, t: int)
    requires t == k * 2 + 1
    ensures t * t == RingStart(k + 1)
  {
    RingStartIsSquare(k + 1);
  }

  /** A pattern that starts at the centre of a `Width` by `Height` grid and spirals outwards. */
  class SpiralLoopPattern {
    const Width: nat
    const Height: nat

    constructor (width: nat, height: nat)
      ensures Width == width && Height == height
    {
      Width := width;
      Height := height;
    }

    /** The walk as the source writes it: Max(Width, Height)^2 iterations, filtered about the centre. */
    method Execute() returns (visited: seq<Point>)
      ensures visited == SpiralOrder(Width, Height)
    {
      var x, y, dx, dy := 0, 0, 0, -1;
      var t := Max(Width, Height);
      var max := t * t;
      var x2 := Width / 2;
      var y2 := Height / 2;
      visited := [];
      for i := 0 to max
        invariant Walker(x, y, dx, dy) == WalkerAt(i)
        invariant visited == Emitted(CentreBox, Width, Height, i)
      {
        EmittedNext(CentreBox, Width, Height, i);
        if -(Width / 2) <= x && x <= Width / 2 && -(Height / 2) <= y && y <= Height / 2 {
          visited := visited + [Point(x2 + x, y2 + y)];
        }
        if x == y || (x < 0 && x == -y) || (x > 0 && x == 1 - y) {
          t := dx; dx := -dy; dy := t;
        }
        x, y := x + dx, y + dy;
      }
    }

    /**
     * The walk with the two changes that make it cover the grid: as many
     * iterations as whole rings out to half the larger side need, and a
     * filter that keeps exactly the points inside [0,Width) x [0,Height).
     */
    method ExecuteWithinGrid() returns (visited: seq<Point>)
      ensures visited == SpiralGridOrder(Width, Height)
    {
      var x, y, dx, dy := 0, 0, 0, -1;
      var t := Max(Width, Height) / 2 * 2 + 1;
      var max := t * t;
      var x2 := Width / 2;
      var y2 := Height / 2;
      WholeRingsIterations(Max(Width, Height) / 2, t);
      visited := [];
      for i := 0 to max
        invariant Walker(x, y, dx, dy) == WalkerAt(i)
        invariant visited == Emitted(GridBox, Width, Height, i)
      {
        EmittedNext(GridBox, Width, Height, i);
        if 0 <= x2 + x < Width && 0 <= y2 + y < Height {
          visited := visited + [Point(x2 + x, y2 + y)];
        }
        if x == y || (x < 0 && x == -y) || (x > 0 && x == 1 - y) {
          t := dx; dx := -dy; dy := t;
        }
        x, y := x + dx, y + dy;
      }
    }
  }
}
