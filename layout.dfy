/**
 * Window tiling: where each MemTest window goes (`LayoutMemTests`), which row counts the
 * rows box offers (`InitCboRows`) and the offsets that centre the grid in the work area
 * (`CentreXYOffsets`). Everything here is integer arithmetic on values read from controls.
 */
module Layout {
  import opened Base

  /** A screen position in pixels. */
  datatype Point = Point(x: int, y: int)

  /** The values of the offset and spacing boxes (udXOffset, udYOffset, udXSpacing, udYSpacing). */
  datatype Grid = Grid(xOffset: int, yOffset: int, xSpacing: int, ySpacing: int)

  /** Horizontal distance between two neighbouring columns; the code takes 5 off the spacing. */
  function PitchX(g: Grid, width: int): int {
    width + g.xSpacing - 5
  }

  /** Vertical distance between two neighbouring rows; the code takes 3 off the spacing. */
  function PitchY(g: Grid, height: int): int {
    height + g.ySpacing - 3
  }

  /**
   * The location given to worker `i` in a grid of `cols` columns of windows of size
   * `width` by `height`. Indices are non-negative, so C#'s `/` and `%` agree with Dafny's.
   */
  function Position(i: nat, cols: nat, g: Grid, width: int, height: int): Point
    requires cols > 0
  {
    var r := i / cols;
    var c := i % cols;
    Point(c * width + c * (g.xSpacing - 5) + g.xOffset, r * height + r * (g.ySpacing - 3) + g.yOffset)
  }

  /** The worker index whose window sits at `p`: row from `y`, column from `x`. */
  function IndexAt(p: Point, cols: nat, g: Grid, width: int, height: int): int
    requires PitchX(g, width) > 0 && PitchY(g, height) > 0
  {
    ((p.y - g.yOffset) / PitchY(g, height)) * cols + (p.x - g.xOffset) / PitchX(g, width)
  }

  lemma MulDivCancel(a: nat, b: int)
    requires b > 0
    ensures (a * b) / b == a
  {
    var q := (a * b) / b;
    var r := (a * b) % b;
    assert a * b == q * b + r && 0 <= r < b;
    assert (a - q) * b == r;
    MulSign(a - q, b);
  }

  lemma MulSign(k: int, b: int)
    requires b > 0
    ensures k >= 1 ==> k * b >= b
    ensures k <= -1 ==> k * b <= -b
  {
    if k >= 1 {
      assert k * b == (k - 1) * b + b;
    } else if k <= -1 {
      assert k * b == -((-k - 1) * b) - b;
    }
  }

  /**
   * Worker `i` is placed at column `i % cols` and row `i / cols`, one pitch apart, and its
   * index can be read back from its position.
   */
  lemma LayoutRoundTrip(i: nat, cols: nat, g: Grid, width: int, height: int)
    requires cols > 0 && PitchX(g, width) > 0 && PitchY(g, height) > 0
    ensures Position(i, cols, g, width, height)
         == Point((i % cols) * PitchX(g, width) + g.xOffset, (i / cols) * PitchY(g, height) + g.yOffset)
    ensures IndexAt(Position(i, cols, g, width, height), cols, g, width, height) == i
  {
    var r, c := i / cols, i % cols;
    var p := Position(i, cols, g, width, height);
    assert c * width + c * (g.xSpacing - 5) == c * PitchX(g, width);
    assert r * height + r * (g.ySpacing - 3) == r * PitchY(g, height);
    MulDivCancel(c, PitchX(g, width));
    MulDivCancel(r, PitchY(g, height));
    assert p.x - g.xOffset == c * PitchX(g, width);
    assert p.y - g.yOffset == r * PitchY(g, height);
  }

  /** With positive pitches no two workers share a position. */
  lemma PositionsDistinct(i: nat, j: nat, cols: nat, g: Grid, width: int, height: int)
    requires cols > 0 && PitchX(g, width) > 0 && PitchY(g, height) > 0
    ensures Position(i, cols, g, width, height) == Position(j, cols, g, width, height) <==> i == j
  {
    LayoutRoundTrip(i, cols, g, width, height);
    LayoutRoundTrip(j, cols, g, width, height);
  }

  /**
   * When `rows` divides `threads`, the grid has `threads / rows` columns, fills exactly
   * `rows` rows, and every worker lands in a row and column of that grid.
   */
  lemma RowWithinGrid(i: nat, threads: nat, rows: nat)
    requires rows > 0 && threads % rows == 0 && i < threads
    ensures threads / rows > 0 && rows * (threads / rows) == threads
    ensures i / (threads / rows) < rows && i % (threads / rows) < threads / rows
  {
    var cols := threads / rows;
    assert threads == rows * cols;
  }

  /**
   * `InitCboRows`: the row counts offered for `threads` windows are its divisors in
   * increasing order, and the default is 2 for an even count, else 1.
   */
  method InitCboRows(threads: nat) returns (options: seq<nat>, selected: nat)
    ensures forall k :: k in options <==> 1 <= k <= threads && threads % k == 0
    ensures forall a, b :: 0 <= a < b < |options| ==> options[a] < options[b]
    ensures selected == if threads % 2 == 0 then 2 else 1
    ensures threads >= 1 ==> selected in options
  {
    options := [];
    var i := 1;
    while i <= threads
      invariant 1 <= i <= threads + 1
      invariant forall k :: k in options <==> 1 <= k < i && threads % k == 0
      invariant forall a, b :: 0 <= a < b < |options| ==> options[a] < options[b]
      invariant forall a :: 0 <= a < |options| ==> options[a] < i
    {
      if threads % i == 0 {
        options := options + [i];
      }
      i := i + 1;
    }
    selected := if threads % 2 == 0 then 2 else 1;
  }

  /** The first option is a single row and the last is one row per window. */
  lemma RowOptionsEnds(threads: nat, options: seq<nat>)
    requires threads >= 1
    requires forall k :: k in options <==> 1 <= k <= threads && threads % k == 0
    requires forall a, b :: 0 <= a < b < |options| ==> options[a] < options[b]
    ensures |options| >= 1 && options[0] == 1 && options[|options| - 1] == threads
  {
    assert 1 in options;
    assert threads in options;
    assert options[0] in options && options[|options| - 1] in options;
  }

  /** C#'s `/` on `int` with a positive divisor: the quotient is truncated toward zero. */
  function TruncDiv(a: int, b: int): (q: int)
    requires b > 0
    ensures a >= 0 ==> 0 <= a - q * b < b
    ensures a < 0 ==> -b < a - q * b <= 0
  {
    if a >= 0 then a / b else -((-a) / b)
  }

  /**
   * `CentreXYOffsets`: nothing happens while either box has no selection; otherwise the
   * offsets put the grid of windows (without spacing) in the middle of the work area,
   * whose size is the already truncated `(int)workArea.Width` and `(int)workArea.Height`.
   */
  function CentreXYOffsets(rows: Option<nat>, threads: Option<nat>, workWidth: int, workHeight: int,
                           width: int, height: int): (r: Option<Point>)
    requires rows.Some? ==> rows.value > 0
    ensures r.Some? <==> rows.Some? && threads.Some?
    ensures r.Some? ==>
      var spareX := workWidth - width * (threads.value / rows.value);
      var spareY := workHeight - height * rows.value;
      // the margin left over on the far side differs from the offset by at most one pixel,
      // and it is the far margin that gets the odd pixel when there is room, the near one when not
      && (spareX >= 0 ==> 0 <= spareX - 2 * r.value.x <= 1)
      && (spareX < 0 ==> -1 <= spareX - 2 * r.value.x <= 0)
      && (spareY >= 0 ==> 0 <= spareY - 2 * r.value.y <= 1)
      && (spareY < 0 ==> -1 <= spareY - 2 * r.value.y <= 0)
  {
    if rows.None? || threads.None? then None
    else
      var cols := threads.value / rows.value;
      Some(Point(TruncDiv(workWidth - width * cols, 2), TruncDiv(workHeight - height * rows.value, 2)))
  }

  /** A grid wider than the work area gets a negative offset rounded toward zero, not down. */
  lemma CentreRoundsTowardZero()
    ensures CentreXYOffsets(Some(1), Some(3), 1000, 800, 335, 400) == Some(Point(-2, 200))
  {
  }
}
