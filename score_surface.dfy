/**
 * The score surface that the correlation engine hands to the search, its
 * global maximum as `cv2.minMaxLoc` reports it, and the count of cells that
 * score above a threshold (the measure that makes multi-match terminate).
 */
module ScoreSurface {
  import opened Geometry

  /** Correlation scores indexed [row][column], i.e. [y][x]. */
  type Grid = seq<seq<real>>

  /** The score that suppression writes over already-reported matches. */
  const Floor: real := -10000.0

  /** A non-empty rectangular surface. */
  predicate IsSurface(g: Grid)
  {
    |g| > 0 && |g[0]| > 0 && forall i :: 0 <= i < |g| ==> |g[i]| == |g[0]|
  }

  predicate InSurface(g: Grid, loc: Location)
    requires IsSurface(g)
  {
    0 <= loc.y < |g| && 0 <= loc.x < |g[0]|
  }

  function At(g: Grid, loc: Location): real
    requires IsSurface(g) && InSurface(g, loc)
  {
    g[loc.y][loc.x]
  }

  /** Cell (row i, column j) is scanned before `loc` in row-major order. */
  predicate Before(i: int, j: int, loc: Location)
  {
    i < loc.y || (i == loc.y && j < loc.x)
  }

  /** Some cell scores at least `bar`. */
  ghost predicate Reaches(g: Grid, bar: real)
  {
    exists i, j :: 0 <= i < |g| && 0 <= j < |g[i]| && g[i][j] >= bar
  }

  /**
   * `loc` holds the global maximum, and it is the first cell holding it in
   * row-major scan order (the cell `cv2.minMaxLoc` reports).
   */
  ghost predicate IsMaxLoc(g: Grid, loc: Location)
    requires IsSurface(g)
  {
    InSurface(g, loc) &&
    (forall i, j :: 0 <= i < |g| && 0 <= j < |g[i]| ==> g[i][j] <= g[loc.y][loc.x]) &&
    (forall i, j :: 0 <= i < |g| && 0 <= j < |g[i]| && Before(i, j, loc) ==> g[i][j] < g[loc.y][loc.x])
  }

  /** Index of the first maximum of a non-empty row. */
  function RowArgMax(row: seq<real>): (j: nat)
    requires |row| > 0
    ensures j < |row|
    ensures forall k :: 0 <= k < |row| ==> row[k] <= row[j]
    ensures forall k :: 0 <= k < j ==> row[k] < row[j]
    decreases |row|
  {
    if |row| == 1 then 0
    else
      var j := RowArgMax(row[..|row| - 1]);
      if row[|row| - 1] > row[j] then |row| - 1 else j
  }

  /** `cv2.minMaxLoc`'s maximum location, as (x, y). */
  function MaxLoc(g: Grid): (loc: Location)
    requires IsSurface(g)
    ensures IsMaxLoc(g, loc)
    decreases |g|
  {
    if |g| == 1 then Location(RowArgMax(g[0]), 0)
    else
      var prev := MaxLoc(g[..|g| - 1]);
      var j := RowArgMax(g[|g| - 1]);
      if g[|g| - 1][j] > g[prev.y][prev.x] then Location(j, |g| - 1) else prev
  }

  /** The maximum location is determined by the surface alone. */
  lemma MaxLocUnique(g: Grid, a: Location, b: Location)
    requires IsSurface(g) && IsMaxLoc(g, a) && IsMaxLoc(g, b)
    ensures a == b
  {
    assert g[a.y][a.x] == g[b.y][b.x];
    assert !Before(a.y, a.x, b) && !Before(b.y, b.x, a);
  }

  /** Number of cells in a row that score strictly above `threshold`. */
  function RowCountAbove(row: seq<real>, threshold: real): nat
  {
    if row == [] then 0
    else (if row[0] > threshold then 1 else 0) + RowCountAbove(row[1..], threshold)
  }

  /** Number of cells of a surface that score strictly above `threshold`. */
  function CountAbove(g: Grid, threshold: real): nat
  {
    if g == [] then 0
    else RowCountAbove(g[0], threshold) + CountAbove(g[1..], threshold)
  }

  /** A row in which no cell rose above the threshold counts no more. */
  lemma {:induction false} RowCountAboveMonotone(r: seq<real>, s: seq<real>, threshold: real)
    requires |r| == |s|
    requires forall k :: 0 <= k < |s| && s[k] > threshold ==> r[k] > threshold
    ensures RowCountAbove(s, threshold) <= RowCountAbove(r, threshold)
    decreases |r|
  {
    if r != [] {
      RowCountAboveMonotone(r[1..], s[1..], threshold);
    }
  }

  /** ... and counts strictly less when cell `k` fell to or below it. */
  lemma {:induction false} RowCountAboveDrops(r: seq<real>, s: seq<real>, threshold: real, k: nat)
    requires |r| == |s| && k < |r|
    requires forall m :: 0 <= m < |s| && s[m] > threshold ==> r[m] > threshold
    requires r[k] > threshold && s[k] <= threshold
    ensures RowCountAbove(s, threshold) < RowCountAbove(r, threshold)
    decreases |r|
  {
    if k == 0 {
      RowCountAboveMonotone(r[1..], s[1..], threshold);
    } else {
      RowCountAboveDrops(r[1..], s[1..], threshold, k - 1);
    }
  }

  lemma {:induction false} CountAboveMonotone(g: Grid, h: Grid, threshold: real)
    requires |g| == |h|
    requires forall i :: 0 <= i < |g| ==> |g[i]| == |h[i]|
    requires forall i, j :: 0 <= i < |h| && 0 <= j < |h[i]| && h[i][j] > threshold ==> g[i][j] > threshold
    ensures CountAbove(h, threshold) <= CountAbove(g, threshold)
    decreases |g|
  {
    if g != [] {
      RowCountAboveMonotone(g[0], h[0], threshold);
      CountAboveMonotone(g[1..], h[1..], threshold);
    }
  }

  /**
   * When no cell rises above the threshold and one cell drops to or below it,
   * fewer cells score above the threshold.
   */
  lemma {:induction false} CountAboveDrops(g: Grid, h: Grid, threshold: real, loc: Location)
    requires |g| == |h|
    requires forall i :: 0 <= i < |g| ==> |g[i]| == |h[i]|
    requires forall i, j :: 0 <= i < |h| && 0 <= j < |h[i]| && h[i][j] > threshold ==> g[i][j] > threshold
    requires 0 <= loc.y < |g| && 0 <= loc.x < |g[loc.y]|
    requires g[loc.y][loc.x] > threshold && h[loc.y][loc.x] <= threshold
    ensures CountAbove(h, threshold) < CountAbove(g, threshold)
    decreases |g|
  {
    if loc.y == 0 {
      RowCountAboveDrops(g[0], h[0], threshold, loc.x);
      CountAboveMonotone(g[1..], h[1..], threshold);
    } else {
      RowCountAboveMonotone(g[0], h[0], threshold);
      CountAboveDrops(g[1..], h[1..], threshold, Location(loc.x, loc.y - 1));
    }
  }
}
