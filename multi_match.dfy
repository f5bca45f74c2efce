/**
 * Multi-match search (`match_template_multiple`): take the global maximum of
 * the score surface, record it, overwrite a pattern-sized window around it
 * with a very low score, and repeat while the maximum lies strictly between
 * the threshold and the pattern's similarity.
 */
module MultiMatch {
  import opened Wrappers
  import opened Geometry
  import opened ScoreSurface
  import opened SingleMatch

  /** Python's `int(n / 2)`: half of `n`, truncated toward zero. */
  function TruncHalf(n: int): (r: int)
    ensures n >= 0 ==> 0 <= 2 * r <= n < 2 * r + 2
    ensures n < 0 ==> 2 * r - 2 < n <= 2 * r <= 0
  {
    if n >= 0 then n / 2 else -((-n) / 2)
  }

  /** Python's `int(r)` on a float: the integer part, truncated toward zero. */
  function Trunc(r: real): (t: int)
    ensures r >= 0.0 ==> t as real <= r < t as real + 1.0
    ensures r < 0.0 ==> t as real - 1.0 < r <= t as real
  {
    if r >= 0.0 then r.Floor else -((-r).Floor)
  }

  /** First index of the window along one axis, computed on integers. */
  function WindowStart(s: int, size: nat): int
  {
    TruncHalf(2 * s - size)
  }

  /** One past the last index of the window, computed on integers. */
  function WindowEnd(s: int, size: nat): int
  {
    TruncHalf(2 * s + size)
  }

  /**
   * The integer window bounds are the ones Python computes on floats:
   * `int(s - size / 2)` and `int(s + size / 2)`.
   */
  lemma WindowBoundsTruncate(s: int, size: nat)
    ensures WindowStart(s, size) == Trunc(s as real - size as real / 2.0)
    ensures WindowEnd(s, size) == Trunc(s as real + size as real / 2.0)
  {
  }

  /**
   * Which element, if any, a numpy index `t` selects on an axis of length `n`:
   * `-n <= t < 0` counts from the far end; anything else raises `IndexError`.
   */
  function NumpyIndex(t: int, n: nat): (k: Option<nat>)
    ensures k.Some? <==> -(n as int) <= t < n
    ensures k.Some? ==> k.value < n && (k.value == t || k.value == t + n)
  {
    if 0 <= t < n then Some(t)
    else if -(n as int) <= t < 0 then Some(t + n)
    else None
  }

  /** Some index in [lo, hi) selects element `k` of an axis of length `n`. */
  predicate Hits(lo: int, hi: int, n: nat, k: int)
  {
    (lo <= k < hi) || (lo <= k - n < hi)
  }

  /** `Hits` is exactly "some index of the range lands on `k`". */
  lemma HitsMeansSomeIndexLands(lo: int, hi: int, n: nat, k: nat)
    requires k < n
    ensures Hits(lo, hi, n, k) <==> exists t :: lo <= t < hi && NumpyIndex(t, n) == Some(k)
  {
    if Hits(lo, hi, n, k) {
      var t := if lo <= k < hi then k else k - n;
      assert lo <= t < hi && NumpyIndex(t, n) == Some(k);
    }
  }

  /** Cell (row i, column j) is overwritten when suppressing around (sx, sy). */
  predicate InWindow(rows: nat, cols: nat, sx: int, sy: int, w: nat, h: nat, i: int, j: int)
  {
    Hits(WindowStart(sx, w), WindowEnd(sx, w), cols, j) &&
    Hits(WindowStart(sy, h), WindowEnd(sy, h), rows, i)
  }

  /** The surface after one suppression step around `found`. */
  function Suppressed(g: Grid, found: Location, w: nat, h: nat): (s: Grid)
    requires IsSurface(g)
    ensures IsSurface(s) && |s| == |g| && |s[0]| == |g[0]|
    ensures forall i, j :: 0 <= i < |s| && 0 <= j < |s[i]| ==>
              s[i][j] == (if InWindow(|g|, |g[0]|, found.x, found.y, w, h, i, j) then Floor else g[i][j])
  {
    seq(|g|, i requires 0 <= i < |g| =>
      seq(|g[0]|, j requires 0 <= j < |g[0]| =>
        if InWindow(|g|, |g[0]|, found.x, found.y, w, h, i, j) then Floor else g[i][j]))
  }

  /**
   * Suppression does not clip at the surface's edges: around the top-left
   * cell, indices -1 select the last row and the last column, so the
   * opposite corner is overwritten too.
   */
  lemma SuppressionWrapsAtEdges(rows: nat, cols: nat)
    requires rows >= 3 && cols >= 3
    ensures InWindow(rows, cols, 0, 0, 2, 2, rows - 1, cols - 1)
    ensures InWindow(rows, cols, 0, 0, 2, 2, 0, 0)
    ensures !InWindow(rows, cols, 0, 0, 2, 2, 1, 1)
  {
  }

  /** For a pattern at least 2 wide and 2 high the window covers the found cell. */
  lemma WindowCoversFound(g: Grid, found: Location, w: nat, h: nat)
    requires IsSurface(g) && InSurface(g, found)
    requires w >= 2 && h >= 2
    ensures InWindow(|g|, |g[0]|, found.x, found.y, w, h, found.y, found.x)
  {
  }

  /** Every cell of `next` still above the threshold has its score from `g`. */
  ghost predicate KeepsAbove(g: Grid, next: Grid, threshold: real)
  {
    |next| == |g| &&
    (forall i :: 0 <= i < |g| ==> |next[i]| == |g[i]|) &&
    (forall i, j :: 0 <= i < |next| && 0 <= j < |next[i]| && next[i][j] > threshold ==> next[i][j] == g[i][j])
  }

  /** Every cell of `next` still above the threshold lies outside the window around `found`. */
  ghost predicate AboveOutsideWindow(next: Grid, found: Location, w: nat, h: nat, threshold: real)
    requires IsSurface(next)
  {
    forall i, j :: 0 <= i < |next| && 0 <= j < |next[i]| && next[i][j] > threshold ==>
      !InWindow(|next|, |next[0]|, found.x, found.y, w, h, i, j)
  }

  /**
   * One suppression step around a cell above the threshold: fewer cells stay
   * above it, and every cell still above it is outside the window and keeps
   * its score.
   */
  lemma SuppressStep(g: Grid, found: Location, w: nat, h: nat, threshold: real)
    requires IsSurface(g) && InSurface(g, found)
    requires w >= 2 && h >= 2 && threshold >= Floor && At(g, found) > threshold
    ensures var next := Suppressed(g, found, w, h);
            CountAbove(next, threshold) < CountAbove(g, threshold) &&
            KeepsAbove(g, next, threshold) && AboveOutsideWindow(next, found, w, h, threshold)
  {
    var next := Suppressed(g, found, w, h);
    WindowCoversFound(g, found, w, h);
    CountAboveDrops(g, next, threshold, found);
  }

  /** Two surfaces with the same shape and the same scores are equal. */
  lemma SameScores(a: Grid, b: Grid)
    requires |a| == |b|
    requires forall i :: 0 <= i < |a| ==> |a[i]| == |b[i]|
    requires forall i, j :: 0 <= i < |a| && 0 <= j < |a[i]| ==> a[i][j] == b[i][j]
    ensures a == b
  {
    forall i | 0 <= i < |a|
      ensures a[i] == b[i]
    {
      assert |a[i]| == |b[i]|;
    }
  }

  /**
   * A pattern narrower or shorter than 2 pixels leaves the found cell in
   * place, so the next round finds the very same location again.
   */
  lemma {:induction false} NarrowPatternRefindsSameCell(g: Grid, w: nat, h: nat)
    requires IsSurface(g)
    requires w < 2 || h < 2
    requires At(g, MaxLoc(g)) > Floor
    ensures MaxLoc(Suppressed(g, MaxLoc(g), w, h)) == MaxLoc(g)
  {
    var found := MaxLoc(g);
    var s := Suppressed(g, found, w, h);
    assert !InWindow(|g|, |g[0]|, found.x, found.y, w, h, found.y, found.x);
    assert s[found.y][found.x] == g[found.y][found.x];
    assert IsMaxLoc(s, found);
    MaxLocUnique(s, found, MaxLoc(s));
  }

  /**
   * Each suppression covers the found cell and leaves it at or below the
   * threshold, which is what makes the loop end (see NarrowPatternRefindsSameCell
   * for what happens otherwise).
   */
  predicate Shrinks(w: nat, h: nat, threshold: real)
  {
    w >= 2 && h >= 2 && threshold >= Floor
  }

  /** The first maximum already lies outside (threshold, similarity), so the loop ends at once. */
  predicate StopsAtOnce(g: Grid, similarity: real, threshold: real)
    requires IsSurface(g)
  {
    !(threshold < At(g, MaxLoc(g)) < similarity)
  }

  /**
   * The matches the loop reports, in discovery order, for surface `g`.
   * Requires what makes the loop terminate (`Shrinks`).
   */
  ghost function Extract(g: Grid, similarity: real, threshold: real, w: nat, h: nat): (matches: seq<Location>)
    requires IsSurface(g) && w >= 2 && h >= 2 && threshold >= Floor
    ensures |matches| <= CountAbove(g, threshold)
    decreases CountAbove(g, threshold)
  {
    var found := MaxLoc(g);
    if threshold < At(g, found) < similarity then
      var next := Suppressed(g, found, w, h);
      SuppressStep(g, found, w, h, threshold);
      [found] + Extract(next, similarity, threshold, w, h)
    else
      []
  }

  /** Each match is a cell whose score lies strictly between the two bars. */
  ghost predicate AllBetween(g: Grid, m: seq<Location>, similarity: real, threshold: real)
    requires IsSurface(g)
  {
    forall k :: 0 <= k < |m| ==> InSurface(g, m[k]) && threshold < At(g, m[k]) < similarity
  }

  /** Later matches never score higher than earlier ones. */
  ghost predicate ScoresNonIncreasing(g: Grid, m: seq<Location>)
    requires IsSurface(g)
  {
    forall a, b :: 0 <= a < b < |m| && InSurface(g, m[a]) && InSurface(g, m[b]) ==> At(g, m[b]) <= At(g, m[a])
  }

  /** No match lies in the suppression window of an earlier one, nor repeats it. */
  ghost predicate Separated(rows: nat, cols: nat, m: seq<Location>, w: nat, h: nat)
  {
    forall a, b :: 0 <= a < b < |m| ==> !InWindow(rows, cols, m[a].x, m[a].y, w, h, m[b].y, m[b].x) && m[a] != m[b]
  }

  lemma AllBetweenStep(g: Grid, next: Grid, found: Location, rest: seq<Location>, similarity: real, threshold: real)
    requires IsSurface(g) && IsSurface(next) && KeepsAbove(g, next, threshold)
    requires InSurface(g, found) && threshold < At(g, found) < similarity
    requires AllBetween(next, rest, similarity, threshold)
    ensures AllBetween(g, [found] + rest, similarity, threshold)
  {
    var m := [found] + rest;
    forall k | 1 <= k < |m|
      ensures InSurface(g, m[k]) && threshold < At(g, m[k]) < similarity
    {
      assert m[k] == rest[k - 1];
    }
  }

  lemma ScoresNonIncreasingStep(g: Grid, next: Grid, found: Location, rest: seq<Location>, similarity: real, threshold: real)
    requires IsSurface(g) && IsSurface(next) && KeepsAbove(g, next, threshold)
    requires IsMaxLoc(g, found)
    requires AllBetween(next, rest, similarity, threshold) && ScoresNonIncreasing(next, rest)
    ensures ScoresNonIncreasing(g, [found] + rest)
  {
    var m := [found] + rest;
    forall a, b | 0 <= a < b < |m| && InSurface(g, m[a]) && InSurface(g, m[b])
      ensures At(g, m[b]) <= At(g, m[a])
    {
      assert m[b] == rest[b - 1];
      if a > 0 {
        assert m[a] == rest[a - 1];
      }
    }
  }

  lemma SeparatedStep(next: Grid, found: Location, rest: seq<Location>, w: nat, h: nat, similarity: real, threshold: real)
    requires IsSurface(next) && InSurface(next, found) && w >= 2 && h >= 2
    requires AboveOutsideWindow(next, found, w, h, threshold)
    requires AllBetween(next, rest, similarity, threshold) && Separated(|next|, |next[0]|, rest, w, h)
    ensures Separated(|next|, |next[0]|, [found] + rest, w, h)
  {
    var m := [found] + rest;
    WindowCoversFound(next, found, w, h);
    forall a, b | 0 <= a < b < |m|
      ensures !InWindow(|next|, |next[0]|, m[a].x, m[a].y, w, h, m[b].y, m[b].x) && m[a] != m[b]
    {
      assert m[b] == rest[b - 1];
      if a > 0 {
        assert m[a] == rest[a - 1];
      }
    }
  }

  /** Each reported location is a cell whose original score lies strictly between the two bars. */
  lemma {:induction false} ExtractAllBetween(g: Grid, similarity: real, threshold: real, w: nat, h: nat)
    requires IsSurface(g) && w >= 2 && h >= 2 && threshold >= Floor
    ensures AllBetween(g, Extract(g, similarity, threshold, w, h), similarity, threshold)
    decreases CountAbove(g, threshold)
  {
    var found := MaxLoc(g);
    if threshold < At(g, found) < similarity {
      var next := Suppressed(g, found, w, h);
      SuppressStep(g, found, w, h, threshold);
      ExtractAllBetween(next, similarity, threshold, w, h);
      AllBetweenStep(g, next, found, Extract(next, similarity, threshold, w, h), similarity, threshold);
    }
  }

  /** Reported locations come in non-increasing order of their original scores. */
  lemma {:induction false} ExtractNonIncreasing(g: Grid, similarity: real, threshold: real, w: nat, h: nat)
    requires IsSurface(g) && w >= 2 && h >= 2 && threshold >= Floor
    ensures ScoresNonIncreasing(g, Extract(g, similarity, threshold, w, h))
    decreases CountAbove(g, threshold)
  {
    var found := MaxLoc(g);
    if threshold < At(g, found) < similarity {
      var next := Suppressed(g, found, w, h);
      SuppressStep(g, found, w, h, threshold);
      ExtractAllBetween(next, similarity, threshold, w, h);
      ExtractNonIncreasing(next, similarity, threshold, w, h);
      ScoresNonIncreasingStep(g, next, found, Extract(next, similarity, threshold, w, h), similarity, threshold);
    }
  }

  /** No reported location lies in the suppression window of an earlier one, nor repeats it. */
  lemma {:induction false} ExtractSeparated(g: Grid, similarity: real, threshold: real, w: nat, h: nat)
    requires IsSurface(g) && w >= 2 && h >= 2 && threshold >= Floor
    ensures Separated(|g|, |g[0]|, Extract(g, similarity, threshold, w, h), w, h)
    decreases CountAbove(g, threshold)
  {
    var found := MaxLoc(g);
    if threshold < At(g, found) < similarity {
      var next := Suppressed(g, found, w, h);
      SuppressStep(g, found, w, h, threshold);
      ExtractAllBetween(next, similarity, threshold, w, h);
      ExtractSeparated(next, similarity, threshold, w, h);
      SeparatedStep(next, found, Extract(next, similarity, threshold, w, h), w, h, similarity, threshold);
    }
  }

  /**
   * A surface whose best score reaches the similarity bar yields no matches
   * at all: the loop stops before recording anything.
   */
  lemma StrongBestMatchYieldsNothing(g: Grid, similarity: real, threshold: real, w: nat, h: nat)
    requires IsSurface(g) && w >= 2 && h >= 2 && threshold >= Floor
    requires Reaches(g, similarity)
    ensures Extract(g, similarity, threshold, w, h) == []
  {
    var i, j :| 0 <= i < |g| && 0 <= j < |g[i]| && g[i][j] >= similarity;
    assert At(g, MaxLoc(g)) >= g[i][j];
  }

  /** The surface left after suppressing around each location of `m`, in order. */
  ghost function Residue(g: Grid, m: seq<Location>, w: nat, h: nat): (r: Grid)
    requires IsSurface(g)
    ensures IsSurface(r) && |r| == |g| && |r[0]| == |g[0]|
    decreases |m|
  {
    if m == [] then g else Residue(Suppressed(g, m[0], w, h), m[1..], w, h)
  }

  /** Suppressing one more location extends the residue by one step. */
  lemma {:induction false} ResidueAppend(g: Grid, m: seq<Location>, x: Location, w: nat, h: nat)
    requires IsSurface(g)
    ensures Residue(g, m + [x], w, h) == Suppressed(Residue(g, m, w, h), x, w, h)
    decreases |m|
  {
    if m == [] {
      assert [] + [x] == [x];
      assert [x][1..] == [];
    } else {
      var s := Suppressed(g, m[0], w, h);
      ResidueAppend(s, m[1..], x, w, h);
      assert (m + [x])[0] == m[0];
      assert (m + [x])[1..] == m[1..] + [x];
    }
  }

  /**
   * The loop runs until it has to stop: once every reported location has
   * been suppressed, the maximum of what is left no longer lies strictly
   * between the threshold and the similarity.
   */
  lemma {:induction false} ExtractExhaustive(g: Grid, similarity: real, threshold: real, w: nat, h: nat)
    requires IsSurface(g) && w >= 2 && h >= 2 && threshold >= Floor
    ensures var r := Residue(g, Extract(g, similarity, threshold, w, h), w, h);
            !(threshold < At(r, MaxLoc(r)) < similarity)
    decreases CountAbove(g, threshold)
  {
    var found := MaxLoc(g);
    if threshold < At(g, found) < similarity {
      var next := Suppressed(g, found, w, h);
      SuppressStep(g, found, w, h, threshold);
      ExtractExhaustive(next, similarity, threshold, w, h);
      var rest := Extract(next, similarity, threshold, w, h);
      assert ([found] + rest)[1..] == rest;
    }
  }

  /** Cell (row i, column j) lies in the suppression window of some location of `m`. */
  ghost predicate Covered(rows: nat, cols: nat, m: seq<Location>, w: nat, h: nat, i: int, j: int)
  {
    exists k :: 0 <= k < |m| && InWindow(rows, cols, m[k].x, m[k].y, w, h, i, j)
  }

  /** A cell of the residue is -10000 when some window covered it, and its original score otherwise. */
  lemma {:induction false} ResidueCells(g: Grid, m: seq<Location>, w: nat, h: nat)
    requires IsSurface(g)
    ensures var r := Residue(g, m, w, h);
            forall i, j :: 0 <= i < |g| && 0 <= j < |g[0]| ==>
              r[i][j] == (if Covered(|g|, |g[0]|, m, w, h, i, j) then Floor else g[i][j])
    decreases |m|
  {
    if m != [] {
      var s := Suppressed(g, m[0], w, h);
      ResidueCells(s, m[1..], w, h);
      forall i, j | 0 <= i < |g| && 0 <= j < |g[0]|
        ensures Covered(|g|, |g[0]|, m, w, h, i, j) <==>
                InWindow(|g|, |g[0]|, m[0].x, m[0].y, w, h, i, j) || Covered(|g|, |g[0]|, m[1..], w, h, i, j)
      {
        if Covered(|g|, |g[0]|, m[1..], w, h, i, j) {
          var k :| 0 <= k < |m[1..]| && InWindow(|g|, |g[0]|, m[1..][k].x, m[1..][k].y, w, h, i, j);
          assert m[k + 1] == m[1..][k];
        }
        if Covered(|g|, |g[0]|, m, w, h, i, j) && !InWindow(|g|, |g[0]|, m[0].x, m[0].y, w, h, i, j) {
          var k :| 0 <= k < |m| && InWindow(|g|, |g[0]|, m[k].x, m[k].y, w, h, i, j);
          assert k > 0 && m[1..][k - 1] == m[k];
        }
        if InWindow(|g|, |g[0]|, m[0].x, m[0].y, w, h, i, j) {
          assert 0 < |m|;
        }
      }
    }
  }

  /**
   * When no score reaches the similarity (and the similarity is above
   * -10000), every cell scoring above the threshold ends up inside the
   * suppression window of some reported location: nothing above the
   * threshold is missed.
   */
  lemma ExtractCoversAboveThreshold(g: Grid, similarity: real, threshold: real, w: nat, h: nat)
    requires IsSurface(g) && w >= 2 && h >= 2 && threshold >= Floor
    requires !Reaches(g, similarity) && similarity > Floor
    ensures var m := Extract(g, similarity, threshold, w, h);
            forall i, j :: 0 <= i < |g| && 0 <= j < |g[0]| && g[i][j] > threshold ==> Covered(|g|, |g[0]|, m, w, h, i, j)
  {
    var m := Extract(g, similarity, threshold, w, h);
    var r := Residue(g, m, w, h);
    ExtractExhaustive(g, similarity, threshold, w, h);
    ResidueCells(g, m, w, h);
    var best := MaxLoc(r);
    assert At(r, best) < similarity by {
      if !Covered(|g|, |g[0]|, m, w, h, best.y, best.x) {
        assert At(r, best) == g[best.y][best.x];
      }
    }
    forall i, j | 0 <= i < |g| && 0 <= j < |g[0]| && g[i][j] > threshold
      ensures Covered(|g|, |g[0]|, m, w, h, i, j)
    {
      assert r[i][j] <= At(r, best);
    }
  }

  /** The contents of the score array, as a surface. */
  function Surface(res: array2<real>): (g: Grid)
    reads res
    ensures |g| == res.Length0
    ensures forall i :: 0 <= i < |g| ==> |g[i]| == res.Length1
    ensures forall i, j :: 0 <= i < res.Length0 && 0 <= j < res.Length1 ==> g[i][j] == res[i, j]
  {
    seq(res.Length0, i requires 0 <= i < res.Length0 reads res =>
      seq(res.Length1, j requires 0 <= j < res.Length1 reads res => res[i, j]))
  }

  /** The array holds exactly the scores of `g`. */
  ghost predicate Holds(res: array2<real>, g: Grid)
    reads res
  {
    |g| == res.Length0 &&
    (forall i :: 0 <= i < |g| ==> |g[i]| == res.Length1) &&
    (forall i, j :: 0 <= i < res.Length0 && 0 <= j < res.Length1 ==> res[i, j] == g[i][j])
  }

  /**
   * The nested `for` loops that write -10000 over the window around
   * (sx, sy), one `res[y][x]` at a time, skipping indices numpy rejects.
   * `g` names the scores the array holds on entry.
   */
  method Suppress(res: array2<real>, sx: int, sy: int, w: nat, h: nat, ghost g: Grid)
    requires IsSurface(g) && Holds(res, g)
    modifies res
    ensures Holds(res, Suppressed(g, Location(sx, sy), w, h))
  {
    var rows, cols := res.Length0, res.Length1;
    var x0, x1 := WindowStart(sx, w), WindowEnd(sx, w);
    var y0, y1 := WindowStart(sy, h), WindowEnd(sy, h);
    var x := x0;
    while x < x1
      invariant x0 <= x && (x <= x1 || x == x0)
      invariant forall i, j :: 0 <= i < rows && 0 <= j < cols ==>
                  res[i, j] == (if Hits(x0, x, cols, j) && Hits(y0, y1, rows, i) then Floor else g[i][j])
    {
      var y := y0;
      while y < y1
        invariant y0 <= y && (y <= y1 || y == y0)
        invariant forall i, j :: 0 <= i < rows && 0 <= j < cols ==>
                    res[i, j] == (if (Hits(x0, x, cols, j) && Hits(y0, y1, rows, i)) || (Hits(x, x + 1, cols, j) && Hits(y0, y, rows, i))
                                  then Floor else g[i][j])
      {
        var row, col := NumpyIndex(y, rows), NumpyIndex(x, cols);
        if row.Some? && col.Some? {
          res[row.value, col.value] := Floor;
        }
        y := y + 1;
      }
      x := x + 1;
    }
  }

  /** One round of the loop, as `Extract` states it. */
  lemma ExtractStep(g: Grid, similarity: real, threshold: real, w: nat, h: nat)
    requires IsSurface(g) && w >= 2 && h >= 2 && threshold >= Floor
    ensures var found := MaxLoc(g);
            Extract(g, similarity, threshold, w, h) ==
              if threshold < At(g, found) < similarity
              then [found] + Extract(Suppressed(g, found, w, h), similarity, threshold, w, h)
              else []
  {
  }

  /** Recording the current maximum keeps the loop's bookkeeping exact. */
  lemma ExtractAdvance(initial: Grid, current: Grid, matches: seq<Location>,
                       similarity: real, threshold: real, w: nat, h: nat)
    requires IsSurface(initial) && IsSurface(current) && w >= 2 && h >= 2 && threshold >= Floor
    requires matches + Extract(current, similarity, threshold, w, h) == Extract(initial, similarity, threshold, w, h)
    requires threshold < At(current, MaxLoc(current)) < similarity
    ensures (matches + [MaxLoc(current)]) + Extract(Suppressed(current, MaxLoc(current), w, h), similarity, threshold, w, h)
            == Extract(initial, similarity, threshold, w, h)
  {
    ExtractStep(current, similarity, threshold, w, h);
    var rest := Extract(Suppressed(current, MaxLoc(current), w, h), similarity, threshold, w, h);
    assert (matches + [MaxLoc(current)]) + rest == matches + ([MaxLoc(current)] + rest);
  }

  /**
   * The `while True` loop: repeatedly take the maximum, and while it lies
   * strictly between `threshold` and `similarity`, suppress around it and
   * append it.
   */
  method FindAll(res: array2<real>, similarity: real, threshold: real, w: nat, h: nat) returns (matches: seq<Location>)
    requires res.Length0 > 0 && res.Length1 > 0
    requires Shrinks(w, h, threshold) || StopsAtOnce(Surface(res), similarity, threshold)
    modifies res
    ensures IsSurface(old(Surface(res))) && Holds(res, Residue(old(Surface(res)), matches, w, h))
    ensures StopsAtOnce(Surface(res), similarity, threshold)
    ensures StopsAtOnce(old(Surface(res)), similarity, threshold) ==> matches == []
    ensures Shrinks(w, h, threshold) ==> matches == Extract(old(Surface(res)), similarity, threshold, w, h)
  {
    matches := [];
    ghost var initial := Surface(res);
    ghost var current := initial;
    ghost var shrinks := Shrinks(w, h, threshold);
    ghost var stopsAtOnce := StopsAtOnce(initial, similarity, threshold);
    while true
      invariant IsSurface(current) && Holds(res, current)
      invariant current == Residue(initial, matches, w, h)
      invariant matches == [] ==> current == initial
      invariant !shrinks || stopsAtOnce ==> matches == []
      invariant shrinks ==>
                  matches + Extract(current, similarity, threshold, w, h) == Extract(initial, similarity, threshold, w, h)
      decreases CountAbove(current, threshold)
    {
      var scores := Surface(res);
      SameScores(scores, current);
      var best := MaxLoc(scores);
      var maxVal := At(scores, best);
      if similarity > maxVal > threshold {
        assert shrinks;
        Suppress(res, best.x, best.y, w, h, current);
        SuppressStep(current, best, w, h, threshold);
        ExtractAdvance(initial, current, matches, similarity, threshold, w, h);
        ResidueAppend(initial, matches, best, w, h);
        matches := matches + [best];
        current := Suppressed(current, best, w, h);
      } else {
        if shrinks {
          ExtractStep(current, similarity, threshold, w, h);
        }
        SameScores(Surface(res), current);
        break;
      }
    }
  }

  /** The threshold `match_template_multiple` uses when none is given. */
  const DefaultThreshold: real := 0.5

  function ThresholdFor(threshold: Option<real>): real
  {
    if threshold.Some? then threshold.value else DefaultThreshold
  }

  /**
   * `match_template_multiple` on one capture: a failed capture gives no
   * matches; otherwise the matches extracted from the surface of the mode
   * the similarity selects, against the given threshold or 0.5. Locations
   * stay relative to the captured region.
   */
  method MatchTemplateMultiple(pattern: Pattern, shot: Screenshot, threshold: Option<real>) returns (matches: seq<Location>)
    requires ValidShot(shot)
    requires shot.Screenshot? ==>
               Shrinks(pattern.width, pattern.height, ThresholdFor(threshold)) ||
               StopsAtOnce(Scores(shot, ModeFor(pattern.similarity)), pattern.similarity, ThresholdFor(threshold))
    ensures shot.ScreenshotError? ==> matches == []
    ensures shot.Screenshot? && StopsAtOnce(Scores(shot, ModeFor(pattern.similarity)), pattern.similarity, ThresholdFor(threshold)) ==>
              matches == []
    ensures shot.Screenshot? && Shrinks(pattern.width, pattern.height, ThresholdFor(threshold)) ==>
              matches == Extract(Scores(shot, ModeFor(pattern.similarity)), pattern.similarity, ThresholdFor(threshold),
                                 pattern.width, pattern.height)
    ensures shot.Screenshot? && threshold.None? && pattern.width >= 2 && pattern.height >= 2 ==>
              matches == Extract(Scores(shot, ModeFor(pattern.similarity)), pattern.similarity, 0.5, pattern.width, pattern.height)
  {
    match shot
    case ScreenshotError =>
      matches := [];
    case Screenshot(_, _) =>
      var bar := if threshold.Some? then threshold.value else DefaultThreshold;
      var g := Scores(shot, ModeFor(pattern.similarity));
      var res := new real[|g|, |g[0]|]((i, j) requires 0 <= i < |g| && 0 <= j < |g[0]| => g[i][j]);
      SameScores(Surface(res), g);
      matches := FindAll(res, pattern.similarity, bar, pattern.width, pattern.height);
  }
}
