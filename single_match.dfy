/**
 * Single-match search (`match_template`): one capture, one correlation, the
 * best location accepted against the pattern's similarity and translated to
 * screen coordinates.
 */
module SingleMatch {
  import opened Wrappers
  import opened Geometry
  import opened ScoreSurface

  /** Full-colour (exact) or grey-scale (tolerant) correlation. */
  datatype Mode = Color | Gray

  /**
   * The outcome of one capture: either the capture failed, or it gives the
   * score surface the correlation engine computes in each mode.
   */
  datatype Screenshot = ScreenshotError | Screenshot(color: Grid, gray: Grid)

  /** The engine only ever hands back non-empty rectangular surfaces. */
  predicate ValidShot(shot: Screenshot)
  {
    shot.Screenshot? ==> IsSurface(shot.color) && IsSurface(shot.gray)
  }

  /** Colour is used exactly for the reserved similarity 0.99. */
  function ModeFor(similarity: real): (mode: Mode)
    ensures mode == Color <==> similarity == 0.99
  {
    if similarity == 0.99 then Color else Gray
  }

  /** The surface correlated in `mode`. */
  function Scores(shot: Screenshot, mode: Mode): Grid
    requires shot.Screenshot?
  {
    match mode
    case Color => shot.color
    case Gray => shot.gray
  }

  /** Surface-local location moved into screen coordinates. */
  function Offset(position: Location, region: Option<Rectangle>): Location
  {
    match region
    case Some(r) => Location(position.x + r.x, position.y + r.y)
    case None => position
  }

  /**
   * `match_template`: the sentinel below the bar or on a failed capture,
   * otherwise the best location, translated unless it is the sentinel.
   */
  function MatchTemplate(pattern: Pattern, region: Option<Rectangle>, shot: Screenshot): (loc: Location)
    requires ValidShot(shot)
    ensures shot.ScreenshotError? ==> loc == NotFound
  {
    var position :=
      match shot
      case ScreenshotError => NotFound
      case Screenshot(_, _) =>
        var g := Scores(shot, ModeFor(pattern.similarity));
        var best := MaxLoc(g);
        if At(g, best) < pattern.similarity then NotFound else best;
    if position.x == -1 || position.y == -1 then position
    else Offset(position, region)
  }

  /**
   * What `match_template` answers: the sentinel after a failed capture or
   * when no score reaches the similarity (equality is accepted); otherwise
   * the location of the best score, shifted by the region's origin.
   */
  lemma MatchTemplateMeaning(pattern: Pattern, region: Option<Rectangle>, shot: Screenshot)
    requires ValidShot(shot)
    ensures shot.ScreenshotError? ==> MatchTemplate(pattern, region, shot) == NotFound
    ensures shot.Screenshot? && !Reaches(Scores(shot, ModeFor(pattern.similarity)), pattern.similarity) ==>
              MatchTemplate(pattern, region, shot) == NotFound
    ensures shot.Screenshot? && Reaches(Scores(shot, ModeFor(pattern.similarity)), pattern.similarity) ==>
              var g := Scores(shot, ModeFor(pattern.similarity));
              exists best :: IsMaxLoc(g, best) && At(g, best) >= pattern.similarity &&
                             MatchTemplate(pattern, region, shot) == Offset(best, region)
  {
    if shot.Screenshot? {
      var g := Scores(shot, ModeFor(pattern.similarity));
      var best := MaxLoc(g);
      if Reaches(g, pattern.similarity) {
        var i, j :| 0 <= i < |g| && 0 <= j < |g[i]| && g[i][j] >= pattern.similarity;
        assert At(g, best) >= g[i][j];
        assert MatchTemplate(pattern, region, shot) == Offset(best, region);
      } else {
        assert At(g, best) < pattern.similarity;
      }
    }
  }

  /**
   * A found location lies inside the searched region when the surface has
   * the extent a correlation of the pattern over that region gives.
   */
  lemma MatchInsideRegion(pattern: Pattern, region: Rectangle, shot: Screenshot)
    requires ValidShot(shot) && shot.Screenshot?
    requires pattern.width >= 1 && pattern.height >= 1
    requires var g := Scores(shot, ModeFor(pattern.similarity));
             |g| == region.height - pattern.height + 1 && |g[0]| == region.width - pattern.width + 1
    requires Reaches(Scores(shot, ModeFor(pattern.similarity)), pattern.similarity)
    ensures var loc := MatchTemplate(pattern, Some(region), shot);
            region.x <= loc.x < region.x + region.width && region.y <= loc.y < region.y + region.height
  {
  }

  /**
   * Only the surface of the selected mode matters: colour at 0.99, grey
   * otherwise.
   */
  lemma MatchUsesSelectedMode(pattern: Pattern, region: Option<Rectangle>, a: Screenshot, b: Screenshot)
    requires ValidShot(a) && ValidShot(b) && a.Screenshot? && b.Screenshot?
    requires pattern.similarity == 0.99 ==> a.color == b.color
    requires pattern.similarity != 0.99 ==> a.gray == b.gray
    ensures MatchTemplate(pattern, region, a) == MatchTemplate(pattern, region, b)
  {
  }
}
