# Image search core, modelled in Dafny

This project models the pattern-search engine in `core/image_search/image_search.py`. The engine locates a small reference image (the *pattern*) inside a captured screen region. It has five parts:

- **Size guard** (`is_pattern_size_correct`): refuses patterns wider or taller than the region.
- **Single-match search** (`match_template`):
  - takes the correlation engine's best location;
  - rejects it when its score is below the pattern's similarity;
  - translates an accepted location by the region's origin;
  - answers the sentinel (-1, -1) on a failed capture or a rejected score.
- **Multi-match search** (`match_template_multiple`): repeatedly takes the global maximum of the score surface while it lies strictly between the threshold and the similarity. It records that location and overwrites a pattern-sized window around it with -10000 before the next round.
- **Wait until found** (`image_find`) and **wait until vanished** (`image_vanish`): polling loops with a deadline, built on single-match search.

Modules, one per concern:

- `Wrappers`: the `Option` type.
- `Geometry`: locations, regions, patterns and the size guard.
- `ScoreSurface`:
  - the score surface as a rectangular `seq<seq<real>>` indexed `[y][x]`;
  - `cv2.minMaxLoc`'s maximum location, taken as the first maximum in row-major scan order;
  - the count of cells above a threshold, which is what makes multi-match terminate.
- `SingleMatch`: a capture outcome and `match_template`.
- `MultiMatch`:
  - the suppression window with numpy's index rules;
  - the in-place loop over an `array2<real>` (`res[y][x]` becomes `res[y, x]`);
  - `Extract`, the specification that loop is proved against.
- `Polling`: the two wrappers.

### Inputs that replace the outside world

- A capture is a `Screenshot`: either `ScreenshotError`, or the score surfaces the correlation engine yields in colour mode and in grey mode.
- Wall-clock time is a sequence of `now()` readings, in seconds. The first reading is taken before the loop, then one after each search.
- The deadline is the first reading plus `timedelta(seconds=timeout)`. That is the timeout rounded to whole microseconds, with ties going to the even count, so a timeout of at most half a microsecond gives no search at all.
- The search outcomes are a sequence of captures, one per search.
- `Settings.auto_wait_timeout` is a parameter of `ImageFind`.

### Behaviour the model keeps from the code

- **`image_vanish` timeout.** It answers `None`, never `False`, when the deadline passes while the pattern is still seen. This includes a timeout ≤ 0 (line 184).
- **Suppression at edges.** Suppression does not clip at the surface's edges. A window index of -1 selects the last row or column, because numpy wraps negative indices. Only indices outside `[-n, n)` are skipped, through the swallowed `IndexError` (lines 116-121).
- **Multi-match coordinates.** `match_template_multiple` reports locations relative to the captured region; they are not translated by its origin (line 122).
- **Strongest match in multi-match.** A best score at or above the similarity stops multi-match at once, so it reports nothing, not even locations with weaker scores (line 113).
- **Required region.** Both wrappers need a region, because the guard reads `region.width` (line 35). `image_vanish` also needs a timeout, because `timedelta(seconds=None)` fails (line 174).

## Model

| member | source | states |
|---|---|---|
| Geometry.PatternSizeCorrect | core/image_search/image_search.py:32-45 | the guard holds exactly when pattern width ≤ region width and pattern height ≤ region height, and fails exactly when either dimension exceeds the region's |
| SingleMatch.ModeFor | core/image_search/image_search.py:60-61 | colour mode is chosen exactly when the similarity equals 0.99, grey otherwise |
| SingleMatch.MatchTemplate | core/image_search/image_search.py:75-77 | a failed capture yields the sentinel (-1, -1) rather than an error |
| SingleMatch.MatchTemplateMeaning | core/image_search/image_search.py:63-84 | failed capture gives the sentinel; when no score reaches the similarity, the sentinel, untranslated; otherwise the first global maximum (whose score is ≥ the similarity, equality accepted) shifted by the region origin, or unshifted without a region |
| SingleMatch.MatchInsideRegion | core/image_search/image_search.py:79-82 | when the surface has the extent of a correlation over the region and some score reaches the similarity, the answer lies inside the region |
| SingleMatch.MatchUsesSelectedMode | core/image_search/image_search.py:60-61 | two captures that agree on the surface of the selected mode give the same answer, whatever the other mode's surface holds |
| ScoreSurface.RowArgMax | core/image_search/image_search.py:64 | the index of the first maximum of a row: every cell is ≤ it and every earlier cell is strictly below it |
| ScoreSurface.MaxLoc | core/image_search/image_search.py:64 | the location `minMaxLoc` reports: in the surface, holding the global maximum, with every earlier cell in row-major order strictly below it |
| ScoreSurface.MaxLocUnique | core/image_search/image_search.py:107 | at most one location satisfies the maximum-location property, so the reported one is determined by the scores |
| ScoreSurface.CountAboveDrops | core/image_search/image_search.py:113-121 | when no cell rises above the threshold and one cell falls to or below it, the number of cells above the threshold strictly decreases |
| MultiMatch.TruncHalf | core/image_search/image_search.py:116-117 | Python's `int(n / 2)`: rounds toward zero, so for n ≥ 0 it is ⌊n/2⌋ and for n < 0 it is ⌈n/2⌉ |
| MultiMatch.Trunc | core/image_search/image_search.py:116-117 | Python's `int()` on a float: the integer part, truncated toward zero for both signs |
| MultiMatch.WindowBoundsTruncate | core/image_search/image_search.py:116-117 | the integer window bounds equal `int(s - size / 2)` and `int(s + size / 2)` computed on reals and truncated toward zero |
| MultiMatch.NumpyIndex | core/image_search/image_search.py:118-121 | an index selects an element exactly when it lies in [-n, n); a negative index selects element t + n, a non-negative one element t; any other index is skipped |
| MultiMatch.HitsMeansSomeIndexLands | core/image_search/image_search.py:116-121 | an element is overwritten by a range of indices exactly when some index of the range selects it under numpy's rules (both directions) |
| MultiMatch.Suppressed | core/image_search/image_search.py:116-121 | after one suppression step every cell in the window is -10000 and every other cell keeps its score; the surface keeps its shape |
| MultiMatch.SuppressionWrapsAtEdges | core/image_search/image_search.py:116-121 | around the top-left cell with a 2×2 pattern the opposite corner is overwritten too, while cell (1, 1) is not: suppression wraps, it does not clip |
| MultiMatch.WindowCoversFound | core/image_search/image_search.py:116-117 | for a pattern at least 2 wide and 2 high the window contains the found cell |
| MultiMatch.SuppressStep | core/image_search/image_search.py:113-121 | suppressing around a cell above the threshold (threshold ≥ -10000) strictly lowers the count of cells above the threshold; every cell still above it keeps its score and lies outside the window |
| MultiMatch.NarrowPatternRefindsSameCell | core/image_search/image_search.py:113-121 | for a pattern narrower or shorter than 2 the found cell survives suppression, so the next round finds the same location again and the loop never ends |
| MultiMatch.Extract | core/image_search/image_search.py:105-126 | the reported locations, in discovery order, number at most the cells above the threshold |
| MultiMatch.ExtractAllBetween | core/image_search/image_search.py:105-126 | every reported location is a cell of the original surface whose score lies strictly between threshold and similarity |
| MultiMatch.ExtractNonIncreasing | core/image_search/image_search.py:105-126 | the reported locations come in discovery order, whose original scores never increase along the list |
| MultiMatch.ExtractSeparated | core/image_search/image_search.py:113-123 | no reported location lies in the suppression window of an earlier one, and none is reported twice |
| MultiMatch.ExtractExhaustive | core/image_search/image_search.py:106-125 | the loop runs until it must stop: after suppressing every reported location in order, the maximum of what is left is not strictly between threshold and similarity |
| MultiMatch.ResidueAppend | core/image_search/image_search.py:116-123 | suppressing the locations of a list followed by one more equals suppressing the list and then that location |
| MultiMatch.ResidueCells | core/image_search/image_search.py:116-121 | after suppressing a list of locations in order, a cell is -10000 exactly when some location's window covered it, and keeps its score otherwise |
| MultiMatch.ExtractCoversAboveThreshold | core/image_search/image_search.py:105-126 | when no score reaches the similarity (and the similarity is above -10000), every cell scoring above the threshold lies in the suppression window of some reported location |
| MultiMatch.StrongBestMatchYieldsNothing | core/image_search/image_search.py:113-125 | when some score reaches the similarity, multi-match reports no location at all |
| MultiMatch.Suppress | core/image_search/image_search.py:114-121 | the nested loops leave the array holding the suppressed surface: -10000 in the window with numpy's wrap-around, all other cells unchanged |
| MultiMatch.FindAll | core/image_search/image_search.py:105-126 | the `while True` loop returns the empty list when the first maximum is outside (threshold, similarity), whatever the pattern size; for a pattern at least 2×2 and a threshold ≥ -10000 it returns exactly the locations `Extract` specifies for the array's initial contents; it leaves in the array the initial scores with every reported location suppressed in order, and the maximum left there is outside (threshold, similarity), the break condition of line 113 |
| MultiMatch.MatchTemplateMultiple | core/image_search/image_search.py:87-129 | the threshold defaults to 0.5; a failed capture gives the empty list; a first maximum outside (threshold, similarity) gives the empty list; otherwise the locations extracted from the surface of the selected mode, not translated by the region |
| Polling.FindOutcomesExclusive | core/image_search/image_search.py:149-157 | a search that succeeds before the deadline and a deadline reached with no success cannot both describe one run |
| Polling.Microseconds | core/image_search/image_search.py:147 | `timedelta(seconds=t)` holds t rounded to the nearest whole microsecond, within half a microsecond, with a tie going to the even count |
| Polling.ShortTimeoutRoundsToZero | core/image_search/image_search.py:147 | a timeout of at most half a microsecond rounds to an empty duration, so the deadline is not after the start |
| Polling.ImageFind | core/image_search/image_search.py:140-157 | a failed guard or a timeout of at most half a microsecond (≤ 0 included) gives nothing; otherwise, with the deadline at start plus the timeout rounded to microseconds, a location is the first result whose x is not -1, found before the deadline, and nothing means the clock reached the deadline with every earlier result failing |
| Polling.SearchUntilFound | core/image_search/image_search.py:149-157 | the loop returns the first result whose x is not -1, found before the deadline, or nothing once the clock reaches the deadline with every earlier result failing; nothing at once when the first reading is already past the deadline |
| Polling.VanishOutcomesExclusive | core/image_search/image_search.py:176-184 | vanishing before the deadline and the deadline passing while still present cannot both describe one run |
| Polling.WaitWhilePresent | core/image_search/image_search.py:171-182 | no search when the first reading is already at the deadline; the loop ends with the pattern still present only when the clock reached the deadline with every search seeing it, and otherwise at the first search that no longer sees it |
| Polling.ImageVanish | core/image_search/image_search.py:168-184 | never answers false; a failed guard or a timeout of at most half a microsecond (≤ 0 included) gives nothing; otherwise, with the deadline at start plus the timeout rounded to microseconds, true means a search before the deadline saw x or y at -1 after every earlier one saw the pattern, and nothing means the deadline passed with the pattern seen throughout |

## Left out

- The correlation itself (`cv2.matchTemplate`) and its floating-point scores. A capture is given as the score surfaces it yields, and scores are exact `real`s, not `float32`.
- Screen capture, pattern image loading and the colour/grey array conversions. These are I/O, so a capture is an outcome that either fails or supplies the surfaces.
- `datetime.now()` and `Settings.auto_wait_timeout`. They become a sequence of clock readings and a parameter.
- Logging and the commented-out debug-image saving. They have no effect on results.
- The `TM_SQDIFF` branch (lines 108-111). It cannot be taken, because the method is fixed at line 29.
- `targets/firefox/app.py` is not part of this model. It is test-runner and browser lifecycle plumbing.
- SingleMatch.MatchTemplate: `cv2.matchTemplate` (line 63) raises an uncaught `cv2.error` when the pattern is larger than the capture in one dimension and smaller in the other. That error is not modelled. When the pattern is at least as large in both dimensions, OpenCV swaps the two images; any such surface is a valid input to the model.
- MultiMatch.MatchTemplateMultiple: the same uncaught `cv2.error` from `cv2.matchTemplate` (line 103), for a pattern larger than the capture in one dimension and smaller in the other, is not modelled. The swapped case, a pattern at least as large in both dimensions, is covered by the surface input.
- MultiMatch.FindAll: excludes the runs where the first maximum lies strictly between threshold and similarity and either the pattern is narrower or shorter than 2 or the threshold is below -10000. The model states no result for those runs.
  - With a pattern narrower or shorter than 2, the found cell survives suppression and is found again, so the loop never ends (NarrowPatternRefindsSameCell).
  - With a threshold below -10000 and a similarity above it, the -10000 that suppression writes stays inside the interval, so the loop never ends either.
  - For a pattern at least 2×2 with both the threshold and the similarity at or below -10000, the loop does end, but those runs are not modelled.
- MultiMatch.MatchTemplateMultiple: carries the same exclusion on a successful capture.
- Polling.ImageFind: requires the clock readings to eventually reach the deadline, with a capture for each search before that. Time that never advances is not modelled.
- Polling.ImageVanish: carries the same clock requirement as ImageFind, and takes the timeout as a number.
- Polling.ImageFind: the timeout is an exact real, not a binary float, before it is rounded to microseconds. The `OverflowError` that `timedelta` or the datetime addition raises for a huge timeout (line 147) is not modelled.
- Polling.ImageVanish: the same two points hold for its timeout (line 174).
- The full-screen search. `match_template` with no region is modelled (`Option<Rectangle>`), but the wrappers always pass a region, because the guard fails without one.
