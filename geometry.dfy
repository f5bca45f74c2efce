/**
 * Points, search regions and patterns, and the pre-flight size guard
 * (`is_pattern_size_correct`).
 */
module Geometry {

  /** A pixel location; (-1, -1) is the "not found" sentinel. */
  datatype Location = Location(x: int, y: int)

  const NotFound: Location := Location(-1, -1)

  /** A search region in screen-absolute pixels. */
  datatype Rectangle = Rectangle(x: int, y: int, width: int, height: int)

  /**
   * What the search needs of a pattern: its pixel size and its similarity
   * threshold (image loading and the pixel arrays are not part of this model).
   */
  datatype Pattern = Pattern(width: nat, height: nat, similarity: real)

  /**
   * The guard: starts from "correct" and clears the flag once for a pattern
   * wider than the region and once for one taller than it.
   */
  function PatternSizeCorrect(pattern: Pattern, region: Rectangle): (isCorrect: bool)
    ensures isCorrect <==> pattern.width <= region.width && pattern.height <= region.height
    ensures !isCorrect <==> pattern.width > region.width || pattern.height > region.height
  {
    var afterWidth := if pattern.width > region.width then false else true;
    var afterHeight := if pattern.height > region.height then false else afterWidth;
    afterHeight
  }
}
