/**
 * The drag-gesture interpreter of a mobile feature card: on release, a drag
 * sample (horizontal offset and horizontal velocity, in pixels and pixels
 * per second) becomes a request to show the next card, the previous card,
 * or nothing. Either enough distance or a fast enough flick counts.
 */
module Gesture {

  /** A navigation request: the `"next"` and `"prev"` strings of the source. */
  datatype Nav = Next | Prev

  /** What a released drag asks for. */
  datatype Intent = Request(nav: Nav) | NoRequest

  /** Minimum horizontal travel, in pixels, that counts as a swipe. */
  const DistanceThreshold: real := 80.0
  /** Minimum horizontal release speed, in pixels per second, that counts as a flick. */
  const VelocityThreshold: real := 500.0

  /** The threshold test on drag release. A leftward swipe or flick asks for
      the next card and is tested first; a rightward one asks for the
      previous card; all comparisons are strict. The result is "nothing"
      exactly when the sample lies in the closed dead zone
      `[-80, 80] x [-500, 500]`. */
  function DragIntent(offsetX: real, velocityX: real): (r: Intent)
    ensures r == Request(Next) <==> offsetX < -DistanceThreshold || velocityX < -VelocityThreshold
    ensures r == NoRequest <==>
      -DistanceThreshold <= offsetX <= DistanceThreshold && -VelocityThreshold <= velocityX <= VelocityThreshold
  {
    if offsetX < -DistanceThreshold || velocityX < -VelocityThreshold then Request(Next)
    else if offsetX > DistanceThreshold || velocityX > VelocityThreshold then Request(Prev)
    else NoRequest
  }

  /** Dragging further or faster to the left never loses a "next" request. */
  lemma NextIsMonotone(offsetX: real, velocityX: real, offsetX': real, velocityX': real)
    requires DragIntent(offsetX, velocityX) == Request(Next)
    requires offsetX' <= offsetX && velocityX' <= velocityX
    ensures DragIntent(offsetX', velocityX') == Request(Next)
  {
  }

  /** Dragging further or faster to the right never loses a "prev" request. */
  lemma PrevIsMonotone(offsetX: real, velocityX: real, offsetX': real, velocityX': real)
    requires DragIntent(offsetX, velocityX) == Request(Prev)
    requires offsetX' >= offsetX && velocityX' >= velocityX
    ensures DragIntent(offsetX', velocityX') == Request(Prev)
  {
  }

  /** Mirroring a sample swaps "next" and "prev" unless the sample is
      contradictory (one component qualifies leftward, the other rightward);
      in that case the leftward test wins both ways and the result is "next". */
  lemma MirrorSwapsRequests(offsetX: real, velocityX: real)
    ensures var left := offsetX < -DistanceThreshold || velocityX < -VelocityThreshold;
            var right := offsetX > DistanceThreshold || velocityX > VelocityThreshold;
            match DragIntent(offsetX, velocityX)
            case NoRequest => DragIntent(-offsetX, -velocityX) == NoRequest
            case Request(Next) =>
              DragIntent(-offsetX, -velocityX) == (if right then Request(Next) else Request(Prev))
            case Request(Prev) => DragIntent(-offsetX, -velocityX) == Request(Next)
  {
  }

  /** Sample points: a swipe just past the distance threshold, a pure flick,
      a motionless release, and the boundary itself (exactly 80 pixels is
      not enough). */
  lemma ThresholdExamples()
    ensures DragIntent(-81.0, 0.0) == Request(Next)
    ensures DragIntent(81.0, 0.0) == Request(Prev)
    ensures DragIntent(0.0, 0.0) == NoRequest
    ensures DragIntent(0.0, -600.0) == Request(Next)
    ensures DragIntent(-80.0, 500.0) == NoRequest
    ensures DragIntent(80.0, -500.0) == NoRequest
    ensures DragIntent(-120.0, 900.0) == Request(Next)
  {
  }
}
