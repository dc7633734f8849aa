/** The release decision of a swipe card (mobile/src/components/SwipeCard.tsx):
    a horizontal drag distance `dx` and velocity `vx` decide between swiping
    right, swiping left and snapping back. The screen width enters only through
    the distance threshold. */
module SwipeGesture {

  import opened Wrappers

  /** Velocity beyond which a flick counts as a swipe whatever the distance. */
  const VelocityThreshold: real := 1.5

  /** Fraction of the screen width a drag must exceed to count as a swipe. */
  const ThresholdFraction: real := 0.25

  /** The distance threshold for a screen of the given width: a quarter of it. */
  function Threshold(width: real): (t: real)
    requires width > 0.0
    ensures 0.0 < t < width
    ensures 4.0 * t == width
  {
    ThresholdFraction * width
  }

  datatype Verdict = SwipeRight | SwipeLeft | SnapBack

  /** Right when the drag passes the threshold or the flick passes the
      velocity bound to the right; otherwise left when either passes to the
      left; otherwise snap back. Every comparison is strict. */
  function Decide(dx: real, vx: real, threshold: real): (v: Verdict)
    ensures v == SwipeRight <==> dx > threshold || vx > VelocityThreshold
    ensures v == SwipeLeft <==>
      !(dx > threshold || vx > VelocityThreshold) && (dx < -threshold || vx < -VelocityThreshold)
    ensures v == SnapBack <==>
      -threshold <= dx <= threshold && -VelocityThreshold <= vx <= VelocityThreshold
  {
    if dx > threshold || vx > VelocityThreshold then SwipeRight
    else if dx < -threshold || vx < -VelocityThreshold then SwipeLeft
    else SnapBack
  }

  /** Dragging further or flicking faster to the right never turns a right
      swipe into something else. */
  lemma RightIsMonotone(dx: real, vx: real, dx': real, vx': real, threshold: real)
    requires Decide(dx, vx, threshold) == SwipeRight
    requires dx <= dx' && vx <= vx'
    ensures Decide(dx', vx', threshold) == SwipeRight
  {
  }

  /** The rule is mirror-symmetric except where both directions qualify: a
      left swipe mirrors to a right swipe, and a right swipe mirrors to a left
      one exactly when no left condition also held (right wins a conflict). */
  lemma MirrorSymmetry(dx: real, vx: real, threshold: real)
    ensures Decide(dx, vx, threshold) == SwipeLeft ==> Decide(-dx, -vx, threshold) == SwipeRight
    ensures Decide(dx, vx, threshold) == SnapBack <==> Decide(-dx, -vx, threshold) == SnapBack
    ensures Decide(dx, vx, threshold) == SwipeRight ==>
      (Decide(-dx, -vx, threshold) == SwipeLeft <==> !(dx < -threshold || vx < -VelocityThreshold))
  {
  }

  /** On a screen of a given width, the release decision in terms of the width
      itself: a drag counts once it is more than a quarter of the screen. */
  lemma QuarterWidthDecides(width: real, dx: real, vx: real)
    requires width > 0.0
    ensures Decide(dx, vx, Threshold(width)) == SwipeRight <==>
      4.0 * dx > width || vx > VelocityThreshold
    ensures Decide(dx, vx, Threshold(width)) == SnapBack <==>
      -width <= 4.0 * dx <= width && -VelocityThreshold <= vx <= VelocityThreshold
  {
  }

  /** A far drag to the right with a fast flick to the left is a right swipe. */
  lemma RightWinsConflict(dx: real, vx: real, threshold: real)
    requires dx > threshold && vx < -VelocityThreshold
    ensures Decide(dx, vx, threshold) == SwipeRight
    ensures Decide(-dx, -vx, threshold) == SwipeRight
  {
  }

  /** Front cards take gestures; back cards have no responder at all. */
  datatype CardPosition = Front | Back

  /** Which optional swipe callbacks the card was given. */
  datatype Callbacks = Callbacks(hasRight: bool, hasLeft: bool)

  /** The callback fired when a drag on the card is released: the verdict for a
      front card when the matching callback exists, nothing for a snap back or a
      back card. */
  function OnRelease(position: CardPosition, dx: real, vx: real, threshold: real, callbacks: Callbacks): (fired: Option<Verdict>)
    ensures position.Back? ==> fired == None
    ensures fired == Some(SwipeRight) <==>
      position.Front? && callbacks.hasRight && (dx > threshold || vx > VelocityThreshold)
    ensures fired == Some(SwipeLeft) <==>
      position.Front? && callbacks.hasLeft && Decide(dx, vx, threshold) == SwipeLeft
    ensures fired != Some(SnapBack)
  {
    if position.Back? then None
    else
      var verdict := Decide(dx, vx, threshold);
      if verdict == SwipeRight && callbacks.hasRight then Some(SwipeRight)
      else if verdict == SwipeLeft && callbacks.hasLeft then Some(SwipeLeft)
      else None
  }
}
