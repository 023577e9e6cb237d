/**
 * The single dot of the calendar (src/components/Circle.tsx).
 *
 * A dot is drawn in one of three ways: a filled disc, a progress ring, or an
 * empty disc.  The SVG geometry (radius, circumference, dash offset) and the
 * timer that starts the fill animation are not modelled; what is kept is the
 * choice of variant and the guard that decides whether the arc animation is
 * set up at all.
 */
module Circle {
  import opened Optional

  const DefaultSize: int := 5

  /** The props once the component's defaults have been applied. */
  datatype Props = Props(filled: bool, percentage: real, size: int, delay: int)

  /** What the component renders. Every variant carries the size in px and the fade-in delay in ms. */
  datatype Dot =
    | FilledDot(size: int, delay: int)
    | ProgressRing(size: int, delay: int)
    | EmptyDot(size: int, delay: int)

  /** Destructuring with defaults: an absent prop takes `false`, `0`, `5` and `0` respectively. */
  function WithDefaults(filled: Option<bool>, percentage: Option<real>, size: Option<int>, delay: Option<int>): Props {
    Props(filled.GetOr(false), percentage.GetOr(0.0), size.GetOr(DefaultSize), delay.GetOr(0))
  }

  /**
   * The variant choice: `filled` wins over everything, then a positive
   * percentage gives the ring, and anything else gives the empty disc.
   */
  function Render(p: Props): (d: Dot)
    ensures d.size == p.size && d.delay == p.delay
    ensures d.FilledDot? <==> p.filled
    ensures d.ProgressRing? <==> !p.filled && p.percentage > 0.0
    ensures d.EmptyDot? <==> !p.filled && p.percentage <= 0.0
  {
    if p.filled then FilledDot(p.size, p.delay)
    else if p.percentage > 0.0 then ProgressRing(p.size, p.delay)
    else EmptyDot(p.size, p.delay)
  }

  /**
   * Whether the effect sets up the arc animation.  The effect needs the ref,
   * which is attached only to the ring's foreground circle, and a percentage
   * strictly between 0 and 100.
   */
  predicate ArcAnimated(p: Props) {
    Render(p).ProgressRing? && 0.0 < p.percentage < 100.0
  }

  /** A filled dot ignores the percentage entirely and never animates an arc. */
  lemma FilledTakesPrecedence(percentage: real, size: int, delay: int)
    ensures Render(Props(true, percentage, size, delay)) == FilledDot(size, delay)
    ensures !ArcAnimated(Props(true, percentage, size, delay))
  {
  }

  /** The arc animation runs exactly for an unfilled dot whose percentage is strictly between 0 and 100. */
  lemma ArcAnimatedExactly(p: Props)
    ensures ArcAnimated(p) <==> !p.filled && 0.0 < p.percentage < 100.0
    ensures !p.filled && p.percentage >= 100.0 ==> Render(p).ProgressRing? && !ArcAnimated(p)
  {
  }

  /** With every prop left out the component draws an empty 5px disc with no delay. */
  lemma DefaultsGiveEmptyDot()
    ensures Render(WithDefaults(None, None, None, None)) == EmptyDot(5, 0)
  {
  }
}
