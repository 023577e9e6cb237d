/**
 * The grid of weeks (src/components/MementoMoriCalendar.tsx).
 *
 * The grid has 52 rows, one per week of the year, and one column per year of
 * the life expectancy.  The component keeps two pieces of state, the number of
 * completed weeks and the percentage of the current week, which start at 0
 * and are set by an effect from the birthday and the day the component was
 * mounted.  The date arithmetic of that effect (weeks between two dates, start
 * of a week, days between two dates) is done by a date library; its results
 * enter the model as the integers `weeksLived` and `daysPassedInCurrentWeek`.
 */
module MementoMoriCalendar {
  import opened Optional
  import Circle

  const WeeksPerYear: int := 52
  const DefaultLifeExpectancy: int := 85
  const DefaultCircleSize: int := 5

  /** The props the grid passes to the row it draws at position `weekIndex`. */
  datatype RowProps = RowProps(
    weekIndex: int,
    completedWeeks: int,
    totalYears: int,
    currentWeek: Option<int>,
    currentWeekPercentage: real,
    circleSize: int)

  /**
   * JavaScript's `a % b` for a positive `b`: the remainder takes the sign of
   * `a` (it truncates toward zero), unlike Dafny's `%`.
   */
  function JsRemainder(a: int, b: int): (r: int)
    requires b > 0
    ensures a >= 0 ==> r == a % b
    ensures a < 0 ==> -b < r <= 0
    ensures (a - r) % b == 0
  {
    if a >= 0 then
      RemainderIsCongruent(a, b);
      a % b
    else
      RemainderIsCongruent(-a, b);
      -((-a) % b)
  }

  /** `n` and its remainder by `b` differ by a multiple of `b`, from either side. */
  lemma RemainderIsCongruent(n: int, b: int)
    requires b > 0
    ensures (n - n % b) % b == 0
    ensures (n % b - n) % b == 0
  {
    var q := n / b;
    assert n == q * b + n % b;
    MultipleHasNoRemainder(q, b);
    MultipleHasNoRemainder(-q, b);
    assert n - n % b == q * b;
    assert n % b - n == (-q) * b;
  }

  /** A multiple of `b` leaves remainder 0. */
  lemma MultipleHasNoRemainder(k: int, b: int)
    requires b > 0
    ensures (k * b) % b == 0
  {
    var d := (k * b) / b;
    var m := (k * b) % b;
    assert (k - d) * b == m by { assert k * b == d * b + m; }
    if k - d >= 1 {
      MulAtLeast(k - d, b);
      assert false;
    } else if k - d <= -1 {
      MulAtLeast(d - k, b);
      assert false;
    }
  }

  lemma MulAtLeast(x: int, b: int)
    requires x >= 1 && b > 0
    ensures x * b >= b
  {
    assert x * b == (x - 1) * b + b;
  }

  /** A negative count has JavaScript remainder 0 by 52 exactly when it is a multiple of 52. */
  lemma JsRemainderZero(a: int)
    requires a < 0
    ensures JsRemainder(a, WeeksPerYear) == 0 <==> a % WeeksPerYear == 0
  {
  }

  /**
   * The `currentWeek` prop of row `weekIndex`: the year of the current week
   * when that week falls in this row, else null.  `Math.floor(a / 52)` is
   * Dafny's `/` by a positive divisor.
   */
  function CurrentWeek(completedWeeks: int, weekIndex: int): Option<int> {
    if JsRemainder(completedWeeks, WeeksPerYear) == weekIndex then Some(completedWeeks / WeeksPerYear) else None
  }

  /** The rows of the grid, enumerated `0 .. 51`. */
  function GridRows(completedWeeks: int, lifeExpectancy: int, currentWeekPercentage: real, circleSize: int): seq<RowProps> {
    seq(WeeksPerYear, weekIndex =>
      RowProps(weekIndex, completedWeeks, lifeExpectancy, CurrentWeek(completedWeeks, weekIndex),
               currentWeekPercentage, circleSize))
  }

  /** `Math.min(100, (daysPassed / 7) * 100)`. */
  function CurrentPercentage(daysPassedInCurrentWeek: int): real {
    var raw := (daysPassedInCurrentWeek as real / 7.0) * 100.0;
    if raw < 100.0 then raw else 100.0
  }

  /** Height in px of the grid: 52 dots and the 2 px gaps between them. */
  function GridHeight(circleSize: int): int {
    circleSize * WeeksPerYear + (WeeksPerYear - 1) * 2
  }

  // ---------------------------------------------------------------------------
  // The mounted component

  class Calendar {
    const birthday: Option<int>
    const lifeExpectancy: int
    const circleSize: int
    /** The day the component was mounted, as a timestamp; it is never updated. */
    const today: int
    var completedWeeks: int
    var currentWeekPercentage: real

    /** Mounting: absent props take their defaults and both state values start at 0. */
    constructor (birthday: Option<int>, lifeExpectancy: Option<int>, circleSize: Option<int>, today: int)
      ensures this.birthday == birthday && this.today == today
      ensures this.lifeExpectancy == lifeExpectancy.GetOr(DefaultLifeExpectancy)
      ensures this.circleSize == circleSize.GetOr(DefaultCircleSize)
      ensures completedWeeks == 0 && currentWeekPercentage == 0.0
    {
      this.birthday := birthday;
      this.lifeExpectancy := lifeExpectancy.GetOr(DefaultLifeExpectancy);
      this.circleSize := circleSize.GetOr(DefaultCircleSize);
      this.today := today;
      completedWeeks := 0;
      currentWeekPercentage := 0.0;
    }

    /**
     * The effect: with no birthday nothing changes; otherwise the weeks lived
     * become `completedWeeks` and the days into the current week set the
     * clamped percentage.
     */
    method RunEffect(weeksLived: int, daysPassedInCurrentWeek: int)
      modifies this
      ensures birthday.None? ==>
                completedWeeks == old(completedWeeks) && currentWeekPercentage == old(currentWeekPercentage)
      ensures birthday.Some? ==>
                completedWeeks == weeksLived && currentWeekPercentage == CurrentPercentage(daysPassedInCurrentWeek)
      ensures currentWeekPercentage <= 100.0 || currentWeekPercentage == old(currentWeekPercentage)
    {
      if birthday.None? {
        return;
      }
      completedWeeks := weeksLived;
      var totalDaysInWeek := 7;
      var percentage := (daysPassedInCurrentWeek as real / totalDaysInWeek as real) * 100.0;
      currentWeekPercentage := if percentage < 100.0 then percentage else 100.0;
      PercentageAtMost100(daysPassedInCurrentWeek);
    }

    /** The rows as this render draws them: 52 of them, each told the column count. */
    function Rows(): (rows: seq<RowProps>)
      reads this
      ensures |rows| == WeeksPerYear
      ensures forall i :: 0 <= i < |rows| ==> rows[i].weekIndex == i && rows[i].totalYears == lifeExpectancy
    {
      GridRows(completedWeeks, lifeExpectancy, currentWeekPercentage, circleSize)
    }

    /** The number of columns: one per year of the life expectancy. */
    function ColumnCount(): (n: int)
      reads this
      ensures forall i :: 0 <= i < |Rows()| ==> Rows()[i].totalYears == n
    {
      lifeExpectancy
    }
  }

  // ---------------------------------------------------------------------------
  // Properties

  /**
   * Row `i` is the current row exactly when `i` is the JavaScript remainder of
   * `completedWeeks` by 52.  For `completedWeeks >= 0` exactly one row is
   * current, the one at `completedWeeks % 52`.  For a negative count no row
   * is current, except at a multiple of 52, where `-0 === 0` makes row 0
   * current.
   */
  lemma ExactlyOneCurrentRow(completedWeeks: int, lifeExpectancy: int, pct: real, circleSize: int)
    ensures var rows := GridRows(completedWeeks, lifeExpectancy, pct, circleSize);
      && |rows| == WeeksPerYear
      && (forall i :: 0 <= i < |rows| ==> rows[i].weekIndex == i)
      && (completedWeeks >= 0 ==>
            forall i :: 0 <= i < |rows| ==> (rows[i].currentWeek.Some? <==> i == completedWeeks % WeeksPerYear))
      && (completedWeeks < 0 ==>
            forall i :: 0 <= i < |rows| ==>
              (rows[i].currentWeek.Some? <==> i == 0 && completedWeeks % WeeksPerYear == 0))
  {
    if completedWeeks < 0 {
      JsRemainderZero(completedWeeks);
    }
  }

  /**
   * The row chosen as current and the year it is given together recover the
   * week count: `currentWeek * 52 + weekIndex == completedWeeks`.
   */
  lemma CurrentWeekRoundTrip(completedWeeks: int, lifeExpectancy: int, pct: real, circleSize: int, i: int)
    requires 0 <= i < WeeksPerYear
    ensures var row := GridRows(completedWeeks, lifeExpectancy, pct, circleSize)[i];
      row.currentWeek.Some? ==> row.currentWeek.value * WeeksPerYear + row.weekIndex == completedWeeks
  {
    var q := completedWeeks / WeeksPerYear;
    var r := JsRemainder(completedWeeks, WeeksPerYear);
    if r == i {
      if completedWeeks < 0 {
        JsRemainderZero(completedWeeks);
      }
      assert completedWeeks == q * WeeksPerYear + completedWeeks % WeeksPerYear;
    }
  }

  /** The percentage never exceeds 100; it is 100 from the seventh day on, and `days * 100 / 7` before. */
  lemma PercentageAtMost100(daysPassed: int)
    ensures CurrentPercentage(daysPassed) <= 100.0
    ensures daysPassed >= 7 ==> CurrentPercentage(daysPassed) == 100.0
    ensures daysPassed < 7 ==> CurrentPercentage(daysPassed) * 7.0 == daysPassed as real * 100.0
  {
  }

  /** More days into the week never lowers the percentage. */
  lemma PercentageMonotone(d1: int, d2: int)
    requires d1 <= d2
    ensures CurrentPercentage(d1) <= CurrentPercentage(d2)
  {
  }

  /**
   * What the current dot looks like for a given number of days into the week:
   * an animated ring during days 1 to 6, a ring without progress from day 7,
   * and an empty disc on day 0 (or before).
   */
  lemma CurrentDotByDay(daysPassed: int, size: int, delay: int)
    ensures var p := Circle.Props(false, CurrentPercentage(daysPassed), size, delay);
      && (Circle.Render(p).ProgressRing? <==> daysPassed > 0)
      && (Circle.ArcAnimated(p) <==> 0 < daysPassed < 7)
      && (Circle.Render(p).EmptyDot? <==> daysPassed <= 0)
  {
    PercentageAtMost100(daysPassed);
  }

  /**
   * Height of `n` rows of `size` px stacked with a `gap` px space between
   * neighbouring rows, counted one row at a time.
   */
  function StackHeight(n: nat, size: int, gap: int): int {
    if n == 0 then 0
    else if n == 1 then size
    else size + gap + StackHeight(n - 1, size, gap)
  }

  lemma {:induction false} StackHeightClosedForm(n: nat, size: int, gap: int)
    requires n >= 1
    ensures StackHeight(n, size, gap) == n * size + (n - 1) * gap
  {
    if n > 1 {
      StackHeightClosedForm(n - 1, size, gap);
      assert n * size == (n - 1) * size + size;
      assert (n - 1) * gap == (n - 2) * gap + gap;
    }
  }

  /**
   * The grid's height is exactly the height of its rows stacked with 2 px
   * gaps: one `circleSize` per row of `GridRows`, one gap between each pair.
   */
  lemma GridHeightStacksRows(completedWeeks: int, lifeExpectancy: int, pct: real, circleSize: int)
    ensures GridHeight(circleSize) == StackHeight(|GridRows(completedWeeks, lifeExpectancy, pct, circleSize)|, circleSize, 2)
  {
    StackHeightClosedForm(WeeksPerYear, circleSize, 2);
  }

  /** The page draws the grid with 8 px dots: 518 px high; with the default 5 px dots: 362 px. */
  lemma GridHeightExamples()
    ensures GridHeight(8) == 518
    ensures GridHeight(DefaultCircleSize) == 362
  {
  }
}
