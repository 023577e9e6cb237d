/**
 * One row of dots (src/components/WeekRow.tsx).
 *
 * The row draws `totalWeeks` dots.  The dot at position `weekIndex` stands for
 * week number `row * totalWeeks + weekIndex` of the grid; it is filled when
 * that week is already lived, and it is the current week when the row was
 * given a `currentWeek` and the week number is exactly `completedWeeks`.
 * Only the current dot receives the week's percentage.
 */
module WeekRow {
  import opened Optional
  import Circle

  const DefaultCircleSize: int := 5

  /** The values the row computes for one position, and the props it hands to that position's dot. */
  datatype Cell = Cell(
    weekNumber: int,
    isFilled: bool,
    isCurrentWeek: bool,
    animationDelay: int,
    circle: Circle.Props)

  /** Number of positions `Array.from({ length: n })` creates: a negative length counts as 0. */
  function Length(n: int): nat {
    if n < 0 then 0 else n
  }

  /** The cell at position `weekIndex` of row `row`. */
  function MakeCell(row: int, completedWeeks: int, totalWeeks: int, currentWeek: Option<int>,
                    currentWeekPercentage: real, circleSize: int, weekIndex: int): Cell
  {
    var weekNumber := row * totalWeeks + weekIndex;
    var isFilled := weekNumber < completedWeeks;
    var isCurrentWeek := currentWeek.Some? && weekNumber == completedWeeks;
    var animationDelay := row * 5 + weekIndex * 3;
    Cell(weekNumber, isFilled, isCurrentWeek, animationDelay,
         Circle.Props(isFilled, if isCurrentWeek then currentWeekPercentage else 0.0, circleSize, animationDelay))
  }

  /** The whole row, one cell per position; an absent `circleSize` is 5. */
  function Row(row: int, completedWeeks: int, totalWeeks: int, currentWeek: Option<int>,
               currentWeekPercentage: real, circleSize: Option<int>): seq<Cell>
  {
    var size := circleSize.GetOr(DefaultCircleSize);
    seq(Length(totalWeeks), weekIndex requires 0 <= weekIndex =>
      MakeCell(row, completedWeeks, totalWeeks, currentWeek, currentWeekPercentage, size, weekIndex))
  }

  /** How many cells at the front of row `row` are filled: the lived weeks that fall into it. */
  function FilledCount(row: int, completedWeeks: int, totalWeeks: nat): (k: nat)
    ensures k <= totalWeeks
  {
    var lived := completedWeeks - row * totalWeeks;
    if lived < 0 then 0 else if lived > totalWeeks then totalWeeks else lived
  }

  // ---------------------------------------------------------------------------
  // Numbering

  /** Some cell of `r` carries week number `n`. */
  predicate Numbers(r: seq<Cell>, n: int) {
    exists i :: 0 <= i < |r| && r[i].weekNumber == n
  }

  /**
   * A row holds exactly `totalWeeks` cells whose week numbers run without gap
   * from `row * totalWeeks` up to `(row + 1) * totalWeeks - 1`, and it numbers
   * no other week.
   */
  lemma RowIsContiguous(row: int, completedWeeks: int, totalWeeks: nat, currentWeek: Option<int>,
                        pct: real, circleSize: Option<int>)
    ensures var r := Row(row, completedWeeks, totalWeeks, currentWeek, pct, circleSize);
      && |r| == totalWeeks
      && (totalWeeks > 0 ==>
            r[0].weekNumber == row * totalWeeks && r[|r| - 1].weekNumber == (row + 1) * totalWeeks - 1)
      && (forall i :: 0 < i < |r| ==> r[i].weekNumber == r[i - 1].weekNumber + 1)
      && (forall n :: Numbers(r, n) <==> row * totalWeeks <= n < (row + 1) * totalWeeks)
  {
    var r := Row(row, completedWeeks, totalWeeks, currentWeek, pct, circleSize);
    var lo := row * totalWeeks;
    assert (row + 1) * totalWeeks == lo + totalWeeks;
    forall n | lo <= n < lo + totalWeeks
      ensures Numbers(r, n)
    {
      assert r[n - lo].weekNumber == n;
    }
  }

  /** Products keep the order of their left factors when the right factor is non-negative. */
  lemma MulLeftMono(a: int, b: int, m: nat)
    requires a <= b
    ensures a * m <= b * m
  {
    var d := b - a;
    assert b * m == a * m + d * m;
  }

  /**
   * Rows built with the same `totalWeeks` number their cells without overlap:
   * two positions carry the same week number only if they are the same
   * position of the same row.
   */
  lemma WeekNumberInjective(row1: int, row2: int, totalWeeks: nat, i: int, j: int,
                            cw1: int, cw2: int, cur1: Option<int>, cur2: Option<int>,
                            pct1: real, pct2: real, size1: Option<int>, size2: Option<int>)
    requires 0 <= i < totalWeeks && 0 <= j < totalWeeks
    ensures Row(row1, cw1, totalWeeks, cur1, pct1, size1)[i].weekNumber
            == Row(row2, cw2, totalWeeks, cur2, pct2, size2)[j].weekNumber
            <==> row1 == row2 && i == j
  {
    assert Row(row1, cw1, totalWeeks, cur1, pct1, size1)[i].weekNumber == row1 * totalWeeks + i;
    assert Row(row2, cw2, totalWeeks, cur2, pct2, size2)[j].weekNumber == row2 * totalWeeks + j;
    if row1 < row2 {
      Separated(row1, row2, totalWeeks, i, j);
    } else if row2 < row1 {
      Separated(row2, row1, totalWeeks, j, i);
    }
  }

  /** Every week number of a lower row is below every week number of a higher row. */
  lemma Separated(lo: int, hi: int, totalWeeks: nat, i: int, j: int)
    requires lo < hi && 0 <= i < totalWeeks && 0 <= j < totalWeeks
    ensures lo * totalWeeks + i < hi * totalWeeks + j
  {
    MulLeftMono(lo + 1, hi, totalWeeks);
    assert (lo + 1) * totalWeeks == lo * totalWeeks + totalWeeks;
  }

  // ---------------------------------------------------------------------------
  // Status of each cell

  /**
   * The filled cells of a row are exactly the cells whose week is already
   * lived, and they form a prefix of the row of length `FilledCount`.
   */
  lemma FilledIsPrefix(row: int, completedWeeks: int, totalWeeks: nat, currentWeek: Option<int>,
                       pct: real, circleSize: Option<int>)
    ensures var r := Row(row, completedWeeks, totalWeeks, currentWeek, pct, circleSize);
      forall i :: 0 <= i < |r| ==>
        && (r[i].isFilled <==> r[i].weekNumber < completedWeeks)
        && (r[i].isFilled <==> i < FilledCount(row, completedWeeks, totalWeeks))
        && r[i].circle.filled == r[i].isFilled
  {
  }

  /** No cell is both lived and current. */
  lemma NeverFilledAndCurrent(row: int, completedWeeks: int, totalWeeks: nat, currentWeek: Option<int>,
                              pct: real, circleSize: Option<int>, i: int)
    requires 0 <= i < totalWeeks
    ensures var c := Row(row, completedWeeks, totalWeeks, currentWeek, pct, circleSize)[i];
      !(c.isFilled && c.isCurrentWeek)
  {
  }

  /**
   * A row has at most one current cell.  It has one exactly when it was given
   * a `currentWeek` and `completedWeeks` falls into its range of week numbers,
   * and that cell sits at position `completedWeeks - row * totalWeeks`.
   */
  lemma AtMostOneCurrent(row: int, completedWeeks: int, totalWeeks: nat, currentWeek: Option<int>,
                         pct: real, circleSize: Option<int>)
    ensures var r := Row(row, completedWeeks, totalWeeks, currentWeek, pct, circleSize);
      && (forall i, j :: 0 <= i < |r| && 0 <= j < |r| && r[i].isCurrentWeek && r[j].isCurrentWeek ==> i == j)
      && (currentWeek.None? ==> forall i :: 0 <= i < |r| ==> !r[i].isCurrentWeek)
      && ((exists i :: 0 <= i < |r| && r[i].isCurrentWeek)
          <==> currentWeek.Some? && row * totalWeeks <= completedWeeks < (row + 1) * totalWeeks)
      && (forall i :: 0 <= i < |r| && r[i].isCurrentWeek ==> i == completedWeeks - row * totalWeeks)
  {
    var r := Row(row, completedWeeks, totalWeeks, currentWeek, pct, circleSize);
    var lo := row * totalWeeks;
    assert (row + 1) * totalWeeks == lo + totalWeeks;
    if currentWeek.Some? && lo <= completedWeeks < lo + totalWeeks {
      assert r[completedWeeks - lo].isCurrentWeek;
    }
  }

  /**
   * Only the current cell's dot gets a percentage: a dot with a non-zero
   * percentage is the current cell, at position `completedWeeks - row * totalWeeks`,
   * and carries `currentWeekPercentage`; so at most one dot of a row has a
   * non-zero percentage, and the current cell's dot has the row's percentage.
   */
  lemma PercentageOnlyOnCurrent(row: int, completedWeeks: int, totalWeeks: nat, currentWeek: Option<int>,
                                pct: real, circleSize: Option<int>)
    ensures var r := Row(row, completedWeeks, totalWeeks, currentWeek, pct, circleSize);
      && (forall i :: 0 <= i < |r| && r[i].circle.percentage != 0.0 ==>
            r[i].isCurrentWeek && i == completedWeeks - row * totalWeeks && r[i].circle.percentage == pct)
      && (forall i, j :: 0 <= i < |r| && 0 <= j < |r| && r[i].circle.percentage != 0.0 && r[j].circle.percentage != 0.0
            ==> i == j)
      && (forall i :: 0 <= i < |r| && r[i].isCurrentWeek ==> r[i].circle.percentage == pct)
  {
    AtMostOneCurrent(row, completedWeeks, totalWeeks, currentWeek, pct, circleSize);
  }

  /** Along a row every dot starts its fade-in 3 ms after the one before it. */
  lemma DelayIncreasesAlongRow(row: int, completedWeeks: int, totalWeeks: nat, currentWeek: Option<int>,
                               pct: real, circleSize: Option<int>)
    ensures var r := Row(row, completedWeeks, totalWeeks, currentWeek, pct, circleSize);
      && (forall i :: 0 <= i < |r| ==> r[i].circle.delay == r[i].animationDelay)
      && (|r| > 0 ==> r[0].animationDelay == row * 5)
      && (forall i :: 0 < i < |r| ==> r[i].animationDelay == r[i - 1].animationDelay + 3)
      && (forall i, j :: 0 <= i < j < |r| ==> r[i].animationDelay < r[j].animationDelay)
  {
  }

  // ---------------------------------------------------------------------------
  // What the row draws

  /**
   * The dots of a row: the lived weeks are filled discs, the current week is a
   * progress ring when its percentage is positive, everything else is an empty
   * disc; so a row draws at most one ring.
   */
  lemma RowDots(row: int, completedWeeks: int, totalWeeks: nat, currentWeek: Option<int>,
                pct: real, circleSize: Option<int>)
    ensures var r := Row(row, completedWeeks, totalWeeks, currentWeek, pct, circleSize);
      && (forall i :: 0 <= i < |r| ==>
            && (Circle.Render(r[i].circle).FilledDot? <==> i < FilledCount(row, completedWeeks, totalWeeks))
            && (Circle.Render(r[i].circle).ProgressRing? <==> r[i].isCurrentWeek && pct > 0.0)
            && Circle.Render(r[i].circle).size == circleSize.GetOr(DefaultCircleSize))
      && (forall i, j ::
            0 <= i < |r| && 0 <= j < |r| && Circle.Render(r[i].circle).ProgressRing? && Circle.Render(r[j].circle).ProgressRing?
            ==> i == j)
  {
    AtMostOneCurrent(row, completedWeeks, totalWeeks, currentWeek, pct, circleSize);
  }
}
