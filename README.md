# Memento Mori calendar: the week grid's logic, in Dafny

The Memento Mori calendar draws a life in weeks. A page asks for a birthday.
A grid then shows one dot per week: filled for weeks already lived, a
progress ring for the week in progress, and empty for weeks still to come.
This project models the integer logic behind that picture and proves its
properties:

- `Circle` (`circle.dfy`) models how one dot chooses its variant: filled disc,
  progress ring or empty disc. It also models the guard that decides whether
  the ring's arc animation is set up.
- `WeekRow` (`week_row.dfy`) models one row of dots. Each position gets a week
  number (`row * totalWeeks + weekIndex`), a filled flag, a current-week flag,
  the percentage it passes to its dot and a fade-in delay.
- `MementoMoriCalendar` (`memento_mori_calendar.dfy`) models the grid. It has
  52 rows and one column per year of life expectancy. Each row gets a
  `currentWeek` from `completedWeeks % 52` and `completedWeeks / 52`. The
  week percentage is clamped to 100 and the grid height is computed. Class
  `Calendar` holds the component's two state values, which start at 0, and
  the effect that sets them.
- `IndexPage` (`index_page.dfy`) models the page's date handler. This state
  machine works over `birthday` and `hasViewed` and emits notices ("toasts").
  The pure function `Step` specifies one call and `Run` specifies a sequence
  of calls. Class `Page` runs the handler step by step and is proved to match
  `Step`.
- `Optional` (`optional.dfy`) is the `Option` type. It stands for the
  source's `undefined` and `null`.

Modelling choices:

- Dates are integer timestamps. The clock reading `now` is a parameter of
  every handler call. The calendar's mount day `today` is a constructor
  argument.
- The date library's results are integer inputs: weeks lived, days into the
  current week and age in years.
- Percentages are `real`, because JavaScript numbers are not integral there.
- JavaScript's `%` keeps the sign of its left operand, so it is modelled as
  `JsRemainder`. `Math.floor(a / 52)` equals Dafny's `/` by a positive
  divisor. Because of this, `completedWeeks` needs no precondition.
  - For a negative count no row is current.
  - The exception is a negative multiple of 52: `-52 % 52` is `-0`, and
    `-0 === 0`, so row 0 becomes current with year `-1`.
  - The round trip `currentWeek * 52 + weekIndex == completedWeeks` holds for
    every input.
  - A negative count can reach the grid. The page keeps the calendar
    mounted while a birthday stays set, and the calendar's `today` is fixed
    at its first mount. The page checks a new birthday against the current
    clock, though. So a birthday that lies after the mount day but not in
    the future is accepted, and the weeks between the mount day and it come
    out negative.
- The grid passes `weekIndex` and `totalYears` to its rows. The row
  component declares `row` and `totalWeeks`. So each component is modelled
  against its own declared props (`MementoMoriCalendar.RowProps` records
  exactly what the grid passes). No end-to-end property is claimed about the
  grid as the rows would draw it.

## Model

| member | source | states |
|---|---|---|
| `Circle.Render` | src/components/Circle.tsx:41-104 | exactly one variant for every input: filled disc iff `filled`; ring iff not filled and percentage > 0; empty disc iff not filled and percentage <= 0; size and delay are passed through |
| `Circle.FilledTakesPrecedence` | src/components/Circle.tsx:41-55 | `filled = true` gives the filled disc whatever the percentage, and then no arc animation is set up |
| `Circle.ArcAnimatedExactly` | src/components/Circle.tsx:24-39 | `ArcAnimated`, the effect's guard: the arc animation is set up iff the dot is unfilled and `0 < percentage < 100`; at 100 or more the dot is a ring with no progress applied |
| `Circle.DefaultsGiveEmptyDot` | src/components/Circle.tsx:13-18 | `WithDefaults` applies the prop defaults; with every prop left out, the dot is an empty 5px disc with delay 0 |
| `WeekRow.RowIsContiguous` | src/components/WeekRow.tsx:27-28 | for `Row` (built from `MakeCell`, one cell per position): a row has exactly `totalWeeks` cells, numbered consecutively from `row*totalWeeks` to `(row+1)*totalWeeks - 1`, and numbers no other week |
| `WeekRow.WeekNumberInjective` | src/components/WeekRow.tsx:28 | for the same `totalWeeks`, two positions share a week number iff they are the same position of the same row, so the ranges of different rows are disjoint |
| `WeekRow.FilledIsPrefix` | src/components/WeekRow.tsx:29-36 | a cell is filled iff its week number is below `completedWeeks`; the filled cells are the first `FilledCount` of the row; the dot gets the same flag |
| `WeekRow.NeverFilledAndCurrent` | src/components/WeekRow.tsx:29-30 | no cell is both filled and current |
| `WeekRow.AtMostOneCurrent` | src/components/WeekRow.tsx:30 | at most one cell of a row is current; none when `currentWeek` is null; one exists iff `currentWeek` is given and `completedWeeks` is in the row's range, at position `completedWeeks - row*totalWeeks` |
| `WeekRow.PercentageOnlyOnCurrent` | src/components/WeekRow.tsx:30-37 | a dot with a non-zero percentage is the current cell, at position `completedWeeks - row*totalWeeks`, and carries `currentWeekPercentage`; at most one dot of a row has a non-zero percentage; the current cell's dot has the row's percentage |
| `WeekRow.DelayIncreasesAlongRow` | src/components/WeekRow.tsx:23-39 | the first dot's delay is `row*5`; each next dot starts 3 ms later, so delays strictly increase along the row; each dot gets its cell's delay |
| `WeekRow.RowDots` | src/components/WeekRow.tsx:27-42 | what the row draws: filled discs exactly on the lived prefix; a ring exactly on the current cell when its percentage is positive, so at most one ring per row; every dot the row's size (default 5) |
| `MementoMoriCalendar.JsRemainder` | src/components/MementoMoriCalendar.tsx:56 | JavaScript `%` by a positive divisor: Dafny's remainder for non-negative operands; for negative ones a value in `(-b, 0]`; in both cases congruent to the operand modulo `b`, which fixes the value |
| `MementoMoriCalendar.JsRemainderZero` | src/components/MementoMoriCalendar.tsx:56 | a negative count's JavaScript remainder by 52 is 0 iff the count is a multiple of 52 |
| `MementoMoriCalendar.ExactlyOneCurrentRow` | src/components/MementoMoriCalendar.tsx:40-56 | for `GridRows`, whose rows take their `currentWeek` from `CurrentWeek`: the grid has exactly 52 rows, indexed 0..51; for `completedWeeks >= 0` exactly one row has a `currentWeek`, namely row `completedWeeks % 52`; a negative count selects no row, except row 0 at a multiple of 52 |
| `MementoMoriCalendar.CurrentWeekRoundTrip` | src/components/MementoMoriCalendar.tsx:56 | in the selected row `currentWeek*52 + weekIndex == completedWeeks` |
| `MementoMoriCalendar.PercentageAtMost100` | src/components/MementoMoriCalendar.tsx:32-34 | `CurrentPercentage` never exceeds 100; it is exactly 100 from day 7 on, and `days*100/7` before that |
| `MementoMoriCalendar.PercentageMonotone` | src/components/MementoMoriCalendar.tsx:34 | the percentage is non-decreasing in the days passed |
| `MementoMoriCalendar.CurrentDotByDay` | src/components/MementoMoriCalendar.tsx:34 | an unfilled dot with this percentage is a ring iff days > 0; its arc animates iff 0 < days < 7; it is an empty disc iff days <= 0 |
| `MementoMoriCalendar.GridHeightExamples` | src/components/MementoMoriCalendar.tsx:44 | the grid height is 518 px for the page's 8 px dots and 362 px for the default 5 px dots |
| `MementoMoriCalendar.GridHeightStacksRows` | src/components/MementoMoriCalendar.tsx:40-44 | `GridHeight` equals the height of the grid's rows stacked one at a time: one dot size per row and a 2 px gap between neighbouring rows |
| `MementoMoriCalendar.Calendar.constructor` | src/components/MementoMoriCalendar.tsx:12-20 | life expectancy defaults to 85 and circle size to 5; `completedWeeks` and the percentage start at 0; `today` is fixed at mount |
| `MementoMoriCalendar.Calendar.RunEffect` | src/components/MementoMoriCalendar.tsx:22-37 | with no birthday the state is unchanged; otherwise `completedWeeks` becomes the weeks lived and the percentage becomes the clamped value, at most 100 |
| `MementoMoriCalendar.Calendar.Rows` | src/components/MementoMoriCalendar.tsx:40-59 | the rendered grid has 52 rows, row `i` at index `i`, and each row is told the life expectancy as its column count |
| `MementoMoriCalendar.Calendar.ColumnCount` | src/components/MementoMoriCalendar.tsx:41-55 | the column count is the life expectancy, and it is what every row receives |
| `IndexPage.Step` | src/pages/Index.tsx:15-36 | every call emits at most one notice, and a notice is destructive iff the call was refused; a defined future date is refused: the state is unchanged and the notice is exactly "Invalid date"; any other input, undefined included, replaces `birthday`, and an accepted defined date is not later than `now`; undefined emits nothing; an accepted defined date emits exactly one "Calendar generated" notice carrying the age if `hasViewed` was false, and nothing otherwise; `hasViewed` becomes true iff it was true or a defined date was accepted; the calendar is shown afterwards iff a defined date was accepted, or the call was refused and it was already shown |
| `IndexPage.GeneratedAtMostOnce` | src/pages/Index.tsx:13-35 | for `Run`, the calls applied in order: `hasViewed` ends true iff it started true or some call accepted a defined date; the "Calendar generated" notice is emitted exactly once in that case and never otherwise, so at most once |
| `IndexPage.HasViewedNeverReverts` | src/pages/Index.tsx:13-28 | once `hasViewed` is true after some prefix of the calls, it stays true |
| `IndexPage.BirthdayFromLastAccepted` | src/pages/Index.tsx:16-25 | after any sequence of calls, `birthday` is the date of the last call that was not refused, unchanged if all were refused, and never later than the `now` of the call that set it |
| `IndexPage.CalendarShownAfterRun` | src/pages/Index.tsx:16-61 | after any sequence of calls, the calendar section (rendered iff `birthday` is defined) is shown iff the last call that was not refused had a defined date, or all calls were refused and it was shown at the start |
| `IndexPage.Page.constructor` | src/pages/Index.tsx:11-13 | the page starts with no birthday, `hasViewed` false and no notices |
| `IndexPage.Page.HandleDateChange` | src/pages/Index.tsx:15-61 | the imperative handler leaves the state and notice log that `Step` specifies, and keeps the log's invariant: exactly one "Calendar generated" notice once viewed, none before; afterwards the render guard `CalendarVisible` holds iff a defined date was accepted, or the call was refused and it held before |

## Left out

- The date library calls are not modelled: weeks between dates, start and end
  of a week, days between dates, years between dates, and formatting. Their
  results are integer inputs (`weeksLived`, `daysPassedInCurrentWeek`,
  `ageYears`). So the model does not relate them to the birthday and the
  clock.
- The wall clock (`new Date()`) is an explicit `now` per handler call and a
  `today` per calendar mount.
- The dot's SVG geometry is not modelled: radius, circumference and dash
  offset, which are floating point. Neither are the `setTimeout` that mutates
  the ring's style and the CSS fade-in animations. Only the decision whether
  the arc animation is set up is kept (`Circle.ArcAnimated`).
- The rows the grid passes are not composed with the row component, because
  the prop names differ (see above).
- JavaScript numbers are modelled as unbounded integers for week counts,
  rows, sizes and delays. Their floating-point precision limits are not
  modelled.
- `IndexPage.Step`: React state updates are asynchronous. The model assumes
  each call sees the state left by the previous call, which holds when the
  page re-renders between picker events. Two calls handled before a re-render
  would both read the stale `hasViewed` of the closure. The model does not
  capture that.
- Not modelled: the notice text with the age, the notice rendering, the page
  layout, the legend, the quote, the birthday picker widget and the DOM
  bootstrap. They are presentation, not logic.
