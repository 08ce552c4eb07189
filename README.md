# Stock chart component: a Dafny model of `renderChart`

This project models the core of the `Child1` chart component of a small
React + d3 stock-price viewer. The component keeps two pieces of selection
state: a company, and a long month name. It holds a table of CSV rows shared
with its parent, each with `Date`, `Company`, `Open` and `Close` cells. Each
time the component updates, `renderChart` does four things:

1. It selects the rows of the chosen company whose date falls in the chosen
   month (`new Date(d.Date)` read as a long month name).
2. It normalises those rows **in place**: a date text becomes the
   `%Y-%m-%d` parse of its text before the first space, or `null`; a Date
   stays; anything else becomes `null`; `Open` and `Close` become `+Open`
   and `+Close`.
3. It keeps the rows whose date is not `null` and whose prices are not `NaN`.
   If none remain, it returns before touching the chart area.
4. Otherwise it clears the chart area and draws. The time domain is the
   extent of the dates. The raw price domain runs from the smallest
   `min(Open, Close)` to the largest `max(Open, Close)`.

Modules, following the program's structure:

* `Options`, `Text` (`text.dfy`): an option type; digit texts; the first
  space-separated piece of a text.
* `Calendar`: the proleptic Gregorian calendar.
  - Day numbers counted from 1970-01-01, proved a bijection with dates.
  - The twelve month names of the month selector.
  - A strict `YYYY-MM-DD` parser and formatter, proved inverse to each other.
* `Coercion`: the JavaScript values a cell can hold.
  - Unary `+` (ToNumber, including its string grammar) and `isNaN`.
  - The time value of `new Date(v)` and the long month name read from it.
  - A local-time reading of that month, used in the finding below.
* `Rows`: the row record and the selection predicate; the normaliser and
  the validity filter; position lists, with `filter` modelled on positions
  into the table.
* `Domains`: the chart's points, its time and price domains, and the chart
  a render puts on screen.
* `Render`: what one `renderChart` call does, as functions of the rows
  before it:
  - which rows it rewrites and which rows it draws;
  - the chart left on screen afterwards;
  - with lemmas relating those three.
* `Child1`: the imperative component.
  - The rows are an `array<RowRec>`, rewritten in place by a loop proved
    against `Render.NormalizeAt`.
  - A `Child1` class holds the selection state. Its constructor and two
    handlers change it, and its `RenderChart` method is proved against
    `Render.RowsAfterRender` and `Render.ChartAfterRender`.
* `Scenario`: a three-row table of Apple rows, rendered for November and
  for January.

The program's `this.props.data` array is shared with the parent, so the
in-place writes are visible to later renders. That is why the model keeps
the rows in an array and proves that a second render with the same
selection rewrites nothing and draws the same chart
(`Render.RenderIdempotent`), with months read in UTC (see "## Findings":
west of UTC the program as written does not have this property).

Three behaviours of the code a reader may not expect:

* An empty or `null` `Open`/`Close` cell coerces to `0` under unary `+`,
  so its row is kept and drawn at price 0 (`Rows.EmptyPriceIsZero`). It is
  not rejected. Blank text coerces to `0` as well
  (`Coercion.BlankTextIsZero`). In this model, only text that is neither
  blank nor a decimal literal, or a missing cell (`undefined`), gives `NaN`;
  the literals listed under "## Left out" are not modelled.
* When no row is valid, `renderChart` returns before clearing the chart
  area, so the previous chart stays on screen
  (`Render.NoMatchChangesNothing`, `Child1.Child1.RenderChart`).
* The raw price domain of identical prices has zero width
  (`Domains.FlatPricesCollapse`). Anything beyond that happens in d3's
  `nice()`, which is not part of this model.

## Model

| member | source | states |
|---|---|---|
| Child1.Child1.constructor | src/Child1.js:8-11 | the initial state is company `Apple` and month `November`; both are options of their selectors |
| Child1.Child1.HandleCompanyChange | src/Child1.js:14-16 | the company becomes the chosen value; the month is unchanged |
| Child1.Child1.HandleMonthChange | src/Child1.js:18-20 | the month becomes the chosen value; the company is unchanged |
| Child1.Child1.RenderChart | src/Child1.js:28-64 | the rows afterwards are `RowsAfterRender` of the rows before; the chart area afterwards is `ChartAfterRender` of the rows before and the chart shown; with no valid row the chart area is left as it was |
| Child1.Companies | src/Child1.js:224 | the five companies of the radio list; no contract of its own, the constructor's ensures shows the initial company is among them |
| Child1.NormalizeRows | src/Child1.js:40-51 | after the loop, each listed position holds its row normalised and every other row is unchanged; a position listed twice is harmless |
| Child1.PrepareRows | src/Child1.js:32-53 | the selected rows are normalised in place; the returned positions are exactly the drawn ones, `ShownPositions` of the rows before |
| Render.NormalizeAt | src/Child1.js:40-51 | the table after normalising the listed positions; no contract of its own, `Render.RenderRewritesSelected` and `Child1.NormalizeRows` state it |
| Render.RowsAfterRender | src/Child1.js:32-51 | the table after a render; no contract of its own, `Render.RenderRewritesSelected` and `Render.RenderIdempotent` state it |
| Render.ShownPositions | src/Child1.js:53 | `validData` as positions; no contract of its own, `Render.ShownRows` and `Render.AllValidAllShown` state it |
| Render.ChartAfterRender | src/Child1.js:55-84 | the chart on screen after a render; no contract of its own, `Render.ChartShowsSelection`, `Render.ChartOfPoints` and `Render.NoMatchChangesNothing` state it |
| Render.PointOf | src/Child1.js:76-83 | the point a drawn row gives, from its `Date`, `Open` and `Close`; no contract of its own, `Render.ChartShowsSelection` states it |
| Render.PointsAt | src/Child1.js:76-83 | the points of `validData`, in order; no contract of its own, `Render.ChartShowsSelection` and `Render.ChartOfPoints` state it |
| Render.SelectedPositions | src/Child1.js:32-37 | `filteredData` holds, in increasing table order, exactly the positions whose row has the chosen company and a date in the chosen month |
| Render.RenderRewritesSelected | src/Child1.js:32-51 | a render keeps the table's length; a selected row is replaced by its normalised form and every other row is left as it was |
| Render.ShownRows | src/Child1.js:53 | `validData` is increasing and in range; a position is drawn iff its row is selected and its normalised form is valid; every drawn row is a Date and two numbers other than NaN |
| Render.AllValidAllShown | src/Child1.js:53 | when every selected row is valid once normalised, all selected rows are drawn |
| Render.ChartShowsSelection | src/Child1.js:53-84 | a drawing render shows one point per drawn row, in table order, each the row's normalised date and prices; every point is of the chosen company and month and lies inside both domains |
| Render.ChartOfPoints | src/Child1.js:74-84 | a render whose drawn rows normalise to the points `pts`, in order, draws the chart built from `pts` |
| Render.NoMatchChangesNothing | src/Child1.js:32-58 | with no row of the chosen company and month, a render rewrites nothing and the chart on screen stays |
| Render.RenderIdempotent | src/Child1.js:28-58 | rendering again with the same selection rewrites nothing, draws the same rows and leaves the same chart |
| Rows.Selected | src/Child1.js:32-36 | the selection predicate; no contract of its own, `Render.SelectedPositions` and `Rows.ValidStaysSelected` state it |
| Rows.NormalizeRow | src/Child1.js:40-51 | the normaliser's body; no contract of its own, its fields are stated by `Rows.NormalizeRowFields` |
| Rows.IsValid | src/Child1.js:53 | the validity test; no contract of its own, `Rows.ValidNormalizedPlottable`, `Rows.UnparseableDateRejected` and `Rows.NumericRowAccepted` state it |
| Rows.FilterPositions | src/Child1.js:32-37 | `filter` keeps exactly the listed positions whose row passes, never more than it was given, and keeps an increasing list increasing |
| Rows.FilterAllPass | src/Child1.js:53 | when every listed row passes, `filter` returns the list unchanged |
| Rows.FilterConcat | src/Child1.js:32-37 | filtering a concatenation is the concatenation of the filtered parts, so `filter` keeps order |
| Rows.NormalizeDate | src/Child1.js:41-47 | the normalised date is always a Date or `null` |
| Rows.NormalizeRowFields | src/Child1.js:41-50 | a date text becomes the parse of its first space-separated piece (or `null`); a Date stays; any other value becomes `null`; `Open` and `Close` become their unary `+`; the company is untouched |
| Rows.NormalizeIdempotent | src/Child1.js:40-51 | normalising a normalised row changes nothing |
| Rows.NormalizedIsFixed | src/Child1.js:43-50 | a row already of Date-or-null and two numbers is its own normal form |
| Rows.ValidNormalizedPlottable | src/Child1.js:53 | on a normalised row, the validity test holds iff the row is a Date with two numbers other than NaN |
| Rows.UnparseableDateRejected | src/Child1.js:41-53 | a date text that does not parse makes the row invalid, whatever its prices |
| Rows.NumericRowAccepted | src/Child1.js:41-53 | a row with a parsable date text and numeric price cells is valid and drawable, with exactly that date and those numbers |
| Rows.EmptyPriceIsZero | src/Child1.js:49 | an empty (`null`) `Open` becomes 0 and is not NaN |
| Rows.ValidStaysSelected | src/Child1.js:32-53 | a selected row that is valid once normalised is still selected afterwards, and its date's month is the chosen month |
| Domains.Min | src/Child1.js:82 | `Math.min` of two prices is at most both and is one of them |
| Domains.Max | src/Child1.js:83 | `Math.max` of two prices is at least both and is one of them |
| Domains.EarliestDate | src/Child1.js:76 | the lower end of the time domain is the date of some point and is no later than any point's date |
| Domains.LatestDate | src/Child1.js:76 | the upper end of the time domain is the date of some point and is no earlier than any point's date |
| Domains.LowPrice | src/Child1.js:82 | the lower end of the price domain is `min(Open, Close)` of some point and at most every price |
| Domains.HighPrice | src/Child1.js:83 | the upper end of the price domain is `max(Open, Close)` of some point and at least every price |
| Domains.BuildChart | src/Child1.js:74-84 | the chart keeps its points; both domains are ordered, hold every point, and have ends attained by some point |
| Domains.FlatPricesCollapse | src/Child1.js:81-85 | when every price is the same value, the raw price domain is exactly that value |
| Calendar.MonthNames | src/Child1.js:240-253 | the selector's twelve month names; `Calendar.MonthNameInjective` shows they are distinct |
| Calendar.MonthName | src/Child1.js:34 | the long month name of month `m`, from the selector's list; no contract of its own, `Calendar.MonthNameInjective` states it |
| Calendar.EpochDay | src/Child1.js:33 | the day number of a date, its time value divided by a day's milliseconds; no contract of its own, `Calendar.EpochDayRoundTrip`, `Calendar.DateOfDayRoundTrip` and `Calendar.EpochDayInjective` state it |
| Calendar.DateOfDay | src/Child1.js:33 | the date of a day number; no contract of its own, `Calendar.EpochDayRoundTrip` and `Calendar.DateOfDayRoundTrip` state it |
| Calendar.DaysInMonth | src/Child1.js:39 | every month has 28 to 31 days |
| Calendar.MonthNameInjective | src/Child1.js:240-253 | the selector's twelve month names are distinct: two months have the same name iff they are the same month |
| Calendar.EpochDayRoundTrip | src/Child1.js:33 | turning a date into its day number and back gives the date |
| Calendar.DateOfDayRoundTrip | src/Child1.js:33 | every day number is the day number of its date, so dates and day numbers are in bijection |
| Calendar.EpochDayInjective | src/Child1.js:76 | two dates have the same time value iff they are the same date, so ties in the time extent are ties of dates; the extent compares day numbers, as JavaScript compares time values |
| Calendar.ParseIsoDate | src/Child1.js:39-42 | a parsed `%Y` year is within 0000..9999 |
| Calendar.FormatIsoDate | src/Child1.js:39 | a formatted date is ten characters |
| Calendar.FormatThenParse | src/Child1.js:39 | parsing a formatted date gives the date back |
| Calendar.ParseThenFormat | src/Child1.js:39 | every text the parser accepts is the formatted form of the date it yields |
| Text.TextBeforeSpace | src/Child1.js:42 | `split(' ')[0]` is a prefix with no space, followed in the text by a space or by the end |
| Text.NoSpaceIsWhole | src/Child1.js:42 | a text without a space is its own first piece |
| Coercion.IsJsSpace | src/Child1.js:49-50 | the white space and line terminators unary `+` trims; no contract of its own, `Coercion.BlankTextIsZero` states it |
| Coercion.TrimStart | src/Child1.js:49-50 | trimming leading white space leaves text that is empty or starts with a non-space |
| Coercion.TrimEnd | src/Child1.js:49-50 | trimming trailing white space leaves text that is empty or ends with a non-space |
| Coercion.SignedDecimal | src/Child1.js:49-50 | a decimal literal with an optional sign; no contract of its own, `Coercion.DecimalTextCoerces` states it for both signs |
| Coercion.ToNumber | src/Child1.js:49-50 | unary `+`; no contract of its own, `Coercion.NumberStaysNumber`, `Rows.EmptyPriceIsZero` and the text lemmas below state it |
| Coercion.StringToNumber | src/Child1.js:49-50 | unary `+` of a text; no contract of its own, `Coercion.BlankTextIsZero`, `Coercion.DecimalTextCoerces` and `Coercion.FractionTextCoerces` state it |
| Coercion.BlankTextIsZero | src/Child1.js:49-50 | text of nothing but white space and line terminators, the empty text included, coerces to 0 |
| Coercion.IsNaN | src/Child1.js:53 | the global `isNaN`; no contract of its own, `Rows.ValidNormalizedPlottable` and `Rows.EmptyPriceIsZero` state it |
| Coercion.UnsignedDecimal | src/Child1.js:49-50 | an unsigned decimal literal denotes a value of at least 0 |
| Coercion.FractionValue | src/Child1.js:49-50 | the digits after the point denote a value in [0, 1) that, times ten to the number of digits, is the number those digits spell |
| Coercion.UnsignedFraction | src/Child1.js:49-50 | digits, a point and more digits denote the whole part plus the fraction's value |
| Coercion.FractionTextCoerces | src/Child1.js:49-50 | a price text with a fraction, such as `150.25`, coerces to its whole part plus its fraction's value |
| Coercion.FractionalPriceCoerces | src/Child1.js:49-50 | the text `150.25` coerces to the number 150.25 |
| Coercion.NumberStaysNumber | src/Child1.js:49-50 | unary `+` of a number is that number |
| Coercion.DecimalTextCoerces | src/Child1.js:49-50 | the decimal text of `n` coerces to `n`, and with a leading minus to `-n` |
| Coercion.DigitTextCoerces | src/Child1.js:49-50 | any non-empty digit text coerces to the number its digits spell |
| Coercion.TimeValueOf | src/Child1.js:33 | the time value of `new Date(v)`; no contract of its own, `Coercion.MonthOfDateString`, `Coercion.NullIsJanuary` and `Coercion.TimeClip` state it |
| Coercion.MonthOfValue | src/Child1.js:33-34 | the long month name read in UTC; no contract of its own, `Coercion.MonthOfDate`, `Coercion.MonthOfDateString` and `Coercion.MonthOfNonDateString` state it |
| Coercion.Trunc | src/Child1.js:33 | truncation toward zero lands within one of its argument, on the zero side |
| Coercion.TimeClip | src/Child1.js:33 | a valid time value lies within 8.64e15 ms of the epoch |
| Coercion.MonthOfDate | src/Child1.js:33-34 | the month read from a Date is the month of its calendar day |
| Coercion.MonthOfDateString | src/Child1.js:33-34 | the month read from a `YYYY-MM-DD` text is the month it spells |
| Coercion.MonthOfNonDateString | src/Child1.js:33-36 | text that is not a date reads as `Invalid Date`, which matches none of the selector's months |
| Coercion.NullIsJanuary | src/Child1.js:33-34 | `null`, `false` and `true` are time values 0 or 1 ms, which fall in January 1970 |
| Coercion.LocalMonth | src/Child1.js:34 | the long month name of a time value in a given time zone; no contract of its own, `Coercion.LocalMonthOfFirst` and `Coercion.LocalDateKeepsMonth` state it |
| Coercion.LocalTimeValueOf | src/Child1.js:33-34 | the time value read in a given time zone, a text at midnight UTC and a stored Date at local midnight; no contract of its own, `Coercion.LocalDateKeepsMonth` and `Coercion.FirstOfMonthWestOfUtc` state it |
| Coercion.LocalMonthOfValue | src/Child1.js:33-34 | the long month name read in a given time zone; no contract of its own, `Coercion.UtcMonthOfValue`, `Coercion.LocalDateKeepsMonth` and `Coercion.FirstOfMonthWestOfUtc` state it |
| Coercion.UtcMonthOfValue | src/Child1.js:34 | read with a zero time-zone offset, the local month is the UTC month |
| Coercion.PrevMonth | src/Child1.js:33-34 | the month before `m` is `m - 1`, and December for January |
| Coercion.DayBeforeFirst | src/Child1.js:33-34 | the day before the first of a month falls in the month before, December of the year before for January |
| Coercion.LocalMonthOfFirst | src/Child1.js:33-34 | up to a day west of UTC, midnight UTC of the first of any month, January included, reads as the month before |
| Coercion.FirstOfMonthWestOfUtc | src/Child1.js:33-34 | a text cell at midnight UTC of the first of any month is in that month in UTC, but in the month before (December for January) for a reader up to a day west of UTC |
| Coercion.LocalDateKeepsMonth | src/Child1.js:33-42 | a Date the normaliser stored, built at local midnight, reads as its own calendar month in every time zone |
| Scenario.ParsesTo | src/Child1.js:42 | a `YYYY-MM-DD` text of digits parses to the date its digits spell |
| Scenario.DatesOfTable | src/Child1.js:42 | the three date texts of the table parse to Nov 1, Nov 2 and Dec 1, 2023 |
| Scenario.PriceIs | src/Child1.js:49-50 | a three-digit price text coerces to the number it spells |
| Scenario.PricesOfTable | src/Child1.js:49-50 | the table's price texts coerce to 150, 152 and 149 |
| Scenario.NormalizedNovemberRows | src/Child1.js:40-51 | the two November rows normalise to their Dates and numeric prices |
| Scenario.MonthsOfTable | src/Child1.js:33-34 | the table's dates read as November, November and December |
| Scenario.SelectedOfTable | src/Child1.js:32-37 | the two November rows are selected for Apple in November; the December row is not |
| Scenario.NovemberSelection | src/Child1.js:32-37 | selecting Apple in November picks exactly the first two rows |
| Scenario.NovemberRows | src/Child1.js:40-51 | the November render rewrites the two November rows to Dates and numbers and leaves the December row as text |
| Scenario.NovemberShown | src/Child1.js:53 | both November rows survive the validity filter |
| Scenario.NovemberChart | src/Child1.js:74-84 | the chart of the two November points spans Nov 1 to Nov 2 and prices 149 to 152 |
| Scenario.NovemberPoints | src/Child1.js:53-84 | the November render draws the two November points, in table order |
| Scenario.NovemberDrawsTwoPoints | src/Child1.js:28-84 | rendering November draws two points, Nov 1 at 150/152 and Nov 2 at 152/149, over Nov 1 to Nov 2 and 149 to 152 |
| Scenario.FirstOfMonthReadWestOfUtc | src/Child1.js:33-34 | the Nov 1 row reads as November in UTC but as October five hours west of UTC |
| Scenario.DecemberRowDriftsWestOfUtc | src/Child1.js:33-42 | five hours west of UTC the Dec 1 text reads as November, but once normalised to a Date it reads as December |
| Scenario.JanuaryKeepsChart | src/Child1.js:32-58 | rendering January selects no row, rewrites nothing, and leaves the chart on screen as it was |

## Findings

| source | as written | input that shows it | evidently intended | confidence | as-written member | corrected member |
|---|---|---|---|---|---|---|
| src/Child1.js:33-34 | the selection filter reads the month of `new Date(d.Date)` with `toLocaleString`, in the reader's time zone; the date-only text `YYYY-MM-DD` is midnight UTC | the row dated `2023-11-01`, read at UTC-5 (offset -300 min), falls in `October` and is left out of the November chart; the `2023-12-01` row falls in `November` until a render normalises it to a local-midnight Date, which reads as `December`, so repeating a render can change its selection | the month written in the date text, which is also the month of the date the normaliser parses from it | medium: only for YYYY-MM-DD date cells and readers west of UTC; not executed | Coercion.LocalMonthOfValue with Coercion.LocalTimeValueOf, exhibited by Coercion.FirstOfMonthWestOfUtc, Scenario.FirstOfMonthReadWestOfUtc and Scenario.DecemberRowDriftsWestOfUtc | Coercion.MonthOfValue, with Coercion.MonthOfDateString; Rows.Selected uses it |

## Left out

- d3 drawing: the SVG, axes, tick formats, lines, markers, legend and tooltips (src/Child1.js:60-212). The model stops at the chart's domains and points.
- Domains.BuildChart: the price domain is the raw extent; `nice()` (src/Child1.js:85) and the pixel ranges of both scales (src/Child1.js:77, 86) are left out, so no pixel coordinate is modelled.
- Coercion.MonthOfValue: months are read in UTC, the corrected behaviour of the finding above. Time zones other than in `Coercion.LocalMonthOfValue`, and locales, are left out.
- Calendar.ParseIsoDate: strict four-, two- and two-digit fields with a real month and day. d3's `timeParse` also accepts shorter fields, skips leading white space in a numeric field, and rolls over out-of-range months and days (`2023-13-01` gives 1 January 2024); that is left out.
- Coercion.TimeValueOf: `new Date` of a text is read only as the `YYYY-MM-DD` text before its first space. JavaScript's other date-string formats are left out.
- Coercion.StringToNumber: decimal literals with an optional sign and fraction. Exponents, `Infinity`, hexadecimal, binary and octal literals, IEEE rounding and `-0` are left out.
- The `console.warn` on the path with no valid row (src/Child1.js:56) is output only and is left out; the model keeps the early return.
- A price of `Infinity` or `-Infinity` cannot be represented: `Number` is NaN or a real, so a row whose price is infinite, which line 53 keeps, is not modelled.
- Dates are taken at day granularity: a Date value is a calendar day at midnight, so a Date cell with a time of day has that time dropped, and `d3.extent` over two Dates of the same day does not order them by time.
- Dates are unbounded proleptic Gregorian dates. The ±8.64e15 ms range applies only to numbers coerced to time values.
- The chart area is the page's DOM node. `Child1.Child1.RenderChart` takes the chart on screen as a parameter and returns the one it leaves.
- Child1.Child1.RenderChart: its contract does not say directly that unselected rows are untouched. That follows from its first ensures together with `Render.RenderRewritesSelected`.
- `componentDidUpdate` (src/Child1.js:22-26), React's scheduling and batching of `setState`, and the JSX of `render` apart from the option lists (src/Child1.js:214-262) are left out.
- The parent component, the CSV fetch and its decoder: src/App.js is not part of this model. Cells are taken as whatever values the decoder yields.
- The spreadsheet's other columns are not modelled; a row holds only the four cells the chart reads.
