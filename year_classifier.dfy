/** The temporal classifier: which of the two year columns of a row carry a
    usable date, which year-month the festival falls in, and which column's
    text is shown as its date. */
module YearClassifier {
  import opened PhpValues
  import opened Calendar
  import opened RowWrapper

  /** The generator's four year cases. */
  datatype YearCase = AllEmpty | CurrentYearOnly | NextYearOnly | BothYearsExist {
    predicate HasCurrentYear() { this == CurrentYearOnly || this == BothYearsExist }
    predicate HasNextYear() { this == NextYearOnly || this == BothYearsExist }
  }

  /** `getYearColumnValue`: the cell of the column titled `year`, kept only
      when it is not PHP-empty and contains a decimal digit. */
  function YearColumnValue(year: nat, mappings: Mappings, row: Row): (value: Option<string>)
    ensures value.Some? <==>
      var cell := Lookup(mappings, row, DecimalString(year));
      cell.Some? && !IsEmptyString(cell.value) && HasDigit(cell.value)
    ensures value.Some? ==> value == Lookup(mappings, row, DecimalString(year))
    ensures !IsBlank(value) <==> value.Some?
  {
    var value := Lookup(mappings, row, DecimalString(year));
    if IsBlank(value) then None
    else if HasDigit(value.value) then value
    else None
  }

  /** Three sample year cells: text without a digit, the PHP-empty "0", and
      a free-text date. */
  lemma YearColumnValueExamples(mappings: Mappings, row: Row, year: nat)
    requires DecimalString(year) in mappings && mappings[DecimalString(year)] < |row|
    ensures row[mappings[DecimalString(year)]] == "TBD" ==> YearColumnValue(year, mappings, row) == None
    ensures row[mappings[DecimalString(year)]] == "0" ==> YearColumnValue(year, mappings, row) == None
    ensures row[mappings[DecimalString(year)]] == "June 12-15" ==>
      YearColumnValue(year, mappings, row) == Some("June 12-15")
  {
    var cell := row[mappings[DecimalString(year)]];
    if cell == "TBD" {
      assert !IsDigit(cell[0]) && !IsDigit(cell[1]) && !IsDigit(cell[2]);
    }
    if cell == "June 12-15" {
      assert IsDigit(cell[5]);
    }
  }

  /** `determineYearCase`: the case split on which values are PHP-empty. */
  function DetermineYearCase(currentYear: Option<string>, nextYear: Option<string>): (yearCase: YearCase)
    ensures yearCase.HasCurrentYear() <==> !IsBlank(currentYear)
    ensures yearCase.HasNextYear() <==> !IsBlank(nextYear)
  {
    if IsBlank(currentYear) && IsBlank(nextYear) then AllEmpty
    else if IsBlank(currentYear) then NextYearOnly
    else if IsBlank(nextYear) then CurrentYearOnly
    else BothYearsExist
  }

  /** The year case is determined by which of the two year values exist. */
  lemma YearCaseTable(currentYear: Option<string>, nextYear: Option<string>)
    requires !IsBlank(currentYear) <==> currentYear.Some?
    requires !IsBlank(nextYear) <==> nextYear.Some?
    ensures currentYear.None? && nextYear.None? ==> DetermineYearCase(currentYear, nextYear) == AllEmpty
    ensures currentYear.None? && nextYear.Some? ==> DetermineYearCase(currentYear, nextYear) == NextYearOnly
    ensures currentYear.Some? && nextYear.None? ==> DetermineYearCase(currentYear, nextYear) == CurrentYearOnly
    ensures currentYear.Some? && nextYear.Some? ==> DetermineYearCase(currentYear, nextYear) == BothYearsExist
  {
  }

  /** A year the row has a date for, according to its year case. */
  predicate HasDataFor(yearCase: YearCase, year: nat, now: Now) {
    (year == now.year && yearCase.HasCurrentYear()) || (year == now.year + 1 && yearCase.HasNextYear())
  }

  /** `getFestivalYearAndMonth`: the year-month of the festival, or none when
      it cannot be dated. The month is upcoming when it is the current month
      or later (inclusive), and that picks the current year over the next.
      Its meaning: the earliest year the row has a date for in which the
      month has not yet passed. */
  function FestivalYearAndMonth(monthNumber: Month, now: Now, yearCase: YearCase): (ym: Option<YearMonth>)
    ensures ym.Some? ==> ym.value.month == monthNumber
    ensures ym.Some? ==> HasDataFor(yearCase, ym.value.year, now) && IsUpcoming(ym.value, now)
    ensures ym.Some? ==> forall y: nat ::
      HasDataFor(yearCase, y, now) && IsUpcoming(YearMonth(y, monthNumber), now) ==> ym.value.year <= y
    ensures ym.None? ==> forall y: nat ::
      HasDataFor(yearCase, y, now) ==> !IsUpcoming(YearMonth(y, monthNumber), now)
  {
    var isFestivalMonthAfterCurrentMonth := monthNumber >= now.month;
    match yearCase
    case AllEmpty => None
    case CurrentYearOnly =>
      if isFestivalMonthAfterCurrentMonth then Some(YearMonth(now.year, monthNumber)) else None
    case NextYearOnly => Some(YearMonth(now.year + 1, monthNumber))
    case BothYearsExist =>
      if isFestivalMonthAfterCurrentMonth then Some(YearMonth(now.year, monthNumber))
      else Some(YearMonth(now.year + 1, monthNumber))
  }

  /** The resolution table, row by row. */
  lemma ResolutionTable(monthNumber: Month, now: Now, yearCase: YearCase)
    ensures yearCase == AllEmpty ==> FestivalYearAndMonth(monthNumber, now, yearCase) == None
    ensures yearCase == CurrentYearOnly ==>
      FestivalYearAndMonth(monthNumber, now, yearCase)
        == (if monthNumber >= now.month then Some(YearMonth(now.year, monthNumber)) else None)
    ensures yearCase == NextYearOnly ==>
      FestivalYearAndMonth(monthNumber, now, yearCase) == Some(YearMonth(now.year + 1, monthNumber))
    ensures yearCase == BothYearsExist ==>
      FestivalYearAndMonth(monthNumber, now, yearCase)
        == Some(YearMonth(if monthNumber >= now.month then now.year else now.year + 1, monthNumber))
  {
  }

  /** `getFestivalClosestDate`: the current-year value when the festival
      falls in the current year, else the next-year value. */
  function ClosestDate(currentYearDate: Option<string>, nextYearDate: Option<string>, yearMonth: YearMonth, now: Now)
    : (date: Option<string>)
    ensures yearMonth.year == now.year ==> date == currentYearDate
    ensures yearMonth.year != now.year ==> date == nextYearDate
  {
    if yearMonth.year == now.year then currentYearDate else nextYearDate
  }

  /** Whenever a year-month is resolved, the display date exists (the `string`
      return type holds) and is the cell of the column titled with the
      resolved year. */
  lemma DisplayDateFromResolvedYear(mappings: Mappings, row: Row, monthNumber: Month, now: Now)
    requires
      var currentYearDate := YearColumnValue(now.year, mappings, row);
      var nextYearDate := YearColumnValue(now.year + 1, mappings, row);
      FestivalYearAndMonth(monthNumber, now, DetermineYearCase(currentYearDate, nextYearDate)).Some?
    ensures
      var currentYearDate := YearColumnValue(now.year, mappings, row);
      var nextYearDate := YearColumnValue(now.year + 1, mappings, row);
      var ym := FestivalYearAndMonth(monthNumber, now, DetermineYearCase(currentYearDate, nextYearDate)).value;
      var date := ClosestDate(currentYearDate, nextYearDate, ym, now);
      && date.Some?
      && date == YearColumnValue(ym.year, mappings, row)
      && date == Lookup(mappings, row, DecimalString(ym.year))
      && HasDigit(date.value)
  {
  }
}
