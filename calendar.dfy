/** The clock reading and the year-month of a festival (a Carbon date on the
    first of the month, of which only year and month are ever used). */
module Calendar {

  type Month = m: int | 1 <= m <= 12 witness 1

  /** The reference time: only its year and month are read. */
  datatype Now = Now(year: nat, month: Month)

  datatype YearMonth = YearMonth(year: nat, month: Month)

  /** Chronological order on year-months (the order of their "Y-m" keys). */
  predicate NotAfter(a: YearMonth, b: YearMonth) {
    a.year < b.year || (a.year == b.year && a.month <= b.month)
  }

  /** A year-month is upcoming when it is the current month or later. */
  predicate IsUpcoming(ym: YearMonth, now: Now) {
    NotAfter(YearMonth(now.year, now.month), ym)
  }
}
