/** A year, month and day of any of the calendars, ordered as `operator<` orders them. */
module CalendarDate {

  datatype Date = Date(year: int, month: int, day: int)

  predicate Less(a: Date, b: Date) {
    a.year < b.year
    || (a.year == b.year && (a.month < b.month || (a.month == b.month && a.day < b.day)))
  }
}
