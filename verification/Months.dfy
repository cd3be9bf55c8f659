/** Arithmetic on months and weekdays: `month`, `year_month` and `weekday` of `Include/date/date.h`. */
module Months {
  import opened CppArith
  import opened Weekdays

  datatype YearMonth = YearMonth(year: int, month: int)

  /** `month + months`, for a count that is an `int`. */
  function Plus(x: int, n: int): int {
    var mu := x + n - 1;
    var yr := TruncDiv(if mu >= 0 then mu else mu - 11, 12);
    U32(mu - yr * 12 + 1)
  }

  /** `month - month`, on unsigned numbers. */
  function Minus(x: int, y: int): int {
    var d := U32(x - y);
    if d <= 11 then d else U32(d + 12)
  }

  /** `year_month + months`. */
  function PlusMonths(x: YearMonth, n: int): YearMonth {
    var dmi := x.month - 1 + n;
    var dy := TruncDiv(if dmi >= 0 then dmi else dmi - 11, 12);
    YearMonth(x.year + dy, U32(dmi - dy * 12 + 1))
  }

  /** `year_month - year_month`. */
  function MinusMonths(x: YearMonth, y: YearMonth): int {
    (x.year - y.year) * 12 + I32(U32(x.month - y.month))
  }

  /** `weekday + days`. */
  function PlusDays(x: int, n: int): int {
    var wdu := x + n;
    var wk := TruncDiv(if wdu >= 0 then wdu else wdu - 6, 7);
    U32(wdu - wk * 7)
  }

  /** Months counted through from year 0. */
  function Index(x: YearMonth): int {
    12 * x.year + x.month - 1
  }

  /** Adding months counts on, and the difference is the only count that leads from one to the other. */
  lemma MonthsCountOn(x: YearMonth, y: YearMonth, n: int)
    requires 1 <= x.month <= 12 && 1 <= y.month <= 12
    ensures 1 <= PlusMonths(y, n).month <= 12 && Index(PlusMonths(y, n)) == Index(y) + n
    ensures PlusMonths(y, n) == x <==> n == MinusMonths(x, y)
  {
    hide TruncDiv, U32, I32;
    NoWrap();
    EraIsFloor(y.month - 1 + n, 12);
  }

  lemma SameRemainder(a: int, b: int, n: int)
    requires 0 <= b < n
    ensures a % n == b <==> (a - b) % n == 0
  {
    if a % n == b {
      ModUnique(a - b, n, a / n, 0);
    } else if (a - b) % n == 0 {
      ModUnique(a, n, (a - b) / n, b);
    }
  }

  lemma PlusIsRemainder(x: int, n: int)
    ensures Plus(x, n) == (x + n - 1) % 12 + 1
  {
    hide TruncDiv, U32;
    NoWrap();
    EraIsFloor(x + n - 1, 12);
  }

  /** Within a year, where December is followed by January. */
  lemma MonthsGoRound(x: int, y: int, n: int)
    requires 1 <= x <= 12 && 1 <= y <= 12
    ensures 1 <= Plus(y, n) <= 12 && (Plus(y, n) - y - n) % 12 == 0
    ensures 0 <= Minus(x, y) < 12 && (Plus(y, n) == x <==> (n - Minus(x, y)) % 12 == 0)
  {
    hide Plus, Minus;
    PlusIsRemainder(y, n);
    MinusIsForward(x, y);
    var a := y + n - 1;
    ModUnique(a % 12 - a, 12, -(a / 12), 0);
    SameRemainder(a, x - 1, 12);
    if x < y {
      ModUnique(n - Minus(x, y), 12, (a - (x - 1)) / 12 - 1, (a - (x - 1)) % 12);
    }
  }

  lemma MinusIsForward(x: int, y: int)
    requires 1 <= x <= 12 && 1 <= y <= 12
    ensures Minus(x, y) == if x >= y then x - y else x - y + 12
  {}

  lemma PlusDaysIsRemainder(x: int, n: int)
    ensures PlusDays(x, n) == (x + n) % 7
  {
    hide TruncDiv, U32;
    NoWrap();
    EraIsFloor(x + n, 7);
  }

  /** Adding days to a weekday follows the days themselves, and undoes the difference. */
  lemma WeekdaysFollowDays(dp: int, x: int, n: int)
    requires 0 <= x < 7
    ensures PlusDays(DayOfWeek(dp), n) == DayOfWeek(dp + n)
    ensures PlusDays(DayOfWeek(dp), n) == x <==> (n - Difference(x, DayOfWeek(dp))) % 7 == 0
  {
    hide PlusDays, Difference;
    var w := DayOfWeek(dp);
    PlusDaysIsRemainder(w, n);
    DifferenceIsForward(x, w);
    var q := (w + n) / 7;
    ModUnique(dp + n + 4, 7, (dp + 4) / 7 + q, (w + n) % 7);
    SameRemainder(w + n, x, 7);
    var d := w + n - x;
    ModUnique(n - (x - w) % 7, 7, d / 7 + (x - w) / 7, d % 7);
  }
}
