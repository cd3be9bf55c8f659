/** The timestamp text of `FormattedCurrentTime` (`Utilities/Analytics.cpp`), as `Include/date/date.h`
    prints a time point of `Pow10(w)` ticks a second. The database stores it as text. */
module Timestamp {
  import opened CalendarDate
  import opened CppArith
  import opened Digits
  import Gregorian

  function Pow10(w: nat): (p: nat)
    ensures p > 0
  {
    if w == 0 then 1 else 10 * Pow10(w - 1)
  }

  function Zeros(n: nat): string {
    if n == 0 then "" else "0" + Zeros(n - 1)
  }

  /** A number printed with fill '0' and a minimal width. */
  function Filled(n: nat, width: nat): string {
    var s := Decimal(n);
    if |s| < width then Zeros(width - |s|) + s else s
  }

  /** Hours and minutes get a '0' in front of a single digit. */
  function Led(n: nat): string {
    (if n < 10 then "0" else "") + Decimal(n)
  }

  /** `year_month_day`. */
  function PrintDate(x: Date): string
    requires x.year >= 0 && x.month >= 0 && x.day >= 0
  {
    Decimal(x.year) + ("-" + (Filled(x.month, 2) + ("-" + Filled(x.day, 2))))
  }

  /** `hh_mm_ss`, of a time of day in whole seconds and ticks. */
  function PrintTime(seconds: nat, ticks: nat, w: nat): string {
    Led(seconds / 3600)
    + (":" + (Led(seconds % 3600 / 60)
              + (":" + (Filled(seconds % 60, 2)
                        + (if w > 0 then "." + Filled(ticks, w) else "")))))
  }

  /** `operator<<` of a time point: the day is found by flooring. */
  function Text(tp: int, w: nat): string
    requires Printable(tp, w)
  {
    var f := Pow10(w);
    var seconds := tp / f;
    PrintDate(Gregorian.FromDays(seconds / 86400)) + (" " + PrintTime(seconds % 86400, tp % f, w))
  }

  /** Years of four digits. */
  predicate Printable(tp: int, w: nat) {
    var x := Gregorian.FromDays(tp / Pow10(w) / 86400);
    1000 <= x.year <= 9999 && Gregorian.Valid(x)
  }

  // ----- order of texts

  /** The order of `std::string` and of the text column. */
  predicate TextLess(a: string, b: string) {
    if b == "" then false
    else if a == "" then true
    else a[0] < b[0] || (a[0] == b[0] && TextLess(a[1..], b[1..]))
  }

  lemma {:induction false} TextLessConcat(a: string, b: string, c: string, d: string)
    requires |a| == |c|
    ensures TextLess(a + b, c + d) <==> TextLess(a, c) || (a == c && TextLess(b, d))
  {
    if a == "" {
      assert a + b == b && c + d == d;
    } else {
      assert (a + b)[1..] == a[1..] + b && (c + d)[1..] == c[1..] + d;
      TextLessConcat(a[1..], b, c[1..], d);
      assert a == [a[0]] + a[1..] && c == [c[0]] + c[1..];
    }
  }

  lemma {:induction false} TextLessStrict(a: string)
    ensures !TextLess(a, a)
  {
    if a != "" {
      TextLessStrict(a[1..]);
    }
  }

  /** `n` in exactly `w` digits. */
  function Padded(n: nat, w: nat): (s: string)
    ensures |s| == w
  {
    if w == 0 then "" else Padded(n / 10, w - 1) + [DigitChar(n % 10)]
  }

  lemma {:induction false} PaddedZero(w: nat)
    ensures Padded(0, w) == Zeros(w)
  {
    if w > 0 {
      PaddedZero(w - 1);
      ZerosEnd(w - 1);
    }
  }

  lemma {:induction false} ZerosEnd(n: nat)
    ensures |Zeros(n)| == n && Zeros(n) + "0" == "0" + Zeros(n)
  {
    if n > 0 {
      ZerosEnd(n - 1);
      assert Zeros(n) + "0" == "0" + (Zeros(n - 1) + "0");
    }
  }

  lemma {:induction false} FilledIsPadded(n: nat, w: nat)
    requires n < Pow10(w) && w > 0
    ensures Filled(n, w) == Padded(n, w) && |Decimal(n)| <= w
  {
    if n < 10 {
      PaddedZero(w - 1);
    } else {
      assert w > 1;
      FilledIsPadded(n / 10, w - 1);
      var s := Decimal(n / 10);
      assert Filled(n, w) == Filled(n / 10, w - 1) + [DigitChar(n % 10)];
    }
  }

  lemma LedIsPadded(n: nat)
    requires n < 100
    ensures Led(n) == Padded(n, 2)
  {
    FilledIsPadded(n, 2);
    DecimalLength(n);
    assert Zeros(1) == "0" + Zeros(0) == "0";
  }

  /** Digits of fixed width are ordered like the numbers. */
  lemma {:induction false} PaddedOrder(n: nat, m: nat, w: nat)
    requires n < Pow10(w) && m < Pow10(w)
    ensures TextLess(Padded(n, w), Padded(m, w)) <==> n < m
    ensures Padded(n, w) == Padded(m, w) <==> n == m
  {
    if w > 0 {
      PaddedOrder(n / 10, m / 10, w - 1);
      var a, b := [DigitChar(n % 10)], [DigitChar(m % 10)];
      TextLessConcat(Padded(n / 10, w - 1), a, Padded(m / 10, w - 1), b);
      assert TextLess(a, b) <==> n % 10 < m % 10;
      assert Padded(n, w)[..w - 1] == Padded(n / 10, w - 1) && Padded(m, w)[..w - 1] == Padded(m / 10, w - 1);
      assert Padded(n, w)[w - 1] == a[0] && Padded(m, w)[w - 1] == b[0];
    }
  }

  /** A field of fixed width decides, or what follows it does. */
  lemma FieldOrder(n: nat, m: nat, w: nat, a: string, b: string)
    requires n < Pow10(w) && m < Pow10(w)
    ensures TextLess(Padded(n, w) + a, Padded(m, w) + b) <==> n < m || (n == m && TextLess(a, b))
  {
    hide Padded, TextLess;
    PaddedOrder(n, m, w);
    TextLessConcat(Padded(n, w), a, Padded(m, w), b);
  }

  lemma SeparatorOrder(c: char, a: string, b: string)
    ensures TextLess([c] + a, [c] + b) <==> TextLess(a, b)
  {
    assert ([c] + a)[1..] == a && ([c] + b)[1..] == b;
  }

  lemma Powers()
    ensures Pow10(2) == 100 && Pow10(4) == 10000
  {
    assert Pow10(0) == 1 && Pow10(1) == 10 && Pow10(2) == 100 && Pow10(3) == 1000;
  }

  lemma DateText(x: Date)
    requires 1000 <= x.year <= 9999 && 0 <= x.month < 100 && 0 <= x.day < 100
    ensures PrintDate(x) == Padded(x.year, 4) + ("-" + (Padded(x.month, 2) + ("-" + Padded(x.day, 2))))
    ensures |PrintDate(x)| == 10
  {
    Powers();
    FilledIsPadded(x.year, 4);
    FourDigits(x.year);
    FilledIsPadded(x.month, 2);
    FilledIsPadded(x.day, 2);
  }

  lemma FourDigits(n: nat)
    requires 1000 <= n <= 9999
    ensures Filled(n, 4) == Decimal(n)
  {
    DecimalLength(n / 1000);
    assert |Decimal(n)| == 1 + |Decimal(n / 10)| == 2 + |Decimal(n / 10 / 10)| == 3 + |Decimal(n / 10 / 10 / 10)|;
    assert n / 10 / 10 / 10 == n / 1000;
  }

  lemma DateOrder(x: Date, y: Date)
    requires 1000 <= x.year <= 9999 && 0 <= x.month < 100 && 0 <= x.day < 100
    requires 1000 <= y.year <= 9999 && 0 <= y.month < 100 && 0 <= y.day < 100
    ensures TextLess(PrintDate(x), PrintDate(y)) <==> Less(x, y)
    ensures |PrintDate(x)| == |PrintDate(y)|
  {
    hide Padded, TextLess, PrintDate;
    Powers();
    DateText(x);
    DateText(y);
    var a, b := Padded(x.day, 2), Padded(y.day, 2);
    PaddedOrder(x.day, y.day, 2);
    SeparatorOrder('-', a, b);
    FieldOrder(x.month, y.month, 2, "-" + a, "-" + b);
    var c, d := Padded(x.month, 2) + ("-" + a), Padded(y.month, 2) + ("-" + b);
    SeparatorOrder('-', c, d);
    FieldOrder(x.year, y.year, 4, "-" + c, "-" + d);
  }

  lemma DateEquality(x: Date, y: Date)
    requires 1000 <= x.year <= 9999 && 0 <= x.month < 100 && 0 <= x.day < 100
    requires 1000 <= y.year <= 9999 && 0 <= y.month < 100 && 0 <= y.day < 100
    ensures PrintDate(x) == PrintDate(y) <==> x == y
  {
    hide PrintDate, TextLess;
    DateOrder(x, y);
    DateOrder(y, x);
    TextLessStrict(PrintDate(x));
  }

  lemma TimeText(seconds: nat, ticks: nat, w: nat)
    requires seconds < 86400 && ticks < Pow10(w)
    ensures PrintTime(seconds, ticks, w)
            == Padded(seconds / 3600, 2)
               + (":" + (Padded(seconds % 3600 / 60, 2)
                         + (":" + (Padded(seconds % 60, 2) + (if w > 0 then "." + Padded(ticks, w) else "")))))
  {
    Powers();
    LedIsPadded(seconds / 3600);
    LedIsPadded(seconds % 3600 / 60);
    FilledIsPadded(seconds % 60, 2);
    if w > 0 {
      FilledIsPadded(ticks, w);
    }
  }

  lemma TicksOrder(i: nat, j: nat, w: nat)
    requires i < Pow10(w) && j < Pow10(w)
    ensures TextLess(if w > 0 then "." + Padded(i, w) else "", if w > 0 then "." + Padded(j, w) else "") <==> i < j
  {
    if w > 0 {
      SeparatorOrder('.', Padded(i, w), Padded(j, w));
      PaddedOrder(i, j, w);
    }
  }

  lemma TimeOrder(s: nat, i: nat, t: nat, j: nat, w: nat)
    requires s < 86400 && t < 86400 && i < Pow10(w) && j < Pow10(w)
    ensures TextLess(PrintTime(s, i, w), PrintTime(t, j, w)) <==> s < t || (s == t && i < j)
  {
    hide Padded, TextLess, PrintTime, Pow10;
    Powers();
    TimeText(s, i, w);
    TimeText(t, j, w);
    TicksOrder(i, j, w);
    var a, b := if w > 0 then "." + Padded(i, w) else "", if w > 0 then "." + Padded(j, w) else "";
    FieldOrder(s % 60, t % 60, 2, a, b);
    var c, d := Padded(s % 60, 2) + a, Padded(t % 60, 2) + b;
    SeparatorOrder(':', c, d);
    FieldOrder(s % 3600 / 60, t % 3600 / 60, 2, ":" + c, ":" + d);
    var e, f := Padded(s % 3600 / 60, 2) + (":" + c), Padded(t % 3600 / 60, 2) + (":" + d);
    SeparatorOrder(':', e, f);
    FieldOrder(s / 3600, t / 3600, 2, ":" + e, ":" + f);
    SixtiesOrder(s, t);
  }

  lemma SixtiesOrder(s: nat, t: nat)
    ensures s < t <==> s / 3600 < t / 3600
                       || (s / 3600 == t / 3600
                           && (s % 3600 / 60 < t % 3600 / 60 || (s % 3600 / 60 == t % 3600 / 60 && s % 60 < t % 60)))
    ensures s == t <==> s / 3600 == t / 3600 && s % 3600 / 60 == t % 3600 / 60 && s % 60 == t % 60
  {
    DivisionOrder(s, t, 3600);
    DivisionOrder(t, s, 3600);
    DivisionOrder(s % 3600, t % 3600, 60);
    DivisionOrder(t % 3600, s % 3600, 60);
    SecondsOfHour(s);
    SecondsOfHour(t);
  }

  lemma SecondsOfHour(s: nat)
    ensures s % 3600 % 60 == s % 60
  {
    var h, r := s / 3600, s % 3600;
    ModUnique(s, 60, 60 * h + r / 60, r % 60);
  }

  lemma DivisionOrder(s: int, t: int, f: nat)
    requires f > 0
    ensures s < t <==> s / f < t / f || (s / f == t / f && s % f < t % f)
  {
    var d := t / f - s / f;
    assert t - s == d * f + (t % f - s % f);
    MulAtLeast(d, f);
    MulAtLeast(-d, f);
    assert (-d) * f == -(d * f);
  }

  /** Timestamps of one precision sort as text the way they sort in time. */
  lemma TextOrderIsTimeOrder(s: int, t: int, w: nat)
    requires Printable(s, w) && Printable(t, w)
    ensures TextLess(Text(s, w), Text(t, w)) <==> s < t
  {
    hide Gregorian.FromDays, Gregorian.ToDays, Gregorian.Valid, PrintDate, PrintTime, TextLess;
    var f := Pow10(w);
    var i, j := s / f, t / f;
    var x, y := Gregorian.FromDays(i / 86400), Gregorian.FromDays(j / 86400);
    Gregorian.ToDaysOfFromDays(i / 86400);
    Gregorian.ToDaysOfFromDays(j / 86400);
    Gregorian.OrderPreserved(x, y);
    Gregorian.OrderPreserved(y, x);
    MonthAndDay(x);
    MonthAndDay(y);
    DateOrder(x, y);
    DateEquality(x, y);
    var a, b := PrintTime(i % 86400, s % f, w), PrintTime(j % 86400, t % f, w);
    TimeOrder(i % 86400, s % f, j % 86400, t % f, w);
    SeparatorOrder(' ', a, b);
    TextLessConcat(PrintDate(x), " " + a, PrintDate(y), " " + b);
    DivisionOrder(s, t, f);
    DivisionOrder(i, j, 86400);
  }

  lemma MonthAndDay(x: Date)
    requires Gregorian.Valid(x)
    ensures 1 <= x.month <= 12 && 1 <= x.day <= 31
  {}

  /** Different times have different texts. */
  lemma TextInjective(s: int, t: int, w: nat)
    requires Printable(s, w) && Printable(t, w) && Text(s, w) == Text(t, w)
    ensures s == t
  {
    hide Text, Printable;
    TextOrderIsTimeOrder(s, t, w);
    TextOrderIsTimeOrder(t, s, w);
    TextLessStrict(Text(s, w));
  }

  // ----- what a text says

  lemma {:induction false} PaddedValue(n: nat, w: nat)
    requires n < Pow10(w)
    ensures AllDigits(Padded(n, w)) && Value(Padded(n, w), 0) == n
  {
    if w > 0 {
      PaddedValue(n / 10, w - 1);
      ValueAppend(Padded(n / 10, w - 1), [DigitChar(n % 10)], 0);
      assert Value([DigitChar(n % 10)], n / 10) == n / 10 * 10 + n % 10;
    }
  }

  predicate Field(t: string, width: nat, n: nat) {
    |t| == width && AllDigits(t) && Value(t, 0) == n
  }

  datatype Parts = Parts(year: string, month: string, day: string, hour: string, minute: string, second: string, fraction: string)

  /** The text is year, month and day, hour, minute and second, and the fraction of the second if it has
      any digits, and these numbers make the time. */
  predicate Says(t: string, p: Parts, x: Date, h: nat, m: nat, sec: nat, ticks: nat, w: nat, tp: int) {
    && x.year >= 0 && x.month >= 0 && x.day >= 0
    && t == p.year + "-" + p.month + "-" + p.day + " " + p.hour + ":" + p.minute + ":" + p.second
            + (if w == 0 then "" else "." + p.fraction)
    && Field(p.year, 4, x.year) && Field(p.month, 2, x.month) && Field(p.day, 2, x.day)
    && Field(p.hour, 2, h) && Field(p.minute, 2, m) && Field(p.second, 2, sec) && Field(p.fraction, w, ticks)
    && Gregorian.Valid(x) && h < 24 && m < 60 && sec < 60
    && tp == (((Gregorian.ToDays(x) * 24 + h) * 60 + m) * 60 + sec) * Pow10(w) + ticks
  }

  lemma FieldPadded(n: nat, w: nat)
    requires n < Pow10(w)
    ensures Field(Padded(n, w), w, n)
  {
    PaddedValue(n, w);
  }

  lemma Joins(a: string, b: string, c: string, d: string, e: string, f: string, g: string)
    ensures a + ("-" + (b + ("-" + c))) + (" " + (d + (":" + (e + (":" + (f + g))))))
         == a + "-" + b + "-" + c + " " + d + ":" + e + ":" + f + g
  {
    assert d + (":" + (e + (":" + (f + g)))) == d + ":" + e + ":" + f + g;
    assert a + ("-" + (b + ("-" + c))) == a + "-" + b + "-" + c;
    var x, y := a + "-" + b + "-" + c, d + ":" + e + ":" + f + g;
    assert x + (" " + y) == x + " " + y;
    assert x + " " + y == x + " " + d + ":" + e + ":" + f + g;
  }

  lemma Sixties(seconds: nat)
    requires seconds < 86400
    ensures var h, m, sec := seconds / 3600, seconds % 3600 / 60, seconds % 60;
            h < 24 && m < 60 && sec < 60 && seconds == (h * 60 + m) * 60 + sec
  {
    SecondsOfHour(seconds);
  }

  /** The text of a time says this time. */
  lemma TextSays(tp: int, w: nat)
    requires Printable(tp, w)
    ensures exists p, x, h: nat, m: nat, sec: nat, ticks: nat :: Says(Text(tp, w), p, x, h, m, sec, ticks, w, tp)
  {
    hide Gregorian.FromDays, Gregorian.ToDays, Gregorian.Valid, PrintDate, PrintTime, Padded, Pow10, Field;
    var f := Pow10(w);
    var seconds := tp / f;
    var day, rest := seconds / 86400, seconds % 86400;
    var x, h, m, sec, ticks := Gregorian.FromDays(day), rest / 3600, rest % 3600 / 60, rest % 60, tp % f;
    MonthAndDay(x);
    Gregorian.ToDaysOfFromDays(day);
    DateText(x);
    TimeText(rest, ticks, w);
    Sixties(rest);
    Powers();
    FieldPadded(x.year, 4);
    FieldPadded(x.month, 2);
    FieldPadded(x.day, 2);
    FieldPadded(h, 2);
    FieldPadded(m, 2);
    FieldPadded(sec, 2);
    FieldPadded(ticks, w);
    var p := Parts(Padded(x.year, 4), Padded(x.month, 2), Padded(x.day, 2), Padded(h, 2), Padded(m, 2), Padded(sec, 2), Padded(ticks, w));
    Joins(p.year, p.month, p.day, p.hour, p.minute, p.second, if w == 0 then "" else "." + p.fraction);
    assert tp == seconds * f + ticks;
    assert Says(Text(tp, w), p, x, h, m, sec, ticks, w, tp);
  }
}
