/** Unix timestamps as civil dates (src/server/locks.rs), against the closed form of the Gregorian calendar. */
module CivilDate {

  datatype Date = Date(year: nat, month: nat, day: nat)

  /** A date and a time of day. */
  datatype Stamp = Stamp(date: Date, hours: nat, minutes: nat, seconds: nat)

  predicate IsLeapYear(y: nat) {
    (y % 4 == 0 && y % 100 != 0) || y % 400 == 0
  }

  function YearLength(y: nat): nat {
    if IsLeapYear(y) then 366 else 365
  }

  function MonthLength(y: nat, m: nat): nat
    requires 1 <= m <= 12
  {
    if m == 2 then (if IsLeapYear(y) then 29 else 28)
    else if m == 4 || m == 6 || m == 9 || m == 11 then 30
    else 31
  }

  predicate IsValid(d: Date) {
    d.year >= 1970 && 1 <= d.month <= 12 && 1 <= d.day <= MonthLength(d.year, d.month)
  }

  predicate Before(a: Date, b: Date) {
    a.year < b.year || (a.year == b.year && (a.month < b.month || (a.month == b.month && a.day < b.day)))
  }

  // ----- the closed form -----

  /** Leap years from year 1 up to y. */
  function LeapsThrough(y: nat): int {
    y / 4 - y / 100 + y / 400
  }

  /** Days from 1970-01-01 to the first day of year y. */
  function DaysBeforeYear(y: nat): int
    requires y >= 1970
  {
    365 * (y - 1970) + LeapsThrough(y - 1) - 477
  }

  /** Days in the months before m. */
  function DaysBeforeMonth(y: nat, m: nat): nat
    requires 1 <= m <= 13
  {
    [0, 31, 59, 90, 120, 151, 181, 212, 243, 273, 304, 334, 365][m - 1] + (if m > 2 && IsLeapYear(y) then 1 else 0)
  }

  function DayNumber(d: Date): int
    requires IsValid(d)
  {
    DaysBeforeYear(d.year) + DaysBeforeMonth(d.year, d.month) + d.day - 1
  }

  lemma QuotientStep4(y: nat)
    ensures (y + 1) / 4 - y / 4 == if (y + 1) % 4 == 0 then 1 else 0
  {
  }

  lemma QuotientStep100(y: nat)
    ensures (y + 1) / 100 - y / 100 == if (y + 1) % 100 == 0 then 1 else 0
  {
  }

  lemma QuotientStep400(y: nat)
    ensures (y + 1) / 400 - y / 400 == if (y + 1) % 400 == 0 then 1 else 0
  {
  }

  lemma CenturiesNest(y: nat)
    ensures y % 400 == 0 ==> y % 100 == 0
    ensures y % 100 == 0 ==> y % 4 == 0
  {
    if y % 400 == 0 {
      assert y == 100 * (4 * (y / 400));
    }
    if y % 100 == 0 {
      assert y == 4 * (25 * (y / 100));
    }
  }

  /** The closed form grows by the length of each year. */
  lemma YearStep(y: nat)
    requires y >= 1970
    ensures DaysBeforeYear(y + 1) == DaysBeforeYear(y) + YearLength(y)
  {
    QuotientStep4(y - 1);
    QuotientStep100(y - 1);
    QuotientStep400(y - 1);
    CenturiesNest(y);
  }

  lemma MonthStep(y: nat, m: nat)
    requires 1 <= m <= 12
    ensures DaysBeforeMonth(y, m + 1) == DaysBeforeMonth(y, m) + MonthLength(y, m)
    ensures DaysBeforeMonth(y, 13) == YearLength(y)
  {
  }

  lemma {:induction false} YearsGrow(y: nat, z: nat)
    requires 1970 <= y <= z
    ensures DaysBeforeYear(y) <= DaysBeforeYear(z)
    ensures y < z ==> DaysBeforeYear(y) + YearLength(y) <= DaysBeforeYear(z)
    decreases z - y
  {
    if y < z {
      YearStep(y);
      YearsGrow(y + 1, z);
    }
  }

  lemma {:induction false} MonthsGrow(y: nat, m: nat, n: nat)
    requires 1 <= m <= n <= 13
    ensures DaysBeforeMonth(y, m) <= DaysBeforeMonth(y, n)
    ensures m < n ==> DaysBeforeMonth(y, m) + MonthLength(y, m) <= DaysBeforeMonth(y, n)
    decreases n - m
  {
    if m < n {
      MonthStep(y, m);
      MonthsGrow(y, m + 1, n);
    }
  }

  lemma DayFitsYear(a: Date)
    requires IsValid(a)
    ensures DaysBeforeMonth(a.year, a.month) + a.day <= YearLength(a.year)
  {
    MonthStep(a.year, a.month);
    MonthsGrow(a.year, a.month + 1, 13);
    MonthStep(a.year, 12);
  }

  lemma LaterDate(a: Date, b: Date)
    requires IsValid(a) && IsValid(b) && Before(a, b)
    ensures DayNumber(a) < DayNumber(b)
  {
    if a.year < b.year {
      YearsGrow(a.year, b.year);
      DayFitsYear(a);
    } else if a.month < b.month {
      MonthsGrow(a.year, a.month, b.month);
    }
  }

  /** Day numbers count from zero and are ordered as dates are, so equal numbers mean equal dates. */
  lemma DayNumberOrder(a: Date, b: Date)
    requires IsValid(a) && IsValid(b)
    ensures 0 <= DayNumber(a)
    ensures Before(a, b) <==> DayNumber(a) < DayNumber(b)
    ensures a == b <==> DayNumber(a) == DayNumber(b)
  {
    YearsGrow(1970, a.year);
    if Before(a, b) {
      LaterDate(a, b);
    } else if Before(b, a) {
      LaterDate(b, a);
    }
  }

  function NextDay(d: Date): Date
    requires IsValid(d)
  {
    if d.day < MonthLength(d.year, d.month) then d.(day := d.day + 1)
    else if d.month < 12 then Date(d.year, d.month + 1, 1)
    else Date(d.year + 1, 1, 1)
  }

  /** Day zero is the first of January 1970, and every day's number is one above the day before's. */
  lemma DaysAreCounted(d: Date)
    requires IsValid(d)
    ensures DayNumber(Date(1970, 1, 1)) == 0
    ensures IsValid(NextDay(d)) && DayNumber(NextDay(d)) == DayNumber(d) + 1
  {
    MonthStep(d.year, d.month);
    YearStep(d.year);
  }

  // ----- the loops of the source -----

  /** Counts down year lengths and then month lengths; the result is the one date with that day number. */
  method DaysToDate(days: nat) returns (d: Date)
    ensures IsValid(d) && DayNumber(d) == days
    ensures forall e :: IsValid(e) && DayNumber(e) == days ==> e == d
  {
    var y, remaining := 1970, days;
    while remaining >= YearLength(y)
      invariant y >= 1970 && remaining >= 0 && remaining + DaysBeforeYear(y) == days
      decreases remaining
    {
      YearStep(y);
      remaining := remaining - YearLength(y);
      y := y + 1;
    }
    var m := 0;
    while m < 12 && remaining >= MonthLength(y, m + 1)
      invariant 0 <= m <= 12 && remaining >= 0
      invariant remaining + DaysBeforeMonth(y, m + 1) + DaysBeforeYear(y) == days
      invariant remaining + DaysBeforeMonth(y, m + 1) < YearLength(y)
    {
      MonthStep(y, m + 1);
      remaining := remaining - MonthLength(y, m + 1);
      m := m + 1;
    }
    MonthStep(y, 12);
    d := Date(y, m + 1, remaining + 1);
    forall e | IsValid(e) && DayNumber(e) == days
      ensures e == d
    {
      DayNumberOrder(e, d);
    }
  }

  predicate IsValidStamp(s: Stamp) {
    IsValid(s.date) && s.hours < 24 && s.minutes < 60 && s.seconds < 60
  }

  function SecondsOf(s: Stamp): int
    requires IsValidStamp(s)
  {
    DayNumber(s.date) * 86400 + s.hours * 3600 + s.minutes * 60 + s.seconds
  }

  method StampAt(secs: nat) returns (s: Stamp)
    ensures IsValidStamp(s) && SecondsOf(s) == secs
  {
    var days, timeOfDay := secs / 86400, secs % 86400;
    var date := DaysToDate(days);
    s := Stamp(date, timeOfDay / 3600, timeOfDay % 3600 / 60, timeOfDay % 60);
    SplitDay(timeOfDay);
  }

  lemma SplitDay(t: nat)
    requires t < 86400
    ensures t / 3600 < 24 && t % 3600 / 60 < 60
    ensures t == t / 3600 * 3600 + t % 3600 / 60 * 60 + t % 60
  {
    var r := t % 3600;
    assert t == t / 3600 * 3600 + r;
    assert r == r / 60 * 60 + r % 60;
    assert t % 60 == r % 60 by {
      assert t == (t / 3600 * 60 + r / 60) * 60 + r % 60;
    }
  }

  // ----- the text -----

  function Pow10(w: nat): nat {
    if w == 0 then 1 else 10 * Pow10(w - 1)
  }

  /** The last w decimal digits of n. */
  function Digits(n: nat, w: nat): (t: string)
    ensures |t| == w
  {
    if w == 0 then "" else Digits(n / 10, w - 1) + ["0123456789"[n % 10]]
  }

  function DigitCount(n: nat): nat {
    if n < 10 then 1 else 1 + DigitCount(n / 10)
  }

  /** Decimal, filled up with zeros to at least w digits. */
  function ZeroPadded(n: nat, w: nat): string {
    Digits(n, if DigitCount(n) < w then w else DigitCount(n))
  }

  function Format(s: Stamp): string {
    ZeroPadded(s.date.year, 4) + "-" + ZeroPadded(s.date.month, 2) + "-" + ZeroPadded(s.date.day, 2) + "T" +
    ZeroPadded(s.hours, 2) + ":" + ZeroPadded(s.minutes, 2) + ":" + ZeroPadded(s.seconds, 2) + "Z"
  }

  /** A date and time of day are determined by their count of seconds. */
  lemma StampIsUnique(a: Stamp, b: Stamp)
    requires IsValidStamp(a) && IsValidStamp(b) && SecondsOf(a) == SecondsOf(b)
    ensures a == b
  {
    var x := a.hours * 3600 + a.minutes * 60 + a.seconds;
    var y := b.hours * 3600 + b.minutes * 60 + b.seconds;
    assert 0 <= x < 86400 && 0 <= y < 86400;
    assert DayNumber(a.date) == DayNumber(b.date);
    DayNumberOrder(a.date, b.date);
  }

  method FormatUnixTimestamp(secs: nat) returns (text: string)
    ensures exists s :: IsValidStamp(s) && SecondsOf(s) == secs && text == Format(s)
    ensures forall s :: IsValidStamp(s) && SecondsOf(s) == secs ==> text == Format(s)
  {
    var stamp := StampAt(secs);
    text := Format(stamp);
    forall s | IsValidStamp(s) && SecondsOf(s) == secs
      ensures s == stamp
    {
      StampIsUnique(s, stamp);
    }
  }

  predicate LexLess(a: string, b: string) {
    if a == [] || b == [] then a == [] && b != []
    else a[0] < b[0] || (a[0] == b[0] && LexLess(a[1..], b[1..]))
  }

  lemma {:induction false} LexConcat(a: string, b: string, x: string, y: string)
    requires |a| == |b|
    ensures LexLess(a + x, b + y) <==> LexLess(a, b) || (a == b && LexLess(x, y))
  {
    if a == [] {
      assert a + x == x && b + y == y;
    } else {
      LexConcat(a[1..], b[1..], x, y);
      assert (a + x)[1..] == a[1..] + x && (b + y)[1..] == b[1..] + y;
      assert a == b <==> a[0] == b[0] && a[1..] == b[1..] by {
        assert a == [a[0]] + a[1..] && b == [b[0]] + b[1..];
      }
    }
  }

  lemma DigitOrder(a: nat, b: nat)
    requires a < 10 && b < 10
    ensures "0123456789"[a] < "0123456789"[b] <==> a < b
    ensures "0123456789"[a] == "0123456789"[b] <==> a == b
  {
    assert a in {0, 1, 2, 3, 4, 5, 6, 7, 8, 9} && b in {0, 1, 2, 3, 4, 5, 6, 7, 8, 9};
  }

  /** Digit strings of one width are ordered as their numbers. */
  lemma {:induction false} DigitsOrder(a: nat, b: nat, w: nat)
    requires a < Pow10(w) && b < Pow10(w)
    ensures LexLess(Digits(a, w), Digits(b, w)) <==> a < b
    ensures Digits(a, w) == Digits(b, w) <==> a == b
    decreases w
  {
    if w > 0 {
      DigitsOrder(a / 10, b / 10, w - 1);
      DigitOrder(a % 10, b % 10);
      var p, q := Digits(a / 10, w - 1), Digits(b / 10, w - 1);
      var x, y := ["0123456789"[a % 10]], ["0123456789"[b % 10]];
      LexConcat(p, q, x, y);
      assert LexLess(x, y) <==> a % 10 < b % 10;
      assert p + x == q + y <==> p == q && x == y by {
        assert (p + x)[..w - 1] == p && (q + y)[..w - 1] == q && (p + x)[w - 1..] == x && (q + y)[w - 1..] == y;
      }
    }
  }

  lemma {:induction false} CountFits(n: nat, w: nat)
    requires 1 <= w && n < Pow10(w)
    ensures DigitCount(n) <= w && ZeroPadded(n, w) == Digits(n, w)
    decreases w
  {
    if n >= 10 {
      assert w > 1;
      CountFits(n / 10, w - 1);
    }
  }

  /** One number of w digits and a separator, and then the rest. */
  lemma DigitsField(m: nat, n: nat, w: nat, mark: char, x: string, y: string)
    requires m < Pow10(w) && n < Pow10(w)
    ensures LexLess(Digits(m, w) + [mark] + x, Digits(n, w) + [mark] + y) <==> m < n || (m == n && LexLess(x, y))
  {
    DigitsOrder(m, n, w);
    var p, q := Digits(m, w), Digits(n, w);
    LexConcat(p, q, [mark], [mark]);
    LexConcat(p + [mark], q + [mark], x, y);
    assert !LexLess([mark], [mark]);
    assert p + [mark] == q + [mark] <==> p == q by { assert (p + [mark])[..w] == p && (q + [mark])[..w] == q; }
  }

  lemma FieldOrder(m: nat, n: nat, w: nat, mark: char, x: string, y: string)
    requires 1 <= w && m < Pow10(w) && n < Pow10(w)
    ensures LexLess(ZeroPadded(m, w) + [mark] + x, ZeroPadded(n, w) + [mark] + y) <==>
            m < n || (m == n && LexLess(x, y))
  {
    CountFits(m, w);
    CountFits(n, w);
    DigitsField(m, n, w, mark, x, y);
  }

  function TimeText(s: Stamp): string {
    ZeroPadded(s.hours, 2) + ":" + (ZeroPadded(s.minutes, 2) + ":" + (ZeroPadded(s.seconds, 2) + "Z" + ""))
  }

  lemma TimeOrder(a: Stamp, b: Stamp)
    requires IsValidStamp(a) && IsValidStamp(b)
    ensures LexLess(TimeText(a), TimeText(b)) <==>
            a.hours * 3600 + a.minutes * 60 + a.seconds < b.hours * 3600 + b.minutes * 60 + b.seconds
  {
    assert Pow10(2) == 100;
    var sa, sb := ZeroPadded(a.seconds, 2) + "Z" + "", ZeroPadded(b.seconds, 2) + "Z" + "";
    FieldOrder(a.seconds, b.seconds, 2, 'Z', "", "");
    FieldOrder(a.minutes, b.minutes, 2, ':', sa, sb);
    FieldOrder(a.hours, b.hours, 2, ':', ZeroPadded(a.minutes, 2) + ":" + sa, ZeroPadded(b.minutes, 2) + ":" + sb);
  }

  /** The text of a date after its year. */
  function MonthText(d: Date, rest: string): string {
    ZeroPadded(d.month, 2) + "-" + (ZeroPadded(d.day, 2) + "T" + rest)
  }

  /** The number of digits a year is written with. */
  function Width(y: nat): nat {
    if DigitCount(y) < 4 then 4 else DigitCount(y)
  }

  lemma {:induction false} CountBounds(n: nat)
    ensures n < Pow10(DigitCount(n))
    ensures n >= 10 ==> Pow10(DigitCount(n) - 1) <= n
  {
    if n >= 10 {
      CountBounds(n / 10);
    }
  }

  lemma {:induction false} PowGrows(v: nat, w: nat)
    requires v <= w
    ensures Pow10(v) <= Pow10(w)
  {
    if v < w {
      PowGrows(v, w - 1);
    }
  }

  lemma FitsWidth(y: nat)
    ensures y < Pow10(Width(y)) && ZeroPadded(y, 4) == Digits(y, Width(y))
  {
    CountBounds(y);
    PowGrows(DigitCount(y), Width(y));
  }

  lemma DateOrder(a: Date, b: Date, x: string, y: string)
    requires IsValid(a) && IsValid(b) && Width(a.year) == Width(b.year)
    ensures LexLess(ZeroPadded(a.year, 4) + "-" + MonthText(a, x), ZeroPadded(b.year, 4) + "-" + MonthText(b, y)) <==>
            Before(a, b) || (a == b && LexLess(x, y))
  {
    assert Pow10(2) == 100;
    var da, db := ZeroPadded(a.day, 2) + "T" + x, ZeroPadded(b.day, 2) + "T" + y;
    FieldOrder(a.day, b.day, 2, 'T', x, y);
    FieldOrder(a.month, b.month, 2, '-', da, db);
    FitsWidth(a.year);
    FitsWidth(b.year);
    DigitsField(a.year, b.year, Width(a.year), '-', MonthText(a, x), MonthText(b, y));
  }

  /** Timestamps whose years have as many digits sort as the times they stand for. */
  lemma SameWidthOrder(a: Stamp, b: Stamp)
    requires IsValidStamp(a) && IsValidStamp(b) && Width(a.date.year) == Width(b.date.year)
    ensures LexLess(Format(a), Format(b)) <==> SecondsOf(a) < SecondsOf(b)
  {
    TimeOrder(a, b);
    DateOrder(a.date, b.date, TimeText(a), TimeText(b));
    Regrouped(a);
    Regrouped(b);
    DayNumberOrder(a.date, b.date);
    DayNumberOrder(b.date, a.date);
  }

  /** Before year 10000, formatted timestamps sort as the times they stand for. */
  lemma FormatOrder(a: Stamp, b: Stamp)
    requires IsValidStamp(a) && IsValidStamp(b) && a.date.year < 10000 && b.date.year < 10000
    ensures LexLess(Format(a), Format(b)) <==> SecondsOf(a) < SecondsOf(b)
  {
    assert Pow10(4) == 10000;
    CountFits(a.date.year, 4);
    CountFits(b.date.year, 4);
    SameWidthOrder(a, b);
  }

  lemma Regrouped(s: Stamp)
    ensures Format(s) == ZeroPadded(s.date.year, 4) + "-" + MonthText(s.date, TimeText(s))
  {
  }

  // ----- years of different widths -----

  lemma DigitsStep(n: nat, w: nat)
    ensures Digits(n, w + 1) == Digits(n / 10, w) + ["0123456789"[n % 10]]
  {
  }

  /** n without its last k digits. */
  function Leading(n: nat, k: nat): nat {
    if k == 0 then n else Leading(n / 10, k - 1)
  }

  lemma {:induction false} LeadingFits(n: nat, w: nat, k: nat)
    requires n < Pow10(w + k)
    ensures Leading(n, k) < Pow10(w)
    decreases k
  {
    if k > 0 {
      assert Pow10(w + k) == 10 * Pow10(w + k - 1);
      LeadingFits(n / 10, w, k - 1);
    }
  }

  lemma {:induction false} DigitsSplit(n: nat, w: nat, k: nat)
    ensures Digits(n, w + k) == Digits(Leading(n, k), w) + Digits(n, k)
    decreases k
  {
    if k > 0 {
      DigitsSplit(n / 10, w, k - 1);
      DigitsStep(n, w + k - 1);
      DigitsStep(n, k - 1);
      Regroup(Digits(Leading(n / 10, k - 1), w), Digits(n / 10, k - 1), ["0123456789"[n % 10]]);
    }
  }

  lemma Regroup(a: string, b: string, c: string)
    ensures a + b + c == a + (b + c)
  {
  }

  lemma {:induction false} FirstDigit(n: nat, k: nat)
    requires k > 0
    ensures Digits(n, k)[0] > '-'
  {
    if k == 1 {
      assert Digits(n / 10, 0) == "";
    } else {
      FirstDigit(n / 10, k - 1);
    }
  }

  /** Against a year with k more digits a year is compared with the leading ones, and comes first if it equals them. */
  lemma WiderYear(m: nat, n: nat, w: nat, k: nat, x: string, y: string)
    requires m < Pow10(w) && n < Pow10(w + k) && k > 0
    ensures LexLess(Digits(m, w) + "-" + x, Digits(n, w + k) + "-" + y) <==> m <= Leading(n, k)
    ensures LexLess(Digits(n, w + k) + "-" + y, Digits(m, w) + "-" + x) <==> m > Leading(n, k)
  {
    DigitsSplit(n, w, k);
    LeadingFits(n, w, k);
    FirstDigit(n, k);
    DigitsOrder(m, Leading(n, k), w);
    DigitsOrder(Leading(n, k), m, w);
    var p, q := Digits(m, w), Digits(Leading(n, k), w);
    var s, t := "-" + x, Digits(n, k) + "-" + y;
    LexConcat(p, q, s, t);
    LexConcat(q, p, t, s);
    assert p + "-" + x == p + s;
    assert Digits(n, w + k) + "-" + y == q + t;
    assert s[0] == '-' && t[0] > '-';
  }

  /** Of years of different widths, the narrower is not above the leading digits of the wider. */
  predicate WidthsSort(y: nat, z: nat) {
    && (Width(y) < Width(z) ==> y <= Leading(z, Width(z) - Width(y)))
    && (Width(z) < Width(y) ==> z <= Leading(y, Width(y) - Width(z)))
  }

  lemma WiderIsLater(a: Stamp, b: Stamp)
    requires IsValidStamp(a) && IsValidStamp(b) && Width(a.date.year) < Width(b.date.year)
    ensures SecondsOf(a) < SecondsOf(b)
  {
    FitsWidth(a.date.year);
    CountBounds(b.date.year);
    PowGrows(Width(a.date.year), Width(b.date.year) - 1);
    DayNumberOrder(a.date, b.date);
  }

  lemma WiderText(a: Stamp, b: Stamp)
    requires Width(a.date.year) < Width(b.date.year)
    ensures LexLess(Format(a), Format(b)) <==> WidthsSort(a.date.year, b.date.year)
    ensures LexLess(Format(b), Format(a)) <==> !WidthsSort(b.date.year, a.date.year)
  {
    FitsWidth(a.date.year);
    FitsWidth(b.date.year);
    Regrouped(a);
    Regrouped(b);
    WiderYear(a.date.year, b.date.year, Width(a.date.year), Width(b.date.year) - Width(a.date.year),
              MonthText(a.date, TimeText(a)), MonthText(b.date, TimeText(b)));
  }

  /** Two timestamps sort as the times they stand for exactly when their years do. */
  lemma FormatOrderIff(a: Stamp, b: Stamp)
    requires IsValidStamp(a) && IsValidStamp(b)
    ensures (LexLess(Format(a), Format(b)) <==> SecondsOf(a) < SecondsOf(b)) <==>
            WidthsSort(a.date.year, b.date.year)
  {
    if Width(a.date.year) == Width(b.date.year) {
      SameWidthOrder(a, b);
    } else if Width(a.date.year) < Width(b.date.year) {
      WiderIsLater(a, b);
      WiderText(a, b);
    } else {
      WiderIsLater(b, a);
      WiderText(b, a);
    }
  }

  // ----- the first year that sorts wrong -----

  lemma FourNines()
    ensures ZeroPadded(9999, 4) == "9999"
  {
    DigitsStep(9, 0);
    DigitsStep(99, 1);
    DigitsStep(999, 2);
    DigitsStep(9999, 3);
    assert DigitCount(9999) == 4;
  }

  lemma OneAndZeros()
    ensures ZeroPadded(10000, 4) == "10000"
  {
    DigitsStep(1, 0);
    DigitsStep(10, 1);
    DigitsStep(100, 2);
    DigitsStep(1000, 3);
    DigitsStep(10000, 4);
    assert DigitCount(10000) == 5;
  }

  lemma YearComesFirst(s: Stamp)
    requires ZeroPadded(s.date.year, 4) != ""
    ensures Format(s) != "" && Format(s)[0] == ZeroPadded(s.date.year, 4)[0]
  {
  }

  lemma NewYear(a: Stamp, b: Stamp)
    requires a == Stamp(Date(9999, 12, 31), 23, 59, 59) && b == Stamp(Date(10000, 1, 1), 0, 0, 0)
    ensures IsValidStamp(a) && IsValidStamp(b) && SecondsOf(a) < SecondsOf(b)
  {
    assert MonthLength(9999, 12) == 31 && MonthLength(10000, 1) == 31;
    LaterDate(a.date, b.date);
  }

  /** From the year 10000 on the text no longer sorts: it has one digit more. */
  lemma TenThousandSortsWrong(a: Stamp, b: Stamp)
    requires a == Stamp(Date(9999, 12, 31), 23, 59, 59) && b == Stamp(Date(10000, 1, 1), 0, 0, 0)
    ensures IsValidStamp(a) && IsValidStamp(b) && SecondsOf(a) < SecondsOf(b)
    ensures LexLess(Format(b), Format(a)) && !LexLess(Format(a), Format(b))
  {
    NewYear(a, b);
    FourNines();
    OneAndZeros();
    YearComesFirst(a);
    YearComesFirst(b);
  }

  /** Every two timestamps of years up to the last sort as the times they stand for. */
  ghost predicate SortUpTo(last: nat) {
    forall a, b :: IsValidStamp(a) && IsValidStamp(b) && a.date.year <= last && b.date.year <= last ==>
                     (LexLess(Format(a), Format(b)) <==> SecondsOf(a) < SecondsOf(b))
  }

  lemma SortUpToIff(last: nat)
    ensures SortUpTo(last) <==> last < 10000
  {
    if last < 10000 {
      forall a, b | IsValidStamp(a) && IsValidStamp(b) && a.date.year <= last && b.date.year <= last
        ensures LexLess(Format(a), Format(b)) <==> SecondsOf(a) < SecondsOf(b)
      {
        FormatOrder(a, b);
      }
    } else {
      TenThousandSortsWrong(Stamp(Date(9999, 12, 31), 23, 59, 59), Stamp(Date(10000, 1, 1), 0, 0, 0));
    }
  }

  // ----- reading the text back -----

  /** The number a text of decimal digits stands for. */
  function Decimal(t: string): int {
    if t == "" then 0 else 10 * Decimal(t[..|t| - 1]) + (t[|t| - 1] as int - '0' as int)
  }

  lemma DigitIs(n: nat)
    requires n < 10
    ensures "0123456789"[n] as int == '0' as int + n
  {
    assert n in {0, 1, 2, 3, 4, 5, 6, 7, 8, 9};
  }

  lemma {:induction false} DecimalOfDigits(n: nat, w: nat)
    requires n < Pow10(w)
    ensures Decimal(Digits(n, w)) == n
    decreases w
  {
    if w > 0 {
      DecimalOfDigits(n / 10, w - 1);
      DigitIs(n % 10);
      var t := Digits(n, w);
      assert t[..w - 1] == Digits(n / 10, w - 1) && t[w - 1] == "0123456789"[n % 10];
    }
  }

  lemma TwoDigits(n: nat)
    requires n < 100
    ensures |ZeroPadded(n, 2)| == 2 && Decimal(ZeroPadded(n, 2)) == n
  {
    assert Pow10(2) == 100;
    CountFits(n, 2);
    DecimalOfDigits(n, 2);
  }

  /** A field of two digits, its mark, and what follows. */
  lemma FieldReads(n: nat, mark: char, rest: string, t: string)
    requires n < 100 && t == ZeroPadded(n, 2) + [mark] + rest
    ensures |t| == 3 + |rest| && Decimal(t[0..2]) == n && t[2] == mark && t[3..] == rest
  {
    TwoDigits(n);
    assert t[0..2] == ZeroPadded(n, 2);
  }

  lemma TimeReads(s: Stamp, t: string)
    requires IsValidStamp(s) && t == TimeText(s)
    ensures |t| == 9 && t[2] == ':' && t[5] == ':' && t[8] == 'Z'
    ensures Decimal(t[0..2]) == s.hours && Decimal(t[3..5]) == s.minutes && Decimal(t[6..8]) == s.seconds
  {
    var sec := ZeroPadded(s.seconds, 2) + "Z" + "";
    var mi := ZeroPadded(s.minutes, 2) + ":" + sec;
    FieldReads(s.seconds, 'Z', "", sec);
    FieldReads(s.minutes, ':', sec, mi);
    FieldReads(s.hours, ':', mi, t);
    assert t[3..5] == mi[0..2] && t[6..8] == sec[0..2];
  }

  /** The text after the year: two digits each, and the marks between them. */
  lemma MonthReads(s: Stamp, t: string)
    requires IsValidStamp(s) && t == MonthText(s.date, TimeText(s))
    ensures |t| == 15 && t[2] == '-' && t[5] == 'T' && t[8] == ':' && t[11] == ':' && t[14] == 'Z'
    ensures Decimal(t[0..2]) == s.date.month && Decimal(t[3..5]) == s.date.day
    ensures Decimal(t[6..8]) == s.hours && Decimal(t[9..11]) == s.minutes && Decimal(t[12..14]) == s.seconds
  {
    var time := TimeText(s);
    var day := ZeroPadded(s.date.day, 2) + "T" + time;
    TimeReads(s, time);
    FieldReads(s.date.day, 'T', time, day);
    FieldReads(s.date.month, '-', day, t);
    assert t[3..5] == day[0..2] && t[6..8] == time[0..2] && t[9..11] == time[3..5] && t[12..14] == time[6..8];
  }

  /** A formatted timestamp reads back as its fields: a year of at least four digits and then the rest. */
  lemma FormatReads(s: Stamp, text: string, t: string)
    requires IsValidStamp(s) && text == Format(s) && |text| >= 16 && t == text[|text| - 15..]
    ensures |text| >= 20 && Decimal(text[..|text| - 16]) == s.date.year && text[|text| - 16] == '-'
    ensures t[2] == '-' && t[5] == 'T' && t[8] == ':' && t[11] == ':' && t[14] == 'Z'
    ensures Decimal(t[0..2]) == s.date.month && Decimal(t[3..5]) == s.date.day
    ensures Decimal(t[6..8]) == s.hours && Decimal(t[9..11]) == s.minutes && Decimal(t[12..14]) == s.seconds
  {
    var year, rest := ZeroPadded(s.date.year, 4), MonthText(s.date, TimeText(s));
    FitsWidth(s.date.year);
    DecimalOfDigits(s.date.year, Width(s.date.year));
    Regrouped(s);
    MonthReads(s, rest);
    assert text == year + "-" + rest;
    assert text[..|text| - 16] == year && text[|text| - 15..] == rest;
  }

  /** Every formatted timestamp is long enough to be read so. */
  lemma FormatLength(s: Stamp)
    requires IsValidStamp(s)
    ensures |Format(s)| >= 20
  {
    FitsWidth(s.date.year);
    Regrouped(s);
    MonthReads(s, MonthText(s.date, TimeText(s)));
  }
}
