/** The UTC year and month of a millisecond timestamp, as the `datetime` type computes them: cycles of 400,
    100, 4 and 1 years of the proleptic Gregorian calendar. */
module Calendar {

  datatype Month = Month(year: int, month: int)

  /** Days since 1 January of year 1. */
  function DayOf(t: int): int {
    t / 86_400_000 + 719_162
  }

  predicate IsLeap(year: int) {
    year % 4 == 0 && (year % 100 != 0 || year % 400 == 0)
  }

  /** The last of at most `cap` cycles of the given length that begin by day `n`. */
  function Cycle(n: int, length: int, cap: int): int
    requires length > 0
  {
    if n / length < cap then n / length else cap
  }

  /** Whole cycles before a day, and the day of its year. */
  datatype Parts = Parts(n400: int, n100: int, n4: int, n1: int, day: int)

  function Split(n: int): Parts {
    var n400 := n / 146_097;
    var d400 := n - 146_097 * n400;
    var n100 := Cycle(d400, 36_524, 3);
    var d100 := d400 - 36_524 * n100;
    var n4 := d100 / 1_461;
    var d4 := d100 - 1_461 * n4;
    var n1 := Cycle(d4, 365, 3);
    Parts(n400, n100, n4, n1, d4 - 365 * n1)
  }

  function YearOf(p: Parts): int {
    400 * p.n400 + 100 * p.n100 + 4 * p.n4 + p.n1 + 1
  }

  function MonthOf(t: int): Month {
    var p := Split(DayOf(t));
    Month(YearOf(p), MonthInYear(p.day, if IsLeap(YearOf(p)) then 1 else 0))
  }

  /** The month of a day of the year, counted from 0. */
  function MonthInYear(day: int, leap: int): int {
    if day < 31 then 1
    else if day < 59 + leap then 2
    else if day < 90 + leap then 3
    else if day < 120 + leap then 4
    else if day < 151 + leap then 5
    else if day < 181 + leap then 6
    else if day < 212 + leap then 7
    else if day < 243 + leap then 8
    else if day < 273 + leap then 9
    else if day < 304 + leap then 10
    else if day < 334 + leap then 11
    else 12
  }

  // ----- the calendar, month by month

  /** How long a month is. */
  ghost function Length(m: Month): int {
    if m.month == 2 then if m.year % 4 == 0 && (m.year % 100 != 0 || m.year % 400 == 0) then 29 else 28
    else if m.month in {4, 6, 9, 11} then 30 else 31
  }

  /** Days before 1 January of a year: 365 for each year before it, and one for each leap year. */
  ghost function YearStart(year: int): int {
    365 * (year - 1) + (year - 1) / 4 - (year - 1) / 100 + (year - 1) / 400
  }

  /** Days before the first of a month. */
  ghost function FirstDay(m: Month): int
    requires m.month >= 1
    decreases m.month
  {
    if m.month == 1 then YearStart(m.year) else FirstDay(m.(month := m.month - 1)) + Length(m.(month := m.month - 1))
  }

  lemma YearStartsAgree(a: int, c: int, q: int, r: int)
    requires 0 <= c <= 3 && 0 <= q <= 24 && 0 <= r <= 3
    ensures YearStart(400 * a + 100 * c + 4 * q + r + 1) == 146_097 * a + 36_524 * c + 1_461 * q + 365 * r
  {
    var y := 400 * a + 100 * c + 4 * q + r;
    assert y / 4 == 100 * a + 25 * c + q;
    assert y / 100 == 4 * a + c;
    assert y / 400 == a;
  }

  lemma LeapAgrees(a: int, c: int, q: int, r: int)
    requires 0 <= c <= 3 && 0 <= q <= 24 && 0 <= r <= 3
    ensures IsLeap(400 * a + 100 * c + 4 * q + r + 1) <==> r == 3 && (q != 24 || c == 3)
  {
    var y := 400 * a + 100 * c + 4 * q + r + 1;
    Modulo4(y, 100 * a + 25 * c + q, r + 1);
    Modulo100(y, 4 * a + c, 4 * q + r + 1);
    Modulo400(y, a, 100 * c + 4 * q + r + 1);
  }

  lemma Modulo4(y: int, k: int, rest: int)
    requires y == 4 * k + rest && 0 < rest <= 4
    ensures y % 4 == 0 <==> rest == 4
  {
  }

  lemma Modulo100(y: int, k: int, rest: int)
    requires y == 100 * k + rest && 0 < rest <= 100
    ensures y % 100 == 0 <==> rest == 100
  {
  }

  lemma Modulo400(y: int, k: int, rest: int)
    requires y == 400 * k + rest && 0 < rest <= 400
    ensures y % 400 == 0 <==> rest == 400
  {
  }

  lemma MonthStarts(year: int, leap: int)
    requires leap == if IsLeap(year) then 1 else 0
    ensures FirstDay(Month(year, 2)) == YearStart(year) + 31
    ensures FirstDay(Month(year, 3)) == YearStart(year) + 59 + leap
    ensures FirstDay(Month(year, 4)) == YearStart(year) + 90 + leap
    ensures FirstDay(Month(year, 5)) == YearStart(year) + 120 + leap
    ensures FirstDay(Month(year, 6)) == YearStart(year) + 151 + leap
    ensures FirstDay(Month(year, 7)) == YearStart(year) + 181 + leap
    ensures FirstDay(Month(year, 8)) == YearStart(year) + 212 + leap
    ensures FirstDay(Month(year, 9)) == YearStart(year) + 243 + leap
    ensures FirstDay(Month(year, 10)) == YearStart(year) + 273 + leap
    ensures FirstDay(Month(year, 11)) == YearStart(year) + 304 + leap
    ensures FirstDay(Month(year, 12)) == YearStart(year) + 334 + leap
    ensures FirstDay(Month(year, 13)) == YearStart(year) + 365 + leap
  {
    assert FirstDay(Month(year, 1)) == YearStart(year);
    assert FirstDay(Month(year, 2)) == FirstDay(Month(year, 1)) + 31;
    assert FirstDay(Month(year, 3)) == FirstDay(Month(year, 2)) + 28 + leap;
    assert FirstDay(Month(year, 4)) == FirstDay(Month(year, 3)) + 31;
    assert FirstDay(Month(year, 5)) == FirstDay(Month(year, 4)) + 30;
    assert FirstDay(Month(year, 6)) == FirstDay(Month(year, 5)) + 31;
    assert FirstDay(Month(year, 7)) == FirstDay(Month(year, 6)) + 30;
    assert FirstDay(Month(year, 8)) == FirstDay(Month(year, 7)) + 31;
    assert FirstDay(Month(year, 9)) == FirstDay(Month(year, 8)) + 31;
    assert FirstDay(Month(year, 10)) == FirstDay(Month(year, 9)) + 30;
    assert FirstDay(Month(year, 11)) == FirstDay(Month(year, 10)) + 31;
    assert FirstDay(Month(year, 12)) == FirstDay(Month(year, 11)) + 30;
    assert FirstDay(Month(year, 13)) == FirstDay(Month(year, 12)) + 31;
  }

  lemma MonthInYearContains(year: int, day: int)
    requires 0 <= day < 365 + if IsLeap(year) then 1 else 0
    ensures var m := MonthInYear(day, if IsLeap(year) then 1 else 0);
            && 1 <= m <= 12
            && FirstDay(Month(year, m)) <= YearStart(year) + day < FirstDay(Month(year, m)) + Length(Month(year, m))
  {
    MonthStarts(year, if IsLeap(year) then 1 else 0);
  }

  /** Milliseconds from 1 January 1970 to the beginning of a day. */
  ghost function Millis(day: int): int {
    (day - YearStart(1970)) * 86_400_000
  }

  /** A timestamp lies in its month: not before its first day begins, and before its last day ends. */
  lemma MonthContains(t: int)
    ensures var m := MonthOf(t);
            1 <= m.month <= 12 && Millis(FirstDay(m)) <= t < Millis(FirstDay(m) + Length(m))
  {
    DayContains(t);
    assert YearStart(1970) == 719_162;
    assert Millis(DayOf(t)) <= t < Millis(DayOf(t) + 1);
  }

  lemma DayContains(t: int)
    ensures var m := MonthOf(t);
            && 1 <= m.month <= 12
            && FirstDay(m) <= DayOf(t) < FirstDay(m) + Length(m)
  {
    var p := Split(DayOf(t));
    SplitAddsUp(DayOf(t));
    YearStartsAgree(p.n400, p.n100, p.n4, p.n1);
    LeapAgrees(p.n400, p.n100, p.n4, p.n1);
    MonthInYearContains(YearOf(p), p.day);
  }

  /** The parts add up to the day, and each stays below the next cycle. */
  lemma SplitAddsUp(n: int)
    ensures var p := Split(n);
            && n == 146_097 * p.n400 + 36_524 * p.n100 + 1_461 * p.n4 + 365 * p.n1 + p.day
            && 0 <= p.n100 <= 3 && 0 <= p.n4 <= 24 && 0 <= p.n1 <= 3
            && 0 <= p.day <= 365 && (p.day == 365 ==> p.n1 == 3 && (p.n4 != 24 || p.n100 == 3))
  {
    var n400 := n / 146_097;
    var d400 := n - 146_097 * n400;
    var n100 := Cycle(d400, 36_524, 3);
    var d100 := d400 - 36_524 * n100;
    var n4 := d100 / 1_461;
    var d4 := d100 - 1_461 * n4;
    assert 0 <= d400 < 146_097;
    CycleBounds(d400, 36_524, 3);
    assert 0 <= d100 <= 36_524 && (d100 == 36_524 ==> n100 == 3);
    QuadBounds(d100);
    CycleBounds(d4, 365, 3);
  }

  lemma QuadBounds(d: int)
    requires 0 <= d <= 36_524
    ensures 0 <= d / 1_461 <= 24 && 0 <= d - 1_461 * (d / 1_461) < 1_461
    ensures d / 1_461 == 24 && d - 1_461 * (d / 1_461) == 1_460 ==> d == 36_524
  {
  }

  lemma CycleBounds(n: int, length: int, cap: int)
    requires length > 0 && n >= 0 && cap >= 0
    ensures 0 <= Cycle(n, length, cap) <= cap
    ensures Cycle(n, length, cap) * length <= n
    ensures Cycle(n, length, cap) < cap ==> n < Cycle(n, length, cap) * length + length
  {
    var q := n / length;
    assert q * length <= n < q * length + length;
    if q >= cap {
      assert cap * length <= q * length;
    }
  }
}
