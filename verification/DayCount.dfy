/** The closed-form day count against a calendar that only knows the next day. */
module DayCount {

  datatype Date = Date(year: int, month: int, day: int)

  predicate Leap(year: int) {
    year % 4 == 0 && (year % 100 != 0 || year % 400 == 0)
  }

  function MonthLength(year: int, month: int): int {
    if month == 2 then (if Leap(year) then 29 else 28)
    else if month == 4 || month == 6 || month == 9 || month == 11 then 30
    else 31
  }

  predicate Valid(d: Date) {
    d.year >= 1 && 1 <= d.month <= 12 && 1 <= d.day <= MonthLength(d.year, d.month)
  }

  function Tomorrow(d: Date): (t: Date)
    requires Valid(d)
    ensures Valid(t)
  {
    if d.day < MonthLength(d.year, d.month) then d.(day := d.day + 1)
    else if d.month < 12 then Date(d.year, d.month + 1, 1)
    else Date(d.year + 1, 1, 1)
  }

  /** The date n days later. */
  function Later(d: Date, n: nat): (t: Date)
    requires Valid(d)
    ensures Valid(t)
  {
    if n == 0 then d else Tomorrow(Later(d, n - 1))
  }

  // ---------------------------------------------------------------- the closed form

  /** The intermediate d1 and d2 of misc_day_diff: years begin in March. */
  function Number(d: Date): int
    requires Valid(d)
  {
    var m := (d.month + 9) % 12;
    var y := d.year - m / 10;
    YearDays(y) + MonthDays(m) + (d.day - 1)
  }

  function YearDays(y: int): int {
    365 * y + y / 4 - y / 100 + y / 400
  }

  function MonthDays(m: int): int {
    (m * 306 + 5) / 10
  }

  /** misc_day_diff */
  function DayDiff(a: Date, b: Date): int
    requires Valid(a) && Valid(b)
  {
    Number(b) - Number(a)
  }

  lemma StepOf4(y: int)
    requires y >= 1
    ensures y / 4 == (y - 1) / 4 + (if y % 4 == 0 then 1 else 0)
  {}

  lemma StepOf100(y: int)
    requires y >= 1
    ensures y / 100 == (y - 1) / 100 + (if y % 100 == 0 then 1 else 0)
  {}

  lemma StepOf400(y: int)
    requires y >= 1
    ensures y / 400 == (y - 1) / 400 + (if y % 400 == 0 then 1 else 0)
  {}

  /** A multiple of 400 is one of 100, and a multiple of 100 is one of 4. */
  lemma Multiples(y: int)
    requires y >= 1
    ensures y % 400 == 0 ==> y % 100 == 0
    ensures y % 100 == 0 ==> y % 4 == 0
  {
    if y % 400 == 0 { HundredTimes(y, 4 * (y / 400)); }
    if y % 100 == 0 { FourTimes(y, 25 * (y / 100)); }
  }

  lemma HundredTimes(y: int, q: int)
    requires y == 100 * q
    ensures y % 100 == 0
  {}

  lemma FourTimes(y: int, q: int)
    requires y == 4 * q
    ensures y % 4 == 0
  {}

  lemma YearStep(y: int)
    requires y >= 1
    ensures YearDays(y) == YearDays(y - 1) + 365 + (if Leap(y) then 1 else 0)
  {
    var a, b, c := (y - 1) / 4, (y - 1) / 100, (y - 1) / 400;
    StepOf4(y);
    StepOf100(y);
    StepOf400(y);
    Multiples(y);
  }

  lemma MonthTable()
    ensures MonthDays(0) == 0 && MonthDays(1) == 31 && MonthDays(2) == 61 && MonthDays(3) == 92
    ensures MonthDays(4) == 122 && MonthDays(5) == 153 && MonthDays(6) == 184 && MonthDays(7) == 214
    ensures MonthDays(8) == 245 && MonthDays(9) == 275 && MonthDays(10) == 306 && MonthDays(11) == 337
  {}

  lemma MarchBased(d: Date)
    requires Valid(d)
    ensures Number(d) == if d.month > 2 then YearDays(d.year) + MonthDays(d.month - 3) + d.day - 1
                         else YearDays(d.year - 1) + MonthDays(d.month + 9) + d.day - 1
  {
    hide YearDays, MonthDays;
    assert (d.month + 9) % 12 == if d.month > 2 then d.month - 3 else d.month + 9;
  }

  /** The number goes up by one each day. */
  lemma NumberOfTomorrow(d: Date)
    requires Valid(d)
    ensures Number(Tomorrow(d)) == Number(d) + 1
  {
    hide YearDays, MonthDays, Leap, Number;
    MarchBased(d);
    MarchBased(Tomorrow(d));
    MonthTable();
    YearStep(d.year);
    if d.day == MonthLength(d.year, d.month) {
      match d.month {
        case 1 => case 2 => case 3 => case 4 => case 5 => case 6 =>
        case 7 => case 8 => case 9 => case 10 => case 11 => case 12 =>
      }
    }
  }

  lemma {:induction false} NumberOfLater(d: Date, n: nat)
    requires Valid(d)
    ensures Number(Later(d, n)) == Number(d) + n
  {
    hide Number, Tomorrow;
    if n > 0 {
      NumberOfLater(d, n - 1);
      NumberOfTomorrow(Later(d, n - 1));
    }
  }

  lemma {:induction false} LaterAdds(d: Date, m: nat, n: nat)
    requires Valid(d)
    ensures Later(Later(d, m), n) == Later(d, m + n)
  {
    if n > 0 { LaterAdds(d, m, n - 1); }
  }

  const FIRST_DAY := Date(1, 1, 1)

  /** Every date is some number of days after the first. */
  lemma {:induction false} Reached(d: Date) returns (n: nat)
    requires Valid(d)
    ensures Later(FIRST_DAY, n) == d
    decreases d.year, d.month, d.day
  {
    if d == FIRST_DAY { return 0; }
    var yesterday := if d.day > 1 then d.(day := d.day - 1)
                     else if d.month > 1 then Date(d.year, d.month - 1, MonthLength(d.year, d.month - 1))
                     else Date(d.year - 1, 12, 31);
    n := Reached(yesterday);
    n := n + 1;
  }

  /** misc_day_diff counts the days: it is n exactly when n steps of the calendar lead from the
      one date to the other. */
  lemma DayDiffCounts(a: Date, b: Date, n: nat)
    requires Valid(a) && Valid(b)
    ensures DayDiff(a, b) == n <==> Later(a, n) == b
  {
    hide Number, Tomorrow;
    NumberOfLater(a, n);
    if DayDiff(a, b) == n {
      var i := Reached(a);
      var j := Reached(b);
      NumberOfLater(FIRST_DAY, i);
      NumberOfLater(FIRST_DAY, j);
      LaterAdds(FIRST_DAY, i, n);
    }
  }

  /** Differences add up, change sign with the direction, and vanish only between equal dates. */
  lemma DayDiffIsADistance(a: Date, b: Date, c: Date)
    requires Valid(a) && Valid(b) && Valid(c)
    ensures DayDiff(a, c) == DayDiff(a, b) + DayDiff(b, c)
    ensures DayDiff(b, a) == -DayDiff(a, b)
    ensures DayDiff(a, b) == 0 <==> a == b
  {
    DayDiffCounts(a, b, 0);
  }
}
