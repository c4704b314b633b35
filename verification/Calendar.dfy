/**
 The proleptic Gregorian calendar as the Date operations of ECMA-262 define it: days counted
 from 1970, fields out of range carried over when an instant is made, and the fields read
 back from an instant.
 */
module Calendar {

  const MS_PER_DAY := 86_400_000

  predicate Leap(y: int) {
    y % 4 == 0 && (y % 100 != 0 || y % 400 == 0)
  }

  /** Day number of the first of January of a year (DayFromYear of ECMA-262). */
  function YearStart(y: int): int {
    365 * (y - 1970) + (y - 1969) / 4 - (y - 1901) / 100 + (y - 1601) / 400
  }

  function YearDays(y: int): int {
    if Leap(y) then 366 else 365
  }

  lemma MultipleOf100(y: int, q: int)
    requires y == 100 * q
    ensures y % 100 == 0
  {
  }

  lemma MultipleOf4(y: int, q: int)
    requires y == 4 * q
    ensures y % 4 == 0
  {
  }

  lemma Multiples(y: int)
    ensures y % 400 == 0 ==> y % 100 == 0
    ensures y % 100 == 0 ==> y % 4 == 0
  {
    if y % 400 == 0 { MultipleOf100(y, 4 * (y / 400)); }
    if y % 100 == 0 { MultipleOf4(y, 25 * (y / 100)); }
  }

  function One(b: bool): int {
    if b then 1 else 0
  }

  lemma YearDaysCount(y: int)
    ensures YearDays(y) == 365 + One(y % 4 == 0) - One(y % 100 == 0) + One(y % 400 == 0)
  {
    Multiples(y);
  }

  lemma YearStep(y: int)
    ensures YearStart(y + 1) == YearStart(y) + YearDays(y)
  {
    StepBy4(y);
    StepBy100(y);
    StepBy400(y);
    YearDaysCount(y);
    hide YearDays;
  }

  /** The quotients in YearStart step up exactly at a multiple. */
  lemma StepBy4(y: int)
    ensures (y + 1 - 1969) / 4 == (y - 1969) / 4 + One(y % 4 == 0)
  {
  }

  lemma StepBy100(y: int)
    ensures (y + 1 - 1901) / 100 == (y - 1901) / 100 + One(y % 100 == 0)
  {
  }

  lemma StepBy400(y: int)
    ensures (y + 1 - 1601) / 400 == (y - 1601) / 400 + One(y % 400 == 0)
  {
  }

  lemma {:induction false} YearStartMono(a: int, b: int)
    requires a <= b
    ensures YearStart(a) + 365 * (b - a) <= YearStart(b)
    decreases b - a
  {
    if a < b {
      YearStep(b - 1);
      YearStartMono(a, b - 1);
    }
  }

  /** The year a day number falls in, counting up from a year that starts no later. */
  function YearUp(day: int, y: int): (r: int)
    requires YearStart(y) <= day
    ensures YearStart(r) <= day < YearStart(r + 1)
    decreases day - YearStart(y)
  {
    YearStep(y);
    if day < YearStart(y + 1) then y else YearUp(day, y + 1)
  }

  function YearDown(day: int, y: int): (r: int)
    requires day < YearStart(y + 1)
    ensures YearStart(r) <= day < YearStart(r + 1)
    decreases YearStart(y + 1) - day
  {
    YearStep(y);
    if YearStart(y) <= day then y else YearDown(day, y - 1)
  }

  function YearOf(day: int): (r: int)
    ensures YearStart(r) <= day < YearStart(r + 1)
  {
    if day >= YearStart(1970) then YearUp(day, 1970) else YearDown(day, 1969)
  }

  lemma YearUnique(day: int, y: int)
    requires YearStart(y) <= day < YearStart(y + 1)
    ensures YearOf(day) == y
  {
    hide YearStart;
    var r := YearOf(day);
    if r < y { YearStartMono(r + 1, y); }
    if y < r { YearStartMono(y + 1, r); }
  }

  function MonthDays(y: int, m: int): int
    requires 1 <= m <= 12
  {
    if m == 2 then (if Leap(y) then 29 else 28)
    else if m == 4 || m == 6 || m == 9 || m == 11 then 30
    else 31
  }

  /** Days of the year before the first of a month; month 13 is the end of the year. */
  function MonthStart(y: int, m: int): int
    requires 1 <= m <= 13
  {
    if m == 1 then 0 else MonthStart(y, m - 1) + MonthDays(y, m - 1)
  }

  lemma YearHasItsDays(y: int)
    ensures MonthStart(y, 13) == YearDays(y)
  {
    assert MonthStart(y, 2) == MonthStart(y, 1) + 31;
    assert MonthStart(y, 3) == MonthStart(y, 2) + MonthDays(y, 2);
    assert MonthStart(y, 5) == MonthStart(y, 3) + 31 + 30;
    assert MonthStart(y, 7) == MonthStart(y, 5) + 31 + 30;
    assert MonthStart(y, 9) == MonthStart(y, 7) + 31 + 31;
    assert MonthStart(y, 11) == MonthStart(y, 9) + 30 + 31;
    assert MonthStart(y, 13) == MonthStart(y, 11) + 30 + 31;
  }

  /** The month holding a day of the year, counting up. */
  function MonthUp(y: int, d: int, m: int): (r: int)
    requires 1 <= m <= 12 && MonthStart(y, m) <= d < MonthStart(y, 13)
    ensures m <= r <= 12 && MonthStart(y, r) <= d < MonthStart(y, r + 1)
    decreases 13 - m
  {
    if d < MonthStart(y, m + 1) then m else MonthUp(y, d, m + 1)
  }

  /** Days of the year before a month, in closed form: a leap year has one more from March on. */
  lemma MonthStartLaw(y: int, m: int)
    requires 1 <= m <= 12
    ensures MonthStart(y, m) ==
            (367 * m - 362) / 12 +
            if m <= 2 then 0 else if y % 4 == 0 && (y % 100 != 0 || y % 400 == 0) then -1 else -2
  {
    assert MonthStart(y, 2) == MonthStart(y, 1) + 31;
    assert MonthStart(y, 3) == MonthStart(y, 2) + MonthDays(y, 2);
    assert MonthStart(y, 5) == MonthStart(y, 4) + 30 && MonthStart(y, 4) == MonthStart(y, 3) + 31;
    assert MonthStart(y, 7) == MonthStart(y, 6) + 30 && MonthStart(y, 6) == MonthStart(y, 5) + 31;
    assert MonthStart(y, 9) == MonthStart(y, 8) + 31 && MonthStart(y, 8) == MonthStart(y, 7) + 31;
    assert MonthStart(y, 11) == MonthStart(y, 10) + 31 && MonthStart(y, 10) == MonthStart(y, 9) + 30;
    assert MonthStart(y, 12) == MonthStart(y, 11) + 30;
  }

  lemma {:induction false} MonthStartMono(y: int, a: int, b: int)
    requires 1 <= a <= b <= 13
    ensures MonthStart(y, a) <= MonthStart(y, b)
    decreases b
  {
    if a < b { MonthStartMono(y, a, b - 1); }
  }

  lemma MonthUnique(y: int, d: int, m: int)
    requires 1 <= m <= 12 && MonthStart(y, m) <= d < MonthStart(y, m + 1) && 0 <= d < MonthStart(y, 13)
    ensures MonthUp(y, d, 1) == m
  {
    var r := MonthUp(y, d, 1);
    if r < m { MonthStartMono(y, r + 1, m); }
    if m < r { MonthStartMono(y, m + 1, r); }
  }

  // ---------------------------------------------------------------- instants

  /** Calendar fields in UTC; months count from 1. */
  datatype Civil = Civil(year: int, month: int, day: int, hour: int, min: int, sec: int, ms: int)

  /** A date and time of day that exists. */
  predicate Exists(c: Civil) {
    && 1 <= c.month <= 12 && 1 <= c.day <= MonthDays(c.year, c.month)
    && 0 <= c.hour < 24 && 0 <= c.min < 60 && 0 <= c.sec < 60 && 0 <= c.ms < 1000
  }

  /** setUTCFullYear then setUTCHours on any field values: months and days out of range carry over. */
  function InstantOf(c: Civil): int {
    var year := c.year + (c.month - 1) / 12;
    var month := (c.month - 1) % 12 + 1;
    DateAndTime(YearStart(year) + MonthStart(year, month) + c.day - 1, c)
  }

  function DateAndTime(day: int, c: Civil): int {
    day * MS_PER_DAY + c.hour * 3_600_000 + c.min * 60_000 + c.sec * 1000 + c.ms
  }

  /** What the getUTC methods answer on an instant. */
  function FieldsOf(t: int): Civil {
    var day, time := t / MS_PER_DAY, t % MS_PER_DAY;
    var year := YearOf(day);
    YearStep(year);
    YearHasItsDays(year);
    var d := day - YearStart(year);
    var month := MonthUp(year, d, 1);
    Civil(year, month, d - MonthStart(year, month) + 1,
          time / 3_600_000, time / 60_000 % 60, time / 1000 % 60, time % 1000)
  }

  lemma TimeOfDay(day: int, c: Civil)
    requires 0 <= c.hour < 24 && 0 <= c.min < 60 && 0 <= c.sec < 60 && 0 <= c.ms < 1000
    ensures var t := DateAndTime(day, c);
      && t / MS_PER_DAY == day
      && t % MS_PER_DAY / 3_600_000 == c.hour && t % MS_PER_DAY / 60_000 % 60 == c.min
      && t % MS_PER_DAY / 1000 % 60 == c.sec && t % MS_PER_DAY % 1000 == c.ms
  {
    var time := c.hour * 3_600_000 + c.min * 60_000 + c.sec * 1000 + c.ms;
    assert 0 <= time < MS_PER_DAY;
    assert time / 60_000 == c.hour * 60 + c.min;
    assert time / 1000 == (c.hour * 60 + c.min) * 60 + c.sec;
  }

  /** The fields of the instant of an existing date and time are that date and time. */
  lemma FieldsOfInstant(c: Civil)
    requires Exists(c)
    ensures FieldsOf(InstantOf(c)) == c
  {
    hide YearStart, MonthStart, MonthDays, MonthUp, YearOf, DateAndTime;
    var day := YearStart(c.year) + MonthStart(c.year, c.month) + c.day - 1;
    TimeOfDay(day, c);
    MonthStep(c.year, c.month);
    MonthStartMono(c.year, 1, c.month);
    MonthStartMono(c.year, c.month + 1, 13);
    MonthOne(c.year);
    YearStep(c.year);
    YearHasItsDays(c.year);
    YearUnique(day, c.year);
    MonthUnique(c.year, day - YearStart(c.year), c.month);
  }

  lemma MonthStep(y: int, m: int)
    requires 1 <= m <= 12
    ensures MonthStart(y, m + 1) == MonthStart(y, m) + MonthDays(y, m)
  {
  }

  lemma MonthOne(y: int)
    ensures MonthStart(y, 1) == 0
  {
  }

  lemma TimeParts(time: int)
    requires 0 <= time < MS_PER_DAY
    ensures 0 <= time / 3_600_000 < 24
    ensures time == time / 3_600_000 * 3_600_000 + time / 60_000 % 60 * 60_000 + time / 1000 % 60 * 1000 + time % 1000
  {
    var h, m, s := time / 3_600_000, time / 60_000, time / 1000;
    assert h == m / 60 && m == s / 60;
  }

  /** Every instant's fields exist, and the instant is theirs. */
  lemma InstantOfFields(t: int)
    ensures Exists(FieldsOf(t)) && InstantOf(FieldsOf(t)) == t
  {
    hide YearStart, MonthStart, MonthDays, MonthUp, YearOf;
    var day, time := t / MS_PER_DAY, t % MS_PER_DAY;
    var year := YearOf(day);
    YearStep(year);
    YearHasItsDays(year);
    MonthOne(year);
    var month := MonthUp(year, day - YearStart(year), 1);
    MonthStep(year, month);
    TimeParts(time);
  }
}
