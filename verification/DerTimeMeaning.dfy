/**
 What the readers of UTCTime and GeneralizedTime make of any octets, written out: where the
 digits stand, which dates exist in the Gregorian calendar, and how many milliseconds from
 1970 they lie.
 */
module DerTimeMeaning {
  import opened Wrappers
  import opened Octets
  import opened Calendar
  import opened DerTime

  /** A number of two digits. */
  function Two(s: bytes, p: nat): int
    requires p + 2 <= |s|
  {
    var a: int, b: int := s[p], s[p + 1];
    (a - 48) * 10 + (b - 48)
  }

  predicate LeapYear(y: int) {
    y % 4 == 0 && (y % 100 != 0 || y % 400 == 0)
  }

  /** A day of the Gregorian calendar and a time of day. */
  predicate Real(y: int, mo: int, d: int, h: int, mi: int, se: int) {
    && 1 <= mo <= 12 && 1 <= d
    && d <= (if mo == 2 then (if LeapYear(y) then 29 else 28) else if mo in {4, 6, 9, 11} then 30 else 31)
    && 0 <= h < 24 && 0 <= mi < 60 && 0 <= se < 60
  }

  /** Days from 1970 to a date: years, leap days, months, days. */
  function DayNumber(y: int, mo: int, d: int): int {
    365 * (y - 1970) + (y - 1969) / 4 - (y - 1901) / 100 + (y - 1601) / 400
    + (367 * mo - 362) / 12 + (if mo <= 2 then 0 else if LeapYear(y) then -1 else -2) + d - 1
  }

  function Millis(y: int, mo: int, d: int, h: int, mi: int, se: int): int {
    DayNumber(y, mo, d) * 86_400_000 + h * 3_600_000 + mi * 60_000 + se * 1000
  }

  /** Digits, then Z. */
  predicate DigitsThenZ(s: bytes, n: nat) {
    |s| == n + 1 && (forall i :: 0 <= i < n ==> 48 <= s[i] <= 57) && s[n] == 90
  }

  predicate DigitPair(s: bytes, p: nat) {
    p + 2 <= |s| && 48 <= s[p] <= 57 && 48 <= s[p + 1] <= 57
  }

  lemma TwoDigits(s: bytes, p: nat)
    ensures DigitsAt(s, p, 2) == if DigitPair(s, p) then Some(Two(s, p)) else None
  {
    if p + 2 <= |s| {
      assert DigitsAt(s, p, 1) == if IsDigit(s[p]) then Some(s[p] - 48) else None;
    }
  }

  lemma FourDigits(s: bytes)
    ensures DigitsAt(s, 0, 4) ==
            if DigitPair(s, 0) && DigitPair(s, 2) then Some(Two(s, 0) * 100 + Two(s, 2)) else None
  {
    TwoDigits(s, 0);
    if |s| >= 4 && DigitsAt(s, 0, 2).Some? && IsDigit(s[2]) {
      assert DigitsAt(s, 0, 3) == Some(Two(s, 0) * 10 + (s[2] - 48));
    }
  }

  /** The year, in two or in four digits. */
  function Year(s: bytes, w: nat): int
    requires w in {2, 4} && w <= |s|
  {
    if w == 2 then Two(s, 0) else Two(s, 0) * 100 + Two(s, 2)
  }

  predicate FieldDigits(s: bytes, w: nat) {
    && DigitPair(s, 0) && (w == 4 ==> DigitPair(s, 2)) && DigitPair(s, w) && DigitPair(s, w + 2) && DigitPair(s, w + 4)
    && DigitPair(s, w + 6) && DigitPair(s, w + 8)
  }

  lemma YearMeaning(s: bytes, w: nat)
    requires w in {2, 4}
    ensures DigitsAt(s, 0, w) ==
            if DigitPair(s, 0) && (w == 4 ==> DigitPair(s, 2)) then Some(Year(s, w)) else None
  {
    hide DigitsAt, DigitPair;
    TwoDigits(s, 0);
    FourDigits(s);
  }

  lemma FieldsMeaning(s: bytes, w: nat)
    requires w in {2, 4}
    ensures FieldDigits(s, w) ==> |s| >= w + 10 && Year(s, w) >= 0
    ensures FieldsAt(s, w).Some? <==> FieldDigits(s, w)
    ensures FieldDigits(s, w) ==>
              FieldsAt(s, w).value == Scanned(Year(s, w), Two(s, w), Two(s, w + 2), Two(s, w + 4), Two(s, w + 6),
                                              Two(s, w + 8), false, 0, false)
  {
    YearMeaning(s, w);
    TwoDigits(s, w);
    TwoDigits(s, w + 2);
    TwoDigits(s, w + 4);
    TwoDigits(s, w + 6);
    TwoDigits(s, w + 8);
    if DigitPair(s, w + 8) { assert |s| >= w + 10; }
    hide DigitsAt, DigitPair, Two, Year;
  }

  lemma FieldsThenZ(s: bytes, w: nat)
    requires w in {2, 4}
    ensures DigitsThenZ(s, w + 10) <==> FieldDigits(s, w) && |s| == w + 11 && s[w + 10] == 90
  {
  }

  /** The scan without a fraction, field by field. */
  lemma ScanMeaning(s: bytes, w: nat)
    requires w in {2, 4}
    ensures DigitsThenZ(s, w + 10) ==>
              && FieldDigits(s, w) && Year(s, w) >= 0
              && ScanTime(s, w, false) ==
                 Some(Scanned(Year(s, w), Two(s, w), Two(s, w + 2), Two(s, w + 4), Two(s, w + 6), Two(s, w + 8),
                              false, 0, false))
    ensures !DigitsThenZ(s, w + 10) ==> ScanTime(s, w, false) == None
  {
    FieldsMeaning(s, w);
    FieldsThenZ(s, w);
    hide FieldsAt, FieldDigits, Year, Two, DigitsThenZ;
  }

  lemma RealExactly(y: int, mo: int, d: int, h: int, mi: int, se: int, ms: int)
    requires 0 <= ms < 1000
    ensures Exists(Civil(y, mo, d, h, mi, se, ms)) <==> Real(y, mo, d, h, mi, se)
  {
  }

  lemma MillisExactly(y: int, mo: int, d: int, h: int, mi: int, se: int, ms: int)
    requires 1 <= mo <= 12
    ensures InstantOf(Civil(y, mo, d, h, mi, se, ms)) == Millis(y, mo, d, h, mi, se) + ms
  {
    MonthStartLaw(y, mo);
    assert (mo - 1) / 12 == 0 && (mo - 1) % 12 == mo - 1;
    hide MonthStart;
    assert YearStart(y) + MonthStart(y, mo) + d - 1 == DayNumber(y, mo, d);
  }

  /** A date and time of the calendar is its milliseconds; any other is refused. */
  function Verdict(c: Civil): Result<int, TimeError> {
    if Real(c.year, c.month, c.day, c.hour, c.min, c.sec)
    then Ok(Millis(c.year, c.month, c.day, c.hour, c.min, c.sec) + c.ms)
    else Err(BadTime)
  }

  /** The check of the fields passes for the dates of the calendar, and gives their milliseconds. */
  lemma CheckMeaning(c: Civil)
    requires 0 <= c.ms < 1000
    ensures Checked(c) == Verdict(c)
  {
    CheckedExactly(c);
    RealExactly(c.year, c.month, c.day, c.hour, c.min, c.sec, c.ms);
    assert Real(c.year, c.month, c.day, c.hour, c.min, c.sec) ==> 1 <= c.month <= 12;
    hide Checked, Exists, Real, Millis, InstantOf;
    if 1 <= c.month <= 12 { MillisExactly(c.year, c.month, c.day, c.hour, c.min, c.sec, c.ms); }
  }

  /** The fields behind the w digits of a year. */
  function CivilAt(s: bytes, w: nat, year: int, ms: int): Civil
    requires w + 10 <= |s|
  {
    Civil(year, Two(s, w), Two(s, w + 2), Two(s, w + 4), Two(s, w + 6), Two(s, w + 8), ms)
  }

  /** What the scan reads without a fraction, as a date and time. */
  lemma CivilScanned(s: bytes, w: nat, year: int)
    requires w in {2, 4} && DigitsThenZ(s, w + 10)
    ensures ScanTime(s, w, false).Some? && ScanTime(s, w, false).value.year == Year(s, w)
    ensures CivilOf(ScanTime(s, w, false).value, year) == CivilAt(s, w, year, 0)
  {
    ScanMeaning(s, w);
    hide ScanTime, Two, Year, DigitsThenZ, FieldDigits;
  }

  /** Every text, as a GeneralizedTime without the fractional option. */
  lemma GeneralizedTimeMeaning(s: bytes)
    ensures ReadGeneralizedTime(s, false) ==
            if DigitsThenZ(s, 14) then Verdict(CivilAt(s, 4, Two(s, 0) * 100 + Two(s, 2), 0))
            else Err(BadGeneralizedTime)
  {
    if DigitsThenZ(s, 14) {
      CivilScanned(s, 4, Year(s, 4));
      hide ScanTime, Checked, Verdict, Two, DigitsThenZ, CivilAt;
      CheckMeaning(CivilAt(s, 4, Year(s, 4), 0));
    } else {
      ScanMeaning(s, 4);
      hide ScanTime, Checked, DigitsThenZ;
    }
  }

  /** Fourteen digits, a point, one digit or more, then Z. */
  predicate DigitsPointZ(s: bytes) {
    && |s| >= 17 && (forall i :: 0 <= i < 14 ==> 48 <= s[i] <= 57) && s[14] == 46
    && (forall i :: 15 <= i < |s| - 1 ==> 48 <= s[i] <= 57) && s[|s| - 1] == 90
  }

  /** The first three fraction digits as milliseconds; a digit that is not there is zero. */
  function Thousandths(s: bytes): int
    requires |s| >= 17
  {
    var a: int, b: int, c: int := s[15], if |s| > 17 then s[16] else 48, if |s| > 18 then s[17] else 48;
    (a - 48) * 100 + (b - 48) * 10 + (c - 48)
  }

  lemma FieldsThenPoint(s: bytes)
    ensures DigitsPointZ(s) <==>
            && FieldDigits(s, 4) && |s| >= 17 && s[14] == 46
            && (forall i :: 15 <= i < |s| - 1 ==> 48 <= s[i] <= 57) && s[|s| - 1] == 90
  {
  }

  lemma RunBefore(s: bytes)
    requires |s| >= 15
    ensures var end := DigitRun(s, 15);
      (end > 15 && end + 1 == |s| && s[end] == 90) <==>
      |s| >= 17 && (forall i :: 15 <= i < |s| - 1 ==> 48 <= s[i] <= 57) && s[|s| - 1] == 90
  {
    if |s| >= 17 && (forall i :: 15 <= i < |s| - 1 ==> 48 <= s[i] <= 57) && s[|s| - 1] == 90 {
      RunOver(s, 15, |s| - 1);
    }
    hide DigitRun;
    var end := DigitRun(s, 15);
    if end + 1 == |s| { assert forall i :: 15 <= i < end ==> IsDigit(s[i]); }
  }

  /** The scan with a fraction. */
  lemma FractionMeaning(s: bytes)
    ensures ScanTime(s, 4, true) ==
            if !DigitsPointZ(s) then None
            else
              Some(Scanned(Two(s, 0) * 100 + Two(s, 2), Two(s, 4), Two(s, 6), Two(s, 8), Two(s, 10), Two(s, 12), true,
                           Thousandths(s), s[|s| - 2] == 48))
  {
    FieldsMeaning(s, 4);
    FieldsThenPoint(s);
    if |s| >= 15 { RunBefore(s); }
    hide FieldsAt, FieldDigits, Two, DigitsPointZ, DigitRun;
  }

  /** What the scan reads with a fraction, as a date and time. */
  lemma CivilFraction(s: bytes)
    requires DigitsPointZ(s)
    ensures ScanTime(s, 4, true).Some? && ScanTime(s, 4, true).value.fracLastIsZero == (s[|s| - 2] == 48)
    ensures CivilOf(ScanTime(s, 4, true).value, ScanTime(s, 4, true).value.year) ==
            CivilAt(s, 4, Two(s, 0) * 100 + Two(s, 2), Thousandths(s))
  {
    FractionMeaning(s);
    hide ScanTime, Two, DigitsPointZ;
  }

  /** Every text, as a GeneralizedTime with the fractional option: fractions have no zero at their end. */
  lemma FractionalTimeMeaning(s: bytes)
    ensures ReadGeneralizedTime(s, true) ==
            if DigitsThenZ(s, 14) then ReadGeneralizedTime(s, false)
            else if !DigitsPointZ(s) || s[|s| - 2] == 48 then Err(BadGeneralizedTime)
            else Verdict(CivilAt(s, 4, Two(s, 0) * 100 + Two(s, 2), Thousandths(s)))
  {
    ScanMeaning(s, 4);
    if DigitsThenZ(s, 14) || !DigitsPointZ(s) {
      FractionMeaning(s);
      hide ScanTime, Checked, DigitsPointZ, DigitsThenZ;
    } else {
      PointZ(s);
      CivilFraction(s);
      hide DigitsPointZ, DigitsThenZ, Thousandths, Two, FieldDigits, Verdict, CivilAt, ScanTime, Checked, CivilOf;
      ReadFraction(s, ScanTime(s, 4, true).value);
      hide ReadGeneralizedTime;
      var c := CivilAt(s, 4, Two(s, 0) * 100 + Two(s, 2), Thousandths(s));
      AtMs(s, 4, Two(s, 0) * 100 + Two(s, 2), Thousandths(s));
      CheckMeaning(c);
    }
  }

  lemma AtMs(s: bytes, w: nat, year: int, ms: int)
    requires w + 10 <= |s|
    ensures CivilAt(s, w, year, ms).ms == ms
  {
  }

  lemma PointZ(s: bytes)
    requires DigitsPointZ(s)
    ensures |s| >= 17 && 0 <= Thousandths(s) < 1000
  {
    assert 48 <= s[15] <= 57;
  }

  lemma ReadFraction(s: bytes, t: Scanned)
    requires ScanTime(s, 4, false) == None && ScanTime(s, 4, true) == Some(t)
    ensures ReadGeneralizedTime(s, true) ==
            if t.fracLastIsZero then Err(BadGeneralizedTime) else Checked(CivilOf(t, t.year))
  {
    hide ScanTime, Checked;
  }

  /** Years below 50 are of this century, the others of the last. */
  function Century(y: int): int {
    if y < 50 then 2000 + y else 1900 + y
  }

  lemma ReadScanned(s: bytes, t: Scanned)
    requires ScanTime(s, 2, false) == Some(t)
    ensures ReadUtcTime(s) == Checked(CivilOf(t, Century(t.year)))
  {
    hide ScanTime, Checked;
  }

  /** Every text, as a UTCTime. */
  lemma UtcTimeMeaning(s: bytes)
    ensures ReadUtcTime(s) ==
            if DigitsThenZ(s, 12) then Verdict(CivilAt(s, 2, Century(Two(s, 0)), 0)) else Err(BadUtcTime)
  {
    if DigitsThenZ(s, 12) {
      var year := Century(Two(s, 0));
      CivilScanned(s, 2, year);
      AtMs(s, 2, year, 0);
      hide ScanTime, Checked, Verdict, DigitsThenZ, CivilAt, CivilOf, Century, ReadUtcTime;
      ReadScanned(s, ScanTime(s, 2, false).value);
      CheckMeaning(CivilAt(s, 2, year, 0));
    } else {
      ScanMeaning(s, 2);
      hide ScanTime, Checked, DigitsThenZ;
    }
  }

  /** The fields a text is built from are in range, so the builders refuse exactly the other years. */
  lemma {:induction false} UtcTimeRange(t: int)
    ensures UtcTimeString(t).Ok? <==> -631_152_000_000 <= t < 2_524_608_000_000
    ensures GeneralizedTimeString(t, true).Ok? <==> -62_167_219_200_000 <= t < 253_402_300_800_000
    ensures GeneralizedTimeString(t, false).Ok? <==> GeneralizedTimeString(t, true).Ok?
  {
    hide Stamp, Fraction, FieldsOf, YearOf, YearStart;
    var day := t / 86_400_000;
    YearOfInstant(t);
    YearAtLeast(day, 1950);
    YearAtLeast(day, 2050);
    YearAtLeast(day, 0);
    YearAtLeast(day, 10000);
    FirstDays();
  }

  lemma FirstDays()
    ensures YearStart(1950) == -7305 && YearStart(2050) == 29220
    ensures YearStart(0) == -719528 && YearStart(10000) == 2932897
  {
  }

  lemma YearOfInstant(t: int)
    ensures FieldsOf(t).year == YearOf(t / 86_400_000)
  {
  }

  lemma YearAtLeast(day: int, y: int)
    ensures YearOf(day) >= y <==> day >= YearStart(y)
  {
    hide YearStart;
    var r := YearOf(day);
    if r >= y { YearStartMono(y, r); }
    if r < y { YearStartMono(r + 1, y); }
  }
}
