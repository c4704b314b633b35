/**
 UTCTime and GeneralizedTime. An instant is a count of milliseconds since 1970 (a Date's
 time value); text is its octets.
 */
module DerTime {
  import opened Wrappers
  import opened Octets
  import opened Radix
  import opened Calendar

  const DOT: byte := 46
  const ZULU: byte := 90

  datatype TimeError = BadUtcTime | BadGeneralizedTime | BadTime

  // ---------------------------------------------------------------- decimal fields

  predicate IsDigit(b: byte) {
    48 <= b <= 57
  }

  /** A number in exactly w decimal digits. */
  function Decimal(n: nat, w: nat): (r: bytes)
    ensures |r| == w
    decreases w
  {
    if w == 0 then [] else Decimal(n / 10, w - 1) + [48 + n % 10]
  }

  /** _digitsToInt: the decimal number at an offset, when its count of digits is there. */
  function DigitsAt(s: bytes, start: nat, count: nat): Option<nat>
    decreases count
  {
    if start + count > |s| then None
    else if count == 0 then Some(0)
    else
      match DigitsAt(s, start, count - 1)
      case None => None
      case Some(v) => if IsDigit(s[start + count - 1]) then Some(v * 10 + (s[start + count - 1] - 48)) else None
  }

  /** A number's decimal digits are those of its quotient by ten and its last digit. */
  lemma DecimalStep(n: nat, q: nat, d: nat, count: nat)
    requires n == q * 10 + d && d < 10 && count > 0
    ensures Decimal(n, count) == Decimal(q, count - 1) + [48 + d]
    ensures n < Pow(10, count) <==> q < Pow(10, count - 1)
  {
    assert n / 10 == q && n % 10 == d;
  }

  lemma {:induction false} DigitsSound(s: bytes, start: nat, count: nat, n: nat)
    requires DigitsAt(s, start, count) == Some(n)
    ensures HasAt(s, start, Decimal(n, count)) && n < Pow(10, count)
    decreases count
  {
    if count == 0 {
      assert s[start..start] == [];
    } else {
      var q, last := DigitsAt(s, start, count - 1).value, s[start + count - 1];
      DigitsSound(s, start, count - 1, q);
      DecimalStep(n, q, last - 48, count);
      hide Decimal, Pow, DigitsAt;
      HasAtSplit(s, start, Decimal(q, count - 1), [last]);
      HasAtByte(s, start + count - 1, last);
    }
  }

  lemma {:induction false} DigitsComplete(s: bytes, start: nat, count: nat, n: nat)
    requires HasAt(s, start, Decimal(n, count)) && n < Pow(10, count)
    ensures DigitsAt(s, start, count) == Some(n)
    decreases count
  {
    if count > 0 {
      var q, d := n / 10, n % 10;
      DecimalStep(n, q, d, count);
      hide Decimal, Pow;
      HasAtSplit(s, start, Decimal(q, count - 1), [48 + d]);
      HasAtByte(s, start + count - 1, 48 + d);
      DigitsComplete(s, start, count - 1, q);
    }
  }

  /** Reading digits and printing them are inverse. */
  lemma DigitsExactly(s: bytes, start: nat, count: nat, n: nat)
    ensures DigitsAt(s, start, count) == Some(n) <==> HasAt(s, start, Decimal(n, count)) && n < Pow(10, count)
  {
    hide Decimal, Pow, DigitsAt;
    if DigitsAt(s, start, count) == Some(n) { DigitsSound(s, start, count, n); }
    if HasAt(s, start, Decimal(n, count)) && n < Pow(10, count) { DigitsComplete(s, start, count, n); }
  }

  lemma Pow10()
    ensures Pow(10, 2) == 100 && Pow(10, 4) == 10000
  {
    assert Pow(10, 2) == 10 * Pow(10, 1) && Pow(10, 1) == 10 * Pow(10, 0);
    assert Pow(10, 4) == 10 * Pow(10, 3) && Pow(10, 3) == 10 * Pow(10, 2);
  }

  // ---------------------------------------------------------------- scanning

  datatype Scanned = Scanned(year: nat, month: nat, day: nat, hour: nat, min: nat, sec: nat, hasFrac: bool, ms: nat,
      fracLastIsZero: bool)

  /** The six fields, their digits one after another. */
  function FieldsAt(s: bytes, yearLen: nat): Option<Scanned> {
    match DigitsAt(s, 0, yearLen)
    case None => None
    case Some(year) =>
      match DigitsAt(s, yearLen, 2)
      case None => None
      case Some(month) =>
        match DigitsAt(s, yearLen + 2, 2)
        case None => None
        case Some(day) =>
          match DigitsAt(s, yearLen + 4, 2)
          case None => None
          case Some(hour) =>
            match DigitsAt(s, yearLen + 6, 2)
            case None => None
            case Some(min) =>
              match DigitsAt(s, yearLen + 8, 2)
              case None => None
              case Some(sec) => Some(Scanned(year, month, day, hour, min, sec, false, 0, false))
  }

  /** The end of the run of digits from an offset on. */
  function DigitRun(s: bytes, p: nat): (r: nat)
    requires p <= |s|
    ensures p <= r <= |s|
    ensures forall i :: p <= i < r ==> IsDigit(s[i])
    ensures r < |s| ==> !IsDigit(s[r])
    decreases |s| - p
  {
    if p < |s| && IsDigit(s[p]) then DigitRun(s, p + 1) else p
  }

  /** A digit of a fraction, zero when the fraction is shorter. */
  function FractionDigit(s: bytes, p: nat, end: nat): nat
    requires end <= |s| && forall i :: p <= i < end ==> IsDigit(s[i])
  {
    if p < end then assert IsDigit(s[p]); s[p] - 48 else 0
  }

  /** _scanTimeFields */
  function ScanTime(s: bytes, yearLen: nat, allowFrac: bool): Option<Scanned> {
    match FieldsAt(s, yearLen)
    case None => None
    case Some(t) =>
      var pos := yearLen + 10;
      if !allowFrac then
        if pos + 1 == |s| && s[pos] == ZULU then Some(t) else None
      else if pos >= |s| || s[pos] != DOT then None
      else
        var end := DigitRun(s, pos + 1);
        if end == pos + 1 then None
        else if end + 1 != |s| || s[end] != ZULU then None
        else Some(t.(hasFrac := true, fracLastIsZero := s[end - 1] == 48,
                     ms := FractionDigit(s, pos + 1, end) * 100 + FractionDigit(s, pos + 2, end) * 10
                           + FractionDigit(s, pos + 3, end)))
  }

  // ---------------------------------------------------------------- reading and writing

  function CivilOf(t: Scanned, year: int): Civil {
    Civil(year, t.month, t.day, t.hour, t.min, t.sec, t.ms)
  }

  /** The Date built from the fields, refused when its own fields differ from those read. */
  function Checked(c: Civil): Result<int, TimeError> {
    var f := FieldsOf(InstantOf(c));
    if f.year != c.year || f.month != c.month || f.day != c.day || f.hour != c.hour || f.min != c.min || f.sec != c.sec
    then Err(BadTime) else Ok(InstantOf(c))
  }

  function ReadUtcTime(s: bytes): Result<int, TimeError> {
    match ScanTime(s, 2, false)
    case None => Err(BadUtcTime)
    case Some(t) => Checked(CivilOf(t, t.year + if t.year < 50 then 2000 else 1900))
  }

  function ReadGeneralizedTime(s: bytes, allowFractional: bool): Result<int, TimeError> {
    match ScanTime(s, 4, false)
    case Some(t) => Checked(CivilOf(t, t.year))
    case None =>
      if !allowFractional then Err(BadGeneralizedTime)
      else
        match ScanTime(s, 4, true)
        case None => Err(BadGeneralizedTime)
        case Some(t) => if t.fracLastIsZero then Err(BadGeneralizedTime) else Checked(CivilOf(t, t.year))
  }

  predicate TwoDigitFields(c: Civil) {
    0 <= c.month < 100 && 0 <= c.day < 100 && 0 <= c.hour < 100 && 0 <= c.min < 100 && 0 <= c.sec < 100
  }

  /** Year, month, day, hour, minute and second in decimal. */
  function Stamp(year: nat, yearLen: nat, c: Civil): (r: bytes)
    requires TwoDigitFields(c)
    ensures |r| == yearLen + 10
  {
    Decimal(year, yearLen) + Decimal(c.month, 2) + Decimal(c.day, 2) + Decimal(c.hour, 2) + Decimal(c.min, 2) +
        Decimal(c.sec, 2)
  }

  /** The digits of a nonzero fraction without trailing zeros. */
  function FractionDigits(ms: nat): (r: bytes)
    requires 0 < ms < 1000
    ensures 1 <= |r| <= 3
  {
    if ms % 10 != 0 then Decimal(ms, 3) else if ms / 10 % 10 != 0 then Decimal(ms / 10, 2) else Decimal(ms / 100, 1)
  }

  /** _fractionString */
  function Fraction(ms: nat): bytes
    requires ms < 1000
  {
    if ms == 0 then [] else [DOT] + FractionDigits(ms)
  }

  /** _utcTimeString */
  function UtcTimeString(t: int): Result<bytes, TimeError> {
    InstantOfFields(t);
    var c := FieldsOf(t);
    if c.year < 1950 || c.year > 2049 then Err(BadUtcTime) else Ok(Stamp(c.year % 100, 2, c) + [ZULU])
  }

  /** _generalizedTimeString */
  function GeneralizedTimeString(t: int, fractional: bool): Result<bytes, TimeError> {
    InstantOfFields(t);
    var c := FieldsOf(t);
    if c.year < 0 || c.year > 9999 then Err(BadGeneralizedTime)
    else Ok(Stamp(c.year, 4, c) + (if fractional then Fraction(c.ms) else []) + [ZULU])
  }

  // ---------------------------------------------------------------- exactness

  /** The check passes exactly on dates and times that exist. */
  lemma CheckedExactly(c: Civil)
    requires 0 <= c.ms < 1000
    ensures Checked(c) == if Exists(c) then Ok(InstantOf(c)) else Err(BadTime)
  {
    hide FieldsOf, InstantOf, MonthDays;
    InstantOfFields(InstantOf(c));
    if Exists(c) { FieldsOfInstant(c); }
  }

  /** The six fields are read exactly where they are printed. */
  lemma FieldsExactly(s: bytes, yearLen: nat, year: nat, c: Civil)
    requires TwoDigitFields(c) && year < Pow(10, yearLen)
    ensures FieldsAt(s, yearLen) == Some(Scanned(year, c.month, c.day, c.hour, c.min, c.sec, false, 0, false)) <==>
            HasAt(s, 0, Stamp(year, yearLen, c))
  {
    hide Decimal, DigitsAt, Pow;
    Pow10();
    var y, mo, d := Decimal(year, yearLen), Decimal(c.month, 2), Decimal(c.day, 2);
    var h, mi, se := Decimal(c.hour, 2), Decimal(c.min, 2), Decimal(c.sec, 2);
    HasAtSplit(s, 0, y + mo + d + h + mi, se);
    HasAtSplit(s, 0, y + mo + d + h, mi);
    HasAtSplit(s, 0, y + mo + d, h);
    HasAtSplit(s, 0, y + mo, d);
    HasAtSplit(s, 0, y, mo);
    DigitsExactly(s, 0, yearLen, year);
    DigitsExactly(s, yearLen, 2, c.month);
    DigitsExactly(s, yearLen + 2, 2, c.day);
    DigitsExactly(s, yearLen + 4, 2, c.hour);
    DigitsExactly(s, yearLen + 6, 2, c.min);
    DigitsExactly(s, yearLen + 8, 2, c.sec);
  }

  /** Fields that were read are the fields printed at the front of the text. */
  lemma FieldsRead(s: bytes, yearLen: nat)
    requires FieldsAt(s, yearLen).Some?
    ensures var t := FieldsAt(s, yearLen).value; var c := CivilOf(t, 0);
      && TwoDigitFields(c) && t.year < Pow(10, yearLen) && HasAt(s, 0, Stamp(t.year, yearLen, c))
      && t == Scanned(t.year, t.month, t.day, t.hour, t.min, t.sec, false, 0, false)
  {
    hide Decimal, DigitsAt, Stamp, Pow;
    Pow10();
    var t := FieldsAt(s, yearLen).value;
    DigitsExactly(s, 0, yearLen, t.year);
    DigitsExactly(s, yearLen, 2, t.month);
    DigitsExactly(s, yearLen + 2, 2, t.day);
    DigitsExactly(s, yearLen + 4, 2, t.hour);
    DigitsExactly(s, yearLen + 6, 2, t.min);
    DigitsExactly(s, yearLen + 8, 2, t.sec);
    FieldsExactly(s, yearLen, t.year, CivilOf(t, 0));
  }

  lemma ExistsFits(c: Civil)
    requires Exists(c)
    ensures TwoDigitFields(c)
  {
  }

  /** A time without a fraction is read exactly from its stamp followed by Z. */
  lemma PlainExactly(s: bytes, yearLen: nat, year: nat, c: Civil)
    requires TwoDigitFields(c) && year < Pow(10, yearLen)
    ensures ScanTime(s, yearLen, false) ==
            Some(Scanned(year, c.month, c.day, c.hour, c.min, c.sec, false, 0, false)) <==>
            s == Stamp(year, yearLen, c) + [ZULU]
  {
    hide Stamp, FieldsAt;
    FieldsExactly(s, yearLen, year, c);
    var st := Stamp(year, yearLen, c);
    HasAtSplit(s, 0, st, [ZULU]);
    HasAtByte(s, |st|, ZULU);
    assert |s| == |st| + 1 && HasAt(s, 0, st + [ZULU]) ==> s == st + [ZULU];
  }

  lemma PlainRead(s: bytes, yearLen: nat)
    requires ScanTime(s, yearLen, false).Some?
    ensures var t := ScanTime(s, yearLen, false).value; var c := CivilOf(t, 0);
      && TwoDigitFields(c) && t.year < Pow(10, yearLen) && s == Stamp(t.year, yearLen, c) + [ZULU]
      && t == Scanned(t.year, t.month, t.day, t.hour, t.min, t.sec, false, 0, false)
  {
    hide Stamp, FieldsAt, Pow;
    FieldsRead(s, yearLen);
    var t := ScanTime(s, yearLen, false).value;
    PlainExactly(s, yearLen, t.year, CivilOf(t, 0));
  }

  /** readTime accepts a UTCTime exactly when it is the text built from the instant it returns. */
  lemma {:induction false} UtcTimeExactly(s: bytes, t: int)
    ensures ReadUtcTime(s) == Ok(t) <==> UtcTimeString(t) == Ok(s) && t % 1000 == 0
  {
    hide Stamp, ScanTime, FieldsOf, InstantOf, Exists, Pow;
    Pow10();
    InstantOfFields(t);
    var c := FieldsOf(t);
    ExistsFits(c);
    WholeSeconds(t);
    if ReadUtcTime(s) == Ok(t) {
      PlainRead(s, 2);
      var r := ScanTime(s, 2, false).value;
      var read := CivilOf(r, r.year + if r.year < 50 then 2000 else 1900);
      CheckedExactly(read);
      FieldsOfInstant(read);
      SameStamp(r.year, 2, CivilOf(r, 0), read);
    }
    if UtcTimeString(t) == Ok(s) && t % 1000 == 0 {
      PlainExactly(s, 2, c.year % 100, c);
      CheckedExactly(c);
    }
  }

  /** A stamp shows the fields below the year only through their own digits. */
  lemma SameStamp(year: nat, yearLen: nat, c: Civil, d: Civil)
    requires TwoDigitFields(c) && TwoDigitFields(d)
    requires c.month == d.month && c.day == d.day && c.hour == d.hour && c.min == d.min && c.sec == d.sec
    ensures Stamp(year, yearLen, c) == Stamp(year, yearLen, d)
  {
  }

  lemma WholeSeconds(t: int)
    ensures FieldsOf(t).ms == t % 1000
  {
    var time := t % MS_PER_DAY;
    assert t == t / MS_PER_DAY * MS_PER_DAY + time;
    assert time % 1000 == t % 1000;
  }

  // ---------------------------------------------------------------- fractions

  /** The three millisecond digits a run of fraction digits gives, zero where the run is shorter. */
  function FractionMs(f: bytes): (ms: nat)
    requires forall i :: 0 <= i < |f| ==> IsDigit(f[i])
    ensures ms < 1000
  {
    FractionDigit(f, 0, |f|) * 100 + FractionDigit(f, 1, |f|) * 10 + FractionDigit(f, 2, |f|)
  }

  predicate AllDigits(f: bytes) {
    forall i :: 0 <= i < |f| ==> IsDigit(f[i])
  }

  lemma ThreeDigits(a: nat, b: nat, c: nat)
    requires a < 10 && b < 10 && c < 10
    ensures var ms := a * 100 + b * 10 + c;
      ms / 100 == a && ms / 10 % 10 == b && ms % 10 == c
  {
    assert (a * 100 + b * 10 + c) / 10 == a * 10 + b;
  }

  /** Which of the three digits of a number of milliseconds are printed. */
  lemma PrintedDigits(a: nat, b: nat, c: nat)
    requires a < 10 && b < 10 && c < 10 && a * 100 + b * 10 + c > 0
    ensures FractionDigits(a * 100 + b * 10 + c) ==
            if c != 0 then [48 + a, 48 + b, 48 + c] else if b != 0 then [48 + a, 48 + b] else [48 + a]
  {
    hide Decimal;
    ThreeDigits(a, b, c);
    Decimal3(a * 100 + b * 10 + c);
  }

  /** The three digits a short run stands for. */
  lemma RunDigits(f: bytes)
    requires AllDigits(f) && 1 <= |f| <= 3
    ensures forall i :: 0 <= i < 3 ==> FractionDigit(f, i, |f|) == if i < |f| then f[i] - 48 else 0
    ensures forall i :: 0 <= i < |f| ==> 48 <= f[i] <= 57
  {
    assert IsDigit(f[0]) && (|f| > 1 ==> IsDigit(f[1])) && (|f| > 2 ==> IsDigit(f[2]));
  }

  /** A run of at most three digits not ending in zero is the fraction of its milliseconds. */
  lemma FractionPrinted(f: bytes)
    requires AllDigits(f) && 1 <= |f| <= 3 && f[|f| - 1] != 48
    ensures FractionMs(f) > 0 && FractionDigits(FractionMs(f)) == f
  {
    RunDigits(f);
    var a, b, c := FractionDigit(f, 0, |f|), FractionDigit(f, 1, |f|), FractionDigit(f, 2, |f|);
    hide FractionDigit, FractionDigits, AllDigits;
    PrintedDigits(a, b, c);
    if |f| == 1 {
      assert f == [48 + a];
    } else if |f| == 2 {
      assert f == [48 + a, 48 + b];
    } else {
      assert f == [48 + a, 48 + b, 48 + c];
    }
  }

  lemma Decimal3(ms: nat)
    requires ms < 1000
    ensures Decimal(ms, 3) == [48 + ms / 100, 48 + ms / 10 % 10, 48 + ms % 10]
    ensures Decimal(ms / 10, 2) == [48 + ms / 100, 48 + ms / 10 % 10]
    ensures Decimal(ms / 100, 1) == [48 + ms / 100]
  {
    assert ms / 10 / 10 == ms / 100;
    assert Decimal(ms / 100, 1) == Decimal(ms / 100 / 10, 0) + [48 + ms / 100 % 10];
    assert Decimal(ms / 10, 2) == Decimal(ms / 10 / 10, 1) + [48 + ms / 10 % 10];
  }

  /** A printed fraction has digits only, does not end in zero, and names its milliseconds. */
  lemma FractionReads(ms: nat)
    requires 0 < ms < 1000
    ensures var f := FractionDigits(ms);
      AllDigits(f) && f[|f| - 1] != 48 && FractionMs(f) == ms
  {
    Decimal3(ms);
    assert ms == ms / 100 * 100 + ms / 10 % 10 * 10 + ms % 10;
  }

  lemma {:induction false} RunOver(s: bytes, p: nat, end: nat)
    requires p <= end <= |s|
    requires forall i :: p <= i < end ==> IsDigit(s[i])
    requires end < |s| ==> !IsDigit(s[end])
    ensures DigitRun(s, p) == end
    decreases end - p
  {
    if p < end {
      assert IsDigit(s[p]);
      RunOver(s, p + 1, end);
    }
  }

  /** A time with a fraction is its stamp, a point, digits and Z. */
  lemma FractionalText(s: bytes, yearLen: nat, year: nat, c: Civil, f: bytes)
    requires TwoDigitFields(c) && year < Pow(10, yearLen)
    requires AllDigits(f) && f != [] && s == Stamp(year, yearLen, c) + [DOT] + f + [ZULU]
    ensures ScanTime(s, yearLen, true) ==
            Some(Scanned(year, c.month, c.day, c.hour, c.min, c.sec, true, FractionMs(f), f[|f| - 1] == 48))
  {
    hide Stamp, FieldsAt, Pow;
    var st := Stamp(year, yearLen, c);
    var pos := |st|;
    FieldsExactly(s, yearLen, year, c);
    assert s[0..pos] == st && s[pos] == DOT;
    forall i | pos + 1 <= i < pos + 1 + |f| ensures s[i] == f[i - pos - 1] && IsDigit(s[i]) {
      assert IsDigit(f[i - pos - 1]);
    }
    RunOver(s, pos + 1, pos + 1 + |f|);
    assert s[pos + 1 + |f|] == ZULU;
  }

  lemma FractionalRead(s: bytes, yearLen: nat) returns (f: bytes)
    requires ScanTime(s, yearLen, true).Some?
    ensures AllDigits(f) && f != []
    ensures var t := ScanTime(s, yearLen, true).value; var c := CivilOf(t, 0);
      && TwoDigitFields(c) && t.year < Pow(10, yearLen)
      && s == Stamp(t.year, yearLen, c) + [DOT] + f + [ZULU]
      && t == Scanned(t.year, t.month, t.day, t.hour, t.min, t.sec, true, FractionMs(f), f[|f| - 1] == 48)
  {
    hide Stamp, FieldsAt, Pow;
    FieldsRead(s, yearLen);
    var pos := yearLen + 10;
    var end := DigitRun(s, pos + 1);
    f := s[pos + 1..end];
    forall i | 0 <= i < |f| ensures IsDigit(f[i]) {
      assert IsDigit(s[pos + 1 + i]);
    }
    var t := ScanTime(s, yearLen, true).value;
    var plain := FieldsAt(s, yearLen).value;
    SameStamp(t.year, yearLen, CivilOf(plain, 0), CivilOf(t, 0));
    assert s == s[0..pos] + [s[pos]] + f + [s[end]];
  }

  /** A text ends in Z after its seconds or goes on with a point there, so no text is read in both layouts. */
  lemma PlainOrFractional(s: bytes, yearLen: nat)
    ensures ScanTime(s, yearLen, true).Some? ==> ScanTime(s, yearLen, false).None?
  {
    hide FieldsAt;
  }

  /** readTime of a GeneralizedTime without the fractional option: exactly the whole-second texts. */
  lemma {:induction false} GeneralizedTimeExactly(s: bytes, t: int)
    ensures ReadGeneralizedTime(s, false) == Ok(t) <==> GeneralizedTimeString(t, false) == Ok(s) && t % 1000 == 0
  {
    hide Stamp, ScanTime, FieldsOf, InstantOf, Exists, Pow;
    Pow10();
    InstantOfFields(t);
    var c := FieldsOf(t);
    ExistsFits(c);
    WholeSeconds(t);
    if ReadGeneralizedTime(s, false) == Ok(t) {
      PlainRead(s, 4);
      var r := ScanTime(s, 4, false).value;
      var read := CivilOf(r, r.year);
      CheckedExactly(read);
      FieldsOfInstant(read);
      SameStamp(r.year, 4, CivilOf(r, 0), read);
      assert Stamp(c.year, 4, c) + [] + [ZULU] == Stamp(c.year, 4, c) + [ZULU];
    }
    if GeneralizedTimeString(t, false) == Ok(s) && t % 1000 == 0 {
      assert Stamp(c.year, 4, c) + [] + [ZULU] == Stamp(c.year, 4, c) + [ZULU];
      PlainExactly(s, 4, c.year, c);
      CheckedExactly(c);
    }
  }

  /** Building a fractional GeneralizedTime and reading it back gives the same instant, to the millisecond. */
  lemma {:induction false} FractionalBuildRead(t: int)
    requires GeneralizedTimeString(t, true).Ok?
    ensures ReadGeneralizedTime(GeneralizedTimeString(t, true).value, true) == Ok(t)
  {
    hide Stamp, ScanTime, FieldsOf, InstantOf, Pow, FractionDigits, FractionMs;
    Pow10();
    InstantOfFields(t);
    var c := FieldsOf(t);
    ExistsFits(c);
    CheckedExactly(c);
    var s := GeneralizedTimeString(t, true).value;
    if c.ms == 0 {
      assert Stamp(c.year, 4, c) + [] + [ZULU] == Stamp(c.year, 4, c) + [ZULU];
      PlainExactly(s, 4, c.year, c);
    } else {
      FractionReads(c.ms);
      var f := FractionDigits(c.ms);
      assert Stamp(c.year, 4, c) + ([DOT] + f) + [ZULU] == Stamp(c.year, 4, c) + [DOT] + f + [ZULU];
      FractionalText(s, 4, c.year, c, f);
      PlainOrFractional(s, 4);
    }
  }

  /**
   Reading a fractional GeneralizedTime and building it again gives the same octets exactly for fractions of at most
   three digits.
   */
  lemma {:induction false} FractionalReadBuild(s: bytes)
    requires ReadGeneralizedTime(s, true).Ok?
    ensures GeneralizedTimeString(ReadGeneralizedTime(s, true).value, true) == Ok(s) <==> |s| <= 19
  {
    hide Stamp, ScanTime, FieldsOf, InstantOf, Exists, Pow, FractionDigits, FractionMs;
    Pow10();
    var t := ReadGeneralizedTime(s, true).value;
    InstantOfFields(t);
    if ScanTime(s, 4, false).Some? {
      PlainRead(s, 4);
      var r := ScanTime(s, 4, false).value;
      var read := CivilOf(r, r.year);
      CheckedExactly(read);
      FieldsOfInstant(read);
      SameStamp(r.year, 4, CivilOf(r, 0), read);
      assert Stamp(r.year, 4, read) + [] + [ZULU] == Stamp(r.year, 4, read) + [ZULU];
    } else {
      var f := FractionalRead(s, 4);
      var r := ScanTime(s, 4, true).value;
      var read := CivilOf(r, r.year);
      CheckedExactly(read);
      FieldsOfInstant(read);
      SameStamp(r.year, 4, CivilOf(r, 0), read);
      if |f| <= 3 {
        FractionPrinted(f);
        assert Stamp(r.year, 4, read) + ([DOT] + f) + [ZULU] == Stamp(r.year, 4, read) + [DOT] + f + [ZULU];
      }
    }
  }

  lemma ReadYearInRange(s: bytes, t: int)
    requires ReadGeneralizedTime(s, true) == Ok(t)
    ensures 0 <= FieldsOf(t).year <= 9999
  {
    hide Stamp, ScanTime, FieldsOf, InstantOf, Exists, Pow, FractionMs;
    Pow10();
    if ScanTime(s, 4, false).Some? {
      PlainRead(s, 4);
      var read := CivilOf(ScanTime(s, 4, false).value, ScanTime(s, 4, false).value.year);
      CheckedExactly(read);
      FieldsOfInstant(read);
    } else {
      var f := FractionalRead(s, 4);
      var read := CivilOf(ScanTime(s, 4, true).value, ScanTime(s, 4, true).value.year);
      CheckedExactly(read);
      FieldsOfInstant(read);
    }
  }

  /** The text of an existing date and time with the fraction digits f, none when f is empty. */
  ghost predicate Names(s: bytes, c: Civil, f: bytes) {
    && AllDigits(f) && (f != [] ==> f[|f| - 1] != 48) && c.ms == FractionMs(f)
    && Exists(c) && 0 <= c.year <= 9999
    && s == Stamp(c.year, 4, c) + (if f == [] then [] else [DOT] + f) + [ZULU]
  }

  /**
   With the fractional option, the accepted texts are exactly those that name a real instant, and that instant is
   returned.
   */
  lemma {:induction false} GeneralizedTimeAccepted(s: bytes, t: int)
    ensures ReadGeneralizedTime(s, true) == Ok(t) <==> exists c, f :: Names(s, c, f) && t == InstantOf(c)
  {
    hide Stamp, ScanTime, FieldsOf, InstantOf, Exists, Pow;
    Pow10();
    if ReadGeneralizedTime(s, true) == Ok(t) {
      var f: bytes, r := [], Scanned(0, 0, 0, 0, 0, 0, false, 0, false);
      if ScanTime(s, 4, false).Some? {
        PlainRead(s, 4);
        r := ScanTime(s, 4, false).value;
      } else {
        f := FractionalRead(s, 4);
        r := ScanTime(s, 4, true).value;
      }
      var c := CivilOf(r, r.year);
      CheckedExactly(c);
      SameStamp(r.year, 4, CivilOf(r, 0), c);
      var st := Stamp(r.year, 4, c);
      assert st + [] + [ZULU] == st + [ZULU] && st + ([DOT] + f) + [ZULU] == st + [DOT] + f + [ZULU];
      assert Names(s, c, f);
    }
    forall c, f | Names(s, c, f) ensures ReadGeneralizedTime(s, true) == Ok(InstantOf(c)) {
      ExistsFits(c);
      CheckedExactly(c);
      var st := Stamp(c.year, 4, c);
      if f == [] {
        assert st + [] + [ZULU] == st + [ZULU];
        PlainExactly(s, 4, c.year, c);
      } else {
        assert st + ([DOT] + f) + [ZULU] == st + [DOT] + f + [ZULU];
        FractionalText(s, 4, c.year, c, f);
        PlainOrFractional(s, 4);
      }
    }
  }

  /** The instant of a date and time without its milliseconds. */
  lemma WholeSecond(c: Civil)
    requires 0 <= c.ms < 1000
    ensures InstantOf(c.(ms := 0)) == InstantOf(c) - c.ms
  {
    hide YearStart, MonthStart;
  }

  /** A text of more than 19 octets that is read is a stamp, a point, more than three digits and Z. */
  lemma LongRead(s: bytes, t: int) returns (c: Civil, f: bytes)
    requires ReadGeneralizedTime(s, true) == Ok(t) && |s| > 19
    ensures Exists(c) && 0 <= c.year < Pow(10, 4) && t == InstantOf(c)
    ensures AllDigits(f) && |f| > 3 && c.ms == FractionMs(f)
    ensures s == Stamp(c.year, 4, c) + [DOT] + f + [ZULU]
  {
    hide Stamp, ScanTime, FieldsOf, InstantOf, Exists, Pow, FractionMs;
    if ScanTime(s, 4, false).Some? { PlainRead(s, 4); }
    f := FractionalRead(s, 4);
    var r := ScanTime(s, 4, true).value;
    c := CivilOf(r, r.year);
    CheckedExactly(c);
    SameStamp(r.year, 4, CivilOf(r, 0), c);
  }

  /**
   A text with more than three fraction digits that is read is read as the instant of its whole seconds and the
   milliseconds its first three digits name, and the text built from that instant is another text.
   */
  lemma {:induction false} LongFractionTruncated(s: bytes, t: int)
    requires ReadGeneralizedTime(s, true) == Ok(t) && |s| > 19
    ensures ReadGeneralizedTime(s[..14] + [ZULU], false) == Ok(t - t % 1000)
    ensures DigitsAt(s, 15, 3) == Some(t % 1000)
    ensures GeneralizedTimeString(t, true).Ok? && GeneralizedTimeString(t, true).value != s
    ensures ReadGeneralizedTime(GeneralizedTimeString(t, true).value, true) == Ok(t)
  {
    hide ScanTime, FieldsOf, InstantOf, Exists, Stamp, Pow, FractionMs, DigitsAt;
    FractionalReadBuild(s);
    ReadYearInRange(s, t);
    FractionalBuildRead(t);
    var c, f := LongRead(s, t);
    FieldsOfInstant(c);
    WholeSeconds(t);
    WholeSecond(c);
    ExistsFits(c);
    var whole := c.(ms := 0);
    WholeExists(c);
    CheckedExactly(whole);
    assert s[..14] == Stamp(c.year, 4, c);
    PlainExactly(s[..14] + [ZULU], 4, c.year, c);
    FirstThree(s, f, Stamp(c.year, 4, c));
  }

  lemma WholeExists(c: Civil)
    requires Exists(c)
    ensures Exists(c.(ms := 0))
  {
    hide MonthDays;
  }

  lemma FirstThree(s: bytes, f: bytes, stamp: bytes)
    requires |stamp| == 14 && s == stamp + [DOT] + f + [ZULU] && AllDigits(f) && |f| > 3
    ensures DigitsAt(s, 15, 3) == Some(FractionMs(f))
  {
    assert s[15] == f[0] && s[16] == f[1] && s[17] == f[2];
    assert IsDigit(f[0]) && IsDigit(f[1]) && IsDigit(f[2]);
    assert DigitsAt(s, 15, 1) == Some(f[0] - 48);
    assert DigitsAt(s, 15, 2) == Some((f[0] - 48) * 10 + (f[1] - 48));
  }

  /** 2020-01-01 00:00:00.1234 and 2020-01-01 00:00:00.123 */
  const FOUR_DIGITS: bytes :=
    [50, 48, 50, 48, 48, 49, 48, 49, 48, 48, 48, 48, 48, 48, 46, 49, 50, 51, 52, 90]
  const THREE_DIGITS: bytes :=
    [50, 48, 50, 48, 48, 49, 48, 49, 48, 48, 48, 48, 48, 48, 46, 49, 50, 51, 90]

  /** Both texts are accepted, as one instant. */
  lemma LongFractionAccepted()
    ensures ReadGeneralizedTime(FOUR_DIGITS, true) == Ok(1_577_836_800_123)
    ensures ReadGeneralizedTime(THREE_DIGITS, true) == Ok(1_577_836_800_123)
  {
    hide InstantOf, ReadGeneralizedTime, Names, Exists;
    NewYearInstant();
    NewYearNamed();
    GeneralizedTimeAccepted(FOUR_DIGITS, 1_577_836_800_123);
    GeneralizedTimeAccepted(THREE_DIGITS, 1_577_836_800_123);
  }

  const NEW_YEAR := Civil(2020, 1, 1, 0, 0, 0, 123)

  lemma NewYearInstant()
    ensures Exists(NEW_YEAR) && InstantOf(NEW_YEAR) == 1_577_836_800_123
  {
    assert YearStart(2020) == 18262 && MonthStart(2020, 1) == 0;
  }

  lemma NewYearNamed()
    ensures Names(FOUR_DIGITS, NEW_YEAR, [49, 50, 51, 52])
    ensures Names(THREE_DIGITS, NEW_YEAR, [49, 50, 51])
  {
    NewYearInstant();
    NewYearStamp();
    hide Exists, Stamp, InstantOf;
    var f, g: bytes := [49, 50, 51, 52], [49, 50, 51];
    assert FractionMs(f) == 123 && FractionMs(g) == 123;
    var st := Stamp(2020, 4, NEW_YEAR);
    assert FOUR_DIGITS == st + ([DOT] + f) + [ZULU] && THREE_DIGITS == st + ([DOT] + g) + [ZULU];
  }

  lemma NewYearStamp()
    ensures Stamp(2020, 4, NEW_YEAR) == [50, 48, 50, 48, 48, 49, 48, 49, 48, 48, 48, 48, 48, 48]
  {
    DecimalStep(2020, 202, 0, 4);
    DecimalStep(202, 20, 2, 3);
    DecimalTwo(20);
    DecimalTwo(1);
    DecimalTwo(0);
    hide Decimal;
    assert Decimal(2020, 4) == [50, 48, 50, 48] && Decimal(1, 2) == [48, 49] && Decimal(0, 2) == [48, 48];
  }

  lemma DecimalTwo(n: nat)
    requires n < 100
    ensures Decimal(n, 2) == [48 + n / 10, 48 + n % 10]
  {
    assert n / 10 < 10;
    assert Decimal(n / 10, 1) == Decimal(n / 10 / 10, 0) + [48 + n / 10 % 10];
  }

  // ---------------------------------------------------------------- the loops

  method ReadDigits(s: bytes, start: nat, count: nat) returns (r: Option<nat>)
    ensures r == DigitsAt(s, start, count)
  {
    if start + count > |s| { return None; }
    var v: nat := 0;
    for i := 0 to count
      invariant DigitsAt(s, start, i) == Some(v)
    {
      var c := s[start + i];
      if c < 48 || c > 57 {
        NoDigits(s, start, i + 1, count);
        return None;
      }
      v := v * 10 + (c - 48);
    }
    r := Some(v);
  }

  lemma {:induction false} NoDigits(s: bytes, start: nat, i: nat, count: nat)
    requires i <= count && DigitsAt(s, start, i).None?
    ensures DigitsAt(s, start, count).None?
    decreases count
  {
    if i < count { NoDigits(s, start, i, count - 1); }
  }

  /** _scanTimeFields: field after field, then the fraction's digits counted in a loop. */
  method ScanTimeFields(s: bytes, yearLen: nat, allowFrac: bool) returns (r: Option<Scanned>)
    ensures r == ScanTime(s, yearLen, allowFrac)
  {
    hide DigitsAt;
    var pos := 0;
    var year := ReadDigits(s, pos, yearLen);
    if year.None? { return None; }
    pos := pos + yearLen;
    var month := ReadDigits(s, pos, 2);
    if month.None? { return None; }
    pos := pos + 2;
    var day := ReadDigits(s, pos, 2);
    if day.None? { return None; }
    pos := pos + 2;
    var hour := ReadDigits(s, pos, 2);
    if hour.None? { return None; }
    pos := pos + 2;
    var min := ReadDigits(s, pos, 2);
    if min.None? { return None; }
    pos := pos + 2;
    var sec := ReadDigits(s, pos, 2);
    if sec.None? { return None; }
    pos := pos + 2;
    var hasFrac, ms, fracLastIsZero := false, 0, false;
    if allowFrac {
      if pos >= |s| || s[pos] != DOT { return None; }
      pos := pos + 1;
      var from := pos;
      var f0: nat, f1: nat, f2: nat, fi: nat := 0, 0, 0, 0;
      while pos < |s| && IsDigit(s[pos])
        invariant from <= pos <= |s| && fi == pos - from
        invariant forall i :: from <= i < pos ==> IsDigit(s[i])
        invariant f0 == FractionDigit(s, from, pos) && f1 == FractionDigit(s, from + 1, pos)
        invariant f2 == FractionDigit(s, from + 2, pos)
      {
        var c := s[pos];
        if fi == 0 { f0 := c - 48; } else if fi == 1 { f1 := c - 48; } else if fi == 2 { f2 := c - 48; }
        fi := fi + 1;
        pos := pos + 1;
      }
      RunOver(s, from, pos);
      if fi == 0 { return None; }
      hasFrac, fracLastIsZero := true, s[pos - 1] == 48;
      ms := f0 * 100 + f1 * 10 + f2;
    }
    if pos != |s| - 1 || s[pos] != ZULU { return None; }
    r := Some(Scanned(year.value, month.value, day.value, hour.value, min.value, sec.value, hasFrac, ms,
        fracLastIsZero));
  }

  /** The digits left when the zeros at the end are dropped. */
  lemma ZerosDropped(ms: nat, end: nat)
    requires 0 < ms < 1000 && end <= 3
    requires forall i :: end <= i < 3 ==> Decimal(ms, 3)[i] == 48
    requires end > 0 ==> Decimal(ms, 3)[end - 1] != 48
    ensures FractionDigits(ms) == Decimal(ms, 3)[..end]
  {
    var a, b, c := ms / 100, ms / 10 % 10, ms % 10;
    assert ms == a * 100 + b * 10 + c;
    Decimal3(ms);
    PrintedDigits(a, b, c);
    hide Decimal, FractionDigits;
    var digits := Decimal(ms, 3);
    assert digits[2] == 48 + c && digits[1] == 48 + b && digits[0] == 48 + a;
    assert digits[..1] == [48 + a] && digits[..2] == [48 + a, 48 + b] && digits[..3] == digits;
  }

  /** _fractionString: three digits, trailing zeros dropped one by one, the rest copied after the point. */
  method FractionString(ms: nat) returns (r: bytes)
    requires ms < 1000
    ensures r == Fraction(ms)
  {
    if ms == 0 { return []; }
    var digits: bytes := Decimal(ms, 3);
    hide Decimal;
    var end := |digits|;
    while end > 0 && digits[end - 1] == 48
      invariant 0 <= end <= 3
      invariant forall i :: end <= i < 3 ==> digits[i] == 48
    {
      end := end - 1;
    }
    ZerosDropped(ms, end);
    r := [DOT];
    for i := 0 to end
      invariant r == [DOT] + digits[..i]
    {
      r := r + [digits[i]];
    }
  }
}
