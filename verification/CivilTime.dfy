/** Civil dates and RFC 3339 timestamps to epoch time, as the quota headers read them. */
module CivilTime {
  import opened Machine
  import opened Utf8
  import opened Digits

  // ----- The proleptic Gregorian calendar -----

  predicate Leap(year: int) {
    year % 4 == 0 && (year % 100 != 0 || year % 400 == 0)
  }

  function DaysInMonth(year: int, month: int): int {
    if month == 2 then (if Leap(year) then 29 else 28)
    else if month == 4 || month == 6 || month == 9 || month == 11 then 30
    else 31
  }

  datatype Date = Date(year: int, month: int, day: int) {
    predicate Valid() {
      1 <= month <= 12 && 1 <= day <= DaysInMonth(year, month)
    }

    function Next(): Date {
      if day < DaysInMonth(year, month) then Date(year, month, day + 1)
      else if month < 12 then Date(year, month + 1, 1)
      else Date(year + 1, 1, 1)
    }

    predicate Before(that: Date) {
      || year < that.year
      || (year == that.year && month < that.month)
      || (year == that.year && month == that.month && day < that.day)
    }
  }

  // ----- The conversion -----

  /** Rust's `/` on signed integers drops the fraction toward zero. */
  function TruncDiv(a: int, b: int): int
    requires b >= 1
  {
    if a >= 0 then a / b else -((-a) / b)
  }

  function DaysFromCivil(date: Date): int {
    var y := if date.month <= 2 then date.year - 1 else date.year;
    var era := TruncDiv(if y >= 0 then y else y - 399, 400);
    var yoe := y - era * 400;
    var mp := if date.month > 2 then date.month - 3 else date.month + 9;
    var doy := TruncDiv(153 * mp + 2, 5) + date.day - 1;
    var doe := yoe * 365 + TruncDiv(yoe, 4) - TruncDiv(yoe, 100) + doy;
    era * 146_097 + doe - 719_468
  }

  /** The shifted truncating division is floor division, for negative years too. */
  lemma EraIsFloor(y: int)
    ensures TruncDiv(if y >= 0 then y else y - 399, 400) == y / 400
  {
  }

  /** Days before 1 March of year `y`, counted from 1 March of year 0. */
  function MarchStart(y: int): int {
    365 * y + y / 4 - y / 100 + y / 400
  }

  function DaysBeforeMonth(mp: int): int {
    (153 * mp + 2) / 5
  }

  /** The year, counted from March, a date belongs to, and its month in that year. */
  function MarchYear(date: Date): int {
    if date.month <= 2 then date.year - 1 else date.year
  }

  function MarchMonth(date: Date): int {
    if date.month <= 2 then date.month + 9 else date.month - 3
  }

  lemma ClosedForm(date: Date)
    requires 1 <= date.month <= 12
    ensures DaysFromCivil(date) ==
      MarchStart(MarchYear(date)) + DaysBeforeMonth(MarchMonth(date)) + date.day - 719_469
  {
    var y := MarchYear(date);
    EraIsFloor(y);
    var era, yoe := y / 400, y - y / 400 * 400;
    assert 0 <= yoe < 400;
    assert y / 4 == era * 100 + yoe / 4;
    assert y / 100 == era * 4 + yoe / 100;
  }

  lemma QuotientStep(y: int, k: int)
    requires k == 4 || k == 100 || k == 400
    ensures (y + 1) / k == y / k + (if (y + 1) % k == 0 then 1 else 0)
  {
  }

  lemma MarchStep(y: int)
    ensures MarchStart(y + 1) - MarchStart(y) == (if Leap(y + 1) then 366 else 365)
  {
    QuotientStep(y, 4);
    QuotientStep(y, 100);
    QuotientStep(y, 400);
    CenturiesNest(y + 1);
  }

  lemma CenturiesNest(y: int)
    ensures y % 400 == 0 ==> y % 100 == 0
    ensures y % 100 == 0 ==> y % 4 == 0
  {
  }

  /** One day later within the closed form; `start` and `later` are the March years' starts. */
  lemma OneDayLater(date: Date, start: int, later: int)
    requires date.Valid()
    requires later == start + (if date.month == 2 && date.Next().month == 3
                               then (if Leap(date.year) then 366 else 365) else 0)
    ensures later + DaysBeforeMonth(MarchMonth(date.Next())) + date.Next().day
         == start + DaysBeforeMonth(MarchMonth(date)) + date.day + 1
  {
    assert DaysBeforeMonth(0) == 0 && DaysBeforeMonth(1) == 31 && DaysBeforeMonth(2) == 61 && DaysBeforeMonth(3) == 92;
    assert DaysBeforeMonth(4) == 122 && DaysBeforeMonth(5) == 153 && DaysBeforeMonth(6) == 184;
    assert DaysBeforeMonth(7) == 214 && DaysBeforeMonth(8) == 245 && DaysBeforeMonth(9) == 275;
    assert DaysBeforeMonth(10) == 306 && DaysBeforeMonth(11) == 337;
  }

  /** A March year turns exactly between the last of February and the first of March. */
  lemma MarchYearTurns(date: Date)
    requires date.Valid()
    ensures MarchStart(MarchYear(date.Next())) == MarchStart(MarchYear(date))
      + (if date.month == 2 && date.Next().month == 3 then (if Leap(date.year) then 366 else 365) else 0)
  {
    if date.month == 2 && date.Next().month == 3 {
      MarchStep(date.year - 1);
    } else {
      assert MarchYear(date.Next()) == MarchYear(date);
    }
  }

  /** The next calendar date is always exactly one day later. */
  lemma CountsDays(date: Date)
    requires date.Valid()
    ensures date.Next().Valid()
    ensures DaysFromCivil(date.Next()) == DaysFromCivil(date) + 1
  {
    ClosedForm(date);
    ClosedForm(date.Next());
    MarchYearTurns(date);
    OneDayLater(date, MarchStart(MarchYear(date)), MarchStart(MarchYear(date.Next())));
  }

  lemma EpochIsDayZero()
    ensures DaysFromCivil(Date(1970, 1, 1)) == 0
  {
  }

  // ----- Order and uniqueness -----

  /** Months counted from January of year 0. */
  function MonthNumber(date: Date): int {
    date.year * 12 + date.month - 1
  }

  lemma {:induction false} MonthsInOrder(a: Date, b: Date)
    requires a.Valid() && b.Valid() && a.day == 1 && b.day == 1
    requires MonthNumber(a) <= MonthNumber(b)
    ensures DaysFromCivil(a) <= DaysFromCivil(b)
    ensures MonthNumber(a) < MonthNumber(b) ==>
      DaysFromCivil(a) + DaysInMonth(a.year, a.month) <= DaysFromCivil(b)
    decreases MonthNumber(b) - MonthNumber(a)
  {
    if MonthNumber(a) == MonthNumber(b) {
      assert a == b;
    } else {
      var next := NextMonth(a);
      MonthsInOrder(next, b);
    }
  }

  /** The first day of the next month follows the whole of this one. */
  lemma NextMonth(a: Date) returns (next: Date)
    requires a.Valid() && a.day == 1
    ensures next.Valid() && next.day == 1 && MonthNumber(next) == MonthNumber(a) + 1
    ensures DaysFromCivil(next) == DaysFromCivil(a) + DaysInMonth(a.year, a.month)
  {
    var last := Date(a.year, a.month, DaysInMonth(a.year, a.month));
    next := last.Next();
    DayOfMonth(last);
    CountsDays(last);
  }

  lemma DayOfMonth(date: Date)
    requires 1 <= date.month <= 12
    ensures DaysFromCivil(date) == DaysFromCivil(Date(date.year, date.month, 1)) + date.day - 1
  {
    ClosedForm(date);
    ClosedForm(Date(date.year, date.month, 1));
  }

  /** Later dates have larger day numbers. */
  lemma StrictlyIncreasing(a: Date, b: Date)
    requires a.Valid() && b.Valid() && a.Before(b)
    ensures DaysFromCivil(a) < DaysFromCivil(b)
  {
    DayOfMonth(a);
    DayOfMonth(b);
    var x, y := Date(a.year, a.month, 1), Date(b.year, b.month, 1);
    if MonthNumber(x) < MonthNumber(y) {
      MonthsInOrder(x, y);
    }
  }

  lemma SameDaySameDate(a: Date, b: Date)
    requires a.Valid() && b.Valid() && DaysFromCivil(a) == DaysFromCivil(b)
    ensures a == b
  {
    if a.Before(b) {
      StrictlyIncreasing(a, b);
    } else if b.Before(a) {
      StrictlyIncreasing(b, a);
    }
  }

  lemma {:induction false} SomeDate(n: int) returns (date: Date)
    ensures date.Valid() && DaysFromCivil(date) == n
    decreases if n >= 0 then n else -n
  {
    if n == 0 {
      date := Date(1970, 1, 1);
    } else if n > 0 {
      var before := SomeDate(n - 1);
      CountsDays(before);
      date := before.Next();
    } else {
      var after := SomeDate(n + 1);
      date := Previous(after);
      CountsDays(date);
    }
  }

  /** Every integer is the day number of one valid date. */
  lemma EveryDayHasOneDate(n: int) returns (date: Date)
    ensures date.Valid() && DaysFromCivil(date) == n
    ensures forall other: Date :: other.Valid() && DaysFromCivil(other) == n ==> other == date
  {
    date := SomeDate(n);
    forall other: Date | other.Valid() && DaysFromCivil(other) == n
      ensures other == date
    {
      SameDaySameDate(other, date);
    }
  }

  lemma Previous(date: Date) returns (p: Date)
    requires date.Valid()
    ensures p.Valid() && p.Next() == date
  {
    if date.day > 1 {
      p := Date(date.year, date.month, date.day - 1);
    } else if date.month > 1 {
      p := Date(date.year, date.month - 1, DaysInMonth(date.year, date.month - 1));
    } else {
      p := Date(date.year - 1, 12, 31);
    }
  }

  // ----- Reading a timestamp -----

  const I64_MIN: int := -0x8000_0000_0000_0000

  function Field(value: Bytes, from: nat, to: nat): Option<int>
    requires from <= to <= |value|
  {
    ParseSigned(value[from..to], I64_MIN, I64_MAX)
  }

  /** Only the six fields are looked at: what stands between them and after them is ignored. */
  function ParseRfc3339Ms(value: Bytes): Option<U64> {
    if |value| < 19 then None
    else
      match (Field(value, 0, 4), Field(value, 5, 7), Field(value, 8, 10),
             Field(value, 11, 13), Field(value, 14, 16), Field(value, 17, 19))
      case (Some(year), Some(month), Some(day), Some(hour), Some(minute), Some(second)) =>
        FromFields(Date(year, month, day), hour, minute, second)
      case _ => None
  }

  function SecondsAt(date: Date, hour: int, minute: int, second: int): int {
    DaysFromCivil(date) * 86_400 + hour * 3_600 + minute * 60 + second
  }

  function FromFields(date: Date, hour: int, minute: int, second: int): Option<U64> {
    if !(1 <= date.month <= 12) || !(1 <= date.day <= 31) || hour > 23 || minute > 59 || second > 60 then None
    else
      var secs := SecondsAt(date, hour, minute, second);
      if secs < 0 || secs * 1_000 > U64_MAX then None else Some(secs * 1_000)
  }

  // ----- Which texts are read, and as what -----

  /** The digits of a field after at most one sign. */
  function Magnitude(field: Bytes): Bytes {
    if field != [] && (field[0] == PLUS || field[0] == MINUS) then field[1..] else field
  }

  predicate Numeric(field: Bytes) {
    Magnitude(field) != [] && AllDigits(Magnitude(field))
  }

  function Number(field: Bytes): int
    requires Numeric(field)
  {
    var magnitude: int := DigitsValue(Magnitude(field));
    if field[0] == MINUS then -magnitude else magnitude
  }

  lemma {:induction false} ShortNumbers(digits: Bytes)
    requires AllDigits(digits)
    ensures DigitsValue(digits) < Pow10(|digits|)
  {
    if digits != [] {
      ShortNumbers(digits[..|digits| - 1]);
    }
  }

  /** A field of at most four bytes is read exactly when it is digits after at most one sign. */
  lemma FieldReads(field: Bytes)
    requires |field| <= 4
    ensures ParseSigned(field, I64_MIN, I64_MAX) == if Numeric(field) then Some(Number(field)) else None
    ensures Numeric(field) ==> -10_000 < Number(field) < 10_000
  {
    if Numeric(field) {
      ShortNumbers(Magnitude(field));
      FourPlaces(|Magnitude(field)|);
    }
  }

  lemma FourPlaces(n: nat)
    requires n <= 4
    ensures Pow10(n) <= 10_000
  {
    assert Pow10(0) == 1 && Pow10(1) == 10 && Pow10(2) == 100 && Pow10(3) == 1_000 && Pow10(4) == 10_000;
  }

  /** The six fields of a text of at least 19 bytes. */
  predicate SixNumbers(v: Bytes) {
    && |v| >= 19
    && Numeric(v[0..4]) && Numeric(v[5..7]) && Numeric(v[8..10])
    && Numeric(v[11..13]) && Numeric(v[14..16]) && Numeric(v[17..19])
  }

  function DateOf(v: Bytes): Date
    requires SixNumbers(v)
  {
    Date(Number(v[0..4]), Number(v[5..7]), Number(v[8..10]))
  }

  function SecondsOf(v: Bytes): int
    requires SixNumbers(v)
  {
    SecondsAt(DateOf(v), Number(v[11..13]), Number(v[14..16]), Number(v[17..19]))
  }

  /** The only ranges the parser checks: upper bounds, and a month and a day of at least 1. */
  predicate InRange(v: Bytes)
    requires SixNumbers(v)
  {
    && 1 <= DateOf(v).month <= 12 && 1 <= DateOf(v).day <= 31
    && Number(v[11..13]) <= 23 && Number(v[14..16]) <= 59 && Number(v[17..19]) <= 60
  }

  lemma YearsAreSmall(date: Date)
    requires -10_000 < date.year < 10_000 && 1 <= date.month <= 12 && date.day <= 31
    ensures DaysFromCivil(date) <= 4_000_000
  {
    ClosedForm(date);
  }

  lemma FieldsFit(date: Date, hour: int, minute: int, second: int)
    requires -10_000 < date.year < 10_000 && 1 <= date.month <= 12 && 1 <= date.day <= 31
    requires hour <= 23 && minute <= 59 && second <= 60
    ensures FromFields(date, hour, minute, second) == Milliseconds(SecondsAt(date, hour, minute, second))
  {
    YearsAreSmall(date);
  }

  /** Seconds since the epoch as milliseconds; there is nothing before the epoch. */
  function Milliseconds(secs: int): Option<int> {
    if secs >= 0 then Some(secs * 1_000) else None
  }

  /** Exactly which texts are read, and as what: six fields of digits, each after at most one sign,
      within the ranges checked, that do not count back beyond the epoch. */
  lemma ReadsExactly(v: Bytes)
    ensures ParseRfc3339Ms(v) == if SixNumbers(v) && InRange(v) then Milliseconds(SecondsOf(v)) else None
  {
    if |v| >= 19 {
      FieldReads(v[0..4]);
      FieldReads(v[5..7]);
      FieldReads(v[8..10]);
      FieldReads(v[11..13]);
      FieldReads(v[14..16]);
      FieldReads(v[17..19]);
      if SixNumbers(v) && InRange(v) {
        FieldsFit(DateOf(v), Number(v[11..13]), Number(v[14..16]), Number(v[17..19]));
      }
    }
  }

  /** A day its month does not have is read as that many days into the next month. */
  lemma MissingDaysRollOver(year: int, month: int, day: int)
    requires 1 <= month <= 12 && DaysInMonth(year, month) < day <= 31
    ensures var next := Date(year, month, DaysInMonth(year, month)).Next();
      next.day == 1 && Date(next.year, next.month, day - DaysInMonth(year, month)).Valid()
      && DaysFromCivil(Date(year, month, day))
         == DaysFromCivil(Date(next.year, next.month, day - DaysInMonth(year, month)))
  {
    var last := Date(year, month, DaysInMonth(year, month));
    var rolled := Date(last.Next().year, last.Next().month, day - DaysInMonth(year, month));
    CountsDays(last);
    DayOfMonth(last);
    DayOfMonth(Date(year, month, day));
    DayOfMonth(rolled);
    FirstIsNext(last);
  }

  lemma FirstIsNext(last: Date)
    requires last.Valid() && last.day == DaysInMonth(last.year, last.month)
    ensures last.Next() == Date(last.Next().year, last.Next().month, 1)
    ensures 28 <= DaysInMonth(last.Next().year, last.Next().month) && 28 <= last.day <= 31
  {
  }

  // ----- Date-times of section 5.6 of RFC 3339 -----

  datatype Time = Time(hour: nat, minute: nat, second: nat) {
    predicate Valid() {
      hour <= 23 && minute <= 59 && second <= 60
    }

    predicate Earlier(that: Time) {
      || hour < that.hour
      || (hour == that.hour && minute < that.minute)
      || (hour == that.hour && minute == that.minute && second < that.second)
    }
  }

  const DASH: Byte := 0x2D
  const COLON: Byte := 0x3A
  const POINT: Byte := 0x2E
  const UPPER_T: Byte := 0x54
  const LOWER_T: Byte := 0x74
  const UPPER_Z: Byte := 0x5A
  const LOWER_Z: Byte := 0x7A

  /** The offset of a local time from UTC. */
  datatype Offset = Zulu(lower: bool) | Numbered(ahead: bool, hour: nat, minute: nat) {
    predicate Valid() {
      Numbered? ==> hour <= 23 && minute <= 59
    }

    function Text(): Bytes {
      match this
      case Zulu(lower) => [if lower then LOWER_Z else UPPER_Z]
      case Numbered(ahead, hour, minute) =>
        [if ahead then PLUS else MINUS] + Padded(hour, 2) + [COLON] + Padded(minute, 2)
    }

    function Seconds(): int {
      match this
      case Zulu(_) => 0
      case Numbered(ahead, hour, minute) => (if ahead then 1 else -1) * (hour * 3_600 + minute * 60)
    }
  }

  function EpochSeconds(date: Date, time: Time): int {
    SecondsAt(date, time.hour, time.minute, time.second)
  }

  /** The first 19 bytes of a date-time. */
  function Head(date: Date, time: Time, t: Byte): Bytes
    requires 0 <= date.year <= 9999 && date.Valid() && time.Valid()
  {
    Padded(date.year, 4) + [DASH] + Padded(date.month, 2) + [DASH] + Padded(date.day, 2) + [t]
    + Padded(time.hour, 2) + [COLON] + Padded(time.minute, 2) + [COLON] + Padded(time.second, 2)
  }

  /** A date-time: a local date and time, a fraction of a second and an offset. */
  datatype DateTime = DateTime(date: Date, time: Time, lowerT: bool, fraction: Bytes, offset: Offset) {
    predicate Valid() {
      && 0 <= date.year <= 9999 && date.Valid() && time.Valid()
      && AllDigits(fraction) && offset.Valid()
    }

    function Suffix(): Bytes {
      (if fraction == [] then [] else [POINT] + fraction) + offset.Text()
    }

    function Text(): Bytes
      requires Valid()
    {
      Head(date, time, if lowerT then LOWER_T else UPPER_T) + Suffix()
    }

    /** Its local time read as UTC, in whole seconds since the epoch. */
    function Local(): int {
      EpochSeconds(date, time)
    }

    /** The instant it names. */
    function Instant(): int {
      Local() - offset.Seconds()
    }
  }

  // ----- Fields and their digits -----

  lemma {:induction false} PaddedOfValue(f: Bytes)
    requires AllDigits(f)
    ensures Padded(DigitsValue(f), |f|) == f
  {
    if f != [] {
      var front, last := f[..|f| - 1], f[|f| - 1];
      PaddedOfValue(front);
      assert DigitsValue(f) / 10 == DigitsValue(front) && DigitsValue(f) % 10 == last - ZERO;
    }
  }

  lemma PaddedIsNumber(n: nat, k: nat)
    requires (k == 2 && n < 100) || (k == 4 && n < 10_000)
    ensures Numeric(Padded(n, k)) && Number(Padded(n, k)) == n
    ensures Magnitude(Padded(n, k)) == Padded(n, k)
  {
    assert Pow10(2) == 100 && Pow10(4) == 10_000;
    ValueOfPadded([], n, k);
    assert [] + Padded(n, k) == Padded(n, k);
    assert IsDigit(Padded(n, k)[0]);
  }

  lemma SlicesOfHead(date: Date, time: Time, t: Byte, v: Bytes)
    requires 0 <= date.year <= 9999 && date.Valid() && time.Valid()
    requires |v| >= 19 && v[..19] == Head(date, time, t)
    ensures v[0..4] == Padded(date.year, 4) && v[5..7] == Padded(date.month, 2) && v[8..10] == Padded(date.day, 2)
    ensures v[11..13] == Padded(time.hour, 2) && v[14..16] == Padded(time.minute, 2)
    ensures v[17..19] == Padded(time.second, 2)
    ensures v[4] == DASH && v[7] == DASH && v[10] == t && v[13] == COLON && v[16] == COLON
  {
    var h := v[..19];
    assert v[0..4] == h[0..4] && v[5..7] == h[5..7] && v[8..10] == h[8..10];
    assert v[11..13] == h[11..13] && v[14..16] == h[14..16] && v[17..19] == h[17..19];
    assert v[4] == h[4] && v[7] == h[7] && v[10] == h[10] && v[13] == h[13] && v[16] == h[16];
  }

  lemma HeadOfSlices(v: Bytes, y: Bytes, mo: Bytes, d: Bytes, h: Bytes, mi: Bytes, s: Bytes)
    requires |v| >= 19 && y == v[0..4] && mo == v[5..7] && d == v[8..10]
    requires h == v[11..13] && mi == v[14..16] && s == v[17..19]
    requires v[4] == DASH && v[7] == DASH && v[13] == COLON && v[16] == COLON
    ensures v[..19] == y + [DASH] + mo + [DASH] + d + [v[10]] + h + [COLON] + mi + [COLON] + s
  {
  }

  lemma HeadFields(date: Date, time: Time, t: Byte, v: Bytes)
    requires 0 <= date.year <= 9999 && date.Valid() && time.Valid()
    requires |v| >= 19 && v[..19] == Head(date, time, t)
    ensures SixNumbers(v) && DateOf(v) == date && InRange(v)
    ensures Number(v[11..13]) == time.hour && Number(v[14..16]) == time.minute && Number(v[17..19]) == time.second
    ensures PlainFields(v) && v[4] == DASH && v[7] == DASH && v[10] == t && v[13] == COLON && v[16] == COLON
  {
    SlicesOfHead(date, time, t, v);
    PaddedIsNumber(date.year, 4);
    PaddedIsNumber(date.month, 2);
    PaddedIsNumber(date.day, 2);
    PaddedIsNumber(time.hour, 2);
    PaddedIsNumber(time.minute, 2);
    PaddedIsNumber(time.second, 2);
  }

  /** No field carries a sign. */
  predicate PlainFields(v: Bytes)
    requires |v| >= 19
  {
    && AllDigits(v[0..4]) && AllDigits(v[5..7]) && AllDigits(v[8..10])
    && AllDigits(v[11..13]) && AllDigits(v[14..16]) && AllDigits(v[17..19])
  }

  predicate RightSeparators(v: Bytes)
    requires |v| >= 19
  {
    && v[4] == DASH && v[7] == DASH && (v[10] == UPPER_T || v[10] == LOWER_T)
    && v[13] == COLON && v[16] == COLON
  }

  /** The text starts like the date-time of this date and time. */
  predicate Names(v: Bytes, date: Date, time: Time) {
    && 0 <= date.year <= 9999 && date.Valid() && time.Valid() && |v| >= 19
    && (v[..19] == Head(date, time, UPPER_T) || v[..19] == Head(date, time, LOWER_T))
  }

  // ----- When a text that is read is a date-time -----

  /** Every text that starts like a date-time is read as the second its fields name, taken as UTC;
      instants before the epoch are declined. */
  lemma ReadsDateTimes(v: Bytes, date: Date, time: Time)
    requires Names(v, date, time)
    ensures ParseRfc3339Ms(v) == Milliseconds(EpochSeconds(date, time))
  {
    HeadFields(date, time, if v[..19] == Head(date, time, UPPER_T) then UPPER_T else LOWER_T, v);
    ReadsExactly(v);
  }

  lemma PlainNumber(field: Bytes)
    requires field != [] && AllDigits(field)
    ensures Numeric(field) && Number(field) >= 0 && Padded(Number(field), |field|) == field
  {
    assert IsDigit(field[0]);
    PaddedOfValue(field);
  }

  lemma PlainYear(field: Bytes)
    requires |field| == 4 && AllDigits(field)
    ensures Numeric(field) && 0 <= Number(field) <= 9999
  {
    PlainNumber(field);
    ShortNumbers(field);
    FourPlaces(4);
  }

  lemma PlainHead(v: Bytes, date: Date, time: Time)
    requires SixNumbers(v) && PlainFields(v) && RightSeparators(v)
    requires 0 <= date.year <= 9999 && date.Valid() && time.Valid() && date == DateOf(v)
    requires time.hour == Number(v[11..13]) && time.minute == Number(v[14..16]) && time.second == Number(v[17..19])
    ensures v[..19] == Head(date, time, v[10])
  {
    PlainNumber(v[0..4]);
    PlainNumber(v[5..7]);
    PlainNumber(v[8..10]);
    PlainNumber(v[11..13]);
    PlainNumber(v[14..16]);
    PlainNumber(v[17..19]);
    HeadOfSlices(v, v[0..4], v[5..7], v[8..10], v[11..13], v[14..16], v[17..19]);
  }

  lemma PlainIsNamed(v: Bytes) returns (time: Time)
    requires SixNumbers(v) && InRange(v) && PlainFields(v) && RightSeparators(v)
    requires DateOf(v).day <= DaysInMonth(DateOf(v).year, DateOf(v).month)
    ensures Names(v, DateOf(v), time)
  {
    PlainYear(v[0..4]);
    PlainNumber(v[11..13]);
    PlainNumber(v[14..16]);
    PlainNumber(v[17..19]);
    time := Time(Number(v[11..13]), Number(v[14..16]), Number(v[17..19]));
    PlainHead(v, DateOf(v), time);
  }

  /** A text that is read starts like a date-time, and so is read as the instant it names in UTC,
      exactly when no field carries a sign, the separators are right and the day exists in its month. */
  lemma DateTimeExactly(v: Bytes)
    requires ParseRfc3339Ms(v).Some?
    ensures SixNumbers(v)
    ensures (exists date, time :: Names(v, date, time)) <==>
      && PlainFields(v) && RightSeparators(v)
      && DateOf(v).day <= DaysInMonth(DateOf(v).year, DateOf(v).month)
  {
    ReadsExactly(v);
    forall date, time | Names(v, date, time)
      ensures PlainFields(v) && RightSeparators(v) && DateOf(v) == date
    {
      HeadFields(date, time, if v[..19] == Head(date, time, UPPER_T) then UPPER_T else LOWER_T, v);
    }
    if PlainFields(v) && RightSeparators(v) && DateOf(v).day <= DaysInMonth(DateOf(v).year, DateOf(v).month) {
      var time := PlainIsNamed(v);
    }
  }

  lemma Leading(head: Bytes, suffix: Bytes)
    ensures (head + suffix)[..|head|] == head
  {
  }

  lemma TextIsNamed(d: DateTime)
    requires d.Valid()
    ensures Names(d.Text(), d.date, d.time)
  {
    Leading(Head(d.date, d.time, if d.lowerT then LOWER_T else UPPER_T), d.Suffix());
  }

  lemma ReadsLocal(v: Bytes, d: DateTime)
    requires Names(v, d.date, d.time)
    ensures ParseRfc3339Ms(v) == Milliseconds(d.Local())
  {
    ReadsDateTimes(v, d.date, d.time);
  }

  /** A complete date-time is read as its local time: off the instant it names by its offset. */
  lemma ReadsLocalTime(d: DateTime)
    requires d.Valid()
    ensures ParseRfc3339Ms(d.Text()) == Milliseconds(d.Local())
    ensures d.Local() == d.Instant() + d.offset.Seconds()
  {
    TextIsNamed(d);
    ReadsLocal(d.Text(), d);
  }

  lemma SameMilliseconds(x: int, y: int)
    ensures Milliseconds(x) == Milliseconds(y) <==> x == y || (x < 0 && y < 0)
  {
  }

  /** So a date-time is read as the very second it names if and only if its offset is zero, or both
      the instant and its local time are declined as before the epoch. */
  lemma ReadsInstantExactly(d: DateTime)
    requires d.Valid()
    ensures ParseRfc3339Ms(d.Text()) == Milliseconds(d.Instant()) <==>
      d.offset.Seconds() == 0 || (d.Instant() < 0 && d.Local() < 0)
  {
    ReadsLocalTime(d);
    SameMilliseconds(d.Local(), d.Instant());
  }

  // ----- Order of instants -----

  /** Later fields read as strictly larger times, leap seconds aside. */
  lemma InstantsInOrder(a: Date, s: Time, b: Date, t: Time)
    requires a.Valid() && b.Valid() && s.Valid() && t.Valid() && s.second <= 59
    requires a.Before(b) || (a == b && s.Earlier(t))
    ensures EpochSeconds(a, s) < EpochSeconds(b, t)
  {
    if a.Before(b) {
      StrictlyIncreasing(a, b);
    }
  }

  /** The instant one second later, leap seconds aside. */
  function NextInstant(date: Date, time: Time): (Date, Time)
    requires time.Valid() && time.second <= 59
  {
    if time.second < 59 then (date, time.(second := time.second + 1))
    else if time.minute < 59 then (date, Time(time.hour, time.minute + 1, 0))
    else if time.hour < 23 then (date, Time(time.hour + 1, 0, 0))
    else (date.Next(), Time(0, 0, 0))
  }

  /** The reading counts seconds: the next instant is always exactly one more, from 0 at the epoch. */
  lemma CountsSeconds(date: Date, time: Time)
    requires date.Valid() && time.Valid() && time.second <= 59
    ensures var (later, next) := NextInstant(date, time);
      later.Valid() && next.Valid() && EpochSeconds(later, next) == EpochSeconds(date, time) + 1
    ensures EpochSeconds(Date(1970, 1, 1), Time(0, 0, 0)) == 0
  {
    CountsDays(date);
    EpochIsDayZero();
  }
}
