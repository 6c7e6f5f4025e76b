/**
  Registration timestamps (`current_timestamp` and `days_to_date` in
  snix-redox/src/pathinfo.rs): a closed-form conversion of day counts to Gregorian dates.

  The closed form splits days into eras of 400 years, years that begin on 1 March, and months. Each
  split inverts the start of its parts, and going one day further is the next-day rule.
 */
module Calendar {

  datatype Date = Date(year: nat, month: nat, day: nat)

  // ----- The calendar, one day at a time -----

  /** Leap-year rule of Appendix C of RFC 3339. */
  predicate IsLeap(year: nat) {
    year % 4 == 0 && (year % 100 != 0 || year % 400 == 0)
  }

  /** Month lengths of section 5.7 of RFC 3339. */
  function DaysInMonth(year: nat, month: nat): nat {
    if month == 2 then (if IsLeap(year) then 29 else 28)
    else if month == 4 || month == 6 || month == 9 || month == 11 then 30
    else 31
  }

  predicate ValidDate(d: Date) {
    1 <= d.month <= 12 && 1 <= d.day <= DaysInMonth(d.year, d.month)
  }

  function NextDay(d: Date): Date {
    if d.day < DaysInMonth(d.year, d.month) then Date(d.year, d.month, d.day + 1)
    else if d.month < 12 then Date(d.year, d.month + 1, 1)
    else Date(d.year + 1, 1, 1)
  }

  const EPOCH := Date(1970, 1, 1)

  /** The date `n` days after the epoch, counted one by one. */
  function NthDay(n: nat): Date {
    if n == 0 then EPOCH else NextDay(NthDay(n - 1))
  }

  // ----- The closed form -----

  /** Years of an era run from 1 March; `Split` finds the year of era for a day of era. */
  function YearOfEra(doe: nat): int {
    (doe - doe / 1460 + doe / 36524 - doe / 146096) / 365
  }

  function YearStart(yoe: int): int {
    365 * yoe + yoe / 4 - yoe / 100
  }

  function MonthStart(mp: int): int {
    (153 * mp + 2) / 5
  }

  /** The date of day `doy` (from 1 March) of year `y` (from March). */
  function DateOf(y: nat, doy: nat): (d: Date)
    requires doy <= 365
  {
    DateIn(y, (5 * doy + 2) / 153, doy)
  }

  /** The date of day `doy` when it is known to lie in month `mp` (counted from March). */
  function DateIn(y: nat, mp: nat, doy: nat): Date
    requires mp <= 11 && MonthStart(mp) <= doy
  {
    var day := doy - MonthStart(mp) + 1;
    var month := if mp < 10 then mp + 3 else mp - 9;
    Date(if month <= 2 then y + 1 else y, month, day)
  }

  // ----- Year of era -----

  /** Does the March-based year of era `yoe` end with 29 February? */
  predicate LeapEnd(yoe: int) {
    (yoe + 1) % 4 == 0 && ((yoe + 1) % 100 != 0 || (yoe + 1) % 400 == 0)
  }

  function YearLength(yoe: int): int {
    if LeapEnd(yoe) then 366 else 365
  }

  /** Within an era the starts of years are a year length apart. */
  lemma YearStartStep(yoe: int)
    requires 0 <= yoe <= 399
    ensures YearStart(yoe) + YearLength(yoe) == if yoe < 399 then YearStart(yoe + 1) else 146097
  {
    assert (yoe + 1) / 4 == yoe / 4 + (if (yoe + 1) % 4 == 0 then 1 else 0);
    assert (yoe + 1) / 100 == yoe / 100 + (if (yoe + 1) % 100 == 0 then 1 else 0);
    assert (yoe + 1) % 100 == 0 ==> (yoe + 1) % 4 == 0;
    assert (yoe + 1) % 400 == 0 <==> yoe == 399;
  }

  /** The closed form inverts the start of years. */
  lemma YearOfEraInverse(yoe: int, doy: int)
    requires 0 <= yoe <= 399 && 0 <= doy < YearLength(yoe)
    ensures YearStart(yoe) + doy >= 0 && YearOfEra(YearStart(yoe) + doy) == yoe
  {
    var c, q, r := yoe / 100, yoe % 100 / 4, yoe % 4;
    assert yoe == 100 * c + 4 * q + r && yoe / 4 == 25 * c + q;
    assert YearStart(yoe) + doy == 36524 * c + 1461 * q + 365 * r + doy;
    if doy == 365 {
      assert LeapEnd(yoe) && r == 3;
      assert q == 24 ==> c == 3;
    }
    Centuries(c, q, r, doy);
  }

  /** The correction terms of the closed form, with the year of era split into centuries and leap cycles. */
  lemma Centuries(c: int, q: int, r: int, doy: int)
    requires 0 <= c <= 3 && 0 <= q <= 24 && 0 <= r <= 3 && 0 <= doy <= 365
    requires doy == 365 ==> r == 3 && (q == 24 ==> c == 3)
    ensures YearOfEra(36524 * c + 1461 * q + 365 * r + doy) == 100 * c + 4 * q + r
  {
    var doe := 36524 * c + 1461 * q + 365 * r + doy;
    var over := 24 * c + q + 365 * r + doy;
    var e := if over >= 1460 then 1 else 0;
    assert doe == 1460 * (25 * c + q) + over && 0 <= over < 2920;
    assert doe / 1460 == 25 * c + q + e;
    assert doe / 36524 - doe / 146096 == c by {
      var rest := 1461 * q + 365 * r + doy;
      assert doe == 36524 * c + rest && 0 <= rest <= 36524;
      if rest == 36524 {
        assert doe == 146096;
      } else {
        assert doe / 36524 == c;
      }
    }
    assert doe - doe / 1460 + doe / 36524 - doe / 146096 == 365 * (100 * c + 4 * q + r) + (doy - e);
    assert 0 <= doy - e <= 364;
  }

  lemma {:induction false} FindYear(doe: nat, yoe: nat) returns (y: nat)
    requires doe < 146097 && yoe <= 399 && YearStart(yoe) <= doe
    ensures yoe <= y <= 399 && YearStart(y) <= doe < YearStart(y) + YearLength(y)
    decreases 399 - yoe
  {
    YearStartStep(yoe);
    if doe < YearStart(yoe) + YearLength(yoe) {
      y := yoe;
    } else {
      y := FindYear(doe, yoe + 1);
    }
  }

  lemma YearOfEraBounds(doe: nat)
    requires doe < 146097
    ensures var yoe := YearOfEra(doe); 0 <= yoe <= 399 && 0 <= doe - YearStart(yoe) < YearLength(yoe)
  {
    var y := FindYear(doe, 0);
    YearOfEraInverse(y, doe - YearStart(y));
  }

  // ----- The closed form counts days -----

  lemma MonthOf(y: nat, doy: nat, mp: nat)
    requires doy <= 365 && mp <= 11 && MonthStart(mp) <= doy < MonthStart(mp + 1)
    ensures DateOf(y, doy) == DateIn(y, mp, doy)
  {
  }

  /** Month starts are a month length apart. */
  lemma MonthLength(y: nat, mp: nat)
    requires mp <= 11
    ensures var first := DateIn(y, mp, MonthStart(mp));
            DaysInMonth(first.year, first.month)
            == if mp < 11 then MonthStart(mp + 1) - MonthStart(mp) else if IsLeap(y + 1) then 29 else 28
  {
  }

  lemma WithinMonth(y: nat, mp: nat, doy: nat)
    requires mp <= 11 && MonthStart(mp) <= doy
    requires doy + 1 < MonthStart(mp) + (if mp < 11 then MonthStart(mp + 1) - MonthStart(mp)
                                         else if IsLeap(y + 1) then 29 else 28)
    ensures ValidDate(DateIn(y, mp, doy)) && DateIn(y, mp, doy + 1) == NextDay(DateIn(y, mp, doy))
  {
  }

  lemma AcrossMonths(y: nat, mp: nat, doy: nat)
    requires mp <= 10 && MonthStart(mp) <= doy && doy + 1 == MonthStart(mp + 1)
    ensures ValidDate(DateIn(y, mp, doy)) && DateIn(y, mp + 1, doy + 1) == NextDay(DateIn(y, mp, doy))
  {
    MonthLength(y, mp);
  }

  lemma MonthFits(doy: nat, leap: bool) returns (mp: nat)
    requires doy + 1 < (if leap then 366 else 365)
    ensures mp <= 11 && MonthStart(mp) <= doy < MonthStart(mp + 1)
    ensures mp == 11 ==> doy + 1 < MonthStart(mp) + (if leap then 29 else 28)
    ensures doy + 1 == MonthStart(mp + 1) ==> mp < 11 && doy + 1 < MonthStart(mp + 2)
  {
    mp := (5 * doy + 2) / 153;
  }

  lemma DateOfWithin(y: nat, doy: nat, mp: nat)
    requires doy <= 364 && mp <= 11 && MonthStart(mp) <= doy && doy + 1 < MonthStart(mp + 1)
    requires mp == 11 ==> doy + 1 < MonthStart(mp) + (if IsLeap(y + 1) then 29 else 28)
    ensures ValidDate(DateOf(y, doy)) && DateOf(y, doy + 1) == NextDay(DateOf(y, doy))
  {
    MonthOf(y, doy, mp);
    MonthOf(y, doy + 1, mp);
    WithinMonth(y, mp, doy);
  }

  lemma DateOfAcross(y: nat, doy: nat, mp: nat)
    requires doy <= 364 && mp <= 10 && MonthStart(mp) <= doy && doy + 1 == MonthStart(mp + 1) < MonthStart(mp + 2)
    ensures ValidDate(DateOf(y, doy)) && DateOf(y, doy + 1) == NextDay(DateOf(y, doy))
  {
    MonthOf(y, doy, mp);
    MonthOf(y, doy + 1, mp + 1);
    AcrossMonths(y, mp, doy);
  }

  /** Dates advance by the next-day rule within a March-based year. */
  lemma DateOfStep(y: nat, doy: nat)
    requires doy + 1 < (if IsLeap(y + 1) then 366 else 365)
    ensures ValidDate(DateOf(y, doy)) && DateOf(y, doy + 1) == NextDay(DateOf(y, doy))
  {
    var mp := MonthFits(doy, IsLeap(y + 1));
    if doy + 1 == MonthStart(mp + 1) {
      DateOfAcross(y, doy, mp);
    } else {
      DateOfWithin(y, doy, mp);
    }
  }

  /** The last day of a March-based year is the last day of February. */
  lemma DateOfYearEnd(y: nat)
    ensures var last := if IsLeap(y + 1) then 365 else 364;
            ValidDate(DateOf(y, last)) && DateOf(y + 1, 0) == NextDay(DateOf(y, last))
  {
  }

  lemma Mod4(a: nat, b: nat)
    ensures (a + 4 * b) % 4 == a % 4
  {
  }

  lemma Mod100(a: nat, b: nat)
    ensures (a + 100 * b) % 100 == a % 100
  {
  }

  lemma Mod400(a: nat, b: nat)
    ensures (a + 400 * b) % 400 == a % 400
  {
  }

  lemma EraLeap(era: nat, yoe: nat)
    ensures LeapEnd(yoe) <==> IsLeap(yoe + era * 400 + 1)
  {
    Mod4(yoe + 1, 100 * era);
    Mod100(yoe + 1, 4 * era);
    Mod400(yoe + 1, era);
  }

  /** The day after is the next day by the calendar rule. */
  lemma Succeeds(d: Date, y: nat, doy: nat, y': nat, doy': nat, leap: bool)
    requires (leap <==> IsLeap(y + 1)) && doy < (if leap then 366 else 365)
    requires if doy + 1 < (if leap then 366 else 365) then y' == y && doy' == doy + 1 else y' == y + 1 && doy' == 0
    requires d == DateOf(y, doy)
    ensures ValidDate(d) && DateOf(y', doy') == NextDay(d)
  {
    if doy' == doy + 1 {
      DateOfStep(y, doy);
    } else {
      DateOfYearEnd(y);
    }
  }

  /** `n` days after the epoch is day `doy` of year of era `yoe` of an era of 400 years. */
  predicate Located(n: nat, era: nat, yoe: nat, doy: nat) {
    yoe <= 399 && doy < YearLength(yoe) && n + 719468 == era * 146097 + YearStart(yoe) + doy
  }

  lemma EpochLocated(era: nat, yoe: nat, doy: nat)
    requires Located(0, era, yoe, doy)
    ensures era == 4 && yoe == 369 && doy == 306
  {
  }

  /** The day before, located. */
  lemma Previous(n: nat, era: nat, yoe: nat, doy: nat) returns (era': nat, yoe': nat, doy': nat)
    requires n > 0 && Located(n, era, yoe, doy)
    ensures Located(n - 1, era', yoe', doy')
    ensures if doy' + 1 < YearLength(yoe') then era' == era && yoe' == yoe && doy == doy' + 1
            else yoe + era * 400 == yoe' + era' * 400 + 1 && doy == 0
  {
    if doy > 0 {
      era', yoe', doy' := era, yoe, doy - 1;
    } else if yoe > 0 {
      YearStartStep(yoe - 1);
      era', yoe', doy' := era, yoe - 1, YearLength(yoe - 1) - 1;
    } else {
      YearStartStep(399);
      era', yoe', doy' := era - 1, 399, YearLength(399) - 1;
    }
  }

  /** The date is day `doy` (from 1 March) of year `y` (from March). */
  predicate IsDay(d: Date, y: nat, doy: nat) {
    doy <= 365 && d == DateOf(y, doy)
  }

  /** Counting days one by one arrives at the date of the located day. */
  lemma {:induction false} NthDayLocated(n: nat, era: nat, yoe: nat, doy: nat)
    requires Located(n, era, yoe, doy)
    ensures IsDay(NthDay(n), yoe + era * 400, doy)
    decreases n
  {
    if n == 0 {
      EpochLocated(era, yoe, doy);
    } else {
      var era', yoe', doy' := Previous(n, era, yoe, doy);
      NthDayLocated(n - 1, era', yoe', doy');
      NextLocated(NthDay(n - 1), era', yoe', doy', era, yoe, doy);
    }
  }

  lemma NextLocated(d: Date, era: nat, yoe: nat, doy: nat, era': nat, yoe': nat, doy': nat)
    requires yoe <= 399 && doy < YearLength(yoe) && yoe' <= 399 && doy' < YearLength(yoe')
    requires d == DateOf(yoe + era * 400, doy)
    requires if doy + 1 < YearLength(yoe) then era' == era && yoe' == yoe && doy' == doy + 1
             else yoe' + era' * 400 == yoe + era * 400 + 1 && doy' == 0
    ensures NextDay(d) == DateOf(yoe' + era' * 400, doy')
  {
    EraLeap(era, yoe);
    Succeeds(d, yoe + era * 400, doy, yoe' + era' * 400, doy', LeapEnd(yoe));
  }

  lemma {:induction false} NthDayValid(n: nat)
    ensures ValidDate(NthDay(n))
  {
    if n > 0 { NthDayValid(n - 1); }
  }

  /** The closed form gives, for every day count, the date reached by counting days from the epoch. */
  function DaysToDate(days: nat): (d: Date)
    ensures d == NthDay(days) && ValidDate(d)
  {
    var z := days + 719468;
    var era := z / 146097;
    var doe := z - era * 146097;
    YearOfEraBounds(doe);
    var yoe := YearOfEra(doe);
    var doy := doe - YearStart(yoe);
    NthDayLocated(days, era, yoe, doy);
    NthDayValid(days);
    DateOf(yoe + era * 400, doy)
  }

  // ----- Reading a date back -----

  function DaysBeforeYear(year: nat): nat {
    if year <= 1970 then 0 else DaysBeforeYear(year - 1) + (if IsLeap(year - 1) then 366 else 365)
  }

  function DaysBeforeMonth(year: nat, month: nat): nat {
    if month <= 1 then 0 else DaysBeforeMonth(year, month - 1) + DaysInMonth(year, month - 1)
  }

  /** Days since the epoch, by adding up whole years and months. */
  function DayNumber(d: Date): int {
    DaysBeforeYear(d.year) + DaysBeforeMonth(d.year, d.month) + d.day - 1
  }

  lemma FullYear(year: nat)
    ensures DaysBeforeMonth(year, 12) + 31 == if IsLeap(year) then 366 else 365
  {
    var m := year;
    assert DaysBeforeMonth(m, 2) == 31;
    assert DaysBeforeMonth(m, 4) == DaysBeforeMonth(m, 2) + DaysInMonth(m, 2) + 31;
    assert DaysBeforeMonth(m, 6) == DaysBeforeMonth(m, 4) + 61;
    assert DaysBeforeMonth(m, 8) == DaysBeforeMonth(m, 6) + 61;
    assert DaysBeforeMonth(m, 10) == DaysBeforeMonth(m, 8) + 61;
    assert DaysBeforeMonth(m, 12) == DaysBeforeMonth(m, 10) + 61;
  }

  lemma DayNumberStep(d: Date)
    requires ValidDate(d) && d.year >= 1970
    ensures DayNumber(NextDay(d)) == DayNumber(d) + 1
  {
    if d.day == DaysInMonth(d.year, d.month) && d.month == 12 {
      FullYear(d.year);
      assert DaysBeforeMonth(d.year + 1, 1) == 0;
    }
  }

  /** The date determines the day count. */
  lemma {:induction false} DayNumberInverse(n: nat)
    ensures DayNumber(NthDay(n)) == n && NthDay(n).year >= 1970 && ValidDate(NthDay(n))
  {
    NthDayValid(n);
    if n > 0 {
      NthDayValid(n - 1);
      DayNumberInverse(n - 1);
      DayNumberStep(NthDay(n - 1));
    }
  }

  // ----- Timestamps -----

  datatype Timestamp = Timestamp(date: Date, hours: nat, minutes: nat, seconds: nat)

  function AtTime(date: Date, remaining: nat): Timestamp {
    Timestamp(date, remaining / 3600, remaining % 3600 / 60, remaining % 60)
  }


  function SecondsOf(t: Timestamp): int {
    DayNumber(t.date) * 86400 + t.hours * 3600 + t.minutes * 60 + t.seconds
  }

  predicate ValidTimestamp(t: Timestamp) {
    ValidDate(t.date) && t.hours <= 23 && t.minutes <= 59 && t.seconds <= 59
  }

  lemma CountedTimestamp(secs: nat, date: Date)
    requires date == NthDay(secs / 86400)
    ensures ValidTimestamp(AtTime(date, secs % 86400)) && SecondsOf(AtTime(date, secs % 86400)) == secs
  {
    DayNumberInverse(secs / 86400);
  }

  /** All fields are in range and together give back the second count. */
  function TimestampOf(secs: nat): (t: Timestamp)
    ensures ValidTimestamp(t) && SecondsOf(t) == secs
  {
    var date := DaysToDate(secs / 86400);
    CountedTimestamp(secs, date);
    AtTime(date, secs % 86400)
  }

  function Digit(n: nat): char
    requires n < 10
  {
    n as char + '0'
  }

  /** Decimal digits, most significant first, padded with zeros on the left to at least `width`. */
  function Padded(n: nat, width: nat): string
    decreases n, width
  {
    if n < 10 && width <= 1 then [Digit(n)]
    else Padded(n / 10, if width == 0 then 0 else width - 1) + [Digit(n % 10)]
  }

  function ValueOf(s: string): int {
    if s == [] then 0 else ValueOf(s[..|s| - 1]) * 10 + (s[|s| - 1] as int - '0' as int)
  }

  lemma {:induction false} PaddedValue(n: nat, width: nat)
    ensures ValueOf(Padded(n, width)) == n
    decreases n, width
  {
    if n < 10 && width <= 1 {
      assert [Digit(n)][..0] == [];
    } else {
      var head := Padded(n / 10, if width == 0 then 0 else width - 1);
      PaddedValue(n / 10, if width == 0 then 0 else width - 1);
      assert (head + [Digit(n % 10)])[..|head|] == head;
    }
  }

  lemma Padded2(n: nat)
    ensures |Padded(n, 2)| == 2 <==> n < 100
  {
    PaddedLength(n, 2);
    assert Pow10(2) == 100;
  }

  function Pow10(k: nat): nat {
    if k == 0 then 1 else 10 * Pow10(k - 1)
  }

  lemma {:induction false} PaddedLength(n: nat, width: nat)
    requires width >= 1
    ensures |Padded(n, width)| >= width
    ensures |Padded(n, width)| == width <==> n < Pow10(width)
    decreases n, width
  {
    if n < 10 && width <= 1 {
    } else if width >= 2 {
      PaddedLength(n / 10, width - 1);
    } else {
      PaddedNonempty(n / 10, 0);
      assert Pow10(1) == 10 * Pow10(0);
    }
  }

  lemma PaddedNonempty(n: nat, width: nat)
    ensures |Padded(n, width)| >= 1
  {
  }

  /** The form of section 5.6 of RFC 3339. */
  function FormatFields(t: Timestamp): string {
    Padded(t.date.year, 4) + "-" + Padded(t.date.month, 2) + "-" + Padded(t.date.day, 2)
    + "T" + Padded(t.hours, 2) + ":" + Padded(t.minutes, 2) + ":" + Padded(t.seconds, 2) + "Z"
  }

  /** The text written into every record. */
  function FormatTimestamp(secs: nat): string {
    FormatFields(TimestampOf(secs))
  }

  /** Read the fields at their fixed positions; -1 when the separators are not in place. */
  function ReadSeconds(s: string): int
    requires |s| == 20
  {
    var year, month, day := ValueOf(s[..4]), ValueOf(s[5..7]), ValueOf(s[8..10]);
    var hours, minutes, seconds := ValueOf(s[11..13]), ValueOf(s[14..16]), ValueOf(s[17..19]);
    if s[4] != '-' || s[7] != '-' || s[10] != 'T' || s[13] != ':' || s[16] != ':' || s[19] != 'Z' then -1
    else if year < 0 || month < 0 || day < 0 then -1
    else DayNumber(Date(year, month, day)) * 86400 + hours * 3600 + minutes * 60 + seconds
  }

  lemma FieldWidths(t: Timestamp)
    requires ValidTimestamp(t)
    ensures |Padded(t.date.year, 4)| >= 4 && (|Padded(t.date.year, 4)| == 4 <==> t.date.year <= 9999)
    ensures |Padded(t.date.month, 2)| == 2 && |Padded(t.date.day, 2)| == 2
    ensures |Padded(t.hours, 2)| == 2 && |Padded(t.minutes, 2)| == 2 && |Padded(t.seconds, 2)| == 2
  {
    PaddedLength(t.date.year, 4);
    assert Pow10(4) == 10 * Pow10(3) && Pow10(3) == 10 * Pow10(2) && Pow10(2) == 100;
    assert DaysInMonth(t.date.year, t.date.month) <= 31;
    Padded2(t.date.month);
    Padded2(t.date.day);
    Padded2(t.hours);
    Padded2(t.minutes);
    Padded2(t.seconds);
  }

  lemma ReadFields(t: Timestamp)
    requires ValidTimestamp(t) && t.date.year <= 9999
    ensures |FormatFields(t)| == 20 && ReadSeconds(FormatFields(t)) == SecondsOf(t)
  {
    var s := FormatFields(t);
    FieldWidths(t);
    Layout(Padded(t.date.year, 4), Padded(t.date.month, 2), Padded(t.date.day, 2),
           Padded(t.hours, 2), Padded(t.minutes, 2), Padded(t.seconds, 2), s);
    PaddedValue(t.date.year, 4);
    PaddedValue(t.date.month, 2);
    PaddedValue(t.date.day, 2);
    PaddedValue(t.hours, 2);
    PaddedValue(t.minutes, 2);
    PaddedValue(t.seconds, 2);
  }

  lemma Layout(y: string, mo: string, d: string, h: string, mi: string, sec: string, s: string)
    requires |y| == 4 && |mo| == |d| == |h| == |mi| == |sec| == 2
    requires s == y + "-" + mo + "-" + d + "T" + h + ":" + mi + ":" + sec + "Z"
    ensures |s| == 20 && s[..4] == y && s[5..7] == mo && s[8..10] == d
    ensures s[11..13] == h && s[14..16] == mi && s[17..19] == sec
    ensures s[4] == s[7] == '-' && s[10] == 'T' && s[13] == s[16] == ':' && s[19] == 'Z'
  {
  }

  /** The text has the 20-character form exactly while the year has four digits, and then the
      second count can be read back from it. */
  lemma FormatRoundTrip(secs: nat)
    ensures |FormatTimestamp(secs)| == 20 <==> TimestampOf(secs).date.year <= 9999
    ensures |FormatTimestamp(secs)| == 20 ==> ReadSeconds(FormatTimestamp(secs)) == secs
  {
    var t := TimestampOf(secs);
    FieldWidths(t);
    if t.date.year <= 9999 {
      ReadFields(t);
    }
  }
}
