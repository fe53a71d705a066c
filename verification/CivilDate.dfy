/** Days since the Unix epoch to a Gregorian date (src-tauri/build.rs). */
module CivilDate {
  // Rust's u64: every subexpression below is checked to stay in range.
  newtype u64 = x: int | 0 <= x < 0x1_0000_0000_0000_0000

  datatype Date = Date(y: int, m: int, d: int)

  // ----- the calendar, section 3.2.1 of ISO 8601:2004 -----

  predicate IsLeap(y: int) {
    y % 4 == 0 && (y % 100 != 0 || y % 400 == 0)
  }

  function MonthLength(y: int, m: int): int {
    if m == 2 then (if IsLeap(y) then 29 else 28)
    else if m == 4 || m == 6 || m == 9 || m == 11 then 30
    else 31
  }

  predicate IsCalendarDate(t: Date) {
    1 <= t.m <= 12 && 1 <= t.d <= MonthLength(t.y, t.m)
  }

  function Successor(t: Date): Date {
    if t.d < MonthLength(t.y, t.m) then t.(d := t.d + 1)
    else if t.m < 12 then Date(t.y, t.m + 1, 1)
    else Date(t.y + 1, 1, 1)
  }

  function YearLength(y: int): int {
    if IsLeap(y) then 366 else 365
  }

  /** Days from 1 January of year 0 to 1 January of year y, counted year by year. */
  function DaysBeforeYear(y: nat): int {
    if y == 0 then 0 else DaysBeforeYear(y - 1) + YearLength(y - 1)
  }

  function DaysBeforeMonth(y: int, m: int): int
    decreases m
  {
    if m <= 1 then 0 else DaysBeforeMonth(y, m - 1) + MonthLength(y, m - 1)
  }

  /** Days from 1970-01-01 to t, by counting calendar years, months and days. */
  function DayNumber(t: Date): int
    requires t.y >= 0
  {
    DaysBeforeYear(t.y) - DaysBeforeYear(1970) + DaysBeforeMonth(t.y, t.m) + t.d - 1
  }

  // ----- the program -----

  /** Day doe of a 400-year era: the year whose 365 or 366 days contain it, counted from
      1 March, and the day of that year. */
  function YearOfEra(doe: u64): (r: (u64, u64))
    requires doe < 146097
    ensures r.0 < 400 && r.1 <= 365
    ensures MarchStart(r.0 as int) + r.1 as int == doe as int
    ensures r.1 == 365 ==> IsLeap(r.0 as int + 1)
  {
    UnleapedRange(doe as int);
    var yoe := (doe - doe / 1460 + doe / 36524 - doe / 146096) / 365;
    YearContainsDay(doe as int, Unleaped(doe as int), yoe as int, MarchStart(yoe as int));
    var doy := doe - (365 * yoe + yoe / 4 - yoe / 100);
    (yoe, doy)
  }

  /** Day doy of a year that starts on 1 March: its month, and its day of the month. */
  function MonthAndDay(doy: u64): (r: (u64, u64))
    requires doy <= 365
    ensures
      var mp := MarchMonth(r.0 as int);
      && 1 <= r.0 <= 12
      && MarchOffset(mp) <= doy as int < MarchOffset(mp + 1)
      && r.1 as int == doy as int - MarchOffset(mp) + 1
  {
    var mp := (5 * doy + 2) / 153;
    MonthContainsDay(doy as int, mp as int);
    var d := doy - (153 * mp + 2) / 5 + 1;
    var m := if mp < 10 then mp + 3 else mp - 9;
    (m, d)
  }

  /** The date of a Unix time: a calendar date, as many days after 1970-01-01 as have passed. */
  function EpochSecsToYmd(secs: u64): (r: (u64, u64, u64))
    ensures
      var t := AsDate(r);
      t.y >= 0 && IsCalendarDate(t) && DayNumber(t) == secs as int / 86400
  {
    var z := secs / 86400 + 719468;
    var era := z / 146097;
    var doe := z - era * 146097;
    var (yoe, doy) := YearOfEra(doe);
    var y := yoe + era * 400;
    var (m, d) := MonthAndDay(doy);
    var y' := if m <= 2 then y + 1 else y;
    EraDayNumber(z as int, era as int, yoe as int, doy as int, AsDate((y', m, d)));
    (y', m, d)
  }

  function AsDate(r: (u64, u64, u64)): Date {
    Date(r.0 as int, r.1 as int, r.2 as int)
  }

  // ----- proof: the nested divisions -----

  // First day of year y of an era whose years start on 1 March.
  function MarchStart(y: int): int { 365 * y + y / 4 - y / 100 }

  // Days of the era minus the leap days passed so far.
  function Unleaped(doe: int): int { doe - doe / 1460 + doe / 36524 - doe / 146096 }

  lemma UnleapedAtStart(c: int, q: int, k: int)
    requires 0 <= c < 4 && 0 <= q < 25 && 0 <= k < 4
    ensures var y := 100 * c + 4 * q + k;
      && MarchStart(y) == 36524 * c + 1461 * q + 365 * k
      && Unleaped(MarchStart(y)) == 365 * y
  {
    var s := 36524 * c + 1461 * q + 365 * k;
    assert s / 1460 == 25 * c + q;
    assert s / 36524 == c;
    assert s / 146096 == 0;
  }

  lemma UnleapedBeforeStart(c: int, q: int, k: int)
    requires 0 <= c < 4 && 0 <= q < 25 && 0 <= k < 4 && c + q + k > 0
    ensures Unleaped(36524 * c + 1461 * q + 365 * k - 1) < 365 * (100 * c + 4 * q + k)
  {
    var s := 36524 * c + 1461 * q + 365 * k;
    if q > 0 || k > 0 {
      assert (s - 1) / 1460 == 25 * c + q;
      assert (s - 1) / 36524 == c;
    } else if c > 0 {
      assert (s - 1) / 1460 == 25 * c;
      assert (s - 1) / 36524 == c - 1;
    }
  }

  lemma UnleapedMonotone(a: int, b: int)
    requires 0 <= a <= b < 146097
    ensures Unleaped(a) <= Unleaped(b)
    decreases b - a
  {
    if a < b {
      UnleapedMonotone(a, b - 1);
      var t := b - 1;
      if b / 1460 != t / 1460 {
        assert b / 1460 == t / 1460 + 1;
        assert b % 1460 == 0;
      }
      if b / 146096 != t / 146096 {
        assert b == 146096;
      }
    }
  }

  // The year boundaries of the era are where the quotient by 365 steps up.
  lemma UnleapedBoundary(doe: int, y: int)
    requires 0 <= doe < 146097 && 0 <= y < 400
    ensures MarchStart(y) <= doe <==> 365 * y <= Unleaped(doe)
  {
    var c, q, k := Digits(y);
    UnleapedAtStart(c, q, k);
    if MarchStart(y) <= doe {
      UnleapedMonotone(MarchStart(y), doe);
    } else {
      UnleapedBeforeStart(c, q, k);
      UnleapedMonotone(doe, MarchStart(y) - 1);
    }
  }

  lemma UnleapedRange(doe: int)
    requires 0 <= doe < 146097
    ensures 0 <= Unleaped(doe) < 146000 && doe >= doe / 1460
  {
  }

  lemma MarchYearLength(y: int)
    requires 0 <= y < 399
    ensures MarchStart(y + 1) == MarchStart(y) + (if IsLeap(y + 1) then 366 else 365)
  {
    QuotientStep(y + 1);
  }

  lemma QuotientStep(y: int)
    requires y > 0
    ensures y / 4 == (y - 1) / 4 + (if y % 4 == 0 then 1 else 0)
    ensures y / 100 == (y - 1) / 100 + (if y % 100 == 0 then 1 else 0)
    ensures y / 400 == (y - 1) / 400 + (if y % 400 == 0 then 1 else 0)
    ensures y % 400 == 0 ==> y % 100 == 0
    ensures y % 100 == 0 ==> y % 4 == 0
  {
  }

  // The year found is the one whose days contain doe; its 366th day exists only
  // when the following February is a leap one.
  lemma YearContainsDay(doe: int, u: int, yoe: int, start: int)
    requires 0 <= doe < 146097
    requires u == Unleaped(doe) && yoe == u / 365 && start == MarchStart(yoe)
    ensures 0 <= yoe < 400
    ensures 0 <= doe - start <= 365
    ensures doe - start == 365 ==> IsLeap(yoe + 1)
  {
    UnleapedRange(doe);
    assert 365 * yoe <= u < 365 * (yoe + 1) && 0 <= yoe < 400;
    UnleapedBoundary(doe, yoe);
    if yoe < 399 {
      UnleapedBoundary(doe, yoe + 1);
      MarchYearLength(yoe);
    }
  }

  lemma Digits(y: int) returns (c: int, q: int, k: int)
    requires 0 <= y < 400
    ensures 0 <= c < 4 && 0 <= q < 25 && 0 <= k < 4 && y == 100 * c + 4 * q + k
  {
    c, q, k := y / 100, y % 100 / 4, y % 4;
  }

  // Months counted from March: mp is the month containing day doy.
  lemma MonthContainsDay(doy: int, mp: int)
    requires 0 <= doy <= 365 && mp == (5 * doy + 2) / 153
    ensures 0 <= mp <= 11 && MarchOffset(mp) <= doy < MarchOffset(mp + 1)
  {
  }

  // ----- proof: agreement with counting -----

  lemma {:induction false} DaysBeforeYearClosed(y: nat)
    ensures DaysBeforeYear(y) == 365 * y + (y + 3) / 4 - (y + 99) / 100 + (y + 399) / 400
  {
    if y > 0 {
      DaysBeforeYearClosed(y - 1);
      LeapYearsStep(y - 1);
    }
  }

  lemma LeapYearsStep(y: nat)
    ensures (y + 4) / 4 == (y + 3) / 4 + (if y % 4 == 0 then 1 else 0)
    ensures (y + 100) / 100 == (y + 99) / 100 + (if y % 100 == 0 then 1 else 0)
    ensures (y + 400) / 400 == (y + 399) / 400 + (if y % 400 == 0 then 1 else 0)
    ensures y % 400 == 0 ==> y % 100 == 0
    ensures y % 100 == 0 ==> y % 4 == 0
  {
    RoundUp4(y);
    RoundUp100(y);
    RoundUp400(y);
    FourCenturiesAreCenturies(y);
    CenturyIsFourth(y);
  }

  lemma RoundUp4(y: nat)
    ensures (y + 4) / 4 == (y + 3) / 4 + (if y % 4 == 0 then 1 else 0)
  {
  }

  lemma RoundUp100(y: nat)
    ensures (y + 100) / 100 == (y + 99) / 100 + (if y % 100 == 0 then 1 else 0)
  {
  }

  lemma CenturyIsFourth(y: int)
    ensures y % 100 == 0 ==> y % 4 == 0
  {
    if y % 100 == 0 {
      Mod4Repeats(25 * (y / 100), 0);
    }
  }

  lemma RoundUp400(y: nat)
    ensures (y + 400) / 400 == (y + 399) / 400 + (if y % 400 == 0 then 1 else 0)
  {
  }

  lemma FourCenturiesAreCenturies(y: int)
    ensures y % 400 == 0 ==> y % 100 == 0
  {
    if y % 400 == 0 {
      Mod100Repeats(4 * (y / 400), 0);
    }
  }

  lemma EpochIsDay719468()
    ensures DaysBeforeYear(1970) == 719468 + 60
  {
    DaysBeforeYearClosed(1970);
  }

  lemma DaysBeforeMonthTable(y: int)
    ensures DaysBeforeMonth(y, 1) == 0 && DaysBeforeMonth(y, 2) == 31
    ensures forall m :: 3 <= m <= 12 ==>
      DaysBeforeMonth(y, m) == (153 * (m - 3) + 2) / 5 + 59 + (if IsLeap(y) then 1 else 0)
  {
    var b := DaysBeforeMonth(y, 3);
    assert DaysBeforeMonth(y, 4) == b + 31;
    assert DaysBeforeMonth(y, 5) == b + 61;
    assert DaysBeforeMonth(y, 6) == b + 92;
    assert DaysBeforeMonth(y, 7) == b + 122;
    assert DaysBeforeMonth(y, 8) == b + 153;
    assert DaysBeforeMonth(y, 9) == b + 184;
    assert DaysBeforeMonth(y, 10) == b + 214;
    assert DaysBeforeMonth(y, 11) == b + 245;
    assert DaysBeforeMonth(y, 12) == b + 275;
  }

  lemma Mod4Repeats(k: int, y: int)
    ensures (4 * k + y) % 4 == y % 4
  {
  }

  lemma Mod100Repeats(k: int, y: int)
    ensures (100 * k + y) % 100 == y % 100
  {
  }

  lemma Mod400Repeats(k: int, y: int)
    ensures (400 * k + y) % 400 == y % 400
  {
  }

  lemma LeapRepeats(era: int, y: int)
    ensures IsLeap(400 * era + y) == IsLeap(y)
  {
    Mod4Repeats(100 * era, y);
    Mod100Repeats(4 * era, y);
    Mod400Repeats(era, y);
  }

  lemma EraQuotients(era: int, yoe: int)
    ensures (400 * era + yoe + 3) / 4 == 100 * era + (yoe + 3) / 4
    ensures (400 * era + yoe + 99) / 100 == 4 * era + (yoe + 99) / 100
    ensures (400 * era + yoe + 399) / 400 == era + (yoe + 399) / 400
  {
  }

  lemma RoundedUpQuotients(y: int)
    requires 0 <= y < 400
    ensures (y + 3) / 4 - (y + 99) / 100 + (y + 399) / 400 + (if IsLeap(y) then 1 else 0) == y / 4 - y / 100 + 1
  {
    LeapYearsStep(y);
    assert (y + 4) / 4 == y / 4 + 1;
    assert (y + 100) / 100 == y / 100 + 1;
  }

  lemma YearsFromMarch(era: int, yoe: int)
    requires era >= 0 && 0 <= yoe < 400
    ensures DaysBeforeYear(400 * era + yoe) + (if IsLeap(yoe) then 1 else 0)
            == 146097 * era + MarchStart(yoe) + 1
  {
    DaysBeforeYearClosed(400 * era + yoe);
    EraQuotients(era, yoe);
    RoundedUpQuotients(yoe);
  }

  /** March is month 0, February month 11. */
  function MarchMonth(m: int): int { if m <= 2 then m + 9 else m - 3 }

  // First day of month mp, counted from March.
  function MarchOffset(mp: int): int { (153 * mp + 2) / 5 }

  // Month m of the year that starts in March of y, in the calendar year it falls in.
  lemma MonthsFromMarch(y: int, m: int)
    requires 1 <= m <= 12
    ensures m > 2 ==> DaysBeforeMonth(y, m) == MarchOffset(m - 3) + 59 + (if IsLeap(y) then 1 else 0)
    ensures m > 2 ==> MonthLength(y, m) == MarchOffset(m - 2) - MarchOffset(m - 3)
    ensures m <= 2 ==> DaysBeforeMonth(y, m) == MarchOffset(m + 9) - 306
    ensures m == 1 ==> MonthLength(y, m) == MarchOffset(m + 10) - MarchOffset(m + 9)
    ensures MarchOffset(11) == 337
  {
    DaysBeforeMonthTable(y);
  }

  lemma DayNumberFromMarch(era: int, yoe: int, doy: int, m: int)
    requires era >= 0 && 0 <= yoe < 400 && 0 <= doy <= 365 && 1 <= m <= 12
    requires doy == 365 ==> IsLeap(yoe + 1)
    requires MarchOffset(MarchMonth(m)) <= doy < MarchOffset(MarchMonth(m) + 1)
    ensures
      var y := yoe + era * 400;
      var t := Date(if m <= 2 then y + 1 else y, m, doy - MarchOffset(MarchMonth(m)) + 1);
      && IsCalendarDate(t)
      && DaysBeforeYear(t.y) + DaysBeforeMonth(t.y, t.m) + t.d - 1
         == 146097 * era + MarchStart(yoe) + doy + 60
  {
    var y := yoe + era * 400;
    YearsFromMarch(era, yoe);
    LeapRepeats(era, yoe);
    LeapRepeats(era, yoe + 1);
    MonthsFromMarch(if m <= 2 then y + 1 else y, m);
    assert DaysBeforeYear(y + 1) == DaysBeforeYear(y) + YearLength(y);
  }

  lemma EraDayNumber(z: int, era: int, yoe: int, doy: int, t: Date)
    requires era >= 0 && 0 <= yoe < 400 && 0 <= doy <= 365 && 1 <= t.m <= 12
    requires doy == 365 ==> IsLeap(yoe + 1)
    requires MarchOffset(MarchMonth(t.m)) <= doy < MarchOffset(MarchMonth(t.m) + 1)
    requires t.y == yoe + era * 400 + (if t.m <= 2 then 1 else 0) && t.d == doy - MarchOffset(MarchMonth(t.m)) + 1
    requires z == era * 146097 + MarchStart(yoe) + doy
    ensures t.y >= 0 && IsCalendarDate(t) && DayNumber(t) == z - 719468
  {
    DayNumberFromMarch(era, yoe, doy, t.m);
    EpochIsDay719468();
  }

  // ----- main results -----

  lemma {:induction false} DaysBeforeYearGap(y: nat, y': nat)
    requires y < y'
    ensures DaysBeforeYear(y) + YearLength(y) <= DaysBeforeYear(y')
  {
    if y + 1 < y' {
      DaysBeforeYearGap(y, y' - 1);
    }
  }

  lemma {:induction false} DaysBeforeMonthGap(y: int, m: int, m': int)
    requires 1 <= m < m' <= 13
    ensures DaysBeforeMonth(y, m) + MonthLength(y, m) <= DaysBeforeMonth(y, m')
    decreases m'
  {
    if m + 1 < m' {
      DaysBeforeMonthGap(y, m, m' - 1);
    }
  }

  lemma DayOfYearRange(t: Date)
    requires IsCalendarDate(t)
    ensures 0 <= DaysBeforeMonth(t.y, t.m) + t.d - 1 < YearLength(t.y)
  {
    DaysBeforeMonthTable(t.y);
  }

  /** Counting tells calendar dates apart. */
  lemma DayNumberInjective(s: Date, t: Date)
    requires s.y >= 0 && t.y >= 0 && IsCalendarDate(s) && IsCalendarDate(t)
    requires DayNumber(s) == DayNumber(t)
    ensures s == t
  {
    DayOfYearRange(s);
    DayOfYearRange(t);
    if s.y < t.y { DaysBeforeYearGap(s.y, t.y); }
    if t.y < s.y { DaysBeforeYearGap(t.y, s.y); }
    if s.m < t.m { DaysBeforeMonthGap(s.y, s.m, t.m); }
    if t.m < s.m { DaysBeforeMonthGap(s.y, t.m, s.m); }
  }

  lemma SuccessorIsNextDay(t: Date)
    requires t.y >= 0 && IsCalendarDate(t)
    ensures IsCalendarDate(Successor(t)) && DayNumber(Successor(t)) == DayNumber(t) + 1
  {
    DaysBeforeMonthTable(t.y);
    assert DaysBeforeMonth(t.y + 1, 1) == 0;
  }

  lemma EpochIsNewYear1970(secs: u64)
    requires secs < 86400
    ensures AsDate(EpochSecsToYmd(secs)) == Date(1970, 1, 1)
  {
    DayNumberInjective(AsDate(EpochSecsToYmd(secs)), Date(1970, 1, 1));
  }

  /** A day later is the calendar's next date, leap days and year ends included. */
  lemma NextDayIsSuccessor(secs: u64)
    requires secs as int + 86400 < 0x1_0000_0000_0000_0000
    ensures AsDate(EpochSecsToYmd(secs + 86400)) == Successor(AsDate(EpochSecsToYmd(secs)))
  {
    var t := AsDate(EpochSecsToYmd(secs));
    SuccessorIsNextDay(t);
    DayNumberInjective(AsDate(EpochSecsToYmd(secs + 86400)), Successor(t));
  }

  /** Every date on or after the epoch is found, at every second of its day. */
  lemma DayNumberInverted(t: Date, second: int) returns (secs: u64)
    requires t.y >= 1970 && IsCalendarDate(t) && 0 <= second < 86400
    requires DayNumber(t) * 86400 + second < 0x1_0000_0000_0000_0000
    ensures secs as int == DayNumber(t) * 86400 + second
    ensures AsDate(EpochSecsToYmd(secs)) == t
  {
    SinceEpoch(t);
    DayOfSecond(DayNumber(t), second);
    secs := (DayNumber(t) * 86400 + second) as u64;
    DateOfDay(secs, t);
  }

  lemma DayOfSecond(day: int, second: int)
    requires 0 <= second < 86400
    ensures (day * 86400 + second) / 86400 == day
  {
  }

  lemma SinceEpoch(t: Date)
    requires t.y >= 1970 && IsCalendarDate(t)
    ensures DayNumber(t) >= 0
  {
    DayOfYearRange(t);
    if t.y > 1970 { DaysBeforeYearGap(1970, t.y); }
  }

  lemma DateOfDay(secs: u64, t: Date)
    requires t.y >= 0 && IsCalendarDate(t) && secs as int / 86400 == DayNumber(t)
    ensures AsDate(EpochSecsToYmd(secs)) == t
  {
    DayNumberInjective(AsDate(EpochSecsToYmd(secs)), t);
  }
}
