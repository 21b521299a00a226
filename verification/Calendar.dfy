/** The calendar in the log lines (days_to_ymd in src/logging.rs) against the Gregorian rules. */
module Calendar {

  type u64 = n: nat | n < 0x1_0000_0000_0000_0000

  datatype Date = Date(year: nat, month: nat, day: nat)

  /** Day 0 is 1970-01-01. Each step fits an unsigned 64-bit word: no subtraction goes below
      zero, and the one addition that could overflow is the precondition. */
  function DaysToYmd(days: u64): Date
    requires days + 719468 < 0x1_0000_0000_0000_0000
  {
    var z: u64 := days + 719468;
    var era: u64 := z / 146097;
    var doe: u64 := z - era * 146097;
    var yoe: u64 := YearOfEra(doe);
    var y: u64 := yoe + era * 400;
    var doy: u64 := DayOfYear(doe, yoe);
    var mp: u64 := (5 * doy + 2) / 153;
    var d: u64 := DayOfMonth(doy, mp);
    var m: u64 := if mp < 10 then mp + 3 else mp - 9;
    var year: u64 := if m <= 2 then y + 1 else y;
    Date(year, m, d)
  }

  /** The year within a 400-year era that starts on 1 March. */
  function YearOfEra(doe: nat): (yoe: u64)
    requires doe < 146097
    ensures yoe < 400 && YearStart(yoe) <= doe <= YearStart(yoe) + 365
    ensures doe == YearStart(yoe) + 365 ==> Leap(yoe + 1)
  {
    YearOfEraIsRight(doe);
    var a: u64 := doe - doe / 1460;
    var b: u64 := a + doe / 36524 - doe / 146096;
    b / 365
  }

  /** Days from the start of an era to the start of its year yoe. */
  function YearStart(yoe: nat): nat {
    365 * yoe + yoe / 4 - yoe / 100
  }

  function DayOfYear(doe: nat, yoe: u64): (doy: u64)
    requires yoe < 400 && YearStart(yoe) <= doe <= YearStart(yoe) + 365
    ensures doy == doe - YearStart(yoe)
  {
    var start: u64 := 365 * yoe + yoe / 4 - yoe / 100;
    doe - start
  }

  function DayOfMonth(doy: nat, mp: nat): (d: u64)
    requires doy <= 365 && mp == (5 * doy + 2) / 153
    ensures mp <= 11 && d >= 1 && doy == (153 * mp + 2) / 5 + d - 1
  {
    doy - (153 * mp + 2) / 5 + 1
  }

  // ----- The Gregorian rules -----

  predicate Leap(y: nat) {
    y % 4 == 0 && (y % 100 != 0 || y % 400 == 0)
  }

  function MonthLength(y: nat, m: nat): nat {
    if m == 2 then (if Leap(y) then 29 else 28)
    else if m == 4 || m == 6 || m == 9 || m == 11 then 30
    else 31
  }

  function YearLength(y: nat): nat {
    if Leap(y) then 366 else 365
  }

  predicate Valid(t: Date) {
    1970 <= t.year && 1 <= t.month <= 12 && 1 <= t.day <= MonthLength(t.year, t.month)
  }

  function NextDay(t: Date): Date {
    if t.day < MonthLength(t.year, t.month) then Date(t.year, t.month, t.day + 1)
    else if t.month < 12 then Date(t.year, t.month + 1, 1)
    else Date(t.year + 1, 1, 1)
  }

  function DaysBeforeYear(y: nat): nat {
    if y <= 1970 then 0 else DaysBeforeYear(y - 1) + YearLength(y - 1)
  }

  function DaysBeforeMonth(y: nat, m: nat): nat {
    if m <= 1 then 0 else DaysBeforeMonth(y, m - 1) + MonthLength(y, m - 1)
  }

  /** Days since 1970-01-01, counted year by year and month by month. */
  function DayCount(t: Date): int {
    DaysBeforeYear(t.year) + DaysBeforeMonth(t.year, t.month) + t.day - 1
  }

  // ----- The year of the era -----

  /** doe is day t of year i of the 4-year cycle j of the century c. */
  lemma YearFromParts(doe: nat, c: nat, j: nat, i: nat, t: nat)
    requires c <= 3 && j <= 24 && i <= 3 && t <= 365 && (t == 365 ==> i == 3 && (j < 24 || c == 3))
    requires doe == 36524 * c + 1461 * j + 365 * i + t
    ensures (doe - doe / 1460 + doe / 36524 - doe / 146096) / 365 == 100 * c + 4 * j + i
    ensures doe - doe / 1460 >= 0 && doe - doe / 1460 + doe / 36524 - doe / 146096 >= 0
  {
    var rest := 24 * c + j + 365 * i + t;
    assert doe == 1460 * (25 * c + j) + rest;
    assert doe / 1460 == 25 * c + j + (if rest >= 1460 then 1 else 0);
    var inCentury := 1461 * j + 365 * i + t;
    assert inCentury <= 36524;
    assert doe / 36524 == if inCentury == 36524 then c + 1 else c;
    assert doe / 146096 == if inCentury == 36524 then 1 else 0;
  }

  lemma YearOfEraIsRight(doe: nat)
    requires doe < 146097
    ensures doe - doe / 1460 >= 0 && doe - doe / 1460 + doe / 36524 - doe / 146096 >= 0
    ensures var yoe := (doe - doe / 1460 + doe / 36524 - doe / 146096) / 365;
            && 0 <= yoe < 400 && YearStart(yoe) <= doe <= YearStart(yoe) + 365
            && (doe == YearStart(yoe) + 365 ==> Leap(yoe + 1))
  {
    var c := if doe / 36524 < 4 then doe / 36524 else 3;
    var r := doe - 36524 * c;
    var j := r / 1461;
    var s := r - 1461 * j;
    var i := if s / 365 < 4 then s / 365 else 3;
    var t := s - 365 * i;
    YearFromParts(doe, c, j, i, t);
    var yoe := 100 * c + 4 * j + i;
    assert yoe / 4 == 25 * c + j && yoe / 100 == c;
    assert YearStart(yoe) == 36524 * c + 1461 * j + 365 * i;
    if t == 365 {
      assert yoe + 1 == 100 * c + 4 * (j + 1);
      LeapInEra(c, j);
    }
  }

  lemma LeapInEra(c: nat, j: nat)
    requires c <= 3 && j <= 24 && (j < 24 || c == 3)
    ensures Leap(100 * c + 4 * (j + 1))
  {
  }

  // ----- The count -----

  /** Days from 0000-03-01 to the first of January of year y >= 1. */
  function EraDays(y: nat): int {
    365 * (y - 1) + (y - 1) / 4 - (y - 1) / 100 + (y - 1) / 400 + 306
  }

  lemma QuotientStep(y: nat, k: nat)
    requires y >= 1 && k >= 1
    ensures y / k == (y - 1) / k + if y % k == 0 then 1 else 0
  {
    var q, r := y / k, y % k;
    assert y == q * k + r;
    if r == 0 {
      assert y - 1 == (q - 1) * k + (k - 1);
      DivUnique(y - 1, k, q - 1, k - 1);
    } else {
      DivUnique(y - 1, k, q, r - 1);
    }
  }

  lemma DivUnique(n: int, k: int, q: int, r: int)
    requires k >= 1 && n == q * k + r && 0 <= r < k
    ensures n / k == q && n % k == r
  {
    var d := n / k - q;
    assert n == (n / k) * k + n % k;
    assert d * k == r - n % k;
    Times(d, k);
  }

  lemma Times(d: int, k: int)
    requires k >= 1
    ensures (d >= 1 ==> d * k >= k) && (d <= -1 ==> d * k <= -k)
  {
  }

  lemma {:induction false} YearCount(y: nat)
    requires y >= 1970
    ensures DaysBeforeYear(y) + 719468 == EraDays(y)
  {
    if y > 1970 {
      YearCount(y - 1);
      QuotientStep(y - 1, 4);
      QuotientStep(y - 1, 100);
      QuotientStep(y - 1, 400);
      LeapParts(y - 1);
    }
  }

  lemma LeapParts(y: nat)
    ensures (if y % 4 == 0 then 1 else 0) - (if y % 100 == 0 then 1 else 0) + (if y % 400 == 0 then 1 else 0)
         == if Leap(y) then 1 else 0
  {
    assert y % 400 == 0 ==> y % 100 == 0;
    assert y % 100 == 0 ==> y % 4 == 0;
  }

  lemma MonthStarts(y: nat)
    ensures var leap := if Leap(y) then 1 else 0;
            && DaysBeforeMonth(y, 1) == 0 && DaysBeforeMonth(y, 2) == 31
            && DaysBeforeMonth(y, 3) == 59 + leap && DaysBeforeMonth(y, 4) == 90 + leap
            && DaysBeforeMonth(y, 5) == 120 + leap && DaysBeforeMonth(y, 6) == 151 + leap
            && DaysBeforeMonth(y, 7) == 181 + leap && DaysBeforeMonth(y, 8) == 212 + leap
            && DaysBeforeMonth(y, 9) == 243 + leap && DaysBeforeMonth(y, 10) == 273 + leap
            && DaysBeforeMonth(y, 11) == 304 + leap && DaysBeforeMonth(y, 12) == 334 + leap
            && DaysBeforeMonth(y, 13) == YearLength(y)
  {
    hide Leap;
    assert DaysBeforeMonth(y, 3) == DaysBeforeMonth(y, 2) + MonthLength(y, 2);
    assert DaysBeforeMonth(y, 5) == DaysBeforeMonth(y, 4) + MonthLength(y, 4);
    assert DaysBeforeMonth(y, 7) == DaysBeforeMonth(y, 6) + MonthLength(y, 6);
    assert DaysBeforeMonth(y, 9) == DaysBeforeMonth(y, 8) + MonthLength(y, 8);
    assert DaysBeforeMonth(y, 11) == DaysBeforeMonth(y, 10) + MonthLength(y, 10);
  }

  /** A March-based year: what its 12 months look like. */
  lemma MarchYear(march: nat, doy: nat, t: Date)
    requires march >= 1970 || (march == 1969 && doy >= 306)
    requires doy <= 364 || (doy == 365 && Leap(march + 1))
    requires var mp := (5 * doy + 2) / 153;
             && t.month == (if mp < 10 then mp + 3 else mp - 9)
             && t.year == (if t.month <= 2 then march + 1 else march)
             && t.day == doy - (153 * mp + 2) / 5 + 1
    ensures Valid(t)
    ensures DayCount(t) + 719468 == 365 * march + march / 4 - march / 100 + march / 400 + doy
  {
    hide Leap, Valid, DaysBeforeMonth, DaysBeforeYear;
    var mp := (5 * doy + 2) / 153;
    MarchMonth(doy, mp, t);
    YearCount(t.year);
    if t.year == march {
      QuotientStep(march, 4);
      QuotientStep(march, 100);
      QuotientStep(march, 400);
      LeapParts(march);
    }
  }

  /** The day fits its month, and its place in the calendar year. */
  lemma MarchMonth(doy: nat, mp: nat, t: Date)
    requires doy <= 365 && mp == (5 * doy + 2) / 153
    requires t.month == (if mp < 10 then mp + 3 else mp - 9) && t.day == doy - (153 * mp + 2) / 5 + 1
    requires t.year >= 1970 && (doy == 365 ==> Leap(t.year))
    ensures Valid(t)
    ensures DaysBeforeMonth(t.year, t.month) + t.day - 1
         == if t.month <= 2 then doy - 306 else doy + 59 + if Leap(t.year) then 1 else 0
  {
    hide Leap;
    MonthOfDay(doy, mp);
    MonthStarts(t.year);
  }

  /** The month index and the first day of each month in a year that starts in March. */
  lemma MonthOfDay(doy: nat, mp: nat)
    requires doy <= 365 && mp == (5 * doy + 2) / 153
    ensures var first := (153 * mp + 2) / 5;
            || (mp == 0 && first == 0 && doy < 31) || (mp == 1 && first == 31 && 31 <= doy < 61)
            || (mp == 2 && first == 61 && 61 <= doy < 92) || (mp == 3 && first == 92 && 92 <= doy < 122)
            || (mp == 4 && first == 122 && 122 <= doy < 153) || (mp == 5 && first == 153 && 153 <= doy < 184)
            || (mp == 6 && first == 184 && 184 <= doy < 214) || (mp == 7 && first == 214 && 214 <= doy < 245)
            || (mp == 8 && first == 245 && 245 <= doy < 275) || (mp == 9 && first == 275 && 275 <= doy < 306)
            || (mp == 10 && first == 306 && 306 <= doy < 337) || (mp == 11 && first == 337 && 337 <= doy)
  {
  }

  /** Every day number becomes a valid date, and counting back from the date gives the number. */
  lemma DateCounts(days: u64)
    requires days + 719468 < 0x1_0000_0000_0000_0000
    ensures Valid(DaysToYmd(days)) && DayCount(DaysToYmd(days)) == days
  {
    hide Valid, DayCount, Leap, YearOfEra, YearStart;
    var z := days + 719468;
    var era := z / 146097;
    var doe := z - era * 146097;
    var yoe := YearOfEra(doe);
    EraYears(yoe, era);
    LeapShift(yoe + 1, era);
    SinceEpoch(z, era, doe, yoe);
    MarchYear(yoe + era * 400, doe - YearStart(yoe), DaysToYmd(days));
  }

  lemma EraYears(yoe: nat, era: nat)
    ensures var march := yoe + era * 400;
            march / 4 == yoe / 4 + era * 100 && march / 100 == yoe / 100 + era * 4
    ensures yoe < 400 ==> (yoe + era * 400) / 400 == era
  {
  }

  lemma SinceEpoch(z: nat, era: nat, doe: nat, yoe: nat)
    requires z >= 719468 && z == era * 146097 + doe && doe < 146097
    requires yoe < 400 && YearStart(yoe) <= doe <= YearStart(yoe) + 365
    ensures var march := yoe + era * 400;
            march >= 1970 || (march == 1969 && doe - YearStart(yoe) >= 306)
  {
    assert yoe < 369 ==> yoe / 4 <= 92;
    if era <= 4 {
      assert era == 4;
      assert YearStart(369) == 134774;
    }
  }

  lemma LeapShift(y: nat, era: nat)
    ensures Leap(y) == Leap(y + era * 400)
  {
    ModShift(y, era, 400);
    ModShift(y, era * 4, 100);
    ModShift(y, era * 100, 4);
  }

  lemma ModShift(y: nat, q: nat, k: nat)
    requires k >= 1
    ensures (y + q * k) % k == y % k
  {
    DivUnique(y + q * k, k, y / k + q, y % k);
  }

  // ----- Inverse and successor -----

  lemma {:induction false} YearsGrow(y: nat, w: nat)
    requires 1970 <= y <= w
    ensures DaysBeforeYear(y) <= DaysBeforeYear(w)
    decreases w
  {
    if y < w {
      YearsGrow(y, w - 1);
    }
  }

  lemma CountWithinYear(t: Date)
    requires Valid(t)
    ensures DaysBeforeYear(t.year) <= DayCount(t) < DaysBeforeYear(t.year + 1)
  {
    hide Leap;
    MonthStarts(t.year);
  }

  lemma CountIsInjective(a: Date, b: Date)
    requires Valid(a) && Valid(b) && DayCount(a) == DayCount(b)
    ensures a == b
  {
    hide Leap;
    CountWithinYear(a);
    CountWithinYear(b);
    if a.year < b.year {
      YearsGrow(a.year + 1, b.year);
    } else if b.year < a.year {
      YearsGrow(b.year + 1, a.year);
    }
    MonthStarts(a.year);
  }

  /** days_to_ymd inverts the day count: every valid date comes back. */
  lemma CountsDate(t: Date)
    requires Valid(t) && DayCount(t) + 719468 < 0x1_0000_0000_0000_0000
    ensures DayCount(t) >= 0 && DaysToYmd(DayCount(t)) == t
  {
    hide DaysToYmd, DayCount, Valid;
    assert DayCount(t) >= 0 by { CountWithinYear(t); }
    DateCounts(DayCount(t));
    CountIsInjective(DaysToYmd(DayCount(t)), t);
  }

  lemma NextDayCounts(t: Date)
    requires Valid(t)
    ensures Valid(NextDay(t)) && DayCount(NextDay(t)) == DayCount(t) + 1
  {
    hide Leap;
    MonthStarts(t.year);
    MonthStarts(t.year + 1);
  }

  /** The log calendar is the Gregorian calendar: it starts on 1970-01-01 and each day is
      followed by its calendar successor. */
  lemma CalendarIsGregorian(days: u64)
    requires days + 719469 < 0x1_0000_0000_0000_0000
    ensures DaysToYmd(0) == Date(1970, 1, 1)
    ensures DaysToYmd(days + 1) == NextDay(DaysToYmd(days))
  {
    hide DaysToYmd, DayCount, Valid;
    DateCounts(days);
    DateCounts(days + 1);
    NextDayCounts(DaysToYmd(days));
    CountIsInjective(DaysToYmd(days + 1), NextDay(DaysToYmd(days)));
    Epoch();
  }

  lemma Epoch()
    ensures DaysToYmd(0) == Date(1970, 1, 1)
  {
    hide DaysToYmd;
    DateCounts(0);
    CountIsInjective(DaysToYmd(0), Date(1970, 1, 1));
  }
}
