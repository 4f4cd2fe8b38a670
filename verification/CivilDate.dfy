/** The build script's conversion from a day count to a calendar date (build.rs), against the
    proleptic Gregorian calendar of ISO 8601. */
module CivilDate {

  datatype Date = Date(year: int, month: int, day: int)

  /* ---- The conversion, as the build script computes it ---- */

  /** Integer division of the source language: it truncates toward zero. */
  function TruncDiv(a: int, b: int): int
    requires b > 0
  {
    if a >= 0 then a / b else -(-a / b)
  }

  function YearOfEra(doe: nat): nat
    requires doe < 146097
  {
    (doe - doe / 1460 + doe / 36524 - doe / 146096) / 365
  }

  /** The let-chain of `days_to_ymd` up to its last cast; the unsigned intermediate values are
      typed `nat`, so their never underflowing is checked here. */
  function CivilFromDays(days: int): Date {
    var z := days + 719468;
    var era := TruncDiv(if z >= 0 then z else z - 146096, 146097);
    EraIsFloor(z);
    var doe: nat := z - era * 146097;
    var yoe := YearOfEra(doe);
    YearOfEraBounds(doe);
    var doy: nat := doe - (365 * yoe + yoe / 4 - yoe / 100);
    MarchBased(yoe + era * 400, doy)
  }

  /** The second half of the chain: day `doy` of the year that starts on 1 March of year `y`. */
  function MarchBased(y: int, doy: nat): Date {
    var mp: nat := (5 * doy + 2) / 153;
    var d: nat := doy - (153 * mp + 2) / 5 + 1;
    var m: nat := if mp < 10 then mp + 3 else mp - 9;
    Date(if m <= 2 then y + 1 else y, m, d)
  }

  /** The cast of a 64-bit year to 32 bits. */
  function ToI32(x: int): int {
    (x + 0x8000_0000) % 0x1_0000_0000 - 0x8000_0000
  }

  function DaysToYmd(days: int): Date {
    var date := CivilFromDays(days);
    date.(year := ToI32(date.year))
  }

  /* ---- The calendar, independently ---- */

  predicate LeapYear(y: int) {
    y % 4 == 0 && (y % 100 != 0 || y % 400 == 0)
  }

  function DaysInMonth(y: int, m: int): nat {
    if m == 2 then (if LeapYear(y) then 29 else 28)
    else if m == 4 || m == 6 || m == 9 || m == 11 then 30
    else 31
  }

  predicate ValidDate(d: Date) {
    1 <= d.month <= 12 && 1 <= d.day <= DaysInMonth(d.year, d.month)
  }

  /** The calendar successor. */
  function NextDay(d: Date): Date {
    if d.day < DaysInMonth(d.year, d.month) then d.(day := d.day + 1)
    else if d.month < 12 then Date(d.year, d.month + 1, 1)
    else Date(d.year + 1, 1, 1)
  }

  const EPOCH := Date(1970, 1, 1)

  function DaysBeforeYear(y: int): int {
    365 * (y - 1) + (y - 1) / 4 - (y - 1) / 100 + (y - 1) / 400
  }

  function DaysBeforeMonth(y: int, m: int): nat {
    if m <= 1 then 0 else DaysBeforeMonth(y, m - 1) + DaysInMonth(y, m - 1)
  }

  /** Days from the epoch to a date, counted by years, months and days. */
  function DayNumber(d: Date): int {
    DaysBeforeYear(d.year) - DaysBeforeYear(1970) + DaysBeforeMonth(d.year, d.month) + d.day - 1
  }

  /* ---- Counting ---- */

  lemma FourStep(y: int)
    ensures y / 4 - (y - 1) / 4 == if y % 4 == 0 then 1 else 0
  {
  }

  lemma Quotient100(q: int, r: int)
    requires 0 <= r < 100
    ensures (100 * q + r) / 100 == q
  {
  }

  lemma Quotient400(q: int, r: int)
    requires 0 <= r < 400
    ensures (400 * q + r) / 400 == q
  {
  }

  lemma HundredStep(y: int)
    ensures y / 100 - (y - 1) / 100 == if y % 100 == 0 then 1 else 0
  {
    var q, r := y / 100, y % 100;
    assert y == 100 * q + r;
    if r == 0 { Quotient100(q - 1, 99); } else { Quotient100(q, r - 1); }
  }

  lemma FourHundredStep(y: int)
    ensures y / 400 - (y - 1) / 400 == if y % 400 == 0 then 1 else 0
  {
    var q, r := y / 400, y % 400;
    assert y == 400 * q + r;
    if r == 0 { Quotient400(q - 1, 399); } else { Quotient400(q, r - 1); }
  }

  lemma HundredIsFour(y: int)
    ensures y % 100 == 0 ==> y % 4 == 0
  {
    var q := y / 100;
    assert y % 100 == 0 ==> y == 4 * (25 * q);
  }

  lemma FourHundredIsHundred(y: int)
    ensures y % 400 == 0 ==> y % 100 == 0
  {
    var q := y / 400;
    assert y % 400 == 0 ==> y == 100 * (4 * q);
  }

  lemma YearLength(y: int)
    ensures DaysBeforeYear(y + 1) - DaysBeforeYear(y) == if LeapYear(y) then 366 else 365
  {
    FourStep(y);
    HundredStep(y);
    FourHundredStep(y);
    HundredIsFour(y);
    FourHundredIsHundred(y);
    hide LeapYear, DaysBeforeYear;
    LeapSteps(y);
  }

  lemma LeapSteps(y: int)
    requires y % 100 == 0 ==> y % 4 == 0
    requires y % 400 == 0 ==> y % 100 == 0
    requires y / 4 - (y - 1) / 4 == if y % 4 == 0 then 1 else 0
    requires y / 100 - (y - 1) / 100 == if y % 100 == 0 then 1 else 0
    requires y / 400 - (y - 1) / 400 == if y % 400 == 0 then 1 else 0
    ensures DaysBeforeYear(y + 1) - DaysBeforeYear(y) == if LeapYear(y) then 366 else 365
  {
    assert DaysBeforeYear(y + 1) == 365 * y + y / 4 - y / 100 + y / 400;
  }

  lemma MonthTable(y: int)
    ensures var l := if LeapYear(y) then 1 else 0;
            && DaysBeforeMonth(y, 1) == 0 && DaysBeforeMonth(y, 2) == 31 && DaysBeforeMonth(y, 3) == 59 + l
            && DaysBeforeMonth(y, 4) == 90 + l && DaysBeforeMonth(y, 5) == 120 + l && DaysBeforeMonth(y, 6) == 151 + l
            && DaysBeforeMonth(y, 7) == 181 + l && DaysBeforeMonth(y, 8) == 212 + l && DaysBeforeMonth(y, 9) == 243 + l
            && DaysBeforeMonth(y, 10) == 273 + l && DaysBeforeMonth(y, 11) == 304 + l
            && DaysBeforeMonth(y, 12) == 334 + l && DaysBeforeMonth(y, 13) == 365 + l
  {
    assert DaysBeforeMonth(y, 2) == 31;
    assert DaysBeforeMonth(y, 4) == DaysBeforeMonth(y, 3) + 31;
    assert DaysBeforeMonth(y, 6) == DaysBeforeMonth(y, 4) + 61;
    assert DaysBeforeMonth(y, 8) == DaysBeforeMonth(y, 6) + 61;
    assert DaysBeforeMonth(y, 10) == DaysBeforeMonth(y, 8) + 61;
    assert DaysBeforeMonth(y, 12) == DaysBeforeMonth(y, 10) + 61;
  }

  /** The day count is a count: the next calendar day is numbered one higher. */
  lemma NextDayCounts(d: Date)
    requires ValidDate(d)
    ensures ValidDate(NextDay(d)) && DayNumber(NextDay(d)) == DayNumber(d) + 1
  {
    MonthTable(d.year);
    YearLength(d.year);
  }

  lemma YearsApart(y: int, y': int)
    requires y < y'
    ensures DaysBeforeYear(y + 1) <= DaysBeforeYear(y')
  {
    var i := y + 1;
    while i < y'
      invariant y + 1 <= i <= y'
      invariant DaysBeforeYear(y + 1) <= DaysBeforeYear(i)
    {
      YearLength(i);
      i := i + 1;
    }
  }

  lemma DayWithinYear(d: Date)
    requires ValidDate(d)
    ensures DaysBeforeYear(d.year) <= DayNumber(d) + DaysBeforeYear(1970) < DaysBeforeYear(d.year + 1)
  {
    MonthTable(d.year);
    YearLength(d.year);
  }

  /** No two dates share a day number. */
  lemma DayNumberInjective(a: Date, b: Date)
    requires ValidDate(a) && ValidDate(b) && DayNumber(a) == DayNumber(b)
    ensures a == b
  {
    DayWithinYear(a);
    DayWithinYear(b);
    if a.year < b.year {
      YearsApart(a.year, b.year);
    } else if b.year < a.year {
      YearsApart(b.year, a.year);
    }
    MonthTable(a.year);
  }

  /* ---- The conversion against the count ---- */

  lemma EraIsFloor(z: int)
    ensures TruncDiv(if z >= 0 then z else z - 146096, 146097) == z / 146097
  {
  }

  lemma YearOfEraBounds(doe: nat)
    requires doe < 146097
    ensures var yoe := YearOfEra(doe);
            var start := 365 * yoe + yoe / 4 - yoe / 100;
            && yoe < 400
            && start <= doe <= start + 365
            && (doe == start + 365 ==> (yoe + 1) % 4 == 0 && ((yoe + 1) % 100 != 0 || yoe == 399))
  {
    // doe is century c, four-year cycle q in it, and day r of that cycle
    var c := if doe == 146096 then 3 else doe / 36524;
    var q, r := (doe - 36524 * c) / 1461, (doe - 36524 * c) % 1461;
    var e := if 24 * c + q + r >= 1460 then 1 else 0;
    var t := (r - e) / 365;
    assert doe == 36524 * c + 1461 * q + r && 0 <= c <= 3 && 0 <= q <= 24 && 0 <= t <= 3;
    YearInCycle(doe, c, q, r, e, t);
    hide YearOfEra;
    YearBounds(doe, c, q, r, e, t);
  }

  lemma YearBounds(doe: nat, c: nat, q: nat, r: nat, e: nat, t: nat)
    requires doe < 146097 && c <= 3 && q <= 24 && r < 1461 && doe == 36524 * c + 1461 * q + r && t <= 3
    requires doe < 146096 ==> doe < 36524 * c + 36524
    requires e == (if 24 * c + q + r >= 1460 then 1 else 0) && t == (r - e) / 365
    ensures var yoe := 100 * c + 4 * q + t;
            var start := 365 * yoe + yoe / 4 - yoe / 100;
            && yoe < 400
            && start <= doe <= start + 365
            && (doe == start + 365 ==> (yoe + 1) % 4 == 0 && ((yoe + 1) % 100 != 0 || yoe == 399))
  {
    YearStart(c, q, t);
    LastDay(doe, c, q, r, e, t);
  }

  lemma YearStart(c: nat, q: nat, t: nat)
    requires c <= 3 && q <= 24 && t <= 3
    ensures var yoe := 100 * c + 4 * q + t;
            && yoe < 400 && 365 * yoe + yoe / 4 - yoe / 100 == 36524 * c + 1461 * q + 365 * t
            && (yoe + 1) % 4 == (t + 1) % 4 && (yoe + 1) % 100 == (4 * q + t + 1) % 100
  {
    var yoe := 100 * c + 4 * q + t;
    assert yoe / 4 == 25 * c + q && yoe / 100 == c;
  }

  /** Day 366 exists only in the last year of a cycle, and in the last cycle only of the last century. */
  lemma LastDay(doe: nat, c: nat, q: nat, r: nat, e: nat, t: nat)
    requires doe < 146097 && c <= 3 && q <= 24 && r < 1461 && doe == 36524 * c + 1461 * q + r
    requires doe < 146096 ==> doe < 36524 * c + 36524
    requires e == (if 24 * c + q + r >= 1460 then 1 else 0) && t == (r - e) / 365
    ensures 365 * t <= r <= 365 * t + 365
    ensures r == 365 * t + 365 ==> t == 3 && (q < 24 || c == 3)
  {
  }

  lemma YearInCycle(doe: nat, c: nat, q: nat, r: nat, e: nat, t: nat)
    requires doe < 146097 && c <= 3 && q <= 24 && r < 1461 && doe == 36524 * c + 1461 * q + r
    requires doe < 146096 ==> c == doe / 36524
    requires e == (if 24 * c + q + r >= 1460 then 1 else 0) && t == (r - e) / 365
    ensures YearOfEra(doe) == 100 * c + 4 * q + t
  {
    assert doe / 36524 - doe / 146096 == c;
    assert doe == 1460 * (25 * c + q) + (24 * c + q + r);
    assert doe / 1460 == 25 * c + q + e;
    assert doe - doe / 1460 + c == 365 * (100 * c + 4 * q) + (r - e);
  }

  /** The conversion yields a date of the calendar and inverts the day count. */
  lemma CivilFromDaysInvertsCount(n: int)
    ensures ValidDate(CivilFromDays(n)) && DayNumber(CivilFromDays(n)) == n
  {
    var era, doe := (n + 719468) / 146097, (n + 719468) % 146097;
    var yoe := YearOfEra(doe);
    YearOfEraBounds(doe);
    var doy := doe - (365 * yoe + yoe / 4 - yoe / 100);
    CivilFromDaysUnfolds(n, era, doe, yoe, doy);
    MarchBasedCounts(era, yoe, doy);
  }

  lemma CivilFromDaysUnfolds(n: int, era: int, doe: nat, yoe: nat, doy: nat)
    requires era == (n + 719468) / 146097 && doe == (n + 719468) % 146097
    requires yoe == YearOfEra(doe) && doy == doe - (365 * yoe + yoe / 4 - yoe / 100)
    ensures CivilFromDays(n) == MarchBased(yoe + 400 * era, doy)
  {
    hide MarchBased, YearOfEra;
    var z := n + 719468;
    EraIsFloor(z);
    assert z == era * 146097 + doe;
  }

  lemma MarchBasedCounts(era: int, yoe: nat, doy: nat)
    requires yoe < 400 && doy <= 365
    requires doy == 365 ==> (yoe + 1) % 4 == 0 && ((yoe + 1) % 100 != 0 || yoe == 399)
    ensures var date := MarchBased(yoe + 400 * era, doy);
            && ValidDate(date)
            && DayNumber(date) == 146097 * era + 365 * yoe + yoe / 4 - yoe / 100 + doy - 719468
  {
    var y := yoe + 400 * era;
    EraShift(yoe, era);
    hide LeapYear, DaysBeforeYear, MarchBased, ValidDate, DayNumber;
    MarchDayCounts(y, doy);
  }

  /** Day `doy` of the year from 1 March of year y; 306 days are left of y then. */
  lemma MarchDayCounts(y: int, doy: nat)
    requires doy < 365 || (doy == 365 && LeapYear(y + 1))
    ensures ValidDate(MarchBased(y, doy))
    ensures DayNumber(MarchBased(y, doy)) == DaysBeforeYear(y + 1) + doy - 719468
  {
    var mp: nat := (5 * doy + 2) / 153;
    var first: nat := (153 * mp + 2) / 5;
    MonthOfDay(doy, mp, first);
    YearLength(y);
    MonthTable(y);
    MonthTable(y + 1);
    assert DaysBeforeYear(1970) == 719162;
    hide DaysBeforeYear, LeapYear, DaysBeforeMonth;
  }

  lemma MonthOfDay(doy: nat, mp: nat, first: nat)
    requires doy <= 365 && mp == (5 * doy + 2) / 153 && first == (153 * mp + 2) / 5
    ensures mp <= 11 && first <= doy < first + 31
    ensures mp == 1 || mp == 3 || mp == 6 || mp == 8 ==> doy < first + 30
    ensures first == [0, 31, 61, 92, 122, 153, 184, 214, 245, 275, 306, 337][mp]
  {
  }

  lemma EraShift(yoe: nat, era: int)
    requires yoe < 400
    ensures var y := yoe + 400 * era;
            && DaysBeforeYear(y + 1) == 146097 * era + 365 * yoe + yoe / 4 - yoe / 100
            && (LeapYear(y + 1) <==> (yoe + 1) % 4 == 0 && ((yoe + 1) % 100 != 0 || yoe == 399))
  {
    EraQuotients(yoe, era);
    EraRemainders(yoe + 1, era);
  }

  lemma EraQuotients(yoe: nat, era: int)
    requires yoe < 400
    ensures var y := yoe + 400 * era;
            y / 4 == 100 * era + yoe / 4 && y / 100 == 4 * era + yoe / 100 && y / 400 == era
  {
  }

  lemma EraRemainders(n: nat, era: int)
    ensures (n + 400 * era) % 4 == n % 4 && (n + 400 * era) % 100 == n % 100 && (n + 400 * era) % 400 == n % 400
  {
    RemainderShift4(n, 100 * era);
    RemainderShift100(n, 4 * era);
    RemainderShift400(n, era);
  }

  lemma RemainderShift4(n: int, k: int)
    ensures (n + 4 * k) % 4 == n % 4
  {
  }

  lemma RemainderShift400(n: int, k: int)
    ensures (n + 400 * k) % 400 == n % 400
  {
  }

  lemma RemainderShift100(n: int, k: int)
    ensures (n + 100 * k) % 100 == n % 100
  {
  }

  /** The count of a date converts back to that date. */
  lemma CountInvertsCivilFromDays(d: Date)
    requires ValidDate(d)
    ensures CivilFromDays(DayNumber(d)) == d
  {
    CivilFromDaysInvertsCount(DayNumber(d));
    DayNumberInjective(CivilFromDays(DayNumber(d)), d);
  }

  /** Day zero is the epoch and each further day is the calendar successor of the day before,
      before and after the epoch: with this, no other function than the conversion is left. */
  lemma CivilFromDaysFollowsCalendar(n: int)
    ensures CivilFromDays(0) == EPOCH
    ensures CivilFromDays(n + 1) == NextDay(CivilFromDays(n))
  {
    CountInvertsCivilFromDays(EPOCH);
    CivilFromDaysInvertsCount(n);
    CivilFromDaysInvertsCount(n + 1);
    NextDayCounts(CivilFromDays(n));
    DayNumberInjective(CivilFromDays(n + 1), NextDay(CivilFromDays(n)));
  }

  /* ---- The 32-bit year ---- */

  const FIRST_DAY := DayNumber(Date(-0x8000_0000, 1, 1))
  const LAST_DAY := DayNumber(Date(0x7fff_ffff, 12, 31))

  /** The final cast keeps the year exactly on the days whose year fits in 32 bits. */
  lemma YearCastExact(n: int)
    ensures DaysToYmd(n) == CivilFromDays(n) <==> FIRST_DAY <= n <= LAST_DAY
  {
    CivilFromDaysInvertsCount(n);
    YearFits(CivilFromDays(n));
  }

  lemma YearFits(d: Date)
    requires ValidDate(d)
    ensures ToI32(d.year) == d.year <==> FIRST_DAY <= DayNumber(d) <= LAST_DAY
  {
    DayWithinYear(d);
    DayWithinYear(Date(-0x8000_0000, 1, 1));
    MonthTable(-0x8000_0000);
    MonthTable(0x7fff_ffff);
    YearLength(0x7fff_ffff);
    if d.year < -0x8000_0000 {
      YearsApart(d.year, -0x8000_0000);
    } else if d.year > 0x7fff_ffff {
      YearsApart(0x7fff_ffff, d.year);
    } else {
      if d.year > -0x8000_0000 { YearsApart(-0x8000_0000, d.year); }
      if d.year < 0x7fff_ffff { YearsApart(d.year, 0x7fff_ffff); }
    }
  }
}
