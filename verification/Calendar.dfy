/** Months from timestamps by closed-form arithmetic, and tranche unlocking. */
module Calendar {
  import opened Common
  import opened Arithmetic

  const SECONDS_PER_DAY: nat := 86_400
  const DAYS_FROM_YEAR0_TO_EPOCH: nat := 719_468
  const DAYS_PER_ERA: nat := 146_097
  const NUM_TRANCHES: int := 10

  // ---------- the arithmetic of the source ----------

  function YearOfEra(doe: nat): int {
    (doe - doe / 1460 + doe / 36_524 - doe / 146_096) / 365
  }

  /** Year counted from March, and day of that year. */
  datatype MarchYear = MarchYear(year: int, dayOfYear: int)

  function ToMarchYear(days: nat): MarchYear {
    var z := days + DAYS_FROM_YEAR0_TO_EPOCH;
    var era := z / DAYS_PER_ERA;
    var doe := z - era * DAYS_PER_ERA;
    var yoe := YearOfEra(doe);
    MarchYear(yoe + era * 400, doe - (365 * yoe + yoe / 4 - yoe / 100))
  }

  function MonthFromMarch(my: MarchYear): int {
    var mp := (5 * my.dayOfYear + 2) / 153;
    var m := if mp < 10 then mp + 3 else mp - 9;
    (if m <= 2 then my.year + 1 else my.year) * 100 + m
  }

  /** None for a negative timestamp, which the source rejects by throwing. */
  function MonthFromUnixTimestamp(ts: int): Option<int> {
    if ts < 0 then None else Some(MonthFromMarch(ToMarchYear(ts / SECONDS_PER_DAY)))
  }

  /** The remainder of the source's language, which takes the sign of the dividend. */
  function JsMod(a: int, b: nat): int
    requires b > 0
  {
    if a >= 0 then a % b else -((-a) % b)
  }

  function AddMonths(ym: int, n: int): int {
    var year, month := ym / 100, JsMod(ym, 100);
    var total := (month - 1) + n;
    (year + total / 12) * 100 + (JsMod(total, 12) + 1)
  }

  /** None for an index outside 1..10, which the source rejects by throwing. */
  function TrancheUnlockMonth(genesisMonth: int, idx: int): Option<int> {
    if idx < 1 || idx > NUM_TRANCHES then None else Some(AddMonths(genesisMonth, idx - 1))
  }

  function IsTrancheUnlocked(genesisMonth: int, currentMonth: int, idx: int): Option<bool> {
    match TrancheUnlockMonth(genesisMonth, idx)
    case None => None
    case Some(unlock) => Some(currentMonth >= unlock)
  }

  // ---------- the Gregorian calendar, one day at a time ----------

  datatype Date = Date(year: int, month: int, day: int)

  predicate Leap(y: int) {
    y % 4 == 0 && (y % 100 != 0 || y % 400 == 0)
  }

  function DaysInMonth(y: int, m: int): int {
    if m == 2 then (if Leap(y) then 29 else 28)
    else if m == 4 || m == 6 || m == 9 || m == 11 then 30
    else 31
  }

  function NextDay(d: Date): Date {
    if d.day < DaysInMonth(d.year, d.month) then d.(day := d.day + 1)
    else if d.month < 12 then Date(d.year, d.month + 1, 1)
    else Date(d.year + 1, 1, 1)
  }

  /** The date after walking so many days from 1 January 1970. */
  function Walk(days: nat): Date {
    if days == 0 then Date(1970, 1, 1) else NextDay(Walk(days - 1))
  }

  function YearMonth(d: Date): int {
    d.year * 100 + d.month
  }

  // ---------- the closed form follows the walk ----------

  function YearLength(year: int): int {
    if Leap(year + 1) then 366 else 365
  }

  predicate Real(my: MarchYear) {
    0 <= my.year && 0 <= my.dayOfYear < YearLength(my.year)
  }

  /** The day number of a date, counted from 1 March of year 0. */
  function DayNumber(my: MarchYear): int {
    var y := my.year % 400;
    my.year / 400 * DAYS_PER_ERA + 365 * y + y / 4 - y / 100 + my.dayOfYear
  }

  /** The year of an era in centuries, leap cycles and years, and why the closed form finds it. */
  lemma YearOfEraIsRight(a: nat, b: nat, c: nat, doy: nat)
    requires a < 4 && b < 25 && c < 4
    requires doy < 365 || (doy == 365 && c == 3 && (b < 24 || a == 3))
    ensures YearOfEra(36_524 * a + 1461 * b + 365 * c + doy) == 100 * a + 4 * b + c
  {
    var doe := 36_524 * a + 1461 * b + 365 * c + doy;
    var f := if 24 * a + b + 365 * c + doy >= 1460 then 1 else 0;
    assert doe / 1460 == 25 * a + b + f;
    var last := if doe == 146_096 then 1 else 0;
    assert doe / 36_524 == a + last && doe / 146_096 == last;
  }

  lemma EraParts(y: int) returns (a: nat, b: nat, c: nat)
    requires 0 <= y < 400
    ensures a < 4 && b < 25 && c < 4 && y == 100 * a + 4 * b + c
    ensures 365 * y + y / 4 - y / 100 == 36_524 * a + 1461 * b + 365 * c
  {
    a, b, c := y / 100, y % 100 / 4, y % 4;
  }

  /** The cycles of a year, the day of its era, and that the longest years end a cycle. */
  lemma DayOfEra(my: MarchYear) returns (a: nat, b: nat, c: nat)
    requires Real(my)
    ensures a < 4 && b < 25 && c < 4 && my.year % 400 == 100 * a + 4 * b + c
    ensures DayNumber(my) == my.year / 400 * DAYS_PER_ERA + 36_524 * a + 1461 * b + 365 * c + my.dayOfYear
    ensures my.dayOfYear < 365 || (my.dayOfYear == 365 && c == 3 && (b < 24 || a == 3))
  {
    var y := my.year % 400;
    a, b, c := EraParts(y);
    EraRepeats(my.year);
    if my.dayOfYear >= 365 {
      assert Leap(y + 1);
    }
  }

  lemma DayOfEraFits(a: nat, b: nat, c: nat, doy: nat)
    requires a < 4 && b < 25 && c < 4
    requires doy < 365 || (doy == 365 && c == 3 && (b < 24 || a == 3))
    ensures 36_524 * a + 1461 * b + 365 * c + doy < DAYS_PER_ERA
  {
  }

  lemma DaysBeforeYear(a: nat, b: nat, c: nat)
    requires a < 4 && b < 25 && c < 4
    ensures var y := 100 * a + 4 * b + c;
      365 * y + y / 4 - y / 100 == 36_524 * a + 1461 * b + 365 * c
  {
  }

  /** The closed form returns the year and day of year of any day number. */
  lemma ToMarchYearOf(my: MarchYear, days: nat)
    requires Real(my) && DayNumber(my) == days + DAYS_FROM_YEAR0_TO_EPOCH
    ensures ToMarchYear(days) == my
  {
    var a, b, c := DayOfEra(my);
    YearOfEraIsRight(a, b, c, my.dayOfYear);
    DayOfEraFits(a, b, c, my.dayOfYear);
    DaysBeforeYear(a, b, c);
    var doe := 36_524 * a + 1461 * b + 365 * c + my.dayOfYear;
    UniqueRemainder(days + DAYS_FROM_YEAR0_TO_EPOCH, DAYS_PER_ERA, my.year / 400, doe);
  }

  function NextMarch(my: MarchYear): MarchYear {
    if my.dayOfYear + 1 < YearLength(my.year) then MarchYear(my.year, my.dayOfYear + 1)
    else MarchYear(my.year + 1, 0)
  }

  lemma NextMarchDay(my: MarchYear)
    requires Real(my)
    ensures Real(NextMarch(my)) && DayNumber(NextMarch(my)) == DayNumber(my) + 1
  {
    YearEnds(my.year);
  }

  /** The leap rule repeats every era. */
  lemma EraRepeats(year: int)
    requires year >= 0
    ensures YearLength(year) == YearLength(year % 400)
  {
    var e, y := year / 400, year % 400;
    ModShift(y + 1, 100 * e, 4);
    ModShift(y + 1, 4 * e, 100);
    ModShift(y + 1, e, 400);
  }

  /** One more year adds a leap day for every fourth year but the hundredth. */
  lemma YearEndsInEra(y: int)
    requires 0 <= y < 399
    ensures (y + 1) / 4 - (y + 1) / 100 == y / 4 - y / 100 + YearLength(y) - 365
  {
    assert (y + 1) / 4 == y / 4 + (if (y + 1) % 4 == 0 then 1 else 0);
    assert (y + 1) / 100 == y / 100 + (if (y + 1) % 100 == 0 then 1 else 0);
    assert (y + 1) % 100 == 0 ==> (y + 1) % 4 == 0;
  }

  lemma YearEnds(year: int)
    requires year >= 0
    ensures DayNumber(MarchYear(year + 1, 0)) == DayNumber(MarchYear(year, 0)) + YearLength(year)
  {
    var y, era := year % 400, year / 400;
    EraRepeats(year);
    if y == 399 {
      assert (year + 1) % 400 == 0 && (year + 1) / 400 == era + 1;
    } else {
      assert (year + 1) % 400 == y + 1 && (year + 1) / 400 == era;
      YearEndsInEra(y);
    }
  }

  function ToDate(my: MarchYear): Date {
    DateInMonth(my.year, (5 * my.dayOfYear + 2) / 153, my.dayOfYear)
  }

  /** A day of the March year, given the month it lies in. */
  function DateInMonth(year: int, mp: int, day: int): Date {
    Date(if mp < 10 then year else year + 1, if mp < 10 then mp + 3 else mp - 9, day - (153 * mp + 2) / 5 + 1)
  }

  lemma NextMarchDate(my: MarchYear)
    requires Real(my)
    ensures ToDate(NextMarch(my)) == NextDay(ToDate(my))
  {
    if my.dayOfYear + 1 < YearLength(my.year) {
      NextDayOfYear(my.year, my.dayOfYear);
    } else {
      MonthOfDay(my.dayOfYear, 11);
      MonthLength(my.year, 11);
    }
  }

  lemma NextDayOfYear(year: int, day: int)
    requires 0 <= day && day + 1 < YearLength(year)
    ensures ToDate(MarchYear(year, day + 1)) == NextDay(ToDate(MarchYear(year, day)))
  {
    var mp := MonthHolding(year, day);
    var next := if day + 1 < MonthStart(mp + 1) then mp else mp + 1;
    assert ToDate(MarchYear(year, day + 1)) == DateInMonth(year, next, day + 1) by {
      StartsAscend(mp);
      MonthOfDay(day + 1, next);
    }
    NextDayInMonth(year, mp, day);
  }

  lemma StartsAscend(mp: nat)
    ensures MonthStart(mp) + 1 < MonthStart(mp + 1)
  {
  }

  lemma MonthHolding(year: int, day: nat) returns (mp: nat)
    requires day < 366
    ensures mp <= 11 && MonthStart(mp) <= day < MonthStart(mp + 1)
    ensures ToDate(MarchYear(year, day)) == DateInMonth(year, mp, day)
  {
    mp := (5 * day + 2) / 153;
    MonthOfDay(day, mp);
  }

  lemma NextDayInMonth(year: int, mp: nat, day: nat)
    requires mp <= 11 && MonthStart(mp) <= day < MonthStart(mp + 1) && day + 1 < YearLength(year)
    ensures DateInMonth(year, if day + 1 < MonthStart(mp + 1) then mp else mp + 1, day + 1)
         == NextDay(DateInMonth(year, mp, day))
  {
    MonthLength(year, mp);
  }

  /** The day of the March year on which its month mp starts. */
  function MonthStart(mp: nat): nat {
    (153 * mp + 2) / 5
  }

  lemma MonthOfDay(day: nat, mp: nat)
    ensures (5 * day + 2) / 153 == mp <==> MonthStart(mp) <= day < MonthStart(mp + 1)
  {
  }

  lemma MonthLength(year: int, mp: nat)
    requires mp <= 11
    ensures var m := if mp < 10 then mp + 3 else mp - 9;
      if mp < 11 then MonthStart(mp + 1) - MonthStart(mp) == DaysInMonth(year, m)
      else YearLength(year) - MonthStart(mp) == DaysInMonth(year + 1, m)
  {
  }

  /** The closed form and the day-by-day walk give the same date on every day. */
  lemma {:induction false} ClosedFormWalks(days: nat)
    ensures Real(ToMarchYear(days)) && DayNumber(ToMarchYear(days)) == days + DAYS_FROM_YEAR0_TO_EPOCH
    ensures ToDate(ToMarchYear(days)) == Walk(days)
  {
    if days == 0 {
      ToMarchYearOf(MarchYear(1969, 306), 0);
    } else {
      ClosedFormWalks(days - 1);
      var my := ToMarchYear(days - 1);
      NextMarchDay(my);
      NextMarchDate(my);
      ToMarchYearOf(NextMarch(my), days);
    }
  }

  lemma {:induction false} WalkIsValid(days: nat)
    ensures var d := Walk(days); d.year >= 1970 && 1 <= d.month <= 12 && 1 <= d.day <= DaysInMonth(d.year, d.month)
  {
    if days > 0 {
      WalkIsValid(days - 1);
    }
  }

  // ---------- months ----------

  predicate ValidMonth(ym: int) {
    1 <= ym % 100 <= 12
  }

  /** The number of a month, counted from year 0. */
  function MonthIndex(ym: int): int {
    ym / 100 * 12 + ym % 100 - 1
  }

  /** For every timestamp from the epoch on, the month is the one the Gregorian calendar reaches by
      walking day by day from 1 January 1970. */
  lemma MonthIsCalendarMonth(ts: int)
    ensures MonthFromUnixTimestamp(ts)
         == if ts < 0 then None else Some(YearMonth(Walk(ts / 86_400)))
  {
    if ts >= 0 {
      ClosedFormWalks(ts / SECONDS_PER_DAY);
    }
  }

  /** From one day to the next the month stays or advances by exactly one. */
  lemma MonthAdvancesByOne(days: nat)
    ensures var m, n := YearMonth(Walk(days)), YearMonth(Walk(days + 1));
      && ValidMonth(m) && m >= 197001 && (n == m || n == AddMonths(m, 1))
      && MonthIndex(m) <= MonthIndex(n) <= MonthIndex(m) + 1
  {
    WalkIsValid(days);
    var d, e := Walk(days), Walk(days + 1);
    assert e == NextDay(d);
    MonthParts(d.year, d.month);
    MonthParts(e.year, e.month);
  }

  lemma MonthParts(y: int, m: int)
    requires y >= 0 && 1 <= m <= 12
    ensures (y * 100 + m) / 100 == y && (y * 100 + m) % 100 == m
    ensures AddMonths(y * 100 + m, 1) == if m < 12 then y * 100 + m + 1 else (y + 1) * 100 + 1
  {
  }

  lemma {:induction false} MonthsAscend(a: nat, b: nat)
    requires a <= b
    ensures MonthIndex(YearMonth(Walk(a))) <= MonthIndex(YearMonth(Walk(b)))
    decreases b - a
  {
    if a < b {
      MonthAdvancesByOne(a);
      MonthsAscend(a + 1, b);
    }
  }

  lemma MonthOrder(x: int, y: int)
    requires ValidMonth(x) && ValidMonth(y)
    ensures x <= y <==> MonthIndex(x) <= MonthIndex(y)
  {
  }

  /** The month of a timestamp never decreases. */
  lemma MonthNeverDecreases(s: int, t: int)
    requires 0 <= s <= t
    ensures MonthFromUnixTimestamp(s).Some? && MonthFromUnixTimestamp(t).Some?
    ensures MonthFromUnixTimestamp(s).value <= MonthFromUnixTimestamp(t).value
  {
    var a, b := s / SECONDS_PER_DAY, t / SECONDS_PER_DAY;
    MonthIsCalendarMonth(s);
    MonthIsCalendarMonth(t);
    MonthAdvancesByOne(a);
    MonthAdvancesByOne(b);
    MonthsAscend(a, b);
    MonthOrder(YearMonth(Walk(a)), YearMonth(Walk(b)));
  }

  /** Adding months is right exactly when the shift does not reach back before the start of the
      year, or reaches back by whole years: otherwise the remainder's sign breaks the month. */
  lemma AddMonthsIsRightIff(ym: int, n: int)
    requires ym >= 0 && ValidMonth(ym)
    ensures ValidMonth(AddMonths(ym, n)) && MonthIndex(AddMonths(ym, n)) == MonthIndex(ym) + n
       <==> ym % 100 - 1 + n >= 0 || (ym % 100 - 1 + n) % 12 == 0
  {
    var total := ym % 100 - 1 + n;
    var m := JsMod(total, 12) + 1;
    SignedRemainder(total);
    YearAndMonth(ym / 100 + total / 12, m);
  }

  lemma SignedRemainder(total: int)
    ensures -11 <= JsMod(total, 12) <= 11
    ensures JsMod(total, 12) >= 0 <==> total >= 0 || total % 12 == 0
    ensures JsMod(total, 12) >= 0 ==> total == 12 * (total / 12) + JsMod(total, 12)
  {
    if total < 0 {
      var r := (-total) % 12;
      assert total % 12 == if r == 0 then 0 else 12 - r;
    }
  }

  lemma YearAndMonth(y: int, m: int)
    requires -10 <= m <= 12
    ensures m >= 0 ==> (y * 100 + m) / 100 == y && (y * 100 + m) % 100 == m
    ensures m < 0 ==> (y * 100 + m) % 100 == 100 + m
  {
  }

  lemma Forward(ym: int, n: nat)
    requires ym >= 0 && ValidMonth(ym)
    ensures AddMonths(ym, n) >= 0 && ValidMonth(AddMonths(ym, n))
    ensures MonthIndex(AddMonths(ym, n)) == MonthIndex(ym) + n
  {
    AddMonthsIsRightIff(ym, n);
  }

  lemma SameIndexSameMonth(x: int, y: int)
    requires ValidMonth(x) && ValidMonth(y) && MonthIndex(x) == MonthIndex(y)
    ensures x == y
  {
    MonthOrder(x, y);
    MonthOrder(y, x);
  }

  /** Forward shifts add up. */
  lemma AddMonthsAdds(ym: int, m: nat, n: nat)
    requires ym >= 0 && ValidMonth(ym)
    ensures AddMonths(AddMonths(ym, m), n) == AddMonths(ym, m + n)
    ensures AddMonths(ym, 0) == ym
  {
    Forward(ym, m);
    Forward(ym, m + n);
    Forward(AddMonths(ym, m), n);
    SameIndexSameMonth(AddMonths(AddMonths(ym, m), n), AddMonths(ym, m + n));
    Forward(ym, 0);
    SameIndexSameMonth(AddMonths(ym, 0), ym);
  }

  // ---------- tranches ----------

  /** A tranche that is unlocked at some time is unlocked at every later time, and so is every
      tranche before it. */
  lemma UnlockedStaysUnlocked(genesisMonth: int, s: int, t: int, idx: int, earlier: int)
    requires genesisMonth >= 0 && ValidMonth(genesisMonth) && 0 <= s <= t && 1 <= earlier <= idx <= NUM_TRANCHES
    requires MonthFromUnixTimestamp(s).Some?
    requires IsTrancheUnlocked(genesisMonth, MonthFromUnixTimestamp(s).value, idx) == Some(true)
    ensures MonthFromUnixTimestamp(t).Some?
    ensures IsTrancheUnlocked(genesisMonth, MonthFromUnixTimestamp(t).value, earlier) == Some(true)
  {
    MonthNeverDecreases(s, t);
    AddMonthsIsRightIff(genesisMonth, idx - 1);
    AddMonthsIsRightIff(genesisMonth, earlier - 1);
    MonthOrder(AddMonths(genesisMonth, earlier - 1), AddMonths(genesisMonth, idx - 1));
  }

  /** The tranches open one a month: tranche idx is unlocked exactly from idx - 1 months after the
      genesis month on. */
  lemma UnlockedExactly(genesisMonth: int, currentMonth: int, idx: int)
    requires genesisMonth >= 0 && ValidMonth(genesisMonth) && ValidMonth(currentMonth)
    ensures IsTrancheUnlocked(genesisMonth, currentMonth, idx)
         == if 1 <= idx <= 10 then Some(MonthIndex(currentMonth) - MonthIndex(genesisMonth) >= idx - 1)
            else None
  {
    if 1 <= idx <= NUM_TRANCHES {
      AddMonthsIsRightIff(genesisMonth, idx - 1);
      MonthOrder(AddMonths(genesisMonth, idx - 1), currentMonth);
    }
  }
}
