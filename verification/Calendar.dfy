/** Days since 1970-01-01 as dates of the proleptic Gregorian calendar. */
module Calendar {

  /** Rust's integer division: it truncates toward zero. */
  function TruncDiv(a: int, b: int): int
    requires b > 0
  {
    if a >= 0 then a / b else -((-a) / b)
  }

  datatype Date = Date(year: int, month: int, day: int)

  // ---- the calendar itself (ISO 8601:2004, section 3.2.1) ----

  predicate IsLeap(y: int) {
    y % 4 == 0 && (y % 100 != 0 || y % 400 == 0)
  }

  function DaysInMonth(y: int, m: int): int {
    if m == 2 then (if IsLeap(y) then 29 else 28)
    else if m == 4 || m == 6 || m == 9 || m == 11 then 30
    else 31
  }

  predicate ValidDate(d: Date) {
    1 <= d.month <= 12 && 1 <= d.day <= DaysInMonth(d.year, d.month)
  }

  function NextDay(d: Date): Date {
    if d.day < DaysInMonth(d.year, d.month) then d.(day := d.day + 1)
    else if d.month < 12 then Date(d.year, d.month + 1, 1)
    else Date(d.year + 1, 1, 1)
  }

  // ---- the program's conversion ----

  function CivilDate(days: int): Date {
    var z := days + 719468;
    var era := TruncDiv(if z >= 0 then z else z - 146096, 146097);
    assert 0 <= z - era * 146097 < 146097;
    DateOfEra(era, z - era * 146097)
  }

  /** From here on no dividend is negative, so truncation does not show. */
  function DateOfEra(era: int, doe: int): Date
    requires 0 <= doe < 146097
  {
    var yoe := YearOfEra(doe);
    var doy := doe - YearStart(yoe);
    var mp := (5 * doy + 2) / 153;
    var d := doy - (153 * mp + 2) / 5 + 1;
    var m := if mp < 10 then mp + 3 else mp - 9;
    var y := yoe + era * 400;
    Date(if m <= 2 then y + 1 else y, m, d)
  }

  function YearOfEra(doe: int): int {
    (doe - doe / 1460 + doe / 36524 - doe / 146096) / 365
  }

  function YearStart(yoe: int): int {
    365 * yoe + yoe / 4 - yoe / 100
  }

  /** The forward formula: days since 1970-01-01 of a date. */
  function DaysFromDate(date: Date): int {
    var y := if date.month <= 2 then date.year - 1 else date.year;
    var m := if date.month <= 2 then date.month + 12 else date.month;
    var era := TruncDiv(if y >= 0 then y else y - 399, 400);
    var yoe := y - era * 400;
    var doy := TruncDiv(153 * (m - 3) + 2, 5) + date.day - 1;
    var doe := YearStart(yoe) + doy;
    era * 146097 + doe - 719468
  }

  // ---- years of an era ----

  /** Centuries, four-year groups and years of a day in a 400-year era. */
  lemma EraParts(doe: int) returns (q: int, p: int, t: int, u: int)
    requires 0 <= doe < 146097
    ensures 0 <= q < 4 && 0 <= p < 25 && 0 <= t < 4
    ensures doe == 36524 * q + 1461 * p + 365 * t + u
    ensures 0 <= u <= 365
    ensures u == 365 ==> t == 3 && (p == 24 ==> q == 3)
    ensures p == 24 && q < 3 ==> 365 * t + u < 1460
    ensures (doe == 146096) == (q == 3 && p == 24 && t == 3 && u == 365)
  {
    q := if doe == 146096 then 3 else doe / 36524;
    var r := doe - 36524 * q;
    p := r / 1461;
    var s := r - 1461 * p;
    t := if s == 1460 then 3 else s / 365;
    u := s - 365 * t;
  }

  lemma YearOfParts(q: int, p: int, t: int, u: int)
    requires 0 <= q < 4 && 0 <= p < 25 && 0 <= t < 4 && 0 <= u <= 365
    requires u == 365 ==> t == 3 && (p == 24 ==> q == 3)
    requires p == 24 && q < 3 ==> 365 * t + u < 1460
    ensures YearOfEra(36524 * q + 1461 * p + 365 * t + u) == 100 * q + 4 * p + t
    ensures YearStart(100 * q + 4 * p + t) == 36524 * q + 1461 * p + 365 * t
    ensures u == 365 ==> IsLeap(100 * q + 4 * p + t + 1)
  {
    var s := 365 * t + u;
    var doe := 36524 * q + 1461 * p + s;
    var e := if 24 * q + p + s >= 1460 then 1 else 0;
    assert doe / 1460 == 25 * q + p + e;
    assert doe / 36524 - doe / 146096 == q;
    assert YearOfEra(doe) == (365 * (100 * q + 4 * p) + s - e) / 365;
    assert (4 * p + t) / 4 == p;
    assert (100 * q + 4 * p + t) / 4 == 25 * q + p;
    assert (100 * q + 4 * p + t) / 100 == q;
  }

  lemma YearBracket(doe: int)
    requires 0 <= doe < 146097
    ensures var yoe := YearOfEra(doe);
            && 0 <= yoe < 400
            && 0 <= doe - YearStart(yoe) <= (if IsLeap(yoe + 1) then 365 else 364)
  {
    var q, p, t, u := EraParts(doe);
    YearOfParts(q, p, t, u);
  }

  // ---- years counted from 1 March, without eras ----

  /** Days from 1 March of year 0 to 1 March of year `y`. */
  function MarchStart(y: int): int {
    365 * y + y / 4 - y / 100 + y / 400
  }

  function LastDay(y: int): int {
    if IsLeap(y + 1) then 365 else 364
  }

  /** Day number `days` is day `doy` of the year that starts on 1 March of year `y`. */
  predicate InYear(days: int, y: int, doy: int) {
    0 <= doy <= LastDay(y) && days + 719468 == MarchStart(y) + doy
  }

  lemma YearLength(y: int)
    ensures MarchStart(y + 1) == MarchStart(y) + LastDay(y) + 1
  {
    assert (y + 1) / 4 - y / 4 == if (y + 1) % 4 == 0 then 1 else 0;
    assert (y + 1) / 100 - y / 100 == if (y + 1) % 100 == 0 then 1 else 0;
    assert (y + 1) / 400 - y / 400 == if (y + 1) % 400 == 0 then 1 else 0;
    assert (y + 1) % 400 == 0 ==> (y + 1) % 100 == 0;
    assert (y + 1) % 100 == 0 ==> (y + 1) % 4 == 0;
  }

  lemma {:induction false} MarchStartGrows(a: int, b: int)
    requires a < b
    ensures MarchStart(a) + LastDay(a) < MarchStart(b)
    decreases b - a
  {
    YearLength(a);
    if a + 1 < b {
      MarchStartGrows(a + 1, b);
    }
  }

  lemma InYearUnique(days: int, y: int, doy: int, y': int, doy': int)
    requires InYear(days, y, doy) && InYear(days, y', doy')
    ensures y == y' && doy == doy'
  {
    if y < y' {
      MarchStartGrows(y, y');
    } else if y' < y {
      MarchStartGrows(y', y);
    }
  }

  lemma {:induction false} EraShift(y: int, era: int)
    ensures IsLeap(y + 400 * era) == IsLeap(y)
    ensures MarchStart(y + 400 * era) == MarchStart(y) + 146097 * era
    decreases if era < 0 then -era else era
  {
    if era > 0 {
      EraShift(y, era - 1);
      EraStep(y + 400 * (era - 1));
    } else if era < 0 {
      EraShift(y, era + 1);
      EraStep(y + 400 * era);
    }
  }

  lemma EraStep(y: int)
    ensures IsLeap(y + 400) == IsLeap(y)
    ensures MarchStart(y + 400) == MarchStart(y) + 146097
  {
    ShiftBy4(y);
    ShiftBy100(y);
    ShiftBy400(y);
  }

  lemma ShiftBy4(y: int)
    ensures (y + 400) / 4 == y / 4 + 100 && (y + 400) % 4 == y % 4
  {
  }

  lemma ShiftBy100(y: int)
    ensures (y + 400) / 100 == y / 100 + 4 && (y + 400) % 100 == y % 100
  {
  }

  lemma ShiftBy400(y: int)
    ensures (y + 400) / 400 == y / 400 + 1 && (y + 400) % 400 == y % 400
  {
  }

  /** Day `doy` of the year that starts on 1 March of year `y`. */
  function FromMarch(y: int, doy: int): Date {
    var mp := (5 * doy + 2) / 153;
    var m := if mp < 10 then mp + 3 else mp - 9;
    Date(if m <= 2 then y + 1 else y, m, doy - (153 * mp + 2) / 5 + 1)
  }

  lemma FromMarchValid(y: int, doy: int)
    requires 0 <= doy <= LastDay(y)
    ensures ValidDate(FromMarch(y, doy))
  {
  }

  lemma FromMarchNext(y: int, doy: int)
    requires 0 <= doy <= LastDay(y)
    ensures NextDay(FromMarch(y, doy)) == if doy < LastDay(y) then FromMarch(y, doy + 1) else FromMarch(y + 1, 0)
  {
    var mp := (5 * doy + 2) / 153;
    assert 0 <= mp <= 11;
  }

  // ---- the program's formulas in those terms ----

  lemma FloorOfTrunc(z: int)
    ensures TruncDiv(if z >= 0 then z else z - 146096, 146097) == z / 146097
  {
  }

  lemma CivilDateEra(days: int) returns (era: int, doe: int)
    ensures 0 <= doe < 146097 && days + 719468 == 146097 * era + doe
    ensures CivilDate(days) == DateOfEra(era, doe)
  {
    FloorOfTrunc(days + 719468);
    era, doe := (days + 719468) / 146097, (days + 719468) % 146097;
  }

  lemma DateOfEraIsMarch(era: int, doe: int)
    requires 0 <= doe < 146097
    ensures DateOfEra(era, doe) == FromMarch(YearOfEra(doe) + 400 * era, doe - YearStart(YearOfEra(doe)))
  {
  }

  lemma LocateInEra(era: int, doe: int) returns (y: int, doy: int)
    requires 0 <= doe < 146097
    ensures InYear(146097 * era + doe - 719468, y, doy)
    ensures y == YearOfEra(doe) + 400 * era && doy == doe - YearStart(YearOfEra(doe))
  {
    YearBracket(doe);
    var yoe := YearOfEra(doe);
    y, doy := yoe + 400 * era, doe - YearStart(yoe);
    EraShift(yoe, era);
    EraShift(yoe + 1, era);
    assert MarchStart(yoe) == YearStart(yoe);
  }

  lemma Locate(days: int) returns (y: int, doy: int)
    ensures InYear(days, y, doy) && CivilDate(days) == FromMarch(y, doy)
  {
    var era, doe := CivilDateEra(days);
    y, doy := LocateInEra(era, doe);
    DateOfEraIsMarch(era, doe);
  }

  lemma EraOfTrunc(y: int)
    ensures TruncDiv(if y >= 0 then y else y - 399, 400) == y / 400
  {
  }

  /** The month and day formulas of the two conversions undo each other. */
  lemma MarchToDays(y: int, doy: int)
    requires 0 <= doy <= 365
    ensures DaysFromDate(FromMarch(y, doy)) == MarchStart(y) + doy - 719468
  {
    hide MarchStart, YearStart;
    var mp := (5 * doy + 2) / 153;
    assert 0 <= mp <= 11;
    EraOfTrunc(y);
    EraShift(y % 400, y / 400);
    assert MarchStart(y % 400) == YearStart(y % 400) by {
      hide *;
      SameStart(y % 400);
    }
  }

  lemma SameStart(yoe: int)
    requires 0 <= yoe < 400
    ensures MarchStart(yoe) == YearStart(yoe)
  {
  }

  lemma MarchOfDate(d: Date) returns (y: int, doy: int)
    requires ValidDate(d)
    ensures 0 <= doy <= LastDay(y) && FromMarch(y, doy) == d
  {
    y := if d.month <= 2 then d.year - 1 else d.year;
    var mp := if d.month <= 2 then d.month + 9 else d.month - 3;
    doy := (153 * mp + 2) / 5 + d.day - 1;
  }

  // ---- what the conversion means, for every day number ----

  lemma CivilDateValid(days: int)
    ensures ValidDate(CivilDate(days))
  {
    var y, doy := Locate(days);
    FromMarchValid(y, doy);
  }

  lemma Epoch()
    ensures CivilDate(0) == Date(1970, 1, 1)
  {
  }

  /** Each day number is followed by the calendar's next day. */
  lemma CivilDateCounts(days: int)
    ensures CivilDate(days + 1) == NextDay(CivilDate(days))
  {
    hide CivilDate, InYear, FromMarch, NextDay;
    var y, doy := Locate(days);
    var y', doy' := Locate(days + 1);
    FromMarchNext(y, doy);
    Consecutive(days, y, doy, y', doy');
  }

  lemma Consecutive(days: int, y: int, doy: int, y': int, doy': int)
    requires InYear(days, y, doy) && InYear(days + 1, y', doy')
    ensures if doy < LastDay(y) then y' == y && doy' == doy + 1 else y' == y + 1 && doy' == 0
  {
    YearLength(y);
    if doy < LastDay(y) {
      InYearUnique(days + 1, y, doy + 1, y', doy');
    } else {
      InYearUnique(days + 1, y + 1, 0, y', doy');
    }
  }

  lemma DaysOfCivilDate(days: int)
    ensures DaysFromDate(CivilDate(days)) == days
  {
    var y, doy := Locate(days);
    MarchToDays(y, doy);
  }

  lemma CivilDateOfDays(d: Date)
    requires ValidDate(d)
    ensures CivilDate(DaysFromDate(d)) == d
  {
    var y, doy := MarchOfDate(d);
    MarchToDays(y, doy);
    var y', doy' := Locate(DaysFromDate(d));
    InYearUnique(DaysFromDate(d), y, doy, y', doy');
  }
}
