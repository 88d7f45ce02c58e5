/** Unix seconds printed as "YYYYMMDDHHMMSS", and the order of such strings. */
module Timestamp {
  import opened Calendar

  function Digit(n: nat): char
    requires n < 10
  {
    "0123456789"[n]
  }

  /** Decimal digits of `n`, zero-padded on the left to `width`; longer when `n` needs more. */
  function Padded(n: nat, width: nat): string
    decreases n + width
  {
    if n < 10 && width <= 1 then [Digit(n)]
    else Padded(n / 10, if width > 0 then width - 1 else 0) + [Digit(n % 10)]
  }

  function FormatTimestamp(secs: nat): string {
    var date := CivilDate(secs / 86400);
    var t := secs % 86400;
    CivilDateNat(secs / 86400);
    Padded(date.year, 4) + (Padded(date.month, 2) + (Padded(date.day, 2)
    + (Padded(t / 3600, 2) + (Padded(t % 3600 / 60, 2) + Padded(t % 60, 2)))))
  }

  // ---- dates grow with day numbers ----

  predicate DateLess(a: Date, b: Date) {
    a.year < b.year
    || (a.year == b.year && (a.month < b.month || (a.month == b.month && a.day < b.day)))
  }

  lemma {:induction false} DatesGrow(a: int, b: int)
    requires a < b
    ensures DateLess(CivilDate(a), CivilDate(b))
    decreases b - a
  {
    hide CivilDate;
    CivilDateCounts(b - 1);
    if a < b - 1 {
      DatesGrow(a, b - 1);
    }
  }

  lemma CivilDateNat(days: nat)
    ensures ValidDate(CivilDate(days)) && CivilDate(days).year >= 1970
  {
    CivilDateValid(days);
    Epoch();
    hide CivilDate;
    if days > 0 {
      DatesGrow(0, days);
    }
  }

  const Y10K_DAY: int := 2932897
  const Y10K: int := 253402300800

  lemma Year10000()
    ensures CivilDate(Y10K_DAY) == Date(10000, 1, 1)
  {
    hide CivilDate;
    CivilDateOfDays(Date(10000, 1, 1));
  }

  lemma Year9999()
    ensures CivilDate(Y10K_DAY - 1) == Date(9999, 12, 31)
  {
    hide CivilDate;
    CivilDateOfDays(Date(9999, 12, 31));
  }

  lemma YearBelow10000(days: nat)
    ensures CivilDate(days).year < 10000 <==> days < Y10K_DAY
  {
    hide CivilDate;
    Year10000();
    CivilDateValid(days);
    if days < Y10K_DAY {
      DatesGrow(days, Y10K_DAY);
    } else if days > Y10K_DAY {
      DatesGrow(Y10K_DAY, days);
    }
  }

  // ---- strings ----

  /** Lexicographic order, as Rust compares strings. */
  predicate LexLess(a: string, b: string) {
    if a == "" || b == "" then b != ""
    else a[0] < b[0] || (a[0] == b[0] && LexLess(a[1..], b[1..]))
  }

  lemma {:induction false} LexAppend(a: string, b: string, c: string, d: string)
    requires |a| == |b|
    ensures LexLess(a + c, b + d) <==> LexLess(a, b) || (a == b && LexLess(c, d))
  {
    if a == "" {
      assert a + c == c && b + d == d;
    } else {
      assert (a + c)[1..] == a[1..] + c && (b + d)[1..] == b[1..] + d;
      LexAppend(a[1..], b[1..], c, d);
      assert a == [a[0]] + a[1..] && b == [b[0]] + b[1..];
    }
  }

  function Pow10(w: nat): nat {
    if w == 0 then 1 else 10 * Pow10(w - 1)
  }

  lemma Pow10Positive(w: nat)
    ensures Pow10(w) > 0
  {
  }

  lemma {:induction false} PaddedWidth(n: nat, w: nat)
    requires w >= 1
    ensures |Padded(n, w)| >= w
    ensures |Padded(n, w)| == w <==> n < Pow10(w)
  {
    if w == 1 {
      if n >= 10 {
        PaddedNonEmpty(n / 10, 0);
      }
      assert Pow10(1) == 10 * Pow10(0);
    } else {
      PaddedWidth(n / 10, w - 1);
    }
  }

  lemma PaddedNonEmpty(n: nat, w: nat)
    ensures |Padded(n, w)| >= 1
  {
  }

  lemma {:induction false} PaddedOrder(m: nat, n: nat, w: nat)
    requires w >= 1 && m < Pow10(w) && n < Pow10(w)
    ensures LexLess(Padded(m, w), Padded(n, w)) <==> m < n
    ensures Padded(m, w) == Padded(n, w) <==> m == n
  {
    if w == 1 {
      assert Pow10(1) == 10 * Pow10(0);
      DigitOrder("", m, "", n);
      assert Padded(m, 1) == "" + [Digit(m)] && Padded(n, 1) == "" + [Digit(n)];
      assert !LexLess("", "");
    } else {
      PaddedOrder(m / 10, n / 10, w - 1);
      PaddedWidth(m / 10, w - 1);
      PaddedWidth(n / 10, w - 1);
      LastDigit(m, n, w);
    }
  }

  lemma LastDigit(m: nat, n: nat, w: nat)
    requires w >= 2 && |Padded(m / 10, w - 1)| == |Padded(n / 10, w - 1)|
    requires LexLess(Padded(m / 10, w - 1), Padded(n / 10, w - 1)) <==> m / 10 < n / 10
    requires Padded(m / 10, w - 1) == Padded(n / 10, w - 1) <==> m / 10 == n / 10
    ensures LexLess(Padded(m, w), Padded(n, w)) <==> m < n
    ensures Padded(m, w) == Padded(n, w) <==> m == n
  {
    hide LexLess;
    DigitOrder(Padded(m / 10, w - 1), m % 10, Padded(n / 10, w - 1), n % 10);
  }

  lemma DigitOrder(a: string, x: nat, b: string, y: nat)
    requires |a| == |b| && x < 10 && y < 10
    ensures LexLess(a + [Digit(x)], b + [Digit(y)]) <==> LexLess(a, b) || (a == b && x < y)
    ensures a + [Digit(x)] == b + [Digit(y)] <==> a == b && x == y
  {
    var c, d := [Digit(x)], [Digit(y)];
    LexAppend(a, b, c, d);
    assert c[1..] == "" && d[1..] == "";
    assert (a + c)[..|a|] == a && (b + d)[..|b|] == b && (a + c)[|a|] == c[0] && (b + d)[|b|] == d[0];
  }

  /** One fixed-width field decides the order, and passes it on when equal. */
  lemma FieldOrder(m: nat, n: nat, w: nat, r: string, q: string)
    requires w >= 1 && m < Pow10(w) && n < Pow10(w)
    ensures |Padded(m, w)| == |Padded(n, w)| == w
    ensures LexLess(Padded(m, w) + r, Padded(n, w) + q) <==> m < n || (m == n && LexLess(r, q))
  {
    PaddedWidth(m, w);
    PaddedWidth(n, w);
    PaddedOrder(m, n, w);
    LexAppend(Padded(m, w), Padded(n, w), r, q);
  }

  lemma Powers()
    ensures Pow10(2) == 100 && Pow10(4) == 10000
  {
    assert Pow10(1) == 10 && Pow10(2) == 100 && Pow10(3) == 1000;
  }

  function Clock(t: nat): string
    requires t < 86400
  {
    Padded(t / 3600, 2) + (Padded(t % 3600 / 60, 2) + Padded(t % 60, 2))
  }

  lemma ClockOrder(t: nat, u: nat)
    requires t < 86400 && u < 86400
    ensures |Clock(t)| == 6
    ensures LexLess(Clock(t), Clock(u)) <==> t < u
  {
    Powers();
    PaddedOrder(t % 60, u % 60, 2);
    PaddedWidth(t % 60, 2);
    var r, q := Padded(t % 60, 2), Padded(u % 60, 2);
    FieldOrder(t % 3600 / 60, u % 3600 / 60, 2, r, q);
    FieldOrder(t / 3600, u / 3600, 2, Padded(t % 3600 / 60, 2) + r, Padded(u % 3600 / 60, 2) + q);
    ClockFields(t, u);
  }

  lemma ClockFields(t: nat, u: nat)
    ensures t < u <==> t / 3600 < u / 3600
                       || (t / 3600 == u / 3600
                           && (t % 3600 / 60 < u % 3600 / 60
                               || (t % 3600 / 60 == u % 3600 / 60 && t % 60 < u % 60)))
  {
    assert t == 3600 * (t / 3600) + 60 * (t % 3600 / 60) + t % 60 by { Sixties(t); }
    assert u == 3600 * (u / 3600) + 60 * (u % 3600 / 60) + u % 60 by { Sixties(u); }
  }

  lemma Sixties(t: nat)
    ensures t == 3600 * (t / 3600) + 60 * (t % 3600 / 60) + t % 60
  {
    assert t % 3600 % 60 == t % 60;
  }

  lemma MonthDay(d: Date)
    requires ValidDate(d)
    ensures 0 < d.month < 100 && 0 < d.day < 100
  {
  }

  // ---- what the timestamp promises ----

  /** The timestamp has its 14 digits exactly until the end of the year 9999. */
  lemma TimestampWidth(secs: nat)
    ensures |FormatTimestamp(secs)| == 14 <==> secs < Y10K
  {
    var date := CivilDate(secs / 86400);
    CivilDateNat(secs / 86400);
    YearBelow10000(secs / 86400);
    MonthDay(date);
    hide CivilDate;
    Powers();
    PaddedWidth(date.year, 4);
    PaddedWidth(date.month, 2);
    PaddedWidth(date.day, 2);
    ClockOrder(secs % 86400, 0);
  }

  /** Until then the strings sort as the seconds do, so equal strings mean equal seconds. */
  lemma TimestampOrder(a: nat, b: nat)
    requires a < Y10K && b < Y10K
    ensures LexLess(FormatTimestamp(a), FormatTimestamp(b)) <==> a < b
    ensures FormatTimestamp(a) == FormatTimestamp(b) <==> a == b
  {
    StringOrder(a, b);
    StringOrder(b, a);
  }

  lemma DateOrder(a: nat, b: nat)
    ensures DateLess(CivilDate(a), CivilDate(b)) <==> a < b
    ensures CivilDate(a) == CivilDate(b) <==> a == b
  {
    hide CivilDate;
    if a < b {
      DatesGrow(a, b);
    } else if b < a {
      DatesGrow(b, a);
    }
  }

  function Dated(d: Date, rest: string): string
    requires d.year >= 0 && d.month >= 0 && d.day >= 0
  {
    Padded(d.year, 4) + (Padded(d.month, 2) + (Padded(d.day, 2) + rest))
  }

  lemma DatedOrder(d: Date, e: Date, r: string, q: string)
    requires ValidDate(d) && ValidDate(e) && 0 <= d.year < 10000 && 0 <= e.year < 10000
    ensures LexLess(Dated(d, r), Dated(e, q)) <==> DateLess(d, e) || (d == e && LexLess(r, q))
  {
    hide LexLess, Padded;
    MonthDay(d);
    MonthDay(e);
    Powers();
    var dr, eq := Padded(d.day, 2) + r, Padded(e.day, 2) + q;
    FieldOrder(d.day, e.day, 2, r, q);
    FieldOrder(d.month, e.month, 2, dr, eq);
    FieldOrder(d.year, e.year, 4, Padded(d.month, 2) + dr, Padded(e.month, 2) + eq);
  }

  lemma StringOrder(a: nat, b: nat)
    requires a < Y10K && b < Y10K
    ensures LexLess(FormatTimestamp(a), FormatTimestamp(b)) <==> a < b
  {
    hide CivilDate, Padded, LexLess;
    CivilDateNat(a / 86400);
    CivilDateNat(b / 86400);
    YearBelow10000(a / 86400);
    YearBelow10000(b / 86400);
    DateOrder(a / 86400, b / 86400);
    ClockOrder(a % 86400, b % 86400);
    DatedOrder(CivilDate(a / 86400), CivilDate(b / 86400), Clock(a % 86400), Clock(b % 86400));
  }

  /** The first second of the year 10000 prints before the last one of 9999. */
  lemma OrderEndsAt10000()
    ensures LexLess(FormatTimestamp(Y10K), FormatTimestamp(Y10K - 1))
  {
    hide CivilDate, Padded, LexLess;
    Year10000();
    Year9999();
    PaddedYears();
    LexFirst(FormatTimestamp(Y10K), FormatTimestamp(Y10K - 1));
  }

  lemma PaddedYears()
    ensures Padded(10000, 4) == "10000" && Padded(9999, 4) == "9999"
  {
    assert Padded(1, 0) == "1" && Padded(10, 1) == "10" && Padded(100, 2) == "100" && Padded(1000, 3) == "1000";
    assert Padded(9, 1) == "9" && Padded(99, 2) == "99" && Padded(999, 3) == "999";
  }

  lemma LexFirst(a: string, b: string)
    requires a != "" && b != "" && a[0] < b[0]
    ensures LexLess(a, b)
  {
  }

  ghost predicate OrderedBelow(limit: nat) {
    forall a: nat, b: nat :: a < limit && b < limit ==>
      (LexLess(FormatTimestamp(a), FormatTimestamp(b)) <==> a < b)
  }

  /** Strings sort as the seconds do on all seconds below `limit` if and only if `limit` is at most the year 10000. */
  lemma OrderLimit(limit: nat)
    ensures OrderedBelow(limit) <==> limit <= Y10K
  {
    hide FormatTimestamp, LexLess;
    if limit <= Y10K {
      forall a: nat, b: nat | a < limit && b < limit
        ensures LexLess(FormatTimestamp(a), FormatTimestamp(b)) <==> a < b
      {
        TimestampOrder(a, b);
      }
    } else {
      OrderEndsAt10000();
      assert Y10K < limit && Y10K - 1 < limit;
    }
  }

  // ---- reading a timestamp back ----

  function DigitValue(c: char): nat {
    if '0' <= c <= '9' then (c as int) - ('0' as int) else 0
  }

  /** A string of decimal digits as a number, read from the left. */
  function Decimal(s: string): nat {
    if s == "" then 0 else 10 * Decimal(s[..|s| - 1]) + DigitValue(s[|s| - 1])
  }

  predicate AllDigits(s: string) {
    forall i :: 0 <= i < |s| ==> '0' <= s[i] <= '9'
  }

  lemma DigitReads(n: nat)
    requires n < 10
    ensures '0' <= Digit(n) <= '9' && DigitValue(Digit(n)) == n
  {
    assert n == 0 || n == 1 || n == 2 || n == 3 || n == 4 || n == 5 || n == 6 || n == 7 || n == 8 || n == 9;
  }

  lemma {:induction false} PaddedReads(n: nat, width: nat)
    ensures Decimal(Padded(n, width)) == n && AllDigits(Padded(n, width))
    decreases n + width
  {
    if n < 10 && width <= 1 {
      DigitReads(n);
      assert [Digit(n)][..0] == "";
    } else {
      var w := if width > 0 then width - 1 else 0;
      PaddedReads(n / 10, w);
      DigitReads(n % 10);
      assert (Padded(n / 10, w) + [Digit(n % 10)])[..|Padded(n / 10, w)|] == Padded(n / 10, w);
    }
  }

  /** More digits than asked for are printed only if the number needs them. */
  lemma {:induction false} PaddedLeads(n: nat, width: nat)
    ensures n > 0 && |Padded(n, width)| > width ==> Padded(n, width)[0] != '0'
    decreases n + width
  {
    if n < 10 && width <= 1 {
      DigitReads(n);
    } else {
      var w := if width > 0 then width - 1 else 0;
      PaddedLeads(n / 10, w);
      PaddedNonEmpty(n / 10, w);
      if w > 0 {
        PaddedWidth(0, w);
        Pow10Positive(w);
      }
    }
  }

  datatype Moment = Moment(date: Date, hour: nat, minute: nat, second: nat)

  /** The fields of a timestamp, at fixed places from its end. */
  function ReadMoment(s: string): Moment
    requires |s| >= 14
  {
    var tail := s[|s| - 10..];
    Moment(Date(Decimal(s[..|s| - 10]), Decimal(tail[..2]), Decimal(tail[2..4])),
           Decimal(tail[4..6]), Decimal(tail[6..8]), Decimal(tail[8..]))
  }

  lemma TailPlaces(b: string, c: string, e: string, f: string, g: string)
    requires |b| == |c| == |e| == |f| == |g| == 2
    ensures var tail := b + (c + (e + (f + g)));
            && |tail| == 10 && tail[..2] == b && tail[2..4] == c && tail[4..6] == e && tail[6..8] == f && tail[8..] == g
  {
  }

  lemma DigitsAppend(a: string, b: string)
    ensures AllDigits(a) && AllDigits(b) ==> AllDigits(a + b)
  {
  }

  lemma Places(a: string, b: string, c: string, e: string, f: string, g: string)
    requires |a| >= 4 && |b| == |c| == |e| == |f| == |g| == 2
    ensures var s := a + (b + (c + (e + (f + g))));
            && |s| >= 14
            && ReadMoment(s) == Moment(Date(Decimal(a), Decimal(b), Decimal(c)), Decimal(e), Decimal(f), Decimal(g))
    ensures AllDigits(a) && AllDigits(b) && AllDigits(c) && AllDigits(e) && AllDigits(f) && AllDigits(g)
            ==> AllDigits(a + (b + (c + (e + (f + g)))))
  {
    var tail := b + (c + (e + (f + g)));
    TailPlaces(b, c, e, f, g);
    hide Decimal, AllDigits;
    DigitsAppend(f, g);
    DigitsAppend(e, f + g);
    DigitsAppend(c, e + (f + g));
    DigitsAppend(b, c + (e + (f + g)));
    DigitsAppend(a, tail);
    assert (a + tail)[..|a|] == a && (a + tail)[|a|..] == tail;
  }

  lemma FieldReads(n: nat)
    requires n < 100
    ensures |Padded(n, 2)| == 2 && Decimal(Padded(n, 2)) == n && AllDigits(Padded(n, 2))
  {
    Powers();
    PaddedReads(n, 2);
    PaddedWidth(n, 2);
  }

  lemma FieldsRead(y: nat, m: nat, d: nat, hh: nat, mm: nat, ss: nat)
    requires m < 100 && d < 100 && hh < 100 && mm < 100 && ss < 100
    ensures var s := Padded(y, 4) + (Padded(m, 2) + (Padded(d, 2)
                     + (Padded(hh, 2) + (Padded(mm, 2) + Padded(ss, 2)))));
            && |s| >= 14 && AllDigits(s)
            && ReadMoment(s) == Moment(Date(y, m, d), hh, mm, ss)
  {
    PaddedReads(y, 4);
    PaddedWidth(y, 4);
    hide Padded, Decimal, AllDigits, ReadMoment;
    FieldReads(m);
    FieldReads(d);
    FieldReads(hh);
    FieldReads(mm);
    FieldReads(ss);
    Places(Padded(y, 4), Padded(m, 2), Padded(d, 2), Padded(hh, 2), Padded(mm, 2), Padded(ss, 2));
  }

  /**
   * The timestamp is all digits, and its fields are a valid date and time of day that together count
   * exactly the seconds given; before the year 10000 the year has four of its 14 digits.
   */
  lemma TimestampReads(secs: nat)
    ensures var s := FormatTimestamp(secs);
            && |s| >= 14 && (secs < Y10K ==> |s| == 14) && AllDigits(s)
            && var m := ReadMoment(s);
               && ValidDate(m.date) && m.hour < 24 && m.minute < 60 && m.second < 60
               && DaysFromDate(m.date) * 86400 + 3600 * m.hour + 60 * m.minute + m.second == secs
  {
    var days, t := secs / 86400, secs % 86400;
    TimestampWidth(secs);
    CivilDateNat(days);
    MonthDay(CivilDate(days));
    DaysOfCivilDate(days);
    Sixties(t);
    hide CivilDate, Padded, ReadMoment, AllDigits, DaysFromDate;
    var date := CivilDate(days);
    FieldsRead(date.year, date.month, date.day, t / 3600, t % 3600 / 60, t % 60);
    assert Date(date.year, date.month, date.day) == date;
  }
}
