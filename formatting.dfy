/**
 * The .NET text renderings the CSV export uses: `Guid.ToString()` (the "D"
 * format: 32 lower-case hex digits in groups 8-4-4-4-12), `bool.ToString()`
 * ("True"/"False") and `DateTime.ToString("o")` for a value read back from
 * SQLite, whose kind is Unspecified: `yyyy-MM-ddTHH:mm:ss.fffffff` with no
 * offset suffix. Dates are proleptic Gregorian, counted from 0001-01-01.
 */
module Formatting {
  import opened Entities

  // ---------------------------------------------------------------- digits

  function Pow16(w: nat): (r: nat)
    ensures r >= 1
  {
    if w == 0 then 1 else 16 * Pow16(w - 1)
  }

  predicate IsHexDigit(c: char) {
    ('0' <= c <= '9') || ('a' <= c <= 'f')
  }

  predicate IsDecDigit(c: char) {
    '0' <= c <= '9'
  }

  predicate AllHex(s: string) {
    forall i :: 0 <= i < |s| ==> IsHexDigit(s[i])
  }

  predicate AllDec(s: string) {
    forall i :: 0 <= i < |s| ==> IsDecDigit(s[i])
  }

  function HexDigit(d: nat): (c: char)
    requires d < 16
    ensures IsHexDigit(c)
  {
    if d < 10 then ('0' as int + d) as char else ('a' as int + d - 10) as char
  }

  function HexValue(c: char): (d: nat)
    requires IsHexDigit(c)
    ensures d < 16 && HexDigit(d) == c
  {
    if c <= '9' then c as int - '0' as int else c as int - 'a' as int + 10
  }

  /** `n` in exactly `width` hex digits, most significant first (higher digits dropped). */
  function Hex(n: nat, width: nat): (r: string)
    ensures |r| == width && AllHex(r)
  {
    if width == 0 then [] else Hex(n / 16, width - 1) + [HexDigit(n % 16)]
  }

  function ParseHex(s: string): nat
    requires AllHex(s)
  {
    if s == [] then 0 else 16 * ParseHex(s[..|s| - 1]) + HexValue(s[|s| - 1])
  }

  /** Reading the digits back gives the number, when it fits the width. */
  lemma {:induction false} HexRoundTrip(n: nat, width: nat)
    requires n < Pow16(width)
    ensures ParseHex(Hex(n, width)) == n
  {
    if width > 0 {
      HexRoundTrip(n / 16, width - 1);
      var h := Hex(n, width);
      assert h[..|h| - 1] == Hex(n / 16, width - 1);
      assert HexValue(h[|h| - 1]) == n % 16;
    }
  }

  function DecDigit(d: nat): (c: char)
    requires d < 10
    ensures IsDecDigit(c)
  {
    ('0' as int + d) as char
  }

  function DecValue(c: char): (d: nat)
    requires IsDecDigit(c)
    ensures d < 10 && DecDigit(d) == c
  {
    c as int - '0' as int
  }

  /** `n` in decimal, zero-padded to at least `width` digits (a custom format such as "yyyy" or "MM"). */
  function Dec(n: nat, width: nat): (r: string)
    ensures |r| >= 1 && |r| >= width && AllDec(r)
    decreases n + width
  {
    if width <= 1 && n < 10 then [DecDigit(n)]
    else Dec(n / 10, if width == 0 then 0 else width - 1) + [DecDigit(n % 10)]
  }

  function ParseDec(s: string): nat
    requires AllDec(s)
  {
    if s == [] then 0 else 10 * ParseDec(s[..|s| - 1]) + DecValue(s[|s| - 1])
  }

  function Pow10(w: nat): (r: nat)
    ensures r >= 1
  {
    if w == 0 then 1 else 10 * Pow10(w - 1)
  }

  /** Reading the digits back gives the number; a number below `10^width` takes exactly `width` digits. */
  lemma {:induction false} DecRoundTrip(n: nat, width: nat)
    ensures ParseDec(Dec(n, width)) == n
    ensures width >= 1 && n < Pow10(width) ==> |Dec(n, width)| == width
    decreases n + width
  {
    if !(width <= 1 && n < 10) {
      var w' := if width == 0 then 0 else width - 1;
      DecRoundTrip(n / 10, w');
      var d := Dec(n, width);
      assert d[..|d| - 1] == Dec(n / 10, w');
      assert DecValue(d[|d| - 1]) == n % 10;
      if width >= 1 && n < Pow10(width) {
        assert n / 10 < Pow10(w');
      }
    }
  }

  // ---------------------------------------------------------------- Guid

  predicate IsGuidText(s: string) {
    && |s| == 36
    && (forall i :: 0 <= i < 36 ==> if i == 8 || i == 13 || i == 18 || i == 23 then s[i] == '-' else IsHexDigit(s[i]))
  }

  /** `Guid.ToString()`. */
  function FormatGuid(g: Uuid): string {
    var h := Hex(g, 32);
    h[..8] + "-" + h[8..12] + "-" + h[12..16] + "-" + h[16..20] + "-" + h[20..]
  }

  /** `Guid.Parse` of the "D" format. */
  function ParseGuid(s: string): nat
    requires IsGuidText(s)
  {
    var digits := s[..8] + s[9..13] + s[14..18] + s[19..23] + s[24..];
    assert AllHex(digits) by {
      forall i | 0 <= i < |digits|
        ensures IsHexDigit(digits[i])
      {
        if i < 8 { assert digits[i] == s[i]; }
        else if i < 12 { assert digits[i] == s[i + 1]; }
        else if i < 16 { assert digits[i] == s[i + 2]; }
        else if i < 20 { assert digits[i] == s[i + 3]; }
        else { assert digits[i] == s[i + 4]; }
      }
    }
    ParseHex(digits)
  }

  lemma GuidBoundIsPow16()
    ensures Pow16(32) == GuidBound
  {
    assert Pow16(8) == 0x1_0000_0000;
    assert Pow16(16) == Pow16(8) * Pow16(8) by {
      Pow16Add(8, 8);
    }
    Pow16Add(16, 16);
  }

  lemma {:induction false} Pow16Add(a: nat, b: nat)
    ensures Pow16(a + b) == Pow16(a) * Pow16(b)
  {
    if b > 0 {
      Pow16Add(a, b - 1);
      assert Pow16(a + b) == 16 * Pow16(a + b - 1);
      assert Pow16(a) * Pow16(b) == Pow16(a) * (16 * Pow16(b - 1));
    }
  }

  /** `Guid.ToString()` writes the "D" layout. */
  lemma GuidText(g: Uuid)
    ensures IsGuidText(FormatGuid(g))
  {
    var h := Hex(g, 32);
    var s := FormatGuid(g);
    assert |s| == 36;
    forall i | 0 <= i < 36
      ensures if i == 8 || i == 13 || i == 18 || i == 23 then s[i] == '-' else IsHexDigit(s[i])
    {
      if i < 8 { assert s[i] == h[i]; }
      else if 8 < i < 13 { assert s[i] == h[i - 1]; }
      else if 13 < i < 18 { assert s[i] == h[i - 2]; }
      else if 18 < i < 23 { assert s[i] == h[i - 3]; }
      else if 23 < i { assert s[i] == h[i - 4]; }
    }
  }

  /** The printed form names the Guid: parsing it back gives the same value. */
  lemma GuidRoundTrip(g: Uuid)
    ensures IsGuidText(FormatGuid(g)) && ParseGuid(FormatGuid(g)) == g
  {
    GuidText(g);
    var h := Hex(g, 32);
    var s := FormatGuid(g);
    assert s[..8] == h[..8] && s[9..13] == h[8..12] && s[14..18] == h[12..16];
    assert s[19..23] == h[16..20] && s[24..] == h[20..];
    assert h[..8] + h[8..12] + h[12..16] + h[16..20] + h[20..] == h;
    GuidBoundIsPow16();
    HexRoundTrip(g, 32);
  }

  // ---------------------------------------------------------------- bool

  /** `bool.ToString()`. */
  function FormatBool(b: bool): (r: string)
    ensures r == "True" || r == "False"
    ensures (r == "True") <==> b
  {
    if b then "True" else "False"
  }

  // ---------------------------------------------------------------- DateTime

  const TicksPerSecond: nat := 10_000_000
  const TicksPerMinute: nat := 600_000_000
  const TicksPerHour: nat := 36_000_000_000
  const TicksPerDay: nat := 864_000_000_000

  /** The Gregorian leap-year rule. */
  predicate IsLeapYear(year: nat) {
    year % 4 == 0 && (year % 100 != 0 || year % 400 == 0)
  }

  /** Days from 0001-01-01 to January 1st of `year` (the .NET `DaysToYear`). */
  function DaysBeforeYear(year: nat): int
    requires year >= 1
  {
    var y := year - 1;
    365 * y + y / 4 - y / 100 + y / 400
  }

  /** Days of a common year before the first day of each month, and the whole year last. */
  const CommonDaysToMonth: seq<nat> := [0, 31, 59, 90, 120, 151, 181, 212, 243, 273, 304, 334, 365]

  /** Days of the year before the first day of month `m + 1`; a leap year adds February 29th. */
  function DaysToMonth(leap: bool, m: nat): (r: nat)
    requires m <= 12
  {
    CommonDaysToMonth[m] + if leap && m >= 2 then 1 else 0
  }

  /** No month is longer than 31 days. */
  lemma MonthLength(leap: bool, m: nat)
    requires 1 <= m <= 12
    ensures DaysToMonth(leap, m - 1) < DaysToMonth(leap, m) <= DaysToMonth(leap, m - 1) + 31
  {
  }

  /** The month holding day `n` (0-based) of the year, searched upwards from month `m`. */
  function MonthOf(leap: bool, n: nat, m: nat): (r: nat)
    requires 1 <= m <= 12 && DaysToMonth(leap, m - 1) <= n < DaysToMonth(leap, 12)
    ensures m <= r <= 12 && DaysToMonth(leap, r - 1) <= n < DaysToMonth(leap, r)
    decreases 12 - m
  {
    if n >= DaysToMonth(leap, m) then MonthOf(leap, n, m + 1) else m
  }

  /**
   * A day count split into the .NET cycles: `y400` 400-year cycles of 146097
   * days, `y100` centuries of 36524 days, `y4` 4-year cycles of 1461 days and
   * `y1` years of 365 days, leaving `dayOfYear`. The last century of a
   * 400-year cycle and the last year of a 4-year cycle absorb the extra day.
   */
  datatype Cycles = Cycles(y400: nat, y100: nat, y4: nat, y1: nat, dayOfYear: nat)

  function Century(n1: nat): (r: (nat, nat))
    requires n1 < 146097
    ensures r.0 < 4 && n1 == 36524 * r.0 + r.1
    ensures r.1 <= 36524 && (r.1 == 36524 ==> r.0 == 3)
  {
    var q := n1 / 36524;
    var y100 := if q == 4 then 3 else q;
    (y100, n1 - 36524 * y100)
  }

  function FourYears(n2: nat): (r: (nat, nat))
    requires n2 <= 36524
    ensures r.0 < 25 && n2 == 1461 * r.0 + r.1 && r.1 < 1461
    ensures r.0 == 24 ==> r.1 <= 1460 && (r.1 == 1460 ==> n2 == 36524)
  {
    (n2 / 1461, n2 % 1461)
  }

  function Years(n3: nat): (r: (nat, nat))
    requires n3 < 1461
    ensures r.0 < 4 && n3 == 365 * r.0 + r.1
    ensures r.1 <= 365 && (r.1 == 365 ==> r.0 == 3 && n3 == 1460)
  {
    var q := n3 / 365;
    var y1 := if q == 4 then 3 else q;
    (y1, n3 - 365 * y1)
  }

  /** .NET's leap flag for the year the cycles end in. */
  predicate CycleLeap(c: Cycles) {
    c.y1 == 3 && (c.y4 != 24 || c.y100 == 3)
  }

  function CyclesOf(n: nat): (r: Cycles)
    ensures r.y100 < 4 && r.y4 < 25 && r.y1 < 4
    ensures n == 146097 * r.y400 + 36524 * r.y100 + 1461 * r.y4 + 365 * r.y1 + r.dayOfYear
    ensures r.dayOfYear < DaysToMonth(CycleLeap(r), 12)
  {
    var c := Century(n % 146097);
    var f := FourYears(c.1);
    var y := Years(f.1);
    Cycles(n / 146097, c.0, f.0, y.0, y.1)
  }

  datatype CivilDate = CivilDate(year: nat, month: nat, day: nat)

  /** The calendar date `n` days after 0001-01-01, by the .NET `GetDatePart` method. */
  function DatePart(n: nat): (r: CivilDate)
    ensures r.year >= 1 && 1 <= r.month <= 12 && 1 <= r.day <= 31
  {
    var c := CyclesOf(n);
    var leap := CycleLeap(c);
    var month := MonthOf(leap, c.dayOfYear, 1);
    MonthLength(leap, month);
    CivilDate(400 * c.y400 + 100 * c.y100 + 4 * c.y4 + c.y1 + 1, month, c.dayOfYear - DaysToMonth(leap, month - 1) + 1)
  }

  datatype Civil = Civil(date: CivilDate, hour: nat, minute: nat, second: nat, fraction: nat)

  /** The calendar fields of a tick count. */
  function CivilOf(ticks: DateTime): (r: Civil)
    ensures r.date == DatePart(ticks / TicksPerDay)
    ensures r.hour < 24 && r.minute < 60 && r.second < 60 && r.fraction < TicksPerSecond
  {
    var t := ticks % TicksPerDay;
    Civil(DatePart(ticks / TicksPerDay), t / TicksPerHour, (t / TicksPerMinute) % 60, (t / TicksPerSecond) % 60, ticks % TicksPerSecond)
  }

  /** The time of day recombines into the ticks past midnight. */
  lemma TimeOfDayRecombines(ticks: DateTime)
    ensures var c := CivilOf(ticks);
      c.hour * TicksPerHour + c.minute * TicksPerMinute + c.second * TicksPerSecond + c.fraction == ticks % TicksPerDay
  {
    var t := ticks % TicksPerDay;
    var s := t / TicksPerSecond;
    SecondFraction(ticks);
    WholeSeconds(t);
    SecondsRecombine(s);
    var c := CivilOf(ticks);
    assert c.hour == s / 3600 && c.minute == (s / 60) % 60 && c.second == s % 60;
    ScaleSeconds(t, s, c.fraction, c.hour, c.minute, c.second);
  }

  /** The fraction of a second is the same within the day as overall. */
  lemma SecondFraction(ticks: nat)
    ensures ticks % TicksPerDay == (ticks % TicksPerDay / TicksPerSecond) * TicksPerSecond + ticks % TicksPerSecond
  {
    var r := ticks % TicksPerDay;
    var q, f := r / TicksPerSecond, r % TicksPerSecond;
    assert r == q * TicksPerSecond + f;
    var k := (ticks / TicksPerDay) * 86400 + q;
    assert ticks == k * TicksPerSecond + f;
    RemainderUnique(ticks, k, f);
  }

  /** The remainder by a second's ticks is the only one below it. */
  lemma RemainderUnique(n: nat, k: nat, f: nat)
    requires n == k * TicksPerSecond + f && f < TicksPerSecond
    ensures n % TicksPerSecond == f
  {
  }

  /** Hours, minutes and seconds that make up `s` seconds make up its ticks. */
  lemma ScaleSeconds(t: nat, s: nat, f: nat, h: nat, m: nat, sec: nat)
    requires t == s * TicksPerSecond + f && s == h * 3600 + m * 60 + sec
    ensures h * TicksPerHour + m * TicksPerMinute + sec * TicksPerSecond + f == t
  {
  }

  /** Minutes and hours of a tick count are those of its whole seconds. */
  lemma WholeSeconds(t: nat)
    ensures t / TicksPerMinute == (t / TicksPerSecond) / 60
    ensures t / TicksPerHour == (t / TicksPerSecond) / 3600
  {
    var s := t / TicksPerSecond;
    var m := s / 60;
    assert s * TicksPerSecond <= t < (s + 1) * TicksPerSecond;
    assert m * TicksPerMinute <= t < (m + 1) * TicksPerMinute;
    var h := s / 3600;
    assert h * TicksPerHour <= t < (h + 1) * TicksPerHour;
  }

  /** Hours, minutes and seconds add back up to the seconds. */
  lemma SecondsRecombine(s: nat)
    ensures s == (s / 3600) * 3600 + ((s / 60) % 60) * 60 + s % 60
  {
    assert (s / 60) / 60 == s / 3600;
  }

  /**
   * The date fields agree with the calendar: the year's leap flag is the
   * Gregorian rule, and the days before the year, the days before the month
   * and the day of the month add up to the days since 0001-01-01.
   */
  lemma DateRecombines(n: nat)
    ensures var d := DatePart(n);
      && d.day <= DaysToMonth(IsLeapYear(d.year), d.month) - DaysToMonth(IsLeapYear(d.year), d.month - 1)
      && DaysBeforeYear(d.year) + DaysToMonth(IsLeapYear(d.year), d.month - 1) + d.day - 1 == n
  {
    var c := CyclesOf(n);
    var leap := CycleLeap(c);
    var d := DatePart(n);
    LeapRule(c.y400, c.y100, c.y4, c.y1);
    assert IsLeapYear(d.year) == leap;
    YearStart(c.y400, c.y100, c.y4, c.y1);
    assert DaysBeforeYear(d.year) == n - c.dayOfYear;
    assert d.day - 1 == c.dayOfYear - DaysToMonth(leap, d.month - 1);
  }

  /** The year counted by the cycles is a leap year exactly when .NET's flag says so. */
  lemma LeapRule(y400: nat, y100: nat, y4: nat, y1: nat)
    requires y100 < 4 && y4 < 25 && y1 < 4
    ensures var year := 400 * y400 + 100 * y100 + 4 * y4 + y1 + 1;
      IsLeapYear(year) <==> y1 == 3 && (y4 != 24 || y100 == 3)
  {
    var year := 400 * y400 + 100 * y100 + 4 * y4 + y1 + 1;
    assert year % 4 == 0 <==> y1 == 3;
    if y1 == 3 {
      assert year == 400 * y400 + 100 * y100 + 4 * (y4 + 1);
      assert year % 100 == 0 <==> y4 == 24;
      if y4 == 24 {
        assert year == 400 * y400 + 100 * (y100 + 1);
        assert year % 400 == 0 <==> y100 == 3;
      }
    }
  }

  /** The cycles' day counts are the days before the year. */
  lemma YearStart(y400: nat, y100: nat, y4: nat, y1: nat)
    requires y100 < 4 && y4 < 25 && y1 < 4
    ensures DaysBeforeYear(400 * y400 + 100 * y100 + 4 * y4 + y1 + 1) == 146097 * y400 + 36524 * y100 + 1461 * y4 + 365 * y1
  {
    var y := 400 * y400 + 100 * y100 + 4 * y4 + y1;
    assert y / 4 == 100 * y400 + 25 * y100 + y4;
    assert y / 100 == 4 * y400 + y100;
    assert y / 400 == y400;
  }

  /** The characters a round-trip date is written with. */
  predicate DateChar(c: char) {
    IsDecDigit(c) || c == '-' || c == 'T' || c == ':' || c == '.'
  }

  predicate AllDateChars(s: string) {
    forall i :: 0 <= i < |s| ==> DateChar(s[i])
  }

  lemma DateCharsAppend(a: string, b: string)
    requires AllDateChars(a) && AllDateChars(b)
    ensures AllDateChars(a + b)
  {
    assert forall i :: |a| <= i < |a + b| ==> (a + b)[i] == b[i - |a|];
  }

  /** The "o" layout of calendar fields: `yyyy-MM-ddTHH:mm:ss.fffffff`. */
  function RenderCivil(c: Civil): string {
    Dec(c.date.year, 4) + "-" + Dec(c.date.month, 2) + "-" + Dec(c.date.day, 2) + "T"
      + Dec(c.hour, 2) + ":" + Dec(c.minute, 2) + ":" + Dec(c.second, 2) + "." + Dec(c.fraction, 7)
  }

  /** `DateTime.ToString("o")` for a value of kind Unspecified. */
  function FormatRoundTripDate(ticks: DateTime): string {
    RenderCivil(CivilOf(ticks))
  }

  /** A round-trip date is at least 27 characters, all digits or the separators. */
  lemma RoundTripDateChars(ticks: DateTime)
    ensures |FormatRoundTripDate(ticks)| >= 27
    ensures AllDateChars(FormatRoundTripDate(ticks))
  {
    var c := CivilOf(ticks);
    var y, mo, d := Dec(c.date.year, 4), Dec(c.date.month, 2), Dec(c.date.day, 2);
    var h, mi, s, f := Dec(c.hour, 2), Dec(c.minute, 2), Dec(c.second, 2), Dec(c.fraction, 7);
    var acc := y;
    DateCharsAppend(acc, "-"); acc := acc + "-";
    DateCharsAppend(acc, mo); acc := acc + mo;
    DateCharsAppend(acc, "-"); acc := acc + "-";
    DateCharsAppend(acc, d); acc := acc + d;
    DateCharsAppend(acc, "T"); acc := acc + "T";
    DateCharsAppend(acc, h); acc := acc + h;
    DateCharsAppend(acc, ":"); acc := acc + ":";
    DateCharsAppend(acc, mi); acc := acc + mi;
    DateCharsAppend(acc, ":"); acc := acc + ":";
    DateCharsAppend(acc, s); acc := acc + s;
    DateCharsAppend(acc, "."); acc := acc + ".";
    DateCharsAppend(acc, f); acc := acc + f;
    assert acc == FormatRoundTripDate(ticks);
  }

  /** Where the seven fields of the "o" layout sit when each has its exact width. */
  lemma LayoutSlices(y: string, mo: string, d: string, h: string, mi: string, s: string, f: string)
    requires |y| == 4 && |mo| == 2 && |d| == 2 && |h| == 2 && |mi| == 2 && |s| == 2 && |f| == 7
    ensures var r := y + "-" + mo + "-" + d + "T" + h + ":" + mi + ":" + s + "." + f;
      && |r| == 27
      && r[4] == '-' && r[7] == '-' && r[10] == 'T' && r[13] == ':' && r[16] == ':' && r[19] == '.'
      && r[..4] == y && r[5..7] == mo && r[8..10] == d && r[11..13] == h && r[14..16] == mi && r[17..19] == s && r[20..] == f
  {
    var r := y + "-" + mo + "-" + d + "T" + h + ":" + mi + ":" + s + "." + f;
    assert r[..4] == y;
    assert r[5..7] == mo;
    assert r[8..10] == d;
    assert r[11..13] == h;
    assert r[14..16] == mi;
    assert r[17..19] == s;
    assert r[20..] == f;
  }

  /**
   * When every field fits its width (a year below 10000), the text is 27
   * characters with the separators at their fixed places, and each field
   * reads back as its value.
   */
  lemma RenderCivilLayout(c: Civil)
    requires c.date.year < 10000 && c.date.month < 100 && c.date.day < 100
    requires c.hour < 100 && c.minute < 100 && c.second < 100 && c.fraction < 10000000
    ensures var r := RenderCivil(c);
      && |r| == 27
      && r[4] == '-' && r[7] == '-' && r[10] == 'T' && r[13] == ':' && r[16] == ':' && r[19] == '.'
      && AllDec(r[..4]) && ParseDec(r[..4]) == c.date.year
      && AllDec(r[5..7]) && ParseDec(r[5..7]) == c.date.month
      && AllDec(r[8..10]) && ParseDec(r[8..10]) == c.date.day
      && AllDec(r[11..13]) && ParseDec(r[11..13]) == c.hour
      && AllDec(r[14..16]) && ParseDec(r[14..16]) == c.minute
      && AllDec(r[17..19]) && ParseDec(r[17..19]) == c.second
      && AllDec(r[20..]) && ParseDec(r[20..]) == c.fraction
  {
    assert Pow10(2) == 100 && Pow10(4) == 10000 && Pow10(7) == 10000000;
    DecRoundTrip(c.date.year, 4);
    DecRoundTrip(c.date.month, 2);
    DecRoundTrip(c.date.day, 2);
    DecRoundTrip(c.hour, 2);
    DecRoundTrip(c.minute, 2);
    DecRoundTrip(c.second, 2);
    DecRoundTrip(c.fraction, 7);
    LayoutSlices(Dec(c.date.year, 4), Dec(c.date.month, 2), Dec(c.date.day, 2),
      Dec(c.hour, 2), Dec(c.minute, 2), Dec(c.second, 2), Dec(c.fraction, 7));
  }

  /** Before year 10000 the "o" text has the fixed layout and gives back the calendar fields of the ticks. */
  lemma RoundTripDateLayout(ticks: DateTime)
    requires CivilOf(ticks).date.year < 10000
    ensures var r := FormatRoundTripDate(ticks); var c := CivilOf(ticks);
      && |r| == 27
      && AllDec(r[..4]) && AllDec(r[5..7]) && AllDec(r[8..10])
      && AllDec(r[11..13]) && AllDec(r[14..16]) && AllDec(r[17..19]) && AllDec(r[20..])
      && ParseDec(r[..4]) == c.date.year && ParseDec(r[5..7]) == c.date.month && ParseDec(r[8..10]) == c.date.day
      && ParseDec(r[11..13]) * TicksPerHour + ParseDec(r[14..16]) * TicksPerMinute
         + ParseDec(r[17..19]) * TicksPerSecond + ParseDec(r[20..]) == ticks % TicksPerDay
  {
    RenderCivilLayout(CivilOf(ticks));
    TimeOfDayRecombines(ticks);
    RoundTripDateChars(ticks);
  }
}
