/** ISO 8601 time stamps: printed from ASN.1 times, scanned back when a certificate is built. */
module IsoTime {
  import opened Wrappers
  import opened Memory

  /** The C library's broken-down time: years since 1900, months from 0. */
  datatype Tm = Tm(year: int, mon: int, mday: int, hour: int, min: int, sec: int)

  // ---- formats ----

  datatype Format = End | Num(width: nat, rest: Format) | Lit(c: char, rest: Format)

  /** `%04d-%02d-%02dT%02d:%02d:%02dZ`; the scan has the same conversions without widths. */
  const FORMAT := Num(4, Lit('-', Num(2, Lit('-', Num(2, Lit('T', CLOCK))))))
  const CLOCK := Num(2, Lit(':', Num(2, Lit(':', Num(2, Lit('Z', End))))))

  predicate IsDigit(c: char) {
    '0' <= c <= '9'
  }

  predicate IsSpace(c: char) {
    c == ' ' || ('\t' <= c <= '\r')
  }

  function DigitChar(d: nat): (c: char)
    requires d < 10
    ensures IsDigit(c) && DigitValue(c) == d
  {
    '0' + d as char
  }

  /** `%0wd` of a number that is not negative. */
  function Decimal(w: nat, v: nat): (s: string)
    ensures s != [] && forall i :: 0 <= i < |s| ==> IsDigit(s[i])
    decreases w, v
  {
    if v < 10 && w <= 1 then [DigitChar(v)]
    else if w <= 1 then Decimal(0, v / 10) + [DigitChar(v % 10)]
    else Decimal(w - 1, v / 10) + [DigitChar(v % 10)]
  }

  function DigitValue(c: char): (d: nat)
    requires IsDigit(c)
    ensures d < 10
  {
    c as int - '0' as int
  }

  function Render(format: Format, fields: seq<nat>): string {
    match format
    case End => ""
    case Lit(c, rest) => [c] + Render(rest, fields)
    case Num(w, rest) => if fields == [] then "" else Decimal(w, fields[0]) + Render(rest, fields[1..])
  }

  /** The value of a run of digits continuing from `acc`, and the text after the run. */
  function ScanDigits(s: string, acc: nat): (nat, string) {
    if s == "" || !IsDigit(s[0]) then (acc, s)
    else ScanDigits(s[1..], 10 * acc + DigitValue(s[0]))
  }

  function SkipSpace(s: string): string {
    if s != "" && IsSpace(s[0]) then SkipSpace(s[1..]) else s
  }

  /** The conversion `%d`: white space, a sign, digits. */
  function ScanInt(s: string): Option<(int, string)> {
    var t := SkipSpace(s);
    var negative := t != "" && t[0] == '-';
    var u := if t != "" && (t[0] == '-' || t[0] == '+') then t[1..] else t;
    if u == "" || !IsDigit(u[0]) then None
    else
      var (v, rest) := ScanDigits(u, 0);
      Some((if negative then 0 - v else v, rest))
  }

  /** The values converted before the first mismatch. */
  function Scan(format: Format, s: string): seq<int> {
    match format
    case End => []
    case Lit(c, rest) => if s != "" && s[0] == c then Scan(rest, s[1..]) else []
    case Num(_, rest) =>
      match ScanInt(s)
      case None => []
      case Some((v, more)) => [v] + Scan(rest, more)
  }

  /** The characters of the ten digits. */
  lemma Digits(d: nat, c: char)
    requires d < 10
    ensures DigitChar(d) == "0123456789"[d]
    ensures IsDigit(c) ==> (DigitValue(c) == d <==> c == "0123456789"[d])
    ensures IsDigit(c) <==> 0x30 <= c as int <= 0x39
    ensures IsSpace(c) <==> c as int in {0x09, 0x0a, 0x0b, 0x0c, 0x0d, 0x20}
  {
    assert "0123456789"[d] as int == 0x30 + d;
  }

  /** What `%d` takes: any white space, at most one sign, and the longest run of digits, at least one. */
  lemma {:induction false} IntTaken(space: string, sign: string, digits: string, rest: string)
    requires forall c :: c in space ==> IsSpace(c)
    requires sign in ["", "+", "-"]
    requires digits != [] && forall i :: 0 <= i < |digits| ==> IsDigit(digits[i])
    requires rest == "" || !IsDigit(rest[0])
    ensures ScanInt(space + sign + digits + rest)
         == Some((if sign == "-" then 0 - Value(digits, 0) else Value(digits, 0), rest))
    decreases |space|
  {
    var s := space + sign + digits + rest;
    if space == "" {
      ScanRun(digits, rest, 0);
      assert s == sign + (digits + rest);
      if sign == "" {
        assert s == digits + rest;
      } else {
        assert s[1..] == digits + rest;
      }
    } else {
      IntTaken(space[1..], sign, digits, rest);
      assert s[0] == space[0] && s[1..] == space[1..] + sign + digits + rest;
    }
  }

  /** Otherwise it takes nothing. */
  lemma {:induction false} NoIntTaken(space: string, sign: string, rest: string)
    requires forall c :: c in space ==> IsSpace(c)
    requires sign in ["", "+", "-"]
    requires rest == "" || !IsDigit(rest[0])
    requires sign == "" && rest != "" ==> !IsSpace(rest[0]) && rest[0] != '+' && rest[0] != '-'
    ensures ScanInt(space + sign + rest) == None
    decreases |space|
  {
    var s := space + sign + rest;
    if space == "" {
      assert s == sign + rest;
      if sign == "" {
        assert s == rest;
      } else {
        assert s[1..] == rest;
      }
    } else {
      NoIntTaken(space[1..], sign, rest);
      assert s[0] == space[0] && s[1..] == space[1..] + sign + rest;
    }
  }

  /** A scan ends at the first character that differs from the format, and at the first number that is not there. */
  lemma ScanEnds(c: char, w: nat, rest: Format, s: string)
    ensures Scan(Lit(c, rest), s) == if [c] <= s then Scan(rest, s[1..]) else []
    ensures ScanInt(s) == None <==> Scan(Num(w, rest), s) == []
    ensures ScanInt(s).Some? ==> Scan(Num(w, rest), s) == [ScanInt(s).value.0] + Scan(rest, ScanInt(s).value.1)
  {
  }

  // ---- a scan recovers what was printed ----

  function Value(digits: string, acc: nat): nat
    requires forall i :: 0 <= i < |digits| ==> IsDigit(digits[i])
  {
    if digits == "" then acc else Value(digits[1..], 10 * acc + DigitValue(digits[0]))
  }

  lemma {:induction false} ScanRun(digits: string, rest: string, acc: nat)
    requires forall i :: 0 <= i < |digits| ==> IsDigit(digits[i])
    requires rest == "" || !IsDigit(rest[0])
    ensures ScanDigits(digits + rest, acc) == (Value(digits, acc), rest)
  {
    if digits == "" {
      assert digits + rest == rest;
    } else {
      assert (digits + rest)[1..] == digits[1..] + rest;
      ScanRun(digits[1..], rest, 10 * acc + DigitValue(digits[0]));
    }
  }

  lemma {:induction false} ValueSnoc(digits: string, d: char, acc: nat)
    requires IsDigit(d) && forall i :: 0 <= i < |digits| ==> IsDigit(digits[i])
    ensures Value(digits + [d], acc) == 10 * Value(digits, acc) + DigitValue(d)
  {
    if digits == "" {
      assert digits + [d] == [d];
    } else {
      assert (digits + [d])[1..] == digits[1..] + [d];
      ValueSnoc(digits[1..], d, 10 * acc + DigitValue(digits[0]));
    }
  }

  lemma {:induction false} ValueDecimal(w: nat, v: nat)
    ensures Value(Decimal(w, v), 0) == v
    decreases w, v
  {
    if v >= 10 || w > 1 {
      var shorter := if w <= 1 then 0 else w - 1;
      ValueDecimal(shorter, v / 10);
      ValueSnoc(Decimal(shorter, v / 10), DigitChar(v % 10), 0);
    }
  }

  /** No literal is a digit, and every number is followed by a literal or by the end. */
  predicate Separated(format: Format) {
    match format
    case End => true
    case Lit(c, rest) => !IsDigit(c) && Separated(rest)
    case Num(_, rest) => !rest.Num? && Separated(rest)
  }

  function Numbers(format: Format): nat {
    match format
    case End => 0
    case Lit(_, rest) => Numbers(rest)
    case Num(_, rest) => 1 + Numbers(rest)
  }

  /** Scanning what a separated format printed recovers every field, whatever the widths. */
  lemma {:induction false} ScanRender(format: Format, fields: seq<nat>)
    requires Separated(format) && |fields| == Numbers(format)
    ensures Scan(format, Render(format, fields)) == fields
  {
    match format
    case End =>
    case Lit(c, rest) =>
      ScanRender(rest, fields);
      assert Render(format, fields)[1..] == Render(rest, fields);
    case Num(w, rest) =>
      ScanRender(rest, fields[1..]);
      var digits, more := Decimal(w, fields[0]), Render(rest, fields[1..]);
      var text := digits + more;
      assert rest.Lit? ==> more[0] == rest.c;
      assert text[0] == digits[0] && IsDigit(text[0]);
      ScanRun(digits, more, 0);
      ValueDecimal(w, fields[0]);
      assert ScanInt(text) == Some((fields[0] as int, more));
      assert fields == [fields[0]] + fields[1..];
  }

  // ---- the calendar ----

  predicate Leap(y: int) {
    y % 4 == 0 && (y % 100 != 0 || y % 400 == 0)
  }

  /** Days of the year before month `m`, counted from 0. */
  function DaysBeforeMonth(m: nat, leap: bool): nat
    requires m <= 12
  {
    var d :=
      match m
      case 0 => 0   case 1 => 31  case 2 => 59  case 3 => 90  case 4 => 120  case 5 => 151 case 6 => 181
      case 7 => 212 case 8 => 243 case 9 => 273 case 10 => 304 case 11 => 334 case _ => 365;
    if leap && m > 1 then d + 1 else d
  }

  /** Days from the start of year 0 to the start of year `y`. */
  function DaysBeforeYear(y: int): int {
    365 * y + (y + 3) / 4 - (y + 99) / 100 + (y + 399) / 400
  }

  /** The C library's timegm: seconds since the start of 1970, months beyond a year carried into it. */
  function Seconds(t: Tm): int {
    var y := t.year + 1900 + t.mon / 12;
    var days := DaysBeforeYear(y) - DaysBeforeYear(1970) + DaysBeforeMonth(t.mon % 12, Leap(y)) + t.mday - 1;
    86400 * days + 3600 * t.hour + 60 * t.min + t.sec
  }

  /** The times an ASN.1 time can denote. */
  predicate Calendar(t: Tm) {
    && 0 <= t.year + 1900 <= 9999 && 0 <= t.mon < 12
    && 1 <= t.mday
    && DaysBeforeMonth(t.mon, Leap(t.year + 1900)) + t.mday <= DaysBeforeMonth(t.mon + 1, Leap(t.year + 1900))
    && 0 <= t.hour < 24 && 0 <= t.min < 60 && 0 <= t.sec < 60
  }

  function DayNumber(t: Tm): int
    requires Calendar(t)
  {
    DaysBeforeYear(t.year + 1900) + DaysBeforeMonth(t.mon, Leap(t.year + 1900)) + t.mday
  }

  /** The lengths of the months, and the years that have a 29th of February. */
  lemma MonthLengths(leap: bool, y: int)
    ensures DaysBeforeMonth(0, leap) == 0
    ensures DaysBeforeMonth(1, leap) - DaysBeforeMonth(0, leap) == 31
    ensures DaysBeforeMonth(2, leap) - DaysBeforeMonth(1, leap) == if leap then 29 else 28
    ensures DaysBeforeMonth(3, leap) - DaysBeforeMonth(2, leap) == 31
    ensures DaysBeforeMonth(4, leap) - DaysBeforeMonth(3, leap) == 30
    ensures DaysBeforeMonth(5, leap) - DaysBeforeMonth(4, leap) == 31
    ensures DaysBeforeMonth(6, leap) - DaysBeforeMonth(5, leap) == 30
    ensures DaysBeforeMonth(7, leap) - DaysBeforeMonth(6, leap) == 31
    ensures DaysBeforeMonth(8, leap) - DaysBeforeMonth(7, leap) == 31
    ensures DaysBeforeMonth(9, leap) - DaysBeforeMonth(8, leap) == 30
    ensures DaysBeforeMonth(10, leap) - DaysBeforeMonth(9, leap) == 31
    ensures DaysBeforeMonth(11, leap) - DaysBeforeMonth(10, leap) == 30
    ensures DaysBeforeMonth(12, leap) - DaysBeforeMonth(11, leap) == 31
    ensures Leap(y) <==> y % 400 == 0 || (y % 4 == 0 && y % 100 != 0)
  {
    Multiples(y);
  }

  /** Seconds are counted from the start of 1970, days of 24 hours, hours of 60 minutes and minutes of 60 seconds. */
  lemma SecondsCounted(t: Tm, n: int)
    ensures Seconds(Tm(70, 0, 1, 0, 0, 0)) == 0
    ensures Seconds(t.(sec := t.sec + n)) == Seconds(t) + n
    ensures Seconds(t.(min := t.min + n)) == Seconds(t) + 60 * n
    ensures Seconds(t.(hour := t.hour + n)) == Seconds(t) + 60 * 60 * n
    ensures Seconds(t.(mday := t.mday + n)) == Seconds(t) + 24 * 60 * 60 * n
  {
    hide Seconds;
    SameDay(t, t.(sec := t.sec + n));
    SameDay(t, t.(min := t.min + n));
    SameDay(t, t.(hour := t.hour + n));
    SameDay(t, t.(mday := t.mday + n));
    SecondsAtEpoch();
  }

  lemma SameDay(s: Tm, t: Tm)
    requires s.year == t.year && s.mon == t.mon
    ensures Seconds(t) - Seconds(s)
         == 86400 * (t.mday - s.mday) + 3600 * (t.hour - s.hour) + 60 * (t.min - s.min) + (t.sec - s.sec)
  {
    TwelveMonths(s.mon);
    hide DaysBeforeYear, Leap, DaysBeforeMonth;
  }

  lemma SecondsAtEpoch()
    ensures Seconds(Tm(70, 0, 1, 0, 0, 0)) == 0
  {
    hide DaysBeforeYear, Leap;
  }

  lemma TwelveMonths(m: int)
    ensures 0 <= m % 12 < 12 && (m + 12) % 12 == m % 12 && (m + 12) / 12 == m / 12 + 1
  {
  }

  /** A month beyond the year is one of the next year. */
  lemma MonthsCarry(t: Tm)
    ensures Seconds(t.(mon := t.mon + 12)) == Seconds(t.(year := t.year + 1))
  {
    hide DaysBeforeYear, Leap, DaysBeforeMonth;
    TwelveMonths(t.mon);
  }

  /** A month ends where the next one starts, and a year where the next one does. */
  lemma MonthsFollow(year: int, mon: nat)
    requires mon < 12
    ensures var length := DaysBeforeMonth(mon + 1, Leap(year + 1900)) - DaysBeforeMonth(mon, Leap(year + 1900));
            Seconds(Tm(year, mon, 1 + length, 0, 0, 0)) == Seconds(Tm(year, mon + 1, 1, 0, 0, 0))
  {
    hide DaysBeforeYear, Leap, DaysBeforeMonth;
    YearLength(year + 1900);
    MonthZero(Leap(year + 1901));
  }

  lemma Fours(y: int)
    ensures (y + 4) / 4 - (y + 3) / 4 == if y % 4 == 0 then 1 else 0
  {
  }

  lemma DivideBy100(x: int, q: int)
    requires 100 * q <= x < 100 * q + 100
    ensures x / 100 == q
  {
  }

  lemma DivideBy400(x: int, q: int)
    requires 400 * q <= x < 400 * q + 400
    ensures x / 400 == q
  {
  }

  lemma Centuries(y: int)
    ensures (y + 100) / 100 - (y + 99) / 100 == if y % 100 == 0 then 1 else 0
  {
    var q := y / 100;
    DivideBy100(y + 100, q + 1);
    DivideBy100(y + 99, if y % 100 == 0 then q else q + 1);
  }

  lemma Cycles(y: int)
    ensures (y + 400) / 400 - (y + 399) / 400 == if y % 400 == 0 then 1 else 0
  {
    var q := y / 400;
    DivideBy400(y + 400, q + 1);
    DivideBy400(y + 399, if y % 400 == 0 then q else q + 1);
  }

  lemma FourTimes(k: int)
    ensures (4 * k) % 4 == 0
  {
  }

  lemma HundredTimes(k: int)
    ensures (100 * k) % 100 == 0
  {
  }

  lemma Multiples(y: int)
    ensures y % 400 == 0 ==> y % 100 == 0
    ensures y % 100 == 0 ==> y % 4 == 0
  {
    FourTimes(25 * (y / 100));
    HundredTimes(4 * (y / 400));
  }

  lemma YearLength(y: int)
    ensures DaysBeforeYear(y + 1) == DaysBeforeYear(y) + DaysBeforeMonth(12, Leap(y))
  {
    Fours(y);
    Centuries(y);
    Cycles(y);
    Multiples(y);
  }

  lemma {:induction false} YearsInOrder(y: int, z: int)
    requires y < z
    ensures DaysBeforeYear(y) + DaysBeforeMonth(12, Leap(y)) <= DaysBeforeYear(z)
    decreases z - y
  {
    YearLength(z - 1);
    if y < z - 1 { YearsInOrder(y, z - 1); }
    else { YearLength(y); }
  }

  lemma MonthsInOrder(m: nat, n: nat, leap: bool)
    requires m < n <= 12
    ensures DaysBeforeMonth(m + 1, leap) <= DaysBeforeMonth(n, leap)
  {
  }

  predicate EarlierDay(s: Tm, t: Tm) {
    s.year < t.year || (s.year == t.year && (s.mon < t.mon || (s.mon == t.mon && s.mday < t.mday)))
  }

  lemma DaysInOrder(s: Tm, t: Tm)
    requires Calendar(s) && Calendar(t) && EarlierDay(s, t)
    ensures DayNumber(s) < DayNumber(t)
  {
    hide DaysBeforeYear, DaysBeforeMonth, Leap;
    FirstMonth(Leap(t.year + 1900), t.mon);
    if s.year < t.year {
      YearsInOrder(s.year + 1900, t.year + 1900);
      if s.mon < 11 { MonthsInOrder(s.mon, 12, Leap(s.year + 1900)); }
    } else if s.mon < t.mon {
      MonthsInOrder(s.mon, t.mon, Leap(s.year + 1900));
    }
  }

  lemma FirstMonth(leap: bool, m: nat)
    requires m <= 12
    ensures DaysBeforeMonth(m, leap) >= 0
  {
  }

  function SecondOfDay(t: Tm): int {
    3600 * t.hour + 60 * t.min + t.sec
  }

  lemma SecondsInDays(t: Tm)
    requires Calendar(t)
    ensures Seconds(t) == 86400 * (DayNumber(t) - DaysBeforeYear(1970) - 1) + SecondOfDay(t)
    ensures 0 <= SecondOfDay(t) < 86400
  {
    hide DaysBeforeYear, DaysBeforeMonth, Leap;
  }

  /** Different calendar times are different numbers of seconds. */
  lemma SecondsInjective(s: Tm, t: Tm)
    requires Calendar(s) && Calendar(t)
    ensures Seconds(s) == Seconds(t) <==> s == t
  {
    hide Seconds, DayNumber, DaysBeforeYear, DaysBeforeMonth, Leap, SecondOfDay;
    SecondsInDays(s);
    SecondsInDays(t);
    if Seconds(s) == Seconds(t) {
      SameClock(s, t);
      if EarlierDay(s, t) { DaysInOrder(s, t); }
      if EarlierDay(t, s) { DaysInOrder(t, s); }
    }
  }

  lemma SameClock(s: Tm, t: Tm)
    requires 0 <= s.hour && 0 <= s.min < 60 && 0 <= s.sec < 60 && 0 <= t.hour && 0 <= t.min < 60 && 0 <= t.sec < 60
    ensures SecondOfDay(s) == SecondOfDay(t) ==> s.hour == t.hour && s.min == t.min && s.sec == t.sec
  {
  }

  // ---- the two functions ----

  const BUF := 32

  function Fields(t: Tm): seq<nat>
    requires Calendar(t)
  {
    [t.year + 1900, t.mon + 1, t.mday, t.hour, t.min, t.sec]
  }

  /** The text of a time; an absent or unreadable time has the empty text. */
  function IsoText(t: Option<Tm>): string
    requires t.Some? ==> Calendar(t.value)
  {
    if t.Some? then Render(FORMAT, Fields(t.value)) else ""
  }

  lemma DecimalWidth(v: nat)
    ensures v < 100 ==> |Decimal(2, v)| == 2
    ensures v < 10000 ==> |Decimal(4, v)| == 4
  {
    assert v < 100 ==> Decimal(2, v) == Decimal(1, v / 10) + [DigitChar(v % 10)];
    var u := v / 10;
    assert Decimal(4, v) == Decimal(3, u) + [DigitChar(v % 10)];
    assert Decimal(3, u) == Decimal(2, u / 10) + [DigitChar(u % 10)];
    assert Decimal(2, u / 10) == Decimal(1, u / 10 / 10) + [DigitChar(u / 10 % 10)];
  }

  /** Six fields that fit their widths, with their separators, written out. */
  lemma RenderShape(f: seq<nat>)
    requires |f| == 6 && f[0] < 10000 && forall i :: 1 <= i < 6 ==> f[i] < 100
    ensures Render(FORMAT, f) == Decimal(4, f[0]) + "-" + Decimal(2, f[1]) + "-" + Decimal(2, f[2]) + "T"
                                 + Decimal(2, f[3]) + ":" + Decimal(2, f[4]) + ":" + Decimal(2, f[5]) + "Z"
    ensures |Render(FORMAT, f)| == 20
    ensures '\0' !in Render(FORMAT, f)
  {
    hide Decimal, Render;
    RenderTwo(4, '-', Num(2, Lit('-', Num(2, Lit('T', CLOCK)))), f);
    RenderTwo(2, '-', Num(2, Lit('T', CLOCK)), f[1..]);
    RenderTwo(2, 'T', CLOCK, f[2..]);
    ClockShape(f[3..]);
    DecimalWidth(f[0]);
    DecimalWidth(f[1]);
    DecimalWidth(f[2]);
  }

  lemma IsoTextShape(t: Tm)
    requires Calendar(t)
    ensures IsoText(Some(t)) == Decimal(4, t.year + 1900) + "-" + Decimal(2, t.mon + 1) + "-" + Decimal(2, t.mday) + "T"
                                + Decimal(2, t.hour) + ":" + Decimal(2, t.min) + ":" + Decimal(2, t.sec) + "Z"
    ensures |IsoText(Some(t))| == 20
    ensures '\0' !in IsoText(Some(t))
  {
    hide Decimal, Render, DaysBeforeMonth, Leap;
    DayBelow100(t);
    RenderShape(Fields(t));
  }

  lemma ClockShape(f: seq<nat>)
    requires |f| == 3 && f[0] < 100 && f[1] < 100 && f[2] < 100
    ensures Render(CLOCK, f) == Decimal(2, f[0]) + ":" + Decimal(2, f[1]) + ":" + Decimal(2, f[2]) + "Z"
    ensures |Render(CLOCK, f)| == 9
    ensures '\0' !in Render(CLOCK, f)
  {
    hide Decimal, Render;
    RenderTwo(2, ':', Num(2, Lit(':', Num(2, Lit('Z', End)))), f);
    RenderTwo(2, ':', Num(2, Lit('Z', End)), f[1..]);
    RenderTwo(2, 'Z', End, f[2..]);
    RenderEnd(f[3..]);
    DecimalWidth(f[0]);
    DecimalWidth(f[1]);
    DecimalWidth(f[2]);
  }

  lemma RenderEnd(f: seq<nat>)
    ensures Render(End, f) == ""
  {
  }

  lemma DayBelow100(t: Tm)
    requires Calendar(t)
    ensures t.mday <= 31
  {
  }

  lemma RenderTwo(w: nat, c: char, rest: Format, fields: seq<nat>)
    requires fields != []
    ensures Render(Num(w, Lit(c, rest)), fields) == Decimal(w, fields[0]) + [c] + Render(rest, fields[1..])
  {
  }

  /** Prints through a zeroed buffer of 32 bytes, and takes the C string in it. */
  method AsnTimeToIso(t: Option<Tm>) returns (out: string)
    requires t.Some? ==> Calendar(t.value)
    ensures out == IsoText(t)
  {
    var buf := new char[BUF](_ => '\0');
    if t.Some? {
      IsoTextShape(t.value);
      var text := Render(FORMAT, Fields(t.value));
      forall i | 0 <= i < |text| { buf[i] := text[i]; }
      assert buf[..] == text + buf[|text|..];
      CStringStops(text, buf[|text|..], '\0');
    }
    out := CString(buf[..], '\0');
  }

  function Cut(s: string): string {
    if |s| < BUF - 1 then s else s[..BUF - 1]
  }

  /** What a text is read as: refused, a calendar time, or seconds outside the years 0 to 9999. */
  datatype Reading = Refused | Date(tm: Tm) | BeyondYears(seconds: int)

  /** The buffer holds 31 characters and a terminator. */
  lemma CutMeans(s: string)
    ensures Cut(s) == if |s| <= 31 then s else s[..31]
    ensures BUF == 32
  {
  }

  /** The calendar time of a number of seconds. */
  ghost function Denoted(seconds: int): Reading {
    if tm :| Calendar(tm) && Seconds(tm) == seconds then Date(tm) else BeyondYears(seconds)
  }

  lemma DenotedDate(t: Tm)
    requires Calendar(t)
    ensures Denoted(Seconds(t)) == Date(t)
  {
    hide Calendar, Seconds;
    assert exists tm :: Calendar(tm) && Seconds(tm) == Seconds(t);
    SecondsInjective(Denoted(Seconds(t)).tm, t);
  }

  lemma DayRange(t: Tm)
    requires Calendar(t)
    ensures 0 < DayNumber(t) <= DaysBeforeYear(10000)
  {
    hide DaysBeforeMonth, Leap;
    FirstMonth(Leap(t.year + 1900), t.mon);
    LastMonth(Leap(t.year + 1900), t.mon + 1);
    assert DaysBeforeYear(0) == 0;
    if t.year + 1900 > 0 {
      YearsInOrder(0, t.year + 1900);
      FirstMonth(Leap(0), 12);
    }
    YearsInOrder(t.year + 1900, 10000);
  }

  lemma LastMonth(leap: bool, m: nat)
    requires m <= 12
    ensures DaysBeforeMonth(m, leap) <= DaysBeforeMonth(12, leap)
  {
  }

  lemma NoDate(seconds: int)
    requires seconds / 86400 + DaysBeforeYear(1970) < 0
          || seconds / 86400 + DaysBeforeYear(1970) >= DaysBeforeYear(10000)
    ensures Denoted(seconds) == BeyondYears(seconds)
  {
    hide DaysBeforeYear, DaysBeforeMonth, Leap;
    forall t | Calendar(t) ensures Seconds(t) != seconds {
      SecondsInDays(t);
      DayRange(t);
      hide Calendar, Seconds, DayNumber, SecondOfDay;
    }
  }

  /** libcrypto's ASN1_TIME_set: the calendar time of a number of seconds since the start of 1970. */
  method AsnTimeSet(seconds: int) returns (r: Reading)
    ensures r == Denoted(seconds)
  {
    hide DaysBeforeYear, DaysBeforeMonth, Leap, Calendar, Seconds, Denoted;
    var days, second := seconds / 86400 + DaysBeforeYear(1970), seconds % 86400;
    if days < 0 || days >= DaysBeforeYear(10000) {
      NoDate(seconds);
      return BeyondYears(seconds);
    }
    YearZero();
    var y := 0;
    while DaysBeforeYear(y + 1) <= days
      invariant 0 <= y < 10000 && DaysBeforeYear(y) <= days
      decreases 10000 - y
    {
      y := y + 1;
    }
    YearLength(y);
    var rest, leap := days - DaysBeforeYear(y), Leap(y);
    MonthZero(leap);
    var m := 0;
    while DaysBeforeMonth(m + 1, leap) <= rest
      invariant 0 <= m < 12 && DaysBeforeMonth(m, leap) <= rest < DaysBeforeMonth(12, leap)
      decreases 12 - m
    {
      m := m + 1;
    }
    var tm := Tm(y - 1900, m, rest - DaysBeforeMonth(m, leap) + 1, second / 3600, second / 60 % 60, second % 60);
    SplitDay(tm, y, m, days, second);
    DenotedDate(tm);
    r := Date(tm);
  }

  lemma YearZero()
    ensures DaysBeforeYear(0) == 0
  {
  }

  lemma MonthZero(leap: bool)
    ensures DaysBeforeMonth(0, leap) == 0
  {
  }

  lemma SplitDay(tm: Tm, y: nat, m: nat, days: int, second: nat)
    requires y < 10000 && m < 12 && second < 86400
    requires DaysBeforeMonth(m, Leap(y)) <= days - DaysBeforeYear(y) < DaysBeforeMonth(m + 1, Leap(y))
    requires tm == Tm(y - 1900, m, days - DaysBeforeYear(y) - DaysBeforeMonth(m, Leap(y)) + 1,
                      second / 3600, second / 60 % 60, second % 60)
    ensures Calendar(tm) && Seconds(tm) == 86400 * (days - DaysBeforeYear(1970)) + second
  {
    hide DaysBeforeYear, DaysBeforeMonth, Leap;
    ClockOf(second);
    SecondsInDays(tm);
  }

  lemma ClockOf(second: nat)
    requires second < 86400
    ensures second / 3600 < 24
    ensures 3600 * (second / 3600) + 60 * (second / 60 % 60) + second % 60 == second
  {
    var minutes := second / 60;
    assert second / 3600 == minutes / 60;
  }

  /** The reading of a text: refused unless all six fields convert, and for the one number of seconds that timegm
      uses as its error value. */
  ghost function Parsed(s: string): Reading {
    FromFields(Scan(FORMAT, CString(Cut(s), '\0')))
  }

  /** The field assignments. */
  function FieldsTm(f: seq<int>): Tm
    requires |f| == 6
  {
    Tm(f[0] - 1900, f[1] - 1, f[2], f[3], f[4], f[5])
  }

  ghost function FromFields(f: seq<int>): Reading {
    if |f| != 6 then Refused
    else
      var t := Seconds(FieldsTm(f));
      if t == -1 then Refused else Denoted(t)
  }

  method ParseIso(s: string) returns (r: Reading)
    ensures r == Parsed(s)
  {
    hide Seconds, Scan, CString, Denoted, FieldsTm;
    var buf := new char[BUF](_ => '\0');
    var n := if |s| < BUF - 1 then |s| else BUF - 1;
    forall i | 0 <= i < n { buf[i] := s[i]; }
    assert buf[..] == Cut(s) + buf[n..];
    CStringStops(Cut(s), buf[n..], '\0');
    var f := Scan(FORMAT, CString(buf[..], '\0'));
    if |f| != 6 { return Refused; }
    var t := Seconds(FieldsTm(f));
    if t == -1 { return Refused; }
    r := AsnTimeSet(t);
  }

  const LAST_BEFORE_EPOCH := Tm(69, 11, 31, 23, 59, 59)

  lemma FieldsRecovered(t: Tm)
    requires Calendar(t)
    ensures Scan(FORMAT, CString(Cut(IsoText(Some(t))), '\0')) == Fields(t)
  {
    hide Scan, Render, CString, Cut, DaysBeforeMonth, Leap;
    DayBelow100(t);
    RenderedFields(Fields(t));
  }

  lemma RenderedFields(f: seq<nat>)
    requires |f| == 6 && f[0] < 10000 && f[1] < 100 && f[2] < 100 && f[3] < 100 && f[4] < 100 && f[5] < 100
    ensures Scan(FORMAT, CString(Cut(Render(FORMAT, f)), '\0')) == f
  {
    hide Scan, Render, Decimal;
    RenderShape(f);
    ScanRender(FORMAT, f);
  }

  lemma NothingPrinted()
    ensures Parsed(IsoText(None)) == Refused
  {
  }

  lemma LastSecond()
    ensures Calendar(LAST_BEFORE_EPOCH) && Seconds(LAST_BEFORE_EPOCH) == -1
  {
    hide DaysBeforeYear;
    YearLength(1969);
    assert !Leap(1969);
  }

  lemma ParsedSeconds(t: Tm)
    requires Calendar(t)
    ensures Parsed(IsoText(Some(t))) == if Seconds(t) == -1 then Refused else Date(t)
  {
    hide Seconds, Scan, CString, Cut, IsoText, Denoted;
    FieldsRecovered(t);
    DenotedDate(t);
  }

  /** Every printed time is read back as itself, except the last second of 1969, which is refused. */
  lemma ParsePrinted(t: Tm)
    requires Calendar(t)
    ensures Parsed(IsoText(Some(t))) == Date(t) <==> t != LAST_BEFORE_EPOCH
    ensures t == LAST_BEFORE_EPOCH ==> Parsed(IsoText(Some(t))) == Refused
    ensures Parsed(IsoText(None)) == Refused
  {
    hide Seconds, IsoText, Parsed;
    ParsedSeconds(t);
    LastSecond();
    SecondsInjective(t, LAST_BEFORE_EPOCH);
    NothingPrinted();
  }

  /** Whatever text is read as a time, the text printed of that time is read as the same time. */
  lemma ParsedIsStable(s: string)
    ensures Parsed(s).Date? ==> Calendar(Parsed(s).tm) && Parsed(IsoText(Some(Parsed(s).tm))) == Parsed(s)
  {
    hide Seconds, IsoText, Scan, Calendar;
    if Parsed(s).Date? {
      ParsePrinted(Parsed(s).tm);
      LastSecond();
    }
  }

  /** The exact reading of any text whose six fields convert. It is refused only for the second before 1970, in
      whatever way the fields denote it; the fields are kept exactly when they are a calendar time other than that; and
      any other fields are carried over to the time of the same seconds. */
  lemma FieldsKept(s: string)
    ensures var f := Scan(FORMAT, CString(Cut(s), '\0'));
            if |f| != 6 then Parsed(s) == Refused
            else
              var tm := FieldsTm(f);
              && (Parsed(s) == Refused <==> Seconds(tm) == -1)
              && (Parsed(s) == Date(tm) <==> Calendar(tm) && tm != LAST_BEFORE_EPOCH)
              && (Parsed(s).Date? ==> Calendar(Parsed(s).tm) && Seconds(Parsed(s).tm) == Seconds(tm))
              && (Parsed(s).BeyondYears? ==> forall t :: Calendar(t) ==> Seconds(t) != Seconds(tm))
  {
    hide Seconds, Scan, CString, Cut, Calendar;
    var f := Scan(FORMAT, CString(Cut(s), '\0'));
    if |f| == 6 {
      var tm := FieldsTm(f);
      LastSecond();
      if Calendar(tm) {
        SecondsInjective(tm, LAST_BEFORE_EPOCH);
        DenotedDate(tm);
      }
    }
  }

  /** The 30th of February 2023 is read as the 2nd of March, and a 13th month of 2023 as January 2024. */
  lemma DaysCarryOver()
    ensures Parsed(Render(FORMAT, [2023, 2, 30, 0, 0, 0])) == Date(Tm(123, 2, 2, 0, 0, 0))
    ensures Parsed(Render(FORMAT, [2023, 13, 1, 0, 0, 0])) == Date(Tm(124, 0, 1, 0, 0, 0))
  {
    hide Calendar, Seconds, Render, Parsed;
    CarriedSeconds();
    CarriesOver([2023, 2, 30, 0, 0, 0], Tm(123, 2, 2, 0, 0, 0));
    CarriesOver([2023, 13, 1, 0, 0, 0], Tm(124, 0, 1, 0, 0, 0));
  }

  /** Printed fields that fit their widths are read as the calendar time of their seconds. */
  lemma CarriesOver(f: seq<nat>, t: Tm)
    requires |f| == 6 && f[0] < 10000 && f[1] < 100 && f[2] < 100 && f[3] < 100 && f[4] < 100 && f[5] < 100
    ensures Calendar(t) && t != LAST_BEFORE_EPOCH && Seconds(FieldsTm(f)) == Seconds(t) ==>
      Parsed(Render(FORMAT, f)) == Date(t)
  {
    hide Scan, Render, Seconds, Denoted, CString, Cut, Calendar, FieldsTm;
    RenderedFields(f);
    LastSecond();
    if Calendar(t) {
      SecondsInjective(t, LAST_BEFORE_EPOCH);
      DenotedDate(t);
    }
  }

  lemma CarriedSeconds()
    ensures Calendar(Tm(123, 2, 2, 0, 0, 0)) && Calendar(Tm(124, 0, 1, 0, 0, 0))
    ensures Seconds(Tm(123, 1, 30, 0, 0, 0)) == Seconds(Tm(123, 2, 2, 0, 0, 0))
    ensures Seconds(Tm(123, 12, 1, 0, 0, 0)) == Seconds(Tm(124, 0, 1, 0, 0, 0))
  {
    hide DaysBeforeYear;
    assert !Leap(2023);
  }

  /** Through both buffers a printed time is read as itself, unless it is the last second of 1969. */
  method PrintThenParse(t: Tm) returns (r: Reading)
    requires Calendar(t)
    ensures r == if t == LAST_BEFORE_EPOCH then Refused else Date(t)
  {
    hide Parsed, IsoText;
    var text := AsnTimeToIso(Some(t));
    r := ParseIso(text);
    ParsePrinted(t);
  }
}
