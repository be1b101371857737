/** Fixed-width UTC timestamps (contract/notification_time.go): string order is time order. An instant is
    a number of nanoseconds from the start of year 0 of the proleptic Gregorian calendar. */
module Timestamps {
  import opened Text
  import opened Decimals

  // ---- order of concatenations ----

  lemma {:induction false} LessByParts(a: string, b: string, x: string, y: string)
    requires |a| == |b|
    ensures Less(a + x, b + y) <==> Less(a, b) || (a == b && Less(x, y))
  {
    if a == "" {
      assert a + x == x && b + y == y;
    } else {
      LessByParts(a[1..], b[1..], x, y);
      assert (a + x)[1..] == a[1..] + x && (b + y)[1..] == b[1..] + y;
      assert a == [a[0]] + a[1..] && b == [b[0]] + b[1..];
    }
  }

  lemma {:induction false} PaddedOrder(m: nat, n: nat, w: nat)
    requires m < Pow10(w) && n < Pow10(w)
    ensures Less(Padded(m, w), Padded(n, w)) <==> m < n
    decreases w
  {
    if w == 0 {
    } else {
      PaddedOrder(m / 10, n / 10, w - 1);
      PaddedWidth(m / 10, w - 1);
      PaddedWidth(n / 10, w - 1);
      PaddedIsDigits(m / 10, w - 1);
      PaddedIsDigits(n / 10, w - 1);
      LessByParts(Padded(m / 10, w - 1), Padded(n / 10, w - 1), [DigitChar(m % 10)], [DigitChar(n % 10)]);
    }
  }

  // ---- layouts ----

  /** A number of fixed width and the text after it. */
  datatype Slot = Slot(width: nat, tail: string)

  predicate Fits(layout: seq<Slot>, values: seq<nat>) {
    |layout| == |values| && forall i | 0 <= i < |layout| :: values[i] < Pow10(layout[i].width)
  }

  function Render(layout: seq<Slot>, values: seq<nat>): string
    requires |layout| == |values|
  {
    if layout == [] then ""
    else Padded(values[0], layout[0].width) + layout[0].tail + Render(layout[1..], values[1..])
  }

  function Width(layout: seq<Slot>): nat {
    if layout == [] then 0 else layout[0].width + |layout[0].tail| + Width(layout[1..])
  }

  predicate Before(a: seq<nat>, b: seq<nat>)
    requires |a| == |b|
  {
    a != [] && (a[0] < b[0] || (a[0] == b[0] && Before(a[1..], b[1..])))
  }

  lemma {:induction false} RenderWidth(layout: seq<Slot>, values: seq<nat>)
    requires Fits(layout, values)
    ensures |Render(layout, values)| == Width(layout)
  {
    if layout == [] {
    } else {
      RenderWidth(layout[1..], values[1..]);
      PaddedWidth(values[0], layout[0].width);
    }
  }

  lemma SlotOrder(p: string, q: string, tail: string, x: string, y: string)
    requires |p| == |q|
    ensures Less(p + tail + x, q + tail + y) <==> Less(p, q) || (p == q && Less(x, y))
  {
    LessIrreflexive(tail);
    LessByParts(tail, tail, x, y);
    LessByParts(p, q, tail + x, tail + y);
    assert p + tail + x == p + (tail + x) && q + tail + y == q + (tail + y);
  }

  /** Text in a fixed layout sorts as its numbers do, first number first. */
  lemma {:induction false} RenderOrder(layout: seq<Slot>, a: seq<nat>, b: seq<nat>)
    requires Fits(layout, a) && Fits(layout, b)
    ensures Less(Render(layout, a), Render(layout, b)) <==> Before(a, b)
  {
    if layout == [] {
    } else {
      RenderOrder(layout[1..], a[1..], b[1..]);
      var w := layout[0].width;
      PaddedOrder(a[0], b[0], w);
      PaddedSame(a[0], b[0], w);
      PaddedWidth(a[0], w);
      PaddedWidth(b[0], w);
      SlotOrder(Padded(a[0], w), Padded(b[0], w), layout[0].tail, Render(layout[1..], a[1..]),
        Render(layout[1..], b[1..]));
    }
  }

  /** Reading a fixed layout back. */
  function Scan(layout: seq<Slot>, s: string): Option<seq<nat>> {
    if layout == [] then if s == "" then Some([]) else None
    else
      var w, tail := layout[0].width, layout[0].tail;
      if |s| < w + |tail| || !AllDigits(s[..w]) || s[w..w + |tail|] != tail then None
      else match Scan(layout[1..], s[w + |tail|..])
        case None => None
        case Some(rest) => Some([DigitsValue(s[..w])] + rest)
  }

  lemma SplitSlot(digits: string, tail: string, rest: string)
    ensures var s := digits + tail + rest;
      s[..|digits|] == digits && s[|digits|..|digits| + |tail|] == tail && s[|digits| + |tail|..] == rest
  {
  }

  lemma ScanSlot(layout: seq<Slot>, digits: string, rest: string, values: seq<nat>)
    requires layout != [] && |digits| == layout[0].width && AllDigits(digits)
    requires Scan(layout[1..], rest) == Some(values)
    ensures Scan(layout, digits + layout[0].tail + rest) == Some([DigitsValue(digits)] + values)
  {
    SplitSlot(digits, layout[0].tail, rest);
  }

  lemma {:induction false} ScanRender(layout: seq<Slot>, values: seq<nat>)
    requires Fits(layout, values)
    ensures Scan(layout, Render(layout, values)) == Some(values)
  {
    if layout == [] {
    } else {
      ScanRender(layout[1..], values[1..]);
      PaddedIsDigits(values[0], layout[0].width);
      PaddedWidth(values[0], layout[0].width);
      ScanSlot(layout, Padded(values[0], layout[0].width), Render(layout[1..], values[1..]), values[1..]);
      assert [values[0]] + values[1..] == values;
    }
  }

  lemma FitsCons(layout: seq<Slot>, value: nat, values: seq<nat>)
    requires layout != [] && value < Pow10(layout[0].width) && Fits(layout[1..], values)
    ensures Fits(layout, [value] + values) && ([value] + values)[1..] == values
  {
    assert forall i | 1 <= i < |layout| :: layout[i] == layout[1..][i - 1] && ([value] + values)[i] == values[i - 1];
  }

  lemma {:induction false} RenderScan(layout: seq<Slot>, s: string)
    requires Scan(layout, s).Some?
    ensures Fits(layout, Scan(layout, s).value) && Render(layout, Scan(layout, s).value) == s
  {
    if layout == [] {
    } else {
      var w, tail := layout[0].width, layout[0].tail;
      var rest := s[w + |tail|..];
      RenderScan(layout[1..], rest);
      DigitsArePadded(s[..w]);
      assert s == s[..w] + tail + rest;
      FitsCons(layout, DigitsValue(s[..w]), Scan(layout[1..], rest).value);
    }
  }

  // ---- the calendar ----

  predicate Leap(y: int) {
    y % 4 == 0 && (y % 100 != 0 || y % 400 == 0)
  }

  /** Days from the start of year 0 to the start of year y. */
  function YearStart(y: int): int {
    365 * y + (y + 3) / 4 - (y + 99) / 100 + (y + 399) / 400
  }

  function DaysInYear(y: int): int {
    if Leap(y) then 366 else 365
  }

  lemma LeapEvery4(y: int)
    ensures (y + 4) / 4 == (y + 3) / 4 + if y % 4 == 0 then 1 else 0
  {
  }

  lemma LeapEvery100(y: int)
    ensures (y + 100) / 100 == (y + 99) / 100 + if y % 100 == 0 then 1 else 0
  {
  }

  lemma LeapEvery400(y: int)
    ensures (y + 400) / 400 == (y + 399) / 400 + if y % 400 == 0 then 1 else 0
  {
  }

  lemma LeapNested(y: int)
    ensures y % 100 == 0 ==> y % 4 == 0
    ensures y % 400 == 0 ==> y % 100 == 0
  {
  }

  lemma YearLength(y: int)
    ensures YearStart(y + 1) == YearStart(y) + DaysInYear(y)
  {
    LeapEvery4(y);
    LeapEvery100(y);
    LeapEvery400(y);
    LeapNested(y);
  }

  lemma {:induction false} YearsOrdered(y: int, z: int)
    requires y < z
    ensures YearStart(y) + DaysInYear(y) <= YearStart(z)
    decreases z - y
  {
    YearLength(z - 1);
    if y == z - 1 {
    } else {
      YearsOrdered(y, z - 1);
    }
  }

  const CYCLE_DAYS := 146097

  lemma YearCycle(y: int, k: int)
    ensures YearStart(y + 400 * k) == YearStart(y) + CYCLE_DAYS * k
  {
    assert (y + 400 * k + 3) / 4 == (y + 3) / 4 + 100 * k;
    assert (y + 400 * k + 99) / 100 == (y + 99) / 100 + 4 * k;
    assert (y + 400 * k + 399) / 400 == (y + 399) / 400 + k;
  }

  predicate InYear(day: int, y: int) {
    YearStart(y) <= day < YearStart(y + 1)
  }

  function YearFrom(day: nat, y: nat): (r: int)
    requires YearStart(y) <= day
    ensures InYear(day, r)
    decreases day - y
  {
    YearLength(y);
    if day < YearStart(y + 1) then y else YearFrom(day, y + 1)
  }

  function YearOf(day: int): (y: int)
    ensures InYear(day, y)
  {
    var k, rest := day / CYCLE_DAYS, day % CYCLE_DAYS;
    var y := YearFrom(rest, 0);
    YearCycle(y, k);
    YearCycle(y + 1, k);
    y + 400 * k
  }

  function DaysInMonth(y: int, m: nat): nat {
    if m == 2 then if Leap(y) then 29 else 28
    else if m in {4, 6, 9, 11} then 30
    else 31
  }

  /** Days from the start of year y to the start of month m. */
  function MonthStart(y: int, m: nat): nat {
    if m <= 1 then 0 else MonthStart(y, m - 1) + DaysInMonth(y, m - 1)
  }

  /** The lengths and starts of months, without a table. */
  lemma {:induction false} MonthsExactly(y: int, m: nat)
    requires 1 <= m <= 12
    ensures MonthStart(y, m) == (367 * m - 362) / 12 - if m <= 2 then 0 else if Leap(y) then 1 else 2
    ensures DaysInMonth(y, m) == if m == 2 then if Leap(y) then 29 else 28 else 30 + (m + m / 8) % 2
  {
    if m == 1 {
    } else {
      MonthsExactly(y, m - 1);
    }
  }

  lemma TwelveMonths(y: int)
    ensures MonthStart(y, 13) == DaysInYear(y)
  {
    assert MonthStart(y, 3) == MonthStart(y, 2) + DaysInMonth(y, 2) == 59 + if Leap(y) then 1 else 0;
    assert MonthStart(y, 5) == MonthStart(y, 3) + 61;
    assert MonthStart(y, 7) == MonthStart(y, 5) + 61;
    assert MonthStart(y, 9) == MonthStart(y, 7) + 62;
    assert MonthStart(y, 11) == MonthStart(y, 9) + 61;
    assert MonthStart(y, 13) == MonthStart(y, 11) + 61;
  }

  lemma {:induction false} MonthsOrdered(y: int, m: nat, n: nat)
    requires 1 <= m < n
    ensures MonthStart(y, m) + DaysInMonth(y, m) <= MonthStart(y, n)
    decreases n
  {
    if m == n - 1 {
    } else {
      MonthsOrdered(y, m, n - 1);
    }
  }

  function MonthFrom(y: int, dayOfYear: nat, m: nat): (r: nat)
    requires 1 <= m <= 12 && MonthStart(y, m) <= dayOfYear < MonthStart(y, 13)
    ensures 1 <= r <= 12 && MonthStart(y, r) <= dayOfYear < MonthStart(y, r + 1)
    decreases 12 - m
  {
    if dayOfYear < MonthStart(y, m + 1) then m else MonthFrom(y, dayOfYear, m + 1)
  }

  // ---- instants ----

  datatype Civil = Civil(year: int, month: nat, day: nat, hour: nat, minute: nat, second: nat, nano: nat)

  const NANOS := 1_000_000_000
  const DAY_NANOS := 86400 * NANOS

  predicate ValidCivil(c: Civil) {
    && 1 <= c.month <= 12 && 1 <= c.day <= DaysInMonth(c.year, c.month)
    && c.hour < 24 && c.minute < 60 && c.second < 60 && c.nano < NANOS
  }

  function DayNumber(c: Civil): int {
    YearStart(c.year) + MonthStart(c.year, c.month) + c.day - 1
  }

  function TimeOfDay(c: Civil): nat {
    ((c.hour * 60 + c.minute) * 60 + c.second) * NANOS + c.nano
  }

  function InstantOf(c: Civil): int {
    DayNumber(c) * DAY_NANOS + TimeOfDay(c)
  }

  lemma Nanoseconds(day: int, c: Civil)
    ensures day * DAY_NANOS + TimeOfDay(c) ==
      (day * 86_400 + c.hour * 3_600 + c.minute * 60 + c.second) * 1_000_000_000 + c.nano
  {
  }

  lemma DaysExactly(c: Civil)
    requires ValidCivil(c)
    ensures var y, m := c.year, c.month;
      var leapDays := (y + 3) / 4 - (y + 99) / 100 + (y + 399) / 400;
      var shift := if m <= 2 then 0 else if y % 4 == 0 && (y % 100 != 0 || y % 400 == 0) then 1 else 2;
      DayNumber(c) == 365 * y + leapDays + (367 * m - 362) / 12 - shift + c.day - 1
  {
    MonthsExactly(c.year, c.month);
    hide MonthStart, DaysInMonth;
  }

  /** The instant of a date and time in closed form: the days of the proleptic Gregorian calendar, and
      nanoseconds since midnight. The Unix epoch is day 719528. */
  lemma CalendarExactly(c: Civil)
    requires ValidCivil(c)
    ensures var y, m := c.year, c.month;
      var leapDays := (y + 3) / 4 - (y + 99) / 100 + (y + 399) / 400;
      var shift := if m <= 2 then 0 else if y % 4 == 0 && (y % 100 != 0 || y % 400 == 0) then 1 else 2;
      var day := 365 * y + leapDays + (367 * m - 362) / 12 - shift + c.day - 1;
      InstantOf(c) == (day * 86_400 + c.hour * 3_600 + c.minute * 60 + c.second) * 1_000_000_000 + c.nano
    ensures c.day <= if c.month == 2 then if Leap(c.year) then 29 else 28 else 30 + (c.month + c.month / 8) % 2
    ensures c.year == 1970 && c.month == 1 && c.day == 1 ==> DayNumber(c) == 719_528
  {
    hide DayNumber, TimeOfDay, MonthStart, DaysInMonth;
    DaysExactly(c);
    MonthsExactly(c.year, c.month);
    Nanoseconds(DayNumber(c), c);
  }

  datatype ClockTime = ClockTime(hour: nat, minute: nat, second: nat)

  function ClockOf(seconds: nat): (t: ClockTime)
    requires seconds < 86400
    ensures t.hour < 24 && t.minute < 60 && t.second < 60
    ensures (t.hour * 60 + t.minute) * 60 + t.second == seconds
  {
    var minutes := seconds / 60;
    ClockTime(minutes / 60, minutes % 60, seconds % 60)
  }

  lemma SecondsOf(rest: nat)
    requires rest < DAY_NANOS
    ensures rest / NANOS < 86400 && rest / NANOS * NANOS + rest % NANOS == rest && rest % NANOS < NANOS
  {
  }

  lemma DateOf(day: int)
    ensures var year := YearOf(day);
      var dayOfYear := day - YearStart(year);
      && 0 <= dayOfYear < MonthStart(year, 13) && MonthStart(year, 1) == 0
      && var month := MonthFrom(year, dayOfYear, 1);
      1 <= month <= 12 && MonthStart(year, month) <= dayOfYear < MonthStart(year, month) + DaysInMonth(year, month)
  {
    YearLength(YearOf(day));
    TwelveMonths(YearOf(day));
  }

  function OnDay(day: int, rest: nat): (c: Civil)
    requires rest < DAY_NANOS
    ensures ValidCivil(c) && DayNumber(c) == day && TimeOfDay(c) == rest
  {
    DateOf(day);
    SecondsOf(rest);
    var year := YearOf(day);
    var dayOfYear := day - YearStart(year);
    var month := MonthFrom(year, dayOfYear, 1);
    var clock := ClockOf(rest / NANOS);
    Civil(year, month, dayOfYear - MonthStart(year, month) + 1, clock.hour, clock.minute, clock.second, rest % NANOS)
  }

  lemma DayAndTime(instant: int)
    ensures 0 <= instant % DAY_NANOS < DAY_NANOS
    ensures instant / DAY_NANOS * DAY_NANOS + instant % DAY_NANOS == instant
  {
  }

  function CivilOf(instant: int): (c: Civil)
    ensures ValidCivil(c) && InstantOf(c) == instant
  {
    DayAndTime(instant);
    OnDay(instant / DAY_NANOS, instant % DAY_NANOS)
  }

  ghost predicate Earlier(a: Civil, b: Civil) {
    || a.year < b.year
    || (a.year == b.year &&
        (|| a.month < b.month
         || (a.month == b.month &&
             (|| a.day < b.day
              || (a.day == b.day && TimeOfDay(a) < TimeOfDay(b))))))
  }

  lemma DatesOrdered(a: Civil, b: Civil)
    requires ValidCivil(a) && ValidCivil(b)
    requires a.year < b.year || (a.year == b.year && (a.month < b.month || (a.month == b.month && a.day < b.day)))
    ensures DayNumber(a) < DayNumber(b)
  {
    if a.year < b.year {
      YearsOrdered(a.year, b.year);
      TwelveMonths(a.year);
      MonthsOrdered(a.year, a.month, 13);
    } else if a.month < b.month {
      MonthsOrdered(a.year, a.month, b.month);
    }
  }

  lemma ClockWithinDay(c: Civil)
    requires ValidCivil(c)
    ensures TimeOfDay(c) < DAY_NANOS
  {
  }

  lemma LaterDay(d: int, e: int, t: nat, u: nat)
    requires d < e && t < DAY_NANOS
    ensures d * DAY_NANOS + t < e * DAY_NANOS + u
  {
  }

  lemma EarlierIsSmaller(a: Civil, b: Civil)
    requires ValidCivil(a) && ValidCivil(b) && Earlier(a, b)
    ensures InstantOf(a) < InstantOf(b)
  {
    if a.year == b.year && a.month == b.month && a.day == b.day {
      assert DayNumber(a) == DayNumber(b);
    } else {
      DatesOrdered(a, b);
      ClockWithinDay(a);
      hide DayNumber, TimeOfDay;
      LaterDay(DayNumber(a), DayNumber(b), TimeOfDay(a), TimeOfDay(b));
    }
  }

  lemma EarlierIffSmaller(a: Civil, b: Civil)
    requires ValidCivil(a) && ValidCivil(b)
    ensures Earlier(a, b) <==> InstantOf(a) < InstantOf(b)
  {
    if Earlier(a, b) {
      EarlierIsSmaller(a, b);
    } else if Earlier(b, a) {
      EarlierIsSmaller(b, a);
    }
  }

  lemma ClockUnique(a: Civil, b: Civil)
    requires ValidCivil(a) && ValidCivil(b) && TimeOfDay(a) == TimeOfDay(b)
    ensures a.hour == b.hour && a.minute == b.minute && a.second == b.second && a.nano == b.nano
  {
    assert TimeOfDay(a) / NANOS == (a.hour * 60 + a.minute) * 60 + a.second;
    assert TimeOfDay(b) / NANOS == (b.hour * 60 + b.minute) * 60 + b.second;
  }

  /** The calendar date and clock time of an instant are unique. */
  lemma CivilUnique(c: Civil)
    requires ValidCivil(c)
    ensures CivilOf(InstantOf(c)) == c
  {
    var d := CivilOf(InstantOf(c));
    EarlierIffSmaller(c, d);
    EarlierIffSmaller(d, c);
    ClockUnique(c, d);
  }

  // ---- timestamps ----

  const LAYOUT := [Slot(4, "-"), Slot(2, "-"), Slot(2, "T"), Slot(2, ":"), Slot(2, ":"), Slot(2, "."), Slot(9, "Z")]

  function Abs(x: int): nat {
    if x < 0 then -x else x
  }

  function Parts(c: Civil): seq<nat> {
    [Abs(c.year), c.month, c.day, c.hour, c.minute, c.second, c.nano]
  }

  /** time.Time.Format for the layout: a year below 0 gets a sign, one above 9999 more digits. */
  function NotificationTimestamp(instant: int): string {
    var c := CivilOf(instant);
    (if c.year < 0 then "-" else "") + Render(LAYOUT, Parts(c))
  }

  predicate InRange(instant: int) {
    0 <= CivilOf(instant).year <= 9999
  }

  lemma Powers()
    ensures Pow10(2) == 100 && Pow10(4) == 10000 && Pow10(9) == NANOS
  {
    assert Pow10(5) == 100000 && Pow10(7) == 10000000;
  }

  lemma PartsFit(c: Civil)
    requires ValidCivil(c) && -9999 <= c.year <= 9999
    ensures Fits(LAYOUT, Parts(c))
  {
    Powers();
  }

  lemma BeforeCons(x: nat, xs: seq<nat>, y: nat, ys: seq<nat>)
    requires |xs| == |ys|
    ensures Before([x] + xs, [y] + ys) <==> x < y || (x == y && Before(xs, ys))
  {
    assert ([x] + xs)[1..] == xs && ([y] + ys)[1..] == ys;
  }

  function Clock(c: Civil): seq<nat> {
    [c.hour, c.minute, c.second, c.nano]
  }

  lemma ClockOrder(a: Civil, b: Civil)
    requires ValidCivil(a) && ValidCivil(b)
    ensures Before(Clock(a), Clock(b)) <==> TimeOfDay(a) < TimeOfDay(b)
  {
    BeforeCons(a.nano, [], b.nano, []);
    BeforeCons(a.second, [a.nano], b.second, [b.nano]);
    BeforeCons(a.minute, [a.second, a.nano], b.minute, [b.second, b.nano]);
    BeforeCons(a.hour, [a.minute, a.second, a.nano], b.hour, [b.minute, b.second, b.nano]);
    assert Clock(a) == [a.hour] + [a.minute, a.second, a.nano]
      && [a.minute, a.second, a.nano] == [a.minute] + [a.second, a.nano];
    assert Clock(b) == [b.hour] + [b.minute, b.second, b.nano]
      && [b.minute, b.second, b.nano] == [b.minute] + [b.second, b.nano];
  }

  lemma PartsOrder(a: Civil, b: Civil)
    requires ValidCivil(a) && ValidCivil(b) && ((a.year >= 0 && b.year >= 0) || a.year == b.year)
    ensures Before(Parts(a), Parts(b)) <==> Earlier(a, b)
  {
    ClockOrder(a, b);
    BeforeCons(a.day, Clock(a), b.day, Clock(b));
    BeforeCons(a.month, [a.day] + Clock(a), b.month, [b.day] + Clock(b));
    BeforeCons(Abs(a.year), [a.month] + ([a.day] + Clock(a)), Abs(b.year), [b.month] + ([b.day] + Clock(b)));
    assert Parts(a) == [Abs(a.year)] + ([a.month] + ([a.day] + Clock(a)));
    assert Parts(b) == [Abs(b.year)] + ([b.month] + ([b.day] + Clock(b)));
  }

  lemma InRangeText(instant: int)
    requires InRange(instant)
    ensures NotificationTimestamp(instant) == Render(LAYOUT, Parts(CivilOf(instant)))
    ensures Fits(LAYOUT, Parts(CivilOf(instant)))
  {
    PartsFit(CivilOf(instant));
  }

  function YearOfInstant(instant: int): int {
    CivilOf(instant).year
  }

  lemma SignedText(instant: int)
    requires -9999 <= YearOfInstant(instant) < 0
    ensures NotificationTimestamp(instant) == "-" + Render(LAYOUT, Parts(CivilOf(instant)))
    ensures Fits(LAYOUT, Parts(CivilOf(instant)))
  {
    PartsFit(CivilOf(instant));
  }

  lemma SameSignOrder(s: int, t: int)
    requires (InRange(s) && InRange(t)) || -9999 <= YearOfInstant(s) == YearOfInstant(t) < 0
    ensures Less(NotificationTimestamp(s), NotificationTimestamp(t)) <==> s < t
  {
    hide Render, Less;
    var a, b := CivilOf(s), CivilOf(t);
    RenderOrder(LAYOUT, Parts(a), Parts(b)) by {
      PartsFit(a);
      PartsFit(b);
    }
    PartsOrder(a, b);
    EarlierIffSmaller(a, b);
    if InRange(s) {
      InRangeText(s);
      InRangeText(t);
    } else {
      SignedText(s);
      SignedText(t);
      AfterSign(Render(LAYOUT, Parts(a)), Render(LAYOUT, Parts(b)));
    }
  }

  lemma AfterSign(x: string, y: string)
    ensures Less("-" + x, "-" + y) <==> Less(x, y)
  {
    LessIrreflexive("-");
    LessByParts("-", "-", x, y);
  }

  lemma PlainHead(instant: int)
    requires InRange(instant)
    ensures |NotificationTimestamp(instant)| > 0 && NotificationTimestamp(instant)[0] > '-'
  {
    var year := CivilOf(instant).year;
    InRangeText(instant);
    Powers();
    PaddedWidth(year, 4);
    PaddedIsDigits(year, 4);
    RenderHead(LAYOUT, Parts(CivilOf(instant)));
    assert IsDigit(Padded(year, 4)[0]);
  }

  lemma SignFirst(s: int, t: int)
    requires YearOfInstant(s) == -1 && InRange(t)
    ensures Less(NotificationTimestamp(s), NotificationTimestamp(t))
    ensures !Less(NotificationTimestamp(t), NotificationTimestamp(s))
  {
    SignedText(s);
    PlainHead(t);
    LessByHead(NotificationTimestamp(s), NotificationTimestamp(t));
    LessTotal(NotificationTimestamp(s), NotificationTimestamp(t));
  }

  lemma YearOrder(s: int, t: int)
    requires YearOfInstant(s) < YearOfInstant(t)
    ensures s < t
  {
    EarlierIffSmaller(CivilOf(s), CivilOf(t));
  }

  /** The order in which timestamps are stored is the order of the instants. The sign of the year before the
      year 0 sorts before the digits. */
  lemma StringOrderIsTimeOrder(s: int, t: int)
    requires -1 <= YearOfInstant(s) <= 9999 && -1 <= YearOfInstant(t) <= 9999
    ensures Less(NotificationTimestamp(s), NotificationTimestamp(t)) <==> s < t
  {
    hide NotificationTimestamp, CivilOf, Less;
    if InRange(s) == InRange(t) {
      SameSignOrder(s, t);
    } else if InRange(t) {
      SignFirst(s, t);
      YearOrder(s, t);
    } else {
      SignFirst(t, s);
      YearOrder(t, s);
    }
  }

  /** The first digit of a number of k + 1 digits. */
  lemma {:induction false} PaddedHead(n: nat, w: nat, k: nat, d: nat)
    requires 1 <= d < 10 && d * Pow10(k) <= n < (d + 1) * Pow10(k) && w <= k + 1
    ensures |Padded(n, w)| > 0 && Padded(n, w)[0] == DigitChar(d)
    decreases k
  {
    if k == 0 {
      assert n == d && Padded(n / 10, 0) == "";
    } else {
      PaddedHead(n / 10, Less1(w), k - 1, d);
    }
  }

  lemma FirstCharacters()
    ensures |Padded(10000, 4)| > 0 && Padded(10000, 4)[0] == '1'
    ensures |Padded(9999, 4)| > 0 && Padded(9999, 4)[0] == '9'
  {
    Powers();
    PaddedHead(10000, 4, 4, 1);
    PaddedHead(9999, 4, 3, 9);
  }

  lemma RenderHead(layout: seq<Slot>, values: seq<nat>)
    requires |layout| == |values| > 0 && |Padded(values[0], layout[0].width)| > 0
    ensures |Render(layout, values)| > 0 && Render(layout, values)[0] == Padded(values[0], layout[0].width)[0]
  {
  }

  function FirstOf(year: int): (c: Civil)
    ensures ValidCivil(c)
  {
    Civil(year, 1, 1, 0, 0, 0, 0)
  }

  function LastOf(year: int): (c: Civil)
    ensures ValidCivil(c)
  {
    Civil(year, 12, 31, 23, 59, 59, NANOS - 1)
  }

  lemma YearsMeet(year: int)
    ensures InstantOf(LastOf(year)) + 1 == InstantOf(FirstOf(year + 1))
  {
    YearLength(year);
    TwelveMonths(year);
    assert DayNumber(LastOf(year)) + 1 == DayNumber(FirstOf(year + 1));
    assert TimeOfDay(LastOf(year)) + 1 == DAY_NANOS && TimeOfDay(FirstOf(year + 1)) == 0;
    NextDay(DayNumber(LastOf(year)));
  }

  lemma NextDay(d: int)
    ensures d * DAY_NANOS + DAY_NANOS == (d + 1) * DAY_NANOS
  {
  }

  lemma HeadOfText(c: Civil)
    requires ValidCivil(c) && c.year >= 0 && |Padded(c.year, 4)| > 0
    ensures |NotificationTimestamp(InstantOf(c))| > 0
    ensures NotificationTimestamp(InstantOf(c))[0] == Padded(c.year, 4)[0]
  {
    CivilUnique(c);
    RenderHead(LAYOUT, Parts(c));
  }

  lemma LessByHead(a: string, b: string)
    requires |a| > 0 && |b| > 0 && a[0] < b[0]
    ensures Less(a, b)
  {
  }

  lemma HeadsDecide(a: Civil, b: Civil)
    requires ValidCivil(a) && ValidCivil(b) && a.year >= 0 && b.year >= 0
    requires |Padded(a.year, 4)| > 0 && |Padded(b.year, 4)| > 0 && Padded(a.year, 4)[0] < Padded(b.year, 4)[0]
    ensures Less(NotificationTimestamp(InstantOf(a)), NotificationTimestamp(InstantOf(b)))
  {
    HeadOfText(a);
    HeadOfText(b);
    LessByHead(NotificationTimestamp(InstantOf(a)), NotificationTimestamp(InstantOf(b)));
  }

  lemma BeforeYear(year: int) returns (last: Civil)
    ensures ValidCivil(last) && last.year == year - 1 && InstantOf(FirstOf(year)) - 1 == InstantOf(last)
    ensures CivilOf(InstantOf(last)) == last
  {
    last := LastOf(year - 1);
    YearsMeet(year - 1);
    CivilUnique(last);
  }

  /** Beyond the year 9999 the order breaks: the first instant of the year 10000 sorts before the one
      just before it. */
  lemma YearTenThousandSortsEarly(year: int)
    requires year == 10000
    ensures var t := InstantOf(FirstOf(year));
      InRange(t - 1) && Less(NotificationTimestamp(t), NotificationTimestamp(t - 1))
  {
    FirstCharacters();
    var last := BeforeYear(year);
    HeadsDecide(FirstOf(year), last);
  }

  lemma FirstOfYears(year: int)
    ensures CivilOf(InstantOf(FirstOf(year))) == FirstOf(year)
    ensures InstantOf(FirstOf(year)) < InstantOf(FirstOf(year + 1))
  {
    CivilUnique(FirstOf(year));
    EarlierIsSmaller(FirstOf(year), FirstOf(year + 1));
  }

  /** Before the year -1 the order breaks too: the start of the year -2 sorts after that of the year -1. */
  lemma YearMinusTwoSortsLate(year: int)
    requires year == -2
    ensures var s, t := InstantOf(FirstOf(year)), InstantOf(FirstOf(year + 1));
      s < t && Less(NotificationTimestamp(t), NotificationTimestamp(s))
  {
    var a, b := FirstOf(year), FirstOf(year + 1);
    FirstOfYears(year);
    FirstOfYears(year + 1);
    hide CivilOf, InstantOf, Render, Less;
    SignedText(InstantOf(a));
    SignedText(InstantOf(b));
    RenderOrder(LAYOUT, Parts(b), Parts(a));
    assert Before(Parts(b), Parts(a)) by {
      assert Parts(b)[0] == 1 && Parts(a)[0] == 2;
    }
    AfterSign(Render(LAYOUT, Parts(b)), Render(LAYOUT, Parts(a)));
  }

  /** All instants of these years sort by time. */
  ghost predicate SortsByTime(lo: int, hi: int) {
    forall s, t | lo <= YearOfInstant(s) <= hi && lo <= YearOfInstant(t) <= hi ::
      Less(NotificationTimestamp(s), NotificationTimestamp(t)) <==> s < t
  }

  /** An interval of years that reaches into -1 to 9999 sorts by time exactly when it stays inside. */
  lemma SortedYearsExactly(lo: int, hi: int)
    requires lo <= hi && lo <= 9999 && -1 <= hi
    ensures SortsByTime(lo, hi) <==> -1 <= lo && hi <= 9999
  {
    hide NotificationTimestamp, CivilOf, InstantOf, Less;
    if -1 <= lo && hi <= 9999 {
      forall s, t | lo <= YearOfInstant(s) <= hi && lo <= YearOfInstant(t) <= hi
        ensures Less(NotificationTimestamp(s), NotificationTimestamp(t)) <==> s < t
      {
        StringOrderIsTimeOrder(s, t);
      }
    } else if lo < -1 {
      MisorderedBelow(-2, lo, hi);
    } else {
      MisorderedAbove(10000, lo, hi);
    }
  }

  lemma MisorderedBelow(year: int, lo: int, hi: int)
    requires year == -2 && lo <= year && year + 1 <= hi
    ensures !SortsByTime(lo, hi)
  {
    hide NotificationTimestamp, CivilOf, InstantOf, Less;
    FirstOfYears(year);
    FirstOfYears(year + 1);
    YearMinusTwoSortsLate(year);
    var s, t := InstantOf(FirstOf(year)), InstantOf(FirstOf(year + 1));
    assert YearOfInstant(s) == year && YearOfInstant(t) == year + 1;
  }

  lemma MisorderedAbove(year: int, lo: int, hi: int)
    requires year == 10000 && lo < year <= hi
    ensures !SortsByTime(lo, hi)
  {
    hide NotificationTimestamp, CivilOf, InstantOf, Less, InRange, ValidCivil;
    FirstOfYears(year);
    var last := BeforeYear(year);
    YearTenThousandSortsEarly(year);
    var t := InstantOf(FirstOf(year));
    assert YearOfInstant(t) == year && YearOfInstant(t - 1) == year - 1;
  }

  lemma LayoutWidth()
    ensures Width(LAYOUT) == 30 && Width(LAYOUT[1..]) == 25
  {
    assert LAYOUT[1..][1..] == LAYOUT[2..] && LAYOUT[2..][1..] == LAYOUT[3..] && LAYOUT[3..][1..] == LAYOUT[4..];
    assert LAYOUT[4..][1..] == LAYOUT[5..] && LAYOUT[5..][1..] == LAYOUT[6..] && LAYOUT[6..][1..] == [];
    assert Width(LAYOUT[4..]) == 3 + Width(LAYOUT[5..]) == 6 + Width(LAYOUT[6..]) == 16;
    assert Width(LAYOUT[2..]) == 3 + Width(LAYOUT[3..]) == 6 + Width(LAYOUT[4..]);
  }

  /** A timestamp has 30 characters exactly when the year has four digits. */
  lemma WidthThirty(instant: int)
    ensures |NotificationTimestamp(instant)| == 30 <==> InRange(instant)
    ensures |NotificationTimestamp(instant)| >= 30
  {
    var c := CivilOf(instant);
    var values := Parts(c);
    LayoutWidth();
    Powers();
    PaddedWidth(Abs(c.year), 4);
    RenderWidth(LAYOUT[1..], values[1..]);
  }

  /** Where field i starts. */
  function Start(layout: seq<Slot>, i: nat): nat
    requires i < |layout|
  {
    if i == 0 then 0 else layout[0].width + |layout[0].tail| + Start(layout[1..], i - 1)
  }

  /** Field i of the text is this number, followed by this text. */
  ghost predicate ShowsAt(s: string, start: nat, width: nat, value: nat, tail: string) {
    && start + width + |tail| <= |s|
    && AllDigits(s[start..start + width]) && DigitsValue(s[start..start + width]) == value
    && s[start + width..start + width + |tail|] == tail
  }

  lemma SliceLater(head: string, s: string, i: nat, j: nat)
    requires i <= j <= |s|
    ensures (head + s)[|head| + i..|head| + j] == s[i..j]
  {
  }

  lemma ShowsLater(head: string, s: string, start: nat, width: nat, value: nat, tail: string)
    requires ShowsAt(s, start, width, value, tail)
    ensures ShowsAt(head + s, |head| + start, width, value, tail)
  {
    SliceLater(head, s, start, start + width);
    SliceLater(head, s, start + width, start + width + |tail|);
  }

  lemma {:induction false} FieldAt(layout: seq<Slot>, values: seq<nat>, i: nat)
    requires Fits(layout, values) && i < |layout|
    ensures ShowsAt(Render(layout, values), Start(layout, i), layout[i].width, values[i], layout[i].tail)
  {
    var w := layout[0].width;
    PaddedWidth(values[0], w);
    PaddedIsDigits(values[0], w);
    var rest := Render(layout[1..], values[1..]);
    if i == 0 {
      SplitSlot(Padded(values[0], w), layout[0].tail, rest);
    } else {
      FieldAt(layout[1..], values[1..], i - 1);
      ShowsLater(Padded(values[0], w) + layout[0].tail, rest, Start(layout[1..], i - 1), layout[i].width, values[i],
        layout[i].tail);
    }
  }

  lemma {:induction false} StartNext(layout: seq<Slot>, i: nat)
    requires 1 <= i < |layout|
    ensures Start(layout, i) == Start(layout, i - 1) + layout[i - 1].width + |layout[i - 1].tail|
  {
    if i == 1 {
    } else {
      StartNext(layout[1..], i - 1);
    }
  }

  lemma Starts()
    ensures Start(LAYOUT, 0) == 0 && Start(LAYOUT, 1) == 5 && Start(LAYOUT, 2) == 8 && Start(LAYOUT, 3) == 11
      && Start(LAYOUT, 4) == 14 && Start(LAYOUT, 5) == 17 && Start(LAYOUT, 6) == 20
  {
    StartNext(LAYOUT, 1);
    StartNext(LAYOUT, 2);
    StartNext(LAYOUT, 3);
    StartNext(LAYOUT, 4);
    StartNext(LAYOUT, 5);
    StartNext(LAYOUT, 6);
  }

  /** A timestamp reads YYYY-MM-DDTHH:MM:SS.NNNNNNNNNZ, with the parts of the date and time. */
  lemma TextShowsParts(instant: int)
    requires InRange(instant)
    ensures var s, c := NotificationTimestamp(instant), CivilOf(instant);
      && |s| == 30
      && ShowsAt(s, 0, 4, c.year, "-") && ShowsAt(s, 5, 2, c.month, "-") && ShowsAt(s, 8, 2, c.day, "T")
      && ShowsAt(s, 11, 2, c.hour, ":") && ShowsAt(s, 14, 2, c.minute, ":") && ShowsAt(s, 17, 2, c.second, ".")
      && ShowsAt(s, 20, 9, c.nano, "Z")
  {
    hide ShowsAt, CivilOf, Render, Start, NotificationTimestamp;
    var values := Parts(CivilOf(instant));
    InRangeText(instant);
    WidthThirty(instant);
    Starts();
    FieldAt(LAYOUT, values, 0);
    FieldAt(LAYOUT, values, 1);
    FieldAt(LAYOUT, values, 2);
    FieldAt(LAYOUT, values, 3);
    FieldAt(LAYOUT, values, 4);
    FieldAt(LAYOUT, values, 5);
    FieldAt(LAYOUT, values, 6);
  }

  /** Reading a timestamp back: the reference inverse of formatting. */
  function ReadTimestamp(s: string): Option<int> {
    match Scan(LAYOUT, s)
    case None => None
    case Some(values) =>
      if |values| != 7 then None
      else
        var c := CivilFrom(values);
        if ValidCivil(c) then Some(InstantOf(c)) else None
  }

  function CivilFrom(values: seq<nat>): Civil
    requires |values| == 7
  {
    Civil(values[0], values[1], values[2], values[3], values[4], values[5], values[6])
  }

  /** Formatting loses nothing: distinct instants have distinct texts, and reading a text back gives the
      instant. */
  lemma ReadsBack(instant: int)
    requires InRange(instant)
    ensures ReadTimestamp(NotificationTimestamp(instant)) == Some(instant)
  {
    var c := CivilOf(instant);
    InRangeText(instant);
    ScanRender(LAYOUT, Parts(c));
    assert CivilFrom(Parts(c)) == c;
  }

  /** A text that reads as an instant is the text of that instant. */
  lemma WritesBack(s: string)
    requires ReadTimestamp(s).Some?
    ensures InRange(ReadTimestamp(s).value) && NotificationTimestamp(ReadTimestamp(s).value) == s
  {
    hide CivilOf, InstantOf, Render, Scan;
    var values := Scan(LAYOUT, s).value;
    var c := CivilFrom(values);
    RenderScan(LAYOUT, s);
    CivilUnique(c);
    YearFits(values);
    assert Parts(c) == values;
  }

  lemma YearFits(values: seq<nat>)
    requires Fits(LAYOUT, values)
    ensures |values| == 7 && values[0] <= 9999
  {
    Powers();
    assert values[0] < Pow10(LAYOUT[0].width);
  }
}
