/** src/common/timegm_fallback.c: the closed-form day number against counting days one by one. */
module Calendar {

  /** C integer division truncates toward zero. */
  function TruncDiv(a: int, b: int): (q: int)
    requires b > 0
  {
    if a >= 0 then a / b else -((-a) / b)
  }

  /** Years are counted from March, so January and February belong to the year before. */
  function ShiftedYear(y: int, m: int): (s: int) {
    if m <= 2 then y - 1 else y
  }

  /** days_from_epoch_1970, operator by operator. */
  function DaysFromEpoch(y: int, m: int, d: int): (days: int) {
    var s := ShiftedYear(y, m);
    var era := TruncDiv(s, 400);
    var yoe := s - era * 400;
    var doy := TruncDiv(153 * (m + (if m > 2 then -3 else 9)) + 2, 5) + d - 1;
    var doe := yoe * 365 + TruncDiv(yoe, 4) - TruncDiv(yoe, 100) + doy;
    era * 146097 + doe - 719468
  }

  datatype Tm = Tm(year: int, mon: int, mday: int, hour: int, min: int, sec: int)

  /** The month brought into 0..11, with the year carried along. */
  function Normalise(year: int, month: int): (r: (int, int))
    ensures 0 <= r.1 <= 11
    ensures 12 * r.0 + r.1 == 12 * year + month
  {
    if month > 11 then (year + month / 12, month % 12)
    else if month < 0 then
      var yearsDiff := (11 - month) / 12;
      (year - yearsDiff, month + 12 * yearsDiff)
    else (year, month)
  }

  function Timegm(t: Tm): (seconds: int) {
    var (year, month) := Normalise(t.year + 1900, t.mon);
    60 * (60 * (24 * DaysFromEpoch(year, month + 1, t.mday) + t.hour) + t.min) + t.sec
  }

  // ---------------------------------------------------------------- counting days

  predicate IsLeap(y: int) {
    y % 4 == 0 && (y % 100 != 0 || y % 400 == 0)
  }

  function YearLength(y: int): (n: int) {
    if IsLeap(y) then 366 else 365
  }

  function MonthLength(y: int, m: int): (n: int) {
    if m == 2 then (if IsLeap(y) then 29 else 28)
    else if m == 4 || m == 6 || m == 9 || m == 11 then 30
    else 31
  }

  /** Days between 1 January 1970 and 1 January of year y, summed year by year. */
  function YearsBefore(y: int): (days: int)
    decreases if y >= 1970 then y - 1970 else 1970 - y
  {
    if y == 1970 then 0
    else if y > 1970 then YearsBefore(y - 1) + YearLength(y - 1)
    else YearsBefore(y + 1) - YearLength(y)
  }

  function MonthsBefore(y: int, m: int): (days: int)
    requires 1 <= m <= 12
  {
    if m == 1 then 0 else MonthsBefore(y, m - 1) + MonthLength(y, m - 1)
  }

  function CountDays(y: int, m: int, d: int): (days: int)
    requires 1 <= m <= 12
  {
    YearsBefore(y) + MonthsBefore(y, m) + d - 1
  }

  datatype Date = Date(y: int, m: int, d: int)

  predicate ValidDate(a: Date) {
    1 <= a.m <= 12 && 1 <= a.d <= MonthLength(a.y, a.m)
  }

  function NextDay(a: Date): (b: Date)
    requires ValidDate(a)
    ensures ValidDate(b)
  {
    if a.d < MonthLength(a.y, a.m) then Date(a.y, a.m, a.d + 1)
    else if a.m < 12 then Date(a.y, a.m + 1, 1)
    else Date(a.y + 1, 1, 1)
  }

  predicate Earlier(a: Date, b: Date) {
    a.y < b.y || (a.y == b.y && (a.m < b.m || (a.m == b.m && a.d < b.d)))
  }

  // ---------------------------------------------------------------- the formula is the count

  /** The formula with flooring division throughout. */
  function FloorDays(y: int, m: int, d: int): (days: int) {
    var s := ShiftedYear(y, m);
    365 * s + s / 4 - s / 100 + s / 400 + (153 * (m + (if m > 2 then -3 else 9)) + 2) / 5 + d - 1 - 719468
  }

  lemma {:induction false} YearStep(y: int)
    ensures FloorDays(y + 1, 1, 1) == FloorDays(y, 1, 1) + YearLength(y)
  {
    LeapDay(y);
  }

  lemma {:induction false} YearsBeforeIsFloor(y: int)
    ensures YearsBefore(y) == FloorDays(y, 1, 1)
    decreases if y >= 1970 then y - 1970 else 1970 - y
  {
    if y > 1970 {
      YearsBeforeIsFloor(y - 1);
      YearStep(y - 1);
    } else if y < 1970 {
      YearsBeforeIsFloor(y + 1);
      YearStep(y);
    }
  }

  lemma {:induction false} MonthsBeforeIsFloor(y: int, m: int)
    requires 1 <= m <= 12
    ensures MonthsBefore(y, m) == FloorDays(y, m, 1) - FloorDays(y, 1, 1)
    decreases m
  {
    if m > 1 {
      MonthsBeforeIsFloor(y, m - 1);
      MonthStep(y, m - 1);
    }
  }

  lemma {:induction false} MonthStep(y: int, m: int)
    requires 1 <= m <= 11
    ensures FloorDays(y, m + 1, 1) - FloorDays(y, m, 1) == MonthLength(y, m)
  {
    if m == 2 {
      LeapDay(y);
    } else {
      MonthTable(m);
    }
  }

  lemma {:induction false} MonthTable(m: int)
    requires 1 <= m <= 11 && m != 2
    ensures (153 * (if m == 1 then 11 else m - 2) + 2) / 5 - (153 * (if m == 1 then 10 else m - 3) + 2) / 5 ==
            if m == 4 || m == 6 || m == 9 || m == 11 then 30 else 31
  {
  }

  lemma {:induction false} QuotientSteps(y: int, k: int)
    requires k == 4 || k == 100 || k == 400
    ensures y / k - (y - 1) / k == if y % k == 0 then 1 else 0
  {
  }

  lemma {:induction false} Multiples(y: int)
    ensures (y % 400 == 0 ==> y % 100 == 0) && (y % 100 == 0 ==> y % 4 == 0)
  {
  }

  lemma {:induction false} LeapDay(y: int)
    ensures y / 4 - (y - 1) / 4 - (y / 100 - (y - 1) / 100) + (y / 400 - (y - 1) / 400)
            == if IsLeap(y) then 1 else 0
  {
    QuotientSteps(y, 4);
    QuotientSteps(y, 100);
    QuotientSteps(y, 400);
    Multiples(y);
  }

  lemma {:induction false} CountIsFloor(y: int, m: int, d: int)
    requires 1 <= m <= 12
    ensures CountDays(y, m, d) == FloorDays(y, m, d)
  {
    YearsBeforeIsFloor(y);
    MonthsBeforeIsFloor(y, m);
  }

  lemma {:induction false} Quotient4(e: int, r: int)
    ensures (-400 * e - r) / 4 == -100 * e - (r + 3) / 4
    ensures (-400 * e - r) % 4 == 0 <==> r % 4 == 0
  {
  }

  lemma {:induction false} Quotient100(e: int, r: int)
    ensures (-400 * e - r) / 100 == -4 * e - (r + 99) / 100
    ensures (-400 * e - r) % 100 == 0 <==> r % 100 == 0
  {
  }

  lemma {:induction false} Quotient400(e: int, r: int)
    requires 0 <= r < 400
    ensures (-400 * e - r) / 400 == -e - (if r == 0 then 0 else 1)
    ensures (-400 * e - r) % 400 == 0 <==> r == 0
  {
  }

  lemma {:induction false} RoundingGap(r: int)
    requires 0 <= r < 400
    ensures (r + 3) / 4 - r / 4 == if r % 4 == 0 then 0 else 1
    ensures (r + 99) / 100 - r / 100 == if r % 100 == 0 then 0 else 1
  {
  }

  function ByTruncation(s: int): (days: int) {
    var era := TruncDiv(s, 400);
    var yoe := s - era * 400;
    era * 146097 + yoe * 365 + TruncDiv(yoe, 4) - TruncDiv(yoe, 100)
  }

  /** Truncation against flooring, on the shifted year alone. */
  lemma {:induction false} TruncationError(s: int)
    ensures ByTruncation(s) ==
            365 * s + s / 4 - s / 100 + s / 400 + if s >= 0 || IsLeap(s) then 0 else 1
  {
    if s >= 0 {
      PositiveQuotients(s / 400, s % 400);
    } else {
      BelowZero(s, (-s) / 400, (-s) % 400);
    }
  }

  lemma {:induction false} BelowZero(s: int, e: int, r: int)
    requires s < 0 && 0 <= e && 0 <= r < 400 && s == -400 * e - r
    ensures ByTruncation(s) == 365 * s + s / 4 - s / 100 + s / 400 + if IsLeap(s) then 0 else 1
  {
    Quotient4(e, r);
    Quotient100(e, r);
    Quotient400(e, r);
    RoundingGap(r);
    EraBelowZero(s, e, r);
    Multiples(r);
  }

  lemma {:induction false} EraBelowZero(s: int, e: int, r: int)
    requires s < 0 && 0 <= e && 0 <= r < 400 && s == -400 * e - r
    ensures ByTruncation(s) == -146097 * e - 365 * r - r / 4 + r / 100
  {
    assert (400 * e + r) / 400 == e;
    assert TruncDiv(s, 400) == -e && TruncDiv(-r, 4) == -(r / 4) && TruncDiv(-r, 100) == -(r / 100);
  }

  lemma {:induction false} PositiveQuotients(e: int, r: int)
    requires 0 <= r < 400
    ensures var s := 400 * e + r; s / 4 == 100 * e + r / 4 && s / 100 == 4 * e + r / 100 && s / 400 == e
  {
  }

  function Surplus(y: int, m: int): (n: int) {
    if ShiftedYear(y, m) >= 0 || IsLeap(ShiftedYear(y, m)) then 0 else 1
  }

  /**
   For every year, month and day the function counts days correctly, except that below
   shifted year zero it is one too large unless the shifted year is itself a leap year number.
   */
  lemma {:induction false} DaysFromEpochIsCount(y: int, m: int, d: int)
    requires 1 <= m <= 12
    ensures DaysFromEpoch(y, m, d) == CountDays(y, m, d) + Surplus(y, m)
    ensures DaysFromEpoch(y, m, d) == CountDays(y, m, d) <==>
            ShiftedYear(y, m) >= 0 || IsLeap(ShiftedYear(y, m))
  {
    CountIsFloor(y, m, d);
    TruncationError(ShiftedYear(y, m));
  }

  /** Where the off-by-one ends, two neighbouring days share a number. */
  lemma {:induction false} NotInjectiveBeforeYearZero()
    ensures NextDay(Date(0, 2, 29)) == Date(0, 3, 1)
    ensures DaysFromEpoch(0, 2, 29) == DaysFromEpoch(0, 3, 1)
  {
  }

  lemma {:induction false} CountNextDay(a: Date)
    requires ValidDate(a)
    ensures var b := NextDay(a); CountDays(b.y, b.m, b.d) == CountDays(a.y, a.m, a.d) + 1
  {
    var b := NextDay(a);
    CountIsFloor(a.y, a.m, a.d);
    CountIsFloor(b.y, b.m, b.d);
    if a.d == MonthLength(a.y, a.m) {
      if a.m < 12 {
        MonthStep(a.y, a.m);
      } else {
        YearStep(a.y);
        Decembers(a.y);
      }
    }
  }

  /** Consecutive valid dates get consecutive numbers exactly when neither or both carry the surplus day. */
  lemma {:induction false} NextDayAddsOneIff(a: Date)
    requires ValidDate(a)
    ensures var b := NextDay(a);
            && (DaysFromEpoch(b.y, b.m, b.d) == DaysFromEpoch(a.y, a.m, a.d) + 1 <==>
                Surplus(a.y, a.m) == Surplus(b.y, b.m))
            && (ShiftedYear(a.y, a.m) >= 0 ==> Surplus(a.y, a.m) == Surplus(b.y, b.m))
  {
    var b := NextDay(a);
    CountNextDay(a);
    DaysFromEpochIsCount(a.y, a.m, a.d);
    DaysFromEpochIsCount(b.y, b.m, b.d);
  }

  lemma {:induction false} YearsGrow(y: int, z: int)
    requires y <= z
    ensures YearsBefore(y) + 365 * (z - y) <= YearsBefore(z)
    decreases z - y
  {
    if y < z {
      YearsGrow(y, z - 1);
      YearsBeforeIsFloor(z - 1);
      YearsBeforeIsFloor(z);
      YearStep(z - 1);
    }
  }

  lemma {:induction false} MonthsGrow(y: int, m: int, n: int)
    requires 1 <= m < n <= 12
    ensures MonthsBefore(y, m) + MonthLength(y, m) <= MonthsBefore(y, n)
    decreases n
  {
    if m < n - 1 {
      MonthsGrow(y, m, n - 1);
    }
  }

  lemma {:induction false} Decembers(y: int)
    ensures FloorDays(y, 12, 1) - FloorDays(y, 1, 1) == YearLength(y) - 31
  {
    LeapDay(y);
  }

  lemma {:induction false} WithinYear(a: Date)
    requires ValidDate(a)
    ensures YearsBefore(a.y) <= CountDays(a.y, a.m, a.d) < YearsBefore(a.y + 1)
  {
    YearsBeforeIsFloor(a.y);
    YearsBeforeIsFloor(a.y + 1);
    YearStep(a.y);
    MonthsBeforeIsFloor(a.y, 12);
    Decembers(a.y);
    if a.m < 12 {
      MonthsGrow(a.y, a.m, 12);
    }
    if a.m > 1 {
      MonthsGrow(a.y, 1, a.m);
    }
  }

  lemma {:induction false} CountGrows(a: Date, b: Date)
    requires ValidDate(a) && ValidDate(b) && Earlier(a, b)
    ensures CountDays(a.y, a.m, a.d) < CountDays(b.y, b.m, b.d)
  {
    if a.y < b.y {
      WithinYear(a);
      WithinYear(b);
      YearsGrow(a.y + 1, b.y);
    } else if a.m < b.m {
      MonthsGrow(a.y, a.m, b.m);
    }
  }

  /**
   The day number never runs against the calendar, and from shifted year zero on it orders
   valid dates exactly as the calendar does.
   */
  lemma {:induction false} DaysOrderDates(a: Date, b: Date)
    requires ValidDate(a) && ValidDate(b)
    ensures Earlier(a, b) ==> DaysFromEpoch(a.y, a.m, a.d) <= DaysFromEpoch(b.y, b.m, b.d)
    ensures ShiftedYear(a.y, a.m) >= 0 && ShiftedYear(b.y, b.m) >= 0 ==>
              (DaysFromEpoch(a.y, a.m, a.d) < DaysFromEpoch(b.y, b.m, b.d) <==> Earlier(a, b))
  {
    DaysFromEpochIsCount(a.y, a.m, a.d);
    DaysFromEpochIsCount(b.y, b.m, b.d);
    if Earlier(a, b) {
      CountGrows(a, b);
    } else if a != b {
      CountGrows(b, a);
    }
  }

  /** Seconds are the counted days of the normalised month, for every integer month. */
  lemma {:induction false} TimegmIsCount(t: Tm)
    ensures var (year, month) := Normalise(t.year + 1900, t.mon);
            Timegm(t) == 86400 * (CountDays(year, month + 1, t.mday) + Surplus(year, month + 1))
                         + 3600 * t.hour + 60 * t.min + t.sec
  {
    var (year, month) := Normalise(t.year + 1900, t.mon);
    DaysFromEpochIsCount(year, month + 1, t.mday);
  }

  // ---------------------------------------------------------------- machine widths

  predicate FitsInt(x: int) {
    -0x8000_0000 <= x < 0x8000_0000
  }

  /** Every value the day number passes through, in the order the expressions build them. */
  function DayValues(y: int, m: int, d: int): (r: seq<int>) {
    var s := ShiftedYear(y, m);
    var era := TruncDiv(s, 400);
    var yoe := s - era * 400;
    var month := m + if m > 2 then -3 else 9;
    var doy := TruncDiv(153 * month + 2, 5) + d - 1;
    var leaps := yoe * 365 + TruncDiv(yoe, 4);
    var doe := leaps - TruncDiv(yoe, 100) + doy;
    [s, era, era * 400, yoe, month, 153 * month, 153 * month + 2, doy - d + 1, doy + 1, doy,
     yoe * 365, TruncDiv(yoe, 4), leaps, TruncDiv(yoe, 100), leaps - TruncDiv(yoe, 100), doe,
     era * 146097, era * 146097 + doe, DaysFromEpoch(y, m, d)]
  }

  /** Within five million years of zero none of them leaves a 32-bit int. */
  lemma {:induction false} DaysFitInt(y: int, m: int, d: int)
    requires -5_000_000 <= y <= 5_000_000 && 1 <= m <= 12 && -1_000_000 <= d <= 1_000_000
    ensures forall v :: v in DayValues(y, m, d) ==> FitsInt(v)
  {
    hide TruncDiv;
    EraBounds(ShiftedYear(y, m));
    MonthBounds(m);
  }

  lemma {:induction false} EraBounds(s: int)
    requires -5_000_001 <= s <= 5_000_000
    ensures var era := TruncDiv(s, 400); var yoe := s - era * 400;
            && -12501 <= era <= 12501 && -400 < yoe < 400
            && -100 <= TruncDiv(yoe, 4) <= 100 && -4 <= TruncDiv(yoe, 100) <= 4
  {
  }

  lemma {:induction false} MonthBounds(m: int)
    requires 1 <= m <= 12
    ensures 0 <= TruncDiv(153 * (m + (if m > 2 then -3 else 9)) + 2, 5) <= 400
  {
  }

  /** Every value the 24L expression passes through behind the day number. */
  predicate SecondsFit(days: int, hour: int, min: int, sec: int) {
    var h := 24 * days + hour;
    var m := 60 * h + min;
    && FitsInt(24 * days) && FitsInt(h) && FitsInt(60 * h) && FitsInt(m)
    && FitsInt(60 * m) && FitsInt(60 * m + sec)
  }

  predicate TimeOk(hour: int, min: int, sec: int) {
    0 <= hour < 24 && 0 <= min < 60 && 0 <= sec <= 60
  }

  /** The time of day a comes no later than b. */
  predicate NoLater(hour: int, min: int, sec: int, hour': int, min': int, sec': int) {
    hour < hour' || (hour == hour' && (min < min' || (min == min' && sec <= sec')))
  }

  const FIRST_DAY := -24856   // 13 December 1901
  const LAST_DAY := 24855     // 19 January 2038

  lemma {:induction false} DayAndTimeFitIff(days: int, hour: int, min: int, sec: int)
    requires TimeOk(hour, min, sec)
    ensures SecondsFit(days, hour, min, sec) <==>
            && (FIRST_DAY < days || (days == FIRST_DAY && NoLater(20, 46, 0, hour, min, sec)))
            && (days < LAST_DAY || (days == LAST_DAY && NoLater(hour, min, sec, 3, 14, 7)))
  {
    var minutes := 1440 * days + 60 * hour + min;
    assert 60 * (60 * (24 * days + hour) + min) == 60 * minutes;
  }

  function DateOf(t: Tm): (a: Date) {
    var (year, month) := Normalise(t.year + 1900, t.mon);
    Date(year, month + 1, t.mday)
  }

  /** t is on the date or after it, at that time of day or later. */
  predicate NotBefore(t: Tm, a: Date, hour: int, min: int, sec: int) {
    Earlier(a, DateOf(t)) || (a == DateOf(t) && NoLater(hour, min, sec, t.hour, t.min, t.sec))
  }

  predicate NotAfter(t: Tm, a: Date, hour: int, min: int, sec: int) {
    Earlier(DateOf(t), a) || (a == DateOf(t) && NoLater(t.hour, t.min, t.sec, hour, min, sec))
  }

  lemma {:induction false} EdgeDays()
    ensures DaysFromEpoch(1901, 12, 13) == FIRST_DAY && DaysFromEpoch(2038, 1, 19) == LAST_DAY
  {
  }

  /** The day number against an edge day, for every valid date, also before shifted year zero. */
  lemma {:induction false} EdgeOrder(a: Date, b: Date)
    requires ValidDate(a) && ValidDate(b) && ShiftedYear(b.y, b.m) >= 1900
    ensures DaysFromEpoch(a.y, a.m, a.d) < DaysFromEpoch(b.y, b.m, b.d) <==> Earlier(a, b)
    ensures DaysFromEpoch(a.y, a.m, a.d) == DaysFromEpoch(b.y, b.m, b.d) <==> a == b
  {
    hide DaysFromEpoch;
    DaysOrderDates(a, b);
    DaysOrderDates(b, a);
    if ShiftedYear(a.y, a.m) < 0 {
      var zero := Date(1000, 6, 1);
      DaysOrderDates(a, zero);
      DaysOrderDates(zero, b);
    }
  }

  /**
   For every valid date and time of day, leap second included, the seconds are computed without
   leaving a 32-bit long if and only if the moment lies between 13 December 1901, 20:46:00, and
   19 January 2038, 03:14:07.
   */
  lemma {:induction false} TimegmFitsIff(t: Tm)
    requires ValidDate(DateOf(t)) && TimeOk(t.hour, t.min, t.sec)
    ensures var a := DateOf(t);
            SecondsFit(DaysFromEpoch(a.y, a.m, a.d), t.hour, t.min, t.sec) <==>
            NotBefore(t, Date(1901, 12, 13), 20, 46, 0) && NotAfter(t, Date(2038, 1, 19), 3, 14, 7)
  {
    EdgeDays();
    hide DaysFromEpoch, SecondsFit, NoLater;
    var a := DateOf(t);
    EdgeOrder(a, Date(1901, 12, 13));
    EdgeOrder(a, Date(2038, 1, 19));
    DayAndTimeFitIff(DaysFromEpoch(a.y, a.m, a.d), t.hour, t.min, t.sec);
  }

  /** The seconds at the edges; in the minute before the first good one the result fits but a step does not. */
  lemma {:induction false} LongOverflowsIn2038()
    ensures Timegm(Tm(138, 0, 19, 3, 14, 7)) == 0x7FFF_FFFF
    ensures !FitsInt(Timegm(Tm(138, 0, 19, 3, 14, 8)))
    ensures FitsInt(Timegm(Tm(1, 11, 13, 20, 46, 0)))
    ensures FitsInt(Timegm(Tm(1, 11, 13, 20, 45, 59))) && !SecondsFit(DaysFromEpoch(1901, 12, 13), 20, 45, 59)
  {
    hide DaysFromEpoch;
    EdgeDays();
    assert Normalise(2038, 0) == (2038, 0) && Normalise(1901, 11) == (1901, 11);
  }
}
