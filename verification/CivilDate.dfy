/**
 Timestamps as ISO 8601 text: a count of milliseconds since 1970-01-01T00:00:00Z becomes a date of the
 proleptic Gregorian calendar and a time of day (field meaning per section 5.6 of RFC 3339).
 */
module CivilDate {
  import Decimal

  datatype Date = Date(year: int, month: int, day: int)

  predicate IsLeap(y: int) {
    y % 4 == 0 && (y % 100 != 0 || y % 400 == 0)
  }

  function DaysIn(y: int, month: int): int {
    if month == 2 then (if IsLeap(y) then 29 else 28)
    else if month == 4 || month == 6 || month == 9 || month == 11 then 30
    else 31
  }

  predicate ValidDate(d: Date) {
    1 <= d.month <= 12 && 1 <= d.day <= DaysIn(d.year, d.month)
  }

  /** The day after. */
  function Next(d: Date): Date {
    if d.day < DaysIn(d.year, d.month) then d.(day := d.day + 1)
    else if d.month < 12 then Date(d.year, d.month + 1, 1)
    else Date(d.year + 1, 1, 1)
  }

  predicate Earlier(a: Date, b: Date) {
    a.year < b.year || (a.year == b.year && (a.month < b.month || (a.month == b.month && a.day < b.day)))
  }

  // ----- The algorithm: years start in March, in eras of 400 years -----

  const DAYS_PER_ERA := 146_097

  function YearOfEra(doe: int): int { (doe - doe / 1460 + doe / 36_524 - doe / 146_096) / 365 }

  function YearStart(yoe: int): int { 365 * yoe + yoe / 4 - yoe / 100 }

  function MonthIndex(doy: int): int { (5 * doy + 2) / 153 }

  function MonthStart(mp: int): int { (153 * mp + 2) / 5 }

  /** The date `days` days after 1970-01-01, as `iso8601` computes it. */
  function Civil(days: int): Date { FromEra(Era(days), EraDay(days)) }

  /** Eras of 400 years, and the day within one; the first begins on 1 March of year 0. */
  function Era(days: int): int { (days + 719_468) / DAYS_PER_ERA }

  function EraDay(days: int): int { (days + 719_468) % DAYS_PER_ERA }

  function FromEra(era: int, doe: int): Date {
    var yoe := YearOfEra(doe);
    var doy := doe - YearStart(yoe);
    FromYear(yoe + era * 400, doy)
  }

  /** Day `doy` of the year that starts in March of `y`. */
  function FromYear(y: int, doy: int): Date {
    var mp := MonthIndex(doy);
    var d := doy - MonthStart(mp) + 1;
    var mo := if mp < 10 then mp + 3 else mp - 9;
    Date(if mo <= 2 then y + 1 else y, mo, d)
  }

  // ----- Within a year -----

  /** Length of the year that starts in March of `y`: its February is in `y + 1`. */
  function YearLength(y: int): int { if IsLeap(y + 1) then 366 else 365 }

  function MonthLength(mp: int): int {
    if mp == 11 then 29 else if mp == 1 || mp == 3 || mp == 6 || mp == 8 then 30 else 31
  }

  lemma MonthOfDay(doy: int)
    requires 0 <= doy < 366
    ensures 0 <= MonthIndex(doy) <= 11
    ensures MonthStart(MonthIndex(doy)) <= doy < MonthStart(MonthIndex(doy)) + MonthLength(MonthIndex(doy))
    ensures MonthIndex(doy) < 11
            ==> MonthStart(MonthIndex(doy) + 1) == MonthStart(MonthIndex(doy)) + MonthLength(MonthIndex(doy))
  {
    var mp := MonthIndex(doy);
    MonthBounds(doy, mp);
    hide MonthStart, MonthIndex;
    MonthTable(mp);
  }

  lemma MonthBounds(doy: int, mp: int)
    requires 0 <= doy < 366 && mp == MonthIndex(doy)
    ensures 0 <= mp <= 11 && MonthStart(mp) <= doy < MonthStart(mp + 1)
  {
  }

  lemma MonthTable(mp: int)
    requires 0 <= mp <= 11
    ensures mp < 11 ==> MonthStart(mp + 1) == MonthStart(mp) + MonthLength(mp)
    ensures mp == 11 ==> MonthStart(mp) == 337
  {
    var starts := [0, 31, 61, 92, 122, 153, 184, 214, 245, 275, 306, 337];
    assert MonthStart(mp) == starts[mp];
    assert mp < 11 ==> MonthStart(mp + 1) == starts[mp + 1];
  }

  lemma NextMonthOfDay(doy: int)
    requires 0 <= doy < 365
    ensures MonthIndex(doy + 1) == MonthIndex(doy) || MonthIndex(doy + 1) == MonthIndex(doy) + 1
  {
  }

  lemma FromYearValid(y: int, doy: int)
    requires 0 <= doy < YearLength(y)
    ensures ValidDate(FromYear(y, doy))
  {
    MonthOfDay(doy);
  }

  lemma FromYearNext(y: int, doy: int)
    requires 0 <= doy < YearLength(y) - 1
    ensures FromYear(y, doy + 1) == Next(FromYear(y, doy))
  {
    MonthOfDay(doy);
    MonthOfDay(doy + 1);
    NextMonthOfDay(doy);
  }

  lemma LastDayOfYear(y: int)
    ensures Next(FromYear(y, YearLength(y) - 1)) == FromYear(y + 1, 0)
  {
  }

  // ----- Within an era -----

  /** `a` four-year spans of 1460 days and `q` centuries fit before day `doe`; dropping their leap days
      leaves `y` years of 365 days and `s` days. */
  ghost predicate Split(doe: int, q: int, a: int, y: int, s: int) {
    && 0 <= q <= 3 && 36_524 * q <= doe < 36_524 * q + 36_524
    && 1460 * a <= doe < 1460 * a + 1460
    && doe - a + q == 365 * y + s && 0 <= s < 365
  }

  lemma SplitExists(doe: int)
    requires 0 <= doe < 146_096
    ensures Split(doe, doe / 36_524, doe / 1460, YearOfEra(doe), (doe - doe / 1460 + doe / 36_524) % 365)
  {
    assert doe / 146_096 == 0;
  }

  lemma YearOfCentury(doe: int, q: int, a: int, y: int, s: int)
    requires Split(doe, q, a, y, s)
    ensures 25 * q <= a <= 25 * q + 25 && 100 * q <= y < 100 * q + 100
  {
    if a == 25 * q {
      assert doe - a + q >= 36_500 * q;
    } else if a == 25 * q + 25 {
      assert doe - a + q < 36_500 * q + 36_500;
    } else {
      assert 36_500 * q <= doe - a + q < 36_500 * q + 36_500;
    }
  }

  lemma YearOfEraLower(doe: int, q: int, a: int, y: int, s: int, fours: int)
    requires Split(doe, q, a, y, s) && 4 * fours <= y
    ensures 365 * y + fours - q <= doe
  {
    YearOfCentury(doe, q, a, y, s);
    assert fours > a ==> 365 * y >= 1460 * (a + 1);
  }

  lemma YearOfEraUpper(doe: int, q: int, a: int, y: int, s: int, fours: int)
    requires Split(doe, q, a, y, s) && y + 1 < 4 * fours + 4
    ensures y + 1 < 100 * q + 100 ==> doe < 365 * (y + 1) + fours - q
    ensures y + 1 == 100 * q + 100 ==> doe < 365 * (y + 1) + 25 * (q + 1) - (q + 1)
  {
    YearOfCentury(doe, q, a, y, s);
    assert fours < a ==> 365 * (y + 1) <= 365 * (4 * a - 1);
  }

  /** First day of the era after year `yoe`; the last year of an era ends with an extra leap day. */
  function YearEnd(yoe: int): int {
    if yoe == 399 then DAYS_PER_ERA else YearStart(yoe + 1)
  }

  lemma YearOfEraCorrect(doe: int)
    requires 0 <= doe < DAYS_PER_ERA
    ensures 0 <= YearOfEra(doe) <= 399
    ensures YearStart(YearOfEra(doe)) <= doe < YearEnd(YearOfEra(doe))
  {
    if doe < 146_096 {
      var q, a, y := doe / 36_524, doe / 1460, YearOfEra(doe);
      var days := (doe - a + q) % 365;
      SplitExists(doe);
      YearOfCentury(doe, q, a, y, days);
      YearOfEraLower(doe, q, a, y, days, y / 4);
      YearOfEraUpper(doe, q, a, y, days, (y + 1) / 4);
      hide YearOfEra, Split;
      CenturyOf(y, q);
    } else {
      LastDayOfEra();
    }
  }

  lemma CenturyOf(y: int, q: int)
    requires 100 * q <= y < 100 * q + 100
    ensures y / 100 == q && (y + 1) / 100 == (if y + 1 == 100 * q + 100 then q + 1 else q)
    ensures y + 1 == 100 * q + 100 ==> (y + 1) / 4 == 25 * (q + 1)
  {
  }

  lemma LastDayOfEra()
    ensures YearOfEra(146_096) == 399 && YearStart(399) <= 146_096
  {
  }

  lemma YearLengths(yoe: int, era: int)
    requires 0 <= yoe <= 399
    ensures YearEnd(yoe) - YearStart(yoe) == YearLength(yoe + era * 400)
  {
    hide YearStart, YearEnd, IsLeap;
    YearStep(yoe);
    LeapShift(yoe + 1, era);
  }

  lemma LeapShift(y: int, era: int)
    ensures IsLeap(y + era * 400) == IsLeap(y)
  {
    var c := era * 400;
    assert c == 4 * (era * 100) && c == 100 * (era * 4) && c == 400 * era;
    assert (y + c) / 4 == y / 4 + era * 100;
    assert (y + c) / 100 == y / 100 + era * 4;
    assert (y + c) / 400 == y / 400 + era;
  }

  lemma FoursStep(y: int)
    ensures (y + 1) / 4 == y / 4 + (if (y + 1) % 4 == 0 then 1 else 0)
  {
  }

  lemma HundredsStep(y: int)
    ensures (y + 1) / 100 == y / 100 + (if (y + 1) % 100 == 0 then 1 else 0)
    ensures (y + 1) % 100 == 0 ==> (y + 1) % 4 == 0
  {
    var q := (y + 1) / 100;
    assert (y + 1) % 100 == 0 ==> y + 1 == 4 * (25 * q);
  }

  lemma YearStep(yoe: int)
    requires 0 <= yoe <= 399
    ensures YearEnd(yoe) - YearStart(yoe) == (if IsLeap(yoe + 1) then 366 else 365)
  {
    FoursStep(yoe);
    HundredsStep(yoe);
  }

  lemma {:induction false} YearStartGrows(y: int, y2: int)
    requires y <= y2
    ensures YearStart(y) + 365 * (y2 - y) <= YearStart(y2)
    decreases y2 - y
  {
    hide YearStart;
    if y < y2 {
      YearStartGrows(y, y2 - 1);
      YearStartStep(y2 - 1);
    }
  }

  lemma YearStartStep(y: int)
    ensures YearStart(y + 1) >= YearStart(y) + 365
  {
    FoursStep(y);
    HundredsStep(y);
  }

  /** The next day is in the same year or starts the next one. */
  lemma NextYearOfEra(doe: int)
    requires 0 <= doe < DAYS_PER_ERA - 1
    ensures YearOfEra(doe + 1) == if doe + 1 < YearEnd(YearOfEra(doe)) then YearOfEra(doe) else YearOfEra(doe) + 1
  {
    var y, y2 := YearOfEra(doe), YearOfEra(doe + 1);
    YearOfEraCorrect(doe);
    YearOfEraCorrect(doe + 1);
    if y2 < y {
      YearStartGrows(y2 + 1, y);
    } else if y2 > y {
      YearStartGrows(y + 1, y2);
      if y2 > y + 1 {
        YearStartGrows(y + 1, y + 2);
        YearStartGrows(y + 2, y2);
      }
    }
  }

  lemma FromEraValid(era: int, doe: int)
    requires 0 <= doe < DAYS_PER_ERA
    ensures ValidDate(FromEra(era, doe))
  {
    YearOfEraCorrect(doe);
    YearLengths(YearOfEra(doe), era);
    FromYearValid(YearOfEra(doe) + era * 400, doe - YearStart(YearOfEra(doe)));
  }

  /** Inside an era, the next day is in the same year or starts the next one. */
  lemma NextInEra(days: int)
    requires EraDay(days) < DAYS_PER_ERA - 1
    ensures Civil(days + 1) == Next(Civil(days))
  {
    var era, doe := Era(days), EraDay(days);
    EraOfNextDay(days);
    hide YearOfEra, YearStart, YearEnd, YearLength, FromYear, Next, Era, EraDay;
    var yoe := YearOfEra(doe);
    var doy, y := doe - YearStart(yoe), yoe + era * 400;
    YearOfEraCorrect(doe);
    NextYearOfEra(doe);
    YearLengths(yoe, era);
    if doe + 1 < YearEnd(yoe) {
      FromYearNext(y, doy);
    } else {
      LastDayOfYear(y);
      YearBoundary(yoe, doe);
    }
  }

  /** A year that does not end the era ends where the next one starts. */
  lemma YearBoundary(yoe: int, doe: int)
    requires 0 <= yoe <= 399 && doe + 1 == YearEnd(yoe) && doe < DAYS_PER_ERA - 1
    ensures yoe < 399 && YearEnd(yoe) == YearStart(yoe + 1)
  {
  }

  /** The last day of an era is followed by the first of the next one. */
  lemma NextEra(days: int)
    requires EraDay(days) == DAYS_PER_ERA - 1
    ensures Civil(days + 1) == Next(Civil(days))
  {
    var era := Era(days);
    EraOfNextDay(days);
    EraEdges(era);
    EraEdges(era + 1);
    hide FromEra, FromYear, Next, YearLength, Era, EraDay, YearStart, YearEnd;
    YearLengths(399, era);
    LastDayOfYear(399 + era * 400);
    LastYearOfEra();
    assert 399 + era * 400 + 1 == (era + 1) * 400;
  }

  lemma EraEdges(era: int)
    ensures FromEra(era, DAYS_PER_ERA - 1) == FromYear(399 + era * 400, 365)
    ensures FromEra(era, 0) == FromYear(era * 400, 0)
  {
    hide YearOfEra, YearStart, FromYear;
    EdgeYears();
  }

  lemma EdgeYears()
    ensures YearOfEra(DAYS_PER_ERA - 1) == 399 && YearStart(399) == 145_731
    ensures YearOfEra(0) == 0 && YearStart(0) == 0
  {
  }

  lemma LastYearOfEra()
    ensures YearEnd(399) - YearStart(399) == 366
  {
  }

  // ----- Main results on dates -----

  /** Day zero is 1970-01-01, every day is a valid date, and each date is followed by the next. */
  lemma CivilCorrect(days: int)
    ensures Civil(0) == Date(1970, 1, 1)
    ensures ValidDate(Civil(days))
    ensures Civil(days + 1) == Next(Civil(days))
  {
    Epoch();
    hide FromEra, Next, ValidDate, Civil;
    FromEraValid(Era(days), EraDay(days));
    CivilIsFromEra(days);
    if EraDay(days) < DAYS_PER_ERA - 1 {
      NextInEra(days);
    } else {
      NextEra(days);
    }
  }

  lemma CivilIsFromEra(days: int)
    ensures Civil(days) == FromEra(Era(days), EraDay(days))
  {
  }

  lemma Epoch()
    ensures Civil(0) == Date(1970, 1, 1)
  {
  }

  lemma EraOfNextDay(days: int)
    ensures 0 <= EraDay(days) < DAYS_PER_ERA
    ensures EraDay(days) < DAYS_PER_ERA - 1 ==> Era(days + 1) == Era(days) && EraDay(days + 1) == EraDay(days) + 1
    ensures EraDay(days) == DAYS_PER_ERA - 1 ==> Era(days + 1) == Era(days) + 1 && EraDay(days + 1) == 0
  {
  }

  /** The date `n` days after `d`. */
  function After(d: Date, n: nat): Date {
    if n == 0 then d else Next(After(d, n - 1))
  }

  /** The date of day `days + n` is reached from that of day `days` in `n` steps of the calendar. */
  lemma {:induction false} CivilCounts(days: int, n: nat)
    ensures Civil(days + n) == After(Civil(days), n)
  {
    hide Civil, Next;
    if n > 0 {
      CivilCounts(days, n - 1);
      CivilCorrect(days + n - 1);
    }
  }

  lemma {:induction false} CivilOrdered(a: int, b: int)
    requires a < b
    ensures Earlier(Civil(a), Civil(b))
    decreases b - a
  {
    hide Civil;
    CivilCorrect(b - 1);
    if a < b - 1 {
      CivilOrdered(a, b - 1);
    }
  }

  // ----- Timestamps -----

  datatype Stamp = Stamp(date: Date, hour: int, minute: int, second: int, millis: int)

  function StampOf(ms: int): Stamp {
    var secs := ms / 1000;
    var rem := secs % 86_400;
    Stamp(Civil(secs / 86_400), rem / 3600, rem % 3600 / 60, rem % 60, ms % 1000)
  }

  /** Milliseconds since midnight. */
  function TimeOfDay(s: Stamp): int { ((s.hour * 60 + s.minute) * 60 + s.second) * 1000 + s.millis }

  predicate ValidStamp(s: Stamp) {
    ValidDate(s.date) && 0 <= s.hour < 24 && 0 <= s.minute < 60 && 0 <= s.second < 60 && 0 <= s.millis < 1000
  }

  predicate Sooner(a: Stamp, b: Stamp) {
    Earlier(a.date, b.date) || (a.date == b.date && TimeOfDay(a) < TimeOfDay(b))
  }

  const DAY_MS := 86_400_000

  /** The fields are in range, the date is that of day `floor(ms / 86400000)`, and the time of day is
      what remains. */
  lemma StampExact(ms: int)
    ensures ValidStamp(StampOf(ms))
    ensures StampOf(ms).date == Civil(ms / DAY_MS)
    ensures TimeOfDay(StampOf(ms)) == ms % DAY_MS
  {
    hide Civil, ValidDate;
    CivilCorrect(ms / 1000 / 86_400);
    var secs := ms / 1000;
    assert secs / 86_400 == ms / DAY_MS;
    var rem := secs % 86_400;
    assert rem == rem / 3600 * 3600 + rem % 3600 && rem % 3600 == rem % 3600 / 60 * 60 + rem % 60;
  }

  /** Timestamps are ordered as their fields. */
  lemma StampOrdered(a: int, b: int)
    ensures a < b <==> Sooner(StampOf(a), StampOf(b))
    ensures StampOf(a) == StampOf(b) <==> a == b
  {
    hide Civil, StampOf, ValidStamp, Earlier, TimeOfDay;
    StampExact(a);
    StampExact(b);
    DayOrder(a, b);
    DayOrder(b, a);
    EarlierIsStrict(StampOf(a).date, StampOf(b).date);
  }

  lemma EarlierIsStrict(a: Date, b: Date)
    ensures Earlier(a, b) ==> !Earlier(b, a) && a != b
  {
  }

  lemma DayOrder(a: int, b: int)
    ensures a / DAY_MS < b / DAY_MS ==> Earlier(Civil(a / DAY_MS), Civil(b / DAY_MS))
  {
    if a / DAY_MS < b / DAY_MS {
      CivilOrdered(a / DAY_MS, b / DAY_MS);
    }
  }

  // ----- The text -----

  function Zeros(n: nat): string {
    if n == 0 then "" else "0" + Zeros(n - 1)
  }

  /** `{n:0w}` for a number that is not negative. */
  function Pad(n: nat, w: nat): string {
    var digits := Decimal.OfNat(n);
    if |digits| < w then Zeros(w - |digits|) + digits else digits
  }

  /** `{y:04}`: the sign counts towards the width. */
  function PadYear(y: int): string {
    if y < 0 then "-" + Pad(-y, 3) else Pad(y, 4)
  }

  function TimeText(s: Stamp): string
    requires ValidStamp(s)
  {
    "-" + Pad(s.date.month, 2) + "-" + Pad(s.date.day, 2) + "T" + Pad(s.hour, 2) + ":" + Pad(s.minute, 2)
    + ":" + Pad(s.second, 2) + "." + Pad(s.millis, 3) + "Z"
  }

  function Iso8601(ms: int): string {
    StampExact(ms);
    PadYear(StampOf(ms).date.year) + TimeText(StampOf(ms))
  }

  lemma {:induction false} ZerosDigits(n: nat)
    ensures |Zeros(n)| == n && forall i :: 0 <= i < n ==> Zeros(n)[i] == '0'
  {
    if n > 0 {
      ZerosDigits(n - 1);
    }
  }

  lemma {:induction false} ValueOfZeros(z: string, s: string)
    requires Decimal.AllDigits(s) && forall i :: 0 <= i < |z| ==> z[i] == '0'
    ensures Decimal.AllDigits(z + s) && Decimal.Value(z + s) == Decimal.Value(s)
    decreases |z| + |s|
  {
    var t := z + s;
    forall i | 0 <= i < |t| ensures Decimal.IsDigit(t[i]) {
      assert t[i] == if i < |z| then z[i] else s[i - |z|];
    }
    if s != [] {
      assert t[..|t| - 1] == z + s[..|s| - 1];
      ValueOfZeros(z, s[..|s| - 1]);
    } else if z != [] {
      assert t[..|t| - 1] == z[..|z| - 1] + [];
      ValueOfZeros(z[..|z| - 1], []);
    }
  }

  lemma PadDigits(n: nat, w: nat)
    ensures Decimal.AllDigits(Pad(n, w)) && Decimal.Value(Pad(n, w)) == n && Pad(n, w) != []
  {
    hide Decimal.OfNat, Decimal.Value, Zeros;
    var digits := Decimal.OfNat(n);
    Decimal.ValueOfNat(n);
    if |digits| < w {
      ZerosDigits(w - |digits|);
      ValueOfZeros(Zeros(w - |digits|), digits);
    }
  }

  lemma PadInjective(a: nat, b: nat, w: nat)
    ensures Pad(a, w) == Pad(b, w) ==> a == b
  {
    PadDigits(a, w);
    PadDigits(b, w);
  }

  lemma PadWidth(n: nat)
    ensures n < 100 ==> |Pad(n, 2)| == 2
    ensures n < 1000 ==> |Pad(n, 3)| == 3
  {
    if n < 1000 {
      assert n >= 10 ==> |Decimal.OfNat(n / 10)| == if n / 10 < 10 then 1 else 2;
      var digits := Decimal.OfNat(n);
      if |digits| < 2 {
        ZerosDigits(2 - |digits|);
      }
      if |digits| < 3 {
        ZerosDigits(3 - |digits|);
      }
    }
  }

  lemma PadYearSign(y: int)
    ensures PadYear(y) != [] && (y < 0 <==> PadYear(y)[0] == '-')
  {
    PadDigits(if y < 0 then -y else y, if y < 0 then 3 else 4);
  }

  lemma PadYearInjective(y: int, z: int)
    ensures PadYear(y) == PadYear(z) ==> y == z
  {
    PadDigits(if y < 0 then -y else y, if y < 0 then 3 else 4);
    PadDigits(if z < 0 then -z else z, if z < 0 then 3 else 4);
    PadYearSign(y);
    PadYearSign(z);
    if PadYear(y) == PadYear(z) {
      if y < 0 && z < 0 {
        assert PadYear(y)[1..] == Pad(-y, 3) && PadYear(z)[1..] == Pad(-z, 3);
      }
    }
  }

  lemma TimeTextInjective(a: Stamp, b: Stamp)
    requires ValidStamp(a) && ValidStamp(b)
    ensures |TimeText(a)| == 20
    ensures TimeText(a) == TimeText(b) ==> a.(date := a.date.(year := 0)) == b.(date := b.date.(year := 0))
  {
    TimeTextParts(a);
    TimeTextParts(b);
    PadInjective(a.date.month, b.date.month, 2);
    PadInjective(a.date.day, b.date.day, 2);
    PadInjective(a.hour, b.hour, 2);
    PadInjective(a.minute, b.minute, 2);
    PadInjective(a.second, b.second, 2);
    PadInjective(a.millis, b.millis, 3);
  }

  lemma TimeTextParts(s: Stamp)
    requires ValidStamp(s)
    ensures var t := TimeText(s);
            && |t| == 20
            && t[1..3] == Pad(s.date.month, 2) && t[4..6] == Pad(s.date.day, 2)
            && t[7..9] == Pad(s.hour, 2) && t[10..12] == Pad(s.minute, 2) && t[13..15] == Pad(s.second, 2)
            && t[16..19] == Pad(s.millis, 3)
  {
    hide Pad;
    PadWidth(s.date.month);
    PadWidth(s.date.day);
    PadWidth(s.hour);
    PadWidth(s.minute);
    PadWidth(s.second);
    PadWidth(s.millis);
  }

  /** No two timestamps share their text. */
  lemma Iso8601Injective(a: int, b: int)
    ensures Iso8601(a) == Iso8601(b) <==> a == b
  {
    if Iso8601(a) == Iso8601(b) {
      StampExact(a);
      StampExact(b);
      var s, t := StampOf(a), StampOf(b);
      TimeTextInjective(s, t);
      TimeTextInjective(t, s);
      var n := |Iso8601(a)| - 20;
      assert Iso8601(a)[..n] == PadYear(s.date.year) && Iso8601(a)[n..] == TimeText(s);
      assert Iso8601(b)[..n] == PadYear(t.date.year) && Iso8601(b)[n..] == TimeText(t);
      PadYearInjective(s.date.year, t.date.year);
      StampOrdered(a, b);
    }
  }
}
