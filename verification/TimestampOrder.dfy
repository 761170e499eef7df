/**
 When the text of a timestamp sorts as its time: from the year -1 to the year 9999, and in no longer span
 of years at either end.
 */
module TimestampOrder {
  import opened CivilDate
  import opened Texts
  import Decimal

  // ----- Order of texts of one length -----

  lemma {:induction false} BelowJoined(p: string, q: string, s: string, t: string)
    requires |p| == |q|
    ensures Below(p + s, q + t) <==> Below(p, q) || (p == q && Below(s, t))
  {
    if p == "" {
      assert p + s == s && q + t == t;
    } else {
      assert (p + s)[1..] == p[1..] + s && (q + t)[1..] == q[1..] + t;
      assert p == [p[0]] + p[1..] && q == [q[0]] + q[1..];
      BelowJoined(p[1..], q[1..], s, t);
    }
  }

  /** Digits of one length sort as the numbers they stand for. */
  lemma {:induction false} DigitsOrdered(s: string, t: string)
    requires Decimal.AllDigits(s) && Decimal.AllDigits(t) && |s| == |t|
    ensures Below(s, t) ==> Decimal.Value(s) < Decimal.Value(t)
    ensures s == t <==> Decimal.Value(s) == Decimal.Value(t)
    decreases |s|
  {
    if s != "" {
      var n := |s| - 1;
      Decimal.ValueSplit(s);
      Decimal.ValueSplit(t);
      assert s == s[..n] + [s[n]] && t == t[..n] + [t[n]];
      BelowJoined(s[..n], t[..n], [s[n]], [t[n]]);
      DigitsOrdered(s[..n], t[..n]);
    }
  }

  lemma PadOrdered(a: nat, b: nat, w: nat)
    requires |Pad(a, w)| == |Pad(b, w)|
    ensures Below(Pad(a, w), Pad(b, w)) <==> a < b
    ensures Pad(a, w) == Pad(b, w) <==> a == b
  {
    hide Pad;
    PadDigits(a, w);
    PadDigits(b, w);
    DigitsOrdered(Pad(a, w), Pad(b, w));
    DigitsOrdered(Pad(b, w), Pad(a, w));
    BelowIsTotal(Pad(a, w), Pad(b, w));
  }

  /** Two texts so far, and one more number on each. */
  lemma FieldOrdered(p: string, q: string, sep: string, a: nat, b: nat, w: nat)
    requires |p| == |q| && |Pad(a, w)| == |Pad(b, w)|
    ensures |p + sep + Pad(a, w)| == |q + sep + Pad(b, w)|
    ensures Below(p + sep + Pad(a, w), q + sep + Pad(b, w)) <==> Below(p, q) || (p == q && a < b)
    ensures p + sep + Pad(a, w) == q + sep + Pad(b, w) <==> p == q && a == b
  {
    hide Pad;
    PadOrdered(a, b, w);
    BelowJoined(p + sep, q + sep, Pad(a, w), Pad(b, w));
    BelowJoined(p, q, sep, sep);
    BelowIrreflexive(sep);
    assert (p + sep)[..|p|] == p && (q + sep)[..|q|] == q;
    assert (p + sep + Pad(a, w))[..|p + sep|] == p + sep && (q + sep + Pad(b, w))[..|p + sep|] == q + sep;
    assert (p + sep + Pad(a, w))[|p + sep|..] == Pad(a, w) && (q + sep + Pad(b, w))[|p + sep|..] == Pad(b, w);
  }

  // ----- The part after the year -----

  function DateText(s: Stamp): string
    requires ValidStamp(s)
  {
    "" + "-" + Pad(s.date.month, 2) + "-" + Pad(s.date.day, 2)
  }

  function ClockText(s: Stamp): string
    requires ValidStamp(s)
  {
    "" + "T" + Pad(s.hour, 2) + ":" + Pad(s.minute, 2) + ":" + Pad(s.second, 2) + "." + Pad(s.millis, 3)
  }

  lemma TimeTextSplits(s: Stamp)
    requires ValidStamp(s)
    ensures TimeText(s) == DateText(s) + (ClockText(s) + "Z")
  {
    hide Pad;
  }

  lemma DateTextOrdered(a: Stamp, b: Stamp)
    requires ValidStamp(a) && ValidStamp(b)
    ensures |DateText(a)| == |DateText(b)|
    ensures Below(DateText(a), DateText(b))
            <==> a.date.month < b.date.month || (a.date.month == b.date.month && a.date.day < b.date.day)
    ensures DateText(a) == DateText(b) <==> a.date.month == b.date.month && a.date.day == b.date.day
  {
    hide Pad, Below;
    PadWidth(a.date.month);
    PadWidth(b.date.month);
    PadWidth(a.date.day);
    PadWidth(b.date.day);
    BelowIrreflexive("");
    FieldOrdered("", "", "-", a.date.month, b.date.month, 2);
    FieldOrdered("" + "-" + Pad(a.date.month, 2), "" + "-" + Pad(b.date.month, 2), "-", a.date.day, b.date.day, 2);
  }

  lemma ClockTextOrdered(a: Stamp, b: Stamp)
    requires ValidStamp(a) && ValidStamp(b)
    ensures |ClockText(a)| == |ClockText(b)|
    ensures Below(ClockText(a), ClockText(b)) <==> TimeOfDay(a) < TimeOfDay(b)
  {
    hide Pad, Below, ValidDate;
    PadWidth(a.hour);
    PadWidth(b.hour);
    PadWidth(a.minute);
    PadWidth(b.minute);
    PadWidth(a.second);
    PadWidth(b.second);
    PadWidth(a.millis);
    PadWidth(b.millis);
    BelowIrreflexive("");
    var p, q := "" + "T" + Pad(a.hour, 2), "" + "T" + Pad(b.hour, 2);
    FieldOrdered("", "", "T", a.hour, b.hour, 2);
    FieldOrdered(p, q, ":", a.minute, b.minute, 2);
    p, q := p + ":" + Pad(a.minute, 2), q + ":" + Pad(b.minute, 2);
    FieldOrdered(p, q, ":", a.second, b.second, 2);
    p, q := p + ":" + Pad(a.second, 2), q + ":" + Pad(b.second, 2);
    FieldOrdered(p, q, ".", a.millis, b.millis, 3);
  }

  lemma TimeTextOrdered(a: Stamp, b: Stamp)
    requires ValidStamp(a) && ValidStamp(b)
    ensures Below(TimeText(a), TimeText(b)) <==> Sooner(a.(date := a.date.(year := 0)), b.(date := b.date.(year := 0)))
  {
    hide Below, DateText, ClockText, ValidStamp, TimeText;
    TimeTextSplits(a);
    TimeTextSplits(b);
    DateTextOrdered(a, b);
    ClockTextOrdered(a, b);
    BelowJoined(DateText(a), DateText(b), ClockText(a) + "Z", ClockText(b) + "Z");
    BelowJoined(ClockText(a), ClockText(b), "Z", "Z");
    BelowIrreflexive("Z");
  }

  // ----- The year -----

  lemma PadYearWidth(y: int)
    requires -1 <= y <= 9999
    ensures |PadYear(y)| == 4
  {
    if y == -1 {
      assert Pad(1, 3) == "001";
    } else {
      assert Decimal.Pow10(4) == 10_000;
      Decimal.OfNatShort(y, 4);
      ZerosDigits(if |Decimal.OfNat(y)| < 4 then 4 - |Decimal.OfNat(y)| else 0);
    }
  }

  lemma PadYearOrdered(y: int, z: int)
    requires -1 <= y <= 9999 && -1 <= z <= 9999
    ensures |PadYear(y)| == |PadYear(z)|
    ensures Below(PadYear(y), PadYear(z)) <==> y < z
  {
    hide Pad;
    PadYearWidth(y);
    PadYearWidth(z);
    if y >= 0 && z >= 0 {
      PadOrdered(y, z, 4);
    } else {
      BelowIrreflexive(PadYear(y));
      PadDigits(if y < 0 then -y else y, if y < 0 then 3 else 4);
      PadDigits(if z < 0 then -z else z, if z < 0 then 3 else 4);
    }
  }

  // ----- Main result -----

  /** The milliseconds of the years -1 to 9999. */
  const FIRST_MS := -62_198_755_200_000
  const LAST_MS := 253_402_300_799_999

  lemma FirstDays()
    ensures Civil(-719_893) == Date(-1, 1, 1) && Civil(-719_894) == Date(-2, 12, 31)
  {
    assert Era(-719_893) == -1 && EraDay(-719_893) == 145_672 && Era(-719_894) == -1 && EraDay(-719_894) == 145_671;
    assert YearOfEra(145_672) == 398 && YearOfEra(145_671) == 398 && YearStart(398) == 145_366;
    hide YearOfEra, YearStart, Era, EraDay;
    assert FromYear(-2, 306) == Date(-1, 1, 1) && FromYear(-2, 305) == Date(-2, 12, 31);
  }

  lemma LastDays()
    ensures Civil(2_932_896) == Date(9999, 12, 31) && Civil(2_932_897) == Date(10_000, 1, 1)
  {
    assert Era(2_932_896) == 24 && EraDay(2_932_896) == 146_036 && Era(2_932_897) == 24 && EraDay(2_932_897) == 146_037;
    assert YearOfEra(146_036) == 399 && YearOfEra(146_037) == 399 && YearStart(399) == 145_731;
    hide YearOfEra, YearStart, Era, EraDay;
    assert FromYear(9999, 305) == Date(9999, 12, 31) && FromYear(9999, 306) == Date(10_000, 1, 1);
  }

  lemma SpanOfYears(ms: int)
    ensures -1 <= StampOf(ms).date.year <= 9999 <==> FIRST_MS <= ms <= LAST_MS
  {
    hide Civil, StampOf, ValidStamp, TimeOfDay;
    StampExact(ms);
    var day := ms / DAY_MS;
    FirstDays();
    LastDays();
    YearsOrdered(day, -719_894);
    YearsOrdered(-719_893, day);
    YearsOrdered(day, 2_932_896);
    YearsOrdered(2_932_897, day);
    assert FIRST_MS == -719_893 * DAY_MS && LAST_MS + 1 == 2_932_897 * DAY_MS;
  }

  lemma YearsAtEnds()
    ensures StampOf(FIRST_MS).date.year == -1 && StampOf(FIRST_MS - 1).date.year == -2
    ensures StampOf(LAST_MS).date.year == 9999 && StampOf(LAST_MS + 1).date.year == 10_000
  {
    hide Civil, StampOf, ValidStamp, TimeOfDay;
    StampExact(FIRST_MS);
    StampExact(FIRST_MS - 1);
    StampExact(LAST_MS);
    StampExact(LAST_MS + 1);
    FirstDays();
    LastDays();
  }

  lemma YearsOrdered(a: int, b: int)
    ensures a <= b ==> Civil(a).year <= Civil(b).year
  {
    hide Civil;
    if a < b {
      CivilOrdered(a, b);
    }
  }

  lemma SoonerByYear(s: Stamp, t: Stamp)
    ensures Sooner(s, t)
            <==> s.date.year < t.date.year
                 || (s.date.year == t.date.year
                     && Sooner(s.(date := s.date.(year := 0)), t.(date := t.date.(year := 0))))
  {
  }

  /** From the year -1 to the year 9999 the texts sort as the times. */
  lemma TextOrdered(a: int, b: int)
    requires FIRST_MS <= a <= LAST_MS && FIRST_MS <= b <= LAST_MS
    ensures Below(Iso8601(a), Iso8601(b)) <==> a < b
  {
    hide Below, StampOf, PadYear, TimeText, ValidStamp, Civil, Sooner;
    SpanOfYears(a);
    SpanOfYears(b);
    StampExact(a);
    StampExact(b);
    var s, t := StampOf(a), StampOf(b);
    PadYearOrdered(s.date.year, t.date.year);
    PadYearInjective(s.date.year, t.date.year);
    BelowJoined(PadYear(s.date.year), PadYear(t.date.year), TimeText(s), TimeText(t));
    TimeTextOrdered(s, t);
    SoonerByYear(s, t);
    StampOrdered(a, b);
  }

  lemma EdgePads()
    ensures PadYear(10_000) == "10000" && PadYear(9999) == "9999" && PadYear(-1) == "-001" && PadYear(-2) == "-002"
  {
    assert Decimal.OfNat(10_000) == "10000" && Decimal.OfNat(9999) == "9999";
    assert Pad(1, 3) == "001" && Pad(2, 3) == "002";
  }

  /** One millisecond more at either end and they do not. */
  lemma SpanIsLargest()
    ensures Below(Iso8601(LAST_MS + 1), Iso8601(LAST_MS))
    ensures Below(Iso8601(FIRST_MS), Iso8601(FIRST_MS - 1))
  {
    YearsAtEnds();
    EdgePads();
    hide StampOf, PadYear;
    FirstDiffers(Iso8601(LAST_MS + 1), Iso8601(LAST_MS), 0);
    FirstDiffers(Iso8601(FIRST_MS), Iso8601(FIRST_MS - 1), 3);
  }

  lemma {:induction false} FirstDiffers(s: string, t: string, k: nat)
    requires k < |s| && k < |t| && s[..k] == t[..k] && s[k] < t[k]
    ensures Below(s, t)
  {
    if k > 0 {
      assert s[..k][0] == t[..k][0] && s[1..][..k - 1] == s[..k][1..] && t[1..][..k - 1] == t[..k][1..];
      FirstDiffers(s[1..], t[1..], k - 1);
    }
  }
}
