/**
 When the text of a timestamp is the one `Date.toISOString()` writes (section 21.4.1.32 of ECMA-262): years
 outside 0 to 9999 take a sign and six digits there, and times end 100 million days from the epoch.
 */
module TimestampScript {
  import opened Wrappers
  import opened CivilDate
  import opened TimestampOrder
  import Decimal

  const MAX_TIME := 8_640_000_000_000_000

  function ScriptYear(y: int): string {
    if 0 <= y <= 9999 then Pad(y, 4)
    else if y < 0 then "-" + Pad(-y, 6)
    else "+" + Pad(y, 6)
  }

  /** `None` where it throws. */
  function ScriptText(ms: int): Option<string> {
    StampExact(ms);
    if -MAX_TIME <= ms <= MAX_TIME then Some(ScriptYear(StampOf(ms).date.year) + TimeText(StampOf(ms))) else None
  }

  // ----- Years -----

  lemma {:induction false} OfNatLong(n: nat, k: nat)
    requires n >= Decimal.Pow10(k)
    ensures |Decimal.OfNat(n)| > k
  {
    if k > 0 {
      assert n >= 10 by {
        assert Decimal.Pow10(k) == 10 * Decimal.Pow10(k - 1);
      }
      TenthAbove(n, Decimal.Pow10(k - 1));
      OfNatLong(n / 10, k - 1);
    }
  }

  lemma TenthAbove(n: nat, p: nat)
    requires n >= 10 * p
    ensures n / 10 >= p
  {
  }

  lemma FivePlaces()
    ensures Decimal.Pow10(5) == 100_000
  {
    assert Decimal.Pow10(3) == 1000;
  }

  /** Padding to three or to six places is the same from six digits on. */
  lemma PadsAgree(n: nat)
    ensures Pad(n, 3) == Pad(n, 6) <==> n >= 100_000
  {
    hide Decimal.OfNat;
    FivePlaces();
    var digits := Decimal.OfNat(n);
    if n >= 100_000 {
      OfNatLong(n, 5);
    } else {
      Decimal.OfNatShort(n, 5);
      ZerosDigits(6 - |digits|);
      if |digits| < 3 {
        ZerosDigits(3 - |digits|);
      }
      assert |Pad(n, 6)| == 6 && |Pad(n, 3)| < 6;
    }
  }

  /** The years written alike are 0 to 9999 and those before -99999. */
  lemma YearsAgree(y: int)
    ensures PadYear(y) == ScriptYear(y) <==> 0 <= y <= 9999 || y <= -100_000
  {
    hide Pad;
    if y < 0 {
      PadsAgree(-y);
      assert PadYear(y)[1..] == Pad(-y, 3) && ScriptYear(y)[1..] == Pad(-y, 6);
    } else if y > 9999 {
      PadYearSign(y);
      PadDigits(y, 4);
      assert Decimal.IsDigit(PadYear(y)[0]) && ScriptYear(y)[0] == '+';
    }
  }

  // ----- Times -----

  /** The first millisecond of the year 0, and the last before the year -99999. */
  const YEAR_0_MS := -62_167_219_200_000
  const OLD_LAST_MS := -3_217_830_796_800_001

  lemma EdgeDays()
    ensures Civil(-719_528) == Date(0, 1, 1) && Civil(-719_529) == Date(-1, 12, 31)
    ensures Civil(-37_243_412) == Date(-99_999, 1, 1) && Civil(-37_243_413) == Date(-100_000, 12, 31)
  {
    assert Era(-719_528) == -1 && EraDay(-719_528) == 146_037 && Era(-719_529) == -1 && EraDay(-719_529) == 146_036;
    assert Era(-37_243_412) == -250 && EraDay(-37_243_412) == 306;
    assert Era(-37_243_413) == -250 && EraDay(-37_243_413) == 305;
    assert YearOfEra(146_037) == 399 && YearOfEra(146_036) == 399 && YearStart(399) == 145_731;
    assert YearOfEra(306) == 0 && YearOfEra(305) == 0 && YearStart(0) == 0;
    hide YearOfEra, YearStart, Era, EraDay;
    assert FromYear(-1, 306) == Date(0, 1, 1) && FromYear(-1, 305) == Date(-1, 12, 31);
    assert FromYear(-100_000, 306) == Date(-99_999, 1, 1) && FromYear(-100_000, 305) == Date(-100_000, 12, 31);
  }

  lemma AgreeingYears(ms: int)
    ensures 0 <= StampOf(ms).date.year <= 9999 <==> YEAR_0_MS <= ms <= LAST_MS
    ensures StampOf(ms).date.year <= -100_000 <==> ms <= OLD_LAST_MS
  {
    hide Civil, StampOf, ValidStamp, TimeOfDay;
    StampExact(ms);
    var day := ms / DAY_MS;
    EdgeDays();
    LastDays();
    YearsOrdered(day, -719_529);
    YearsOrdered(-719_528, day);
    YearsOrdered(day, 2_932_896);
    YearsOrdered(2_932_897, day);
    YearsOrdered(day, -37_243_413);
    YearsOrdered(-37_243_412, day);
    assert YEAR_0_MS == -719_528 * DAY_MS && LAST_MS + 1 == 2_932_897 * DAY_MS
        && OLD_LAST_MS + 1 == -37_243_412 * DAY_MS;
  }

  /** The text is that of `toISOString` exactly within the years 0 to 9999, and again before the year -99999
      for as long as the script has times. */
  lemma TextsAgree(ms: int)
    ensures ScriptText(ms) == Some(Iso8601(ms)) <==> YEAR_0_MS <= ms <= LAST_MS || -MAX_TIME <= ms <= OLD_LAST_MS
  {
    hide StampOf, PadYear, ScriptYear, TimeText, ValidStamp;
    StampExact(ms);
    AgreeingYears(ms);
    var y, tail := StampOf(ms).date.year, TimeText(StampOf(ms));
    YearsAgree(y);
    if ScriptYear(y) + tail == PadYear(y) + tail {
      assert |ScriptYear(y)| == |PadYear(y)|;
      assert (ScriptYear(y) + tail)[..|ScriptYear(y)|] == ScriptYear(y)
          && (PadYear(y) + tail)[..|PadYear(y)|] == PadYear(y);
    }
  }

  /** The first millisecond of the year 10000. */
  lemma TextsDiffer()
    ensures var text := Iso8601(LAST_MS + 1);
            && |text| > 5 && text[..5] == "10000"
            && ScriptText(LAST_MS + 1) == Some("+010000" + text[5..])
  {
    hide Civil, StampOf, ValidStamp, TimeText, PadYear, Pad;
    StampExact(LAST_MS + 1);
    TimeTextInjective(StampOf(LAST_MS + 1), StampOf(LAST_MS + 1));
    YearsAtEnds();
    EdgePads();
    PadTenThousand();
    var tail := TimeText(StampOf(LAST_MS + 1));
    assert Iso8601(LAST_MS + 1)[5..] == tail;
    assert ScriptText(LAST_MS + 1) == Some("+" + "010000" + tail);
    assert "+" + "010000" == "+010000";
  }

  lemma PadTenThousand()
    ensures Pad(10_000, 6) == "010000"
  {
    assert Decimal.OfNat(10_000) == "10000" && Zeros(1) == "0";
  }
}
