/** Worked values of the formatter, each derived from the general lemmas. */
module FormatterExamples {
  import opened Wrappers
  import opened Decimal
  import opened Formatter

  lemma ParsesPositive(s: string, v: nat)
    requires s == Digits(v)
    ensures ParseInt(s) == Some(v)
  {
    assert ShowInt(v) == s;
    ParseShowRoundTrip(v);
  }

  /** Appending a digit to a positive number appends its character. */
  lemma DigitsSnoc(n: nat, d: nat)
    requires n > 0 && d < 10
    ensures Digits(10 * n + d) == Digits(n) + [DigitChar(d)]
  {
    assert (10 * n + d) / 10 == n && (10 * n + d) % 10 == d;
  }

  lemma DigitChars()
    ensures DigitChar(0) == '0' && DigitChar(1) == '1' && DigitChar(2) == '2'
    ensures DigitChar(3) == '3' && DigitChar(5) == '5' && DigitChar(6) == '6'
    ensures DigitChar(7) == '7' && DigitChar(9) == '9'
  {
  }

  lemma Digits173()
    ensures Digits(173) == "173"
  {
    DigitChars();
    DigitsSnoc(1, 7);
    DigitsSnoc(17, 3);
  }

  lemma Digits1730000()
    ensures Digits(1730000) == "1730000"
  {
    DigitChars();
    Digits173();
    DigitsSnoc(173, 0);
    DigitsSnoc(1730, 0);
    DigitsSnoc(17300, 0);
    DigitsSnoc(173000, 0);
  }

  lemma Digits2770()
    ensures Digits(2770) == "2770"
  {
    DigitChars();
    DigitsSnoc(2, 7);
    DigitsSnoc(27, 7);
    DigitsSnoc(277, 0);
  }

  lemma Digits27700000()
    ensures Digits(27700000) == "27700000"
  {
    DigitChars();
    Digits2770();
    DigitsSnoc(2770, 0);
    DigitsSnoc(27700, 0);
    DigitsSnoc(277000, 0);
    DigitsSnoc(2770000, 0);
  }

  lemma Digits9999()
    ensures Digits(9999) == "9999"
  {
    DigitChars();
    DigitsSnoc(9, 9);
    DigitsSnoc(99, 9);
    DigitsSnoc(999, 9);
  }

  lemma Digits10000()
    ensures Digits(10000) == "10000"
  {
    DigitChars();
    DigitsSnoc(1, 0);
    DigitsSnoc(10, 0);
    DigitsSnoc(100, 0);
    DigitsSnoc(1000, 0);
  }

  lemma Parse1730000()
    ensures ParseInt("1730000") == Some(1730000)
  {
    Digits1730000();
    ParsesPositive("1730000", 1730000);
  }

  lemma Parse27700000()
    ensures ParseInt("27700000") == Some(27700000)
  {
    Digits27700000();
    ParsesPositive("27700000", 27700000);
  }

  lemma FirstRungs()
    ensures Pow(Step, 1) == 10000
    ensures Pow(Step, 2) == 100000000
  {
  }

  lemma OnFirstRung(v: nat, t: nat)
    requires 10000 <= v < 100000000
    requires IsNearestTenths(v, 10000, t)
    ensures IsLadderIndex(v, 1) && v < FloatLimit
    ensures IsNearestTenths(v, Pow(Step, 1), t)
  {
    FirstRungs();
  }

  /** A value whose magnitude is on the first rung. */
  lemma FirstRungText(n: string, unit: string, v: int, t: nat)
    requires ParseInt(n) == Some(v)
    requires 10000 <= Abs(v) < 100000000
    requires IsNearestTenths(Abs(v), 10000, t)
    ensures HumanReadableNumber(n, unit) == SignText(v) + Compact(t) + "만" + unit
  {
    OnFirstRung(Abs(v), t);
    assert Suffixes[1] == "만";
    LargeValueText(n, unit, v, 1, t);
  }

  /** A value on the first rung that rounds to a whole number of 만 prints
      as that number's digits. */
  lemma FirstRungWhole(n: string, unit: string, v: int, t: nat, ds: string, expected: string)
    requires ParseInt(n) == Some(v)
    requires 10000 <= Abs(v) < 100000000 && IsNearestTenths(Abs(v), 10000, t)
    requires t % 10 == 0 && Digits(t / 10) == ds
    requires SignText(v) + ds + "만" + unit == expected
    ensures HumanReadableNumber(n, unit) == expected
  {
    FirstRungText(n, unit, v, t);
    CompactShape(t);
  }

  /** A value on the first rung that rounds to a fraction of 만 prints its
      integer digits, a point and the tenths digit. */
  lemma FirstRungFraction(n: string, unit: string, v: int, t: nat, ds: string, f: char, expected: string)
    requires ParseInt(n) == Some(v)
    requires 10000 <= Abs(v) < 100000000 && IsNearestTenths(Abs(v), 10000, t)
    requires t % 10 != 0 && Digits(t / 10) == ds && DigitChar(t % 10) == f
    requires SignText(v) + (ds + "." + [f]) + "만" + unit == expected
    ensures HumanReadableNumber(n, unit) == expected
  {
    FirstRungText(n, unit, v, t);
    CompactExpanded(t);
  }

  lemma Facts1730000()
    ensures 10000 <= Abs(1730000) < 100000000 && IsNearestTenths(Abs(1730000), 10000, 1730)
    ensures 1730 % 10 == 0 && Digits(1730 / 10) == "173"
    ensures SignText(1730000) + "173" + "만" + "명" == "173만명"
  {
    Digits173();
  }

  /** 1,730,000 people is 173 on the 만 rung: any text that reads as that
      number, "1730000" among them, prints "173만명". */
  lemma OneRungWhole(n: string)
    requires ParseInt(n) == Some(1730000)
    ensures HumanReadableNumber(n, "명") == "173만명"
  {
    Facts1730000();
    FirstRungWhole(n, "명", 1730000, 1730, "173", "173만명");
  }

  lemma Facts27700000()
    ensures 10000 <= Abs(27700000) < 100000000 && IsNearestTenths(Abs(27700000), 10000, 27700)
    ensures 27700 % 10 == 0 && Digits(27700 / 10) == "2770"
    ensures SignText(27700000) + "2770" + "만" + "명" == "2770만명"
  {
    Digits2770();
  }

  /** 27,700,000 stays on the 만 rung (2,770 < 10,000): "2770만명". The
      docstring's "277만명" is not what the code prints. */
  lemma DocstringSecondExample(n: string)
    requires ParseInt(n) == Some(27700000)
    ensures HumanReadableNumber(n, "명") == "2770만명"
  {
    Facts27700000();
    FirstRungWhole(n, "명", 27700000, 27700, "2770", "2770만명");
  }

  /** The two values of the formatter's own docstring, as the code prints them. */
  lemma DocstringValues()
    ensures HumanReadableNumber("1730000", "명") == "173만명"
    ensures HumanReadableNumber("27700000", "명") == "2770만명"
  {
    Parse1730000();
    OneRungWhole("1730000");
    Parse27700000();
    DocstringSecondExample("27700000");
  }

  /** Just below the first rung: grouped digits, no suffix. */
  lemma BelowFirstRung(n: string)
    requires ParseInt(n) == Some(9999)
    ensures HumanReadableNumber(n, "회") == "9,999회"
  {
    SmallValueText(n, "회", 9999);
    Grouped9999();
  }

  lemma Grouped9999()
    ensures GroupedInt(9999) + "회" == "9,999회"
  {
    Digits9999();
    assert GroupThousands("9999") == "9,999";
  }

  lemma FactsMinus15000()
    ensures 10000 <= Abs(-15000) < 100000000 && IsNearestTenths(Abs(-15000), 10000, 15)
    ensures 15 % 10 != 0 && Digits(15 / 10) == "1" && DigitChar(15 % 10) == '5'
    ensures SignText(-15000) + ("1" + "." + ['5']) + "만" + "X" == "-1.5만X"
  {
    assert Digits(1) == "1";
    DigitChars();
  }

  /** The sign survives the reduction: -15,000 is "-1.5만". */
  lemma NegativeKeepsSign(n: string)
    requires ParseInt(n) == Some(-15000)
    ensures HumanReadableNumber(n, "X") == "-1.5만X"
  {
    FactsMinus15000();
    FirstRungFraction(n, "X", -15000, 15, "1", '5', "-1.5만X");
  }

  /** Text that is not an integer comes back unchanged. */
  lemma NotANumber()
    ensures HumanReadableNumber("not-a-number", "X") == "not-a-number"
    ensures HumanReadableNumber("1,234", "X") == "1,234"
  {
    assert !IsDigit("not-a-number"[0]);
    assert !IsDigit("1,234"[1]);
  }

  lemma Facts12500()
    ensures 10000 <= Abs(12500) < 100000000 && IsNearestTenths(Abs(12500), 10000, 12)
    ensures 12 % 10 != 0 && Digits(12 / 10) == "1" && DigitChar(12 % 10) == '2'
    ensures SignText(12500) + ("1" + "." + ['2']) + "만" + "" == "1.2만"
  {
    assert Digits(1) == "1";
    DigitChars();
  }

  /** A tie rounds to the even tenth: 12,500 is "1.2만". */
  lemma TieRoundsToEven(n: string)
    requires ParseInt(n) == Some(12500)
    ensures HumanReadableNumber(n, "") == "1.2만"
  {
    Facts12500();
    FirstRungFraction(n, "", 12500, 12, "1", '2', "1.2만");
  }

  lemma Facts99999600()
    ensures 10000 <= Abs(99999600) < 100000000 && IsNearestTenths(Abs(99999600), 10000, 100000)
    ensures 100000 % 10 == 0 && Digits(100000 / 10) == "10000"
    ensures SignText(99999600) + "10000" + "만" + "회" == "10000만회"
  {
    var e: int := 10 * 99999600 - 100000 * 10000;
    assert e == -4000;
    Digits10000();
  }

  /** Rounding can carry past the rung without moving up one: 99,999,600 is
      9,999.96만, printed "10000만". */
  lemma RoundingCarries(n: string)
    requires ParseInt(n) == Some(99999600)
    ensures HumanReadableNumber(n, "회") == "10000만회"
  {
    Facts99999600();
    FirstRungWhole(n, "회", 99999600, 100000, "10000", "10000만회");
  }
}
