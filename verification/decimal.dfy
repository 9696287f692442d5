/** Decimal text of integers: the part of Python's `int(s)` parsing and of
    `str`/`format(n, ",")` rendering that the number formatter relies on. */
module Decimal {
  import opened Wrappers

  predicate IsDigit(c: char) {
    '0' <= c <= '9'
  }

  predicate AllDigits(s: string) {
    forall i :: 0 <= i < |s| ==> IsDigit(s[i])
  }

  function DigitChar(d: nat): (c: char)
    requires d < 10
    ensures IsDigit(c)
  {
    ('0' as int + d) as char
  }

  function DigitValue(c: char): (d: nat)
    requires IsDigit(c)
    ensures d < 10
    ensures DigitChar(d) == c
  {
    c as int - '0' as int
  }

  /** The value of a string of ASCII digits (leading zeros allowed). */
  function ValueOf(s: string): nat
    requires AllDigits(s)
  {
    if |s| == 0 then 0 else ValueOf(s[..|s| - 1]) * 10 + DigitValue(s[|s| - 1])
  }

  /** The shortest decimal digit string of `n`. */
  function Digits(n: nat): (s: string)
    ensures |s| > 0 && AllDigits(s)
    ensures s[0] == '0' <==> n == 0
    decreases n
  {
    if n < 10 then [DigitChar(n)] else Digits(n / 10) + [DigitChar(n % 10)]
  }

  function Abs(i: int): nat {
    if i < 0 then -i else i
  }

  /** "-" for negative values, nothing otherwise. */
  function SignText(i: int): string {
    if i < 0 then "-" else ""
  }

  /** `str(i)` for a Python int. */
  function ShowInt(i: int): string {
    SignText(i) + Digits(Abs(i))
  }

  /** `int(s)` restricted to an optional '+' or '-' followed by one or more
      ASCII digits; every other string is a parse failure. */
  function ParseInt(s: string): (r: Option<int>)
    ensures r.Some? <==>
              && |s| > 0
              && (IsDigit(s[0]) || ((s[0] == '+' || s[0] == '-') && |s| > 1))
              && forall i :: 0 < i < |s| ==> IsDigit(s[i])
    ensures r.Some? && r.value < 0 ==> s[0] == '-'
  {
    if |s| > 0 && (s[0] == '+' || s[0] == '-') then
      if |s| > 1 && AllDigits(s[1..]) then
        var magnitude: int := ValueOf(s[1..]);
        Some(if s[0] == '-' then -magnitude else magnitude)
      else
        None
    else if |s| > 0 && AllDigits(s) then
      Some(ValueOf(s))
    else
      None
  }

  /** A leading zero does not change the value of a digit string. */
  lemma {:induction false} ValueOfLeadingZero(s: string)
    requires AllDigits(s)
    ensures AllDigits("0" + s) && ValueOf("0" + s) == ValueOf(s)
    decreases |s|
  {
    var z := "0" + s;
    assert forall i :: 0 < i < |z| ==> z[i] == s[i - 1];
    if |s| > 0 {
      assert z[..|z| - 1] == "0" + s[..|s| - 1];
      ValueOfLeadingZero(s[..|s| - 1]);
    }
  }

  /** The value of accepted text that is not in its shortest form: a leading
      zero or '+' changes nothing, and '-' negates the value of the digits
      ("-0" is 0). With `ParseShowRoundTrip` this fixes the value of every
      accepted text. */
  lemma ParseIntPadding(s: string)
    requires |s| > 0 && AllDigits(s)
    ensures ParseInt(s).Some?
    ensures ParseInt("0" + s) == ParseInt(s)
    ensures ParseInt("+" + s) == ParseInt(s)
    ensures ParseInt("-" + s) == Some(-ParseInt(s).value)
    ensures ParseInt("-0" + s) == ParseInt("-" + s)
  {
    ValueOfLeadingZero(s);
    assert ("+" + s)[1..] == s;
    assert ("-" + s)[1..] == s;
    assert ("-0" + s)[1..] == "0" + s;
  }

  /** `format(ds, ",")` on a digit string: a comma between every group of three
      digits, counted from the right. */
  function GroupThousands(ds: string): (r: string)
    requires AllDigits(ds)
    ensures |ds| > 0 ==> |r| == |ds| + (|ds| - 1) / 3
  {
    if |ds| <= 3 then ds
    else GroupThousands(ds[..|ds| - 3]) + "," + ds[|ds| - 3..]
  }

  /** The grouped text has a comma exactly at every fourth place counted from
      the right end, never in front, and digits everywhere else. */
  lemma {:induction false} GroupThousandsShape(ds: string)
    requires AllDigits(ds)
    ensures forall i :: 0 <= i < |GroupThousands(ds)| ==>
              (GroupThousands(ds)[i] == ',' <==> 0 < i && (|GroupThousands(ds)| - i) % 4 == 0)
    ensures forall i :: 0 <= i < |GroupThousands(ds)| ==>
              GroupThousands(ds)[i] == ',' || IsDigit(GroupThousands(ds)[i])
    decreases |ds|
  {
    if |ds| > 3 {
      var head := ds[..|ds| - 3];
      GroupThousandsShape(head);
      CommaJoinShape(GroupThousands(head), ds[|ds| - 3..], GroupThousands(ds));
    }
  }

  /** Joining a well-grouped head and three more digits with a comma keeps
      the grouping. */
  lemma CommaJoinShape(head: string, tail: string, r: string)
    requires r == head + "," + tail && |head| > 0 && |tail| == 3 && AllDigits(tail)
    requires forall i :: 0 <= i < |head| ==> (head[i] == ',' <==> 0 < i && (|head| - i) % 4 == 0)
    requires forall i :: 0 <= i < |head| ==> head[i] == ',' || IsDigit(head[i])
    ensures forall i :: 0 <= i < |r| ==> (r[i] == ',' <==> 0 < i && (|r| - i) % 4 == 0)
    ensures forall i :: 0 <= i < |r| ==> r[i] == ',' || IsDigit(r[i])
  {
    forall i | 0 <= i < |r|
      ensures r[i] == ',' <==> 0 < i && (|r| - i) % 4 == 0
      ensures r[i] == ',' || IsDigit(r[i])
    {
      if i < |head| {
        assert r[i] == head[i];
        assert (|r| - i) % 4 == (|head| - i) % 4;
      } else if i > |head| {
        assert r[i] == tail[i - |head| - 1];
        assert 0 < |r| - i < 4;
      }
    }
  }

  /** The text with every comma removed. */
  function DropCommas(s: string): (r: string)
  {
    if |s| == 0 then ""
    else if s[|s| - 1] == ',' then DropCommas(s[..|s| - 1])
    else DropCommas(s[..|s| - 1]) + [s[|s| - 1]]
  }

  /** Python's `f"{i:,}"` for an int: the sign, then the grouped digits. */
  function GroupedInt(i: int): string {
    SignText(i) + GroupThousands(Digits(Abs(i)))
  }

  lemma DropCommasAppend(a: string, b: string)
    ensures DropCommas(a + b) == DropCommas(a) + DropCommas(b)
    decreases |b|
  {
    if |b| == 0 {
      assert a + b == a;
    } else {
      assert (a + b)[..|a + b| - 1] == a + b[..|b| - 1];
      DropCommasAppend(a, b[..|b| - 1]);
    }
  }

  lemma DropCommasOfDigits(ds: string)
    requires AllDigits(ds)
    ensures DropCommas(ds) == ds
  {
    if |ds| > 0 {
      DropCommasOfDigits(ds[..|ds| - 1]);
      assert ds[..|ds| - 1] + [ds[|ds| - 1]] == ds;
    }
  }

  /** Removing the separators from a grouped number gives back its digits. */
  lemma {:induction false} GroupThousandsRoundTrip(ds: string)
    requires AllDigits(ds)
    ensures DropCommas(GroupThousands(ds)) == ds
    decreases |ds|
  {
    if |ds| <= 3 {
      DropCommasOfDigits(ds);
    } else {
      var head := ds[..|ds| - 3];
      var tail := ds[|ds| - 3..];
      GroupThousandsRoundTrip(head);
      DropCommasAppend(GroupThousands(head) + ",", tail);
      DropCommasAppend(GroupThousands(head), ",");
      DropCommasOfDigits(tail);
      assert head + tail == ds;
    }
  }

  lemma {:induction false} DigitsRoundTrip(n: nat)
    ensures ValueOf(Digits(n)) == n
    decreases n
  {
    if n >= 10 {
      var s := Digits(n);
      assert s[..|s| - 1] == Digits(n / 10);
      DigitsRoundTrip(n / 10);
    }
  }

  /** Printing an integer and parsing the text back gives the integer. */
  lemma {:induction false} ParseShowRoundTrip(i: int)
    ensures ParseInt(ShowInt(i)) == Some(i)
  {
    var ds := Digits(Abs(i));
    DigitsRoundTrip(Abs(i));
    var s := ShowInt(i);
    if i < 0 {
      assert s == "-" + ds;
      assert s[1..] == ds;
      assert AllDigits(s[1..]);
      assert ParseInt(s) == Some(0 - ValueOf(ds));
    } else {
      assert s == ds;
      assert IsDigit(s[0]);
      assert ParseInt(s) == Some(ValueOf(ds));
    }
  }
}
