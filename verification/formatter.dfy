/** The Korean large-number formatter: a count is shortened along the
    10,000-based ladder 만 (10^4), 억 (10^8), 조 (10^12), 경 (10^16) and a
    unit word is appended ("173만명", "9,999회", "-1.5만X").

    Python computes with binary floats; this model computes with exact
    integers and rationals (see README). */
module Formatter {
  import opened Wrappers
  import opened Decimal
  import opened Strings

  /** Suffixes of the ladder, indexed by the number of divisions by 10,000. */
  const Suffixes: seq<string> := ["", "만", "억", "조", "경"]

  /** The ratio between neighbouring rungs of the ladder. */
  const Step: nat := 10000

  /** The ladder has four rungs above the plain number. */
  const MaxSteps: nat := 4

  /** 2^1024 - 2^970: the least magnitude whose conversion to a binary64
      float rounds up to 2^1024 and raises OverflowError. */
  const FloatLimit: nat := 0xFFFFFFFFFFFFFC00_0000000000000000_0000000000000000_0000000000000000_0000000000000000_0000000000000000_0000000000000000_0000000000000000_0000000000000000_0000000000000000_0000000000000000_0000000000000000_0000000000000000_0000000000000000_0000000000000000_0000000000000000

  function Pow(b: nat, k: nat): nat {
    if k == 0 then 1 else b * Pow(b, k - 1)
  }

  lemma {:induction false} PowMonotone(b: nat, i: nat, j: nat)
    requires b >= 1 && i <= j
    ensures Pow(b, i) <= Pow(b, j)
    decreases j
  {
    if i < j {
      PowMonotone(b, i, j - 1);
      MulMonotone(1, b, Pow(b, j - 1));
    }
  }

  /** k is the rung a magnitude a lands on: k divisions by 10,000 keep it at
      least 1 (or k is 0), and either the ladder is exhausted or one more
      division would bring it below 1. */
  predicate IsLadderIndex(a: nat, k: nat) {
    && k <= MaxSteps
    && (k == 0 || Pow(Step, k) <= a)
    && (k == MaxSteps || a < Pow(Step, k + 1))
  }

  /** The dividing loop, started at rung idx. After idx divisions the value
      is exactly a / 10000^idx, so "still at least 10,000" is
      a >= 10000^(idx + 1). */
  function StepsFrom(a: nat, idx: nat): (k: nat)
    requires idx <= MaxSteps
    requires idx == 0 || Pow(Step, idx) <= a
    ensures idx <= k
    ensures IsLadderIndex(a, k)
    decreases MaxSteps - idx
  {
    if a >= Pow(Step, idx + 1) && idx < MaxSteps then StepsFrom(a, idx + 1) else idx
  }

  /** The number of divisions the formatter performs on magnitude a. */
  function Steps(a: nat): (k: nat)
    ensures IsLadderIndex(a, k)
  {
    StepsFrom(a, 0)
  }

  /** Each magnitude lands on exactly one rung: the ladder index is the least
      k <= 4 with a < 10000^(k + 1). */
  lemma LadderIndexUnique(a: nat, j: nat, k: nat)
    requires IsLadderIndex(a, j) && IsLadderIndex(a, k)
    ensures j == k
  {
    if j < k {
      PowMonotone(Step, j + 1, k);
    } else if k < j {
      PowMonotone(Step, k + 1, j);
    }
  }

  /** The loop stops at the first rung it may: every rung below the chosen
      one was passed because the magnitude reached the next power. */
  lemma StepsIsLeast(a: nat, j: nat)
    requires j < Steps(a)
    ensures Pow(Step, j + 1) <= a
  {
    PowMonotone(Step, j + 1, Steps(a));
  }

  /** t is 10 * a / d rounded to the nearest integer, ties to even: the
      tenths of a / d as `f"{x:.1f}"` prints them. */
  predicate IsNearestTenths(a: nat, d: nat, t: nat) {
    var e: int := 10 * a - t * d;
    && -(d as int) <= 2 * e <= d
    && (2 * e == d || 2 * e == -(d as int) ==> t % 2 == 0)
  }

  function RoundTenths(a: nat, d: nat): (t: nat)
    requires d > 0
    ensures IsNearestTenths(a, d, t)
  {
    var q := 10 * a / d;
    var rem := 10 * a % d;
    NearestFromDivision(a, d, q, rem);
    if 2 * rem > d || (2 * rem == d && q % 2 == 1) then q + 1 else q
  }

  lemma NearestFromDivision(a: nat, d: nat, q: nat, rem: nat)
    requires d > 0 && 10 * a == q * d + rem && rem < d
    ensures 2 * rem > d || (2 * rem == d && q % 2 == 1) ==> IsNearestTenths(a, d, q + 1)
    ensures !(2 * rem > d || (2 * rem == d && q % 2 == 1)) ==> IsNearestTenths(a, d, q)
  {
    assert (q + 1) * d == q * d + d;
  }

  lemma MulMonotone(x: int, y: int, d: nat)
    requires x <= y
    ensures x * d <= y * d
  {
  }

  /** Rounding to the nearest tenth, ties to even, has one answer. */
  lemma NearestTenthsUnique(a: nat, d: nat, t1: nat, t2: nat)
    requires d > 0
    requires IsNearestTenths(a, d, t1) && IsNearestTenths(a, d, t2)
    ensures t1 == t2
  {
    var e1: int := 10 * a - t1 * d;
    var e2: int := 10 * a - t2 * d;
    var gap: int := t2 - t1;
    assert e1 - e2 == gap * d by {
      assert t2 * d - t1 * d == (t2 - t1) * d;
    }
    GapBound(gap, d);
    if gap == 1 {
      TieParity(e1, e2, d);
    } else if gap == -1 {
      TieParity(e2, e1, d);
    }
  }

  /** A multiple of d within [-d, d] has a factor within [-1, 1]. */
  lemma GapBound(g: int, d: nat)
    requires d > 0 && -(d as int) <= g * d <= d
    ensures -1 <= g <= 1
  {
    if g >= 2 {
      MulMonotone(2, g, d);
    } else if g <= -2 {
      MulMonotone(g, -2, d);
    }
  }

  /** Two errors within half a step of zero that are a whole step apart sit
      on opposite ends of the range. */
  lemma TieParity(e1: int, e2: int, d: nat)
    requires -(d as int) <= 2 * e1 <= d && -(d as int) <= 2 * e2 <= d
    requires e1 - e2 == d
    ensures 2 * e1 == d && 2 * e2 == -(d as int)
  {
  }

  /** `f"{x:.1f}"` for x = t / 10 >= 0: integer digits, a point, one digit. */
  function FixedOneDecimal(t: nat): (s: string) {
    Digits(t / 10) + "." + [DigitChar(t % 10)]
  }

  /** The reduced value as the formatter prints it: one decimal, then a
      trailing ".0" dropped. */
  function Compact(t: nat): (r: string)
    ensures |r| > 0 && IsDigit(r[0])
  {
    CompactShape(t);
    RStrip(RStrip(FixedOneDecimal(t), '0'), '.')
  }

  /** The two stripping passes remove exactly a ".0" and nothing else. */
  lemma CompactShape(t: nat)
    ensures RStrip(RStrip(FixedOneDecimal(t), '0'), '.')
            == if t % 10 == 0 then Digits(t / 10) else FixedOneDecimal(t)
  {
    var ds := Digits(t / 10);
    var s := FixedOneDecimal(t);
    if t % 10 == 0 {
      assert s[..|s| - 1] == ds + ".";
      assert RStrip(s, '0') == RStrip(ds + ".", '0');
      assert RStrip(ds + ".", '0') == ds + ".";
      assert (ds + ".")[..|ds|] == ds;
      assert RStrip(ds, '.') == ds;
    } else {
      assert DigitChar(t % 10) != '0';
      assert RStrip(s, '0') == s;
      assert RStrip(s, '.') == s;
    }
  }

  /** Reads a decimal with at most one fractional digit as a count of tenths. */
  function ParseTenths(s: string): Option<nat> {
    if |s| >= 3 && s[|s| - 2] == '.' && AllDigits(s[..|s| - 2]) && IsDigit(s[|s| - 1]) then
      Some(ValueOf(s[..|s| - 2]) * 10 + DigitValue(s[|s| - 1]))
    else if |s| > 0 && AllDigits(s) then
      Some(ValueOf(s) * 10)
    else
      None
  }

  /** The compact text denotes exactly t tenths and never ends in "." or ".0". */
  lemma CompactRoundTrip(t: nat)
    ensures ParseTenths(Compact(t)) == Some(t)
    ensures Compact(t)[|Compact(t)| - 1] != '.'
    ensures '.' in Compact(t) ==> Compact(t)[|Compact(t)| - 1] != '0'
  {
    CompactShape(t);
    DigitsRoundTrip(t / 10);
    if t % 10 == 0 {
      WholeTenths(Digits(t / 10));
    } else {
      FractionTenths(Digits(t / 10), t % 10);
    }
  }

  lemma WholeTenths(ds: string)
    requires |ds| > 0 && AllDigits(ds)
    ensures ParseTenths(ds) == Some(ValueOf(ds) * 10)
    ensures '.' !in ds && ds[|ds| - 1] != '.'
  {
    if |ds| >= 3 {
      assert IsDigit(ds[|ds| - 2]);
    }
  }

  lemma FractionTenths(ds: string, f: nat)
    requires |ds| > 0 && AllDigits(ds) && 0 < f < 10
    ensures var s := ds + "." + [DigitChar(f)];
            && ParseTenths(s) == Some(ValueOf(ds) * 10 + f)
            && s[|s| - 1] != '.' && s[|s| - 1] != '0'
  {
    var s := ds + "." + [DigitChar(f)];
    assert s[..|s| - 2] == ds;
    assert DigitValue(s[|s| - 1]) == f;
  }

  /** `human_readable_number(n, unit)`. */
  function HumanReadableNumber(n: string, unit: string): (r: string)
    ensures ParseInt(n).None? ==> r == n
    ensures ParseInt(n).Some? && Abs(ParseInt(n).value) >= FloatLimit ==> r == n
    ensures ParseInt(n).Some? && Abs(ParseInt(n).value) < FloatLimit ==>
              && |r| > |unit|
              && r[|r| - |unit|..] == unit
              && (r[0] == '-' <==> ParseInt(n).value < 0)
  {
    match ParseInt(n)
    case None => n
    case Some(v) =>
      if Abs(v) >= FloatLimit then n
      else
        var k := Steps(Abs(v));
        if k == 0 then
          GroupThousandsShape(Digits(Abs(v)));
          GroupedInt(v) + unit
        else
          SignText(v) + Compact(RoundTenths(Abs(v), Pow(Step, k))) + Suffixes[k] + unit
  }

  /** `human_readable_views(n)`: the formatter with the unit 회 (times viewed). */
  function HumanReadableViews(n: string): (r: string)
    ensures ParseInt(n).None? ==> r == n
    ensures ParseInt(n).Some? && Abs(ParseInt(n).value) < FloatLimit ==>
              |r| > 1 && r[|r| - 1] == '회'
  {
    HumanReadableNumber(n, "회")
  }

  /** Below 10,000 in magnitude nothing is divided: the integer with
      thousands separators, sign kept, then the unit. */
  lemma SmallValueText(n: string, unit: string, v: int)
    requires ParseInt(n) == Some(v) && Abs(v) < Step
    ensures HumanReadableNumber(n, unit) == GroupedInt(v) + unit
  {
    LadderIndexUnique(Abs(v), Steps(Abs(v)), 0);
  }

  /** The small-value text reads back as the input: with the unit cut off
      and the separators removed it parses to the same integer. */
  lemma SmallValueReadsBack(n: string, unit: string, v: int)
    requires ParseInt(n) == Some(v) && Abs(v) < Step
    ensures var r := HumanReadableNumber(n, unit);
            |r| >= |unit| && ParseInt(DropCommas(r[..|r| - |unit|])) == Some(v)
  {
    SmallValueText(n, unit, v);
    var r := HumanReadableNumber(n, unit);
    var ds := Digits(Abs(v));
    assert r[..|r| - |unit|] == SignText(v) + GroupThousands(ds);
    DropCommasAppend(SignText(v), GroupThousands(ds));
    GroupThousandsRoundTrip(ds);
    assert DropCommas(SignText(v)) == SignText(v) by {
      if v < 0 {
        assert "-"[..0] == "";
      }
    }
    ParseShowRoundTrip(v);
  }

  /** From 10,000 up: the sign, the value on its rung rounded to a tenth,
      the rung's suffix, then the unit. */
  lemma LargeValueText(n: string, unit: string, v: int, k: nat, t: nat)
    requires ParseInt(n) == Some(v) && Abs(v) < FloatLimit
    requires 1 <= k && IsLadderIndex(Abs(v), k)
    requires IsNearestTenths(Abs(v), Pow(Step, k), t)
    ensures HumanReadableNumber(n, unit) == SignText(v) + Compact(t) + Suffixes[k] + unit
  {
    LadderIndexUnique(Abs(v), Steps(Abs(v)), k);
    PowMonotone(Step, 0, k);
    NearestTenthsUnique(Abs(v), Pow(Step, k), RoundTenths(Abs(v), Pow(Step, k)), t);
  }

  /** When the magnitude is a whole number t of tenths of its rung, no
      rounding happens: those tenths are printed, without a trailing ".0". */
  lemma ExactTenthsText(n: string, unit: string, v: int, k: nat, t: nat)
    requires ParseInt(n) == Some(v) && Abs(v) < FloatLimit
    requires 1 <= k && IsLadderIndex(Abs(v), k)
    requires 10 * Abs(v) == t * Pow(Step, k)
    ensures HumanReadableNumber(n, unit)
            == SignText(v)
               + (if t % 10 == 0 then Digits(t / 10) else Digits(t / 10) + "." + [DigitChar(t % 10)])
               + Suffixes[k] + unit
  {
    assert IsNearestTenths(Abs(v), Pow(Step, k), t);
    LargeValueText(n, unit, v, k, t);
    CompactExpanded(t);
  }

  lemma CompactExpanded(t: nat)
    ensures Compact(t) == if t % 10 == 0 then Digits(t / 10) else Digits(t / 10) + "." + [DigitChar(t % 10)]
  {
    CompactShape(t);
  }
}
