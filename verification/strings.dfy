/** The Python `str` methods the dashboard uses on text: `rstrip`, `strip` and
    taking the last piece of `split`. */
module Strings {

  /** `s.rstrip(c)`: s without its trailing run of c. */
  function RStrip(s: string, c: char): (r: string)
    ensures |r| <= |s| && r == s[..|r|]
    ensures forall i :: |r| <= i < |s| ==> s[i] == c
    ensures |r| == 0 || r[|r| - 1] != c
  {
    if |s| > 0 && s[|s| - 1] == c then RStrip(s[..|s| - 1], c) else s
  }

  /** `s.lstrip(c)`: s without its leading run of c. */
  function LStrip(s: string, c: char): (r: string)
    ensures |r| <= |s| && r == s[|s| - |r|..]
    ensures forall i :: 0 <= i < |s| - |r| ==> s[i] == c
    ensures |r| == 0 || r[0] != c
  {
    if |s| > 0 && s[0] == c then LStrip(s[1..], c) else s
  }

  /** r is the slice of s that starts at i, with only c before it and only c
      after it, and neither end of r is c. */
  predicate IsStripped(s: string, c: char, i: int, r: string) {
    && 0 <= i <= |s| - |r|
    && r == s[i..i + |r|]
    && (forall k :: 0 <= k < i ==> s[k] == c)
    && (forall k :: i + |r| <= k < |s| ==> s[k] == c)
    && (|r| == 0 || (r[0] != c && r[|r| - 1] != c))
  }

  /** `s.strip(c)`: both runs removed. */
  function Strip(s: string, c: char): (r: string)
    ensures exists i :: IsStripped(s, c, i, r)
  {
    var inner := LStrip(s, c);
    var r := RStrip(inner, c);
    StrippedRuns(s, c, inner, r);
    assert IsStripped(s, c, |s| - |inner|, r);
    r
  }

  /** Removing a leading run of c and then a trailing run of c leaves the
      stripped slice. */
  lemma StrippedRuns(s: string, c: char, inner: string, r: string)
    requires |inner| <= |s| && inner == s[|s| - |inner|..]
    requires forall k :: 0 <= k < |s| - |inner| ==> s[k] == c
    requires |inner| == 0 || inner[0] != c
    requires |r| <= |inner| && r == inner[..|r|]
    requires forall k :: |r| <= k < |inner| ==> inner[k] == c
    requires |r| == 0 || r[|r| - 1] != c
    ensures IsStripped(s, c, |s| - |inner|, r)
  {
    var i := |s| - |inner|;
    assert forall k :: i + |r| <= k < |s| ==> s[k] == inner[k - i];
  }

  /** Only one text is s with its leading and trailing runs of c removed. */
  lemma StripUnique(s: string, c: char, i: int, r: string)
    requires IsStripped(s, c, i, r)
    ensures r == Strip(s, c)
  {
    var r0 := Strip(s, c);
    var i0 :| IsStripped(s, c, i0, r0);
    StrippedSlicesAgree(s, c, i, r, i0, r0);
  }

  lemma StrippedSlicesAgree(s: string, c: char, i: int, r: string, i0: int, r0: string)
    requires IsStripped(s, c, i, r) && IsStripped(s, c, i0, r0)
    ensures r == r0
  {
    if |r| > 0 && |r0| > 0 {
      assert s[i] == r[0] && s[i0] == r0[0];
      assert i == i0;
      assert s[i + |r| - 1] == r[|r| - 1] && s[i0 + |r0| - 1] == r0[|r0| - 1];
      assert |r| == |r0|;
    }
  }

  /** `s.split(c)[-1]`: the text after the last c, or all of s when there is none. */
  function AfterLast(s: string, c: char): (r: string)
    ensures c !in r
    ensures |r| <= |s| && r == s[|s| - |r|..]
    ensures |r| < |s| ==> s[|s| - |r| - 1] == c
  {
    if |s| == 0 then ""
    else if s[|s| - 1] == c then ""
    else
      var init := AfterLast(s[..|s| - 1], c);
      assert s[..|s| - 1][|s| - 1 - |init|..] + [s[|s| - 1]] == s[|s| - |init| - 1..];
      init + [s[|s| - 1]]
  }
}
