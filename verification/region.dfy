/** The region selector's labels: each preset is shown as "name (code)" and the
    chosen label is turned back into its code with `split("(")[-1].strip(")")`. */
module Region {
  import opened Strings

  /** The last option, which asks for a code to be typed in. */
  const CustomOption: string := "직접 입력(Custom)..."

  /** The preset regions as (code, name) pairs, in the order they are offered. */
  const RegionPresets: seq<(string, string)> := [
    ("KR", "대한민국"),
    ("US", "미국"),
    ("JP", "일본"),
    ("GB", "영국"),
    ("DE", "독일"),
    ("FR", "프랑스"),
    ("IN", "인도"),
    ("ID", "인도네시아"),
    ("VN", "베트남"),
    ("BR", "브라질"),
    ("CA", "캐나다"),
    ("AU", "호주")
  ]

  /** `f"{name} ({code})"`. */
  function RegionLabel(code: string, name: string): string {
    name + " (" + code + ")"
  }

  /** The options of the select box: one label per preset, then the custom entry. */
  function DisplayOptions(): (opts: seq<string>)
    ensures |opts| == |RegionPresets| + 1
    ensures opts[|RegionPresets|] == CustomOption
    ensures forall i :: 0 <= i < |RegionPresets| ==>
              opts[i] == RegionLabel(RegionPresets[i].0, RegionPresets[i].1)
  {
    seq(|RegionPresets|, i requires 0 <= i < |RegionPresets| => RegionLabel(RegionPresets[i].0, RegionPresets[i].1))
      + [CustomOption]
  }

  /** r is read from the text after the last '(' of choice, which starts at
      j: it is that text with its leading and trailing ')' removed. */
  predicate IsCodeIn(choice: string, j: int, i: int, r: string) {
    && 0 <= j <= |choice|
    && (j == 0 || choice[j - 1] == '(')
    && '(' !in choice[j..]
    && IsStripped(choice[j..], ')', i, r)
  }

  /** `choice.split("(")[-1].strip(")")`. */
  function ExtractRegionCode(choice: string): (r: string)
    ensures '(' !in r
    ensures exists j, i :: IsCodeIn(choice, j, i, r)
  {
    var r := Strip(AfterLast(choice, '('), ')');
    CodeInLastSegment(choice, r);
    r
  }

  lemma CodeInLastSegment(choice: string, r: string)
    requires r == Strip(AfterLast(choice, '('), ')')
    ensures '(' !in r
    ensures exists j, i :: IsCodeIn(choice, j, i, r)
  {
    var tail := AfterLast(choice, '(');
    var i :| IsStripped(tail, ')', i, r);
    CodeInSegment(choice, tail, i, r);
  }

  /** The stripped last segment, whatever its text, is the code in it. */
  lemma CodeInSegment(choice: string, tail: string, i: int, r: string)
    requires |tail| <= |choice| && tail == choice[|choice| - |tail|..] && '(' !in tail
    requires |tail| < |choice| ==> choice[|choice| - |tail| - 1] == '('
    requires IsStripped(tail, ')', i, r)
    ensures '(' !in r
    ensures IsCodeIn(choice, |choice| - |tail|, i, r)
  {
    SliceKeepsAbsent(tail, i, r, '(');
  }

  lemma SliceKeepsAbsent(t: string, i: int, r: string, c: char)
    requires 0 <= i <= |t| - |r| && r == t[i..i + |r|] && c !in t
    ensures c !in r
  {
  }

  /** The region the page queries: the typed code for the custom entry,
      otherwise the code read back from the chosen label. */
  function SelectedRegion(choice: string, typed: string): (region: string)
    ensures choice == CustomOption ==> region == typed
  {
    if choice == CustomOption then typed else ExtractRegionCode(choice)
  }

  /** A code without '(' that neither starts nor ends with ')' survives the
      trip through its label, whatever the name. */
  lemma LabelRoundTrip(code: string, name: string)
    requires '(' !in code
    requires |code| == 0 || (code[0] != ')' && code[|code| - 1] != ')')
    ensures ExtractRegionCode(RegionLabel(code, name)) == code
  {
    var shown := RegionLabel(code, name);
    var tail := code + ")";
    assert shown == (name + " ") + ['('] + tail;
    AfterLastOfTail(name + " ", '(', tail);
    assert AfterLast(shown, '(') == tail;
    StripClosing(code);
  }

  lemma StripClosing(code: string)
    requires |code| == 0 || (code[0] != ')' && code[|code| - 1] != ')')
    ensures Strip(code + ")", ')') == code
  {
    var tail := code + ")";
    if |code| == 0 {
      assert tail[1..] == "";
      assert LStrip(tail, ')') == "";
    } else {
      assert tail[0] == code[0];
      assert LStrip(tail, ')') == tail;
      assert tail[..|tail| - 1] == code;
      assert RStrip(tail, ')') == RStrip(code, ')');
    }
  }

  lemma {:induction false} AfterLastOfTail(s: string, c: char, t: string)
    requires c !in t
    ensures AfterLast(s + [c] + t, c) == t
    decreases |t|
  {
    var whole := s + [c] + t;
    if |t| > 0 {
      assert whole[..|whole| - 1] == s + [c] + t[..|t| - 1];
      AfterLastOfTail(s, c, t[..|t| - 1]);
      assert t[..|t| - 1] + [t[|t| - 1]] == t;
    }
  }

  /** Every preset label selects its own code. */
  lemma PresetsRoundTrip(typed: string)
    ensures forall i :: 0 <= i < |RegionPresets| ==>
              SelectedRegion(DisplayOptions()[i], typed) == RegionPresets[i].0
  {
    forall i | 0 <= i < |RegionPresets|
      ensures SelectedRegion(DisplayOptions()[i], typed) == RegionPresets[i].0
    {
      var code := RegionPresets[i].0;
      var shown := DisplayOptions()[i];
      assert shown[|shown| - 1] == ')';
      assert CustomOption[|CustomOption| - 1] == '.';
      LabelRoundTrip(code, RegionPresets[i].1);
    }
  }
}
