/** Stripping blanks from both ends of a text. Which characters are blank is a parameter. */
module Stripping {

  function StripLeft(s: string, blank: char -> bool): string {
    if s != "" && blank(s[0]) then StripLeft(s[1..], blank) else s
  }

  function StripRight(s: string, blank: char -> bool): string {
    if s != "" && blank(s[|s| - 1]) then StripRight(s[..|s| - 1], blank) else s
  }

  function Strip(s: string, blank: char -> bool): string {
    StripRight(StripLeft(s, blank), blank)
  }

  lemma {:induction false} StripLeftIs(s: string, blank: char -> bool)
    ensures var t := StripLeft(s, blank);
      && |t| <= |s| && t == s[|s| - |t|..]
      && (forall i :: 0 <= i < |s| - |t| ==> blank(s[i]))
      && (t != "" ==> !blank(t[0]))
  {
    if s != "" && blank(s[0]) {
      StripLeftIs(s[1..], blank);
      assert forall i :: 1 <= i < |s| ==> s[i] == s[1..][i - 1];
    }
  }

  lemma {:induction false} StripRightIs(s: string, blank: char -> bool)
    ensures var t := StripRight(s, blank);
      && |t| <= |s| && t == s[..|t|]
      && (forall i :: |t| <= i < |s| ==> blank(s[i]))
      && (t != "" ==> !blank(t[|t| - 1]))
  {
    if s != "" && blank(s[|s| - 1]) {
      StripRightIs(s[..|s| - 1], blank);
    }
  }

  /** A stripped text neither begins nor ends with a blank, and begins where the blanks in front of it end. */
  lemma StripIs(s: string, blank: char -> bool)
    ensures var t, skipped := Strip(s, blank), |s| - |StripLeft(s, blank)|;
      && 0 <= skipped <= |s| - |t| && t == s[skipped..skipped + |t|]
      && (t != "" ==> !blank(t[0]) && !blank(t[|t| - 1]))
      && (forall i :: 0 <= i < skipped ==> blank(s[i]))
      && (t == "" <==> forall i :: 0 <= i < |s| ==> blank(s[i]))
  {
    var left := StripLeft(s, blank);
    StripLeftIs(s, blank);
    StripRightIs(left, blank);
    hide StripLeft, StripRight;
    var t, skipped := Strip(s, blank), |s| - |left|;
    assert forall i :: 0 <= i < |left| ==> left[i] == s[skipped + i];
    assert t == "" ==> left == "";
  }

  /** A text whose first and last characters are not blank. */
  ghost predicate Trim(s: string, blank: char -> bool) {
    s != "" ==> !blank(s[0]) && !blank(s[|s| - 1])
  }

  ghost predicate AllBlank(s: string, blank: char -> bool) {
    forall i :: 0 <= i < |s| ==> blank(s[i])
  }

  /** Every text is a trimmed one between blanks, and stripping finds it. */
  lemma StripParts(s: string, blank: char -> bool) returns (before: string, after: string)
    ensures s == before + Strip(s, blank) + after
    ensures AllBlank(before, blank) && AllBlank(after, blank) && Trim(Strip(s, blank), blank)
  {
    var left := StripLeft(s, blank);
    StripLeftIs(s, blank);
    StripRightIs(left, blank);
    StripIs(s, blank);
    hide StripLeft, StripRight;
    before, after := s[..|s| - |left|], left[|Strip(s, blank)|..];
    assert s == before + left;
    assert left == Strip(s, blank) + after;
  }

  lemma {:induction false} StripLeftOf(before: string, rest: string, blank: char -> bool)
    requires AllBlank(before, blank)
    ensures StripLeft(before + rest, blank) == StripLeft(rest, blank)
  {
    if before == "" {
      assert before + rest == rest;
    } else {
      assert (before + rest)[1..] == before[1..] + rest;
      StripLeftOf(before[1..], rest, blank);
    }
  }

  lemma {:induction false} StripRightOf(rest: string, after: string, blank: char -> bool)
    requires AllBlank(after, blank)
    ensures StripRight(rest + after, blank) == StripRight(rest, blank)
  {
    if after == "" {
      assert rest + after == rest;
    } else {
      assert (rest + after)[..|rest + after| - 1] == rest + after[..|after| - 1];
      StripRightOf(rest, after[..|after| - 1], blank);
    }
  }

  /** A trimmed text between blanks is what stripping leaves. */
  lemma StripOf(before: string, core: string, after: string, blank: char -> bool)
    requires AllBlank(before, blank) && AllBlank(after, blank) && Trim(core, blank)
    ensures Strip(before + core + after, blank) == core
  {
    assert before + core + after == before + (core + after);
    StripLeftOf(before, core + after, blank);
    if core == "" {
      assert core + after == after + "";
      StripLeftOf(after, "", blank);
    } else {
      assert StripLeft(core + after, blank) == core + after;
      StripRightOf(core, after, blank);
      assert StripRight(core, blank) == core;
    }
  }

  /** Blanks around a text make no difference to what stripping leaves. */
  lemma StripIgnoresOuterBlanks(before: string, s: string, after: string, blank: char -> bool)
    requires AllBlank(before, blank) && AllBlank(after, blank)
    ensures Strip(before + s + after, blank) == Strip(s, blank)
  {
    var b, a := StripParts(s, blank);
    assert before + s + after == (before + b) + Strip(s, blank) + (a + after);
    assert AllBlank(before + b, blank) && AllBlank(a + after, blank);
    hide Strip;
    StripOf(before + b, Strip(s, blank), a + after, blank);
  }
}
