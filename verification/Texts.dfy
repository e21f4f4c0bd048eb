/** Texts occurring in texts. */
module Texts {
  predicate OccursAt(s: string, part: string, i: int) {
    0 <= i <= |s| - |part| && s[i..i + |part|] == part
  }

  predicate Contains(s: string, part: string) {
    exists i :: 0 <= i <= |s| && OccursAt(s, part, i)
  }

  lemma ContainsPart(before: string, part: string, after: string)
    ensures Contains(before + part + after, part)
  {
    assert OccursAt(before + part + after, part, |before|);
  }

  lemma ContainsEnds(s: string)
    ensures Contains(s, "") && Contains(s, s)
  {
    assert s[0..0] == "" && s[0..|s|] == s;
    assert OccursAt(s, "", 0) && OccursAt(s, s, 0);
  }

  lemma ContainsTrans(c: string, b: string, a: string)
    requires Contains(c, b) && Contains(b, a)
    ensures Contains(c, a)
  {
    var i :| 0 <= i <= |b| && OccursAt(b, a, i);
    var j :| 0 <= j <= |c| && OccursAt(c, b, j);
    forall k | 0 <= k < |a| ensures c[j + i + k] == a[k] {
      assert a[k] == b[i..i + |a|][k] && b[i + k] == c[j..j + |b|][i + k];
    }
    assert c[j + i..j + i + |a|] == a;
    assert OccursAt(c, a, j + i);
  }

  lemma ContainsSuffix(s: string, k: nat, part: string)
    requires k <= |s| && Contains(s[k..], part)
    ensures Contains(s, part)
  {
    var i :| 0 <= i <= |s[k..]| && OccursAt(s[k..], part, i);
    assert s[k..][i..i + |part|] == s[k + i..k + i + |part|];
    assert OccursAt(s, part, k + i);
  }
}
