/**
 Two of the scores that feed the overall one: how well requirements are grounded in evidence, and how
 many requirements repeat an earlier one.
 */
module ComponentScores {
  import opened Reals
  import opened Wrappers
  import Score = QualityScore

  datatype Support = Support(evidence: seq<real>, quoteScore: Option<real>, needsReview: bool)

  function Clamped(x: real): (r: real)
    ensures 0.0 <= r <= 1.0
  {
    RealMax(0.0, RealMin(1.0, x))
  }

  /** The strongest evidence, each clamped to the unit interval; nothing supports nothing. */
  function Strongest(evidence: seq<real>): (r: real)
    ensures 0.0 <= r <= 1.0
  {
    if evidence == [] then 0.0
    else RealMax(Strongest(evidence[..|evidence| - 1]), Clamped(evidence[|evidence| - 1]))
  }

  function Groundedness(s: Support): real {
    var strongest := Strongest(s.evidence);
    var quoted := if s.quoteScore.Some? then RealMax(strongest, Clamped(s.quoteScore.value)) else strongest;
    var assumed := if quoted == 0.0 && s.evidence != [] && s.quoteScore.None? then 0.5 else quoted;
    if s.needsReview then assumed * 0.8 else assumed
  }

  function Total(supports: seq<Support>): real {
    if supports == [] then 0.0 else Total(supports[..|supports| - 1]) + Groundedness(supports[|supports| - 1])
  }

  function Mean(supports: seq<Support>): real {
    if supports == [] then 0.0 else Total(supports) / |supports| as real
  }

  /** A requirement needing review is grounded at most to four fifths, and any other at least as well as its best evidence. */
  lemma GroundednessRange(s: Support)
    ensures 0.0 <= Groundedness(s) <= if s.needsReview then 0.8 else 1.0
    ensures !s.needsReview ==> forall i :: 0 <= i < |s.evidence| ==> Clamped(s.evidence[i]) <= Groundedness(s)
  {
    StrongestIsStrongest(s.evidence);
    hide Strongest;
  }

  lemma {:induction false} StrongestIsStrongest(evidence: seq<real>)
    ensures forall i :: 0 <= i < |evidence| ==> Clamped(evidence[i]) <= Strongest(evidence)
  {
    if evidence != [] {
      StrongestIsStrongest(evidence[..|evidence| - 1]);
    }
  }

  lemma {:induction false} TotalRange(supports: seq<Support>)
    ensures 0.0 <= Total(supports) <= |supports| as real
  {
    if supports != [] {
      TotalRange(supports[..|supports| - 1]);
      GroundednessRange(supports[|supports| - 1]);
      hide Groundedness;
    }
  }

  lemma AboveOne(q: real, n: real)
    requires n > 0.0 && q > 1.0
    ensures q * n > n
  {
    ProductPositive(q - 1.0, n);
    assert (q - 1.0) * n == q * n - n;
  }

  lemma BelowZero(q: real, n: real)
    requires n > 0.0 && q < 0.0
    ensures q * n < 0.0
  {
    ProductPositive(-q, n);
    assert (-q) * n == -(q * n);
  }

  lemma QuotientRange(x: real, n: real)
    requires 0.0 <= x <= n && n > 0.0
    ensures 0.0 <= x / n <= 1.0
  {
    var q := x / n;
    assert q * n == x;
    if q > 1.0 {
      AboveOne(q, n);
    }
    if q < 0.0 {
      BelowZero(q, n);
    }
  }

  /** The mean groundedness is in the unit interval. */
  lemma MeanRange(supports: seq<Support>)
    ensures Score.Unit(Mean(supports))
  {
    TotalRange(supports);
    if supports != [] {
      QuotientRange(Total(supports), |supports| as real);
    }
  }

  // ---------- what groundedness is ----------

  /** Support within the unit interval. */
  predicate Limited(x: real, r: real) {
    (0.0 <= x <= 1.0 && r == x) || (x < 0.0 && r == 0.0) || (x > 1.0 && r == 1.0)
  }

  ghost predicate Measured(s: Support, x: real) {
    x in s.evidence || s.quoteScore == Some(x)
  }

  lemma ClampedLimited(x: real)
    ensures Limited(x, Clamped(x))
  {
  }

  lemma {:induction false} StrongestAttained(evidence: seq<real>)
    ensures Strongest(evidence) > 0.0 ==> exists x :: x in evidence && Clamped(x) == Strongest(evidence)
  {
    hide Clamped;
    if evidence != [] {
      var front, last := evidence[..|evidence| - 1], evidence[|evidence| - 1];
      StrongestAttained(front);
      assert last in evidence;
      if x :| x in front && Clamped(x) == Strongest(front) {
        assert x in evidence;
      }
    }
  }

  /**
   Without a review, a requirement is as well grounded as its best measured support. Where none is
   positive it counts half if it cites evidence whose support was never measured by a quote, and nothing otherwise.
   */
  lemma GroundednessIs(s: Support)
    requires !s.needsReview
    ensures (exists x :: Measured(s, x) && x > 0.0) ==>
      && (exists x :: Measured(s, x) && Limited(x, Groundedness(s)))
      && (forall x :: Measured(s, x) && x <= 1.0 ==> x <= Groundedness(s))
      && (forall x :: Measured(s, x) && x > 1.0 ==> Groundedness(s) == 1.0)
    ensures (forall x :: Measured(s, x) ==> x <= 0.0) ==>
      Groundedness(s) == if s.evidence != [] && s.quoteScore == None then 0.5 else 0.0
  {
    StrongestAttained(s.evidence);
    StrongestIsStrongest(s.evidence);
    forall x ensures Limited(x, Clamped(x)) {
      ClampedLimited(x);
    }
    hide Strongest, Clamped;
    forall x | x in s.evidence ensures Clamped(x) <= Strongest(s.evidence) {
      var i :| 0 <= i < |s.evidence| && s.evidence[i] == x;
    }
    if s.quoteScore.Some? {
      assert Measured(s, s.quoteScore.value);
    }
    if Strongest(s.evidence) > 0.0 {
      var x :| x in s.evidence && Clamped(x) == Strongest(s.evidence);
      assert Measured(s, x);
    }
  }

  /** A review takes a fifth away. */
  lemma ReviewTakesAFifth(s: Support)
    ensures Groundedness(s.(needsReview := true)) == 0.8 * Groundedness(s.(needsReview := false))
  {
    hide Strongest, Clamped;
  }

  // ---------- repeated requirements ----------

  type Tokens = set<string>

  function Smaller(a: Tokens, b: Tokens): nat {
    if |a| < |b| then |a| else |b|
  }

  /** Nearly the same tokens, or most of the smaller set in the larger. */
  predicate Close(a: Tokens, b: Tokens) {
    || (|a + b| > 0 && |a * b| as real >= 0.90 * |a + b| as real)
    || (Smaller(a, b) >= 4 && |a * b| as real >= 0.82 * Smaller(a, b) as real)
  }

  /** Nine tenths of all tokens shared, or 0.82 of those of a side when both have four. */
  lemma CloseIff(a: Tokens, b: Tokens)
    ensures Close(a, b) <==>
      || (a + b != {} && 10 * |a * b| >= 9 * |a + b|)
      || (|a| >= 4 && |b| >= 4 && (50 * |a * b| >= 41 * |a| || 50 * |a * b| >= 41 * |b|))
  {
  }

  lemma CloseSymmetric(a: Tokens, b: Tokens)
    ensures Close(a, b) <==> Close(b, a)
  {
    assert a + b == b + a && a * b == b * a;
  }

  /** The requirement at `i` repeats the earlier one at `j`. */
  predicate Repeats(texts: seq<Tokens>, i: nat, j: nat) {
    j < i < |texts| && texts[i] != {} && Close(texts[i], texts[j])
  }

  predicate Repeated(texts: seq<Tokens>, i: nat) {
    exists j :: 0 <= j < i && Repeats(texts, i, j)
  }

  function Duplicates(texts: seq<Tokens>, n: nat): nat {
    if n == 0 then 0 else Duplicates(texts, n - 1) + if Repeated(texts, n - 1) then 1 else 0
  }

  ghost predicate CloseToEarlier(texts: seq<Tokens>, i: nat) {
    exists j :: 0 <= j < i < |texts| && Close(texts[i], texts[j])
  }

  /** The requirements with tokens close to those of an earlier one. */
  ghost function AllCloseToEarlier(texts: seq<Tokens>, n: nat): set<nat> {
    set i: nat | i < n && CloseToEarlier(texts, i)
  }

  lemma NothingIsClose(a: Tokens, b: Tokens)
    ensures Close(a, b) ==> a != {}
  {
    if a == {} {
      assert a * b == {} && a + b == b;
    }
  }

  lemma RepeatedIff(texts: seq<Tokens>, i: nat)
    ensures Repeated(texts, i) <==> CloseToEarlier(texts, i)
  {
    hide Close;
    if j :| 0 <= j < i < |texts| && Close(texts[i], texts[j]) {
      NothingIsClose(texts[i], texts[j]);
      assert Repeats(texts, i, j);
    }
  }

  /** What is counted are exactly these. */
  lemma {:induction false} DuplicatesCount(texts: seq<Tokens>, n: nat)
    requires n <= |texts|
    ensures Duplicates(texts, n) == |AllCloseToEarlier(texts, n)|
  {
    hide Repeated, CloseToEarlier, AllCloseToEarlier;
    if n > 0 {
      DuplicatesCount(texts, n - 1);
      RepeatedIff(texts, n - 1);
      OneMoreClose(texts, n - 1);
    } else {
      NoneClose(texts);
    }
  }

  lemma NoneClose(texts: seq<Tokens>)
    ensures AllCloseToEarlier(texts, 0) == {}
  {
  }

  lemma OneMoreClose(texts: seq<Tokens>, n: nat)
    ensures |AllCloseToEarlier(texts, n + 1)| == |AllCloseToEarlier(texts, n)| + if CloseToEarlier(texts, n) then 1 else 0
  {
    hide CloseToEarlier;
    if CloseToEarlier(texts, n) {
      assert AllCloseToEarlier(texts, n + 1) == AllCloseToEarlier(texts, n) + {n};
    } else {
      assert AllCloseToEarlier(texts, n + 1) == AllCloseToEarlier(texts, n);
    }
  }

  /** The first requirement repeats nothing, so never all are duplicates. */
  lemma {:induction false} NeverAllDuplicates(texts: seq<Tokens>, n: nat)
    requires 0 < n
    ensures Duplicates(texts, n) < n
  {
    hide Repeats;
    if n > 1 {
      NeverAllDuplicates(texts, n - 1);
    } else {
      assert !Repeated(texts, 0);
    }
  }

  /** No duplicates are counted exactly when no two requirements with any tokens are close. */
  lemma {:induction false} NoDuplicatesIffApart(texts: seq<Tokens>, n: nat)
    requires n <= |texts|
    ensures Duplicates(texts, n) == 0 <==> forall i: nat, j: nat :: i < n ==> !Repeats(texts, i, j)
  {
    hide Repeats;
    if n > 0 {
      NoDuplicatesIffApart(texts, n - 1);
      if i: nat, j: nat :| i < n && Repeats(texts, i, j) {
        RepeatsEarlier(texts, i, j);
        assert i == n - 1 ==> Repeated(texts, n - 1);
      }
      if Repeated(texts, n - 1) {
        var j :| 0 <= j < n - 1 && Repeats(texts, n - 1, j);
      }
    }
  }

  lemma RepeatsEarlier(texts: seq<Tokens>, i: nat, j: nat)
    requires Repeats(texts, i, j)
    ensures j < i
  {
  }

  method CountDuplicates(texts: seq<Tokens>) returns (duplicates: nat)
    ensures duplicates == Duplicates(texts, |texts|)
  {
    hide Close;
    var prior: seq<Tokens> := [];
    duplicates := 0;
    for i := 0 to |texts|
      invariant prior == texts[..i] && duplicates == Duplicates(texts, i)
    {
      var tokens := texts[i];
      if tokens == {} {
        prior := prior + [tokens];
        continue;
      }
      var duplicate := false;
      for j := 0 to |prior|
        invariant !duplicate && forall k :: 0 <= k < j ==> !Repeats(texts, i, k)
      {
        if Close(tokens, prior[j]) {
          assert Repeats(texts, i, j);
          duplicate := true;
          break;
        }
      }
      if duplicate {
        duplicates := duplicates + 1;
      }
      prior := prior + [tokens];
    }
  }
}
