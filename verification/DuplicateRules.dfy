/**
 What makes two requirements duplicates, said of their normal forms, fact sets, documents and actor names
 alone, and what that means for a requirement unlike all others.
 */
module DuplicateRules {
  import opened Reals
  import opened Wrappers
  import opened Requirements
  import opened Connectivity
  import opened Clustering
  import opened Canonicalize
  import opened CanonicalizePass
  import opened CanonicalProperties
  import opened CanonicalStability

  // ---------- wording ----------

  predicate SameNormal(t: Text, a: Req, b: Req) {
    t.normalize(a.text) == t.normalize(b.text) && t.normalize(a.text) != ""
  }

  /** At least four facts on each side, and four fifths of all of them shared. */
  predicate MostShared(t: Text, a: Req, b: Req) {
    var x, y := t.facts(a.text), t.facts(b.text);
    |x| >= 4 && |y| >= 4 && 5 * |x * y| >= 4 * |x + y|
  }

  /** The larger text joins clauses, and shares at least four facts and three fifths of the smaller one. */
  predicate PartOf(t: Text, small: Req, large: Req) {
    var x, y := t.facts(small.text), t.facts(large.text);
    4 <= |x| < |y| && t.composite(large.text) && |x * y| >= 4 && 5 * |x * y| >= 3 * |x|
  }

  // ---------- actors ----------

  predicate AllS(s: string) {
    forall i :: 0 <= i < |s| ==> s[i] == 's'
  }

  /** The names differ in trailing letters s at most. */
  ghost predicate OneName(x: string, y: string) {
    exists stem, m, n :: Variants(x, y, stem, m, n)
  }

  predicate Variants(x: string, y: string, stem: string, m: string, n: string) {
    AllS(m) && AllS(n) && x == stem + m && y == stem + n
  }

  predicate Names(t: Text, a: Req, name: string) {
    a.actor.Some? && a.actor.value != "" && t.normActor(a.actor.value) == name && name != ""
  }

  /** Both name an actor, by different names, and not both a technical component. */
  ghost predicate DifferentActors(t: Text, a: Req, b: Req) {
    exists x, y :: Names(t, a, x) && Names(t, b, y) && !OneName(x, y) && !(t.technical(x) && t.technical(y))
  }

  // ---------- sources ----------

  predicate Cites(a: Req, e: Evidence) {
    e in a.evidence && e.documentId.Some? && e.documentId.value != ""
  }

  ghost predicate CitesNone(a: Req) {
    forall e :: !Cites(a, e)
  }

  ghost predicate CommonDocument(a: Req, b: Req) {
    exists e, f :: Cites(a, e) && Cites(b, f) && e.documentId == f.documentId
  }

  /** Both name a goal, and three quarters of all facts of the two goals are shared. */
  predicate GoalsAgree(t: Text, a: Req, b: Req) {
    var x, y := t.facts(a.goal.GetOr("")), t.facts(b.goal.GetOr(""));
    x != {} && y != {} && 4 * |x * y| >= 3 * |x + y|
  }

  /** One cites no document, or they share one, or they read the same, or actor and goal vouch for them. */
  ghost predicate SourcesAgree(t: Text, a: Req, b: Req) {
    || CitesNone(a) || CitesNone(b) || CommonDocument(a, b)
    || t.normalize(a.text) == t.normalize(b.text)
    || (!DifferentActors(t, a, b) && GoalsAgree(t, a, b))
  }

  predicate OneAcceptedOneRejected(a: Req, b: Req) {
    (a.disposition == Accepted && b.disposition == Rejected) || (a.disposition == Rejected && b.disposition == Accepted)
  }

  // ---------- the rules are these ----------

  lemma JaccardIs(a: set<string>, b: set<string>)
    ensures a + b != {} ==> (Jaccard(a, b) >= 0.8 <==> 5 * |a * b| >= 4 * |a + b|)
    ensures a + b != {} ==> (Jaccard(a, b) >= 0.75 <==> 4 * |a * b| >= 3 * |a + b|)
  {
    if a + b != {} {
      Quotient(|a * b|, |a + b|);
    }
  }

  lemma TimesKeepsOrder(x: real, y: real, d: real)
    requires d > 0.0
    ensures x >= y <==> x * d >= y * d
  {
    if x >= y {
      ProductNonNegative(x - y, d);
    } else {
      ProductPositive(y - x, d);
    }
  }

  /** A quotient is at least a bound exactly when the dividend is at least that part of the divisor. */
  lemma AtLeastTimes(x: real, y: real, bound: real)
    requires y > 0.0
    ensures x / y >= bound <==> x >= bound * y
  {
    TimesQuotient(x, y);
    TimesKeepsOrder(x / y, bound, y);
  }

  lemma TimesQuotient(x: real, y: real)
    requires y > 0.0
    ensures x / y * y == x
  {
  }

  lemma Quotient(n: nat, d: nat)
    requires d > 0
    ensures n as real / d as real >= 0.8 <==> 5 * n >= 4 * d
    ensures n as real / d as real >= 0.75 <==> 4 * n >= 3 * d
    ensures n as real / d as real >= 0.60 <==> 5 * n >= 3 * d
  {
    AtLeastTimes(n as real, d as real, 0.8);
    AtLeastTimes(n as real, d as real, 0.75);
    AtLeastTimes(n as real, d as real, 0.60);
  }

  lemma {:induction false} StripParts(x: string) returns (m: string)
    ensures AllS(m) && x == StripTrailingS(x) + m
  {
    if x != "" && x[|x| - 1] == 's' {
      var rest := StripParts(x[..|x| - 1]);
      m := rest + "s";
      assert x == x[..|x| - 1] + "s";
    } else {
      m := "";
    }
  }

  lemma {:induction false} StripStem(stem: string, m: string)
    requires AllS(m)
    ensures StripTrailingS(stem + m) == StripTrailingS(stem)
  {
    if m == "" {
      assert stem + m == stem;
    } else {
      var front := m[..|m| - 1];
      StripStem(stem, front);
      assert (stem + m)[..|stem + m| - 1] == stem + front;
    }
  }

  lemma OneNameIff(x: string, y: string)
    ensures OneName(x, y) <==> StripTrailingS(x) == StripTrailingS(y)
  {
    if stem, m, n :| Variants(x, y, stem, m, n) {
      StripStem(stem, m);
      StripStem(stem, n);
    }
    if StripTrailingS(x) == StripTrailingS(y) {
      var m := StripParts(x);
      var n := StripParts(y);
      assert Variants(x, y, StripTrailingS(x), m, n);
    }
  }

  lemma ActorsIff(t: Text, a: Req, b: Req)
    ensures ActorsConflict(t, a, b) <==> DifferentActors(t, a, b)
  {
    hide StripTrailingS, OneName;
    var x, y := NormActor(t, a.actor), NormActor(t, b.actor);
    OneNameIff(x, y);
    assert x != "" ==> Names(t, a, x);
    assert y != "" ==> Names(t, b, y);
  }

  lemma DocumentIff(a: Req, d: string)
    ensures d in DocumentIds(a.evidence) <==> exists e :: Cites(a, e) && e.documentId == Some(d)
  {
    if e :| Cites(a, e) && e.documentId == Some(d) {
      assert OrEmpty(e.documentId) == d;
    }
    if d in DocumentIds(a.evidence) {
      var e :| e in a.evidence && OrEmpty(e.documentId) != "" && OrEmpty(e.documentId) == d;
      assert Cites(a, e) && e.documentId == Some(d);
    }
  }

  lemma DocumentsIff(a: Req, b: Req)
    ensures DocumentIds(a.evidence) == {} <==> CitesNone(a)
    ensures DocumentIds(a.evidence) * DocumentIds(b.evidence) != {} <==> CommonDocument(a, b)
  {
    forall d
      ensures d in DocumentIds(a.evidence) <==> exists e :: Cites(a, e) && e.documentId == Some(d)
      ensures d in DocumentIds(b.evidence) <==> exists e :: Cites(b, e) && e.documentId == Some(d)
    {
      DocumentIff(a, d);
      DocumentIff(b, d);
    }
    hide DocumentIds;
    if e :| Cites(a, e) {
      assert e.documentId == Some(e.documentId.value);
    }
    if e, f :| Cites(a, e) && Cites(b, f) && e.documentId == f.documentId {
      assert e.documentId.value in DocumentIds(a.evidence) * DocumentIds(b.evidence);
    }
    if d :| d in DocumentIds(a.evidence) * DocumentIds(b.evidence) {
      var e :| Cites(a, e) && e.documentId == Some(d);
      var f :| Cites(b, f) && f.documentId == Some(d);
    }
  }

  /** When requirements from different uploads may be merged at all. */
  lemma SourcesIff(t: Text, a: Req, b: Req)
    ensures SourceIntentMatches(t, a, b) <==> SourcesAgree(t, a, b)
  {
    hide DocumentIds, CitesNone, CommonDocument, DifferentActors, ActorsConflict, Jaccard;
    DocumentsIff(a, b);
    DocumentsIff(b, a);
    ActorsIff(t, a, b);
    JaccardIs(t.facts(OrEmpty(a.goal)), t.facts(OrEmpty(b.goal)));
  }

  lemma NearIff(t: Text, a: Req, b: Req)
    ensures NearDuplicate(t, a, b) <==> MostShared(t, a, b)
  {
    hide Jaccard;
    JaccardIs(t.facts(a.text), t.facts(b.text));
  }

  lemma ContainedIff(t: Text, a: Req, b: Req)
    ensures ContainmentDuplicate(t, a, b) <==> PartOf(t, a, b) || PartOf(t, b, a)
  {
    var x, y := t.facts(a.text), t.facts(b.text);
    assert x * y == y * x;
    if |x| > 0 {
      Quotient(|x * y|, |x|);
    }
    if |y| > 0 {
      Quotient(|x * y|, |y|);
    }
  }

  /** Two requirements merge directly exactly under these wordings, decisions, sources and actors. */
  lemma MergedIff(t: Text, a: Req, b: Req)
    ensures Compare(t, a, b) == Merged <==>
      && !OneAcceptedOneRejected(a, b) && SourcesAgree(t, a, b)
      && (SameNormal(t, a, b) || PartOf(t, a, b) || PartOf(t, b, a) || (MostShared(t, a, b) && !DifferentActors(t, a, b)))
  {
    NearIff(t, a, b);
    ContainedIff(t, a, b);
    SourcesIff(t, a, b);
    ActorsIff(t, a, b);
    hide SourceIntentMatches, NearDuplicate, ContainmentDuplicate, ActorsConflict, SourcesAgree, MostShared, PartOf, DifferentActors;
  }

  /** And they are flagged for review exactly when alike without merging, or alike in wording from sources that do not agree. */
  lemma ReviewedIff(t: Text, a: Req, b: Req)
    ensures Compare(t, a, b) == DispositionConflict <==> OneAcceptedOneRejected(a, b)
    ensures Compare(t, a, b) == ActorReview <==>
      && !OneAcceptedOneRejected(a, b) && SourcesAgree(t, a, b) && MostShared(t, a, b) && DifferentActors(t, a, b)
      && !SameNormal(t, a, b) && !PartOf(t, a, b) && !PartOf(t, b, a)
    ensures Compare(t, a, b) == CrossSourceReview <==>
      && !OneAcceptedOneRejected(a, b) && !SourcesAgree(t, a, b)
      && (SameNormal(t, a, b) || MostShared(t, a, b) || PartOf(t, a, b) || PartOf(t, b, a))
  {
    NearIff(t, a, b);
    ContainedIff(t, a, b);
    SourcesIff(t, a, b);
    ActorsIff(t, a, b);
    hide SourceIntentMatches, NearDuplicate, ContainmentDuplicate, ActorsConflict, SourcesAgree, MostShared, PartOf, DifferentActors;
  }

  // ---------- requirements unlike all others ----------

  /** No other requirement has its normal form or four of its facts. */
  ghost predicate Unlike(t: Text, v: seq<Req>, i: nat) {
    i < |v| && forall j :: 0 <= j < |v| && j != i ==> Apart(t, v[i], v[j])
  }

  predicate Apart(t: Text, a: Req, b: Req) {
    && (t.normalize(a.text) == "" || t.normalize(a.text) != t.normalize(b.text))
    && |t.facts(a.text) * t.facts(b.text)| < 4
  }

  lemma ApartNotMerged(t: Text, a: Req, b: Req)
    requires Apart(t, a, b)
    ensures Compare(t, a, b) != Merged && Compare(t, b, a) != Merged
  {
    hide SourcesAgree, DifferentActors, Compare;
    MergedIff(t, a, b);
    CompareSymmetric(t, a, b);
    var x, y := t.facts(a.text), t.facts(b.text);
    assert x * y == y * x;
    AtLeastEither(x, y);
  }

  lemma AtLeastEither(x: set<string>, y: set<string>)
    ensures |x + y| >= |x|
  {
    assert x + y == x + (y - x) && x !! y - x;
  }

  lemma {:induction false} UnlikeAlone(t: Text, v: seq<Req>, i: nat, p: seq<nat>)
    requires Unlike(t, v, i) && IsChain(MergeEdges(t, v), p) && p[0] == i
    ensures p[|p| - 1] == i
  {
    if |p| > 1 {
      assert Adjacent(MergeEdges(t, v), p[0], p[0 + 1]);
      UnlikeNoEdge(t, v, i, p[1]);
    }
  }

  lemma UnlikeNoEdge(t: Text, v: seq<Req>, i: nat, j: nat)
    requires Unlike(t, v, i)
    ensures !Adjacent(MergeEdges(t, v), i, j)
  {
    hide Compare, Apart;
    if j < |v| && j != i {
      ApartNotMerged(t, v[i], v[j]);
    }
  }

  /** Nothing is connected to such a requirement. */
  lemma UnlikeUnconnected(t: Text, v: seq<Req>, i: nat, j: nat)
    requires Unlike(t, v, i) && Connected(MergeEdges(t, v), i, j)
    ensures j == i
  {
    hide MergeEdges, Unlike, IsChain;
    var p :| ChainFromTo(MergeEdges(t, v), p, i, j);
    UnlikeAlone(t, v, i, p);
  }

  lemma FirstTwo(c: seq<nat>)
    requires Ascending(c)
    ensures |c| < 2 || c[0] < c[1]
  {
  }

  lemma OnlyMember(c: seq<nat>, i: nat)
    requires Ascending(c) && i in c && forall k :: 0 <= k < |c| ==> c[k] == i
    ensures c == [i]
  {
    FirstTwo(c);
  }

  /** It is folded together with nothing, and survives as it was but for its number and review notes. */
  lemma UnlikeSurvives(t: Text, v: seq<Req>, reassign: bool, i: nat, p: nat)
    requires Unlike(t, v, i) && Home(t, v, i, p)
    ensures p < |Canonical(t, v, reassign).reqs|
    ensures forall j: nat :: j < |v| && Home(t, v, j, p) ==> j == i
    ensures Core(Canonical(t, v, reassign).reqs[p]).(id := v[i].id) == Core(v[i])
  {
    hide MergeEdges, Unlike, Connected, FlagFrom, Arranged, MergedView;
    if |v| > 1 {
      var cs, w := Arranged(t, v), FlagFrom(t, v, 0).views;
      forall j: nat | j < |v| && Home(t, v, j, p) ensures j == i {
        FoldedTogetherIffConnected(t, v, i, j, p, p);
        UnlikeUnconnected(t, v, i, j);
      }
      PartitionInRange(cs, |v|);
      forall k | 0 <= k < |cs[p]| ensures cs[p][k] == i {
        assert cs[p][k] in cs[p] && Home(t, v, cs[p][k], p);
      }
      OnlyMember(cs[p], i);
      FlagFromKeeps(t, v, 0);
      AloneView(t, w, i);
      assert Core(w[i]) == Core(v[i]);
    }
  }
}
