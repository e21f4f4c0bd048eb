/** What folding requirements together keeps: the laws of `Merge` and `MergeAll`. */
module MergeLaws {
  import opened Priorities
  import opened Texts
  import opened Wrappers
  import opened Requirements
  import opened Canonicalize

  /** Every part is represented in the merged requirement. */
  ghost predicate Covers(m: Req, x: Req) {
    && Keys(x.evidence) <= Keys(m.evidence)
    && x.confidence <= m.confidence
    && PriorityRank(x.priority) <= PriorityRank(m.priority)
    && DispositionRank(x.disposition) <= DispositionRank(m.disposition)
    && (x.needsReview ==> m.needsReview)
    && (forall l :: l in x.candidateLabels ==> l in m.candidateLabels)
    && ClassificationCovers(m.classification, x.classification)
    && DetailsCover(m, x)
  }

  /** Of classified requirements, labels and confidence of the classification survive too. */
  ghost predicate ClassificationCovers(m: Classification, x: Classification) {
    m.Classified? && x.Classified? ==> x.confidence <= m.confidence && forall l :: l in x.labels ==> l in m.labels
  }

  /** An actor or goal is named if the part names one, an explicit part makes it explicit, and review notes stay readable. */
  ghost predicate DetailsCover(m: Req, x: Req) {
    && (OrEmpty(x.actor) != "" ==> OrEmpty(m.actor) != "")
    && (OrEmpty(x.goal) != "" ==> OrEmpty(m.goal) != "")
    && (x.extractionType == Some(Explicit) ==> m.extractionType == Some(Explicit))
    && Contains(OrEmpty(m.reviewReason), OrEmpty(x.reviewReason))
  }

  lemma ReasonsOccur(base: Option<string>, other: Option<string>)
    ensures Contains(OrEmpty(MergeReasons(base, other)), OrEmpty(base)) && Contains(OrEmpty(MergeReasons(base, other)), OrEmpty(other))
  {
    hide Contains;
    var b, o := OrEmpty(base), OrEmpty(other);
    ContainsEnds(b);
    ContainsEnds(o);
    if b != "" && o != "" {
      ContainsPart("", b, " " + o);
      ContainsPart(b + " ", o, "");
      assert "" + b + (" " + o) == b + " " + o && b + " " + o + "" == b + " " + o;
    }
  }

  /** The merged requirement holds nothing that no part holds. */
  ghost predicate DrawnFrom(m: Req, parts: seq<Req>) {
    && (forall e :: e in m.evidence ==> SomeCites(parts, e))
    && (forall l :: l in m.candidateLabels ==> SomeLabelled(parts, l))
    && (exists k :: 0 <= k < |parts| && m.confidence == parts[k].confidence)
    && (exists k :: 0 <= k < |parts| && m.priority == parts[k].priority)
    && (exists k :: 0 <= k < |parts| && m.disposition == parts[k].disposition)
    && (m.needsReview ==> exists k :: 0 <= k < |parts| && parts[k].needsReview)
    && (m.classification.Classified? ==> ClassificationDrawn(m.classification, parts))
  }

  /** Labels and confidence of a classification come from classified parts. */
  ghost predicate ClassificationDrawn(m: Classification, parts: seq<Req>)
    requires m.Classified?
  {
    && (forall l :: l in m.labels ==> SomeClassified(parts, l))
    && (exists k :: 0 <= k < |parts| && parts[k].classification.Classified? && m.confidence == parts[k].classification.confidence)
  }

  ghost predicate SomeClassified(parts: seq<Req>, l: string) {
    exists k :: 0 <= k < |parts| && parts[k].classification.Classified? && l in parts[k].classification.labels
  }

  ghost predicate SomeCites(parts: seq<Req>, e: Evidence) {
    exists k :: 0 <= k < |parts| && e in parts[k].evidence
  }

  ghost predicate SomeLabelled(parts: seq<Req>, l: string) {
    exists k :: 0 <= k < |parts| && l in parts[k].candidateLabels
  }

  lemma MergeCovers(base: Req, other: Req)
    ensures Covers(Merge(base, other), base) && Covers(Merge(base, other), other)
    ensures forall e :: e in Merge(base, other).evidence ==> e in base.evidence || e in other.evidence
    ensures forall l :: l in Merge(base, other).candidateLabels ==> l in base.candidateLabels || l in other.candidateLabels
    ensures Merge(base, other).classification.Classified? == base.classification.Classified?
  {
    hide Keys, AddEvidence, AddLabels, Contains, MergeReasons;
    AddEvidenceExact(base.evidence, other.evidence);
    AddLabelsExact(base.candidateLabels, other.candidateLabels);
    ReasonsOccur(base.reviewReason, other.reviewReason);
    ContainsEnds(OrEmpty(base.reviewReason));
    if base.classification.Classified? && other.classification.Classified? {
      AddLabelsExact(base.classification.labels, other.classification.labels);
    }
  }

  lemma CoversTrans(a: Req, b: Req, c: Req)
    requires Covers(a, b) && Covers(b, c) && a.classification.Classified? == b.classification.Classified?
    ensures Covers(a, c)
  {
    hide Keys, Contains;
    ContainsTrans(OrEmpty(a.reviewReason), OrEmpty(b.reviewReason), OrEmpty(c.reviewReason));
  }

  lemma {:induction false} MergeAllCovers(base: Req, others: seq<Req>)
    ensures Covers(MergeAll(base, others), base)
    ensures forall k :: 0 <= k < |others| ==> Covers(MergeAll(base, others), others[k])
    ensures MergeAll(base, others).classification.Classified? == base.classification.Classified?
    decreases others
  {
    hide Covers, Merge;
    if others == [] {
      SelfCovers(base);
    } else {
      var next, m := Merge(base, others[0]), MergeAll(base, others);
      MergeCovers(base, others[0]);
      MergeAllCovers(next, others[1..]);
      CoversTrans(m, next, base);
      forall k | 0 <= k < |others| ensures Covers(m, others[k]) {
        if k == 0 {
          CoversTrans(m, next, others[0]);
        } else {
          assert others[k] == others[1..][k - 1];
        }
      }
    }
  }

  lemma SelfCovers(base: Req)
    ensures Covers(base, base)
  {
    ContainsEnds(OrEmpty(base.reviewReason));
  }

  lemma DrawnFromSelf(base: Req)
    ensures DrawnFrom(base, [base])
  {
    assert [base][0] == base;
    hide Keys;
  }

  lemma DrawnFromMerge(base: Req, other: Req, rest: seq<Req>, m: Req)
    requires DrawnFrom(m, [Merge(base, other)] + rest)
    ensures DrawnFrom(m, [base, other] + rest)
  {
    var next, parts := Merge(base, other), [base, other] + rest;
    var inner := [next] + rest;
    MergeCovers(base, other);
    forall e | e in m.evidence ensures SomeCites(parts, e) {
      assert SomeCites(inner, e);
      var k :| 0 <= k < |inner| && e in inner[k].evidence;
      assert k > 0 ==> inner[k] == parts[k + 1];
      assert e in parts[0].evidence || e in parts[1].evidence || (k > 0 && e in parts[k + 1].evidence);
    }
    forall l | l in m.candidateLabels ensures SomeLabelled(parts, l) {
      assert SomeLabelled(inner, l);
      var k :| 0 <= k < |inner| && l in inner[k].candidateLabels;
      assert k > 0 ==> inner[k] == parts[k + 1];
      assert l in parts[0].candidateLabels || l in parts[1].candidateLabels || (k > 0 && l in parts[k + 1].candidateLabels);
    }
    assert parts[0] == base && parts[1] == other;
    FromInner(base, other, rest, m);
    if m.classification.Classified? {
      ClassificationFromInner(base, other, rest, m.classification);
    }
  }

  lemma ClassificationFromInner(base: Req, other: Req, rest: seq<Req>, m: Classification)
    requires m.Classified? && ClassificationDrawn(m, [Merge(base, other)] + rest)
    ensures ClassificationDrawn(m, [base, other] + rest)
  {
    var inner, parts := [Merge(base, other)] + rest, [base, other] + rest;
    var merged := MergeClassification(base.classification, other.classification);
    assert inner[0].classification == merged && parts[0] == base && parts[1] == other;
    assert forall k :: 0 < k < |inner| ==> inner[k] == parts[k + 1];
    if base.classification.Classified? && other.classification.Classified? {
      AddLabelsExact(base.classification.labels, other.classification.labels);
    }
    hide AddLabels, Merge;
    forall l | l in m.labels ensures SomeClassified(parts, l) {
      assert SomeClassified(inner, l);
      var k :| 0 <= k < |inner| && inner[k].classification.Classified? && l in inner[k].classification.labels;
      if k == 0 {
        assert l in parts[0].classification.labels || (parts[1].classification.Classified? && l in parts[1].classification.labels);
      } else {
        assert l in parts[k + 1].classification.labels;
      }
    }
    var k :| 0 <= k < |inner| && inner[k].classification.Classified? && m.confidence == inner[k].classification.confidence;
    assert k > 0 ==> parts[k + 1].classification == inner[k].classification;
  }

  lemma FromInner(base: Req, other: Req, rest: seq<Req>, m: Req)
    requires DrawnFrom(m, [Merge(base, other)] + rest)
    ensures var parts := [base, other] + rest;
      && (exists k :: 0 <= k < |parts| && m.confidence == parts[k].confidence)
      && (exists k :: 0 <= k < |parts| && m.priority == parts[k].priority)
      && (exists k :: 0 <= k < |parts| && m.disposition == parts[k].disposition)
      && (m.needsReview ==> exists k :: 0 <= k < |parts| && parts[k].needsReview)
  {
    hide AddEvidence, AddLabels, SomeCites, SomeLabelled;
    var inner, parts := [Merge(base, other)] + rest, [base, other] + rest;
    assert parts[0] == base && parts[1] == other;
    assert forall k :: 0 < k < |inner| ==> inner[k] == parts[k + 1];
    var a :| 0 <= a < |inner| && m.confidence == inner[a].confidence;
    var b :| 0 <= b < |inner| && m.priority == inner[b].priority;
    var c :| 0 <= c < |inner| && m.disposition == inner[c].disposition;
    if m.needsReview {
      var d :| 0 <= d < |inner| && inner[d].needsReview;
    }
  }

  /** A fold invents nothing: each citation, label and rank comes from one of its parts. */
  lemma {:induction false} MergeAllDrawn(base: Req, others: seq<Req>)
    ensures DrawnFrom(MergeAll(base, others), [base] + others)
    decreases others
  {
    hide DrawnFrom, Merge;
    if others == [] {
      DrawnFromSelf(base);
      assert [base] + others == [base];
    } else {
      var next := Merge(base, others[0]);
      MergeAllDrawn(next, others[1..]);
      DrawnFromMerge(base, others[0], others[1..], MergeAll(base, others));
      assert [base, others[0]] + others[1..] == [base] + others;
    }
  }

  /** The survivor keeps the identity and wording of the requirement the others fold into. */
  lemma {:induction false} MergeAllKeeps(base: Req, others: seq<Req>)
    ensures var m := MergeAll(base, others);
      && m.id == base.id && m.text == base.text
      && (OrEmpty(base.actor) != "" ==> m.actor == base.actor)
      && (OrEmpty(base.goal) != "" ==> m.goal == base.goal)
      && base.evidence <= m.evidence
      && m.classification.Classified? == base.classification.Classified?
    decreases others
  {
    if others != [] {
      AddEvidenceExact(base.evidence, others[0].evidence);
      MergeAllKeeps(Merge(base, others[0]), others[1..]);
    }
  }
}
