/**
 Extracted requirements, the pairwise duplicate rules, and the in-place merge of one
 requirement into another. The text predicates of the extraction (normal forms, token
 sets, actor names) are arbitrary functions collected in `Text`.
 */
module Requirements {
  import opened Priorities
  import opened Reals
  import opened Wrappers

  datatype Disposition = Accepted | Rejected | Deferred | Proposed | Uncertain

  datatype ExtractionType = Explicit | Implied

  datatype Evidence = Evidence(chunkId: string, quote: string, documentId: Option<string>)

  /** The extra fields of a requirement that has been classified already. */
  datatype Classification = Unclassified | Classified(labels: seq<string>, confidence: real)

  datatype Req = Req(
    id: int,
    text: string,
    actor: Option<string>,
    goal: Option<string>,
    disposition: Disposition,
    candidateLabels: seq<string>,
    confidence: real,
    evidence: seq<Evidence>,
    priority: string,
    extractionType: Option<ExtractionType>,
    needsReview: bool,
    reviewReason: Option<string>,
    classification: Classification)

  datatype Text = Text(
    normalize: string -> string,
    facts: string -> set<string>,
    meaningful: string -> set<string>,
    normActor: string -> string,
    technical: string -> bool,
    composite: string -> bool)

  // ---------- ranks ----------

  function DispositionRank(d: Disposition): int {
    match d
    case Accepted => 4
    case Deferred => 3
    case Proposed => 2
    case Uncertain => 1
    case Rejected => 0
  }

  /** From rejected over uncertain, proposed and deferred to accepted. */
  lemma DispositionOrder()
    ensures DispositionRank(Rejected) < DispositionRank(Uncertain) < DispositionRank(Proposed) < DispositionRank(Deferred) < DispositionRank(Accepted)
  {
  }

  // ---------- duplicate rules ----------

  function Jaccard(a: set<string>, b: set<string>): real {
    if a + b == {} then 0.0 else |a * b| as real / |a + b| as real
  }

  /** The text of an optional field, missing and empty alike. */
  function OrEmpty(s: Option<string>): string {
    s.GetOr("")
  }

  /** An empty actor name normalizes to the empty name. */
  function NormActor(t: Text, actor: Option<string>): string {
    if OrEmpty(actor) == "" then "" else t.normActor(OrEmpty(actor))
  }

  function StripTrailingS(s: string): string {
    if s != "" && s[|s| - 1] == 's' then StripTrailingS(s[..|s| - 1]) else s
  }

  predicate ActorsConflict(t: Text, a: Req, b: Req) {
    var na, nb := NormActor(t, a.actor), NormActor(t, b.actor);
    && na != "" && nb != "" && na != nb
    && StripTrailingS(na) != StripTrailingS(nb)
    && !(t.technical(na) && t.technical(nb))
  }

  function DocumentIds(evidence: seq<Evidence>): set<string> {
    set e | e in evidence && OrEmpty(e.documentId) != "" :: OrEmpty(e.documentId)
  }

  predicate SourceIntentMatches(t: Text, a: Req, b: Req) {
    var aDocs, bDocs := DocumentIds(a.evidence), DocumentIds(b.evidence);
    if aDocs == {} || bDocs == {} || aDocs * bDocs != {} then true
    else if t.normalize(a.text) == t.normalize(b.text) then true
    else if ActorsConflict(t, a, b) then false
    else
      var aGoal, bGoal := t.facts(OrEmpty(a.goal)), t.facts(OrEmpty(b.goal));
      aGoal != {} && bGoal != {} && Jaccard(aGoal, bGoal) >= 0.75
  }

  predicate ExactDuplicate(t: Text, a: Req, b: Req) {
    t.normalize(a.text) != "" && t.normalize(a.text) == t.normalize(b.text)
  }

  predicate NearDuplicate(t: Text, a: Req, b: Req) {
    && |t.facts(a.text)| >= 4 && |t.facts(b.text)| >= 4
    && Jaccard(t.facts(a.text), t.facts(b.text)) >= 0.8
  }

  predicate ContainmentDuplicate(t: Text, a: Req, b: Req) {
    var ta, tb := t.facts(a.text), t.facts(b.text);
    if |ta| < 4 || |tb| < 4 || |ta| == |tb| then false
    else
      var (smaller, larger, largerText) := if |ta| < |tb| then (ta, tb, b.text) else (tb, ta, a.text);
      var shared := smaller * larger;
      t.composite(largerText) && |shared| >= 4 && |shared| as real / |smaller| as real >= 0.60
  }

  datatype PairOutcome = Merged | Apart | ActorReview | CrossSourceReview | DispositionConflict

  /** What the clustering pass decides for one pair of requirements. */
  function Compare(t: Text, a: Req, b: Req): PairOutcome {
    if (a.disposition == Accepted && b.disposition == Rejected) || (a.disposition == Rejected && b.disposition == Accepted)
    then DispositionConflict
    else
      var exact, near, contained := ExactDuplicate(t, a, b), NearDuplicate(t, a, b), ContainmentDuplicate(t, a, b);
      var intent := SourceIntentMatches(t, a, b);
      if (exact || contained) && intent then Merged
      else if near && intent then (if ActorsConflict(t, a, b) then ActorReview else Merged)
      else if exact || contained || near then CrossSourceReview
      else Apart
  }

  lemma JaccardSymmetric(a: set<string>, b: set<string>)
    ensures Jaccard(a, b) == Jaccard(b, a)
  {
    assert a + b == b + a && a * b == b * a;
  }

  lemma ContainmentSymmetric(t: Text, a: Req, b: Req)
    ensures ContainmentDuplicate(t, a, b) == ContainmentDuplicate(t, b, a)
  {
    assert t.facts(a.text) * t.facts(b.text) == t.facts(b.text) * t.facts(a.text);
  }

  lemma IntentSymmetric(t: Text, a: Req, b: Req)
    ensures SourceIntentMatches(t, a, b) == SourceIntentMatches(t, b, a)
  {
    hide DocumentIds, Jaccard;
    var da, db := DocumentIds(a.evidence), DocumentIds(b.evidence);
    assert da * db == db * da;
    JaccardSymmetric(t.facts(OrEmpty(a.goal)), t.facts(OrEmpty(b.goal)));
  }

  /** The order in which a pair is visited does not matter. */
  lemma CompareSymmetric(t: Text, a: Req, b: Req)
    ensures Compare(t, a, b) == Compare(t, b, a)
  {
    hide ContainmentDuplicate, SourceIntentMatches, Jaccard;
    ContainmentSymmetric(t, a, b);
    IntentSymmetric(t, a, b);
    JaccardSymmetric(t.facts(a.text), t.facts(b.text));
  }

  // ---------- merging, on values ----------

  type EvidenceKey = (string, string)

  function Key(e: Evidence): EvidenceKey {
    (e.chunkId, e.quote)
  }

  function Keys(evidence: seq<Evidence>): set<EvidenceKey> {
    set e | e in evidence :: Key(e)
  }

  ghost predicate CitesOnce(evidence: seq<Evidence>) {
    forall i, j :: 0 <= i < j < |evidence| ==> Key(evidence[i]) != Key(evidence[j])
  }

  /** `base` followed by those of `more` whose key has not been seen. */
  function AddEvidence(base: seq<Evidence>, more: seq<Evidence>): seq<Evidence>
    decreases more
  {
    if more == [] then base
    else if Key(more[0]) in Keys(base) then AddEvidence(base, more[1..])
    else AddEvidence(base + [more[0]], more[1..])
  }

  function AddLabels(base: seq<string>, more: seq<string>): seq<string>
    decreases more
  {
    if more == [] then base
    else if more[0] in base then AddLabels(base, more[1..])
    else AddLabels(base + [more[0]], more[1..])
  }

  function HigherPriority(p: string, q: string): string {
    if PriorityRank(p) >= PriorityRank(q) then p else q
  }

  function HigherDisposition(d: Disposition, e: Disposition): Disposition {
    if DispositionRank(e) > DispositionRank(d) then e else d
  }

  function MergeClassification(base: Classification, other: Classification): Classification {
    if base.Classified? && other.Classified?
    then Classified(AddLabels(base.labels, other.labels), RealMax(base.confidence, other.confidence))
    else base
  }

  /** `base or other`, where an empty text counts as missing. */
  function Either(base: Option<string>, other: Option<string>): Option<string> {
    if OrEmpty(base) != "" then base else other
  }

  function MergeReasons(base: Option<string>, other: Option<string>): Option<string> {
    var b, o := OrEmpty(base), OrEmpty(other);
    if b == "" && o == "" then base
    else if b == "" then Some(o)
    else if o == "" || b == o then Some(b)
    else Some(b + " " + o)
  }

  function MergeExtraction(base: Option<ExtractionType>, other: Option<ExtractionType>): Option<ExtractionType> {
    if base == Some(Explicit) || other == Some(Explicit) then Some(Explicit)
    else if base.None? then other else base
  }

  function Merge(base: Req, other: Req): Req {
    base.(
      evidence := AddEvidence(base.evidence, other.evidence),
      confidence := RealMax(base.confidence, other.confidence),
      priority := HigherPriority(base.priority, other.priority),
      disposition := HigherDisposition(base.disposition, other.disposition),
      candidateLabels := AddLabels(base.candidateLabels, other.candidateLabels),
      classification := MergeClassification(base.classification, other.classification),
      actor := Either(base.actor, other.actor),
      goal := Either(base.goal, other.goal),
      extractionType := MergeExtraction(base.extractionType, other.extractionType),
      needsReview := base.needsReview || other.needsReview,
      reviewReason := MergeReasons(base.reviewReason, other.reviewReason))
  }

  /** The extraction is explicit once either was; otherwise the first known one stands. */
  lemma ExtractionKept(base: Option<ExtractionType>, other: Option<ExtractionType>)
    ensures MergeExtraction(base, other) == Some(Explicit) <==> base == Some(Explicit) || other == Some(Explicit)
    ensures MergeExtraction(base, other) == None <==> base == None && other == None
    ensures base.Some? && other != Some(Explicit) ==> MergeExtraction(base, other) == base
    ensures MergeExtraction(None, other) == other
  {
  }

  /** A further reason is added after the first, unless it is blank or says the same. */
  lemma ReasonsKept(base: Option<string>, more: string)
    ensures MergeReasons(base, None) == base
    ensures MergeReasons(base, base) == base && MergeReasons(base, Some("")) == base
    ensures more != "" ==> MergeReasons(None, Some(more)) == Some(more) && MergeReasons(Some(""), Some(more)) == Some(more)
    ensures more != "" && OrEmpty(base) != "" && OrEmpty(base) != more ==> MergeReasons(base, Some(more)) == Some(OrEmpty(base) + " " + more)
  {
  }

  /** The first of two priorities or dispositions stands unless the other ranks strictly higher. */
  lemma FirstStands(p: string, q: string, d: Disposition, e: Disposition)
    ensures HigherPriority(p, q) == q <==> p == q || PriorityRank(q) > PriorityRank(p)
    ensures HigherPriority(p, q) == p || HigherPriority(p, q) == q
    ensures HigherDisposition(d, e) == e <==> d == e || DispositionRank(e) > DispositionRank(d)
    ensures HigherDisposition(d, e) == d || HigherDisposition(d, e) == e
  {
  }

  lemma {:induction false} AddEvidenceExact(base: seq<Evidence>, more: seq<Evidence>)
    ensures base <= AddEvidence(base, more)
    ensures Keys(AddEvidence(base, more)) == Keys(base) + Keys(more)
    ensures forall e :: e in AddEvidence(base, more) ==> e in base || e in more
    decreases more
  {
    if more != [] {
      var rest := more[1..];
      assert more == [more[0]] + rest;
      assert Keys(more) == {Key(more[0])} + Keys(rest);
      if Key(more[0]) in Keys(base) {
        AddEvidenceExact(base, rest);
      } else {
        AddEvidenceExact(base + [more[0]], rest);
        assert Keys(base + [more[0]]) == Keys(base) + {Key(more[0])};
      }
    }
  }

  /** Merging repeats no citation: when `base` cites each key once, so does the result. */
  lemma {:induction false} AddEvidenceNoRepeats(base: seq<Evidence>, more: seq<Evidence>)
    requires CitesOnce(base)
    ensures CitesOnce(AddEvidence(base, more))
    decreases more
  {
    if more != [] {
      if Key(more[0]) in Keys(base) {
        AddEvidenceNoRepeats(base, more[1..]);
      } else {
        var next := base + [more[0]];
        forall i, j | 0 <= i < j < |next| ensures Key(next[i]) != Key(next[j]) {
          assert next[i] in base;
        }
        AddEvidenceNoRepeats(next, more[1..]);
      }
    }
  }

  lemma {:induction false} AddLabelsExact(base: seq<string>, more: seq<string>)
    ensures base <= AddLabels(base, more)
    ensures forall l :: l in AddLabels(base, more) <==> l in base || l in more
    decreases more
  {
    if more != [] {
      AddLabelsExact(if more[0] in base then base else base + [more[0]], more[1..]);
    }
  }

  ghost predicate Distinct(labels: seq<string>) {
    forall i, j :: 0 <= i < j < |labels| ==> labels[i] != labels[j]
  }

  lemma {:induction false} AddLabelsNoRepeats(base: seq<string>, more: seq<string>)
    requires Distinct(base)
    ensures Distinct(AddLabels(base, more))
    decreases more
  {
    if more != [] {
      AddLabelsNoRepeats(if more[0] in base then base else base + [more[0]], more[1..]);
    }
  }

  /** A flagged requirement needs review, and its reason ends with the note, after what it said before. */
  lemma FlaggedReads(r: Req, note: string)
    ensures var f, before := Flagged(r, note), OrEmpty(r.reviewReason);
      && f.needsReview && f == r.(needsReview := true, reviewReason := f.reviewReason)
      && (before == "" ==> f.reviewReason == Some(note))
      && (before != "" ==> f.reviewReason == Some(before + " " + note))
  {
  }

  // ---------- merging, in place ----------

  /** A requirement record. The passes share and update these objects. */
  class Requirement {
    var id: int
    var text: string
    var actor: Option<string>
    var goal: Option<string>
    var disposition: Disposition
    var candidateLabels: seq<string>
    var confidence: real
    var evidence: seq<Evidence>
    var priority: string
    var extractionType: Option<ExtractionType>
    var needsReview: bool
    var reviewReason: Option<string>
    var classification: Classification

    function View(): Req
      reads this
    {
      Req(id, text, actor, goal, disposition, candidateLabels, confidence, evidence, priority,
          extractionType, needsReview, reviewReason, classification)
    }

    constructor (r: Req)
      ensures View() == r
    {
      id, text, actor, goal, disposition := r.id, r.text, r.actor, r.goal, r.disposition;
      candidateLabels, confidence, evidence, priority := r.candidateLabels, r.confidence, r.evidence, r.priority;
      extractionType, needsReview, reviewReason := r.extractionType, r.needsReview, r.reviewReason;
      classification := r.classification;
    }

    /** Folds `other` into this requirement, preserving all grounding. */
    method MergeInto(other: Requirement)
      requires other != this
      modifies this
      ensures View() == Merge(old(View()), other.View())
    {
      MergeGrounding(other);
      MergeLabels(other);
      MergeDetails(other);
    }

    method MergeGrounding(other: Requirement)
      requires other != this
      modifies this
      ensures View() == old(View()).(
        evidence := AddEvidence(old(evidence), other.evidence),
        confidence := RealMax(old(confidence), other.confidence),
        priority := HigherPriority(old(priority), other.priority),
        disposition := HigherDisposition(old(disposition), other.disposition))
    {
      evidence := UnionEvidence(evidence, other.evidence);
      confidence := RealMax(confidence, other.confidence);
      priority := HigherPriority(priority, other.priority);
      if DispositionRank(other.disposition) > DispositionRank(disposition) {
        disposition := other.disposition;
      }
    }

    method MergeLabels(other: Requirement)
      requires other != this
      modifies this
      ensures View() == old(View()).(
        candidateLabels := AddLabels(old(candidateLabels), other.candidateLabels),
        classification := MergeClassification(old(classification), other.classification))
    {
      candidateLabels := UnionLabels(candidateLabels, other.candidateLabels);
      if classification.Classified? && other.classification.Classified? {
        var labels := UnionLabels(classification.labels, other.classification.labels);
        classification := Classified(labels, RealMax(classification.confidence, other.classification.confidence));
      }
    }

    method MergeDetails(other: Requirement)
      requires other != this
      modifies this
      ensures View() == old(View()).(
        actor := Either(old(actor), other.actor),
        goal := Either(old(goal), other.goal),
        extractionType := MergeExtraction(old(extractionType), other.extractionType),
        needsReview := old(needsReview) || other.needsReview,
        reviewReason := MergeReasons(old(reviewReason), other.reviewReason))
    {
      actor := Either(actor, other.actor);
      goal := Either(goal, other.goal);
      if extractionType == Some(Explicit) || other.extractionType == Some(Explicit) {
        extractionType := Some(Explicit);
      } else if extractionType.None? {
        extractionType := other.extractionType;
      }
      needsReview := needsReview || other.needsReview;
      reviewReason := MergeReasons(reviewReason, other.reviewReason);
    }

    /** Appends a note to the review reason and raises the review flag. */
    method Flag(note: string)
      modifies this
      ensures View() == Flagged(old(View()), note)
    {
      needsReview := true;
      reviewReason := Some(if OrEmpty(reviewReason) == "" then note else OrEmpty(reviewReason) + " " + note);
    }
  }

  function Flagged(r: Req, note: string): Req {
    r.(needsReview := true,
       reviewReason := Some(if OrEmpty(r.reviewReason) == "" then note else OrEmpty(r.reviewReason) + " " + note))
  }

  method UnionEvidence(base: seq<Evidence>, more: seq<Evidence>) returns (r: seq<Evidence>)
    ensures r == AddEvidence(base, more)
  {
    r := base;
    var seen := Keys(r);
    for k := 0 to |more|
      invariant seen == Keys(r)
      invariant AddEvidence(r, more[k..]) == AddEvidence(base, more)
    {
      assert more[k..][0] == more[k] && more[k..][1..] == more[k + 1..];
      if Key(more[k]) !in seen {
        assert Keys(r + [more[k]]) == Keys(r) + {Key(more[k])};
        r := r + [more[k]];
        seen := seen + {Key(more[k])};
      }
    }
    assert more[|more|..] == [];
  }

  method UnionLabels(base: seq<string>, more: seq<string>) returns (r: seq<string>)
    ensures r == AddLabels(base, more)
  {
    r := base;
    for k := 0 to |more|
      invariant AddLabels(r, more[k..]) == AddLabels(base, more)
    {
      assert more[k..][0] == more[k] && more[k..][1..] == more[k + 1..];
      if more[k] !in r {
        r := r + [more[k]];
      }
    }
    assert more[|more|..] == [];
  }
}
