/**
 Requirement coverage rebuilt from the final stories: one row for each requirement, in order. A row
 marked as outside the stories, or as needing review, stays as it was.
 */
module Coverage {
  import opened Wrappers
  import opened Stories

  datatype Requirement = Requirement(id: int, disposition: string, labels: seq<string>, candidateLabels: seq<string>, evidenced: bool)

  datatype Kind = CoveredByStory | MergedIntoStory | NonStory | NeedsReview | OtherKind

  datatype Reason = NoReason | Excluded | NotConverted | Unclarified | NoEvidence | NoStory | Earlier(text: string)

  datatype Row = Row(requirementId: int, kind: Kind, storyIds: seq<string>, criterionIds: seq<string>, reason: Reason)

  const SPECIAL: set<string> := {"Open Question", "Out-of-Scope", "Assumption"}

  predicate Special(r: Requirement) {
    exists i :: 0 <= i < |r.labels + r.candidateLabels| && (r.labels + r.candidateLabels)[i] in SPECIAL
  }

  /** The last earlier row for the requirement that takes it out of the stories, if any. */
  function Preserved(existing: seq<Row>, id: int): Option<Row> {
    if existing == [] then None
    else
      var last := existing[|existing| - 1];
      if last.requirementId == id && last.kind in {NonStory, NeedsReview} then Some(last)
      else Preserved(existing[..|existing| - 1], id)
  }

  /** The first story that lists the requirement, or the number of stories. */
  function Linked(stories: seq<Story>, id: int): (j: nat)
    ensures j <= |stories|
    ensures j < |stories| ==> id in stories[j].requirementIds
    ensures forall i :: 0 <= i < j ==> id !in stories[i].requirementIds
    decreases |stories|
  {
    if stories == [] then 0
    else
      var j := Linked(stories[..|stories| - 1], id);
      if j < |stories| - 1 then j
      else if id in stories[|stories| - 1].requirementIds then |stories| - 1
      else |stories|
  }

  function CriterionIds(criteria: seq<Criterion>): (r: seq<string>)
    ensures |r| == |criteria| && forall i :: 0 <= i < |r| ==> r[i] == criteria[i].id
  {
    seq(|criteria|, i requires 0 <= i < |criteria| => criteria[i].id)
  }

  function RowFor(r: Requirement, stories: seq<Story>, existing: seq<Row>): Row {
    var earlier := Preserved(existing, r.id);
    if earlier.Some? then earlier.value
    else if r.disposition in {"rejected", "deferred"} then Row(r.id, NonStory, [], [], Excluded)
    else if Special(r) then Row(r.id, NonStory, [], [], NotConverted)
    else if r.disposition in {"proposed", "uncertain"} then Row(r.id, NeedsReview, [], [], Unclarified)
    else
      var j := Linked(stories, r.id);
      if j == |stories| then Row(r.id, NeedsReview, [], [], if r.evidenced then NoStory else NoEvidence)
      else
        var kind := if |stories[j].requirementIds| > 1 then MergedIntoStory else CoveredByStory;
        Row(r.id, kind, [stories[j].id], CriterionIds(stories[j].criteria), NoReason)
  }

  function Rebuilt(reqs: seq<Requirement>, stories: seq<Story>, existing: seq<Row>): (rows: seq<Row>)
    ensures |rows| == |reqs| && forall i :: 0 <= i < |reqs| ==> rows[i] == RowFor(reqs[i], stories, existing)
  {
    seq(|reqs|, i requires 0 <= i < |reqs| => RowFor(reqs[i], stories, existing))
  }

  /** Whether a requirement is meant for a story at all. */
  predicate ForStory(r: Requirement, existing: seq<Row>) {
    Preserved(existing, r.id).None? && r.disposition !in {"rejected", "deferred", "proposed", "uncertain"} && !Special(r)
  }

  lemma {:induction false} PreservedExact(existing: seq<Row>, id: int)
    ensures Preserved(existing, id).Some? <==> exists i :: 0 <= i < |existing| && Sticks(existing[i], id)
    ensures Preserved(existing, id).Some? ==> Sticks(Preserved(existing, id).value, id) && Preserved(existing, id).value in existing
  {
    if existing != [] {
      PreservedExact(existing[..|existing| - 1], id);
    }
  }

  predicate Sticks(row: Row, id: int) {
    row.requirementId == id && row.kind in {NonStory, NeedsReview}
  }

  /** The story named lists the requirement, is the first to do so, and lends the row exactly its criteria. */
  ghost predicate Names(row: Row, stories: seq<Story>, j: nat) {
    && j < |stories|
    && row.requirementId in stories[j].requirementIds
    && (forall i :: 0 <= i < j ==> row.requirementId !in stories[i].requirementIds)
    && row.storyIds == [stories[j].id]
    && row.criterionIds == CriterionIds(stories[j].criteria)
    && row.kind == if |stories[j].requirementIds| > 1 then MergedIntoStory else CoveredByStory
  }

  predicate StoryRow(row: Row) {
    row.kind == CoveredByStory || row.kind == MergedIntoStory
  }

  /** A requirement has a story row exactly when it is meant for a story and some story lists it; the row names that story. */
  lemma RowExact(r: Requirement, stories: seq<Story>, existing: seq<Row>)
    ensures var row := RowFor(r, stories, existing);
      && row.requirementId == r.id
      && (StoryRow(row) <==> ForStory(r, existing) && exists j :: 0 <= j < |stories| && r.id in stories[j].requirementIds)
      && (StoryRow(row) ==> Names(row, stories, Linked(stories, r.id)))
  {
    hide Preserved, Special, Linked, Names;
    PreservedExact(existing, r.id);
    NamesLinked(r, stories, existing);
  }

  lemma NamesLinked(r: Requirement, stories: seq<Story>, existing: seq<Row>)
    ensures StoryRow(RowFor(r, stories, existing)) ==> Names(RowFor(r, stories, existing), stories, Linked(stories, r.id))
  {
    hide Preserved, Special, Linked;
    PreservedExact(existing, r.id);
  }

  /** The last earlier row that takes the requirement out of the stories. */
  ghost predicate Decides(existing: seq<Row>, id: int, k: int) {
    0 <= k < |existing| && Sticks(existing[k], id) && forall m :: k < m < |existing| ==> !Sticks(existing[m], id)
  }

  lemma {:induction false} PreservedIsLast(existing: seq<Row>, id: int, k: int)
    requires Decides(existing, id, k)
    ensures Preserved(existing, id) == Some(existing[k])
  {
    var front := existing[..|existing| - 1];
    if k < |front| {
      assert !Sticks(existing[|existing| - 1], id);
      PreservedIsLast(front, id, k);
    }
  }

  predicate DecidedAgainst(r: Requirement) {
    r.disposition == "rejected" || r.disposition == "deferred"
  }

  /** Labelled, finally or provisionally, as no requirement to build. */
  predicate NotToBuild(r: Requirement) {
    || "Open Question" in r.labels || "Out-of-Scope" in r.labels || "Assumption" in r.labels
    || "Open Question" in r.candidateLabels || "Out-of-Scope" in r.candidateLabels || "Assumption" in r.candidateLabels
  }

  predicate Undecided(r: Requirement) {
    r.disposition == "proposed" || r.disposition == "uncertain"
  }

  lemma SpecialIff(r: Requirement)
    ensures Special(r) <==> NotToBuild(r)
  {
    var all := r.labels + r.candidateLabels;
    assert forall x :: x in all <==> x in r.labels || x in r.candidateLabels;
  }

  /** A requirement taken out of the stories before stays so, with the last row that said it. */
  lemma EarlierRowStays(r: Requirement, stories: seq<Story>, existing: seq<Row>, k: int)
    requires Decides(existing, r.id, k)
    ensures RowFor(r, stories, existing) == existing[k]
  {
    PreservedIsLast(existing, r.id, k);
  }

  /** Why a requirement has no story: each reason exactly in its own case. */
  lemma WhyNoStory(r: Requirement, stories: seq<Story>, existing: seq<Row>)
    requires forall k :: 0 <= k < |existing| ==> !Sticks(existing[k], r.id)
    ensures var row, listed := RowFor(r, stories, existing), exists j :: 0 <= j < |stories| && r.id in stories[j].requirementIds;
      && (row.reason == Excluded <==> DecidedAgainst(r))
      && (row.reason == NotConverted <==> !DecidedAgainst(r) && NotToBuild(r))
      && (row.reason == Unclarified <==> !NotToBuild(r) && Undecided(r))
      && (row.reason == NoEvidence <==> !DecidedAgainst(r) && !NotToBuild(r) && !Undecided(r) && !listed && !r.evidenced)
      && (row.reason == NoStory <==> !DecidedAgainst(r) && !NotToBuild(r) && !Undecided(r) && !listed && r.evidenced)
      && (row.reason == NoReason <==> StoryRow(row))
      && (row.kind == NonStory <==> row.reason == Excluded || row.reason == NotConverted)
      && (row.kind == NeedsReview <==> row.reason == Unclarified || row.reason == NoEvidence || row.reason == NoStory)
      && (row.reason != NoReason ==> row.storyIds == [] && row.criterionIds == [])
  {
    PreservedExact(existing, r.id);
    SpecialIff(r);
    hide Preserved, Special, NotToBuild;
  }

  /** One row for each requirement, in order; every story row names a story that lists the requirement. */
  lemma RebuiltExact(reqs: seq<Requirement>, stories: seq<Story>, existing: seq<Row>, i: nat)
    requires i < |reqs|
    ensures |Rebuilt(reqs, stories, existing)| == |reqs| && Rebuilt(reqs, stories, existing)[i].requirementId == reqs[i].id
    ensures StoryRow(Rebuilt(reqs, stories, existing)[i]) ==> exists j :: Names(Rebuilt(reqs, stories, existing)[i], stories, j)
  {
    RowExact(reqs[i], stories, existing);
    hide RowFor, Names;
  }

  ghost predicate DistinctIds(reqs: seq<Requirement>) {
    forall i, j :: 0 <= i < j < |reqs| ==> reqs[i].id != reqs[j].id
  }

  lemma {:induction false} PreservedUnique(rows: seq<Row>, id: int, n: int)
    requires 0 <= n < |rows| && rows[n].requirementId == id
    requires forall i :: 0 <= i < |rows| && i != n ==> rows[i].requirementId != id
    ensures Preserved(rows, id) == if Sticks(rows[n], id) then Some(rows[n]) else None
  {
    if n < |rows| - 1 {
      PreservedUnique(rows[..|rows| - 1], id, n);
    } else {
      PreservedExact(rows[..n], id);
    }
  }

  /** With distinct requirement ids, rebuilding from the rebuilt rows changes nothing. */
  lemma RebuildingTwice(reqs: seq<Requirement>, stories: seq<Story>, existing: seq<Row>)
    requires DistinctIds(reqs)
    ensures Rebuilt(reqs, stories, Rebuilt(reqs, stories, existing)) == Rebuilt(reqs, stories, existing)
  {
    var rows := Rebuilt(reqs, stories, existing);
    hide RowFor, ForStory, Names;
    forall i | 0 <= i < |reqs| ensures rows[i].requirementId == reqs[i].id {
      RowExact(reqs[i], stories, existing);
    }
    forall i | 0 <= i < |reqs| ensures RowFor(reqs[i], stories, rows) == rows[i] {
      PreservedUnique(rows, reqs[i].id, i);
      RowAgain(reqs[i], stories, existing, rows);
    }
  }

  lemma RowAgain(r: Requirement, stories: seq<Story>, existing: seq<Row>, rows: seq<Row>)
    requires var row := RowFor(r, stories, existing); Preserved(rows, r.id) == if Sticks(row, r.id) then Some(row) else None
    ensures RowFor(r, stories, rows) == RowFor(r, stories, existing)
  {
    PreservedExact(existing, r.id);
    hide Preserved, Special;
  }

  // ---------- the computation ----------

  method RebuildCoverages(reqs: seq<Requirement>, stories: seq<Story>, existing: seq<Row>) returns (rows: seq<Row>)
    ensures rows == Rebuilt(reqs, stories, existing)
  {
    var preserved: map<int, Row> := map[];
    assert existing[..0] == [];
    for i := 0 to |existing|
      invariant forall id :: (if id in preserved then Some(preserved[id]) else None) == Preserved(existing[..i], id)
    {
      assert existing[..i + 1][..i] == existing[..i];
      if existing[i].kind in {NonStory, NeedsReview} {
        preserved := preserved[existing[i].requirementId := existing[i]];
      }
    }
    assert existing[..|existing|] == existing;
    rows := [];
    for i := 0 to |reqs|
      invariant rows == Rebuilt(reqs[..i], stories, existing)
    {
      hide Preserved, RowFor;
      assert reqs[..i + 1] == reqs[..i] + [reqs[i]];
      var row := BuildRow(reqs[i], stories, existing, preserved);
      rows := rows + [row];
    }
    assert reqs[..|reqs|] == reqs;
  }

  method BuildRow(r: Requirement, stories: seq<Story>, ghost existing: seq<Row>, preserved: map<int, Row>) returns (row: Row)
    requires (if r.id in preserved then Some(preserved[r.id]) else None) == Preserved(existing, r.id)
    ensures row == RowFor(r, stories, existing)
  {
    hide Special, Preserved;
    if r.id in preserved {
      return preserved[r.id];
    }
    if r.disposition in {"rejected", "deferred"} {
      return Row(r.id, NonStory, [], [], Excluded);
    }
    if Special(r) {
      return Row(r.id, NonStory, [], [], NotConverted);
    }
    if r.disposition in {"proposed", "uncertain"} {
      return Row(r.id, NeedsReview, [], [], Unclarified);
    }
    var j := 0;
    while j < |stories| && r.id !in stories[j].requirementIds
      invariant j <= |stories| && forall i :: 0 <= i < j ==> r.id !in stories[i].requirementIds
    {
      j := j + 1;
    }
    if j == |stories| {
      return Row(r.id, NeedsReview, [], [], if r.evidenced then NoStory else NoEvidence);
    }
    var kind := if |stories[j].requirementIds| > 1 then MergedIntoStory else CoveredByStory;
    row := Row(r.id, kind, [stories[j].id], CriterionIds(stories[j].criteria), NoReason);
  }
}
