/**
 Generated stories and the merging of repeated ones. A story joins an earlier one only when the two
 read alike and share a source requirement; wording alone never merges stories.
 */
module Stories {
  import opened Priorities
  import opened Sequences
  import Requirements

  datatype Criterion = Criterion(id: string, text: string, scenario: bool)

  datatype Evidence = Evidence(chunkId: string, quote: string, detail: string)

  datatype Story = Story(
    id: string, title: string, description: string, criteria: seq<Criterion>,
    requirementIds: seq<int>, labels: seq<string>, evidence: seq<Evidence>, priority: string, points: int)

  /** Whether two stories, by title and description, read alike. */
  type Alike = ((string, string), (string, string)) -> bool

  function KeyOf(e: Evidence): (string, string) {
    (e.chunkId, e.quote)
  }

  predicate Cited(evidence: seq<Evidence>, key: (string, string)) {
    exists i :: 0 <= i < |evidence| && KeyOf(evidence[i]) == key
  }

  /** Evidence added one by one, each only if nothing with its key is there yet. */
  function AddEvidence(evidence: seq<Evidence>, more: seq<Evidence>): seq<Evidence> {
    if more == [] then evidence
    else
      var front, last := AddEvidence(evidence, more[..|more| - 1]), more[|more| - 1];
      if Cited(front, KeyOf(last)) then front else front + [last]
  }

  function Merge(kept: Story, s: Story): Story {
    kept.(
      requirementIds := Firsts(kept.requirementIds + s.requirementIds),
      labels := Firsts(kept.labels + s.labels),
      evidence := AddEvidence(kept.evidence, s.evidence),
      priority := if PriorityRank(s.priority) > PriorityRank(kept.priority) then s.priority else kept.priority,
      points := if s.points > kept.points then s.points else kept.points)
  }

  predicate Overlap(a: seq<int>, b: seq<int>) {
    exists i :: 0 <= i < |a| && a[i] in b
  }

  predicate Duplicates(s: Story, kept: Story, alike: Alike) {
    Overlap(s.requirementIds, kept.requirementIds) && alike((s.title, s.description), (kept.title, kept.description))
  }

  /** The first of the kept stories that this one duplicates, or the number of them. */
  function Home(kept: seq<Story>, s: Story, alike: Alike): (j: nat)
    ensures j <= |kept|
    ensures j < |kept| ==> Duplicates(s, kept[j], alike)
    ensures forall i :: 0 <= i < j ==> !Duplicates(s, kept[i], alike)
    decreases |kept|
  {
    if kept == [] then 0
    else
      var j := Home(kept[..|kept| - 1], s, alike);
      if j < |kept| - 1 then j
      else if Duplicates(s, kept[|kept| - 1], alike) then |kept| - 1
      else |kept|
  }

  function Place(kept: seq<Story>, s: Story, alike: Alike): seq<Story> {
    var j := Home(kept, s, alike);
    if j < |kept| then kept[j := Merge(kept[j], s)] else kept + [s]
  }

  function Dedupe(stories: seq<Story>, alike: Alike): seq<Story> {
    if stories == [] then [] else Place(Dedupe(stories[..|stories| - 1], alike), stories[|stories| - 1], alike)
  }

  /** For each story, which of the kept ones it went into. */
  function Homes(stories: seq<Story>, alike: Alike): (homes: seq<nat>)
    ensures |homes| == |stories|
  {
    if stories == [] then []
    else
      var front, last := stories[..|stories| - 1], stories[|stories| - 1];
      Homes(front, alike) + [Home(Dedupe(front, alike), last, alike)]
  }

  // ---------- what merging keeps ----------

  lemma CitedAppend(evidence: seq<Evidence>, e: Evidence, key: (string, string))
    ensures Cited(evidence + [e], key) <==> Cited(evidence, key) || KeyOf(e) == key
  {
    var more := evidence + [e];
    if Cited(evidence, key) {
      var i :| 0 <= i < |evidence| && KeyOf(evidence[i]) == key;
      assert more[i] == evidence[i];
    }
    assert more[|evidence|] == e;
  }

  lemma {:induction false} AddEvidenceExact(evidence: seq<Evidence>, more: seq<Evidence>, key: (string, string))
    ensures Cited(AddEvidence(evidence, more), key) <==> Cited(evidence, key) || Cited(more, key)
  {
    if more != [] {
      var front, last := more[..|more| - 1], more[|more| - 1];
      AddEvidenceExact(evidence, front, key);
      CitedAppend(AddEvidence(evidence, front), last, key);
      CitedAppend(front, last, key);
      assert more == front + [last];
    }
  }

  /** No citation, link or label is listed twice. */
  ghost predicate Tidy(s: Story) {
    NoRepeats(s.requirementIds) && NoRepeats(s.labels) && CitesOnce(s.evidence)
  }

  ghost predicate CitesOnce(evidence: seq<Evidence>) {
    forall i, j :: 0 <= i < j < |evidence| ==> KeyOf(evidence[i]) != KeyOf(evidence[j])
  }

  lemma {:induction false} AddEvidenceOnce(evidence: seq<Evidence>, more: seq<Evidence>)
    requires CitesOnce(evidence)
    ensures CitesOnce(AddEvidence(evidence, more)) && evidence <= AddEvidence(evidence, more)
  {
    if more != [] {
      AddEvidenceOnce(evidence, more[..|more| - 1]);
    }
  }

  lemma {:induction false} FirstsBegin<T>(s: seq<T>, more: seq<T>)
    requires NoRepeats(s)
    ensures s <= Firsts(s + more)
  {
    if more != [] {
      FirstsBegin(s, more[..|more| - 1]);
      assert (s + more)[..|s + more| - 1] == s + more[..|more| - 1];
    } else {
      assert s + more == s;
      FirstsOfDistinct(s);
    }
  }

  lemma {:induction false} FirstsOfDistinct<T>(s: seq<T>)
    requires NoRepeats(s)
    ensures Firsts(s) == s
  {
    if s != [] {
      FirstsOfDistinct(s[..|s| - 1]);
      assert s[|s| - 1] !in s[..|s| - 1];
    }
  }

  /** What is merged in comes after what was there, and nothing is listed twice. */
  lemma MergeTidy(kept: Story, s: Story)
    requires Tidy(kept)
    ensures var m := Merge(kept, s);
      Tidy(m) && kept.requirementIds <= m.requirementIds && kept.labels <= m.labels && kept.evidence <= m.evidence
    ensures Merge(kept, s).priority == kept.priority || PriorityRank(s.priority) > PriorityRank(kept.priority)
  {
    FirstsExact(kept.requirementIds + s.requirementIds);
    FirstsExact(kept.labels + s.labels);
    FirstsBegin(kept.requirementIds, s.requirementIds);
    FirstsBegin(kept.labels, s.labels);
    AddEvidenceOnce(kept.evidence, s.evidence);
    hide NoRepeats, CitesOnce, Firsts, AddEvidence;
  }

  /** Where no story lists anything twice, no kept one does. */
  lemma {:induction false} DedupeTidy(stories: seq<Story>, alike: Alike)
    requires forall i :: 0 <= i < |stories| ==> Tidy(stories[i])
    ensures forall j :: 0 <= j < |Dedupe(stories, alike)| ==> Tidy(Dedupe(stories, alike)[j])
  {
    hide Tidy, Merge, Home, Duplicates;
    if stories != [] {
      var front, last := stories[..|stories| - 1], stories[|stories| - 1];
      DedupeTidy(front, alike);
      var kept := Dedupe(front, alike);
      var j := Home(kept, last, alike);
      if j < |kept| {
        MergeTidy(kept[j], last);
      }
    }
  }

  /** Something a story may carry: a link, a label, a citation, at least some urgency or at least some points. */
  datatype Item = Requirement(id: int) | Tag(name: string) | Source(key: (string, string)) | Urgency(rank: nat) | Size(points: int)

  predicate Carries(s: Story, item: Item) {
    match item
    case Requirement(id) => id in s.requirementIds
    case Tag(name) => name in s.labels
    case Source(key) => Cited(s.evidence, key)
    case Urgency(rank) => PriorityRank(s.priority) >= rank
    case Size(points) => s.points >= points
  }

  /** A merged story carries what both carried, and keeps the text of the one it was merged into. */
  lemma MergeCarries(kept: Story, s: Story, item: Item)
    ensures Carries(Merge(kept, s), item) <==> Carries(kept, item) || Carries(s, item)
  {
    FirstsExact(kept.requirementIds + s.requirementIds);
    FirstsExact(kept.labels + s.labels);
    if item.Source? {
      AddEvidenceExact(kept.evidence, s.evidence, item.key);
    }
  }

  /** Some story that went into `j` carries the item. */
  ghost predicate Brought(stories: seq<Story>, homes: seq<nat>, j: nat, item: Item)
    requires |homes| == |stories|
  {
    exists i :: 0 <= i < |stories| && homes[i] == j && Carries(stories[i], item)
  }

  lemma BroughtAppend(stories: seq<Story>, homes: seq<nat>, s: Story, h: nat, j: nat, item: Item)
    requires |homes| == |stories|
    ensures Brought(stories + [s], homes + [h], j, item) <==> Brought(stories, homes, j, item) || (h == j && Carries(s, item))
  {
    hide Carries;
    var more, homes' := stories + [s], homes + [h];
    if i :| 0 <= i < |more| && homes'[i] == j && Carries(more[i], item) {
      assert i < |stories| ==> homes[i] == j && Carries(stories[i], item);
    }
    if i :| 0 <= i < |stories| && homes[i] == j && Carries(stories[i], item) {
      assert homes'[i] == j && Carries(more[i], item);
    }
    assert homes'[|stories|] == h && more[|stories|] == s;
  }

  lemma DedupeUnfolds(front: seq<Story>, last: Story, alike: Alike)
    ensures Dedupe(front + [last], alike) == Place(Dedupe(front, alike), last, alike)
    ensures Homes(front + [last], alike) == Homes(front, alike) + [Home(Dedupe(front, alike), last, alike)]
  {
    assert (front + [last])[..|front|] == front;
  }

  lemma {:induction false} HomesInRange(stories: seq<Story>, alike: Alike)
    ensures forall i :: 0 <= i < |stories| ==> Homes(stories, alike)[i] < |Dedupe(stories, alike)|
  {
    if stories != [] {
      var front, last := stories[..|stories| - 1], stories[|stories| - 1];
      HomesInRange(front, alike);
      assert stories == front + [last];
      DedupeUnfolds(front, last, alike);
      hide Merge, Home, Dedupe, Homes, Duplicates;
    }
  }

  lemma PlaceGrows(kept: seq<Story>, s: Story, alike: Alike)
    ensures |Place(kept, s, alike)| == if Home(kept, s, alike) < |kept| then |kept| else |kept| + 1
  {
    hide Merge, Home, Duplicates;
  }

  lemma PlaceKeepsText(kept: seq<Story>, s: Story, alike: Alike, j: nat)
    requires j < |Place(kept, s, alike)|
    ensures j < |kept| ==> SameText(Place(kept, s, alike)[j], kept[j])
    ensures j >= |kept| ==> Place(kept, s, alike)[j] == s && j == |kept| == Home(kept, s, alike)
  {
    hide Home, Duplicates;
  }

  lemma PlaceConserves(kept: seq<Story>, s: Story, alike: Alike, j: nat, item: Item)
    requires j < |Place(kept, s, alike)|
    ensures Carries(Place(kept, s, alike)[j], item) <==>
      (j < |kept| && Carries(kept[j], item)) || (j == Home(kept, s, alike) && Carries(s, item))
  {
    var h := Home(kept, s, alike);
    hide Merge, Carries, Home, Duplicates;
    if h < |kept| {
      MergeCarries(kept[h], s, item);
    }
  }

  /** Every kept story carries exactly what the stories merged into it carried. */
  lemma {:induction false} DedupeConserves(stories: seq<Story>, alike: Alike, j: nat, item: Item)
    requires j < |Dedupe(stories, alike)|
    ensures Carries(Dedupe(stories, alike)[j], item) <==> Brought(stories, Homes(stories, alike), j, item)
  {
    hide Dedupe, Homes, Home, Merge, Carries, Brought, Duplicates;
    NoneKept(alike);
    if stories != [] {
      var front, last := stories[..|stories| - 1], stories[|stories| - 1];
      var kept, homes, h := Dedupe(front, alike), Homes(front, alike), Home(Dedupe(front, alike), last, alike);
      assert stories == front + [last];
      DedupeUnfolds(front, last, alike);
      HomesInRange(front, alike);
      PlaceConserves(kept, last, alike, j, item);
      PlaceGrows(kept, last, alike);
      hide Place;
      BroughtAppend(front, homes, last, h, j, item);
      if j < |kept| {
        DedupeConserves(front, alike, j, item);
      } else {
        NothingBrought(front, homes, j, item);
      }
    }
  }

  lemma NothingBrought(stories: seq<Story>, homes: seq<nat>, j: nat, item: Item)
    requires |homes| == |stories| && forall i :: 0 <= i < |homes| ==> homes[i] < j
    ensures !Brought(stories, homes, j, item)
  {
  }

  /** No linked requirement is lost and none invented. */
  lemma LinksConserved(stories: seq<Story>, alike: Alike, id: int)
    ensures (exists j :: 0 <= j < |Dedupe(stories, alike)| && id in Dedupe(stories, alike)[j].requirementIds)
      <==> (exists i :: 0 <= i < |stories| && id in stories[i].requirementIds)
  {
    var kept, homes := Dedupe(stories, alike), Homes(stories, alike);
    if j :| 0 <= j < |kept| && id in kept[j].requirementIds {
      assert Carries(kept[j], Requirement(id));
      DedupeConserves(stories, alike, j, Requirement(id));
      var i :| 0 <= i < |stories| && homes[i] == j && Carries(stories[i], Requirement(id));
    }
    if i :| 0 <= i < |stories| && id in stories[i].requirementIds {
      var j := homes[i];
      HomesInRange(stories, alike);
      DedupeConserves(stories, alike, j, Requirement(id));
      assert Carries(stories[i], Requirement(id));
      assert Carries(kept[j], Requirement(id));
    }
  }

  /** The first story that went into each kept one. */
  ghost predicate Founds(stories: seq<Story>, homes: seq<nat>, i: nat, j: nat)
    requires |homes| == |stories|
  {
    i < |stories| && homes[i] == j && forall m :: 0 <= m < i ==> homes[m] != j
  }

  /** Two stories that went into the same kept one and share a requirement. */
  ghost predicate Linked(stories: seq<Story>, homes: seq<nat>, m: nat, i: nat)
    requires |homes| == |stories|
  {
    m < i < |stories| && homes[m] == homes[i] && Overlap(stories[i].requirementIds, stories[m].requirementIds)
  }

  lemma {:induction false} HomesAt(stories: seq<Story>, alike: Alike, i: nat, n: nat)
    requires i < n <= |stories|
    ensures Homes(stories[..n], alike)[i] == Home(Dedupe(stories[..i], alike), stories[i], alike)
    decreases n
  {
    assert stories[..n] == stories[..n - 1] + [stories[n - 1]];
    DedupeUnfolds(stories[..n - 1], stories[n - 1], alike);
    hide Homes, Dedupe, Home, Duplicates;
    if i < n - 1 {
      HomesAt(stories, alike, i, n - 1);
    }
  }

  lemma HomeAt(stories: seq<Story>, alike: Alike, i: nat)
    requires i < |stories|
    ensures Homes(stories, alike)[i] == Home(Dedupe(stories[..i], alike), stories[i], alike)
    ensures forall m :: 0 <= m < i ==> Homes(stories, alike)[m] == Homes(stories[..i], alike)[m]
  {
    assert stories[..|stories|] == stories;
    HomesAt(stories, alike, i, |stories|);
    hide Homes, Dedupe, Home, Duplicates;
    forall m | 0 <= m < i ensures Homes(stories, alike)[m] == Homes(stories[..i], alike)[m] {
      HomesAt(stories, alike, m, |stories|);
      HomesAt(stories, alike, m, i);
    }
  }

  /** A story either founds a kept one or shares a requirement with an earlier story of its kept one. */
  lemma MergedOnlyWhenLinked(stories: seq<Story>, alike: Alike, i: nat)
    requires i < |stories|
    ensures Founds(stories, Homes(stories, alike), i, Homes(stories, alike)[i]) || exists m: nat :: Linked(stories, Homes(stories, alike), m, i)
  {
    hide Homes, Home, Dedupe, Duplicates, Overlap;
    var before, s, homes := stories[..i], stories[i], Homes(stories, alike);
    var kept := Dedupe(before, alike);
    var j := Home(kept, s, alike);
    HomeAt(stories, alike, i);
    if j < |kept| {
      SharedEarlier(before, alike, s, j);
      var m: nat :| m < i && Homes(before, alike)[m] == j && Overlap(s.requirementIds, before[m].requirementIds);
      assert Linked(stories, homes, m, i);
    } else {
      HomesInRange(before, alike);
      assert Founds(stories, homes, i, j);
    }
  }

  lemma SharedEarlier(before: seq<Story>, alike: Alike, s: Story, j: nat)
    requires j < |Dedupe(before, alike)| && Duplicates(s, Dedupe(before, alike)[j], alike)
    ensures exists m: nat :: m < |before| && Homes(before, alike)[m] == j && Overlap(s.requirementIds, before[m].requirementIds)
  {
    var kept := Dedupe(before, alike);
    var n :| 0 <= n < |s.requirementIds| && s.requirementIds[n] in kept[j].requirementIds;
    var id := s.requirementIds[n];
    assert Carries(kept[j], Requirement(id));
    DedupeConserves(before, alike, j, Requirement(id));
    hide Dedupe, Homes;
    var m :| 0 <= m < |before| && Homes(before, alike)[m] == j && Carries(before[m], Requirement(id));
    assert Overlap(s.requirementIds, before[m].requirementIds);
  }

  /** Same text, same criteria. */
  predicate SameText(a: Story, b: Story) {
    a.id == b.id && a.title == b.title && a.description == b.description && a.criteria == b.criteria
  }

  lemma TextTravels(kept: seq<Story>, s: Story, alike: Alike, j: nat)
    requires j < |Place(kept, s, alike)|
    ensures j < |kept| ==> forall t :: SameText(kept[j], t) ==> SameText(Place(kept, s, alike)[j], t)
    ensures SameText(s, s)
  {
    PlaceKeepsText(kept, s, alike, j);
    hide Place;
  }

  /** A kept story has the identity, text and criteria of the story that founded it. */
  lemma {:induction false} FounderKeepsText(stories: seq<Story>, alike: Alike, j: nat) returns (i: nat)
    requires j < |Dedupe(stories, alike)|
    ensures Founds(stories, Homes(stories, alike), i, j) && SameText(Dedupe(stories, alike)[j], stories[i])
  {
    hide Dedupe, Homes, Home, Place, Duplicates, SameText;
    NoneKept(alike);
    var front, last := stories[..|stories| - 1], stories[|stories| - 1];
    assert stories == front + [last];
    DedupeUnfolds(front, last, alike);
    HomesInRange(front, alike);
    var kept := Dedupe(front, alike);
    PlaceKeepsText(kept, last, alike, j);
    PlaceGrows(kept, last, alike);
    TextTravels(kept, last, alike, j);
    if j < |kept| {
      i := FounderKeepsText(front, alike, j);
    } else {
      i := |front|;
    }
  }

  // ---------- a second pass ----------

  ghost predicate NoLaterDuplicate(kept: seq<Story>, alike: Alike) {
    forall i, j :: 0 <= i < j < |kept| ==> !Duplicates(kept[j], kept[i], alike)
  }

  lemma {:induction false} DedupeShrinks(stories: seq<Story>, alike: Alike)
    ensures |Dedupe(stories, alike)| <= |stories|
  {
    if stories != [] {
      var front := stories[..|stories| - 1];
      DedupeShrinks(front, alike);
      PlaceGrows(Dedupe(front, alike), stories[|stories| - 1], alike);
      hide Place;
    }
  }

  /** Merging leaves a list alone exactly when no later story duplicates an earlier one, and shortens it otherwise. */
  lemma {:induction false} UnchangedIff(stories: seq<Story>, alike: Alike)
    ensures Dedupe(stories, alike) == stories <==> NoLaterDuplicate(stories, alike)
    ensures |Dedupe(stories, alike)| == |stories| <==> NoLaterDuplicate(stories, alike)
  {
    hide Duplicates, Merge, Dedupe, Home;
    NoneKept(alike);
    if stories == [] {
    } else {
      var front, last := stories[..|stories| - 1], stories[|stories| - 1];
      UnchangedIff(front, alike);
      DedupeShrinks(front, alike);
      assert stories == front + [last];
      DedupeUnfolds(front, last, alike);
      PlaceGrows(Dedupe(front, alike), last, alike);
      if NoLaterDuplicate(front, alike) {
        assert NoLaterDuplicate(stories, alike) <==> forall i :: 0 <= i < |front| ==> !Duplicates(last, front[i], alike);
      } else {
        var i, j :| 0 <= i < j < |front| && Duplicates(front[j], front[i], alike);
        assert Duplicates(stories[j], stories[i], alike);
      }
    }
  }

  function TextOf(s: Story): (string, string) {
    (s.title, s.description)
  }

  /** Stories that went to different kept ones although they share a requirement and the founders read alike. */
  ghost predicate Missed(stories: seq<Story>, homes: seq<nat>, alike: Alike, i: nat, j: nat, f: nat, g: nat)
    requires |homes| == |stories|
  {
    && i < |stories| && j < |stories| && homes[i] < homes[j]
    && Overlap(stories[j].requirementIds, stories[i].requirementIds)
    && Founds(stories, homes, f, homes[i]) && Founds(stories, homes, g, homes[j])
    && alike(TextOf(stories[g]), TextOf(stories[f]))
  }

  lemma FoundersUnique(stories: seq<Story>, homes: seq<nat>, f: nat, g: nat, j: nat)
    requires |homes| == |stories| && Founds(stories, homes, f, j) && Founds(stories, homes, g, j)
    ensures f == g
  {
  }

  /** Two kept stories that duplicate each other stem from a missed pair. */
  lemma DuplicateKeptMissed(stories: seq<Story>, alike: Alike, a: nat, b: nat) returns (i: nat, j: nat, f: nat, g: nat)
    requires a < b < |Dedupe(stories, alike)| && Duplicates(Dedupe(stories, alike)[b], Dedupe(stories, alike)[a], alike)
    ensures Missed(stories, Homes(stories, alike), alike, i, j, f, g)
  {
    hide Dedupe, Homes, Founds;
    var kept, homes := Dedupe(stories, alike), Homes(stories, alike);
    var n :| 0 <= n < |kept[b].requirementIds| && kept[b].requirementIds[n] in kept[a].requirementIds;
    var id := kept[b].requirementIds[n];
    DedupeConserves(stories, alike, a, Requirement(id));
    DedupeConserves(stories, alike, b, Requirement(id));
    i :| 0 <= i < |stories| && homes[i] == a && Carries(stories[i], Requirement(id));
    j :| 0 <= j < |stories| && homes[j] == b && Carries(stories[j], Requirement(id));
    f := FounderKeepsText(stories, alike, a);
    g := FounderKeepsText(stories, alike, b);
  }

  lemma MissedDuplicatesKept(stories: seq<Story>, alike: Alike, i: nat, j: nat, f: nat, g: nat) returns (a: nat, b: nat)
    requires Missed(stories, Homes(stories, alike), alike, i, j, f, g)
    ensures a < b < |Dedupe(stories, alike)| && Duplicates(Dedupe(stories, alike)[b], Dedupe(stories, alike)[a], alike)
  {
    hide Dedupe, Homes, Founds;
    var kept, homes := Dedupe(stories, alike), Homes(stories, alike);
    a, b := homes[i], homes[j];
    HomesInRange(stories, alike);
    var n :| 0 <= n < |stories[j].requirementIds| && stories[j].requirementIds[n] in stories[i].requirementIds;
    var id := stories[j].requirementIds[n];
    DedupeConserves(stories, alike, a, Requirement(id));
    DedupeConserves(stories, alike, b, Requirement(id));
    assert Carries(stories[i], Requirement(id)) && Carries(stories[j], Requirement(id));
    assert Carries(kept[a], Requirement(id)) && Carries(kept[b], Requirement(id));
    var f' := FounderKeepsText(stories, alike, a);
    var g' := FounderKeepsText(stories, alike, b);
    FoundersUnique(stories, homes, f, f', a);
    FoundersUnique(stories, homes, g, g', b);
  }

  /**
   A second pass changes nothing exactly when no two stories kept apart share a requirement while the
   stories they were merged into read alike; otherwise it merges further stories.
   */
  lemma SecondPassIff(stories: seq<Story>, alike: Alike)
    ensures var kept := Dedupe(stories, alike);
      && (Dedupe(kept, alike) == kept <==> forall i: nat, j: nat, f: nat, g: nat :: !Missed(stories, Homes(stories, alike), alike, i, j, f, g))
      && (Dedupe(kept, alike) == kept <==> |Dedupe(kept, alike)| == |kept|)
  {
    hide Dedupe, Homes, Duplicates, Missed;
    var kept, homes := Dedupe(stories, alike), Homes(stories, alike);
    UnchangedIff(kept, alike);
    if a, b :| 0 <= a < b < |kept| && Duplicates(kept[b], kept[a], alike) {
      var i, j, f, g := DuplicateKeptMissed(stories, alike, a, b);
    }
    if i: nat, j: nat, f: nat, g: nat :| Missed(stories, homes, alike, i, j, f, g) {
      var a, b := MissedDuplicatesKept(stories, alike, i, j, f, g);
      assert Duplicates(kept[b], kept[a], alike);
    }
  }

  /** The similarity of the service: the same title, or descriptions with nine tenths of their words in common. */
  function ReadAlike(title: string -> string, words: string -> set<string>): Alike {
    (x: (string, string), y: (string, string)) => title(x.0) == title(y.0) || Requirements.Jaccard(words(x.1), words(y.1)) >= 0.90
  }

  function Sample(id: string, requirementIds: seq<int>): Story {
    Story(id, "Export the report", "As an analyst, I want to export the report", [], requirementIds, [], [], "Medium", 1)
  }

  /** One pass is not always enough: three stories of one title, the third linking the first two. */
  lemma OnePassIsNotEnough(title: string -> string, words: string -> set<string>)
    ensures var alike, stories := ReadAlike(title, words), [Sample("US-1", [1]), Sample("US-2", [2]), Sample("US-3", [1, 2])];
      |Dedupe(stories, alike)| == 2 && |Dedupe(Dedupe(stories, alike), alike)| == 1
  {
    SecondPassMerges(ReadAlike(title, words), Sample("US-1", [1]), Sample("US-2", [2]), Sample("US-3", [1, 2]));
  }

  /** A story that links two kept ones joins the first, which then duplicates the second. */
  lemma SecondPassMerges(alike: Alike, a: Story, b: Story, c: Story)
    requires a.requirementIds == [1] && b.requirementIds == [2] && c.requirementIds == [1, 2]
    requires alike(TextOf(c), TextOf(a)) && alike(TextOf(b), TextOf(a))
    ensures |Dedupe([a, b, c], alike)| == 2
    ensures |Dedupe(Dedupe([a, b, c], alike), alike)| == 1
  {
    SharedIds(a, b, c);
    var grown := Merge(a, c);
    Growth(alike, a, b, c, grown);
  }

  lemma Growth(alike: Alike, a: Story, b: Story, c: Story, grown: Story)
    requires grown == Merge(a, c) && alike(TextOf(c), TextOf(a)) && alike(TextOf(b), TextOf(a))
    requires !Overlap(b.requirementIds, a.requirementIds) && Overlap(c.requirementIds, a.requirementIds)
    requires Overlap(b.requirementIds, grown.requirementIds)
    ensures Dedupe([a, b, c], alike) == [grown, b]
    ensures Dedupe([grown, b], alike) == [Merge(grown, b)]
  {
    hide Merge, Overlap, Place, Dedupe, Homes, Home;
    MergeKeepsText(a, c);
    assert !Duplicates(b, a, alike) && Duplicates(c, a, alike) && Duplicates(b, grown, alike);
    hide Duplicates;
    NoneKept(alike);
    PlaceFew(a, b, alike);
    PlaceFew(grown, b, alike);
    PlaceSecond(a, b, c, alike);
    DedupeUnfolds([], a, alike);
    assert [] + [a] == [a];
    DedupeUnfolds([a], b, alike);
    assert [a] + [b] == [a, b];
    DedupeUnfolds([a, b], c, alike);
    assert [a, b] + [c] == [a, b, c];
    DedupeUnfolds([], grown, alike);
    assert [] + [grown] == [grown];
    DedupeUnfolds([grown], b, alike);
    assert [grown] + [b] == [grown, b];
  }

  lemma MergeKeepsText(a: Story, c: Story)
    ensures TextOf(Merge(a, c)) == TextOf(a)
  {
  }

  lemma NoneKept(alike: Alike)
    ensures Dedupe([], alike) == []
  {
  }

  lemma PlaceFew(x: Story, s: Story, alike: Alike)
    ensures Place([], x, alike) == [x]
    ensures Place([x], s, alike) == if Duplicates(s, x, alike) then [Merge(x, s)] else [x, s]
  {
    hide Duplicates, Merge;
    assert [x][..0] == [];
    assert Home([x], s, alike) == if Duplicates(s, x, alike) then 0 else 1;
  }

  lemma PlaceSecond(x: Story, y: Story, s: Story, alike: Alike)
    requires Duplicates(s, x, alike)
    ensures Place([x, y], s, alike) == [Merge(x, s), y]
  {
    hide Merge;
    assert [x, y][..1] == [x] && [x][..0] == [];
    assert Home([x], s, alike) == 0;
    assert Home([x, y], s, alike) == 0;
    assert [x, y][0 := Merge(x, s)] == [Merge(x, s), y];
  }

  lemma SharedIds(a: Story, b: Story, c: Story)
    requires a.requirementIds == [1] && b.requirementIds == [2] && c.requirementIds == [1, 2]
    ensures !Overlap(b.requirementIds, a.requirementIds) && Overlap(c.requirementIds, a.requirementIds)
    ensures Overlap(b.requirementIds, Merge(a, c).requirementIds)
  {
    assert b.requirementIds[0] == 2 && c.requirementIds[0] == 1;
    FirstsExact(a.requirementIds + c.requirementIds);
    hide Firsts, AddEvidence;
    assert (a.requirementIds + c.requirementIds)[2] == 2;
  }
}
