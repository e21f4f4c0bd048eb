/**
 The merging of repeated stories as it happens in place: each repeated story is folded into the
 object that was kept.
 */
module StoryDedupe {
  import opened Priorities
  import opened Sequences
  import opened Stories

  class StoryRecord {
    const id: string
    const title: string
    const description: string
    const criteria: seq<Criterion>
    var requirementIds: seq<int>
    var labels: seq<string>
    var evidence: seq<Evidence>
    var priority: string
    var points: int

    ghost function View(): Story
      reads this
    {
      Story(id, title, description, criteria, requirementIds, labels, evidence, priority, points)
    }

    constructor (s: Story)
      ensures View() == s
    {
      id, title, description, criteria := s.id, s.title, s.description, s.criteria;
      requirementIds, labels, evidence, priority, points := s.requirementIds, s.labels, s.evidence, s.priority, s.points;
    }

    /** Folds another story into this one. */
    method Absorb(s: StoryRecord)
      requires s != this
      modifies this
      ensures View() == Merge(old(View()), s.View())
    {
      requirementIds := Firsts(requirementIds + s.requirementIds);
      labels := Firsts(labels + s.labels);
      var before := evidence;
      assert s.evidence[..0] == [];
      for i := 0 to |s.evidence|
        invariant evidence == AddEvidence(before, s.evidence[..i])
        invariant requirementIds == Firsts(old(requirementIds) + s.requirementIds) && labels == Firsts(old(labels) + s.labels)
        invariant priority == old(priority) && points == old(points)
      {
        assert s.evidence[..i + 1][..i] == s.evidence[..i];
        if !Cited(evidence, KeyOf(s.evidence[i])) {
          evidence := evidence + [s.evidence[i]];
        }
      }
      assert s.evidence[..|s.evidence|] == s.evidence;
      if PriorityRank(s.priority) > PriorityRank(priority) {
        priority := s.priority;
      }
      if s.points > points {
        points := s.points;
      }
    }
  }

  ghost function Views(records: seq<StoryRecord>): (r: seq<Story>)
    reads records
    ensures |r| == |records| && forall i :: 0 <= i < |r| ==> r[i] == records[i].View()
  {
    seq(|records|, i requires 0 <= i < |records| reads records => records[i].View())
  }

  ghost predicate Separate(records: seq<StoryRecord>) {
    forall i, j :: 0 <= i < j < |records| ==> records[i] != records[j]
  }

  /** The first kept record the story duplicates, or the number of them. */
  method FindHome(kept: seq<StoryRecord>, s: StoryRecord, alike: Alike) returns (j: nat)
    ensures j == Home(Views(kept), s.View(), alike)
  {
    j := 0;
    while j < |kept|
      invariant j <= |kept|
      invariant forall i :: 0 <= i < j ==> !Duplicates(s.View(), kept[i].View(), alike)
    {
      if Overlap(s.requirementIds, kept[j].requirementIds) &&
         alike((s.title, s.description), (kept[j].title, kept[j].description)) {
        return;
      }
      j := j + 1;
    }
  }

  /** Folds the story into the record it duplicates, or keeps it. */
  method PlaceRecord(kept: seq<StoryRecord>, s: StoryRecord, alike: Alike) returns (kept': seq<StoryRecord>)
    requires Separate(kept) && s !in kept
    modifies kept
    ensures Views(kept') == Place(old(Views(kept)), s.View(), alike)
    ensures Separate(kept') && forall r :: r in kept' ==> r in kept || r == s
  {
    hide Merge;
    var j := FindHome(kept, s, alike);
    ghost var before := Views(kept);
    if j == |kept| {
      kept' := kept + [s];
    } else {
      kept' := kept;
      kept[j].Absorb(s);
      assert Views(kept) == before[j := Merge(before[j], s.View())];
    }
  }

  ghost predicate Within(kept: seq<StoryRecord>, stories: seq<StoryRecord>, n: nat) {
    n <= |stories| && forall r :: r in kept ==> exists i :: 0 <= i < n && stories[i] == r
  }

  method DedupeStories(stories: seq<StoryRecord>, alike: Alike) returns (kept: seq<StoryRecord>)
    requires Separate(stories)
    modifies stories
    ensures Views(kept) == Dedupe(old(Views(stories)), alike)
    ensures Separate(kept) && Within(kept, stories, |stories|)
  {
    hide Place, Dedupe, Homes, Home;
    ghost var views := Views(stories);
    kept := [];
    assert views[..0] == [];
    NoneKept(alike);
    for n := 0 to |stories|
      invariant Views(kept) == Dedupe(views[..n], alike)
      invariant Separate(kept) && Within(kept, stories, n)
      invariant forall i :: n <= i < |stories| ==> stories[i].View() == views[i]
    {
      assert views[..n + 1] == views[..n] + [views[n]];
      DedupeUnfolds(views[..n], views[n], alike);
      NotYet(kept, stories, n);
      ghost var before := kept;
      kept := PlaceRecord(kept, stories[n], alike);
      StillWithin(before, kept, stories, n);
    }
    assert views[..|stories|] == views;
  }

  lemma NotYet(kept: seq<StoryRecord>, stories: seq<StoryRecord>, n: nat)
    requires Separate(stories) && Within(kept, stories, n)
    ensures forall i :: n <= i < |stories| ==> stories[i] !in kept
    ensures forall i :: 0 <= i < |kept| ==> kept[i] in stories
  {
    forall i | 0 <= i < |kept| ensures kept[i] in stories {
      assert kept[i] in kept;
    }
  }

  lemma StillWithin(kept: seq<StoryRecord>, more: seq<StoryRecord>, stories: seq<StoryRecord>, n: nat)
    requires Within(kept, stories, n) && n < |stories| && forall r :: r in more ==> r in kept || r == stories[n]
    ensures Within(more, stories, n + 1)
  {
  }
}
