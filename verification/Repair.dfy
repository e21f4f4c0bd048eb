/**
 The story repair step. A language model proposes replacements for stories with repairable issues;
 whatever it answers, or fails to answer, the step counts as an attempt.
 */
module Repair {
  import opened Texts
  import opened Wrappers
  import opened IssueFamilies
  import Stories
  import Coverage
  import Decimal

  type Story = Stories.Story

  const REPAIRABLE: set<string> := {
    "story_missing_acceptance",
    "story_description_shape",
    "story_empty_title",
    "generic_acceptance_criteria",
    "duplicate_acceptance_criterion",
    "insufficient_acceptance_criteria",
    "all_generic_acceptance_criteria",
    "weak_description",
    "missing_title",
    "story_unsupported_fact",
    "acceptance_criterion_unsupported_fact",
    "acceptance_criterion_not_source_aligned",
    "acceptance_criteria_missing_source_clause",
    "non_human_story_persona"
  }

  datatype State = State(
    stories: seq<Story>, issues: seq<Issue>, resolved: seq<Issue>, coverages: seq<Coverage.Row>, attempts: int)

  datatype Item = Item(id: string, title: string, description: string, criteria: seq<string>, labels: seq<string>)

  /** What becomes of the request: no client to send it, a failure on the way, or proposed stories. */
  datatype Reply = NoClient | Failure | Proposed(items: seq<Item>)

  predicate Repairable(i: Issue) {
    i.itemType == "story" && i.rule in REPAIRABLE
  }

  /** The first story the issue's details mention. */
  function Mentioned(stories: seq<Story>, details: string): Option<string> {
    if stories == [] then None
    else
      var front := Mentioned(stories[..|stories| - 1], details);
      if front.Some? then front
      else if Contains(details, stories[|stories| - 1].id) then Some(stories[|stories| - 1].id)
      else None
  }

  /** The issue gives the step something to do. */
  predicate Actionable(stories: seq<Story>, i: Issue) {
    Repairable(i) && Mentioned(stories, i.details).GetOr("") != ""
  }

  predicate Failing(stories: seq<Story>, issues: seq<Issue>) {
    exists n :: 0 <= n < |issues| && Actionable(stories, issues[n])
  }

  /** The last proposal for a story. */
  function Proposal(items: seq<Item>, id: string): Option<Item> {
    if items == [] then None
    else if items[|items| - 1].id == id then Some(items[|items| - 1])
    else Proposal(items[..|items| - 1], id)
  }

  function Criteria(id: string, texts: seq<string>): (r: seq<Stories.Criterion>)
    ensures |r| == |texts|
  {
    seq(|texts|, n requires 0 <= n < |texts| =>
      Stories.Criterion(id + "_ac_" + Decimal.Numeral(n + 1), texts[n], Contains(texts[n], "Given")))
  }

  function Or<T(==)>(s: seq<T>, fallback: seq<T>): seq<T> {
    if s == [] then fallback else s
  }

  /** A story with a proposal takes its wording and criteria from it; everything else stays. */
  function Updated(s: Story, proposal: Option<Item>): Story {
    match proposal
    case None => s
    case Some(p) => s.(
      title := Or(p.title, s.title),
      description := Or(p.description, s.description),
      criteria := Criteria(s.id, p.criteria),
      labels := Or(p.labels, s.labels))
  }

  /** The deterministic clean-up after repair; it may change a story but not its id. */
  ghost predicate KeepsIds(sanitize: Story -> Story) {
    forall s :: sanitize(s).id == s.id
  }

  function RepairedStories(stories: seq<Story>, items: seq<Item>, sanitize: Story -> Story): (r: seq<Story>)
    ensures |r| == |stories| && forall n :: 0 <= n < |r| ==> r[n] == sanitize(Updated(stories[n], Proposal(items, stories[n].id)))
  {
    seq(|stories|, n requires 0 <= n < |stories| => sanitize(Updated(stories[n], Proposal(items, stories[n].id))))
  }

  /** The issue is about a story that was given a proposal. */
  predicate Resolved(stories: seq<Story>, items: seq<Item>, i: Issue) {
    Repairable(i) && exists n :: 0 <= n < |stories| && Proposal(items, stories[n].id).Some? && Contains(i.details, stories[n].id)
  }

  function Remaining(stories: seq<Story>, items: seq<Item>, issues: seq<Issue>): seq<Issue> {
    if issues == [] then []
    else
      var front, last := Remaining(stories, items, issues[..|issues| - 1]), issues[|issues| - 1];
      if Resolved(stories, items, last) then front else front + [last]
  }

  function ResolvedOf(stories: seq<Story>, items: seq<Item>, issues: seq<Issue>): seq<Issue> {
    if issues == [] then []
    else
      var front, last := ResolvedOf(stories, items, issues[..|issues| - 1]), issues[|issues| - 1];
      if Resolved(stories, items, last) then front + [last] else front
  }

  function AfterRepair(s: State, reqs: seq<Coverage.Requirement>, sanitize: Story -> Story, reply: Reply): State {
    if !Failing(s.stories, s.issues) || !reply.Proposed? then s.(attempts := s.attempts + 1)
    else
      var stories := RepairedStories(s.stories, reply.items, sanitize);
      State(stories,
            Remaining(s.stories, reply.items, s.issues),
            s.resolved + ResolvedOf(s.stories, reply.items, s.issues),
            Coverage.Rebuilt(reqs, stories, s.coverages),
            s.attempts + 1)
  }

  // ---------- what every repair keeps ----------

  /** Every exit counts as an attempt, and one that repairs nothing changes nothing else. */
  lemma RepairCounts(s: State, reqs: seq<Coverage.Requirement>, sanitize: Story -> Story, reply: Reply)
    ensures AfterRepair(s, reqs, sanitize, reply).attempts == s.attempts + 1
    ensures !Failing(s.stories, s.issues) || !reply.Proposed? ==> AfterRepair(s, reqs, sanitize, reply) == s.(attempts := s.attempts + 1)
  {
  }

  /** The stories keep their ids and order. */
  lemma RepairKeepsIds(s: State, reqs: seq<Coverage.Requirement>, sanitize: Story -> Story, reply: Reply)
    requires KeepsIds(sanitize)
    ensures var after := AfterRepair(s, reqs, sanitize, reply);
      |after.stories| == |s.stories| && forall n :: 0 <= n < |s.stories| ==> after.stories[n].id == s.stories[n].id
  {
    hide Failing, Criteria, Or;
    assert forall t, p :: Updated(t, p).id == t.id;
  }

  lemma {:induction false} IssuesSplit(stories: seq<Story>, items: seq<Item>, issues: seq<Issue>)
    ensures multiset(Remaining(stories, items, issues)) + multiset(ResolvedOf(stories, items, issues)) == multiset(issues)
    ensures forall i :: i in ResolvedOf(stories, items, issues) ==> Resolved(stories, items, i)
    ensures forall i :: i in Remaining(stories, items, issues) ==> !Resolved(stories, items, i)
  {
    hide Resolved;
    if issues != [] {
      var front, last := issues[..|issues| - 1], issues[|issues| - 1];
      IssuesSplit(stories, items, front);
      assert issues == front + [last];
    }
  }

  /** Open and resolved issues stay in the order they were reported in. */
  lemma {:induction false} IssuesInOrder(stories: seq<Story>, items: seq<Item>, issues: seq<Issue>, more: seq<Issue>)
    ensures Remaining(stories, items, issues) <= Remaining(stories, items, issues + more)
    ensures ResolvedOf(stories, items, issues) <= ResolvedOf(stories, items, issues + more)
  {
    hide Resolved;
    if more == [] {
      assert issues + more == issues;
    } else {
      IssuesInOrder(stories, items, issues, more[..|more| - 1]);
      assert (issues + more)[..|issues + more| - 1] == issues + more[..|more| - 1];
    }
  }

  /** Issues are never lost: each stays open or is newly resolved, and only one about a repaired story is resolved. */
  lemma RepairLosesNoIssue(s: State, reqs: seq<Coverage.Requirement>, sanitize: Story -> Story, reply: Reply)
    ensures var after := AfterRepair(s, reqs, sanitize, reply);
      && multiset(after.issues) + multiset(after.resolved) == multiset(s.issues) + multiset(s.resolved)
      && s.resolved <= after.resolved
      && (forall n :: |s.resolved| <= n < |after.resolved| ==> reply.Proposed? && Resolved(s.stories, reply.items, after.resolved[n]))
  {
    hide Failing, Resolved, RepairedStories;
    if reply.Proposed? {
      IssuesSplit(s.stories, reply.items, s.issues);
      var more := ResolvedOf(s.stories, reply.items, s.issues);
      assert forall n :: |s.resolved| <= n < |s.resolved + more| ==> (s.resolved + more)[n] in more;
    }
  }

  /** After a repair, every story row of the coverage names one of the repaired stories. */
  lemma RepairCoverage(s: State, reqs: seq<Coverage.Requirement>, sanitize: Story -> Story, reply: Reply, i: nat)
    requires Failing(s.stories, s.issues) && reply.Proposed? && i < |reqs|
    ensures var after := AfterRepair(s, reqs, sanitize, reply);
      && |after.coverages| == |reqs| && after.coverages[i].requirementId == reqs[i].id
      && (Coverage.StoryRow(after.coverages[i]) ==> exists j :: Coverage.Names(after.coverages[i], after.stories, j))
  {
    hide Failing;
    Coverage.RebuiltExact(reqs, RepairedStories(s.stories, reply.items, sanitize), s.coverages, i);
  }

  // ---------- what a proposal changes ----------

  /** The last item proposed under the id. */
  ghost predicate LastFor(items: seq<Item>, id: string, k: int) {
    0 <= k < |items| && items[k].id == id && forall m :: k < m < |items| ==> items[m].id != id
  }

  lemma {:induction false} ProposalIs(items: seq<Item>, id: string, k: int)
    requires LastFor(items, id, k)
    ensures Proposal(items, id) == Some(items[k])
  {
    var front := items[..|items| - 1];
    if k < |front| {
      assert items[|items| - 1].id != id;
      ProposalIs(front, id, k);
    }
  }

  lemma {:induction false} NoProposal(items: seq<Item>, id: string)
    requires forall k :: 0 <= k < |items| ==> items[k].id != id
    ensures Proposal(items, id) == None
  {
    if items != [] {
      NoProposal(items[..|items| - 1], id);
    }
  }

  /** Before the clean-up, the story reads as proposed, what the proposal leaves blank as before, and is otherwise the same. */
  ghost predicate ReadsAs(before: Story, p: Item, after: Story) {
    && after.title == (if p.title != "" then p.title else before.title)
    && after.description == (if p.description != "" then p.description else before.description)
    && after.labels == (if p.labels != [] then p.labels else before.labels)
    && |after.criteria| == |p.criteria|
    && (forall m :: 0 <= m < |p.criteria| ==> after.criteria[m].text == p.criteria[m])
    && (forall m :: 0 <= m < |p.criteria| ==> (after.criteria[m].scenario <==> Contains(p.criteria[m], "Given")))
    && (forall m, n :: 0 <= m < n < |p.criteria| ==> after.criteria[m].id != after.criteria[n].id)
    && after.id == before.id && after.requirementIds == before.requirementIds && after.evidence == before.evidence
    && after.priority == before.priority && after.points == before.points
  }

  lemma CriteriaDistinct(id: string, texts: seq<string>, m: nat, n: nat)
    requires m < n < |texts|
    ensures Criteria(id, texts)[m].id != Criteria(id, texts)[n].id
  {
    var pre, x, y := id + "_ac_", Decimal.Numeral(m + 1), Decimal.Numeral(n + 1);
    if x == y {
      Decimal.NumeralInjective(m + 1, n + 1);
    }
    assert (pre + x)[|pre|..] == x && (pre + y)[|pre|..] == y;
  }

  lemma UpdatedReads(s: Story, p: Item)
    ensures ReadsAs(s, p, Updated(s, Some(p)))
  {
    forall m, n | 0 <= m < n < |p.criteria|
      ensures Criteria(s.id, p.criteria)[m].id != Criteria(s.id, p.criteria)[n].id
    {
      CriteriaDistinct(s.id, p.criteria, m, n);
    }
    hide Contains, Decimal.Numeral;
  }

  /** A story with a proposal is the cleaned-up proposal, and one without is only cleaned up. */
  lemma ProposalsReachStories(s: State, reqs: seq<Coverage.Requirement>, sanitize: Story -> Story, items: seq<Item>, n: nat)
    requires Failing(s.stories, s.issues) && n < |s.stories|
    ensures var before, after := s.stories[n], AfterRepair(s, reqs, sanitize, Proposed(items)).stories;
      && |after| == |s.stories|
      && ((forall k :: 0 <= k < |items| ==> items[k].id != before.id) ==> after[n] == sanitize(before))
      && (forall k :: LastFor(items, before.id, k) ==> exists t :: ReadsAs(before, items[k], t) && after[n] == sanitize(t))
  {
    hide Failing, Updated, Proposal, ReadsAs;
    var before := s.stories[n];
    if forall k :: 0 <= k < |items| ==> items[k].id != before.id {
      NoProposal(items, before.id);
      NotUpdated(before);
    }
    forall k | LastFor(items, before.id, k)
      ensures exists t :: ReadsAs(before, items[k], t) && AfterRepair(s, reqs, sanitize, Proposed(items)).stories[n] == sanitize(t)
    {
      ProposalIs(items, before.id, k);
      UpdatedReads(before, items[k]);
    }
  }

  lemma NotUpdated(s: Story)
    ensures Updated(s, None) == s
  {
  }

  /** An issue gives the step something to do when it is repairable and names a story, unless the first it names has no id. */
  lemma {:induction false} MentionedFirst(stories: seq<Story>, details: string)
    requires forall n :: 0 <= n < |stories| ==> stories[n].id != ""
    ensures Mentioned(stories, details).GetOr("") != "" <==> exists n :: 0 <= n < |stories| && Contains(details, stories[n].id)
    ensures Mentioned(stories, details) != Some("")
  {
    hide Contains;
    if stories != [] {
      var front, last := stories[..|stories| - 1], stories[|stories| - 1];
      MentionedFirst(front, details);
      assert forall n :: 0 <= n < |front| ==> front[n] == stories[n];
      if n :| 0 <= n < |stories| && Contains(details, stories[n].id) {
        assert n < |front| ==> Contains(details, front[n].id);
      }
    }
  }

  // ---------- whose issues are resolved ----------

  /** The story has a proposal. */
  predicate Repaired(stories: seq<Story>, items: seq<Item>, n: int) {
    0 <= n < |stories| && Proposal(items, stories[n].id).Some?
  }

  /**
   An issue whose details name a story is resolved when that story is repaired. Stories are recognised by
   their id occurring in the details, so it is resolved without that exactly when the id of another
   repaired story occurs there.
   */
  lemma ResolvedIff(stories: seq<Story>, items: seq<Item>, i: Issue, own: nat, pre: string, post: string)
    requires own < |stories| && Repairable(i) && i.details == pre + stories[own].id + post
    ensures Repaired(stories, items, own) ==> Resolved(stories, items, i)
    ensures !Repaired(stories, items, own) ==>
      (Resolved(stories, items, i) <==>
        exists n :: Repaired(stories, items, n) && stories[n].id != stories[own].id && Contains(i.details, stories[n].id))
  {
    hide Repairable, Contains, Proposal;
    ContainsPart(pre, stories[own].id, post);
  }

  /** The id given to the story generated for requirement `n` of a job. */
  function StoryId(job: string, n: nat): string {
    Mark(job) + Decimal.Numeral(n)
  }

  function Mark(job: string): string {
    job + "_story_"
  }

  /** The details name story `m` of the job and no other: each story id in them is that one, with no digit after it. */
  ghost predicate NamesOnly(details: string, job: string, m: nat) {
    && Contains(details, StoryId(job, m))
    && forall at :: OccursAt(details, Mark(job), at) ==> NamedAt(details, job, m, at)
  }

  predicate NamedAt(details: string, job: string, m: nat, at: int) {
    && OccursAt(details, StoryId(job, m), at)
    && (at + |StoryId(job, m)| == |details| || !Decimal.IsDigit(details[at + |StoryId(job, m)|]))
  }

  lemma OccursPrefix(s: string, part: string, whole: string, at: int)
    requires OccursAt(s, whole, at) && part <= whole
    ensures OccursAt(s, part, at)
  {
    assert s[at..at + |part|] == s[at..at + |whole|][..|part|];
  }

  /** The id of story `k` occurs in details that name story `m` exactly when its numeral begins that of `m`. */
  lemma OccursIffPrefix(details: string, job: string, m: nat, k: nat)
    requires NamesOnly(details, job, m)
    ensures Contains(details, StoryId(job, k)) <==> Decimal.Numeral(k) <= Decimal.Numeral(m)
  {
    hide Decimal.Numeral, OccursAt;
    var own, other := StoryId(job, m), StoryId(job, k);
    if Decimal.Numeral(k) <= Decimal.Numeral(m) {
      var at :| 0 <= at <= |details| && OccursAt(details, own, at);
      OccursPrefix(details, other, own, at);
    }
    if at :| 0 <= at <= |details| && OccursAt(details, other, at) {
      OccursPrefix(details, Mark(job), other, at);
      assert NamedAt(details, job, m, at);
      Decimal.NumeralValue(k);
      NumeralsMeet(details, Mark(job), Decimal.Numeral(m), Decimal.Numeral(k), at);
    }
  }

  lemma NumeralsMeet(s: string, mark: string, x: string, y: string, at: int)
    requires OccursAt(s, mark + x, at) && OccursAt(s, mark + y, at)
    requires at + |mark + x| == |s| || !Decimal.IsDigit(s[at + |mark + x|])
    requires forall i :: 0 <= i < |y| ==> Decimal.IsDigit(y[i])
    ensures y <= x
  {
    var from := at + |mark|;
    assert x == (mark + x)[|mark|..] == s[at..at + |mark + x|][|mark|..] == s[from..from + |x|];
    assert y == (mark + y)[|mark|..] == s[at..at + |mark + y|][|mark|..] == s[from..from + |y|];
    forall j | from <= j < from + |y| ensures Decimal.IsDigit(s[j]) {
      assert s[j] == y[j - from];
    }
  }

  /** The stories bear generated ids. */
  ghost predicate Generated(stories: seq<Story>, job: string, numbers: seq<nat>) {
    |numbers| == |stories| && forall n :: 0 <= n < |stories| ==> stories[n].id == StoryId(job, numbers[n])
  }

  /**
   With generated ids, an issue naming story `m` is resolved exactly when a repaired story's number is `m`
   or `m` without its last digits.
   */
  lemma GeneratedResolvedIff(stories: seq<Story>, items: seq<Item>, job: string, numbers: seq<nat>, i: Issue, m: nat)
    requires Generated(stories, job, numbers) && Repairable(i) && NamesOnly(i.details, job, m)
    ensures Resolved(stories, items, i) <==> exists n :: Repaired(stories, items, n) && Decimal.Shortened(m, numbers[n])
  {
    hide Repairable, Contains, Proposal, NamesOnly, StoryId;
    forall n | 0 <= n < |stories| ensures Contains(i.details, stories[n].id) <==> Decimal.Shortened(m, numbers[n]) {
      OccursIffPrefix(i.details, job, m, numbers[n]);
      Decimal.PrefixIffShortened(m, numbers[n]);
    }
  }

  /** Up to nine requirements, or with numerals of one length, only issues of repaired stories are resolved. */
  lemma OneLengthResolvesOwn(stories: seq<Story>, items: seq<Item>, job: string, numbers: seq<nat>, i: Issue, own: nat)
    requires Generated(stories, job, numbers) && own < |stories| && Repairable(i) && NamesOnly(i.details, job, numbers[own])
    requires forall n :: 0 <= n < |numbers| ==> |Decimal.Numeral(numbers[n])| == |Decimal.Numeral(numbers[own])|
    ensures Resolved(stories, items, i) <==> Repaired(stories, items, own)
  {
    GeneratedResolvedIff(stories, items, job, numbers, i, numbers[own]);
    hide Repairable, Proposal, NamesOnly, StoryId, Resolved;
    forall n | 0 <= n < |numbers| ensures Decimal.Shortened(numbers[own], numbers[n]) <==> numbers[n] == numbers[own] {
      Decimal.PrefixIffShortened(numbers[own], numbers[n]);
      if Decimal.Numeral(numbers[n]) <= Decimal.Numeral(numbers[own]) {
        Decimal.NumeralInjective(numbers[n], numbers[own]);
      }
    }
  }

  function Plain(id: string): Story {
    Stories.Story(id, "", "As an analyst, I want to export the report", [], [1], [], [], "Medium", 1)
  }

  /** Repairing story 1 resolves an issue about story 10, which was not repaired. */
  lemma TenthResolvedForFirst(job: string)
    ensures var stories, items := [Plain(StoryId(job, 1)), Plain(StoryId(job, 10))], [Item(StoryId(job, 1), "Export", "", [], [])];
      var i := Issue(2, "story", "medium", "story_empty_title", "Story " + StoryId(job, 10) + " has empty title");
      !Repaired(stories, items, 1) && Resolved(stories, items, i)
  {
    var first, tenth := StoryId(job, 1), StoryId(job, 10);
    var stories, items := [Plain(first), Plain(tenth)], [Item(first, "Export", "", [], [])];
    var i := Issue(2, "story", "medium", "story_empty_title", "Story " + tenth + " has empty title");
    assert Decimal.Numeral(10) == Decimal.Numeral(1) + [Decimal.Digit(0)];
    assert tenth == first + [Decimal.Digit(0)] && tenth != first;
    assert Proposal([], tenth) == None;
    assert items[..0] == [];
    hide StoryId, Contains;
    assert Repaired(stories, items, 0) && !Repaired(stories, items, 1);
    ContainsPart("Story ", first, [Decimal.Digit(0)] + " has empty title");
    assert i.details == "Story " + first + ([Decimal.Digit(0)] + " has empty title");
    assert stories[0].id == first;
  }

  // ---------- the computation ----------

  method RepairStories(s: State, reqs: seq<Coverage.Requirement>, sanitize: Story -> Story, reply: Reply) returns (after: State)
    ensures after == AfterRepair(s, reqs, sanitize, reply)
  {
    hide Actionable, Resolved;
    var failing := false;
    for n := 0 to |s.issues|
      invariant failing <==> exists m :: 0 <= m < n && Actionable(s.stories, s.issues[m])
    {
      if Actionable(s.stories, s.issues[n]) {
        failing := true;
      }
    }
    if !failing || reply.NoClient? || reply.Failure? {
      return s.(attempts := s.attempts + 1);
    }
    var stories := UpdateStories(s.stories, reply.items, sanitize);
    var coverages := Coverage.RebuildCoverages(reqs, stories, s.coverages);
    var remaining, resolved := SplitIssues(s.stories, reply.items, s.issues);
    after := State(stories, remaining, s.resolved + resolved, coverages, s.attempts + 1);
  }

  method UpdateStories(stories: seq<Story>, items: seq<Item>, sanitize: Story -> Story) returns (updated: seq<Story>)
    ensures updated == RepairedStories(stories, items, sanitize)
  {
    var proposals: map<string, Item> := map[];
    assert items[..0] == [];
    for n := 0 to |items|
      invariant forall id :: (if id in proposals then Some(proposals[id]) else None) == Proposal(items[..n], id)
    {
      assert items[..n + 1][..n] == items[..n];
      proposals := proposals[items[n].id := items[n]];
    }
    assert items[..|items|] == items;
    updated := [];
    for n := 0 to |stories|
      invariant updated == RepairedStories(stories[..n], items, sanitize)
    {
      hide Proposal, Updated;
      assert stories[..n + 1] == stories[..n] + [stories[n]];
      var s := stories[n];
      var proposal := if s.id in proposals then Some(proposals[s.id]) else None;
      updated := updated + [sanitize(Updated(s, proposal))];
    }
    assert stories[..|stories|] == stories;
  }

  method SplitIssues(stories: seq<Story>, items: seq<Item>, issues: seq<Issue>) returns (remaining: seq<Issue>, resolved: seq<Issue>)
    ensures remaining == Remaining(stories, items, issues) && resolved == ResolvedOf(stories, items, issues)
  {
    hide Resolved;
    remaining, resolved := [], [];
    assert issues[..0] == [];
    for n := 0 to |issues|
      invariant remaining == Remaining(stories, items, issues[..n]) && resolved == ResolvedOf(stories, items, issues[..n])
    {
      assert issues[..n + 1][..n] == issues[..n];
      if Resolved(stories, items, issues[n]) {
        resolved := resolved + [issues[n]];
      } else {
        remaining := remaining + [issues[n]];
      }
    }
    assert issues[..|issues|] == issues;
  }
}
