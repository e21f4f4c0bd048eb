/**
 Requirement coverage in the public result: internal ids are translated to the codes of what was
 emitted, and whatever does not lead to something emitted is left out.
 */
module PublicCoverage {
  import opened Sequences
  import opened Wrappers
  import opened Decimal
  import Stories
  import Coverage

  type Story = Stories.Story

  datatype PublicRow = PublicRow(requirement: string, kind: Coverage.Kind, storyIds: seq<string>, criterionIds: seq<string>, reason: Coverage.Reason)

  /** The code of the requirement at a position. */
  function RequirementAt(i: nat): string {
    Code("REQ", i + 1)
  }

  /** The code of the story at a position. */
  function StoryAt(j: nat): string {
    Code("US", j + 1)
  }

  /** The code of a requirement; of several with one id, the last. */
  function RequirementCode(reqs: seq<int>, id: int): Option<string> {
    if reqs == [] then None
    else if reqs[|reqs| - 1] == id then Some(RequirementAt(|reqs| - 1))
    else RequirementCode(reqs[..|reqs| - 1], id)
  }

  /** The code of a story; of several with one id, the first. */
  function StoryCode(stories: seq<Story>, id: string): Option<string> {
    if stories == [] then None
    else
      var front := StoryCode(stories[..|stories| - 1], id);
      if front.Some? then front
      else if stories[|stories| - 1].id == id then Some(StoryAt(|stories| - 1))
      else None
  }

  predicate EmittedRequirement(reqs: seq<int>, code: string) {
    exists i :: 0 <= i < |reqs| && RequirementAt(i) == code
  }

  predicate EmittedStory(stories: seq<Story>, code: string) {
    exists j :: 0 <= j < |stories| && StoryAt(j) == code
  }

  predicate EmittedCriterion(stories: seq<Story>, id: string) {
    exists j :: 0 <= j < |stories| && id in Coverage.CriterionIds(stories[j].criteria)
  }

  /** An internal id is translated; an id that is public already is accepted. */
  function PublicStory(stories: seq<Story>, id: string): Option<string> {
    var code := StoryCode(stories, id);
    if code.Some? then code else if EmittedStory(stories, id) then Some(id) else None
  }

  function PublicStories(stories: seq<Story>, ids: seq<string>): seq<string> {
    if ids == [] then []
    else
      var front, code := PublicStories(stories, ids[..|ids| - 1]), PublicStory(stories, ids[|ids| - 1]);
      if code.Some? && code.value !in front then front + [code.value] else front
  }

  function PublicCriteria(stories: seq<Story>, ids: seq<string>): seq<string> {
    if ids == [] then []
    else
      var front, last := PublicCriteria(stories, ids[..|ids| - 1]), ids[|ids| - 1];
      if EmittedCriterion(stories, last) && last !in front then front + [last] else front
  }

  function PublicRows(reqs: seq<int>, stories: seq<Story>, rows: seq<Coverage.Row>): seq<PublicRow> {
    if rows == [] then []
    else
      var front, last := PublicRows(reqs, stories, rows[..|rows| - 1]), rows[|rows| - 1];
      var code := RequirementCode(reqs, last.requirementId);
      if code.None? then front
      else front + [PublicRow(code.value, last.kind, PublicStories(stories, last.storyIds), PublicCriteria(stories, last.criterionIds), last.reason)]
  }

  // ---------- what public rows name ----------

  lemma {:induction false} RequirementCodeIs(reqs: seq<int>, id: int)
    ensures RequirementCode(reqs, id).Some? <==> id in reqs
    ensures RequirementCode(reqs, id).Some? ==> exists i :: 0 <= i < |reqs| && reqs[i] == id && RequirementAt(i) == RequirementCode(reqs, id).value
  {
    if reqs != [] {
      RequirementCodeIs(reqs[..|reqs| - 1], id);
    }
  }

  lemma {:induction false} StoryCodeIs(stories: seq<Story>, id: string)
    ensures StoryCode(stories, id).Some? ==> exists j :: 0 <= j < |stories| && stories[j].id == id && StoryAt(j) == StoryCode(stories, id).value
    ensures StoryCode(stories, id).None? ==> forall j :: 0 <= j < |stories| ==> stories[j].id != id
  {
    if stories != [] {
      StoryCodeIs(stories[..|stories| - 1], id);
    }
  }

  /** Some id among those given leads to the code. */
  ghost predicate LedTo(stories: seq<Story>, ids: seq<string>, code: string) {
    exists i :: 0 <= i < |ids| && PublicStory(stories, ids[i]) == Some(code)
  }

  lemma LedToAppend(stories: seq<Story>, ids: seq<string>, id: string, code: string)
    ensures LedTo(stories, ids + [id], code) <==> LedTo(stories, ids, code) || PublicStory(stories, id) == Some(code)
  {
    hide PublicStory;
    var more := ids + [id];
    if i :| 0 <= i < |ids| && PublicStory(stories, ids[i]) == Some(code) {
      assert more[i] == ids[i];
    }
    assert more[|ids|] == id;
  }

  /** The public stories are those some id leads to, each once. */
  lemma {:induction false} PublicStoriesExact(stories: seq<Story>, ids: seq<string>)
    ensures NoRepeats(PublicStories(stories, ids))
    ensures forall c :: c in PublicStories(stories, ids) <==> LedTo(stories, ids, c)
  {
    hide PublicStory, LedTo;
    if ids != [] {
      var front, last := ids[..|ids| - 1], ids[|ids| - 1];
      PublicStoriesExact(stories, front);
      assert ids == front + [last];
      forall c ensures LedTo(stories, ids, c) <==> LedTo(stories, front, c) || PublicStory(stories, last) == Some(c) {
        LedToAppend(stories, front, last, c);
      }
    } else {
      NothingLeads(stories);
    }
  }

  lemma NothingLeads(stories: seq<Story>)
    ensures forall c :: !LedTo(stories, [], c)
  {
  }

  lemma LedToEmitted(stories: seq<Story>, ids: seq<string>, code: string)
    requires LedTo(stories, ids, code)
    ensures EmittedStory(stories, code)
  {
    var i :| 0 <= i < |ids| && PublicStory(stories, ids[i]) == Some(code);
    PublicStoryEmitted(stories, ids[i]);
  }

  lemma PublicStoryEmitted(stories: seq<Story>, id: string)
    ensures PublicStory(stories, id).Some? ==> EmittedStory(stories, PublicStory(stories, id).value)
  {
    StoryCodeIs(stories, id);
    hide StoryAt;
  }

  lemma {:induction false} PublicCriteriaExact(stories: seq<Story>, ids: seq<string>)
    ensures NoRepeats(PublicCriteria(stories, ids))
    ensures forall c :: c in PublicCriteria(stories, ids) <==> c in ids && EmittedCriterion(stories, c)
  {
    hide EmittedCriterion;
    if ids != [] {
      PublicCriteriaExact(stories, ids[..|ids| - 1]);
      assert ids == ids[..|ids| - 1] + [ids[|ids| - 1]];
    }
  }

  /** A public row names only what was emitted, each story and criterion once. */
  ghost predicate NamesEmitted(reqs: seq<int>, stories: seq<Story>, row: PublicRow) {
    && EmittedRequirement(reqs, row.requirement)
    && (forall c :: c in row.storyIds ==> EmittedStory(stories, c)) && NoRepeats(row.storyIds)
    && (forall c :: c in row.criterionIds ==> EmittedCriterion(stories, c)) && NoRepeats(row.criterionIds)
  }

  lemma {:induction false} RowsNameEmitted(reqs: seq<int>, stories: seq<Story>, rows: seq<Coverage.Row>)
    ensures forall i :: 0 <= i < |PublicRows(reqs, stories, rows)| ==> NamesEmitted(reqs, stories, PublicRows(reqs, stories, rows)[i])
  {
    hide NoRepeats, EmittedStory, EmittedCriterion, PublicStories, PublicCriteria, RequirementAt, LedTo;
    if rows != [] {
      var last := rows[|rows| - 1];
      RowsNameEmitted(reqs, stories, rows[..|rows| - 1]);
      RequirementCodeIs(reqs, last.requirementId);
      PublicStoriesExact(stories, last.storyIds);
      forall c | LedTo(stories, last.storyIds, c) ensures EmittedStory(stories, c) {
        LedToEmitted(stories, last.storyIds, c);
      }
      PublicCriteriaExact(stories, last.criterionIds);
    }
  }

  /** The rows whose requirement was emitted. */
  function Kept(reqs: seq<int>, rows: seq<Coverage.Row>): (kept: seq<Coverage.Row>)
    ensures forall row :: row in kept <==> row in rows && row.requirementId in reqs
  {
    if rows == [] then []
    else
      var front, last := Kept(reqs, rows[..|rows| - 1]), rows[|rows| - 1];
      assert rows == rows[..|rows| - 1] + [last];
      if last.requirementId in reqs then front + [last] else front
  }

  /** The public rows are those whose requirement was emitted, in order, each translated; the others are left out. */
  lemma {:induction false} RowsKept(reqs: seq<int>, stories: seq<Story>, rows: seq<Coverage.Row>)
    ensures |PublicRows(reqs, stories, rows)| == |Kept(reqs, rows)|
    ensures forall i :: 0 <= i < |Kept(reqs, rows)| ==> RowTranslates(reqs, stories, Kept(reqs, rows)[i], PublicRows(reqs, stories, rows)[i])
  {
    hide PublicStories, PublicCriteria;
    if rows != [] {
      RowsKept(reqs, stories, rows[..|rows| - 1]);
      RequirementCodeIs(reqs, rows[|rows| - 1].requirementId);
    }
  }

  lemma {:induction false} AllKept(reqs: seq<int>, rows: seq<Coverage.Row>)
    requires forall i :: 0 <= i < |rows| ==> rows[i].requirementId in reqs
    ensures Kept(reqs, rows) == rows
  {
    if rows != [] {
      var front, last := rows[..|rows| - 1], rows[|rows| - 1];
      AllKept(reqs, front);
      assert rows == front + [last] && last.requirementId in reqs;
      assert Kept(reqs, rows) == Kept(reqs, front) + [last];
      hide Kept;
    }
  }

  ghost predicate RowTranslates(reqs: seq<int>, stories: seq<Story>, row: Coverage.Row, p: PublicRow) {
    && RequirementCode(reqs, row.requirementId) == Some(p.requirement)
    && p.kind == row.kind && p.reason == row.reason
    && p.storyIds == PublicStories(stories, row.storyIds)
    && p.criterionIds == PublicCriteria(stories, row.criterionIds)
  }

  // ---------- what an id leads to ----------

  ghost predicate FirstNamed(stories: seq<Story>, id: string, j: int) {
    0 <= j < |stories| && stories[j].id == id && forall k :: 0 <= k < j ==> stories[k].id != id
  }

  predicate IsStoryCode(code: string, j: nat) {
    code == Code("US", j + 1)
  }

  /** An internal id leads to the first story that bears it; any other to itself if it is a public one, and to nothing otherwise. */
  lemma LeadsTo(stories: seq<Story>, id: string)
    ensures forall j :: FirstNamed(stories, id, j) ==> PublicStory(stories, id) == Some(Code("US", j + 1))
    ensures (forall j :: 0 <= j < |stories| ==> stories[j].id != id) ==>
      PublicStory(stories, id) == if exists j: nat :: j < |stories| && IsStoryCode(id, j) then Some(id) else None
  {
    hide Code;
    StoryCodeIs(stories, id);
    forall j | FirstNamed(stories, id, j) ensures StoryCode(stories, id) == Some(StoryAt(j)) {
      StoryCodeOfFirst(stories, j);
    }
    if j: nat :| j < |stories| && IsStoryCode(id, j) {
      assert StoryAt(j) == id;
    }
    if j :| 0 <= j < |stories| && StoryAt(j) == id {
      assert IsStoryCode(id, j);
    }
  }

  /** Codes are numbered from one. */
  lemma CodesNumbered(i: nat)
    ensures RequirementAt(i) == Code("REQ", i + 1) && StoryAt(i) == Code("US", i + 1)
    ensures RequirementAt(0) == "REQ-001" && StoryAt(41) == "US-042" && RequirementAt(999) == "REQ-1000"
  {
    CodeExamples();
    hide Code;
  }

  lemma CodeExamples()
    ensures Code("REQ", 1) == "REQ-001" && Code("US", 42) == "US-042" && Code("REQ", 1000) == "REQ-1000"
  {
    assert Numeral(1) == "1";
    assert Numeral(4) == "4" && Numeral(42) == "42";
    assert Numeral(10) == "10" && Numeral(100) == "100" && Numeral(1000) == "1000";
    assert Padded("01") == "001" && Padded("1") == "001";
    assert Padded("42") == "042";
  }

  /** Further ids add stories and criteria at the end. */
  lemma {:induction false} PublicInOrder(stories: seq<Story>, ids: seq<string>, more: seq<string>)
    ensures PublicStories(stories, ids) <= PublicStories(stories, ids + more)
    ensures PublicCriteria(stories, ids) <= PublicCriteria(stories, ids + more)
  {
    hide PublicStory, EmittedCriterion;
    if more == [] {
      assert ids + more == ids;
    } else {
      PublicInOrder(stories, ids, more[..|more| - 1]);
      assert (ids + more)[..|ids + more| - 1] == ids + more[..|more| - 1];
    }
  }

  // ---------- from rebuilt coverage to the public result ----------

  function IdsOf(reqs: seq<Coverage.Requirement>): (r: seq<int>)
    ensures |r| == |reqs| && forall i :: 0 <= i < |r| ==> r[i] == reqs[i].id
  {
    seq(|reqs|, i requires 0 <= i < |reqs| => reqs[i].id)
  }

  ghost predicate DistinctStories(stories: seq<Story>) {
    forall i, j :: 0 <= i < j < |stories| ==> stories[i].id != stories[j].id
  }

  lemma {:induction false} CodeOfOnly(reqs: seq<int>, i: int)
    requires 0 <= i < |reqs| && forall k :: i < k < |reqs| ==> reqs[k] != reqs[i]
    ensures RequirementCode(reqs, reqs[i]) == Some(RequirementAt(i))
  {
    if i < |reqs| - 1 {
      CodeOfOnly(reqs[..|reqs| - 1], i);
    }
  }

  lemma {:induction false} StoryCodeOfFirst(stories: seq<Story>, j: int)
    requires 0 <= j < |stories| && forall k :: 0 <= k < j ==> stories[k].id != stories[j].id
    ensures StoryCode(stories, stories[j].id) == Some(StoryAt(j))
  {
    if j < |stories| - 1 {
      StoryCodeOfFirst(stories[..|stories| - 1], j);
    } else {
      StoryCodeIs(stories[..j], stories[j].id);
    }
  }

  /** Position `k` holds the last requirement with the id. */
  ghost predicate LastWith(reqs: seq<Coverage.Requirement>, id: int, k: nat) {
    k < |reqs| && reqs[k].id == id && forall m :: k < m < |reqs| ==> reqs[m].id != id
  }

  /** Position `f` holds the first story with the id. */
  ghost predicate FirstWith(stories: seq<Story>, id: string, f: nat) {
    f < |stories| && stories[f].id == id && forall m :: 0 <= m < f ==> stories[m].id != id
  }

  lemma {:induction false} LastExists(reqs: seq<Coverage.Requirement>, i: nat) returns (k: nat)
    requires i < |reqs|
    ensures LastWith(reqs, reqs[i].id, k) && i <= k
    decreases |reqs| - i
  {
    if LastWith(reqs, reqs[i].id, i) {
      k := i;
    } else {
      var m :| i < m < |reqs| && reqs[m].id == reqs[i].id;
      k := LastExists(reqs, m);
    }
  }

  lemma {:induction false} FirstExists(stories: seq<Story>, j: nat) returns (f: nat)
    requires j < |stories|
    ensures FirstWith(stories, stories[j].id, f) && f <= j
  {
    if FirstWith(stories, stories[j].id, j) {
      f := j;
    } else {
      var m :| 0 <= m < j && stories[m].id == stories[j].id;
      f := FirstExists(stories, m);
    }
  }

  /**
   The public story row for the requirement at `i`: story `j` lists the requirement and lends its criteria;
   the codes are those of the last requirement with this id and of the first story with that id.
   */
  ghost predicate Translated(reqs: seq<Coverage.Requirement>, stories: seq<Story>, p: PublicRow, i: nat, k: nat, j: nat, f: nat) {
    && i < |reqs| && LastWith(reqs, reqs[i].id, k) && p.requirement == RequirementAt(k)
    && j < |stories| && reqs[i].id in stories[j].requirementIds
    && FirstWith(stories, stories[j].id, f) && p.storyIds == [StoryAt(f)]
    && forall c :: c in p.criterionIds <==> c in Coverage.CriterionIds(stories[j].criteria)
  }

  lemma RebuiltRowsKept(reqs: seq<Coverage.Requirement>, stories: seq<Story>, existing: seq<Coverage.Row>, i: nat)
    requires i < |reqs|
    ensures var internals := Coverage.Rebuilt(reqs, stories, existing);
      var rows := PublicRows(IdsOf(reqs), stories, internals);
      && |rows| == |internals| == |reqs| && RowTranslates(IdsOf(reqs), stories, internals[i], rows[i])
      && internals[i].requirementId == reqs[i].id
      && (Coverage.StoryRow(internals[i]) ==> exists j :: Coverage.Names(internals[i], stories, j))
  {
    hide Coverage.RowFor, Coverage.Rebuilt, Coverage.Names, PublicRows, RowTranslates;
    var internals := Coverage.Rebuilt(reqs, stories, existing);
    forall m | 0 <= m < |reqs| ensures internals[m].requirementId == reqs[m].id && reqs[m].id in IdsOf(reqs) {
      Coverage.RebuiltExact(reqs, stories, existing, m);
      assert IdsOf(reqs)[m] == reqs[m].id;
    }
    Coverage.RebuiltExact(reqs, stories, existing, i);
    RowsKept(IdsOf(reqs), stories, internals);
    AllKept(IdsOf(reqs), internals);
  }

  /** Coverage rebuilt from the stories comes out row for row, each translated, whether or not ids repeat. */
  lemma RebuiltCoverageTranslated(reqs: seq<Coverage.Requirement>, stories: seq<Story>, existing: seq<Coverage.Row>, i: nat) returns (k: nat, j: nat, f: nat)
    requires i < |reqs|
    ensures var rows := PublicRows(IdsOf(reqs), stories, Coverage.Rebuilt(reqs, stories, existing));
      && |rows| == |reqs| && LastWith(reqs, reqs[i].id, k) && rows[i].requirement == RequirementAt(k)
      && (rows[i].kind.CoveredByStory? || rows[i].kind.MergedIntoStory? ==> Translated(reqs, stories, rows[i], i, k, j, f))
  {
    hide Coverage.Rebuilt, PublicRows, Translated, PublicStories, PublicCriteria, RequirementAt;
    RebuiltRowsKept(reqs, stories, existing, i);
    var row := Coverage.Rebuilt(reqs, stories, existing)[i];
    j, f := 0, 0;
    k := LastExists(reqs, i);
    CodeOfOnly(IdsOf(reqs), k);
    if Coverage.StoryRow(row) {
      j :| Coverage.Names(row, stories, j);
      f := FirstExists(stories, j);
      var p := PublicRows(IdsOf(reqs), stories, Coverage.Rebuilt(reqs, stories, existing))[i];
      StoryRowTranslated(reqs, stories, row, p, i, k, j, f);
    }
  }

  lemma StoryRowTranslated(reqs: seq<Coverage.Requirement>, stories: seq<Story>, row: Coverage.Row, p: PublicRow, i: nat, k: nat, j: nat, f: nat)
    requires i < |reqs| && row.requirementId == reqs[i].id && Coverage.Names(row, stories, j) && FirstWith(stories, stories[j].id, f)
    requires RowTranslates(IdsOf(reqs), stories, row, p) && LastWith(reqs, reqs[i].id, k) && p.requirement == RequirementAt(k)
    ensures Translated(reqs, stories, p, i, k, j, f)
  {
    StoryCodeOfFirst(stories, f);
    var id := stories[j].id;
    assert row.storyIds == [id] && [id][..0] == [];
    assert PublicStories(stories, []) == [];
    assert PublicStories(stories, [id]) == [StoryAt(f)];
    PublicCriteriaExact(stories, row.criterionIds);
    hide PublicStories, PublicCriteria, StoryAt, RequirementAt, StoryCode;
    forall c | c in row.criterionIds ensures EmittedCriterion(stories, c) {
      assert c in Coverage.CriterionIds(stories[j].criteria);
    }
  }

  /** With distinct ids, every row names its own requirement, and every story row the very story that lists it. */
  lemma RebuiltCoverageFaithful(reqs: seq<Coverage.Requirement>, stories: seq<Story>, existing: seq<Coverage.Row>, i: nat)
    requires Coverage.DistinctIds(reqs) && DistinctStories(stories) && i < |reqs|
    ensures var rows := PublicRows(IdsOf(reqs), stories, Coverage.Rebuilt(reqs, stories, existing));
      && |rows| == |reqs| && rows[i].requirement == RequirementAt(i)
      && (rows[i].kind.CoveredByStory? || rows[i].kind.MergedIntoStory? ==> exists j: nat :: Translated(reqs, stories, rows[i], i, i, j, j))
  {
    hide Coverage.Rebuilt, PublicRows, RequirementAt, StoryAt;
    var k, j, f := RebuiltCoverageTranslated(reqs, stories, existing, i);
    assert k == i;
  }

  // ---------- the computation ----------

  method MapCoverage(reqs: seq<int>, stories: seq<Story>, rows: seq<Coverage.Row>) returns (mapped: seq<PublicRow>)
    ensures mapped == PublicRows(reqs, stories, rows)
  {
    var reqCodes := RequirementCodes(reqs);
    var storyCodes := StoryCodes(stories);
    hide RequirementCode, StoryCode, EmittedStory, EmittedCriterion;
    mapped := [];
    assert rows[..0] == [];
    for n := 0 to |rows|
      invariant mapped == PublicRows(reqs, stories, rows[..n])
    {
      assert rows[..n + 1][..n] == rows[..n];
      var row := rows[n];
      if row.requirementId !in reqCodes {
        continue;
      }
      var storyIds := TranslateStories(stories, storyCodes, row.storyIds);
      var criterionIds := TranslateCriteria(stories, row.criterionIds);
      hide PublicStories, PublicCriteria;
      mapped := mapped + [PublicRow(reqCodes[row.requirementId], row.kind, storyIds, criterionIds, row.reason)];
    }
    assert rows[..|rows|] == rows;
  }

  method RequirementCodes(reqs: seq<int>) returns (codes: map<int, string>)
    ensures forall id :: (if id in codes then Some(codes[id]) else None) == RequirementCode(reqs, id)
  {
    hide RequirementAt;
    codes := map[];
    assert reqs[..0] == [];
    for i := 0 to |reqs|
      invariant forall id :: (if id in codes then Some(codes[id]) else None) == RequirementCode(reqs[..i], id)
    {
      assert reqs[..i + 1][..i] == reqs[..i];
      codes := codes[reqs[i] := RequirementAt(i)];
    }
    assert reqs[..|reqs|] == reqs;
  }

  method StoryCodes(stories: seq<Story>) returns (codes: map<string, string>)
    ensures forall id :: (if id in codes then Some(codes[id]) else None) == StoryCode(stories, id)
  {
    hide StoryAt;
    codes := map[];
    assert stories[..0] == [];
    for j := 0 to |stories|
      invariant forall id :: (if id in codes then Some(codes[id]) else None) == StoryCode(stories[..j], id)
    {
      assert stories[..j + 1][..j] == stories[..j];
      if stories[j].id !in codes {
        codes := codes[stories[j].id := StoryAt(j)];
      }
    }
    assert stories[..|stories|] == stories;
  }

  method TranslateStories(stories: seq<Story>, codes: map<string, string>, ids: seq<string>) returns (r: seq<string>)
    requires forall id :: (if id in codes then Some(codes[id]) else None) == StoryCode(stories, id)
    ensures r == PublicStories(stories, ids)
  {
    hide StoryCode, EmittedStory;
    r := [];
    assert ids[..0] == [];
    for n := 0 to |ids|
      invariant r == PublicStories(stories, ids[..n])
    {
      assert ids[..n + 1][..n] == ids[..n];
      var code := if ids[n] in codes then Some(codes[ids[n]]) else None;
      if code.None? && EmittedStory(stories, ids[n]) {
        code := Some(ids[n]);
      }
      if code.Some? && code.value !in r {
        r := r + [code.value];
      }
    }
    assert ids[..|ids|] == ids;
  }

  method TranslateCriteria(stories: seq<Story>, ids: seq<string>) returns (r: seq<string>)
    ensures r == PublicCriteria(stories, ids)
  {
    hide EmittedCriterion;
    r := [];
    assert ids[..0] == [];
    for n := 0 to |ids|
      invariant r == PublicCriteria(stories, ids[..n])
    {
      assert ids[..n + 1][..n] == ids[..n];
      if EmittedCriterion(stories, ids[n]) && ids[n] !in r {
        r := r + [ids[n]];
      }
    }
    assert ids[..|ids|] == ids;
  }
}
