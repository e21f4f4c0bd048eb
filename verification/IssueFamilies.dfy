/**
 Quality issues and their defect families. Several rules name the same root cause; issues about one
 item with one root cause form a group, which the score and the public issue list both count once.
 */
module IssueFamilies {
  import opened Texts
  import opened Sequences
  import opened Wrappers

  datatype Issue = Issue(itemId: int, itemType: string, severity: string, rule: string, details: string)

  type Key = (string, int, string)

  function LowerChar(c: char): char {
    if 'A' <= c <= 'Z' then c - 'A' + 'a' else c
  }

  function Lower(s: string): string {
    seq(|s|, i requires 0 <= i < |s| => LowerChar(s[i]))
  }

  const COMPLEMENTARY := "COMPLEMENTARY"
  const EVIDENCE := "EVIDENCE_NOT_GROUNDED"
  const DEGRADED := "GENERATION_DEGRADED"

  const ALIASES: map<string, string> := map[
    "missing_evidence" := EVIDENCE,
    "missing_verified_evidence" := EVIDENCE,
    "evidence_semantic_mismatch" := EVIDENCE,
    "evidence_not_grounded" := EVIDENCE,
    "evidence_chunk_mismatch" := EVIDENCE,
    "evidence_document_mismatch" := EVIDENCE,
    "evidence_low_transcription_confidence" := EVIDENCE,
    "duplicate_requirement" := "DUPLICATE_CONTENT",
    "duplicate_story" := "DUPLICATE_CONTENT",
    "semantic_conflict_duplicate" := "DUPLICATE_CONTENT",
    "acceptance_criterion_unsupported_fact" := "AC_QUALITY",
    "acceptance_criterion_not_source_aligned" := "AC_QUALITY",
    "acceptance_criteria_missing_source_clause" := "AC_QUALITY",
    "generic_acceptance_criteria" := "AC_QUALITY",
    "duplicate_acceptance_criterion" := "AC_QUALITY",
    "incorrect_story_requirement_mapping" := "STORY_TRACEABILITY",
    "story_missing_source_ids" := "STORY_TRACEABILITY",
    "story_unsupported_fact" := "STORY_TRACEABILITY",
    "story_empty_title" := "STORY_COMPLETENESS",
    "story_missing_acceptance" := "STORY_COMPLETENESS",
    "generation_degraded" := DEGRADED
  ]

  const COMPONENT_OWNED: set<string> := {
    EVIDENCE, "DUPLICATE_CONTENT", "AC_QUALITY", "STORY_TRACEABILITY", "STORY_COMPLETENESS"
  }

  const DIAGNOSTIC: set<string> := {
    "priority_not_source_supported",
    "requirement_confidence_invalid",
    "low_confidence_classification",
    "requirement_missing_labels",
    "non_human_story_persona",
    "story_description_shape",
    "story_missing_evidence_reference",
    "story_behavior_needs_review",
    "coverage_bad_story_id",
    "coverage_bad_requirement_id",
    "out_of_scope_covered_by_story",
    "open_question_covered_by_story"
  }

  function RootCause(rule: string): string {
    if Contains(Lower(rule), "complementary") then COMPLEMENTARY
    else if rule in ALIASES then ALIASES[rule]
    else rule
  }

  function KeyOf(i: Issue): Key {
    (i.itemType, i.itemId, RootCause(i.rule))
  }

  /** The groups, in the order their first issues appear. */
  function Keys(issues: seq<Issue>): seq<Key> {
    if issues == [] then []
    else
      var front, key := Keys(issues[..|issues| - 1]), KeyOf(issues[|issues| - 1]);
      if key in front then front else front + [key]
  }

  ghost predicate Member(issues: seq<Issue>, i: int, key: Key) {
    0 <= i < |issues| && KeyOf(issues[i]) == key
  }

  lemma {:induction false} KeysExact(issues: seq<Issue>)
    ensures NoRepeats(Keys(issues))
    ensures forall k :: k in Keys(issues) <==> exists i :: Member(issues, i, k)
  {
    hide KeyOf;
    if issues != [] {
      var front := issues[..|issues| - 1];
      KeysExact(front);
      forall k ensures k in Keys(issues) <==> exists i :: Member(issues, i, k) {
        if i :| Member(issues, i, k) {
          assert i < |front| ==> Member(front, i, k);
        }
        if i :| Member(front, i, k) {
          assert Member(issues, i, k);
        }
        assert KeyOf(issues[|issues| - 1]) == k ==> Member(issues, |issues| - 1, k);
      }
    }
  }

  /** Groups stand in the order of their first issues: further issues only add to the end. */
  lemma {:induction false} KeysInOrder(issues: seq<Issue>, more: seq<Issue>)
    ensures Keys(issues) <= Keys(issues + more)
  {
    hide KeyOf;
    if more == [] {
      assert issues + more == issues;
    } else {
      KeysInOrder(issues, more[..|more| - 1]);
      assert (issues + more)[..|issues + more| - 1] == issues + more[..|more| - 1];
    }
  }

  // ---------- the severity of a group, as the score keeps it ----------

  /** The severity kept when a further issue joins a group. */
  function Raise(kept: string, severity: string): string {
    if severity == "high" || (severity == "medium" && kept != "high") then severity else kept
  }

  function Standing(issues: seq<Issue>, key: Key): Option<string> {
    if issues == [] then None
    else
      var front, last := Standing(issues[..|issues| - 1], key), issues[|issues| - 1];
      if KeyOf(last) != key then front
      else if front.None? then Some(Lower(last.severity))
      else Some(Raise(front.value, Lower(last.severity)))
  }

  predicate Rated(severity: string) {
    severity in {"low", "medium", "high"}
  }

  ghost predicate Has(issues: seq<Issue>, key: Key, severity: string) {
    exists i :: Member(issues, i, key) && Lower(issues[i].severity) == severity
  }

  ghost predicate HasUnrated(issues: seq<Issue>, key: Key) {
    exists i :: Member(issues, i, key) && !Rated(Lower(issues[i].severity))
  }

  lemma HasExtend(issues: seq<Issue>, last: Issue, key: Key, severity: string)
    ensures Has(issues + [last], key, severity) <==>
      Has(issues, key, severity) || (KeyOf(last) == key && Lower(last.severity) == severity)
  {
    hide KeyOf, Lower;
    var longer := issues + [last];
    if i :| Member(longer, i, key) && Lower(longer[i].severity) == severity {
      assert i < |issues| ==> Member(issues, i, key) && Lower(issues[i].severity) == severity;
    }
    if i :| Member(issues, i, key) && Lower(issues[i].severity) == severity {
      assert Member(longer, i, key) && longer[i] == issues[i];
    }
    if KeyOf(last) == key {
      assert Member(longer, |issues|, key);
    }
  }

  /** A group is known when it has a member; it stands at the highest of high and medium, or else at its first severity. */
  lemma {:induction false} StandingHigh(issues: seq<Issue>, key: Key)
    ensures Standing(issues, key).Some? <==> exists i :: Member(issues, i, key)
    ensures Standing(issues, key) == Some("high") <==> Has(issues, key, "high")
    ensures Standing(issues, key) == Some("medium") <==> !Has(issues, key, "high") && Has(issues, key, "medium")
    ensures Standing(issues, key) == Some("low") ==> Has(issues, key, "low")
  {
    hide KeyOf, Lower, Has;
    if issues == [] {
      NothingHas(key);
    } else {
      var front, last := issues[..|issues| - 1], issues[|issues| - 1];
      StandingHigh(front, key);
      assert issues == front + [last];
      HasExtend(front, last, key, "high");
      HasExtend(front, last, key, "medium");
      HasExtend(front, last, key, "low");
      if i :| Member(issues, i, key) {
        assert i < |front| ==> Member(front, i, key);
      }
      if i :| Member(front, i, key) {
        assert Member(issues, i, key);
      }
      assert KeyOf(last) == key ==> Member(issues, |issues| - 1, key);
    }
  }

  lemma NothingHas(key: Key)
    ensures forall severity :: !Has([], key, severity)
  {
  }

  /** Without unrated severities in the group, it stands at "low" exactly when nothing higher was reported. */
  lemma {:induction false} StandingLow(issues: seq<Issue>, key: Key)
    requires !HasUnrated(issues, key)
    ensures Standing(issues, key) == Some("low") <==>
      !Has(issues, key, "high") && !Has(issues, key, "medium") && Has(issues, key, "low")
  {
    hide KeyOf, Lower, Has;
    if issues == [] {
      NothingHas(key);
    } else {
      var front, last := issues[..|issues| - 1], issues[|issues| - 1];
      assert issues == front + [last];
      forall i | Member(front, i, key) ensures Rated(Lower(front[i].severity)) {
        assert Member(issues, i, key) && issues[i] == front[i];
      }
      StandingLow(front, key);
      StandingHigh(front, key);
      HasExtend(front, last, key, "high");
      HasExtend(front, last, key, "medium");
      HasExtend(front, last, key, "low");
      assert KeyOf(last) == key ==> Member(issues, |issues| - 1, key);
      if exists i :: Member(front, i, key) {
        var i :| Member(front, i, key);
        SomeSeverity(front, i, key);
      }
    }
  }

  lemma SomeSeverity(issues: seq<Issue>, i: int, key: Key)
    requires Member(issues, i, key) && Rated(Lower(issues[i].severity))
    ensures Has(issues, key, "low") || Has(issues, key, "medium") || Has(issues, key, "high")
  {
  }

  // ---------- what the score counts ----------

  predicate Reportable(key: Key) {
    key.2 != COMPLEMENTARY && key.2 !in DIAGNOSTIC
  }

  /** A defect that no component score represents already. */
  predicate Penalizable(key: Key) {
    Reportable(key) && !ComponentOwned(key)
  }

  predicate ComponentOwned(key: Key) {
    key.2 in COMPONENT_OWNED
  }

  ghost predicate At(issues: seq<Issue>, key: Key, severity: string) {
    Standing(issues, key) == Some(severity)
  }

  /** The groups of a severity, among those in `keys`. */
  ghost function Ranked(issues: seq<Issue>, keys: set<Key>, severity: string): set<Key> {
    set k | k in keys && At(issues, k, severity)
  }

  ghost function KeySet(issues: seq<Issue>): set<Key> {
    set i | 0 <= i < |issues| :: KeyOf(issues[i])
  }

  ghost function PenalizableKeys(issues: seq<Issue>): set<Key> {
    set k | k in KeySet(issues) && Penalizable(k)
  }

  ghost function ReportableKeys(issues: seq<Issue>): set<Key> {
    set k | k in KeySet(issues) && Reportable(k)
  }

  datatype Tally = Tally(high: nat, medium: nat, low: nat, reported: nat, degraded: bool)

  /** The counts that enter the score. */
  ghost function TallyOf(issues: seq<Issue>): Tally {
    Tally(
      |Ranked(issues, PenalizableKeys(issues), "high")|,
      |Ranked(issues, PenalizableKeys(issues), "medium")|,
      |Ranked(issues, PenalizableKeys(issues), "low")|,
      |Ranked(issues, ReportableKeys(issues), "high")|,
      exists k :: k in ReportableKeys(issues) && k.2 == DEGRADED
    )
  }

  // ---------- the order of issues ----------

  /** No group mixes unrated and low issues without a higher one. */
  ghost predicate Settled(issues: seq<Issue>) {
    forall k :: k in KeySet(issues) ==> SettledAt(issues, k)
  }

  ghost predicate SettledAt(issues: seq<Issue>, key: Key) {
    Has(issues, key, "high") || Has(issues, key, "medium") || !Has(issues, key, "low") || !HasUnrated(issues, key)
  }

  ghost predicate SameStandings(a: seq<Issue>, b: seq<Issue>) {
    && KeySet(a) == KeySet(b)
    && forall k, severity :: k in KeySet(a) && Rated(severity) ==> (At(a, k, severity) <==> At(b, k, severity))
  }

  lemma MembersOf(a: seq<Issue>, b: seq<Issue>, i: int)
    requires multiset(a) == multiset(b) && 0 <= i < |a|
    ensures exists j :: 0 <= j < |b| && b[j] == a[i]
  {
    assert a[i] in multiset(a);
    assert a[i] in b;
  }

  lemma ReorderingHas(a: seq<Issue>, b: seq<Issue>, key: Key, severity: string)
    requires multiset(a) == multiset(b)
    ensures Has(a, key, severity) ==> Has(b, key, severity)
    ensures HasUnrated(a, key) ==> HasUnrated(b, key)
  {
    hide KeyOf, Lower, Rated;
    if i :| Member(a, i, key) && Lower(a[i].severity) == severity {
      MembersOf(a, b, i);
      var j :| 0 <= j < |b| && b[j] == a[i];
      assert Member(b, j, key);
    }
    if i :| Member(a, i, key) && !Rated(Lower(a[i].severity)) {
      MembersOf(a, b, i);
      var j :| 0 <= j < |b| && b[j] == a[i];
      assert Member(b, j, key);
    }
  }

  lemma ReorderingKeys(a: seq<Issue>, b: seq<Issue>)
    requires multiset(a) == multiset(b)
    ensures KeySet(a) <= KeySet(b)
  {
    hide KeyOf;
    forall k | k in KeySet(a) ensures k in KeySet(b) {
      var i :| 0 <= i < |a| && KeyOf(a[i]) == k;
      MembersOf(a, b, i);
    }
  }
}
