/**
 What single issues cost, family by family, and what single components earn, said of the score itself.
 */
module ScoreLaws {
  import opened Reals
  import opened Texts
  import opened Wrappers
  import opened IssueFamilies
  import opened QualityScore

  /** Families whose defects lower one of the component scores already. */
  predicate Represented(family: string) {
    || family == "EVIDENCE_NOT_GROUNDED" || family == "DUPLICATE_CONTENT" || family == "AC_QUALITY"
    || family == "STORY_TRACEABILITY" || family == "STORY_COMPLETENESS"
  }

  /** Families that are notes to the author, not defects. */
  predicate Informational(family: string) {
    || family == "COMPLEMENTARY"
    || family == "priority_not_source_supported" || family == "requirement_confidence_invalid"
    || family == "low_confidence_classification" || family == "requirement_missing_labels"
    || family == "non_human_story_persona" || family == "story_description_shape"
    || family == "story_missing_evidence_reference" || family == "story_behavior_needs_review"
    || family == "coverage_bad_story_id" || family == "coverage_bad_requirement_id"
    || family == "out_of_scope_covered_by_story" || family == "open_question_covered_by_story"
  }

  /** Families each of whose defects is penalized by itself. */
  predicate Charged(family: string) {
    !Represented(family) && !Informational(family)
  }

  lemma FamiliesIff(key: Key)
    ensures Penalizable(key) <==> Charged(key.2)
    ensures Reportable(key) <==> !Informational(key.2)
  {
  }

  /** Two issues name one defect: the same item and the same family. */
  predicate SameDefect(a: Issue, b: Issue) {
    a.itemType == b.itemType && a.itemId == b.itemId && RootCause(a.rule) == RootCause(b.rule)
  }

  predicate IsOf(x: Issue, severity: string) {
    Lower(x.severity) == severity
  }

  /** Some issue about the defect of `x` has the severity. */
  ghost predicate Reported(issues: seq<Issue>, x: Issue, severity: string) {
    exists n :: 0 <= n < |issues| && SameDefect(issues[n], x) && IsOf(issues[n], severity)
  }

  ghost predicate NewDefect(issues: seq<Issue>, x: Issue) {
    forall n :: 0 <= n < |issues| ==> !SameDefect(issues[n], x)
  }

  lemma SameDefectIff(a: Issue, b: Issue)
    ensures SameDefect(a, b) <==> KeyOf(a) == KeyOf(b)
  {
    hide RootCause;
  }

  lemma ReportedIff(issues: seq<Issue>, x: Issue, severity: string)
    ensures Reported(issues, x, severity) <==> Has(issues, KeyOf(x), severity)
    ensures NewDefect(issues, x) <==> KeyOf(x) !in KeySet(issues)
  {
    forall n | 0 <= n < |issues| ensures SameDefect(issues[n], x) <==> Member(issues, n, KeyOf(x)) {
      SameDefectIff(issues[n], x);
    }
    hide KeyOf, Lower, SameDefect;
    if n :| Member(issues, n, KeyOf(x)) && Lower(issues[n].severity) == severity {
      assert SameDefect(issues[n], x) && IsOf(issues[n], severity);
    }
    if n :| 0 <= n < |issues| && SameDefect(issues[n], x) && IsOf(issues[n], severity) {
      assert Member(issues, n, KeyOf(x)) && Lower(issues[n].severity) == severity;
    }
    KeySetMember(issues, KeyOf(x));
  }

  // ---------- what one issue changes in the counts ----------

  function Tell(yes: bool): nat {
    if yes then 1 else 0
  }

  lemma RankedChange(issues: seq<Issue>, keys: set<Key>, more: seq<Issue>, keys': set<Key>, key: Key, severity: string)
    requires keys - {key} == keys' - {key}
    requires forall k :: k != key ==> (At(more, k, severity) <==> At(issues, k, severity))
    ensures |Ranked(more, keys', severity)| + Tell(key in keys && At(issues, key, severity))
      == |Ranked(issues, keys, severity)| + Tell(key in keys' && At(more, key, severity))
  {
    hide At;
    var a, b := Ranked(issues, keys, severity), Ranked(more, keys', severity);
    forall k ensures k in a - {key} <==> k in b - {key} {
      assert k in keys - {key} <==> k in keys' - {key};
    }
    assert a - {key} == b - {key};
    Without(a, key);
    Without(b, key);
  }

  lemma Without<T>(a: set<T>, x: T)
    ensures |a| == |a - {x}| + Tell(x in a)
  {
    assert x in a ==> a == (a - {x}) + {x};
    assert x !in a ==> a == a - {x};
  }

  lemma NoStanding(issues: seq<Issue>, key: Key, severity: string)
    ensures At(issues, key, severity) ==> key in KeySet(issues)
  {
    StandingHigh(issues, key);
    KeySetMember(issues, key);
  }

  /** One more issue moves its own group from where it stood to where it stands, and no other. */
  lemma InsertedCounts(issues: seq<Issue>, i: nat, extra: Issue)
    requires i <= |issues|
    ensures var more, key, t, u := Inserted(issues, i, extra), KeyOf(extra), TallyOf(issues), TallyOf(Inserted(issues, i, extra));
      && u.high + Tell(Charged(key.2) && At(issues, key, "high")) == t.high + Tell(Charged(key.2) && At(more, key, "high"))
      && u.medium + Tell(Charged(key.2) && At(issues, key, "medium")) == t.medium + Tell(Charged(key.2) && At(more, key, "medium"))
      && u.low + Tell(Charged(key.2) && At(issues, key, "low")) == t.low + Tell(Charged(key.2) && At(more, key, "low"))
      && u.reported + Tell(!Informational(key.2) && At(issues, key, "high")) == t.reported + Tell(!Informational(key.2) && At(more, key, "high"))
      && (u.degraded <==> t.degraded || key.2 == "GENERATION_DEGRADED")
  {
    var more, key := Inserted(issues, i, extra), KeyOf(extra);
    FamiliesIff(key);
    InsertedKeys(issues, i, extra);
    forall k, severity | k != key ensures At(more, k, severity) <==> At(issues, k, severity) {
      OthersStay(issues, i, extra, k);
    }
    NoStanding(issues, key, "high");
    NoStanding(issues, key, "medium");
    NoStanding(issues, key, "low");
    hide KeySet, At, Penalizable, Reportable, KeyOf, Inserted, Informational, Charged, Ranked;
    var p, q, r, s := PenalizableKeys(issues), PenalizableKeys(more), ReportableKeys(issues), ReportableKeys(more);
    assert p - {key} == q - {key} && r - {key} == s - {key};
    assert key in KeySet(more);
    assert (key in q <==> Charged(key.2)) && (key in s <==> !Informational(key.2));
    RankedChange(issues, p, more, q, key, "high");
    RankedChange(issues, p, more, q, key, "medium");
    RankedChange(issues, p, more, q, key, "low");
    RankedChange(issues, r, more, s, key, "high");
    DegradedNext(issues, i, extra);
  }

  lemma DegradedNext(issues: seq<Issue>, i: nat, extra: Issue)
    requires i <= |issues|
    ensures TallyOf(Inserted(issues, i, extra)).degraded <==> TallyOf(issues).degraded || KeyOf(extra).2 == "GENERATION_DEGRADED"
  {
    InsertedKeys(issues, i, extra);
    FamiliesIff(KeyOf(extra));
    hide KeySet, KeyOf, Inserted, Ranked;
    var more := Inserted(issues, i, extra);
    assert forall k :: k in KeySet(more) <==> k in KeySet(issues) || k == KeyOf(extra);
    if k :| k in ReportableKeys(issues) && k.2 == DEGRADED {
      assert k in ReportableKeys(more);
    }
    if KeyOf(extra).2 == DEGRADED {
      assert KeyOf(extra) in ReportableKeys(more);
    }
  }

  lemma StandsHighIff(issues: seq<Issue>, i: nat, extra: Issue)
    requires i <= |issues|
    ensures At(issues, KeyOf(extra), "high") <==> Reported(issues, extra, "high")
    ensures At(Inserted(issues, i, extra), KeyOf(extra), "high") <==> Reported(issues, extra, "high") || IsOf(extra, "high")
    ensures At(issues, KeyOf(extra), "medium") <==> !Reported(issues, extra, "high") && Reported(issues, extra, "medium")
    ensures At(Inserted(issues, i, extra), KeyOf(extra), "medium") <==>
      && !Reported(issues, extra, "high") && !IsOf(extra, "high") && (Reported(issues, extra, "medium") || IsOf(extra, "medium"))
  {
    var key, more := KeyOf(extra), Inserted(issues, i, extra);
    ReportedIff(issues, extra, "high");
    ReportedIff(issues, extra, "medium");
    InsertedHas(issues, i, extra, key, "high");
    InsertedHas(issues, i, extra, key, "medium");
    StandingHigh(issues, key);
    StandingHigh(more, key);
    hide Has, Standing, KeyOf, Lower, Reported, Inserted;
  }

  // ---------- families ----------

  lemma RepresentedCounts(issues: seq<Issue>, i: nat, extra: Issue)
    requires i <= |issues| && Represented(RootCause(extra.rule))
    ensures var t := TallyOf(issues);
      TallyOf(Inserted(issues, i, extra)) == t.(reported := t.reported + Tell(IsOf(extra, "high") && !Reported(issues, extra, "high")))
  {
    InsertedCounts(issues, i, extra);
    StandsHighIff(issues, i, extra);
    NotInformational(RootCause(extra.rule));
    NotDegraded(RootCause(extra.rule));
    assert KeyOf(extra).2 == RootCause(extra.rule);
    hide TallyOf, At, RootCause, IsOf, Reported, Inserted, KeyOf, Represented, Informational;
    assert !Charged(KeyOf(extra).2);
  }

  lemma NotDegraded(family: string)
    requires Represented(family)
    ensures family != "GENERATION_DEGRADED"
  {
  }

  /**
   A defect that a component score represents is never penalized again: wherever it is put in, it leaves
   the three counts as they were, and the score too, but for the limit of 0.89 once its group stands at high.
   */
  lemma RepresentedCostsNothing(c: Components, requirements: nat, stories: nat, issues: seq<Issue>, i: nat, extra: Issue)
    requires i <= |issues| && Represented(RootCause(extra.rule))
    ensures var t, u := TallyOf(issues), TallyOf(Inserted(issues, i, extra));
      && u.high == t.high && u.medium == t.medium && u.low == t.low && u.degraded == t.degraded
      && u.reported == t.reported + Tell(IsOf(extra, "high") && !Reported(issues, extra, "high"))
    ensures Overall(c, requirements, stories, TallyOf(Inserted(issues, i, extra))) ==
      var before := Overall(c, requirements, stories, TallyOf(issues));
      if IsOf(extra, "high") || Reported(issues, extra, "high") then RealMin(0.89, before) else before
  {
    RepresentedCounts(issues, i, extra);
    NotInformational(RootCause(extra.rule));
    hide TallyOf, RootCause, IsOf, Reported, Inserted, Overall, Represented, Informational;
    if Reported(issues, extra, "high") {
      HighIsReported(issues, extra);
    }
    LimitOnly(c, requirements, stories, TallyOf(issues), TallyOf(Inserted(issues, i, extra)));
  }

  lemma NotInformational(family: string)
    requires Represented(family)
    ensures !Informational(family)
  {
    RepresentedOpens(family);
    InformationalOpens(family);
    hide Represented, Informational;
  }

  lemma RepresentedOpens(family: string)
    requires Represented(family)
    ensures family != "" && 'A' <= family[0] <= 'Z' && family[0] != 'C'
  {
  }

  lemma InformationalOpens(family: string)
    ensures Informational(family) ==> family != "" && ('a' <= family[0] <= 'z' || family[0] == 'C')
  {
  }

  lemma HighIsReported(issues: seq<Issue>, x: Issue)
    requires Reported(issues, x, "high") && !Informational(RootCause(x.rule))
    ensures TallyOf(issues).reported > 0
  {
    FamiliesIff(KeyOf(x));
    ReportedIff(issues, x, "high");
    StandingHigh(issues, KeyOf(x));
    NoStanding(issues, KeyOf(x), "high");
    hide KeySet, Standing, Has, Reported, Reportable, Informational;
    assert KeyOf(x) in Ranked(issues, ReportableKeys(issues), "high");
  }

  /** A flag that sets a limit only. */
  lemma LimitOnly(c: Components, requirements: nat, stories: nat, t: Tally, u: Tally)
    requires u == t.(reported := u.reported) && t.reported <= u.reported
    ensures u.reported == t.reported ==> Overall(c, requirements, stories, u) == Overall(c, requirements, stories, t)
    ensures u.reported > 0 ==> Overall(c, requirements, stories, u) == RealMin(0.89, Overall(c, requirements, stories, t))
  {
    PenaltyOnly(t, u);
    hide Weighted, Penalty;
  }

  lemma PenaltyOnly(t: Tally, u: Tally)
    requires t.high == u.high && t.medium == u.medium && t.low == u.low
    ensures Penalty(t) == Penalty(u)
  {
  }

  /** Notes to the author change no count and so no score. */
  lemma InformationalCostsNothing(issues: seq<Issue>, i: nat, extra: Issue)
    requires i <= |issues| && Informational(RootCause(extra.rule))
    ensures TallyOf(Inserted(issues, i, extra)) == TallyOf(issues)
  {
    InsertedCounts(issues, i, extra);
    hide TallyOf, At, RootCause, Inserted;
  }

  /** Remarks on what complements a requirement are such notes, however the rule spells the word. */
  lemma ComplementaryCostsNothing(issues: seq<Issue>, i: nat, extra: Issue)
    requires i <= |issues| && Contains(Lower(extra.rule), "complementary")
    ensures TallyOf(Inserted(issues, i, extra)) == TallyOf(issues)
  {
    assert RootCause(extra.rule) == "COMPLEMENTARY";
    InformationalCostsNothing(issues, i, extra);
    hide TallyOf, RootCause, Inserted;
  }

  /** Where there is nothing to score, the score is zero. */
  lemma NothingScoresNothing(c: Components, issues: seq<Issue>)
    ensures Overall(c, 0, 0, TallyOf(issues)) == 0.0
  {
    hide TallyOf;
  }

  /** A defect reported at high before costs nothing more, however often and at whatever severity it is reported again. */
  lemma RepeatedCostsNothing(issues: seq<Issue>, i: nat, extra: Issue)
    requires i <= |issues| && Reported(issues, extra, "high")
    ensures TallyOf(Inserted(issues, i, extra)) == TallyOf(issues)
  {
    InsertedCounts(issues, i, extra);
    StandsHighIff(issues, i, extra);
    var key, more := KeyOf(extra), Inserted(issues, i, extra);
    OneStanding(issues, key);
    OneStanding(more, key);
    if key.2 == "GENERATION_DEGRADED" {
      DegradedOnce(issues, key);
    }
    hide TallyOf, At, KeyOf, Reported, Inserted, IsOf;
  }

  lemma OneStanding(issues: seq<Issue>, key: Key)
    ensures At(issues, key, "high") ==> !At(issues, key, "medium") && !At(issues, key, "low")
  {
  }

  lemma DegradedOnce(issues: seq<Issue>, key: Key)
    requires At(issues, key, "high") && key.2 == "GENERATION_DEGRADED"
    ensures TallyOf(issues).degraded
  {
    FamiliesIff(key);
    NoStanding(issues, key, "high");
    hide KeySet, At;
    assert key in ReportableKeys(issues);
  }

  /** The first report of any other defect counts once, at its own severity. */
  lemma NewDefectCounts(issues: seq<Issue>, i: nat, extra: Issue)
    requires i <= |issues| && NewDefect(issues, extra) && Charged(RootCause(extra.rule))
    ensures var t := TallyOf(issues);
      TallyOf(Inserted(issues, i, extra)) == Tally(
        t.high + Tell(IsOf(extra, "high")), t.medium + Tell(IsOf(extra, "medium")), t.low + Tell(IsOf(extra, "low")),
        t.reported + Tell(IsOf(extra, "high")), t.degraded || RootCause(extra.rule) == "GENERATION_DEGRADED")
  {
    var key, more := KeyOf(extra), Inserted(issues, i, extra);
    InsertedCounts(issues, i, extra);
    ReportedIff(issues, extra, "high");
    NoStanding(issues, key, "high");
    NoStanding(issues, key, "medium");
    NoStanding(issues, key, "low");
    NewStands(issues, i, extra);
    assert key.2 == RootCause(extra.rule);
    hide TallyOf, At, KeyOf, RootCause, Reported, Inserted, NewDefect, Informational, Represented;
  }

  lemma NewStands(issues: seq<Issue>, i: nat, extra: Issue)
    requires i <= |issues| && NewDefect(issues, extra)
    ensures forall severity :: At(Inserted(issues, i, extra), KeyOf(extra), severity) <==> IsOf(extra, severity)
  {
    var key, more := KeyOf(extra), Inserted(issues, i, extra);
    forall n: nat | n < |issues| ensures KeyOf(issues[n]) != key {
      SameDefectIff(issues[n], extra);
    }
    hide KeyOf, Lower, Standing, Has, NewDefect;
    NobodyHas(issues, key, "high");
    NobodyHas(issues, key, "medium");
    InsertedHas(issues, i, extra, key, "high");
    InsertedHas(issues, i, extra, key, "medium");
    StandingHigh(more, key);
    assert more[i] == extra && forall n :: 0 <= n < i ==> more[n] == issues[n];
    if !Has(more, key, "high") && !Has(more, key, "medium") {
      OpeningStays(more, i, key);
    }
  }

  lemma NobodyHas(issues: seq<Issue>, key: Key, severity: string)
    requires forall n: nat :: n < |issues| ==> KeyOf(issues[n]) != key
    ensures !Has(issues, key, severity)
  {
  }

  /** A new high defect that no component represents: a further 0.15 off what the components earn, and no more than 0.59 left. */
  lemma NewHighScores(c: Components, requirements: nat, stories: nat, issues: seq<Issue>, i: nat, extra: Issue)
    requires InRange(c) && requirements + stories > 0
    requires i <= |issues| && NewDefect(issues, extra) && Charged(RootCause(extra.rule)) && IsOf(extra, "high")
    ensures var t, clean := TallyOf(issues), Overall(c, requirements, stories, TallyOf([]));
      Overall(c, requirements, stories, TallyOf(Inserted(issues, i, extra))) ==
        RealMin(0.59, RealMax(0.0, clean - RealMin(0.70, ((t.high + 1) * 15 + t.medium * 5 + t.low) as real / 100.0)))
  {
    NewDefectCounts(issues, i, extra);
    NoIssues();
    hide TallyOf, Charged, NewDefect, IsOf, RootCause;
    CleanScore(c, requirements, stories);
    hide Weighted, Inserted;
  }

  lemma NoIssues()
    ensures TallyOf([]) == Tally(0, 0, 0, 0, false)
  {
    CountedAll([]);
    CountedNone([]);
  }

  lemma CleanScore(c: Components, requirements: nat, stories: nat)
    requires InRange(c) && requirements + stories > 0
    ensures Overall(c, requirements, stories, Tally(0, 0, 0, 0, false)) == Weighted(c)
  {
  }

  /** What a single defect costs, by its severity. */
  lemma SingleIssueScores(c: Components, requirements: nat, stories: nat, x: Issue)
    requires InRange(c) && requirements + stories > 0 && Charged(RootCause(x.rule)) && RootCause(x.rule) != "GENERATION_DEGRADED"
    ensures var score, clean := Overall(c, requirements, stories, TallyOf([x])), Overall(c, requirements, stories, TallyOf([]));
      && (IsOf(x, "high") ==> score == RealMin(0.59, RealMax(0.0, clean - 0.15)))
      && (IsOf(x, "medium") ==> score == RealMin(0.79, RealMax(0.0, clean - 0.05)))
      && (IsOf(x, "low") ==> score == RealMax(0.0, clean - 0.01))
      && (!Rated(Lower(x.severity)) ==> score == clean)
  {
    assert Inserted([], 0, x) == [x];
    NewDefectCounts([], 0, x);
    NoIssues();
    CleanScore(c, requirements, stories);
    RatedNames();
    hide TallyOf, Charged, RootCause, Lower, Weighted, Inserted;
  }

  /** Degraded generation alone limits the score to 0.89 whatever its severity, besides what that costs. */
  lemma DegradedLimits(c: Components, requirements: nat, stories: nat, x: Issue)
    requires RootCause(x.rule) == "GENERATION_DEGRADED"
    ensures Overall(c, requirements, stories, TallyOf([x])) <= 0.89
  {
    assert Inserted([], 0, x) == [x];
    NewDefectCounts([], 0, x);
    hide TallyOf, RootCause, Weighted, Inserted;
  }

  // ---------- components ----------

  /** Without issues, the score moves with each component by its own weight, and runs from 0 to 1. */
  lemma ComponentsWeigh(c: Components, d: Components, requirements: nat, stories: nat)
    requires InRange(c) && InRange(d) && requirements + stories > 0
    ensures Overall(d, requirements, stories, TallyOf([])) - Overall(c, requirements, stories, TallyOf([])) ==
      0.30 * (d.groundedness - c.groundedness) + 0.25 * (d.traceability - c.traceability) + 0.15 * (d.completeness - c.completeness)
      + 0.20 * (d.criteria - c.criteria) - 0.10 * (d.duplicateRisk - c.duplicateRisk)
    ensures Overall(Components(1.0, 1.0, 1.0, 1.0, 0.0), requirements, stories, TallyOf([])) == 1.0
    ensures Overall(Components(0.0, 0.0, 0.0, 0.0, 1.0), requirements, stories, TallyOf([])) == 0.0
  {
    NoIssues();
    hide TallyOf;
    CleanScore(c, requirements, stories);
    CleanScore(d, requirements, stories);
  }

  // ---------- severities ----------

  /** The severity of an issue is read whatever its letter case. */
  lemma SpelledIff(s: string, word: string)
    requires forall i :: 0 <= i < |word| ==> 'a' <= word[i] <= 'z'
    ensures Lower(s) == word <==>
      |s| == |word| && forall i :: 0 <= i < |s| ==> s[i] == word[i] || s[i] as int + 32 == word[i] as int
  {
    if Lower(s) == word {
      assert forall i :: 0 <= i < |s| ==> Lower(s)[i] == word[i];
    }
  }
}
