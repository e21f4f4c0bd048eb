/**
 The public issue list: one readable row for each item and root cause, at the highest severity
 reported for it. An issue outside the public schema fails the whole list.
 */
module PublicIssues {
  import opened Texts
  import opened Sequences
  import opened Wrappers
  import opened IssueFamilies
  import Score = QualityScore

  predicate WellFormed(i: Issue) {
    i.itemType in {"requirement", "story", "coverage"} && Rated(i.severity)
  }

  lemma WellFormedIff(i: Issue)
    ensures WellFormed(i) <==>
      && (i.itemType == "requirement" || i.itemType == "story" || i.itemType == "coverage")
      && (i.severity == "low" || i.severity == "medium" || i.severity == "high")
  {
  }

  function SeverityRank(severity: string): nat {
    if severity == "high" then 3 else if severity == "medium" then 2 else if severity == "low" then 1 else 0
  }

  predicate IsPublic(i: Issue) {
    RootCause(i.rule) != COMPLEMENTARY
  }

  function PublicOnly(issues: seq<Issue>): seq<Issue> {
    if issues == [] then []
    else
      var front, last := PublicOnly(issues[..|issues| - 1]), issues[|issues| - 1];
      if IsPublic(last) then front + [last] else front
  }

  /** The first issue of the group among those of its highest severity. */
  function Champion(issues: seq<Issue>, key: Key): Option<Issue> {
    if issues == [] then None
    else
      var front, last := Champion(issues[..|issues| - 1], key), issues[|issues| - 1];
      if KeyOf(last) == key && (front.None? || SeverityRank(last.severity) > SeverityRank(front.value.severity)) then Some(last)
      else front
  }

  /** The different details of the group, in order. */
  function Details(issues: seq<Issue>, key: Key): seq<string> {
    if issues == [] then []
    else
      var front, last := Details(issues[..|issues| - 1], key), issues[|issues| - 1];
      if KeyOf(last) == key && last.details != "" && last.details !in front then front + [last.details] else front
  }

  function Join(parts: seq<string>): string {
    if parts == [] then ""
    else if |parts| == 1 then parts[0]
    else parts[0] + " " + Join(parts[1..])
  }

  const VERIFIED := "missing_verified_evidence"
  const NOT_VERIFIED := "Requirement evidence could not be verified against the uploaded sources."

  function Row(key: Key, champion: Issue, details: seq<string>): Issue {
    if key.2 == EVIDENCE && champion.severity == "high" then champion.(rule := VERIFIED, details := NOT_VERIFIED)
    else champion.(details := Join(details))
  }

  // ---------- what a group's row is ----------

  /** The issue at `c` is the first of the group's highest severity. */
  ghost predicate IsChampion(issues: seq<Issue>, key: Key, c: int) {
    && Member(issues, c, key)
    && (forall i :: Member(issues, i, key) ==> SeverityRank(issues[i].severity) <= SeverityRank(issues[c].severity))
    && (forall i :: Member(issues, i, key) && i < c ==> SeverityRank(issues[i].severity) < SeverityRank(issues[c].severity))
  }

  lemma MemberExtend(issues: seq<Issue>, last: Issue, key: Key)
    ensures forall i :: Member(issues + [last], i, key) <==> Member(issues, i, key) || (i == |issues| && KeyOf(last) == key)
  {
    hide KeyOf;
  }

  lemma {:induction false} ChampionIs(issues: seq<Issue>, key: Key)
    ensures Champion(issues, key).None? ==> forall i :: !Member(issues, i, key)
    ensures Champion(issues, key).Some? ==> exists c :: IsChampion(issues, key, c) && issues[c] == Champion(issues, key).value
  {
    hide KeyOf, SeverityRank;
    if issues != [] {
      var front, last := issues[..|issues| - 1], issues[|issues| - 1];
      assert issues == front + [last];
      ChampionIs(front, key);
      MemberExtend(front, last, key);
      hide Member;
      if Champion(front, key).Some? {
        var c :| IsChampion(front, key, c) && front[c] == Champion(front, key).value;
        if Champion(issues, key) == Champion(front, key) {
          assert IsChampion(issues, key, c);
        } else {
          assert IsChampion(issues, key, |front|);
        }
      } else if KeyOf(last) == key {
        assert IsChampion(issues, key, |front|);
      }
    }
  }

  /** Every non-empty detail of the group is kept once. */
  lemma {:induction false} DetailsExact(issues: seq<Issue>, key: Key)
    ensures NoRepeats(Details(issues, key))
    ensures forall d :: d in Details(issues, key) <==> d != "" && exists i :: Member(issues, i, key) && issues[i].details == d
  {
    hide KeyOf;
    if issues != [] {
      var front, last := issues[..|issues| - 1], issues[|issues| - 1];
      DetailsExact(front, key);
      assert forall i :: Member(issues, i, key) && i < |front| ==> Member(front, i, key) && front[i] == issues[i];
      assert forall i :: Member(front, i, key) ==> Member(issues, i, key) && front[i] == issues[i];
      if KeyOf(last) == key {
        assert Member(issues, |front|, key);
      }
    }
  }

  // ---------- the public rows ----------

  lemma RowKeepsKey(key: Key, champion: Issue, details: seq<string>)
    requires KeyOf(champion) == key
    ensures KeyOf(Row(key, champion, details)) == key
    ensures Row(key, champion, details).severity == champion.severity
  {
    VerifiedIsEvidence();
    hide RootCause;
  }

  lemma VerifiedIsEvidence()
    ensures RootCause(VERIFIED) == EVIDENCE
  {
    var rule := Lower(VERIFIED);
    assert forall i :: 0 <= i <= 12 ==> VERIFIED[i] != 'c' && VERIFIED[i] != 'C';
    assert forall i :: 0 <= i <= 12 ==> rule[i] != 'c';
    assert forall i :: OccursAt(rule, "complementary", i) ==> rule[i..i + 13][0] == 'c';
  }

  function RowOf(issues: seq<Issue>, key: Key): Issue {
    var champion := Champion(issues, key);
    if champion.None? then Issue(0, "", "", "", "") else Row(key, champion.value, Details(issues, key))
  }

  function RowsOf(issues: seq<Issue>, keys: seq<Key>): (rows: seq<Issue>)
    ensures |rows| == |keys| && forall i :: 0 <= i < |keys| ==> rows[i] == RowOf(issues, keys[i])
  {
    seq(|keys|, i requires 0 <= i < |keys| => RowOf(issues, keys[i]))
  }

  function PublicRows(issues: seq<Issue>): seq<Issue> {
    RowsOf(PublicOnly(issues), Keys(PublicOnly(issues)))
  }

  /** The row at `r` speaks for its group: same item and root cause, and the highest severity reported. */
  ghost predicate SpeaksFor(row: Issue, issues: seq<Issue>, key: Key) {
    && KeyOf(row) == key
    && (exists i :: Member(issues, i, key) && issues[i].severity == row.severity)
    && (forall i :: Member(issues, i, key) ==> SeverityRank(issues[i].severity) <= SeverityRank(row.severity))
  }

  lemma RowSpeaks(issues: seq<Issue>, key: Key)
    requires key in Keys(issues)
    ensures SpeaksFor(RowOf(issues, key), issues, key)
  {
    hide Row, SeverityRank, KeyOf, Champion, Keys;
    KeysExact(issues);
    ChampionIs(issues, key);
    var c :| IsChampion(issues, key, c) && issues[c] == Champion(issues, key).value;
    RowKeepsKey(key, issues[c], Details(issues, key));
  }

  lemma {:induction false} PublicMembers(issues: seq<Issue>, key: Key, severity: string)
    ensures forall i :: 0 <= i < |PublicOnly(issues)| ==> IsPublic(PublicOnly(issues)[i])
    ensures key.2 == COMPLEMENTARY ==> !Reported(PublicOnly(issues), key, severity)
    ensures key.2 != COMPLEMENTARY ==> (Reported(PublicOnly(issues), key, severity) <==> Reported(issues, key, severity))
  {
    hide RootCause;
    if issues != [] {
      var front, last := issues[..|issues| - 1], issues[|issues| - 1];
      PublicMembers(front, key, severity);
      assert issues == front + [last];
      ReportedExtend(front, last, key, severity);
      ReportedExtend(PublicOnly(front), last, key, severity);
    }
  }

  /** Some issue of the group has the severity. */
  ghost predicate Reported(issues: seq<Issue>, key: Key, severity: string) {
    exists i :: Member(issues, i, key) && issues[i].severity == severity
  }

  lemma ReportedExtend(issues: seq<Issue>, last: Issue, key: Key, severity: string)
    ensures Reported(issues + [last], key, severity) <==> Reported(issues, key, severity) || (KeyOf(last) == key && last.severity == severity)
  {
    MemberExtend(issues, last, key);
    hide KeyOf;
    assert forall i :: Member(issues, i, key) ==> (issues + [last])[i] == issues[i];
    if KeyOf(last) == key {
      assert Member(issues + [last], |issues|, key);
    }
  }

  ghost predicate Occurs(issues: seq<Issue>, key: Key) {
    exists i :: Member(issues, i, key)
  }

  /** One row for each item and root cause reported, complementary remarks aside, at its highest severity. */
  lemma OneRowPerGroup(issues: seq<Issue>)
    ensures var rows := PublicRows(issues);
      && (forall i, j :: 0 <= i < j < |rows| ==> KeyOf(rows[i]) != KeyOf(rows[j]))
      && (forall k :: Occurs(rows, k) <==> k.2 != COMPLEMENTARY && Occurs(issues, k))
      && (forall i :: 0 <= i < |rows| ==> SpeaksFor(rows[i], issues, KeyOf(rows[i])))
  {
    var kept, rows := PublicOnly(issues), PublicRows(issues);
    var keys := Keys(kept);
    KeysExact(kept);
    RowKeys(kept);
    hide RowsOf, KeyOf, Keys, SeverityRank, RowOf, PublicOnly;
    assert forall i :: 0 <= i < |rows| ==> rows[i] == RowOf(kept, keys[i]);
    forall k ensures Occurs(rows, k) <==> k.2 != COMPLEMENTARY && Occurs(issues, k) {
      KeptGroups(issues, k);
      RowMembers(rows, keys, k);
      assert k in keys <==> Occurs(kept, k);
    }
    forall i | 0 <= i < |rows| ensures SpeaksFor(rows[i], issues, KeyOf(rows[i])) {
      RowSpeaks(kept, keys[i]);
      KeptSpeaks(issues, rows[i], keys[i]);
    }
  }

  lemma RowMembers(rows: seq<Issue>, keys: seq<Key>, k: Key)
    requires |rows| == |keys| && forall i :: 0 <= i < |rows| ==> KeyOf(rows[i]) == keys[i]
    ensures Occurs(rows, k) <==> k in keys
  {
    hide KeyOf;
    if k in keys {
      var i :| 0 <= i < |keys| && keys[i] == k;
      assert Member(rows, i, k);
    }
  }

  lemma KeptGroups(issues: seq<Issue>, k: Key)
    ensures Occurs(PublicOnly(issues), k) <==> k.2 != COMPLEMENTARY && Occurs(issues, k)
  {
    var kept := PublicOnly(issues);
    hide KeyOf, PublicOnly;
    if i :| Member(kept, i, k) {
      PublicMembers(issues, k, kept[i].severity);
      assert Reported(kept, k, kept[i].severity);
    }
    if i :| Member(issues, i, k) && k.2 != COMPLEMENTARY {
      PublicMembers(issues, k, issues[i].severity);
      assert Reported(issues, k, issues[i].severity);
    }
  }

  lemma KeptSpeaks(issues: seq<Issue>, row: Issue, k: Key)
    requires SpeaksFor(row, PublicOnly(issues), k)
    ensures SpeaksFor(row, issues, k)
  {
    var kept := PublicOnly(issues);
    hide KeyOf, PublicOnly, SeverityRank;
    PublicMembers(issues, k, row.severity);
    assert Reported(kept, k, row.severity);
    assert Reported(issues, k, row.severity);
    forall i | Member(issues, i, k) ensures SeverityRank(issues[i].severity) <= SeverityRank(row.severity) {
      PublicMembers(issues, k, issues[i].severity);
      assert Reported(issues, k, issues[i].severity);
    }
  }

  /** The rows' keys are the groups, in order. */
  lemma RowKeys(issues: seq<Issue>)
    ensures forall i :: 0 <= i < |Keys(issues)| ==> KeyOf(RowsOf(issues, Keys(issues))[i]) == Keys(issues)[i]
  {
    forall i | 0 <= i < |Keys(issues)| ensures KeyOf(RowsOf(issues, Keys(issues))[i]) == Keys(issues)[i] {
      RowSpeaks(issues, Keys(issues)[i]);
    }
  }

  // ---------- what a row tells ----------

  lemma SeverityOrder(severity: string)
    ensures SeverityRank("low") < SeverityRank("medium") < SeverityRank("high")
    ensures !Rated(severity) ==> SeverityRank(severity) < SeverityRank("low")
  {
  }

  /** Joining puts one blank between parts. */
  lemma {:induction false} JoinAppend(parts: seq<string>, more: seq<string>)
    requires parts != [] && more != []
    ensures Join(parts + more) == Join(parts) + " " + Join(more)
  {
    if |parts| == 1 {
      assert (parts + more)[1..] == more;
    } else {
      JoinAppend(parts[1..], more);
      assert (parts + more)[1..] == parts[1..] + more;
    }
  }

  lemma {:induction false} JoinReads(parts: seq<string>, n: nat)
    requires n < |parts|
    ensures Contains(Join(parts), parts[n])
  {
    hide Contains;
    if |parts| == 1 {
      ContainsEnds(parts[0]);
    } else if n == 0 {
      ContainsPart("", parts[0], " " + Join(parts[1..]));
      assert "" + parts[0] + (" " + Join(parts[1..])) == Join(parts);
    } else {
      JoinReads(parts[1..], n - 1);
      ContainsPart(parts[0] + " ", Join(parts[1..]), "");
      assert parts[0] + " " + Join(parts[1..]) + "" == Join(parts);
      ContainsTrans(Join(parts), Join(parts[1..]), parts[n]);
    }
  }

  lemma {:induction false} PublicKept(issues: seq<Issue>, i: nat)
    requires i < |issues| && IsPublic(issues[i])
    ensures issues[i] in PublicOnly(issues)
  {
    hide IsPublic;
    if i < |issues| - 1 {
      PublicKept(issues[..|issues| - 1], i);
    }
  }

  /**
   Everything reported about a defect can be read in its row, in the words it was reported in, unless the
   row is the one standard sentence for evidence that could not be verified.
   */
  lemma RowTells(issues: seq<Issue>, r: nat, i: nat)
    requires r < |PublicRows(issues)| && i < |issues| && KeyOf(issues[i]) == KeyOf(PublicRows(issues)[r]) && issues[i].details != ""
    ensures var row := PublicRows(issues)[r];
      if RootCause(row.rule) == "EVIDENCE_NOT_GROUNDED" && row.severity == "high" then
        row.rule == "missing_verified_evidence"
        && row.details == "Requirement evidence could not be verified against the uploaded sources."
      else Contains(row.details, issues[i].details)
  {
    var kept, rows := PublicOnly(issues), PublicRows(issues);
    var key, row := KeyOf(issues[i]), rows[r];
    RowKeys(kept);
    KeysExact(kept);
    RowsArePublic(issues);
    assert key.2 == RootCause(row.rule) == RootCause(issues[i].rule);
    PublicKept(issues, i);
    var m :| 0 <= m < |kept| && kept[m] == issues[i];
    assert Member(kept, m, key);
    hide Keys, KeyOf, Champion, Details, RootCause, PublicOnly, Contains, Join, SeverityRank, Row;
    assert row == RowOf(kept, key);
    ChampionIs(kept, key);
    DetailsExact(kept, key);
    RowWords(key, Champion(kept, key).value, Details(kept, key), issues[i].details);
  }

  lemma RowWords(key: Key, champion: Issue, details: seq<string>, d: string)
    requires d in details
    ensures var row := Row(key, champion, details);
      && row.severity == champion.severity
      && if key.2 == "EVIDENCE_NOT_GROUNDED" && champion.severity == "high" then
           row.rule == "missing_verified_evidence"
           && row.details == "Requirement evidence could not be verified against the uploaded sources."
         else Contains(row.details, d)
  {
    hide Join, Contains;
    var n :| 0 <= n < |details| && details[n] == d;
    JoinReads(details, n);
  }

  // ---------- reconciling twice ----------

  /** A group of one issue is that issue. */
  lemma {:induction false} LoneMember(issues: seq<Issue>, key: Key, c: int)
    requires Member(issues, c, key) && forall i :: Member(issues, i, key) ==> i == c
    ensures Champion(issues, key) == Some(issues[c])
    ensures Details(issues, key) == if issues[c].details == "" then [] else [issues[c].details]
  {
    hide KeyOf;
    var front, last := issues[..|issues| - 1], issues[|issues| - 1];
    assert issues == front + [last];
    MemberExtend(front, last, key);
    assert Member(issues, |front|, key) <==> KeyOf(last) == key;
    if c < |front| {
      LoneMember(front, key, c);
    } else {
      NoMember(front, key);
    }
  }

  lemma {:induction false} NoMember(issues: seq<Issue>, key: Key)
    requires forall i :: !Member(issues, i, key)
    ensures Champion(issues, key) == None && Details(issues, key) == []
  {
    hide KeyOf;
    if issues != [] {
      var front, last := issues[..|issues| - 1], issues[|issues| - 1];
      assert issues == front + [last];
      MemberExtend(front, last, key);
      assert !Member(issues, |front|, key);
      NoMember(front, key);
    }
  }

  lemma {:induction false} DistinctKeys(rows: seq<Issue>, keys: seq<Key>)
    requires |rows| == |keys| && NoRepeats(keys) && forall i :: 0 <= i < |rows| ==> KeyOf(rows[i]) == keys[i]
    ensures Keys(rows) == keys
  {
    hide KeyOf;
    if rows != [] {
      var n := |rows| - 1;
      DistinctKeys(rows[..n], keys[..n]);
      assert keys == keys[..n] + [keys[n]];
    }
  }

  lemma {:induction false} AllPublic(issues: seq<Issue>)
    requires forall i :: 0 <= i < |issues| ==> IsPublic(issues[i])
    ensures PublicOnly(issues) == issues
  {
    hide IsPublic;
    if issues != [] {
      AllPublic(issues[..|issues| - 1]);
      assert issues == issues[..|issues| - 1] + [issues[|issues| - 1]];
    }
  }

  lemma RowOfRow(key: Key, champion: Issue, details: seq<string>)
    ensures var row := Row(key, champion, details);
      Row(key, row, if row.details == "" then [] else [row.details]) == row
  {
  }

  lemma SoleMember(rows: seq<Issue>, keys: seq<Key>, i: int)
    requires |rows| == |keys| && NoRepeats(keys) && 0 <= i < |rows|
    requires forall j :: 0 <= j < |rows| ==> KeyOf(rows[j]) == keys[j]
    ensures Member(rows, i, keys[i]) && forall j :: Member(rows, j, keys[i]) ==> j == i
  {
    hide KeyOf;
    forall j | Member(rows, j, keys[i]) ensures j == i {
      assert keys[j] == keys[i];
    }
  }

  lemma RowsAgain(kept: seq<Issue>, rows: seq<Issue>, keys: seq<Key>)
    requires keys == Keys(kept) && rows == RowsOf(kept, keys) && NoRepeats(keys)
    requires forall j :: 0 <= j < |rows| ==> KeyOf(rows[j]) == keys[j]
    ensures RowsOf(rows, keys) == rows
  {
    hide Keys, KeyOf, RowOf, NoRepeats, Member;
    forall i | 0 <= i < |rows| ensures RowOf(rows, keys[i]) == rows[i] {
      SoleMember(rows, keys, i);
      RowAgain(kept, rows, keys[i], i);
    }
  }

  /** Reconciling the public list again changes nothing. */
  lemma ReconcilingTwice(issues: seq<Issue>)
    ensures PublicRows(PublicRows(issues)) == PublicRows(issues)
  {
    var kept, rows := PublicOnly(issues), PublicRows(issues);
    KeysExact(kept);
    RowKeys(kept);
    RowsArePublic(issues);
    hide Keys, KeyOf, RowOf, IsPublic, NoRepeats;
    AllPublic(rows);
    DistinctKeys(rows, Keys(kept));
    RowsAgain(kept, rows, Keys(kept));
  }

  lemma RowAgain(kept: seq<Issue>, rows: seq<Issue>, key: Key, i: int)
    requires key in Keys(kept) && Member(rows, i, key) && rows[i] == RowOf(kept, key)
    requires forall j :: Member(rows, j, key) ==> j == i
    ensures RowOf(rows, key) == rows[i]
  {
    hide Row, KeyOf, Champion, Details;
    LoneMember(rows, key, i);
    KeysExact(kept);
    ChampionIs(kept, key);
    RowOfRow(key, Champion(kept, key).value, Details(kept, key));
  }

  lemma RowsArePublic(issues: seq<Issue>)
    ensures forall i :: 0 <= i < |PublicRows(issues)| ==> IsPublic(PublicRows(issues)[i])
  {
    hide PublicRows, RootCause, SeverityRank;
    OneRowPerGroup(issues);
    forall i | 0 <= i < |PublicRows(issues)| ensures IsPublic(PublicRows(issues)[i]) {
      assert Member(PublicRows(issues), i, KeyOf(PublicRows(issues)[i]));
    }
  }

  // ---------- agreement with the score ----------

  predicate HighDefect(row: Issue) {
    row.severity == "high" && RootCause(row.rule) !in DIAGNOSTIC
  }

  function HighRows(rows: seq<Issue>): nat {
    if rows == [] then 0 else HighRows(rows[..|rows| - 1]) + if HighDefect(rows[|rows| - 1]) then 1 else 0
  }

  lemma RatedIsLower(severity: string)
    requires Rated(severity)
    ensures Lower(severity) == severity
  {
  }

  lemma ReportedHas(issues: seq<Issue>, key: Key, severity: string)
    requires forall i :: 0 <= i < |issues| ==> WellFormed(issues[i])
    ensures Reported(issues, key, severity) <==> Has(issues, key, severity)
  {
    hide KeyOf, Lower, Rated;
    forall i | 0 <= i < |issues| ensures Lower(issues[i].severity) == issues[i].severity {
      RatedIsLower(issues[i].severity);
    }
  }

  /** A row is high exactly when the score holds its group at high. */
  lemma HighAgrees(issues: seq<Issue>, row: Issue)
    requires forall i :: 0 <= i < |issues| ==> WellFormed(issues[i])
    requires SpeaksFor(row, issues, KeyOf(row))
    ensures row.severity == "high" <==> At(issues, KeyOf(row), "high")
  {
    hide KeyOf, Has;
    StandingHigh(issues, KeyOf(row));
    ReportedHas(issues, KeyOf(row), "high");
  }

  lemma {:induction false} HighRowsAre(issues: seq<Issue>, rows: seq<Issue>, keys: seq<Key>)
    requires |rows| == |keys| && NoRepeats(keys)
    requires forall i :: 0 <= i < |rows| ==> KeyOf(rows[i]) == keys[i] && IsPublic(rows[i])
    requires forall i :: 0 <= i < |rows| ==> (rows[i].severity == "high" <==> At(issues, keys[i], "high"))
    ensures HighRows(rows) == |Score.Chosen(issues, keys, Reportable, "high")|
  {
    if rows != [] {
      var n := |rows| - 1;
      HighRowsAre(issues, rows[..n], keys[..n]);
      Score.ChooseNext(issues, keys[..n], keys[n], Reportable, "high");
      assert keys[..n] + [keys[n]] == keys;
      HighDefectIff(rows[n], keys[n]);
      hide Score.Chosen, At, RootCause, HighDefect, Reportable, KeyOf, IsPublic;
    }
  }

  lemma HighDefectIff(row: Issue, key: Key)
    requires KeyOf(row) == key && IsPublic(row)
    ensures HighDefect(row) <==> Reportable(key) && row.severity == "high"
  {
    hide RootCause;
  }

  /** The non-diagnostic high rows number exactly the high-severity count of the score. */
  lemma HighRowsMatchScore(issues: seq<Issue>)
    requires forall i :: 0 <= i < |issues| ==> WellFormed(issues[i])
    ensures HighRows(PublicRows(issues)) == TallyOf(issues).reported
  {
    var kept, rows := PublicOnly(issues), PublicRows(issues);
    var keys := Keys(kept);
    KeysExact(kept);
    RowKeys(kept);
    OneRowPerGroup(issues);
    RowsArePublic(issues);
    hide Keys, KeyOf, RowsOf, RowOf, PublicOnly, HighRows, IsPublic, Reportable, At, SpeaksFor;
    forall i | 0 <= i < |rows| ensures rows[i].severity == "high" <==> At(issues, keys[i], "high") {
      HighAgrees(issues, rows[i]);
    }
    HighRowsAre(issues, rows, keys);
    forall k | Reportable(k) ensures k in keys <==> k in KeySet(issues) {
      KeptGroups(issues, k);
      Score.KeySetMember(issues, k);
      NotComplementary(k);
    }
    assert Score.Chosen(issues, keys, Reportable, "high") == Ranked(issues, ReportableKeys(issues), "high");
  }

  lemma NotComplementary(k: Key)
    requires Reportable(k)
    ensures k.2 != COMPLEMENTARY
  {
  }

  // ---------- the computation ----------

  datatype Entry = Entry(model: Issue, details: seq<string>)

  datatype Outcome = Rows(rows: seq<Issue>) | Invalid

  /** Groups the issues; an issue outside the schema stops it. */
  method GroupAll(issues: seq<Issue>) returns (valid: bool, order: seq<Key>, grouped: map<Key, Entry>)
    ensures valid <==> forall i :: 0 <= i < |issues| ==> WellFormed(issues[i])
    ensures valid ==> Grouped(PublicOnly(issues), order, grouped)
  {
    hide Grouped, IsPublic, KeyOf, WellFormed;
    order, grouped := [], map[];
    NothingGrouped();
    assert issues[..0] == [];
    for n := 0 to |issues|
      invariant forall i :: 0 <= i < n ==> WellFormed(issues[i])
      invariant Grouped(PublicOnly(issues[..n]), order, grouped)
    {
      assert issues[..n + 1][..n] == issues[..n];
      if !WellFormed(issues[n]) {
        return false, order, grouped;
      }
      if IsPublic(issues[n]) {
        order, grouped := Add(PublicOnly(issues[..n]), order, grouped, issues[n]);
      }
    }
    assert issues[..|issues|] == issues;
    valid := true;
  }

  lemma NothingGrouped()
    ensures Grouped([], [], map[])
  {
  }

  /** Groups the issues, then writes a row for each group. */
  method Reconcile(issues: seq<Issue>) returns (r: Outcome)
    ensures r == if forall i :: 0 <= i < |issues| ==> WellFormed(issues[i]) then Rows(PublicRows(issues)) else Invalid
  {
    hide PublicOnly, Champion, Details, Row, RowsOf, WellFormed, Keys;
    var valid, order, grouped := GroupAll(issues);
    if !valid {
      return Invalid;
    }
    ghost var kept := PublicOnly(issues);
    var rows: seq<Issue> := [];
    for n := 0 to |order|
      invariant rows == RowsOf(kept, order[..n])
    {
      var entry := grouped[order[n]];
      assert order[..n + 1] == order[..n] + [order[n]];
      RowsNext(kept, order[..n], order[n]);
      rows := rows + [Row(order[n], entry.model, entry.details)];
    }
    assert order[..|order|] == order;
    r := Rows(rows);
  }

  lemma RowsNext(issues: seq<Issue>, keys: seq<Key>, key: Key)
    ensures RowsOf(issues, keys + [key]) == RowsOf(issues, keys) + [RowOf(issues, key)]
  {
    hide RowOf;
  }

  /** The groups built so far. */
  ghost predicate Grouped(issues: seq<Issue>, order: seq<Key>, grouped: map<Key, Entry>) {
    && order == Keys(issues)
    && (forall k :: k in grouped <==> k in order)
    && (forall k :: k in order ==> Champion(issues, k) == Some(grouped[k].model))
    && (forall k :: k in order ==> Details(issues, k) == grouped[k].details)
  }

  /** A group's entry once the issue has joined it. */
  function Joined(entry: Entry, issue: Issue): Entry {
    Entry(
      if SeverityRank(issue.severity) > SeverityRank(entry.model.severity) then issue else entry.model,
      if issue.details != "" && issue.details !in entry.details then entry.details + [issue.details] else entry.details)
  }

  ghost predicate Holds(issues: seq<Issue>, key: Key, entry: Entry) {
    Champion(issues, key) == Some(entry.model) && Details(issues, key) == entry.details
  }

  lemma JoinedHolds(issues: seq<Issue>, issue: Issue, entry: Entry)
    ensures Holds(issues, KeyOf(issue), entry) ==> Holds(issues + [issue], KeyOf(issue), Joined(entry, issue))
    ensures (forall i :: !Member(issues, i, KeyOf(issue))) ==> Holds(issues + [issue], KeyOf(issue), Joined(Entry(issue, []), issue))
    ensures forall k :: k != KeyOf(issue) ==>
      Champion(issues + [issue], k) == Champion(issues, k) && Details(issues + [issue], k) == Details(issues, k)
  {
    hide KeyOf, SeverityRank;
    assert (issues + [issue])[..|issues|] == issues;
    if forall i :: !Member(issues, i, KeyOf(issue)) {
      NoMember(issues, KeyOf(issue));
    }
  }

  lemma AddKeeps(issues: seq<Issue>, order: seq<Key>, grouped: map<Key, Entry>, issue: Issue, entry: Entry)
    requires Grouped(issues, order, grouped)
    requires entry == if KeyOf(issue) in grouped then grouped[KeyOf(issue)] else Entry(issue, [])
    ensures Grouped(issues + [issue],
      if KeyOf(issue) in grouped then order else order + [KeyOf(issue)],
      grouped[KeyOf(issue) := Joined(entry, issue)])
  {
    hide KeyOf, Joined, Champion, Details;
    assert (issues + [issue])[..|issues|] == issues;
    KeysExact(issues);
    JoinedHolds(issues, issue, entry);
  }

  /** Adds one issue to its group. */
  method Add(ghost issues: seq<Issue>, order: seq<Key>, grouped: map<Key, Entry>, issue: Issue)
    returns (order': seq<Key>, grouped': map<Key, Entry>)
    requires Grouped(issues, order, grouped)
    ensures Grouped(issues + [issue], order', grouped')
  {
    hide KeyOf, SeverityRank, Grouped;
    var key := KeyOf(issue);
    order', grouped' := order, grouped;
    if key !in grouped' {
      order' := order' + [key];
      grouped' := grouped'[key := Entry(issue, [])];
    }
    var entry := grouped'[key];
    AddKeeps(issues, order, grouped, issue, entry);
    if SeverityRank(issue.severity) > SeverityRank(entry.model.severity) {
      entry := entry.(model := issue);
    }
    if issue.details != "" && issue.details !in entry.details {
      entry := entry.(details := entry.details + [issue.details]);
    }
    assert grouped'[key := entry] == grouped[key := entry];
    grouped' := grouped'[key := entry];
  }
}
