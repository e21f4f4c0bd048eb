/**
 A second canonicalization that merges: an accepted requirement, the same one rejected, and a deferred near
 copy of the two by another actor. The near copy joins the rejected requirement and lifts it, which the
 next pass then merges with the accepted one.
 */
module LiftedCopies {
  import opened Wrappers
  import opened Requirements
  import opened Connectivity
  import opened Clustering
  import opened Canonicalize
  import opened MergeLaws
  import opened CanonicalProperties
  import opened CanonicalStability

  function Worded(id: int, text: string, actor: Option<string>, d: Disposition): Req {
    Req(id, text, actor, None, d, [], 1.0, [], "Medium", None, false, None, Unclassified)
  }

  function LiftedCopy(long: string, short: string, clerk: string, auditor: string): seq<Req> {
    [Worded(1, long, Some(clerk), Accepted), Worded(2, long, None, Rejected), Worded(3, short, Some(auditor), Deferred)]
  }

  /** The long text ranks above the short one. */
  predicate Outweighs(t: Text, long: string, short: string) {
    |t.meaningful(long)| > |t.meaningful(short)| || (|t.meaningful(long)| == |t.meaningful(short)| && |long| > |short|)
  }

  /** Two wordings of one fact, near duplicates by their facts alone, by two actors. */
  predicate NearCopies(t: Text, long: string, short: string, clerk: string, auditor: string) {
    && t.normalize(long) != "" && t.normalize(long) != t.normalize(short)
    && |t.facts(long)| >= 4 && |t.facts(short)| >= 4 && Jaccard(t.facts(long), t.facts(short)) >= 0.8
    && !t.composite(long) && !t.composite(short)
    && Outweighs(t, long, short)
    && ActorsConflict(t, Worded(1, long, Some(clerk), Accepted), Worded(3, short, Some(auditor), Deferred))
  }

  lemma LiftedCopyPairs(t: Text, long: string, short: string, clerk: string, auditor: string)
    requires NearCopies(t, long, short, clerk, auditor)
    ensures var v := LiftedCopy(long, short, clerk, auditor);
      Compare(t, v[0], v[1]) != Merged && Compare(t, v[0], v[2]) != Merged && Compare(t, v[1], v[2]) == Merged
  {
    hide Jaccard, StripTrailingS;
  }

  lemma LiftedCopyEdges(t: Text, long: string, short: string, clerk: string, auditor: string)
    requires NearCopies(t, long, short, clerk, auditor)
    ensures MergeEdges(t, LiftedCopy(long, short, clerk, auditor)) == {(1, 2)} && Adjacent({(1, 2)}, 1, 2)
  {
    hide Compare, NearCopies;
    LiftedCopyPairs(t, long, short, clerk, auditor);
  }

  lemma LiftedCopyClusters(t: Text, long: string, short: string, clerk: string, auditor: string, i: nat, j: nat)
    requires NearCopies(t, long, short, clerk, auditor) && i < 3 && j < 3
    ensures Connected(MergeEdges(t, LiftedCopy(long, short, clerk, auditor)), i, j) <==> (i == 0 <==> j == 0)
  {
    hide MergeEdges, Connected, Adjacent, NearCopies;
    var edges, tag: seq<nat> := MergeEdges(t, LiftedCopy(long, short, clerk, auditor)), [0, 1, 1];
    LiftedCopyEdges(t, long, short, clerk, auditor);
    if Connected(edges, i, j) {
      ConnectedKeepsLabel(edges, tag, i, j);
    }
    ConnectedRefl(edges, i);
    ConnectedEdge(edges, 1, 2);
    ConnectedSym(edges, 1, 2);
  }

  lemma LiftedCopyHomes(t: Text, long: string, short: string, clerk: string, auditor: string, i: nat, j: nat, p: nat, q: nat)
    requires NearCopies(t, long, short, clerk, auditor) && i < 3 && j < 3
    requires Home(t, LiftedCopy(long, short, clerk, auditor), i, p) && Home(t, LiftedCopy(long, short, clerk, auditor), j, q)
    ensures p == q <==> (i == 0 <==> j == 0)
  {
    hide Home, MergeEdges, Connected, NearCopies;
    LiftedCopyClusters(t, long, short, clerk, auditor, i, j);
    FoldedTogetherIffConnected(t, LiftedCopy(long, short, clerk, auditor), i, j, p, q);
  }

  lemma LongRanksFirst(t: Text, long: string, short: string, clerk: string, auditor: string)
    requires NearCopies(t, long, short, clerk, auditor)
    ensures Outranks(t, LiftedCopy(long, short, clerk, auditor), 1, 2)
  {
    hide Jaccard, ActorsConflict;
  }

  lemma LiftedCopyBest(t: Text, long: string, short: string, clerk: string, auditor: string, p: nat, q: nat)
    requires NearCopies(t, long, short, clerk, auditor)
    requires Home(t, LiftedCopy(long, short, clerk, auditor), 0, p) && Home(t, LiftedCopy(long, short, clerk, auditor), 1, q)
    ensures var v := LiftedCopy(long, short, clerk, auditor);
      p != q && BestAt(t, v, p, 0) && BestAt(t, v, q, 1) && Lifted(t, v, p) && Lifted(t, v, q)
  {
    hide Home, NearCopies, Outranks;
    var v := LiftedCopy(long, short, clerk, auditor);
    LongRanksFirst(t, long, short, clerk, auditor);
    LiftedCopyHomes(t, long, short, clerk, auditor, 0, 1, p, q);
    forall i: nat | i < |v| && Home(t, v, i, p) ensures i == 0 {
      LiftedCopyHomes(t, long, short, clerk, auditor, 0, i, p, p);
    }
    forall i: nat | i < |v| && Home(t, v, i, q) ensures i == 1 || i == 2 {
      LiftedCopyHomes(t, long, short, clerk, auditor, 1, i, q, q);
    }
    var r := HomeExists(t, v, 2);
    LiftedCopyHomes(t, long, short, clerk, auditor, 1, 2, q, r);
    assert v[2].disposition != Rejected && Home(t, v, 2, q);
    assert v[0].disposition != Rejected && Home(t, v, 0, p);
  }

  /** The survivors cite nothing, so their sources match. */
  lemma NothingCited(t: Text, v: seq<Req>, first: bool, p: nat, other: Req)
    requires |v| > 1 && p < |Canonical(t, v, first).reqs| && forall i :: 0 <= i < |v| ==> v[i].evidence == []
    ensures SourceIntentMatches(t, Canonical(t, v, first).reqs[p], other) && SourceIntentMatches(t, other, Canonical(t, v, first).reqs[p])
  {
    hide Canonical, Home;
    SurvivorDrawn(t, v, first, p);
    var m := Canonical(t, v, first).reqs[p];
    forall e ensures !HomeCites(t, v, p, e) {
      NoneCites(t, v, p, e);
    }
    hide HomeCites;
    assert forall e :: e !in m.evidence;
    assert DocumentIds(m.evidence) == {};
  }

  lemma NoneCites(t: Text, v: seq<Req>, p: nat, e: Evidence)
    requires forall i :: 0 <= i < |v| ==> v[i].evidence == []
    ensures !HomeCites(t, v, p, e)
  {
    hide Home;
  }

  lemma LiftedCopyReopened(t: Text, long: string, short: string, clerk: string, auditor: string, first: bool)
    requires NearCopies(t, long, short, clerk, auditor)
    ensures !NoneReopened(t, LiftedCopy(long, short, clerk, auditor), first)
  {
    hide Canonical, Compare, Home, BestAt, Covers, ContainmentDuplicate, NearDuplicate, ActorsConflict, SourceIntentMatches, HoldsAccepted, Lifted;
    var v := LiftedCopy(long, short, clerk, auditor);
    var out := Canonical(t, v, first).reqs;
    assert ExactDuplicate(t, v[0], v[1]) && ExactDuplicate(t, v[1], v[0]);
    hide NearCopies;
    var p := HomeExists(t, v, 0);
    var q := HomeExists(t, v, 1);
    LiftedCopyBest(t, long, short, clerk, auditor, p, q);
    SurvivorCovers(t, v, first, 0, p);
    SurvivorCovers(t, v, first, 1, q);
    NothingCited(t, v, first, p, out[q]);
    assert Reopened(t, v, first, p, q, 0, 1) || Reopened(t, v, first, q, p, 1, 0);
  }

  /** The deferred copy lifts the rejected requirement, which a second pass then merges with the accepted one. */
  lemma LiftedCopyMergesLater(t: Text, long: string, short: string, clerk: string, auditor: string, first: bool, second: bool)
    requires NearCopies(t, long, short, clerk, auditor)
    ensures var out := Canonical(t, LiftedCopy(long, short, clerk, auditor), first).reqs;
      !KeepsAll(out, Canonical(t, out, second))
  {
    hide Canonical, NoneReopened, KeepsAll, NearCopies;
    var v := LiftedCopy(long, short, clerk, auditor);
    LiftedCopyReopened(t, long, short, clerk, auditor, first);
    SecondPassKeepsAllIff(t, v, first, second, Canonical(t, v, first).reqs);
  }

  // ---------- such texts exist ----------

  /** Where the first blank stands, or the length of a text without one. */
  function Blank(s: string): (k: nat)
    ensures k <= |s| && (k < |s| ==> s[k] == ' ') && forall i :: 0 <= i < k ==> s[i] != ' '
  {
    if s == "" || s[0] == ' ' then 0 else 1 + Blank(s[1..])
  }

  /** The words of a text, separated by blanks. */
  function Words(s: string): set<string>
    decreases |s|
  {
    if s == "" then {}
    else
      var k := Blank(s);
      var rest := if k < |s| then Words(s[k + 1..]) else {};
      if k == 0 then rest else {s[..k]} + rest
  }

  ghost predicate IsWord(word: string) {
    word != "" && forall i :: 0 <= i < |word| ==> word[i] != ' '
  }

  lemma BlankAfter(word: string, rest: string)
    requires IsWord(word)
    ensures Blank(word + " " + rest) == |word|
  {
    var s := word + " " + rest;
    assert s[|word|] == ' ';
    assert forall i :: 0 <= i < |word| ==> s[i] == word[i];
  }

  lemma WordsNext(word: string, rest: string)
    requires IsWord(word)
    ensures Words(word + " " + rest) == {word} + Words(rest)
  {
    var s := word + " " + rest;
    BlankAfter(word, rest);
    assert s[..|word|] == word && s[|word| + 1..] == rest;
  }

  lemma LastWord(word: string)
    requires IsWord(word)
    ensures Words(word) == {word}
  {
    assert word[..|word|] == word;
  }

  const SCAFFOLDING: set<string> := {"a", "an", "the", "of", "to", "is", "it", "in", "on", "for", "with", "that", "this"}

  const COMPONENTS: set<string> := {"system", "service", "application", "workspace", "portal", "platform", "api", "database"}

  /** Texts compared by their words: facts are the words that are no scaffolding, and conjunctions make a text composite. */
  function Wordwise(): Text {
    Text(
      s => s,
      s => Words(s) - SCAFFOLDING,
      s => Words(s),
      s => s,
      s => Words(s) * COMPONENTS != {},
      s => Words(s) * {"and", "or"} != {})
  }

  function Long(): string {
    "print" + " " + ("the" + " " + ("monthly" + " " + ("revenue" + " " + "report")))
  }

  function Short(): string {
    "print" + " " + ("monthly" + " " + ("revenue" + " " + "report"))
  }

  function Facts(): set<string> {
    {"print", "monthly", "revenue", "report"}
  }

  lemma WordsOfBoth()
    ensures Words(Long()) == Facts() + {"the"} && Words(Short()) == Facts()
  {
    hide Words;
    LastWord("report");
    WordsNext("revenue", "report");
    WordsNext("monthly", "revenue" + " " + "report");
    WordsNext("the", "monthly" + " " + ("revenue" + " " + "report"));
    WordsNext("print", "the" + " " + ("monthly" + " " + ("revenue" + " " + "report")));
    WordsNext("print", "monthly" + " " + ("revenue" + " " + "report"));
  }

  /** Four words of different first letters or lengths, none of them scaffolding or a conjunction. */
  lemma FourFacts()
    ensures |Facts()| == 4 && "the" in SCAFFOLDING && "the" !in Facts()
    ensures Facts() !! SCAFFOLDING && (Facts() + {"the"}) !! {"and", "or"}
  {
    assert "monthly"[0] != "revenue"[0];
    assert "print"[0] == 'p' && "monthly"[0] == 'm' && "revenue"[0] == 'r' && "report"[0] == 'r';
    assert |"revenue"| == 7 && |"report"| == 6 && |"print"| == 5 && |"monthly"| == 7;
    assert forall w :: w in SCAFFOLDING ==> |w| <= 4;
  }

  lemma JaccardSame(a: set<string>)
    requires a != {}
    ensures Jaccard(a, a) == 1.0
  {
    assert a * a == a && a + a == a;
  }

  lemma ReportsByFacts()
    ensures Wordwise().facts(Long()) == Facts() && Wordwise().facts(Short()) == Facts()
    ensures !Wordwise().composite(Long()) && !Wordwise().composite(Short())
    ensures Wordwise().meaningful(Long()) == Facts() + {"the"} && Wordwise().meaningful(Short()) == Facts()
  {
    hide Words, Long, Short, Facts;
    WordsOfBoth();
    FourFacts();
    assert Facts() + {"the"} - SCAFFOLDING == Facts() && Facts() - SCAFFOLDING == Facts();
  }

  lemma LongIsLonger()
    ensures |Long()| > |Short()| > 0
  {
  }

  lemma ClerkAndAuditor(a: Req, b: Req)
    requires a.actor == Some("clerk") && b.actor == Some("auditor")
    ensures ActorsConflict(Wordwise(), a, b)
  {
    LastWord("clerk");
    LastWord("auditor");
    hide Words;
    assert "clerk"[0] != "auditor"[0];
    assert StripTrailingS("clerk") == "clerk" && StripTrailingS("auditor") == "auditor";
    assert "clerk" !in COMPONENTS by {
      assert forall w :: w in COMPONENTS ==> |w| != 5;
    }
  }

  /** Compared by their words, "print the monthly revenue report" and "print monthly revenue report" are near copies. */
  lemma ReportsAreNearCopies()
    ensures NearCopies(Wordwise(), Long(), Short(), "clerk", "auditor")
  {
    hide Words, Jaccard, ActorsConflict, Long, Short, Facts, Wordwise;
    ReportsByFacts();
    FourFacts();
    JaccardSame(Facts());
    LongIsLonger();
    Verbatim(Long());
    Verbatim(Short());
    ClerkAndAuditor(Worded(1, Long(), Some("clerk"), Accepted), Worded(3, Short(), Some("auditor"), Deferred));
  }

  lemma Verbatim(s: string)
    ensures Wordwise().normalize(s) == s
  {
  }

  /** So the second pass merges requirements that the first one left apart. */
  lemma ReportsMergeLater(first: bool, second: bool)
    ensures var out := Canonical(Wordwise(), LiftedCopy(Long(), Short(), "clerk", "auditor"), first).reqs;
      !KeepsAll(out, Canonical(Wordwise(), out, second))
  {
    hide Canonical, KeepsAll, NearCopies, Wordwise, Long, Short;
    ReportsAreNearCopies();
    LiftedCopyMergesLater(Wordwise(), Long(), Short(), "clerk", "auditor", first, second);
  }
}
