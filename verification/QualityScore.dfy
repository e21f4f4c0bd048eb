/**
 The overall quality score: a weighted mean of component scores, less a penalty for defect groups no
 component represents, under caps for the worst defects. Component scores are inputs here; real
 arithmetic, without the final rounding.
 */
module QualityScore {
  import opened Reals
  import opened Wrappers
  import opened IssueFamilies

  datatype Components = Components(
    groundedness: real, traceability: real, completeness: real, criteria: real, duplicateRisk: real)

  predicate Unit(x: real) {
    0.0 <= x <= 1.0
  }

  predicate InRange(c: Components) {
    Unit(c.groundedness) && Unit(c.traceability) && Unit(c.completeness) && Unit(c.criteria) && Unit(c.duplicateRisk)
  }

  function Weighted(c: Components): real {
    c.groundedness * 0.30 + c.traceability * 0.25 + c.completeness * 0.15 + c.criteria * 0.20 + (1.0 - c.duplicateRisk) * 0.10
  }

  function Penalty(t: Tally): real {
    RealMin(0.70, t.high as real * 0.15 + t.medium as real * 0.05 + t.low as real * 0.01)
  }

  /** The lowest cap that applies. */
  function Cap(t: Tally): Option<real> {
    if t.high > 0 then Some(0.59)
    else if t.medium > 0 then Some(0.79)
    else if t.reported > 0 || t.degraded then Some(0.89)
    else None
  }

  function Overall(c: Components, requirements: nat, stories: nat, t: Tally): real {
    if requirements == 0 && stories == 0 then 0.0
    else
      var reduced := RealMax(0.0, Weighted(c) - Penalty(t));
      if Cap(t).Some? then RealMin(reduced, Cap(t).value) else reduced
  }

  lemma OverallInRange(c: Components, requirements: nat, stories: nat, t: Tally)
    requires InRange(c)
    ensures 0.0 <= Overall(c, requirements, stories, t) <= Cap(t).GetOr(1.0)
  {
  }

  /** At least as many defects at each severity or above, and no flag lost. */
  predicate NoBetter(t: Tally, u: Tally) {
    && t.high <= u.high
    && t.high + t.medium <= u.high + u.medium
    && t.high + t.medium + t.low <= u.high + u.medium + u.low
    && t.reported <= u.reported
    && (t.degraded ==> u.degraded)
  }

  lemma OverallAntitone(c: Components, requirements: nat, stories: nat, t: Tally, u: Tally)
    requires NoBetter(t, u)
    ensures Overall(c, requirements, stories, u) <= Overall(c, requirements, stories, t)
  {
    assert Penalty(t) <= Penalty(u);
    hide Penalty;
  }

  // ---------- the order of the issues ----------

  lemma KeySetMember(issues: seq<Issue>, key: Key)
    ensures key in KeySet(issues) <==> exists i :: Member(issues, i, key)
  {
    if key in KeySet(issues) {
      var i :| 0 <= i < |issues| && KeyOf(issues[i]) == key;
      assert Member(issues, i, key);
    }
  }

  /** Where severities are settled, the standing depends only on which severities occur. */
  lemma SettledStanding(issues: seq<Issue>, key: Key, severity: string)
    requires SettledAt(issues, key) && Rated(severity)
    ensures At(issues, key, severity) <==>
      match severity
      case "high" => Has(issues, key, "high")
      case "medium" => !Has(issues, key, "high") && Has(issues, key, "medium")
      case _ => !Has(issues, key, "high") && !Has(issues, key, "medium") && Has(issues, key, "low")
  {
    hide Has, HasUnrated, Standing;
    StandingHigh(issues, key);
    if !HasUnrated(issues, key) {
      StandingLow(issues, key);
    }
  }

  lemma SettledReordering(a: seq<Issue>, b: seq<Issue>)
    requires multiset(a) == multiset(b) && Settled(a)
    ensures Settled(b) && SameStandings(a, b)
  {
    hide KeySet, Has, HasUnrated, Standing, At;
    ReorderingKeys(a, b);
    ReorderingKeys(b, a);
    forall k | k in KeySet(a)
      ensures SettledAt(b, k)
      ensures forall severity :: Rated(severity) ==> (At(a, k, severity) <==> At(b, k, severity))
    {
      SettledReorderingAt(a, b, k);
    }
  }

  lemma SettledReorderingAt(a: seq<Issue>, b: seq<Issue>, k: Key)
    requires multiset(a) == multiset(b) && SettledAt(a, k)
    ensures SettledAt(b, k)
    ensures forall severity :: Rated(severity) ==> (At(a, k, severity) <==> At(b, k, severity))
  {
    hide Has, HasUnrated, Standing, At;
    forall severity ensures Has(a, k, severity) <==> Has(b, k, severity) {
      ReorderingHas(a, b, k, severity);
      ReorderingHas(b, a, k, severity);
    }
    ReorderingHas(a, b, k, "low");
    ReorderingHas(b, a, k, "low");
    forall severity | Rated(severity) ensures At(a, k, severity) <==> At(b, k, severity) {
      SettledStanding(a, k, severity);
      SettledStanding(b, k, severity);
    }
  }

  // ---------- one issue put in or moved ----------

  function Inserted(issues: seq<Issue>, i: nat, extra: Issue): (r: seq<Issue>)
    requires i <= |issues|
    ensures multiset(r) == multiset(issues + [extra])
  {
    assert issues == issues[..i] + issues[i..];
    issues[..i] + [extra] + issues[i..]
  }

  lemma StandingNext(front: seq<Issue>, last: Issue, key: Key)
    ensures KeyOf(last) != key ==> Standing(front + [last], key) == Standing(front, key)
    ensures KeyOf(last) == key ==> Standing(front + [last], key) == Some(
      if Standing(front, key).None? then Lower(last.severity) else Raise(Standing(front, key).value, Lower(last.severity)))
  {
    hide KeyOf, Lower;
    assert (front + [last])[..|front|] == front;
  }

  lemma InsertedNext(front: seq<Issue>, last: Issue, i: nat, extra: Issue)
    requires i <= |front|
    ensures Inserted(front + [last], i, extra) == Inserted(front, i, extra) + [last]
    ensures Inserted(front, |front|, extra) == front + [extra]
  {
    assert (front + [last])[..i] == front[..i] && (front + [last])[i..] == front[i..] + [last];
  }

  /** Groups other than its own do not notice an issue put in. */
  lemma {:induction false} OthersStay(issues: seq<Issue>, i: nat, extra: Issue, key: Key)
    requires i <= |issues| && KeyOf(extra) != key
    ensures Standing(Inserted(issues, i, extra), key) == Standing(issues, key)
    decreases |issues|
  {
    hide KeyOf, Standing, Inserted;
    if i == |issues| {
      InsertedNext(issues, extra, i, extra);
      StandingNext(issues, extra, key);
    } else {
      var front, last := issues[..|issues| - 1], issues[|issues| - 1];
      assert issues == front + [last];
      OthersStay(front, i, extra, key);
      InsertedNext(front, last, i, extra);
      StandingNext(front, last, key);
      StandingNext(Inserted(front, i, extra), last, key);
    }
  }

  /** The first issue of a group. */
  ghost predicate Opens(issues: seq<Issue>, m: int, key: Key) {
    Member(issues, m, key) && forall i :: 0 <= i < m ==> KeyOf(issues[i]) != key
  }

  lemma {:induction false} OpeningExists(issues: seq<Issue>, i: nat, key: Key) returns (m: nat)
    requires Member(issues, i, key)
    ensures Opens(issues, m, key) && m <= i
  {
    hide KeyOf;
    if Opens(issues, i, key) {
      m := i;
    } else {
      var j :| 0 <= j < i && KeyOf(issues[j]) == key;
      m := OpeningExists(issues, j, key);
    }
  }

  /** With nothing high or medium in it, a group keeps the severity it started with. */
  lemma {:induction false} OpeningStays(issues: seq<Issue>, m: nat, key: Key)
    requires Opens(issues, m, key)
    requires !Has(issues, key, "high") && !Has(issues, key, "medium")
    ensures Standing(issues, key) == Some(Lower(issues[m].severity))
  {
    hide KeyOf, Lower, Has;
    var front, last := issues[..|issues| - 1], issues[|issues| - 1];
    assert issues == front + [last];
    HasExtend(front, last, key, "high");
    HasExtend(front, last, key, "medium");
    if m < |front| {
      OpeningStays(front, m, key);
    } else {
      StandingHigh(front, key);
    }
  }

  /** One issue moved to the front. */
  function Fronted(issues: seq<Issue>, i: nat): (r: seq<Issue>)
    requires i < |issues|
    ensures multiset(r) == multiset(issues)
  {
    assert issues == issues[..i] + [issues[i]] + issues[i + 1..];
    [issues[i]] + issues[..i] + issues[i + 1..]
  }

  lemma FrontedStays(issues: seq<Issue>, i: nat, key: Key)
    requires Member(issues, i, key)
    requires !Has(issues, key, "high") && !Has(issues, key, "medium")
    ensures Standing(Fronted(issues, i), key) == Some(Lower(issues[i].severity))
  {
    hide Has, KeyOf, Lower, Standing;
    var moved := Fronted(issues, i);
    ReorderingHas(moved, issues, key, "high");
    ReorderingHas(moved, issues, key, "medium");
    OpeningStays(moved, 0, key);
  }

  lemma FrontedOthers(issues: seq<Issue>, i: nat, key: Key)
    requires i < |issues| && KeyOf(issues[i]) != key
    ensures Standing(Fronted(issues, i), key) == Standing(issues, key)
  {
    hide KeyOf, Lower, Standing;
    var without := issues[..i] + issues[i + 1..];
    assert Inserted(without, i, issues[i]) == issues;
    assert Inserted(without, 0, issues[i]) == Fronted(issues, i);
    OthersStay(without, i, issues[i], key);
    OthersStay(without, 0, issues[i], key);
  }

  /** Severities of groups come out the same in every order exactly when they are settled. */
  lemma OrderIrrelevantIffSettled(issues: seq<Issue>)
    ensures Settled(issues) <==> forall other :: multiset(other) == multiset(issues) ==> SameStandings(issues, other)
  {
    if Settled(issues) {
      forall other | multiset(other) == multiset(issues) ensures SameStandings(issues, other) {
        SettledReordering(issues, other);
      }
    } else {
      var k :| k in KeySet(issues) && !SettledAt(issues, k);
      var i :| Member(issues, i, k) && Lower(issues[i].severity) == "low";
      var j :| Member(issues, j, k) && !Rated(Lower(issues[j].severity));
      FrontedStays(issues, i, k);
      FrontedStays(issues, j, k);
      assert At(Fronted(issues, i), k, "low") && !At(Fronted(issues, j), k, "low");
      assert Rated("low");
      assert !SameStandings(issues, Fronted(issues, i)) || !SameStandings(issues, Fronted(issues, j)) by {
        hide At, Fronted;
      }
    }
  }

  // ---------- the score and the order ----------

  /** Groups the score counts that mix unrated and low issues without a higher one. */
  ghost function Unsettled(issues: seq<Issue>): set<Key> {
    set k | k in PenalizableKeys(issues) && !SettledAt(issues, k)
  }

  /** Groups the score counts as low in every order. */
  ghost function FirmlyLow(issues: seq<Issue>): set<Key> {
    set k | k in PenalizableKeys(issues) && At(issues, k, "low") && !HasUnrated(issues, k)
  }

  ghost function LowGroups(issues: seq<Issue>): set<Key> {
    Ranked(issues, PenalizableKeys(issues), "low")
  }

  lemma ReorderingAt(a: seq<Issue>, b: seq<Issue>, k: Key)
    requires multiset(a) == multiset(b)
    ensures At(a, k, "high") <==> At(b, k, "high")
    ensures At(a, k, "medium") <==> At(b, k, "medium")
    ensures At(a, k, "low") && !HasUnrated(a, k) <==> At(b, k, "low") && !HasUnrated(b, k)
    ensures SettledAt(a, k) <==> SettledAt(b, k)
  {
    hide Has, HasUnrated, Standing;
    forall severity ensures Has(a, k, severity) <==> Has(b, k, severity) {
      ReorderingHas(a, b, k, severity);
      ReorderingHas(b, a, k, severity);
    }
    ReorderingHas(a, b, k, "low");
    ReorderingHas(b, a, k, "low");
    StandingHigh(a, k);
    StandingHigh(b, k);
    if !HasUnrated(a, k) {
      StandingLow(a, k);
      StandingLow(b, k);
    }
  }

  /** Whatever the order, only the number of low groups can differ. */
  lemma ReorderingTally(a: seq<Issue>, b: seq<Issue>)
    requires multiset(a) == multiset(b)
    ensures TallyOf(b) == TallyOf(a).(low := |LowGroups(b)|)
    ensures PenalizableKeys(a) == PenalizableKeys(b) && Unsettled(a) == Unsettled(b) && FirmlyLow(a) == FirmlyLow(b)
  {
    hide KeySet, SettledAt, HasUnrated, At, Penalizable, Reportable;
    ReorderingKeys(a, b);
    ReorderingKeys(b, a);
    forall k
      ensures At(a, k, "high") <==> At(b, k, "high")
      ensures At(a, k, "medium") <==> At(b, k, "medium")
      ensures At(a, k, "low") && !HasUnrated(a, k) <==> At(b, k, "low") && !HasUnrated(b, k)
      ensures SettledAt(a, k) <==> SettledAt(b, k)
    {
      ReorderingAt(a, b, k);
    }
    assert PenalizableKeys(a) == PenalizableKeys(b) && ReportableKeys(a) == ReportableKeys(b);
    assert Ranked(a, PenalizableKeys(a), "high") == Ranked(b, PenalizableKeys(b), "high");
    assert Ranked(a, PenalizableKeys(a), "medium") == Ranked(b, PenalizableKeys(b), "medium");
    assert Ranked(a, ReportableKeys(a), "high") == Ranked(b, ReportableKeys(b), "high");
  }

  /** The groups counted as low are the firm ones and some of the unsettled ones. */
  lemma LowRange(issues: seq<Issue>)
    ensures FirmlyLow(issues) <= LowGroups(issues) <= FirmlyLow(issues) + Unsettled(issues)
    ensures FirmlyLow(issues) !! Unsettled(issues)
  {
    hide Has, HasUnrated, Standing, PenalizableKeys;
    forall k | At(issues, k, "low")
      ensures !HasUnrated(issues, k) <==> SettledAt(issues, k)
    {
      StandingHigh(issues, k);
    }
  }

  /** Moving an issue of an unsettled group to the front decides whether the group counts as low. */
  lemma FrontedLow(issues: seq<Issue>, i: nat, k: Key)
    requires Member(issues, i, k) && k in Unsettled(issues)
    ensures LowGroups(Fronted(issues, i)) ==
      if Lower(issues[i].severity) == "low" then LowGroups(issues) + {k} else LowGroups(issues) - {k}
  {
    hide Fronted, KeyOf, Lower, At, SettledAt, Penalizable, TallyOf, FirmlyLow;
    var moved := Fronted(issues, i);
    FrontedAt(issues, i, k);
    ReorderingTally(issues, moved);
    hide PenalizableKeys;
    assert forall x :: x in LowGroups(moved) <==> x in PenalizableKeys(moved) && At(moved, x, "low");
    assert forall x :: x in LowGroups(issues) <==> x in PenalizableKeys(issues) && At(issues, x, "low");
  }

  lemma FrontedAt(issues: seq<Issue>, i: nat, k: Key)
    requires Member(issues, i, k) && !SettledAt(issues, k)
    ensures At(Fronted(issues, i), k, "low") <==> Lower(issues[i].severity) == "low"
    ensures forall x :: x != k ==> (At(Fronted(issues, i), x, "low") <==> At(issues, x, "low"))
  {
    var moved := Fronted(issues, i);
    FrontedStays(issues, i, k);
    StandsAt(moved, k, Lower(issues[i].severity));
    hide Fronted, KeyOf, Lower, Standing, Has, HasUnrated;
    forall x | x != k ensures At(moved, x, "low") <==> At(issues, x, "low") {
      FrontedOthers(issues, i, x);
    }
  }

  lemma UnsettledMembers(issues: seq<Issue>, k: Key) returns (low: nat, unrated: nat)
    requires k in Unsettled(issues)
    ensures Member(issues, low, k) && Lower(issues[low].severity) == "low"
    ensures Member(issues, unrated, k) && !Rated(Lower(issues[unrated].severity)) && Lower(issues[unrated].severity) != "low"
  {
    hide KeyOf, Lower;
    low :| Member(issues, low, k) && Lower(issues[low].severity) == "low";
    unrated :| Member(issues, unrated, k) && !Rated(Lower(issues[unrated].severity));
  }

  /** The counts that enter the score are the same in every order exactly when the groups it counts are settled. */
  lemma TallyIgnoresOrderIff(issues: seq<Issue>)
    ensures (forall k :: k in PenalizableKeys(issues) ==> SettledAt(issues, k))
      <==> forall other :: multiset(other) == multiset(issues) ==> TallyOf(other) == TallyOf(issues)
  {
    hide TallyOf, SettledAt, PenalizableKeys, LowGroups, FirmlyLow, KeyOf, Rated, Lower;
    LowIsCounted(issues);
    if k :| k in PenalizableKeys(issues) && !SettledAt(issues, k) {
      var i, j := UnsettledMembers(issues, k);
      FrontedLow(issues, i, k);
      FrontedLow(issues, j, k);
      ReorderingTally(issues, Fronted(issues, i));
      ReorderingTally(issues, Fronted(issues, j));
      Toggle(LowGroups(issues), k);
    } else {
      forall other | multiset(other) == multiset(issues) ensures TallyOf(other) == TallyOf(issues) {
        ReorderingTally(issues, other);
        LowRange(issues);
        LowRange(other);
        assert LowGroups(other) == LowGroups(issues);
      }
    }
  }

  lemma LowIsCounted(issues: seq<Issue>)
    ensures TallyOf(issues).low == |LowGroups(issues)|
  {
  }

  lemma Toggle<T>(s: set<T>, x: T)
    ensures |s + {x}| == |s - {x}| + 1
  {
    assert s + {x} == (s - {x}) + {x};
  }

  /** Some order counts no unsettled group as low. */
  lemma {:induction false} Lowest(issues: seq<Issue>) returns (least: seq<Issue>)
    ensures multiset(least) == multiset(issues) && LowGroups(least) == FirmlyLow(issues)
    decreases |LowGroups(issues)|
  {
    hide LowGroups, FirmlyLow, Unsettled, KeyOf, Rated, Lower;
    LowRange(issues);
    if k :| k in Unsettled(issues) && k in LowGroups(issues) {
      var i, j := UnsettledMembers(issues, k);
      FrontedLow(issues, j, k);
      Toggle(LowGroups(issues), k);
      assert LowGroups(issues) + {k} == LowGroups(issues);
      ReorderingTally(issues, Fronted(issues, j));
      least := Lowest(Fronted(issues, j));
    } else {
      least := issues;
    }
  }

  /** The penalty reaches its limit whatever the order. */
  ghost predicate Saturated(issues: seq<Issue>) {
    Penalty(TallyOf(issues).(low := |FirmlyLow(issues)|)) == 0.70
  }

  /** The score is the same in every order. */
  ghost predicate OrderFree(issues: seq<Issue>) {
    forall c, requirements: nat, stories: nat, other :: InRange(c) && multiset(other) == multiset(issues) ==>
      Overall(c, requirements, stories, TallyOf(other)) == Overall(c, requirements, stories, TallyOf(issues))
  }

  /** Components that all score `x`. */
  function Even(x: real): Components {
    Components(x, x, x, x, 1.0 - x)
  }

  /** One more low defect shows in the score unless the penalty is at its limit already. */
  lemma LowShows(t: Tally)
    requires Penalty(t) < 0.70
    ensures var c := Even(Penalty(t) + 0.2);
      InRange(c) && Overall(c, 1, 1, t.(low := t.low + 1)) < Overall(c, 1, 1, t)
  {
  }

  /** At the limit, further low defects make no difference. */
  lemma LowHidden(c: Components, requirements: nat, stories: nat, t: Tally, low: nat)
    requires Penalty(t) == 0.70 && t.low <= low
    ensures Overall(c, requirements, stories, t.(low := low)) == Overall(c, requirements, stories, t)
  {
    assert Penalty(t.(low := low)) == 0.70;
    hide Penalty, Weighted;
  }

  /** The score does not depend on the order exactly when every group it counts is settled or the penalty is at its limit anyway. */
  lemma ScoreIgnoresOrderIff(issues: seq<Issue>)
    ensures OrderFree(issues) <==> Unsettled(issues) == {} || Saturated(issues)
  {
    hide TallyOf, Overall, FirmlyLow, InRange, Unsettled, Saturated;
    if Unsettled(issues) != {} && !Saturated(issues) {
      OrderShows(issues);
    } else {
      forall c, requirements: nat, stories: nat, other | InRange(c) && multiset(other) == multiset(issues)
        ensures Overall(c, requirements, stories, TallyOf(other)) == Overall(c, requirements, stories, TallyOf(issues))
      {
        if Unsettled(issues) == {} {
          UnsettledNone(issues);
          TallyIgnoresOrderIff(issues);
        } else {
          SaturatedSame(c, requirements, stories, issues, other);
          SaturatedSame(c, requirements, stories, issues, issues);
        }
      }
    }
  }

  lemma OrderShows(issues: seq<Issue>)
    requires Unsettled(issues) != {} && !Saturated(issues)
    ensures !OrderFree(issues)
  {
    hide TallyOf, Penalty, Overall, FirmlyLow, InRange, Unsettled;
    var least, more, t := NeighbouringOrders(issues);
    PenaltyLimit(t);
    LowShows(t);
    var c := Even(Penalty(t) + 0.2);
    assert InRange(c) && Overall(c, 1, 1, TallyOf(more)) < Overall(c, 1, 1, TallyOf(least));
    assert Overall(c, 1, 1, TallyOf(more)) != Overall(c, 1, 1, TallyOf(issues)) || Overall(c, 1, 1, TallyOf(least)) != Overall(c, 1, 1, TallyOf(issues));
  }

  /** Two orders that differ by one low defect, the fewer being as few as possible. */
  lemma NeighbouringOrders(issues: seq<Issue>) returns (least: seq<Issue>, more: seq<Issue>, t: Tally)
    requires Unsettled(issues) != {}
    ensures multiset(least) == multiset(issues) && multiset(more) == multiset(issues)
    ensures t == TallyOf(issues).(low := |FirmlyLow(issues)|)
    ensures TallyOf(least) == t && TallyOf(more) == t.(low := t.low + 1)
  {
    hide TallyOf, LowGroups, FirmlyLow, Unsettled;
    t := TallyOf(issues).(low := |FirmlyLow(issues)|);
    var k :| k in Unsettled(issues);
    least := Lowest(issues);
    ReorderingTally(issues, least);
    more := OneMoreLow(least, k);
    ReorderingTally(issues, more);
  }

  lemma OneMoreLow(least: seq<Issue>, k: Key) returns (more: seq<Issue>)
    requires k in Unsettled(least) && LowGroups(least) == FirmlyLow(least)
    ensures multiset(more) == multiset(least) && |LowGroups(more)| == |FirmlyLow(least)| + 1
  {
    hide LowGroups, FirmlyLow, Rated, KeyOf, Lower, Unsettled;
    var i, j := UnsettledMembers(least, k);
    more := Fronted(least, i);
    LowRange(least);
    FrontedLow(least, i, k);
    assert k !in FirmlyLow(least);
  }

  lemma UnsettledNone(issues: seq<Issue>)
    ensures Unsettled(issues) == {} <==> forall k :: k in PenalizableKeys(issues) ==> SettledAt(issues, k)
  {
    hide PenalizableKeys, SettledAt;
    if k :| k in PenalizableKeys(issues) && !SettledAt(issues, k) {
      assert k in Unsettled(issues);
    }
  }

  lemma PenaltyLimit(t: Tally)
    ensures Penalty(t) <= 0.70
  {
  }

  lemma SaturatedSame(c: Components, requirements: nat, stories: nat, issues: seq<Issue>, other: seq<Issue>)
    requires multiset(other) == multiset(issues) && Saturated(issues)
    ensures Overall(c, requirements, stories, TallyOf(other)) ==
      Overall(c, requirements, stories, TallyOf(issues).(low := |FirmlyLow(issues)|))
  {
    hide TallyOf, Penalty, Overall, LowGroups, FirmlyLow;
    ReorderingTally(issues, other);
    LowRange(other);
    SubsetSmaller(FirmlyLow(other), LowGroups(other));
    LowHidden(c, requirements, stories, TallyOf(issues).(low := |FirmlyLow(issues)|), |LowGroups(other)|);
  }

  /** The score does not depend on the order when the groups it counts are settled. */
  lemma ScoreIgnoresOrder(c: Components, requirements: nat, stories: nat, a: seq<Issue>, b: seq<Issue>)
    requires multiset(a) == multiset(b) && Unsettled(a) == {}
    ensures TallyOf(a) == TallyOf(b)
    ensures Overall(c, requirements, stories, TallyOf(a)) == Overall(c, requirements, stories, TallyOf(b))
  {
    UnsettledNone(a);
    TallyIgnoresOrderIff(a);
  }

  // ---------- adding an issue ----------

  function Rank(o: Option<string>): nat {
    if o == Some("high") then 3 else if o == Some("medium") then 2 else if o == Some("low") then 1 else 0
  }

  lemma StandingRises(issues: seq<Issue>, last: Issue, key: Key)
    ensures Rank(Standing(issues, key)) <= Rank(Standing(issues + [last], key))
  {
    assert (issues + [last])[..|issues|] == issues;
    hide KeyOf, Lower;
  }

  lemma KeysGrow(issues: seq<Issue>, last: Issue)
    ensures KeySet(issues) <= KeySet(issues + [last])
  {
    hide KeyOf;
    forall k | k in KeySet(issues) ensures k in KeySet(issues + [last]) {
      var i :| 0 <= i < |issues| && KeyOf(issues[i]) == k;
      assert (issues + [last])[i] == issues[i];
    }
  }

  /** The groups of at least a rank. */
  ghost function AtLeast(issues: seq<Issue>, keys: set<Key>, rank: nat): set<Key> {
    set k | k in keys && RankedAt(issues, k) >= rank
  }

  ghost function RankedAt(issues: seq<Issue>, k: Key): nat {
    Rank(Standing(issues, k))
  }

  lemma RanksPartition(issues: seq<Issue>, keys: set<Key>)
    ensures |AtLeast(issues, keys, 3)| == |Ranked(issues, keys, "high")|
    ensures |AtLeast(issues, keys, 2)| == |Ranked(issues, keys, "high")| + |Ranked(issues, keys, "medium")|
    ensures |AtLeast(issues, keys, 1)| == |Ranked(issues, keys, "high")| + |Ranked(issues, keys, "medium")| + |Ranked(issues, keys, "low")|
  {
    hide Standing;
    var h, m, l := Ranked(issues, keys, "high"), Ranked(issues, keys, "medium"), Ranked(issues, keys, "low");
    assert AtLeast(issues, keys, 3) == h;
    assert AtLeast(issues, keys, 2) == h + m && h !! m;
    assert AtLeast(issues, keys, 1) == h + m + l && h + m !! l;
  }

  lemma MoreAtLeast(a: seq<Issue>, keysA: set<Key>, b: seq<Issue>, keysB: set<Key>, rank: nat)
    requires keysA <= keysB && forall k :: k in keysA ==> RankedAt(a, k) <= RankedAt(b, k)
    ensures |AtLeast(a, keysA, rank)| <= |AtLeast(b, keysB, rank)|
  {
    hide RankedAt;
    SubsetSmaller(AtLeast(a, keysA, rank), AtLeast(b, keysB, rank));
  }

  lemma {:induction false} SubsetSmaller<T>(a: set<T>, b: set<T>)
    requires a <= b
    ensures |a| <= |b|
  {
    if x :| x in a {
      SubsetSmaller(a - {x}, b - {x});
    }
  }

  lemma AppendingTally(issues: seq<Issue>, last: Issue)
    ensures NoBetter(TallyOf(issues), TallyOf(issues + [last]))
  {
    var more := issues + [last];
    hide KeySet, Standing, Penalizable, Reportable, RankedAt;
    KeysGrow(issues, last);
    forall k ensures RankedAt(issues, k) <= RankedAt(more, k) {
      RankRises(issues, last, k);
    }
    var p, q := PenalizableKeys(issues), PenalizableKeys(more);
    var r, s := ReportableKeys(issues), ReportableKeys(more);
    assert p <= q && r <= s;
    hide PenalizableKeys, ReportableKeys;
    RanksPartition(issues, p);
    RanksPartition(more, q);
    RanksPartition(issues, r);
    RanksPartition(more, s);
    MoreAtLeast(issues, p, more, q, 3);
    MoreAtLeast(issues, p, more, q, 2);
    MoreAtLeast(issues, p, more, q, 1);
    MoreAtLeast(issues, r, more, s, 3);
  }

  lemma RankRises(issues: seq<Issue>, last: Issue, k: Key)
    ensures RankedAt(issues, k) <= RankedAt(issues + [last], k)
  {
    StandingRises(issues, last, k);
  }

  /** Reporting one more issue never raises the score. */
  lemma AppendingNeverRaises(c: Components, requirements: nat, stories: nat, issues: seq<Issue>, last: Issue)
    ensures Overall(c, requirements, stories, TallyOf(issues + [last])) <= Overall(c, requirements, stories, TallyOf(issues))
  {
    AppendingTally(issues, last);
    OverallAntitone(c, requirements, stories, TallyOf(issues), TallyOf(issues + [last]));
  }

  /** Whatever the order of the result, one more issue does not raise the score when the groups it counts are settled. */
  lemma AddingNeverRaises(c: Components, requirements: nat, stories: nat, issues: seq<Issue>, extra: Issue, more: seq<Issue>)
    requires multiset(more) == multiset(issues + [extra]) && Unsettled(more) == {}
    ensures Overall(c, requirements, stories, TallyOf(more)) <= Overall(c, requirements, stories, TallyOf(issues))
  {
    AppendingNeverRaises(c, requirements, stories, issues, extra);
    ScoreIgnoresOrder(c, requirements, stories, more, issues + [extra]);
  }

  /** An unrated issue put before the first one of a low group the score counts. */
  ghost predicate Masks(issues: seq<Issue>, i: nat, extra: Issue)
    requires i <= |issues|
  {
    && !Rated(Lower(extra.severity)) && Penalizable(KeyOf(extra)) && At(issues, KeyOf(extra), "low")
    && forall m :: 0 <= m < i ==> KeyOf(issues[m]) != KeyOf(extra)
  }

  lemma InsertedHas(issues: seq<Issue>, i: nat, extra: Issue, key: Key, severity: string)
    requires i <= |issues|
    ensures Has(Inserted(issues, i, extra), key, severity) <==>
      Has(issues, key, severity) || (KeyOf(extra) == key && Lower(extra.severity) == severity)
  {
    hide KeyOf, Lower, Has;
    ReorderingHas(Inserted(issues, i, extra), issues + [extra], key, severity);
    ReorderingHas(issues + [extra], Inserted(issues, i, extra), key, severity);
    HasExtend(issues, extra, key, severity);
  }

  /** An issue put in before the first one of its group takes that place. */
  lemma InsertedOpening(issues: seq<Issue>, i: nat, extra: Issue, m: nat)
    requires i <= |issues| && Opens(issues, m, KeyOf(extra))
    ensures Opens(Inserted(issues, i, extra), if i <= m then i else m, KeyOf(extra))
    ensures Inserted(issues, i, extra)[if i <= m then i else m] == if i <= m then extra else issues[m]
    ensures i <= m <==> forall n :: 0 <= n < i ==> KeyOf(issues[n]) != KeyOf(extra)
  {
    hide KeyOf;
    var r := Inserted(issues, i, extra);
    assert r[i] == extra && forall n :: 0 <= n < i ==> r[n] == issues[n];
  }

  /** The group of a new issue keeps its rank unless the issue masks it, and then drops out of the count. */
  lemma InsertedStands(issues: seq<Issue>, i: nat, extra: Issue)
    requires i <= |issues| && Penalizable(KeyOf(extra))
    ensures Masks(issues, i, extra) ==> RankedAt(Inserted(issues, i, extra), KeyOf(extra)) == 0
    ensures !Masks(issues, i, extra) ==> RankedAt(issues, KeyOf(extra)) <= RankedAt(Inserted(issues, i, extra), KeyOf(extra))
  {
    var key, r := KeyOf(extra), Inserted(issues, i, extra);
    hide KeyOf, Lower, Has, Standing, Penalizable;
    InsertedHas(issues, i, extra, key, "high");
    InsertedHas(issues, i, extra, key, "medium");
    StandingHigh(issues, key);
    StandingHigh(r, key);
    if At(issues, key, "low") && !Has(r, key, "high") && !Has(r, key, "medium") {
      var n :| Member(issues, n, key);
      var m := OpeningExists(issues, n, key);
      OpeningStays(issues, m, key);
      InsertedOpening(issues, i, extra, m);
      OpeningStays(r, if i <= m then i else m, key);
    }
  }

  lemma InsertedRanks(issues: seq<Issue>, i: nat, extra: Issue, k: Key)
    requires i <= |issues|
    ensures KeyOf(extra) != k ==> RankedAt(Inserted(issues, i, extra), k) == RankedAt(issues, k)
    ensures Penalizable(k) && !Masks(issues, i, extra) ==> RankedAt(issues, k) <= RankedAt(Inserted(issues, i, extra), k)
    ensures At(issues, k, "high") ==> At(Inserted(issues, i, extra), k, "high")
  {
    hide KeyOf, Lower, Has, Standing, Penalizable, Inserted;
    if KeyOf(extra) != k {
      OthersStay(issues, i, extra, k);
    } else if Penalizable(k) {
      InsertedStands(issues, i, extra);
    }
    StandingHigh(issues, k);
    StandingHigh(Inserted(issues, i, extra), k);
    InsertedHas(issues, i, extra, k, "high");
  }

  lemma InsertedKeys(issues: seq<Issue>, i: nat, extra: Issue)
    requires i <= |issues|
    ensures KeySet(Inserted(issues, i, extra)) == KeySet(issues) + {KeyOf(extra)}
  {
    hide KeyOf;
    var r := Inserted(issues, i, extra);
    assert r[i] == extra && (forall n :: 0 <= n < i ==> r[n] == issues[n]) && (forall n :: i <= n < |issues| ==> r[n + 1] == issues[n]);
    forall k | k in KeySet(issues) + {KeyOf(extra)} ensures k in KeySet(r) {
      if n :| 0 <= n < |issues| && KeyOf(issues[n]) == k {
        assert KeyOf(r[if n < i then n else n + 1]) == k;
      }
    }
  }

  /** An issue put in anywhere leaves no count better, unless it masks its group, which then counts as one low defect less. */
  lemma InsertingTally(issues: seq<Issue>, i: nat, extra: Issue)
    requires i <= |issues|
    ensures NoBetter(TallyOf(issues), TallyOf(Inserted(issues, i, extra))) <==> !Masks(issues, i, extra)
    ensures Masks(issues, i, extra) ==>
      TallyOf(issues).low > 0 && TallyOf(Inserted(issues, i, extra)) == TallyOf(issues).(low := TallyOf(issues).low - 1)
  {
    if Masks(issues, i, extra) {
      MaskingTally(issues, i, extra);
    } else {
      InsertingKeeps(issues, i, extra);
    }
  }

  lemma InsertingKeeps(issues: seq<Issue>, i: nat, extra: Issue)
    requires i <= |issues| && !Masks(issues, i, extra)
    ensures NoBetter(TallyOf(issues), TallyOf(Inserted(issues, i, extra)))
  {
    var more := Inserted(issues, i, extra);
    hide KeySet, Standing, Penalizable, Reportable, RankedAt, Inserted, Masks, At;
    InsertedKeys(issues, i, extra);
    forall k
      ensures Penalizable(k) ==> RankedAt(issues, k) <= RankedAt(more, k)
      ensures At(issues, k, "high") ==> At(more, k, "high")
    {
      InsertedRanks(issues, i, extra, k);
    }
    var p, q := PenalizableKeys(issues), PenalizableKeys(more);
    var r, s := ReportableKeys(issues), ReportableKeys(more);
    assert p <= q && r <= s && forall k :: k in p ==> Penalizable(k);
    hide PenalizableKeys, ReportableKeys;
    RanksPartition(issues, p);
    RanksPartition(more, q);
    MoreAtLeast(issues, p, more, q, 3);
    MoreAtLeast(issues, p, more, q, 2);
    MoreAtLeast(issues, p, more, q, 1);
    SubsetSmaller(Ranked(issues, r, "high"), Ranked(more, s, "high"));
  }

  lemma MaskingTally(issues: seq<Issue>, i: nat, extra: Issue)
    requires i <= |issues| && Masks(issues, i, extra)
    ensures TallyOf(issues).low > 0 && TallyOf(Inserted(issues, i, extra)) == TallyOf(issues).(low := TallyOf(issues).low - 1)
  {
    var more, key := Inserted(issues, i, extra), KeyOf(extra);
    InsertedKeys(issues, i, extra);
    StandingHigh(issues, key);
    KeySetMember(issues, key);
    InsertedStands(issues, i, extra);
    RankZero(more, key);
    forall k, severity | k != key ensures At(more, k, severity) <==> At(issues, k, severity) {
      OthersStay(issues, i, extra, k);
    }
    assert At(issues, key, "low") && !At(issues, key, "high") && !At(issues, key, "medium");
    hide KeySet, Standing, Penalizable, Reportable, RankedAt, Inserted, At, KeyOf;
    assert PenalizableKeys(issues) == PenalizableKeys(more) && ReportableKeys(issues) == ReportableKeys(more);
    assert key in PenalizableKeys(issues);
    assert Ranked(issues, PenalizableKeys(issues), "high") == Ranked(more, PenalizableKeys(more), "high");
    assert Ranked(issues, PenalizableKeys(issues), "medium") == Ranked(more, PenalizableKeys(more), "medium");
    assert Ranked(issues, ReportableKeys(issues), "high") == Ranked(more, ReportableKeys(more), "high");
    assert LowGroups(more) == LowGroups(issues) - {key} && key in LowGroups(issues);
  }

  lemma RankZero(issues: seq<Issue>, k: Key)
    requires RankedAt(issues, k) == 0
    ensures !At(issues, k, "high") && !At(issues, k, "medium") && !At(issues, k, "low")
  {
  }

  /** Some components for which the score goes up. */
  ghost predicate Raises(before: seq<Issue>, after: seq<Issue>) {
    exists c, requirements: nat, stories: nat :: InRange(c)
      && Overall(c, requirements, stories, TallyOf(before)) < Overall(c, requirements, stories, TallyOf(after))
  }

  /** Adding an issue can raise the score exactly when it masks its group and the penalty is below its limit without that group. */
  lemma AddingRaisesIff(issues: seq<Issue>, i: nat, extra: Issue)
    requires i <= |issues|
    ensures Raises(issues, Inserted(issues, i, extra))
      <==> Masks(issues, i, extra) && Penalty(TallyOf(Inserted(issues, i, extra))) < 0.70
  {
    var more := Inserted(issues, i, extra);
    hide TallyOf, Masks, Inserted, Penalty, Overall, InRange;
    InsertingTally(issues, i, extra);
    PenaltyLimit(TallyOf(more));
    if Masks(issues, i, extra) && Penalty(TallyOf(more)) < 0.70 {
      LowShows(TallyOf(more));
      assert TallyOf(more).(low := TallyOf(more).low + 1) == TallyOf(issues);
    } else {
      forall c, requirements: nat, stories: nat | InRange(c)
        ensures Overall(c, requirements, stories, TallyOf(more)) <= Overall(c, requirements, stories, TallyOf(issues))
      {
        if Masks(issues, i, extra) {
          LowHidden(c, requirements, stories, TallyOf(more), TallyOf(issues).low);
          assert TallyOf(more).(low := TallyOf(issues).low) == TallyOf(issues);
        } else {
          OverallAntitone(c, requirements, stories, TallyOf(issues), TallyOf(more));
        }
      }
    }
  }

  // ---------- the computation ----------

  /** Groups the issues, each group at its standing severity. */
  method Group(issues: seq<Issue>) returns (order: seq<Key>, grouped: map<Key, string>)
    ensures order == Keys(issues)
    ensures forall k :: k in grouped <==> k in order
    ensures forall k :: k in order ==> Standing(issues, k) == Some(grouped[k])
  {
    order, grouped := [], map[];
    assert issues[..0] == [];
    for i := 0 to |issues|
      invariant order == Keys(issues[..i])
      invariant forall k :: k in grouped <==> k in order
      invariant forall k :: Standing(issues[..i], k) == if k in grouped then Some(grouped[k]) else None
    {
      hide KeyOf, Lower;
      assert issues[..i + 1][..i] == issues[..i];
      var key, severity := KeyOf(issues[i]), Lower(issues[i].severity);
      if key !in grouped {
        order := order + [key];
        grouped := grouped[key := severity];
      } else if severity == "high" || (severity == "medium" && grouped[key] != "high") {
        grouped := grouped[key := severity];
      }
    }
    assert issues[..|issues|] == issues;
  }

  ghost function Chosen(issues: seq<Issue>, keys: seq<Key>, p: Key -> bool, severity: string): set<Key> {
    set k | k in keys && p(k) && At(issues, k, severity)
  }

  lemma ChooseNext(issues: seq<Issue>, keys: seq<Key>, key: Key, p: Key -> bool, severity: string)
    requires key !in keys
    ensures |Chosen(issues, keys + [key], p, severity)| ==
      |Chosen(issues, keys, p, severity)| + if p(key) && At(issues, key, severity) then 1 else 0
  {
    hide At;
    if p(key) && At(issues, key, severity) {
      assert Chosen(issues, keys + [key], p, severity) == Chosen(issues, keys, p, severity) + {key};
    } else {
      assert Chosen(issues, keys + [key], p, severity) == Chosen(issues, keys, p, severity);
    }
  }

  predicate Degrading(k: Key) {
    Reportable(k) && k.2 == DEGRADED
  }

  ghost function Counted(issues: seq<Issue>, keys: seq<Key>): Tally {
    Tally(
      |Chosen(issues, keys, Penalizable, "high")|,
      |Chosen(issues, keys, Penalizable, "medium")|,
      |Chosen(issues, keys, Penalizable, "low")|,
      |Chosen(issues, keys, Reportable, "high")|,
      exists k :: k in keys && Degrading(k)
    )
  }

  lemma CountNext(issues: seq<Issue>, keys: seq<Key>, key: Key)
    requires key !in keys
    ensures var t, u := Counted(issues, keys), Counted(issues, keys + [key]);
      && u.high == t.high + (if Penalizable(key) && At(issues, key, "high") then 1 else 0)
      && u.medium == t.medium + (if Penalizable(key) && At(issues, key, "medium") then 1 else 0)
      && u.low == t.low + (if Penalizable(key) && At(issues, key, "low") then 1 else 0)
      && u.reported == t.reported + (if Reportable(key) && At(issues, key, "high") then 1 else 0)
      && u.degraded == (t.degraded || Degrading(key))
  {
    ChooseNext(issues, keys, key, Penalizable, "high");
    ChooseNext(issues, keys, key, Penalizable, "medium");
    ChooseNext(issues, keys, key, Penalizable, "low");
    ChooseNext(issues, keys, key, Reportable, "high");
    hide Chosen, Penalizable, Reportable, At, Degrading;
    if k :| k in keys && Degrading(k) {
      assert k in keys + [key];
    }
    assert key in keys + [key];
  }

  lemma CountedAll(issues: seq<Issue>)
    ensures Counted(issues, Keys(issues)) == TallyOf(issues)
  {
    hide Penalizable, Reportable, At, KeySet, Keys;
    KeysExact(issues);
    forall k ensures k in Keys(issues) <==> k in KeySet(issues) {
      KeySetMember(issues, k);
    }
    assert Chosen(issues, Keys(issues), Penalizable, "high") == Ranked(issues, PenalizableKeys(issues), "high");
    assert Chosen(issues, Keys(issues), Penalizable, "medium") == Ranked(issues, PenalizableKeys(issues), "medium");
    assert Chosen(issues, Keys(issues), Penalizable, "low") == Ranked(issues, PenalizableKeys(issues), "low");
    assert Chosen(issues, Keys(issues), Reportable, "high") == Ranked(issues, ReportableKeys(issues), "high");
    assert forall k :: k in Keys(issues) && Degrading(k) ==> k in ReportableKeys(issues);
    assert forall k :: k in ReportableKeys(issues) && k.2 == DEGRADED ==> k in Keys(issues) && Degrading(k);
  }

  lemma StandsAt(issues: seq<Issue>, key: Key, severity: string)
    requires Standing(issues, key) == Some(severity)
    ensures forall s :: At(issues, key, s) <==> s == severity
  {
  }

  /** Counts one more group. */
  method CountGroup(ghost issues: seq<Issue>, ghost seen: seq<Key>, key: Key, severity: string, t: Tally) returns (u: Tally)
    requires key !in seen && Standing(issues, key) == Some(severity) && t == Counted(issues, seen)
    ensures u == Counted(issues, seen + [key])
  {
    CountNext(issues, seen, key);
    StandsAt(issues, key, severity);
    hide Counted, Standing, Reportable, ComponentOwned, At;
    if !Reportable(key) {
      return t;
    }
    var high, medium, low, degraded := t.high, t.medium, t.low, t.degraded;
    if key.2 == DEGRADED {
      degraded := true;
    }
    if !ComponentOwned(key) {
      if severity == "high" {
        high := high + 1;
      } else if severity == "medium" {
        medium := medium + 1;
      } else if severity == "low" {
        low := low + 1;
      }
    }
    u := Tally(high, medium, low, if severity == "high" then t.reported + 1 else t.reported, degraded);
  }

  lemma CountedNone(issues: seq<Issue>)
    ensures Counted(issues, []) == Tally(0, 0, 0, 0, false)
  {
  }

  /** Counts the groups by severity. */
  method Count(issues: seq<Issue>) returns (t: Tally)
    ensures t == TallyOf(issues)
  {
    hide Counted, TallyOf, Standing, Keys, KeyOf;
    var order, grouped := Group(issues);
    KeysExact(issues);
    CountedNone(issues);
    t := Tally(0, 0, 0, 0, false);
    for i := 0 to |order|
      invariant t == Counted(issues, order[..i])
    {
      assert order[..i + 1] == order[..i] + [order[i]];
      t := CountGroup(issues, order[..i], order[i], grouped[order[i]], t);
    }
    assert order[..|order|] == order;
    CountedAll(issues);
  }

  method ComputeScore(c: Components, requirements: nat, stories: nat, issues: seq<Issue>) returns (overall: real, highCount: nat)
    ensures overall == Overall(c, requirements, stories, TallyOf(issues))
    ensures highCount == TallyOf(issues).reported
    ensures requirements == 0 && stories == 0 ==> overall == 0.0
  {
    var t := Count(issues);
    hide TallyOf, Weighted;
    highCount := t.reported;
    if requirements == 0 && stories == 0 {
      return 0.0, highCount;
    }
    overall := RealMax(0.0, Weighted(c) - Penalty(t));
    if t.high > 0 {
      overall := RealMin(overall, 0.59);
    } else if t.medium > 0 {
      overall := RealMin(overall, 0.79);
    }
    if t.reported > 0 {
      overall := RealMin(overall, 0.89);
    }
    if t.degraded {
      overall := RealMin(overall, 0.89);
    }
  }

  /** Unsettled issues: an unrated issue put before a low one of its group takes the low one out of the score. */
  lemma UnratedIssueRaisesScore(low: Issue, unrated: Issue)
    requires Lower(low.severity) == "low" && !Rated(Lower(unrated.severity))
    requires KeyOf(low) == KeyOf(unrated) && Penalizable(KeyOf(low)) && KeyOf(low).2 != DEGRADED
    ensures var c := Components(1.0, 1.0, 1.0, 1.0, 0.0);
      Overall(c, 1, 1, TallyOf([low])) == 0.99 && Overall(c, 1, 1, TallyOf([unrated, low])) == 1.0
  {
    var key := KeyOf(low);
    hide KeyOf, Lower, Penalizable, TallyOf, Rated, Standing, Overall;
    PairStands(low, unrated);
    StandsAt([low], key, "low");
    StandsAt([unrated, low], key, Lower(unrated.severity));
    hide At;
    OneGroup([low], key);
    OneGroup([unrated, low], key);
    assert TallyOf([low]) == Tally(0, 0, 1, 0, false);
    assert !Rated(Lower(unrated.severity)) ==>
      Lower(unrated.severity) != "high" && Lower(unrated.severity) != "medium" && Lower(unrated.severity) != "low" by {
      RatedNames();
    }
    assert TallyOf([unrated, low]) == Tally(0, 0, 0, 0, false);
    var c := Components(1.0, 1.0, 1.0, 1.0, 0.0);
    PerfectScores(c, Tally(0, 0, 1, 0, false));
    PerfectScores(c, Tally(0, 0, 0, 0, false));
  }

  lemma RatedNames()
    ensures Rated("high") && Rated("medium") && Rated("low")
  {
  }

  lemma PerfectScores(c: Components, t: Tally)
    requires c.groundedness == c.traceability == c.completeness == c.criteria == 1.0 && c.duplicateRisk == 0.0
    requires t.high == t.medium == t.reported == 0 && !t.degraded && t.low <= 1
    ensures Overall(c, 1, 1, t) == if t.low == 1 then 0.99 else 1.0
  {
  }

  lemma PairStands(low: Issue, unrated: Issue)
    requires Lower(low.severity) == "low" && !Rated(Lower(unrated.severity)) && KeyOf(low) == KeyOf(unrated)
    ensures Standing([low], KeyOf(low)) == Some("low")
    ensures Standing([unrated, low], KeyOf(low)) == Some(Lower(unrated.severity))
  {
    hide KeyOf, Lower;
    var key := KeyOf(low);
    assert [low][..0] == [] && [unrated, low][..1] == [unrated] && [unrated][..0] == [];
    assert Standing([], key) == None;
    assert Standing([unrated], key) == Some(Lower(unrated.severity));
  }

  /** Such issues exist. */
  lemma UnratedExample()
    ensures var low, unrated := Issue(1, "story", "low", "vague", ""), Issue(1, "story", "", "vague", "");
      && Lower(low.severity) == "low" && !Rated(Lower(unrated.severity))
      && KeyOf(low) == KeyOf(unrated) && Penalizable(KeyOf(low)) && KeyOf(low).2 != DEGRADED
  {
    VagueIsItsOwnFamily();
    assert Lower("low") == "low" && Lower("") == "";
    hide RootCause, Penalizable;
  }

  lemma VagueIsItsOwnFamily()
    ensures RootCause("vague") == "vague" && Penalizable(("story", 1, "vague")) && "vague" != DEGRADED
  {
    assert |Lower("vague")| == 5;
  }

  /** With a single penalizable group, the tally is that group's severity. */
  lemma OneGroup(issues: seq<Issue>, key: Key)
    requires issues != [] && Penalizable(key) && key.2 != DEGRADED && forall i :: 0 <= i < |issues| ==> KeyOf(issues[i]) == key
    ensures TallyOf(issues) == Tally(
      if At(issues, key, "high") then 1 else 0,
      if At(issues, key, "medium") then 1 else 0,
      if At(issues, key, "low") then 1 else 0,
      if At(issues, key, "high") then 1 else 0,
      false)
  {
    assert KeyOf(issues[0]) == key;
    hide KeyOf, At, Penalizable;
    assert KeySet(issues) == {key};
    assert PenalizableKeys(issues) == {key} && ReportableKeys(issues) == {key} by {
      PenalizableIsReportable(key);
    }
    forall severity ensures Ranked(issues, {key}, severity) == if At(issues, key, severity) then {key} else {} {
    }
  }

  lemma PenalizableIsReportable(key: Key)
    requires Penalizable(key)
    ensures Reportable(key)
  {
  }
}
