/**
 The pipeline graph: its nodes, its edges and the two routers, and runs over it. What a node does to
 the state is arbitrary, except that only the repair step changes the count of repair attempts.
 */
module Pipeline {
  import opened Texts
  import opened Wrappers
  import opened IssueFamilies
  import Stories
  import Coverage
  import Repair

  datatype Node =
    | DetectFileType | PrepareSources | BuildSourceIndex | Extract | DedupeRequirements | RetrieveEvidence
    | Classify | EvidenceGrounding | Generate | QualityGate | RepairStories | Summarize | Format

  datatype Config = Config(repairEnabled: bool, maxAttempts: int)

  datatype State = State(failed: bool, useful: Option<bool>, hasChunks: bool, reqs: seq<Coverage.Requirement>, work: Repair.State)

  // ---------- routing ----------

  function RouteAfterPrepareSources(s: State): Node {
    if s.failed || s.useful == Some(false) || !s.hasChunks then Format else BuildSourceIndex
  }

  predicate Mentions(stories: seq<Stories.Story>, details: string) {
    exists n :: 0 <= n < |stories| && Contains(details, stories[n].id)
  }

  /** Some repairable issue mentions a story that still exists. */
  predicate HasRepairable(w: Repair.State) {
    exists n :: 0 <= n < |w.issues| && Repair.Repairable(w.issues[n]) && Mentions(w.stories, w.issues[n].details)
  }

  function RouteAfterQualityGate(c: Config, s: State): Node {
    if !c.repairEnabled || s.work.attempts >= c.maxAttempts then Summarize
    else if HasRepairable(s.work) then RepairStories
    else Summarize
  }

  method RouteQualityGate(c: Config, s: State) returns (next: Node)
    ensures next == RouteAfterQualityGate(c, s)
  {
    hide Contains, Repair.Repairable;
    if !c.repairEnabled {
      return Summarize;
    }
    if s.work.attempts >= c.maxAttempts {
      return Summarize;
    }
    var hasRepairable := false;
    for n := 0 to |s.work.issues|
      invariant !hasRepairable
      invariant forall m :: 0 <= m < n ==> !(Repair.Repairable(s.work.issues[m]) && Mentions(s.work.stories, s.work.issues[m].details))
    {
      var issue := s.work.issues[n];
      if Repair.Repairable(issue) {
        for k := 0 to |s.work.stories|
          invariant !hasRepairable
          invariant forall m :: 0 <= m < k ==> !Contains(issue.details, s.work.stories[m].id)
        {
          if Contains(issue.details, s.work.stories[k].id) {
            hasRepairable := true;
            break;
          }
        }
        if hasRepairable {
          break;
        }
      }
    }
    next := if hasRepairable then RepairStories else Summarize;
  }

  /** The node after `n`, given the state it left; nothing follows the last one. */
  function Next(c: Config, n: Node, s: State): Option<Node> {
    match n
    case DetectFileType => Some(PrepareSources)
    case PrepareSources => Some(RouteAfterPrepareSources(s))
    case BuildSourceIndex => Some(Extract)
    case Extract => Some(DedupeRequirements)
    case DedupeRequirements => Some(RetrieveEvidence)
    case RetrieveEvidence => Some(Classify)
    case Classify => Some(EvidenceGrounding)
    case EvidenceGrounding => Some(Generate)
    case Generate => Some(QualityGate)
    case QualityGate => Some(RouteAfterQualityGate(c, s))
    case RepairStories => Some(QualityGate)
    case Summarize => Some(Format)
    case Format => None
  }

  // ---------- runs ----------

  datatype Execution = Execution(node: Node, before: State, after: State)

  /** What a node may do: the repair step follows the reply it gets, the others leave the attempts alone. */
  ghost predicate Executes(e: Execution) {
    if e.node == RepairStories then
      exists sanitize: Stories.Story -> Stories.Story, reply: Repair.Reply ::
        e.after == e.before.(work := Repair.AfterRepair(e.before.work, e.before.reqs, sanitize, reply))
    else e.after.work.attempts == e.before.work.attempts
  }

  ghost predicate IsRun(c: Config, run: seq<Execution>) {
    && run != [] && run[0].node == DetectFileType
    && (forall i :: 0 <= i < |run| ==> Executes(run[i]))
    && (forall i :: 0 <= i < |run| - 1 ==> Follows(c, run[i], run[i + 1]))
  }

  predicate Follows(c: Config, e: Execution, f: Execution) {
    f.before == e.after && Next(c, e.node, e.after) == Some(f.node)
  }

  predicate Complete(run: seq<Execution>) {
    run != [] && run[|run| - 1].node == Format
  }

  /** Repairs still allowed. */
  function Room(c: Config, attempts: int): nat {
    if attempts < c.maxAttempts then c.maxAttempts - attempts else 0
  }

  /** How many executions a run may still need, starting with this node. */
  function Left(c: Config, n: Node, attempts: int): nat {
    match n
    case DetectFileType => 12 + 2 * Room(c, attempts)
    case PrepareSources => 11 + 2 * Room(c, attempts)
    case BuildSourceIndex => 10 + 2 * Room(c, attempts)
    case Extract => 9 + 2 * Room(c, attempts)
    case DedupeRequirements => 8 + 2 * Room(c, attempts)
    case RetrieveEvidence => 7 + 2 * Room(c, attempts)
    case Classify => 6 + 2 * Room(c, attempts)
    case EvidenceGrounding => 5 + 2 * Room(c, attempts)
    case Generate => 4 + 2 * Room(c, attempts)
    case QualityGate => 3 + 2 * Room(c, attempts)
    case RepairStories => 2 + 2 * Room(c, attempts)
    case Summarize => 2
    case Format => 1
  }

  /** A repair raises the attempts, whatever becomes of it. */
  lemma RepairAttempts(e: Execution)
    requires Executes(e)
    ensures e.after.work.attempts == e.before.work.attempts + if e.node == RepairStories then 1 else 0
  {
    if e.node == RepairStories {
      var sanitize: Stories.Story -> Stories.Story, reply: Repair.Reply :|
        e.after == e.before.(work := Repair.AfterRepair(e.before.work, e.before.reqs, sanitize, reply));
      Repair.RepairCounts(e.before.work, e.before.reqs, sanitize, reply);
      hide Repair.AfterRepair;
    }
  }

  /** A repair is only started while attempts remain. */
  ghost predicate Allowed(c: Config, e: Execution) {
    e.node == RepairStories ==> e.before.work.attempts < c.maxAttempts
  }

  lemma StepDecreases(c: Config, e: Execution, f: Execution)
    requires Executes(e) && Follows(c, e, f) && Allowed(c, e)
    ensures Allowed(c, f)
    ensures 1 + Left(c, f.node, f.before.work.attempts) <= Left(c, e.node, e.before.work.attempts)
  {
    RepairAttempts(e);
    hide Executes, HasRepairable;
  }

  lemma {:induction false} RunBounded(c: Config, run: seq<Execution>, n: nat)
    requires IsRun(c, run) && n < |run|
    ensures n + Left(c, run[n].node, run[n].before.work.attempts) <= 12 + 2 * Room(c, run[0].before.work.attempts)
    ensures Allowed(c, run[n])
  {
    if n > 0 {
      RunBounded(c, run, n - 1);
      assert Follows(c, run[n - 1], run[n - 1 + 1]);
      assert Executes(run[n - 1]);
      StepDecreases(c, run[n - 1], run[n]);
    }
  }

  function Count(run: seq<Execution>, n: Node): nat {
    if run == [] then 0 else Count(run[..|run| - 1], n) + if run[|run| - 1].node == n then 1 else 0
  }

  /** Nothing follows formatting. */
  lemma {:induction false} FormatIsLast(c: Config, run: seq<Execution>)
    requires IsRun(c, run)
    ensures forall i :: 0 <= i < |run| - 1 ==> run[i].node != Format
    ensures Count(run, Format) == if Complete(run) then 1 else 0
  {
    hide Executes;
    if |run| > 1 {
      var front := run[..|run| - 1];
      assert forall i :: 0 <= i < |front| - 1 ==> Follows(c, front[i], front[i + 1]) by {
        assert forall i :: 0 <= i < |front| - 1 ==> Follows(c, run[i], run[i + 1]);
      }
      FormatIsLast(c, front);
      assert Follows(c, run[|run| - 2], run[|run| - 2 + 1]);
    } else {
      assert run[..0] == [];
    }
  }

  /**
   Every run is short: a run that starts without repair attempts executes at most twelve nodes and two
   more for each repair allowed. While it has not formatted, exactly one node comes next; once it has,
   it is over, having formatted exactly once.
   */
  lemma EveryRunFormats(c: Config, run: seq<Execution>)
    requires IsRun(c, run) && run[0].before.work.attempts == 0
    ensures run != [] && |run| <= 12 + 2 * (if c.maxAttempts < 0 then 0 else c.maxAttempts)
    ensures Next(c, run[|run| - 1].node, run[|run| - 1].after).None? <==> Complete(run)
    ensures Complete(run) ==> Count(run, Format) == 1
  {
    hide Executes, Count, HasRepairable, Left, Follows;
    var last := run[|run| - 1];
    RunBounded(c, run, |run| - 1);
    FormatIsLast(c, run);
    LeftPositive(c, last.node, last.before.work.attempts);
    NextMissing(c, last.node, last.after);
    hide Next;
  }

  lemma LeftPositive(c: Config, n: Node, attempts: int)
    ensures Left(c, n, attempts) >= 1
  {
  }

  lemma NextMissing(c: Config, n: Node, s: State)
    ensures Next(c, n, s).None? <==> n == Format
  {
    hide HasRepairable;
  }

  lemma CountAppend(run: seq<Execution>, e: Execution, n: Node)
    ensures Count(run + [e], n) == Count(run, n) + if e.node == n then 1 else 0
  {
    assert (run + [e])[..|run|] == run;
  }

  /** How far a run is once it has reached a node, apart from repairs. */
  function Depth(n: Node): nat {
    match n
    case DetectFileType => 1
    case PrepareSources => 2
    case BuildSourceIndex => 3
    case Extract => 4
    case DedupeRequirements => 5
    case RetrieveEvidence => 6
    case Classify => 7
    case EvidenceGrounding => 8
    case Generate => 9
    case QualityGate => 10
    case RepairStories => 9
    case Summarize => 11
    case Format => 12
  }

  /** The length a run has when it ends at a node, given its repairs. */
  predicate IsLength(n: Node, repairs: nat, length: nat) {
    || (length == Depth(n) + 2 * repairs && (n == PrepareSources || n == DetectFileType ==> repairs == 0))
    || (n == Format && length == 3 && repairs == 0)
  }

  lemma LengthStep(c: Config, e: Execution, f: Execution, repairs: nat, length: nat)
    requires Follows(c, e, f) && IsLength(e.node, repairs, length)
    ensures IsLength(f.node, repairs + if f.node == RepairStories then 1 else 0, length + 1)
  {
    hide HasRepairable;
  }

  lemma {:induction false} RunLength(c: Config, run: seq<Execution>)
    requires IsRun(c, run)
    ensures run[|run| - 1].after.work.attempts == run[0].before.work.attempts + Count(run, RepairStories)
    ensures IsLength(run[|run| - 1].node, Count(run, RepairStories), |run|)
  {
    hide Executes, Next, IsLength;
    RepairAttempts(run[|run| - 1]);
    if |run| > 1 {
      var front, last := run[..|run| - 1], run[|run| - 1];
      assert run == front + [last];
      assert forall i :: 0 <= i < |front| - 1 ==> Follows(c, front[i], front[i + 1]) by {
        assert forall i :: 0 <= i < |front| - 1 ==> Follows(c, run[i], run[i + 1]);
      }
      RunLength(c, front);
      CountAppend(front, last, RepairStories);
      assert Follows(c, run[|run| - 2], run[|run| - 2 + 1]);
      LengthStep(c, front[|front| - 1], last, Count(front, RepairStories), |front|);
    } else {
      assert run[..0] == [];
      StartLength();
    }
  }

  lemma StartLength()
    ensures IsLength(DetectFileType, 0, 1)
  {
  }

  /** A complete run executes three nodes when the sources are unusable, and twelve with two more for each repair otherwise. */
  lemma CompleteRunLength(c: Config, run: seq<Execution>)
    requires IsRun(c, run) && Complete(run)
    ensures run != [] && (|run| == 3 || |run| == 12 + 2 * Count(run, RepairStories))
    ensures Count(run, RepairStories) == run[|run| - 1].after.work.attempts - run[0].before.work.attempts
  {
    hide IsRun, Count;
    RunLength(c, run);
  }

  // ---------- why runs go where they go ----------

  lemma {:induction false} PrefixIsRun(c: Config, run: seq<Execution>, n: nat)
    requires IsRun(c, run) && 0 < n <= |run|
    ensures IsRun(c, run[..n])
  {
    hide Executes, Follows;
    var front := run[..n];
    forall i | 0 <= i < n - 1 ensures Follows(c, front[i], front[i + 1]) {
      assert Follows(c, run[i], run[i + 1]);
    }
  }

  lemma RunStarts(c: Config, run: seq<Execution>)
    requires IsRun(c, run) && Complete(run)
    ensures |run| >= 3 && run[1].node == PrepareSources
    ensures |run| == 3 <==> run[2].node == Format
    ensures Next(c, PrepareSources, run[1].after) == Some(run[2].node)
  {
    hide Executes, HasRepairable, RouteAfterPrepareSources;
    assert |run| > 1 ==> Follows(c, run[0], run[0 + 1]);
    assert |run| > 2 ==> Follows(c, run[1], run[1 + 1]);
    assert |run| > 3 ==> Follows(c, run[2], run[2 + 1]);
  }

  /** A run is cut short exactly when preparing the sources failed, found them useless, or left no chunk. */
  lemma ShortRunIff(c: Config, run: seq<Execution>)
    requires IsRun(c, run) && Complete(run)
    ensures |run| >= 3 && run[1].node == PrepareSources
    ensures |run| == 3 <==> run[1].after.failed || run[1].after.useful == Some(false) || !run[1].after.hasChunks
  {
    RunStarts(c, run);
    hide IsRun;
  }

  /** Some issue a repair can treat names a story there still is. */
  ghost predicate SomethingToRepair(w: Repair.State) {
    exists n, k :: 0 <= n < |w.issues| && 0 <= k < |w.stories| && w.issues[n].itemType == "story"
      && w.issues[n].rule in Repair.REPAIRABLE && Contains(w.issues[n].details, w.stories[k].id)
  }

  lemma RepairableIff(w: Repair.State)
    ensures HasRepairable(w) <==> SomethingToRepair(w)
  {
    hide Contains;
    if n :| 0 <= n < |w.issues| && Repair.Repairable(w.issues[n]) && Mentions(w.stories, w.issues[n].details) {
      var k :| 0 <= k < |w.stories| && Contains(w.issues[n].details, w.stories[k].id);
      assert SomethingToRepair(w);
    }
    if SomethingToRepair(w) {
      var n, k :| 0 <= n < |w.issues| && 0 <= k < |w.stories| && w.issues[n].itemType == "story"
        && w.issues[n].rule in Repair.REPAIRABLE && Contains(w.issues[n].details, w.stories[k].id);
      assert Mentions(w.stories, w.issues[n].details) && Repair.Repairable(w.issues[n]);
    }
  }

  /**
   Each quality gate of a run is followed by a repair exactly when repair is enabled, fewer repairs than
   allowed have been made, and there is something to repair; otherwise the run goes on to its summary.
   */
  lemma RepairsIff(c: Config, run: seq<Execution>, i: nat)
    requires IsRun(c, run) && run[0].before.work.attempts == 0 && i + 1 < |run| && run[i].node == QualityGate
    ensures run[i + 1].node == RepairStories <==>
      c.repairEnabled && Count(run[..i + 1], RepairStories) < c.maxAttempts && SomethingToRepair(run[i].after.work)
    ensures run[i + 1].node == RepairStories || run[i + 1].node == Summarize
  {
    PrefixIsRun(c, run, i + 1);
    RunLength(c, run[..i + 1]);
    RepairableIff(run[i].after.work);
    assert Follows(c, run[i], run[i + 1]);
    hide IsRun, Count, HasRepairable, SomethingToRepair, IsLength;
  }

  /** Where every story has an id, the router asks for a repair of just what the repair step finds to do. */
  lemma RouterAgrees(w: Repair.State)
    requires forall k :: 0 <= k < |w.stories| ==> w.stories[k].id != ""
    ensures Repair.Failing(w.stories, w.issues) <==> SomethingToRepair(w)
  {
    RepairableIff(w);
    hide Contains, SomethingToRepair, Repair.Mentioned, Repair.Repairable;
    forall n | 0 <= n < |w.issues|
      ensures Repair.Actionable(w.stories, w.issues[n]) <==> Repair.Repairable(w.issues[n]) && Mentions(w.stories, w.issues[n].details)
    {
      Repair.MentionedFirst(w.stories, w.issues[n].details);
    }
  }
}
