/**
 Any number of submit, retry and cancel clients and workers acting on one job id. Each store
 operation is one atomic step; between two steps of a client any other client may act.
 */
module JobProtocol {
  import opened Wrappers
  import opened JobStore
  import opened JobRequests

  /** Where a client stands. A snapshot it carries may be stale by the time it is used. */
  datatype Client =
    | Submit(request: Request)                          // about to create or get
    | SubmitRetry(request: Request)                     // passed the checks; about to requeue
    | SubmitLost(request: Request)                      // lost the race; about to read the row
    | SubmitMark(request: Request, http: nat)           // about to count a duplicate and answer
    | SubmitDispatch(request: Request, attempt: nat)    // owns a new attempt; about to dispatch it
    | SubmitRefail(request: Request, attempt: nat)      // dispatch marked FAILED; the handler will again
    | Retry                                             // about to read the row
    | RetryRequeue(snapshot: Job)                       // found it retryable; about to requeue
    | RetryLost                                         // lost the race; about to answer
    | RetryDispatch(attempt: nat)                       // owns a new attempt; about to dispatch it
    | Cancel                                            // about to read the row
    | CancelFlag(wasQueued: bool)                       // about to set the cancel flag
    | CancelWrite                                       // read QUEUED earlier; about to write CANCELLED
    | Worker(attempt: nat)                              // a dispatched attempt, queued or running
    | SubmitDone(request: Request, won: bool)           // completed submission
    | Gone                                              // any other client that has finished

  /** A granted attempt: from which status (none when the row was absent), and under what payload. */
  datatype Grant = Grant(from: Option<JobStatus>, attempt: nat, identity: Identity, client: nat)

  datatype State = State(row: Option<Job>, clients: seq<Client>, grants: seq<Grant>)

  datatype DispatchResult = Enqueued | ManifestFailed | QueueFailed

  datatype Action =
    | Arrive(client: Client)
    | Act(k: nat)
    | Dispatch(k: nat, result: DispatchResult)
    | WorkerWrites(k: nat, status: JobStatus, node: string)

  predicate Arriving(c: Client) {
    c.Submit? || c.Retry? || c.Cancel?
  }

  predicate Enabled(s: State, a: Action) {
    match a
    case Arrive(c) => Arriving(c)
    case Act(k) => k < |s.clients| && var c := s.clients[k];
      !c.SubmitDispatch? && !c.RetryDispatch? && !c.Worker? && !c.SubmitDone? && !c.Gone?
    case Dispatch(k, _) => k < |s.clients| && (s.clients[k].SubmitDispatch? || s.clients[k].RetryDispatch?)
    case WorkerWrites(k, status, _) => k < |s.clients| && s.clients[k].Worker? && status != Queued
  }

  function Moved(s: State, k: nat, c: Client): State
    requires k < |s.clients|
  {
    s.(clients := s.clients[k := c])
  }

  /** Writes a status if the row exists. */
  function Write(s: State, status: JobStatus, node: string): State {
    if s.row.None? then s else s.(row := Some(WithStatus(s.row.value, status, node, None, None)))
  }

  function Granted(s: State, k: nat, from: Option<JobStatus>, job: Job, c: Client): State
    requires k < |s.clients|
  {
    Moved(s, k, c).(row := Some(job), grants := s.grants + [Grant(from, job.attempt, IdentityOf(job), k)])
  }

  /** One atomic step of client `k`. */
  function ActOf(s: State, k: nat): State
    requires k < |s.clients|
  {
    match s.clients[k]
    case Submit(r) =>
      if s.row.None? then Granted(s, k, None, NewJob(r), SubmitDispatch(r, 1))
      else (match Judge(s.row.value, r)
            case Refuse(http) => Moved(s, k, SubmitMark(r, http))
            case Report(http) => Moved(s, k, SubmitMark(r, http))
            case AttemptRetry => Moved(s, k, SubmitRetry(r)))
    case SubmitRetry(r) =>
      if s.row.Some? && CanRequeue(s.row.value, r.fingerprint) then
        var job := Requeued(s.row.value, r.options, r.options.callbackUrl);
        Granted(s, k, Some(s.row.value.status), job, SubmitDispatch(r, job.attempt))
      else Moved(s, k, SubmitLost(r))
    case SubmitLost(r) => Moved(s, k, SubmitMark(r, 202))
    case SubmitMark(r, _) =>
      Moved(s, k, SubmitDone(r, false)).(row := if s.row.Some? then Some(MarkedDuplicate(s.row.value)) else None)
    case SubmitRefail(r, _) => Moved(Write(s, Failed, "failed"), k, SubmitDone(r, true))
    case Retry =>
      if s.row.None? || !IsRetryable(s.row.value.status) then Moved(s, k, Gone) else Moved(s, k, RetryRequeue(s.row.value))
    case RetryRequeue(snapshot) =>
      if s.row.Some? && CanRequeue(s.row.value, snapshot.fingerprint) then
        var job := Requeued(s.row.value, snapshot.options, snapshot.callbackUrl);
        Granted(s, k, Some(s.row.value.status), job, RetryDispatch(job.attempt))
      else Moved(s, k, RetryLost)
    case RetryLost => Moved(s, k, Gone)
    case Cancel =>
      if s.row.None? || IsTerminal(s.row.value.status) then Moved(s, k, Gone)
      else Moved(s, k, CancelFlag(s.row.value.status == Queued))
    case CancelFlag(wasQueued) =>
      Moved(s, k, if wasQueued then CancelWrite else Gone)
        .(row := if s.row.Some? then Some(s.row.value.(cancelRequested := true)) else None)
    case CancelWrite => Moved(Write(s, Cancelled, "cancelled"), k, Gone)
    case _ => s
  }

  /** Dispatching an attempt: it reaches a worker, or its failure is recorded once or, for a submission, twice. */
  function DispatchOf(s: State, k: nat, result: DispatchResult): State
    requires k < |s.clients| && (s.clients[k].SubmitDispatch? || s.clients[k].RetryDispatch?)
  {
    var c := s.clients[k];
    var attempt := c.attempt;
    var finished := if c.SubmitDispatch? then SubmitDone(c.request, true) else Gone;
    match result
    case Enqueued => var t := Moved(s, k, finished); t.(clients := t.clients + [Worker(attempt)])
    case ManifestFailed => Moved(Write(s, Failed, "failed"), k, finished)
    case QueueFailed => Moved(Write(s, Failed, "failed"), k, if c.SubmitDispatch? then SubmitRefail(c.request, attempt) else finished)
  }

  function Step(s: State, a: Action): State
    requires Enabled(s, a)
  {
    match a
    case Arrive(c) => s.(clients := s.clients + [c])
    case Act(k) => ActOf(s, k)
    case Dispatch(k, result) => DispatchOf(s, k, result)
    case WorkerWrites(k, status, node) =>
      Moved(Write(s, status, node), k, if status == Processing then s.clients[k] else Gone)
  }

  const START := State(None, [], [])

  /** The state after a sequence of actions from the empty store, if each was enabled in its turn. */
  function Run(actions: seq<Action>): Option<State> {
    if actions == [] then Some(START)
    else
      var before, a := Run(actions[..|actions| - 1]), actions[|actions| - 1];
      if before.Some? && Enabled(before.value, a) then Some(Step(before.value, a)) else None
  }

  // ---------- grants and identity ----------

  /** Attempts are granted one by one, each from an absent or retryable row, all for the stored payload. */
  ghost predicate GrantsSound(s: State) {
    && (s.row.None? <==> s.grants == [])
    && (s.row.Some? ==> s.row.value.attempt == |s.grants|)
    && (forall g :: 0 <= g < |s.grants| ==>
        && s.grants[g].attempt == g + 1
        && s.grants[g].identity == IdentityOf(s.row.value)
        && (if g == 0 then s.grants[g].from.None? else s.grants[g].from.Some? && IsRetryable(s.grants[g].from.value)))
  }

  /** The attempt a client is in charge of and has not handed on or given up. */
  function Charge(c: Client): Option<nat> {
    match c
    case SubmitDispatch(_, attempt) => Some(attempt)
    case RetryDispatch(attempt) => Some(attempt)
    case Worker(attempt) => Some(attempt)
    case _ => None
  }

  /** Every attempt in someone's charge is among the `n` granted ones, and in one client's charge only. */
  ghost predicate ChargesIn(cs: seq<Client>, n: nat) {
    && (forall k :: 0 <= k < |cs| && Charge(cs[k]).Some? ==> 1 <= Charge(cs[k]).value <= n)
    && (forall k, m :: 0 <= k < m < |cs| && Charge(cs[k]).Some? ==> Charge(cs[k]) != Charge(cs[m]))
  }

  /** A submission past the checks carries the stored payload. */
  predicate CarriesPayload(c: Client) {
    c.SubmitRetry? || c.SubmitDispatch? || c.SubmitRefail? || (c.SubmitDone? && c.won)
  }

  predicate PayloadOk(c: Client, row: Option<Job>) {
    && (CarriesPayload(c) ==> row.Some? && RequestIdentity(c.request) == IdentityOf(row.value))
    && (c.SubmitMark? || c.SubmitLost? || c.CancelFlag? || c.CancelWrite? ==> row.Some?)
  }

  ghost predicate PayloadsSound(s: State) {
    forall k :: 0 <= k < |s.clients| ==> PayloadOk(s.clients[k], s.row)
  }

  function CountWon(cs: seq<Client>): nat {
    if cs == [] then 0 else CountWon(cs[..|cs| - 1]) + Won(cs[|cs| - 1])
  }

  function CountMarked(cs: seq<Client>): nat {
    if cs == [] then 0 else CountMarked(cs[..|cs| - 1]) + Marked(cs[|cs| - 1])
  }

  function Won(c: Client): nat {
    if c.SubmitDone? && c.won then 1 else 0
  }

  function Marked(c: Client): nat {
    if c.SubmitDone? && !c.won then 1 else 0
  }

  function CountDone(cs: seq<Client>): nat {
    if cs == [] then 0 else CountDone(cs[..|cs| - 1]) + (if cs[|cs| - 1].SubmitDone? then 1 else 0)
  }

  /** The stored duplicate counter is the number of submissions answered without dispatching. */
  ghost predicate DuplicatesCounted(s: State) {
    CountMarked(s.clients) == if s.row.Some? then s.row.value.duplicates else 0
  }

  ghost predicate Inv(s: State) {
    GrantsSound(s) && ChargesIn(s.clients, |s.grants|) && PayloadsSound(s) && DuplicatesCounted(s)
  }

  // ---------- every step keeps the invariant ----------

  lemma StepKeepsGrants(s: State, a: Action)
    requires Enabled(s, a) && GrantsSound(s) && PayloadsSound(s)
    ensures GrantsSound(Step(s, a))
  {
    hide CountWon, CountMarked, CountDone, Judge;
  }

  lemma SetCharge(cs: seq<Client>, n: nat, k: nat, c: Client, n': nat)
    requires ChargesIn(cs, n) && k < |cs| && n <= n'
    requires Charge(c).None? || Charge(c) == Charge(cs[k]) || (n < n' && Charge(c) == Some(n'))
    ensures ChargesIn(cs[k := c], n')
  {
    hide Charge;
  }

  lemma AddCharge(cs: seq<Client>, n: nat, c: Client)
    requires ChargesIn(cs, n)
    requires Charge(c).None? || (1 <= Charge(c).value <= n && forall k :: 0 <= k < |cs| ==> Charge(cs[k]) != Charge(c))
    ensures ChargesIn(cs + [c], n)
  {
    hide Charge;
  }

  lemma ActKeepsCharges(s: State, k: nat)
    requires Enabled(s, Act(k)) && GrantsSound(s) && ChargesIn(s.clients, |s.grants|)
    ensures ChargesIn(ActOf(s, k).clients, |ActOf(s, k).grants|)
  {
    hide ChargesIn, Judge;
    var s' := ActOf(s, k);
    var c := s'.clients[k];
    assert s'.clients == s.clients[k := c];
    SetCharge(s.clients, |s.grants|, k, c, |s'.grants|);
  }

  lemma DispatchKeepsCharges(s: State, k: nat, result: DispatchResult)
    requires Enabled(s, Dispatch(k, result)) && ChargesIn(s.clients, |s.grants|)
    ensures ChargesIn(DispatchOf(s, k, result).clients, |s.grants|)
  {
    var s' := DispatchOf(s, k, result);
    var n, moved := |s.grants|, s.clients[k := s'.clients[k]];
    SetCharge(s.clients, n, k, s'.clients[k], n);
    if result == Enqueued {
      var worker := Worker(s.clients[k].attempt);
      forall m | 0 <= m < |moved| ensures Charge(moved[m]) != Charge(worker) {
        assert m != k ==> moved[m] == s.clients[m];
      }
      AddCharge(moved, n, worker);
    }
  }

  lemma StepKeepsCharges(s: State, a: Action)
    requires Enabled(s, a) && GrantsSound(s) && ChargesIn(s.clients, |s.grants|)
    ensures ChargesIn(Step(s, a).clients, |Step(s, a).grants|)
  {
    hide ChargesIn, GrantsSound, ActOf, DispatchOf;
    match a
    case Arrive(c) => AddCharge(s.clients, |s.grants|, c);
    case Act(k) => ActKeepsCharges(s, k);
    case Dispatch(k, result) =>
      DispatchKeepsCharges(s, k, result);
      DispatchKeepsGrantList(s, k, result);
    case WorkerWrites(k, _, _) => SetCharge(s.clients, |s.grants|, k, Step(s, a).clients[k], |s.grants|);
  }

  lemma DispatchKeepsGrantList(s: State, k: nat, result: DispatchResult)
    requires Enabled(s, Dispatch(k, result))
    ensures DispatchOf(s, k, result).grants == s.grants
  {
  }

  /** The row never disappears and never changes the payload it stands for. */
  lemma StepKeepsIdentity(s: State, a: Action)
    requires Enabled(s, a)
    ensures s.row.Some? ==> Step(s, a).row.Some? && IdentityOf(Step(s, a).row.value) == IdentityOf(s.row.value)
    ensures s.row.Some? ==> s.row.value.attempt <= Step(s, a).row.value.attempt && s.row.value.duplicates <= Step(s, a).row.value.duplicates
  {
    hide Judge;
  }

  lemma ActKeepsPayload(s: State, k: nat)
    requires Enabled(s, Act(k)) && PayloadOk(s.clients[k], s.row)
    ensures PayloadOk(ActOf(s, k).clients[k], ActOf(s, k).row)
    ensures forall m :: 0 <= m < |s.clients| && m != k ==> ActOf(s, k).clients[m] == s.clients[m]
    ensures |ActOf(s, k).clients| == |s.clients|
  {
    hide Judge;
    if s.clients[k].Submit? && s.row.Some? {
      AttemptRetryIff(s.row.value, s.clients[k].request);
    }
  }

  lemma PayloadStays(c: Client, s: State, a: Action)
    requires Enabled(s, a) && PayloadOk(c, s.row)
    ensures PayloadOk(c, Step(s, a).row)
  {
    hide Step;
    StepKeepsIdentity(s, a);
  }

  lemma StepKeepsPayloads(s: State, a: Action)
    requires Enabled(s, a) && PayloadsSound(s)
    ensures PayloadsSound(Step(s, a))
  {
    var s' := Step(s, a);
    if a.Act? {
      ActKeepsPayload(s, a.k);
    }
    hide ActOf;
    forall m | 0 <= m < |s'.clients| ensures PayloadOk(s'.clients[m], s'.row) {
      if m < |s.clients| {
        PayloadStays(s.clients[m], s, a);
      }
    }
  }

  // ---------- counting submissions ----------

  lemma {:induction false} CountSet(cs: seq<Client>, k: nat, c: Client)
    requires k < |cs|
    ensures CountWon(cs[k := c]) == CountWon(cs) - Won(cs[k]) + Won(c)
    ensures CountMarked(cs[k := c]) == CountMarked(cs) - Marked(cs[k]) + Marked(c)
  {
    var front := cs[..|cs| - 1];
    if k < |cs| - 1 {
      CountSet(front, k, c);
      assert cs[k := c][..|cs| - 1] == front[k := c];
    } else {
      assert cs[k := c][..|cs| - 1] == front;
    }
  }

  lemma CountAdd(cs: seq<Client>, c: Client)
    ensures CountWon(cs + [c]) == CountWon(cs) + Won(c)
    ensures CountMarked(cs + [c]) == CountMarked(cs) + Marked(c)
  {
    assert (cs + [c])[..|cs|] == cs;
  }

  lemma {:induction false} DoneIsWonOrMarked(cs: seq<Client>)
    ensures CountDone(cs) == CountWon(cs) + CountMarked(cs)
  {
    if cs != [] {
      DoneIsWonOrMarked(cs[..|cs| - 1]);
    }
  }

  lemma ActKeepsCount(s: State, k: nat)
    requires Enabled(s, Act(k)) && PayloadOk(s.clients[k], s.row) && GrantsSound(s) && DuplicatesCounted(s)
    ensures DuplicatesCounted(ActOf(s, k))
  {
    hide Judge, CountMarked, CountWon;
    var s' := ActOf(s, k);
    CountSet(s.clients, k, s'.clients[k]);
    assert s'.clients == s.clients[k := s'.clients[k]];
  }

  lemma DispatchKeepsCount(s: State, k: nat, result: DispatchResult)
    requires Enabled(s, Dispatch(k, result)) && DuplicatesCounted(s)
    ensures DuplicatesCounted(DispatchOf(s, k, result))
  {
    hide CountMarked, CountWon;
    var c := DispatchOf(s, k, result).clients[k];
    CountSet(s.clients, k, c);
    CountAdd(s.clients[k := c], Worker(s.clients[k].attempt));
  }

  lemma StepKeepsCount(s: State, a: Action)
    requires Enabled(s, a) && PayloadsSound(s) && GrantsSound(s) && DuplicatesCounted(s)
    ensures DuplicatesCounted(Step(s, a))
  {
    hide ActOf, DispatchOf, GrantsSound, CountMarked, CountWon;
    match a
    case Arrive(c) => CountAdd(s.clients, c);
    case Act(k) => ActKeepsCount(s, k);
    case Dispatch(k, result) => DispatchKeepsCount(s, k, result);
    case WorkerWrites(k, _, _) => CountSet(s.clients, k, Step(s, a).clients[k]);
  }

  // ---------- every run ----------

  lemma StepKeepsInv(s: State, a: Action)
    requires Enabled(s, a) && Inv(s)
    ensures Inv(Step(s, a))
  {
    hide Step, GrantsSound, ChargesIn, PayloadsSound, DuplicatesCounted;
    StepKeepsGrants(s, a);
    StepKeepsCharges(s, a);
    StepKeepsPayloads(s, a);
    StepKeepsCount(s, a);
  }

  /** The invariant holds after every run, whatever the interleaving. */
  lemma {:induction false} RunKeepsInv(actions: seq<Action>)
    ensures Run(actions).Some? ==> Inv(Run(actions).value)
  {
    if actions != [] {
      var front := actions[..|actions| - 1];
      RunKeepsInv(front);
      if Run(actions).Some? {
        StepKeepsInv(Run(front).value, actions[|actions| - 1]);
      }
      hide Inv, Step;
    }
  }

  /** Completed submissions are the dispatching ones plus the counted duplicates. */
  lemma CompletedSubmissionsBalance(actions: seq<Action>)
    ensures Run(actions).Some? ==> var s := Run(actions).value;
      CountDone(s.clients) == CountWon(s.clients) + (if s.row.Some? then s.row.value.duplicates else 0)
  {
    RunKeepsInv(actions);
    if Run(actions).Some? {
      DoneIsWonOrMarked(Run(actions).value.clients);
    }
  }

  /**
   Attempts are granted one at a time, only in an atomic move of the row from absent, FAILED or
   CANCELLED to QUEUED, and nothing else ever makes the row QUEUED.
   */
  lemma GrantsAreAtomicRequeues(s: State, a: Action)
    requires Enabled(s, a)
    ensures var s' := Step(s, a);
      if s'.row.Some? && s'.row.value.status == Queued && (s.row.None? || s.row.value.status != Queued) then
        && |s'.grants| == |s.grants| + 1 && s.grants <= s'.grants
        && (s.row.None? || IsRetryable(s.row.value.status))
        && s'.grants[|s.grants|].from == (if s.row.None? then None else Some(s.row.value.status))
        && a.Act? && Charge(s'.clients[a.k]) == Some(s'.row.value.attempt)
        && (s.row.None? ==> s.clients[a.k].Submit? && IdentityOf(s'.row.value) == RequestIdentity(s.clients[a.k].request))
      else s'.grants == s.grants
  {
    hide Judge, CountMarked, CountWon;
  }

  /** The fingerprint under which a client asks for a new attempt of a job there is. */
  function AsksFor(c: Client): Option<string> {
    match c
    case SubmitRetry(r) => Some(r.fingerprint)
    case RetryRequeue(snapshot) => Some(snapshot.fingerprint)
    case _ => None
  }

  /** An attempt is granted exactly to a first submission, and to a client asking under the stored fingerprint for a failed or cancelled job. */
  lemma GrantedIff(s: State, a: Action)
    requires Enabled(s, a)
    ensures |Step(s, a).grants| > |s.grants| <==>
      && a.Act?
      && var c := s.clients[a.k];
         || (c.Submit? && s.row.None?)
         || (s.row.Some? && AsksFor(c) == Some(s.row.value.fingerprint) && (s.row.value.status == Failed || s.row.value.status == Cancelled))
  {
    hide Judge;
  }

  /** A cancel client flags a job it read as active, and goes on to write CANCELLED exactly if it read QUEUED. */
  lemma CancelsGoOn(s: State, a: Action, k: nat)
    requires Enabled(s, a) && k < |s.clients|
    requires var c := s.clients[k]; c.Cancel? || c.CancelFlag? || c.CancelWrite?
    ensures k < |Step(s, a).clients|
    ensures var c, c' := s.clients[k], Step(s, a).clients[k];
      if a != Act(k) then c' == c
      else if c.Cancel? && s.row.Some? && s.row.value.status == Queued then c' == CancelFlag(true)
      else if c.Cancel? && s.row.Some? && s.row.value.status == Processing then c' == CancelFlag(false)
      else if c == CancelFlag(true) then c' == CancelWrite
      else c' == Gone
  {
    hide Judge;
    OthersWait(s, a, k);
    if a == Act(k) {
      ActCancels(s, k);
    }
    hide Step;
  }

  lemma ActCancels(s: State, k: nat)
    requires Enabled(s, Act(k)) && (s.clients[k].Cancel? || s.clients[k].CancelFlag? || s.clients[k].CancelWrite?)
    ensures var c, c' := s.clients[k], Step(s, Act(k)).clients[k];
      if c.Cancel? && s.row.Some? && s.row.value.status == Queued then c' == CancelFlag(true)
      else if c.Cancel? && s.row.Some? && s.row.value.status == Processing then c' == CancelFlag(false)
      else if c == CancelFlag(true) then c' == CancelWrite
      else c' == Gone
  {
    hide Judge;
  }

  lemma OthersWait(s: State, a: Action, k: nat)
    requires Enabled(s, a) && k < |s.clients| && (s.clients[k].Cancel? || s.clients[k].CancelFlag? || s.clients[k].CancelWrite?)
    ensures k < |Step(s, a).clients| && (a != Act(k) ==> Step(s, a).clients[k] == s.clients[k])
  {
    hide Judge;
  }

  /** Whoever changes the status, other than a worker, sets the step that belongs to it. */
  lemma StepsMatchStatus(s: State, a: Action)
    requires Enabled(s, a) && !a.WorkerWrites?
    ensures var s' := Step(s, a);
      s'.row.Some? && (s.row.None? || s.row.value.status != s'.row.value.status) ==> var job := s'.row.value;
        || (job.status == Queued && job.node == "queued")
        || (job.status == Failed && job.node == "failed")
        || (job.status == Cancelled && job.node == "cancelled")
  {
    hide Judge;
  }

  /** A worker goes on with its attempt until it writes any status but PROCESSING; nobody else stops it. */
  lemma WorkersGoOn(s: State, a: Action, k: nat)
    requires Enabled(s, a) && k < |s.clients| && s.clients[k].Worker?
    ensures k < |Step(s, a).clients|
    ensures Step(s, a).clients[k] == if a.WorkerWrites? && a.k == k && a.status != Processing then Gone else s.clients[k]
  {
    hide Judge;
  }

  predicate Submission(c: Client) {
    c.Submit? || c.SubmitRetry? || c.SubmitLost? || c.SubmitMark? || c.SubmitDispatch? || c.SubmitRefail? || c.SubmitDone?
  }

  /** A submission stays one until it is done, with its own request, and what it won it keeps. */
  lemma SubmissionsStay(s: State, a: Action, k: nat)
    requires Enabled(s, a) && k < |s.clients| && Submission(s.clients[k])
    ensures k < |Step(s, a).clients|
    ensures var c, c' := s.clients[k], Step(s, a).clients[k];
      && Submission(c') && c'.request == c.request
      && (c.SubmitDispatch? || c.SubmitRefail? ==> c'.SubmitDispatch? || c'.SubmitRefail? || c' == SubmitDone(c.request, true))
      && (c.SubmitLost? ==> c' == c || c' == SubmitMark(c.request, 202))
      && (c.SubmitMark? ==> c' == c || c' == SubmitDone(c.request, false))
      && (c.SubmitDone? ==> c' == c)
  {
    hide Judge;
  }

  /** After every run, all grants are for one payload, and the attempt number counts them. */
  lemma OnePayloadPerJob(actions: seq<Action>, g: nat)
    requires Run(actions).Some? && g < |Run(actions).value.grants|
    ensures var s := Run(actions).value;
      && s.row.Some? && s.row.value.attempt == |s.grants|
      && s.grants[g].identity == s.grants[0].identity == IdentityOf(s.row.value)
      && s.grants[g].attempt == g + 1
      && (g > 0 ==> s.grants[g].from == Some(Failed) || s.grants[g].from == Some(Cancelled))
  {
    RunKeepsInv(actions);
  }

  /** After every run, no attempt is in the charge of two clients. */
  lemma EachAttemptOnce(actions: seq<Action>, k: nat, m: nat)
    requires Run(actions).Some? && k < m < |Run(actions).value.clients|
    requires Charge(Run(actions).value.clients[k]).Some? && Charge(Run(actions).value.clients[m]).Some?
    ensures Charge(Run(actions).value.clients[k]) != Charge(Run(actions).value.clients[m])
  {
    RunKeepsInv(actions);
  }

  /** The client is about to dispatch attempt `n`. */
  predicate Pending(c: Client, n: nat) {
    (c.SubmitDispatch? || c.RetryDispatch?) && c.attempt == n
  }

  ghost predicate SomePending(s: State, n: nat) {
    exists k :: 0 <= k < |s.clients| && Pending(s.clients[k], n)
  }

  /** The action dispatches attempt `n`. */
  predicate Dispatches(s: State, a: Action, n: nat) {
    a.Dispatch? && a.k < |s.clients| && Pending(s.clients[a.k], n)
  }

  /** How many actions of a run dispatch attempt `n`. */
  function DispatchCount(actions: seq<Action>, n: nat): nat {
    if actions == [] then 0
    else
      var front := actions[..|actions| - 1];
      DispatchCount(front, n) + if Run(front).Some? && Dispatches(Run(front).value, actions[|actions| - 1], n) then 1 else 0
  }

  /** A step gives nobody an attempt to dispatch but the one it grants. */
  lemma PendingStays(s: State, a: Action, k: nat, n: nat)
    requires Enabled(s, a) && GrantsSound(s) && k < |Step(s, a).clients| && Pending(Step(s, a).clients[k], n)
    ensures (k < |s.clients| && s.clients[k] == Step(s, a).clients[k]) || n == |s.grants| + 1
  {
    hide Judge;
    if a.Act? {
      ActPending(s, a.k, n);
    }
    hide ActOf;
  }

  lemma ActPending(s: State, k: nat, n: nat)
    requires Enabled(s, Act(k)) && GrantsSound(s)
    ensures |ActOf(s, k).clients| == |s.clients| && forall m :: 0 <= m < |s.clients| && m != k ==> ActOf(s, k).clients[m] == s.clients[m]
    ensures Pending(ActOf(s, k).clients[k], n) ==> n == |s.grants| + 1
  {
    hide Judge;
  }

  lemma PendingBefore(s: State, a: Action, n: nat)
    requires Enabled(s, a) && GrantsSound(s) && ChargesIn(s.clients, |s.grants|) && SomePending(Step(s, a), n)
    ensures (SomePending(s, n) && !Dispatches(s, a, n)) || n == |s.grants| + 1
  {
    var k :| 0 <= k < |Step(s, a).clients| && Pending(Step(s, a).clients[k], n);
    PendingStays(s, a, k, n);
    if n != |s.grants| + 1 {
      assert Pending(s.clients[k], n) && Charge(s.clients[k]) == Some(n);
      if a.Dispatch? {
        DispatchEnds(s, a.k, a.result);
      }
    }
    hide Step, GrantsSound;
  }

  lemma DispatchEnds(s: State, k: nat, result: DispatchResult)
    requires Enabled(s, Dispatch(k, result))
    ensures k < |Step(s, Dispatch(k, result)).clients| && forall n :: !Pending(Step(s, Dispatch(k, result)).clients[k], n)
  {
  }

  /** Over every run, each attempt is dispatched at most once, and only after it was granted. */
  lemma {:induction false} DispatchedAtMostOnce(actions: seq<Action>, n: nat)
    requires Run(actions).Some?
    ensures DispatchCount(actions, n) <= 1
    ensures SomePending(Run(actions).value, n) || n > |Run(actions).value.grants| ==> DispatchCount(actions, n) == 0
  {
    if actions != [] {
      var front, a := actions[..|actions| - 1], actions[|actions| - 1];
      var s := Run(front).value;
      DispatchedAtMostOnce(front, n);
      RunKeepsInv(front);
      GrantsGrow(s, a);
      hide Step, GrantsSound, ChargesIn, PayloadsSound, DuplicatesCounted;
      if SomePending(Step(s, a), n) {
        PendingBefore(s, a, n);
      }
      if Dispatches(s, a, n) {
        PendingGranted(s, a.k, n);
      }
    }
  }

  lemma GrantsGrow(s: State, a: Action)
    requires Enabled(s, a)
    ensures |s.grants| <= |Step(s, a).grants|
  {
    hide Judge;
  }

  lemma {:induction false} PrefixGrants(actions: seq<Action>, i: nat)
    requires Run(actions).Some? && i <= |actions|
    ensures Run(actions[..i]).Some? && |Run(actions[..i]).value.grants| <= |Run(actions).value.grants|
  {
    if i == |actions| {
      assert actions[..i] == actions;
    } else {
      var front := actions[..|actions| - 1];
      PrefixGrants(front, i);
      assert front[..i] == actions[..i];
      GrantsGrow(Run(front).value, actions[|actions| - 1]);
    }
  }

  // ---------- cancel requests ----------

  /** A client that found the job active sets its cancel flag. */
  predicate Flags(s: State, a: Action) {
    a.Act? && a.k < |s.clients| && s.clients[a.k].CancelFlag?
  }

  ghost predicate FlaggedAt(actions: seq<Action>, i: nat, granted: nat)
    requires i < |actions|
  {
    Run(actions[..i]).Some? && Flags(Run(actions[..i]).value, actions[i]) && |Run(actions[..i]).value.grants| == granted
  }

  /** Some client set the flag while that many attempts had been granted. */
  ghost predicate FlaggedSince(actions: seq<Action>, granted: nat) {
    exists i :: 0 <= i < |actions| && FlaggedAt(actions, i, granted)
  }

  ghost predicate AsksToCancel(s: State) {
    s.row.Some? && s.row.value.cancelRequested
  }

  lemma FlagStep(s: State, a: Action)
    requires Enabled(s, a) && PayloadsSound(s)
    ensures AsksToCancel(Step(s, a)) <==> Flags(s, a) || (AsksToCancel(s) && |Step(s, a).grants| == |s.grants|)
    ensures Flags(s, a) ==> |Step(s, a).grants| == |s.grants|
  {
    hide Judge;
    if Flags(s, a) {
      assert PayloadOk(s.clients[a.k], s.row);
    }
  }

  lemma CancelNext(front: seq<Action>, a: Action)
    requires Run(front).Some? && Inv(Run(front).value) && Run(front + [a]).Some?
    requires AsksToCancel(Run(front).value) <==> FlaggedSince(front, |Run(front).value.grants|)
    ensures AsksToCancel(Run(front + [a]).value) <==> FlaggedSince(front + [a], |Run(front + [a]).value.grants|)
  {
    hide Step, Flags, FlaggedSince, AsksToCancel;
    var s := Run(front).value;
    assert (front + [a])[..|front|] == front;
    FlagStep(s, a);
    GrantsGrow(s, a);
    var granted := |Step(s, a).grants|;
    FlaggedNext(front, a, granted);
    if granted > |s.grants| {
      FlaggedBefore(front, granted);
    }
  }

  /**
   At any point of any run, the job asks to be cancelled exactly when some cancel client set its
   flag after the latest attempt was granted: a retry forgets every earlier request, and nothing else does.
   */
  lemma {:induction false} CancelOnlyThisAttempt(actions: seq<Action>)
    requires Run(actions).Some?
    ensures AsksToCancel(Run(actions).value) <==> FlaggedSince(actions, |Run(actions).value.grants|)
  {
    hide Inv, Step, Enabled, FlaggedSince, AsksToCancel;
    if actions == [] {
      NothingFlagged();
    } else {
      var front, a := actions[..|actions| - 1], actions[|actions| - 1];
      CancelOnlyThisAttempt(front);
      RunKeepsInv(front);
      assert actions == front + [a];
      CancelNext(front, a);
    }
  }

  lemma NothingFlagged()
    ensures !AsksToCancel(START) && forall granted: nat :: !FlaggedSince([], granted)
  {
  }

  lemma FlaggedPrefix(front: seq<Action>, a: Action, i: nat, granted: nat)
    requires i < |front|
    ensures FlaggedAt(front + [a], i, granted) <==> FlaggedAt(front, i, granted)
  {
    hide Run, Flags;
    assert (front + [a])[..i] == front[..i];
  }

  /** What one more action adds to the requests made under `granted` grants. */
  lemma FlaggedNext(front: seq<Action>, a: Action, granted: nat)
    requires Run(front).Some?
    ensures FlaggedSince(front + [a], granted) <==>
      FlaggedSince(front, granted) || (Flags(Run(front).value, a) && |Run(front).value.grants| == granted)
  {
    hide Run, Flags, FlaggedAt;
    var all := front + [a];
    assert all[..|front|] == front;
    forall i | 0 <= i < |front| ensures FlaggedAt(all, i, granted) <==> FlaggedAt(front, i, granted) {
      FlaggedPrefix(front, a, i, granted);
    }
    LastFlagged(front, a, granted);
    if i :| 0 <= i < |all| && FlaggedAt(all, i, granted) {
      assert i < |front| ==> FlaggedAt(front, i, granted);
    }
    if FlaggedSince(front, granted) {
      var i :| 0 <= i < |front| && FlaggedAt(front, i, granted);
      assert FlaggedAt(all, i, granted);
    }
  }

  lemma LastFlagged(front: seq<Action>, a: Action, granted: nat)
    requires Run(front).Some?
    ensures FlaggedAt(front + [a], |front|, granted) <==> Flags(Run(front).value, a) && |Run(front).value.grants| == granted
  {
    hide Run, Flags;
    assert (front + [a])[..|front|] == front;
  }

  /** No request was made under more grants than there are. */
  lemma FlaggedBefore(actions: seq<Action>, granted: nat)
    requires Run(actions).Some? && granted > |Run(actions).value.grants|
    ensures !FlaggedSince(actions, granted)
  {
    hide Run, Flags;
    forall i: nat | i < |actions| ensures !FlaggedAt(actions, i, granted) {
      PrefixGrants(actions, i);
    }
  }

  lemma PendingGranted(s: State, k: nat, n: nat)
    requires ChargesIn(s.clients, |s.grants|) && k < |s.clients| && Pending(s.clients[k], n)
    ensures n <= |s.grants| && SomePending(s, n)
  {
    assert Charge(s.clients[k]) == Some(n);
  }

  /** Every submission that won an attempt carried exactly the stored payload. */
  lemma WinnersCarryThePayload(actions: seq<Action>, k: nat)
    requires Run(actions).Some? && k < |Run(actions).value.clients|
    requires var c := Run(actions).value.clients[k]; c.SubmitDispatch? || (c.SubmitDone? && c.won)
    ensures var s := Run(actions).value; s.row.Some? && RequestIdentity(s.clients[k].request) == IdentityOf(s.row.value)
  {
    RunKeepsInv(actions);
  }

  // ---------- attempts that overlap ----------

  /** An attempt is live while it is being dispatched, queued or running. */
  predicate Live(c: Client) {
    Charge(c).Some?
  }

  ghost predicate SomeLive(s: State) {
    exists k :: 0 <= k < |s.clients| && Live(s.clients[k])
  }

  ghost predicate AtMostOneLive(s: State) {
    forall k, m :: 0 <= k < m < |s.clients| && Live(s.clients[k]) ==> !Live(s.clients[m])
  }

  /** A retry would be granted although an attempt is live. */
  ghost predicate Hazard(s: State) {
    s.row.Some? && IsRetryable(s.row.value.status) && SomeLive(s)
  }

  /** A cancel client, or the second failure report of a submission, writes over a live attempt. */
  ghost predicate Stray(s: State, a: Action) {
    a.Act? && a.k < |s.clients| && (s.clients[a.k].CancelWrite? || s.clients[a.k].SubmitRefail?) && SomeLive(s)
  }

  ghost predicate Exclusive(s: State) {
    AtMostOneLive(s) && !Hazard(s)
  }

  lemma NobodyElseLive(s: State, k: nat, c: Client, cs: seq<Client>)
    requires AtMostOneLive(s) && k < |s.clients| && Live(s.clients[k]) && !Live(c)
    requires cs == s.clients[k := c]
    ensures forall m :: 0 <= m < |cs| ==> !Live(cs[m])
  {
    hide Live;
  }

  lemma ActExclusive(s: State, k: nat)
    requires Enabled(s, Act(k)) && Inv(s) && Exclusive(s)
    ensures AtMostOneLive(ActOf(s, k))
    ensures Hazard(ActOf(s, k)) <==> Stray(s, Act(k))
  {
    hide Judge, CountMarked, CountWon;
    var s' := ActOf(s, k);
    assert PayloadOk(s.clients[k], s.row);
    assert !Live(s.clients[k]);
    assert forall m :: 0 <= m < |s.clients| && m != k ==> s'.clients[m] == s.clients[m];
    if Live(s'.clients[k]) {
      assert s.row.None? || IsRetryable(s.row.value.status);
      assert !SomeLive(s);
    } else if SomeLive(s) {
      var m :| 0 <= m < |s.clients| && Live(s.clients[m]);
      assert Live(s'.clients[m]);
    }
  }

  lemma DispatchExclusive(s: State, k: nat, result: DispatchResult)
    requires Enabled(s, Dispatch(k, result)) && Exclusive(s)
    ensures Exclusive(DispatchOf(s, k, result))
  {
    var s' := DispatchOf(s, k, result);
    var rest := s.clients[k := s'.clients[k]];
    NobodyElseLive(s, k, s'.clients[k], rest);
    assert forall m :: 0 <= m < |rest| ==> s'.clients[m] == rest[m];
    assert Live(s.clients[k]);
  }

  lemma WorkerExclusive(s: State, k: nat, status: JobStatus, node: string)
    requires Enabled(s, WorkerWrites(k, status, node)) && Exclusive(s)
    ensures Exclusive(Step(s, WorkerWrites(k, status, node)))
  {
    var s' := Step(s, WorkerWrites(k, status, node));
    if status != Processing {
      NobodyElseLive(s, k, Gone, s'.clients);
    }
  }

  /**
   Exactly one kind of step endangers exclusiveness: writing FAILED or CANCELLED over a live
   attempt that is someone else's. No other step makes a retry possible while an attempt is live.
   */
  lemma HazardIffStray(s: State, a: Action)
    requires Enabled(s, a) && Inv(s) && Exclusive(s)
    ensures AtMostOneLive(Step(s, a))
    ensures Hazard(Step(s, a)) <==> Stray(s, a)
  {
    hide ActOf, DispatchOf, Inv;
    match a
    case Arrive(c) =>
      if SomeLive(Step(s, a)) {
        var m :| 0 <= m < |s.clients| + 1 && Live(Step(s, a).clients[m]);
        assert Live(s.clients[m]);
      }
    case Act(k) => ActExclusive(s, k);
    case Dispatch(k, result) => DispatchExclusive(s, k, result);
    case WorkerWrites(k, status, node) => WorkerExclusive(s, k, status, node);
  }

  ghost predicate NeverStrays(actions: seq<Action>) {
    forall i :: 0 <= i < |actions| && Run(actions[..i]).Some? ==> !Stray(Run(actions[..i]).value, actions[i])
  }

  /** In a run without such a write, at most one attempt is live at any time. */
  lemma {:induction false} WithoutStraysExclusive(actions: seq<Action>)
    requires NeverStrays(actions) && Run(actions).Some?
    ensures Exclusive(Run(actions).value)
  {
    if actions != [] {
      var front, a := actions[..|actions| - 1], actions[|actions| - 1];
      forall i | 0 <= i < |front| && Run(front[..i]).Some? ensures !Stray(Run(front[..i]).value, front[i]) {
        assert front[..i] == actions[..i];
      }
      WithoutStraysExclusive(front);
      RunKeepsInv(front);
      HazardIffStray(Run(front).value, a);
      hide Stray, Step, Enabled, Inv, Hazard, AtMostOneLive;
      assert !Stray(Run(actions[..|front|]).value, actions[|front|]);
    }
  }

  // ---------- overlaps do occur ----------

  lemma RunThen(actions: seq<Action>, s: State, a: Action)
    requires Run(actions) == Some(s) && Enabled(s, a)
    ensures Run(actions + [a]) == Some(Step(s, a))
  {
    assert (actions + [a])[..|actions|] == actions;
  }

  const ASKED := Request(None, None, "fingerprint", Options("default", None), false)

  /** A retry client that arrives, reads the row and asks for a new attempt. */
  function RetryBy(k: nat): seq<Action> {
    [Arrive(Retry)] + [Act(k)] + [Act(k)]
  }

  /** The state after such a retry client got its attempt. */
  function Retried(s: State): State
    requires s.row.Some?
  {
    var job := Requeued(s.row.value, s.row.value.options, s.row.value.callbackUrl);
    State(Some(job), s.clients + [RetryDispatch(job.attempt)],
          s.grants + [Grant(Some(s.row.value.status), job.attempt, IdentityOf(job), |s.clients|)])
  }

  lemma RetrySteps(s: State)
    requires s.row.Some? && IsRetryable(s.row.value.status)
    ensures var k, s1 := |s.clients|, Step(s, Arrive(Retry));
      && s1.clients == s.clients + [Retry] && Enabled(s1, Act(k))
      && Step(s1, Act(k)) == s1.(clients := s.clients + [RetryRequeue(s.row.value)]) && Enabled(Step(s1, Act(k)), Act(k))
      && Step(Step(s1, Act(k)), Act(k)) == Retried(s)
  {
    var s1 := Step(s, Arrive(Retry));
    assert s1.clients[|s.clients| := RetryRequeue(s.row.value)] == s.clients + [RetryRequeue(s.row.value)];
  }

  /** A retry client that meets a retryable row gets an attempt. */
  lemma RetryRun(actions: seq<Action>, s: State)
    requires Run(actions) == Some(s) && s.row.Some? && IsRetryable(s.row.value.status)
    ensures Run(actions + RetryBy(|s.clients|)) == Some(Retried(s))
  {
    hide Run, Step, Retried;
    RetrySteps(s);
    var k, r1, s1 := |s.clients|, actions + [Arrive(Retry)], Step(s, Arrive(Retry));
    RunThen(actions, s, Arrive(Retry));
    RunThen(r1, s1, Act(k));
    RunThen(r1 + [Act(k)], Step(s1, Act(k)), Act(k));
    assert r1 + [Act(k)] + [Act(k)] == actions + RetryBy(k);
  }

  /** Every hazard is real: a retry arriving in such a state gets a second live attempt. */
  lemma HazardBecomesOverlap(actions: seq<Action>, s: State)
    requires Run(actions) == Some(s) && Hazard(s)
    ensures Run(actions + RetryBy(|s.clients|)).Some? && !AtMostOneLive(Run(actions + RetryBy(|s.clients|)).value)
  {
    hide Run;
    RetryRun(actions, s);
    var m :| 0 <= m < |s.clients| && Live(s.clients[m]);
    assert Live(Retried(s).clients[m]) && Live(Retried(s).clients[|s.clients|]);
  }

  /** With one attempt live at most, a retry arriving now keeps it so exactly when there is no hazard. */
  lemma RetrySafeIff(actions: seq<Action>, s: State)
    requires Run(actions) == Some(s) && AtMostOneLive(s)
    ensures !Hazard(s) <==> RetrySafe(actions, s)
  {
    hide Run;
    if Hazard(s) {
      HazardBecomesOverlap(actions, s);
    } else if s.row.Some? && IsRetryable(s.row.value.status) {
      RetryRun(actions, s);
    } else {
      RetryRefused(actions, s);
    }
  }

  ghost predicate RetrySafe(actions: seq<Action>, s: State) {
    Run(actions + RetryBy(|s.clients|)).Some? ==> AtMostOneLive(Run(actions + RetryBy(|s.clients|)).value)
  }

  /** Without a retryable row the retry client is gone before it can ask for an attempt. */
  lemma RetryRefused(actions: seq<Action>, s: State)
    requires Run(actions) == Some(s) && (s.row.None? || !IsRetryable(s.row.value.status))
    ensures Run(actions + RetryBy(|s.clients|)).None?
  {
    var k, r1, s1 := |s.clients|, actions + [Arrive(Retry)], Step(s, Arrive(Retry));
    assert s1.clients[k] == Retry && !Enabled(Step(s1, Act(k)), Act(k));
    ArriveEnabled(s);
    hide Run, Step;
    RunThen(actions, s, Arrive(Retry));
    RunThen(r1, s1, Act(k));
    RunStops(r1 + [Act(k)], Step(s1, Act(k)), Act(k));
    assert r1 + [Act(k)] + [Act(k)] == actions + RetryBy(k);
  }

  lemma RunStops(actions: seq<Action>, s: State, a: Action)
    requires Run(actions) == Some(s) && !Enabled(s, a)
    ensures Run(actions + [a]).None?
  {
    assert (actions + [a])[..|actions|] == actions;
  }

  /** At every point of the run at most one attempt is live, and still would be if a retry arrived there. */
  ghost predicate NeverOverlaps(actions: seq<Action>) {
    forall i :: 0 <= i <= |actions| ==> SafeAt(actions, i)
  }

  ghost predicate SafeAt(actions: seq<Action>, i: int)
    requires 0 <= i <= |actions|
  {
    Run(actions[..i]).Some? && AtMostOneLive(Run(actions[..i]).value) && RetrySafe(actions[..i], Run(actions[..i]).value)
  }

  lemma {:induction false} PrefixRuns(actions: seq<Action>, i: nat)
    requires Run(actions).Some? && i <= |actions|
    ensures Run(actions[..i]).Some?
  {
    if i == |actions| {
      assert actions[..i] == actions;
    } else {
      PrefixRuns(actions[..|actions| - 1], i);
      assert actions[..|actions| - 1][..i] == actions[..i];
    }
  }

  /** A run is free of overlapping attempts, now and after a retry at any point, exactly when no stray write happens in it. */
  lemma NeverOverlapsIffNeverStrays(run: seq<Action>)
    requires Run(run).Some?
    ensures NeverOverlaps(run) <==> NeverStrays(run)
  {
    hide Run, Stray, Hazard, AtMostOneLive, RetrySafe;
    if NeverStrays(run) {
      forall i | 0 <= i <= |run| ensures SafeAt(run, i) {
        PrefixRuns(run, i);
        forall j | 0 <= j < i && Run(run[..i][..j]).Some? ensures !Stray(Run(run[..i][..j]).value, run[..i][j]) {
          assert run[..i][..j] == run[..j];
        }
        WithoutStraysExclusive(run[..i]);
        RetrySafeIff(run[..i], Run(run[..i]).value);
      }
    }
    if NeverOverlaps(run) {
      forall i | 0 <= i < |run| && Run(run[..i]).Some? ensures !Stray(Run(run[..i]).value, run[i]) {
        assert SafeAt(run, i) && SafeAt(run, i + 1);
        NextRun(run, i);
        RetrySafeIff(run[..i], Run(run[..i]).value);
        RetrySafeIff(run[..i + 1], Run(run[..i + 1]).value);
        RunKeepsInv(run[..i]);
        HazardIffStray(Run(run[..i]).value, run[i]);
      }
    }
  }

  lemma NextRun(run: seq<Action>, i: nat)
    requires i < |run| && Run(run[..i + 1]).Some?
    ensures Run(run[..i]).Some? && Enabled(Run(run[..i]).value, run[i]) && Run(run[..i + 1]) == Some(Step(Run(run[..i]).value, run[i]))
  {
    assert run[..i + 1][..i] == run[..i];
  }

  /** The first submission, up to where its attempt is about to be dispatched. */
  function FirstSubmission(): seq<Action> {
    [Arrive(Submit(ASKED))] + [Act(0)]
  }

  lemma FirstSubmissionRun()
    ensures Run(FirstSubmission()) == Some(State(Some(NewJob(ASKED)), [SubmitDispatch(ASKED, 1)], [Grant(None, 1, RequestIdentity(ASKED), 0)]))
  {
    var r1 := [Arrive(Submit(ASKED))];
    assert [] + r1 == r1;
    RunThen([], START, Arrive(Submit(ASKED)));
    var s1 := Step(START, Arrive(Submit(ASKED)));
    assert s1.clients == [Submit(ASKED)];
    RunThen(r1, s1, Act(0));
    var s2 := Step(s1, Act(0));
    assert s2.clients == [SubmitDispatch(ASKED, 1)];
    assert s2.grants == [Grant(None, 1, RequestIdentity(ASKED), 0)];
  }

  /** A submission whose attempt reaches the queue, and a client that cancels it while it is queued. */
  function SubmitThenCancel(): seq<Action> {
    FirstSubmission() + [Dispatch(0, Enqueued)] + CancelBy(2)
  }

  /**
   Two attempts of one job can be live at once: cancelling a queued job leaves its attempt in the
   queue, and a retry gets another one.
   */
  lemma CancelledWhileQueuedOverlaps()
    ensures Run(SubmitThenCancel() + RetryBy(3)).Some? && !AtMostOneLive(Run(SubmitThenCancel() + RetryBy(3)).value)
  {
    FirstSubmissionRun();
    hide Run, FirstSubmission;
    var s := Run(FirstSubmission()).value;
    RunThen(FirstSubmission(), s, Dispatch(0, Enqueued));
    var s' := Step(s, Dispatch(0, Enqueued));
    assert Live(s'.clients[1]);
    hide Step, Hazard, AtMostOneLive, SomeLive;
    CancelQueued(FirstSubmission() + [Dispatch(0, Enqueued)], s');
    HazardBecomesOverlap(SubmitThenCancel(), Run(SubmitThenCancel()).value);
  }

  /** A cancel client that arrives, reads the row, sets the flag and writes CANCELLED. */
  function CancelBy(k: nat): seq<Action> {
    [Arrive(Cancel)] + [Act(k)] + [Act(k)] + [Act(k)]
  }

  lemma CancelSteps(s: State)
    requires s.row.Some? && s.row.value.status == Queued && SomeLive(s)
    ensures var k, s1 := |s.clients|, Step(s, Arrive(Cancel));
      && Enabled(s1, Act(k)) && Enabled(Step(s1, Act(k)), Act(k)) && Enabled(Step(Step(s1, Act(k)), Act(k)), Act(k))
      && var s4 := Step(Step(Step(s1, Act(k)), Act(k)), Act(k));
         Hazard(s4) && |s4.clients| == k + 1
  {
    var k, s1 := |s.clients|, Step(s, Arrive(Cancel));
    var s2 := Step(s1, Act(k));
    var s3 := Step(s2, Act(k));
    var m :| 0 <= m < k && Live(s.clients[m]);
    assert Step(s3, Act(k)).clients[m] == s.clients[m];
  }

  lemma CancelQueued(r: seq<Action>, s: State)
    requires Run(r) == Some(s) && s.row.Some? && s.row.value.status == Queued && SomeLive(s)
    ensures var all := r + CancelBy(|s.clients|);
      Run(all).Some? && Hazard(Run(all).value) && |Run(all).value.clients| == |s.clients| + 1
  {
    hide Run, Step, Hazard, Enabled;
    CancelSteps(s);
    ArriveEnabled(s);
    var k, s1, r1 := |s.clients|, Step(s, Arrive(Cancel)), r + [Arrive(Cancel)];
    RunThen(r, s, Arrive(Cancel));
    RunThen(r1, s1, Act(k));
    RunThen(r1 + [Act(k)], Step(s1, Act(k)), Act(k));
    RunThen(r1 + [Act(k)] + [Act(k)], Step(Step(s1, Act(k)), Act(k)), Act(k));
    assert r1 + [Act(k)] + [Act(k)] + [Act(k)] == r + CancelBy(k);
  }

  lemma ArriveEnabled(s: State)
    ensures Enabled(s, Arrive(Cancel)) && Enabled(s, Arrive(Retry))
  {
  }

  /** A submission whose dispatch fails, and a retry that gets through between its two failure reports. */
  function FailTwice(): seq<Action> {
    FirstSubmission() + [Dispatch(0, QueueFailed)] + RetryBy(1) + [Act(0)]
  }

  /** The same happens without any cancel client when a failed dispatch is reported twice. */
  lemma FailureReportedTwiceOverlaps()
    ensures Run(FailTwice() + RetryBy(2)).Some? && !AtMostOneLive(Run(FailTwice() + RetryBy(2)).value)
  {
    FirstSubmissionRun();
    hide Run, FirstSubmission;
    var s := Run(FirstSubmission()).value;
    RunThen(FirstSubmission(), s, Dispatch(0, QueueFailed));
    var s' := Step(s, Dispatch(0, QueueFailed));
    hide Step, Hazard, AtMostOneLive, SomeLive;
    RetryBetween(FirstSubmission() + [Dispatch(0, QueueFailed)], s');
    HazardBecomesOverlap(FailTwice(), Run(FailTwice()).value);
  }

  lemma RefailStep(s: State)
    requires |s.clients| == 1 && s.clients[0].SubmitRefail? && s.row.Some?
    ensures Enabled(Retried(s), Act(0))
    ensures Hazard(Step(Retried(s), Act(0))) && |Step(Retried(s), Act(0)).clients| == 2
  {
    assert Live(Step(Retried(s), Act(0)).clients[1]);
  }

  lemma RetryBetween(r: seq<Action>, s: State)
    requires Run(r) == Some(s) && |s.clients| == 1 && s.clients[0].SubmitRefail?
    requires s.row.Some? && s.row.value.status == Failed
    ensures var all := r + RetryBy(1) + [Act(0)];
      Run(all).Some? && Hazard(Run(all).value) && |Run(all).value.clients| == 2
  {
    hide Run, Step, Retried, Hazard, Enabled;
    RetryRun(r, s);
    RefailStep(s);
    RunThen(r + RetryBy(1), Retried(s), Act(0));
  }
}
