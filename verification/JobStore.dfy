/** Job rows, the store's atomic operations on them, and the in-memory store. */
module JobStore {
  import opened Wrappers

  datatype JobStatus = Queued | Processing | Completed | Failed | Cancelled | Partial | Rejected

  predicate IsTerminal(s: JobStatus) {
    s == Completed || s == Failed || s == Cancelled || s == Partial || s == Rejected
  }

  predicate IsActive(s: JobStatus) {
    s == Queued || s == Processing
  }

  predicate IsRetryable(s: JobStatus) {
    s == Failed || s == Cancelled
  }

  /** Every status is active or terminal, and only some terminal ones can be retried. */
  lemma StatusesSplit(s: JobStatus)
    ensures IsActive(s) <==> !IsTerminal(s)
    ensures IsRetryable(s) ==> IsTerminal(s)
  {
  }

  /** The options of a job that a retry may replace. */
  datatype Options = Options(profile: string, callbackUrl: Option<string>)

  datatype Request = Request(tenant: Option<string>, project: Option<string>, fingerprint: string, options: Options, reprocess: bool)

  datatype Job = Job(
    tenant: Option<string>,
    project: Option<string>,
    fingerprint: string,
    status: JobStatus,
    node: string,
    progress: int,
    attempt: nat,
    cancelRequested: bool,
    error: Option<string>,
    options: Options,
    callbackUrl: Option<string>,
    duplicates: nat)

  /** The row a first submission inserts. */
  function NewJob(r: Request): Job {
    Job(r.tenant, r.project, r.fingerprint, Queued, "queued", 0, 1, false, None, r.options, r.options.callbackUrl, 0)
  }

  /** A retry is granted on a retryable status and the stored fingerprint. */
  predicate CanRequeue(j: Job, fingerprint: string) {
    IsRetryable(j.status) && j.fingerprint == fingerprint
  }

  lemma CanRequeueIff(j: Job, fingerprint: string)
    ensures CanRequeue(j, fingerprint) <==> (j.status == Failed || j.status == Cancelled) && j.fingerprint == fingerprint
  {
  }

  /** The row after a granted retry: a new attempt, queued, with nothing left of the old one. */
  function Requeued(j: Job, options: Options, callbackUrl: Option<string>): Job {
    j.(attempt := j.attempt + 1, status := Queued, node := "queued", progress := 0, cancelRequested := false,
       error := None, options := options,
       callbackUrl := if callbackUrl.GetOr("") != "" then callbackUrl else options.callbackUrl)
  }

  /** A new attempt owes nothing to the one before it: it waits in the queue, unasked to stop and without an error. */
  predicate StartsOver(before: Job, after: Job, options: Options, callbackUrl: Option<string>) {
    && after.status == Queued && after.node == "queued" && after.progress == 0
    && after.attempt == before.attempt + 1
    && !after.cancelRequested && after.error == None
    && after.options == options
    && (callbackUrl.Some? && callbackUrl.value != "" ==> after.callbackUrl == callbackUrl)
    && (callbackUrl == None || callbackUrl == Some("") ==> after.callbackUrl == options.callbackUrl)
    && after.tenant == before.tenant && after.project == before.project && after.fingerprint == before.fingerprint
    && after.duplicates == before.duplicates
  }

  /** The row a granted retry leaves is the only one that starts over in every field. */
  lemma RequeuedStartsOver(j: Job, after: Job, options: Options, callbackUrl: Option<string>)
    ensures StartsOver(j, after, options, callbackUrl) <==> after == Requeued(j, options, callbackUrl)
  {
  }

  /** A first submission is the first attempt of a row that has had none and carries what was submitted. */
  lemma FirstAttempt(r: Request, before: Job)
    requires IdentityOf(before) == RequestIdentity(r) && before.attempt == 0 && before.duplicates == 0
    ensures StartsOver(before, NewJob(r), r.options, None)
  {
  }

  function MarkedDuplicate(j: Job): Job {
    j.(duplicates := j.duplicates + 1)
  }

  function WithStatus(j: Job, s: JobStatus, node: string, progress: Option<int>, error: Option<string>): Job {
    j.(status := s, node := node, progress := progress.GetOr(j.progress), error := if error.Some? then error else j.error)
  }

  /** A status report replaces status and step, progress and error only where given, and nothing else. */
  lemma StatusReported(j: Job, s: JobStatus, node: string, progress: Option<int>, error: Option<string>)
    ensures var k := WithStatus(j, s, node, progress, error);
      && k.status == s && k.node == node
      && (progress.Some? ==> k.progress == progress.value) && (progress.None? ==> k.progress == j.progress)
      && (error.Some? ==> k.error == error) && (error.None? ==> k.error == j.error)
      && k.attempt == j.attempt && k.cancelRequested == j.cancelRequested && k.duplicates == j.duplicates
      && k.options == j.options && k.callbackUrl == j.callbackUrl && IdentityOf(k) == IdentityOf(j)
  {
  }

  /** What identifies the accepted payload. */
  datatype Identity = Identity(tenant: Option<string>, project: Option<string>, fingerprint: string)

  function IdentityOf(j: Job): Identity {
    Identity(j.tenant, j.project, j.fingerprint)
  }

  function RequestIdentity(r: Request): Identity {
    Identity(r.tenant, r.project, r.fingerprint)
  }

  class MemoryJobStore {
    var jobs: map<string, Job>

    constructor ()
      ensures jobs == map[]
    {
      jobs := map[];
    }

    /** Inserts the candidate unless the id is taken, in one critical section. */
    method CreateOrGet(id: string, candidate: Job) returns (record: Job, created: bool)
      modifies this
      ensures created == (id !in old(jobs))
      ensures created ==> record == candidate && jobs == old(jobs)[id := candidate]
      ensures !created ==> record == old(jobs)[id] && jobs == old(jobs)
    {
      if id in jobs {
        record, created := jobs[id], false;
      } else {
        jobs := jobs[id := candidate];
        record, created := candidate, true;
      }
    }

    method MarkDuplicate(id: string)
      modifies this
      ensures jobs == if id in old(jobs) then old(jobs)[id := MarkedDuplicate(old(jobs)[id])] else old(jobs)
    {
      if id in jobs {
        jobs := jobs[id := MarkedDuplicate(jobs[id])];
      }
    }

    /** Validates and requeues in one critical section. */
    method TryRequeueForRetry(id: string, fingerprint: string, options: Options, callbackUrl: Option<string>) returns (updated: Option<Job>)
      modifies this
      ensures updated.Some? <==>
        && id in old(jobs) && old(jobs)[id].fingerprint == fingerprint
        && (old(jobs)[id].status == Failed || old(jobs)[id].status == Cancelled)
      ensures updated.Some? ==> updated.value == Requeued(old(jobs)[id], options, callbackUrl) && jobs == old(jobs)[id := updated.value]
      ensures updated.Some? ==> StartsOver(old(jobs)[id], jobs[id], options, callbackUrl)
      ensures updated.None? ==> jobs == old(jobs)
    {
      if id !in jobs {
        return None;
      }
      var job := jobs[id];
      if !IsRetryable(job.status) || job.fingerprint != fingerprint {
        return None;
      }
      job := Requeued(job, options, callbackUrl);
      jobs := jobs[id := job];
      return Some(job);
    }

    method GetJob(id: string) returns (job: Option<Job>)
      ensures job == if id in jobs then Some(jobs[id]) else None
    {
      job := if id in jobs then Some(jobs[id]) else None;
    }

    method SetStatus(id: string, s: JobStatus, node: string, progress: Option<int>, error: Option<string>)
      modifies this
      ensures jobs == if id in old(jobs) then old(jobs)[id := WithStatus(old(jobs)[id], s, node, progress, error)] else old(jobs)
    {
      if id in jobs {
        jobs := jobs[id := WithStatus(jobs[id], s, node, progress, error)];
      }
    }

    method RequestCancel(id: string)
      modifies this
      ensures jobs == if id in old(jobs) then old(jobs)[id := old(jobs)[id].(cancelRequested := true)] else old(jobs)
    {
      if id in jobs {
        jobs := jobs[id := jobs[id].(cancelRequested := true)];
      }
    }
  }
}
