/** The submit, retry and cancel endpoints against a store that nobody else is using. */
module JobRequests {
  import opened Wrappers
  import opened JobStore

  datatype Outcome = Outcome(http: nat, dispatch: Option<nat>)

  /** What a submission does once `create_or_get` has returned an existing row. */
  datatype Verdict =
    | Refuse(http: nat)       // count a duplicate, answer with a conflict
    | Report(http: nat)       // count a duplicate, answer idempotently
    | AttemptRetry            // ask the store for a new attempt

  function Judge(existing: Job, r: Request): Verdict {
    if existing.tenant != r.tenant || existing.project != r.project then Refuse(409)
    else if r.reprocess then
      if !IsRetryable(existing.status) then Refuse(409)
      else if existing.fingerprint != r.fingerprint then Refuse(409)
      else AttemptRetry
    else if existing.fingerprint != r.fingerprint then Refuse(409)
    else if IsActive(existing.status) then Report(202)
    else Report(200)
  }

  /** A retry is attempted only for the accepted payload, on a retryable status, when asked for. */
  lemma AttemptRetryIff(existing: Job, r: Request)
    ensures Judge(existing, r) == AttemptRetry <==>
      r.reprocess && IdentityOf(existing) == RequestIdentity(r) && IsRetryable(existing.status)
    ensures Judge(existing, r).Refuse? <==>
      IdentityOf(existing) != RequestIdentity(r) || (r.reprocess && !IsRetryable(existing.status))
  {
  }

  /** The answers: 409 for any conflict, 202 for a job under way, 200 for one that has ended. */
  lemma AnswersAre(existing: Job, r: Request)
    ensures Judge(existing, r).Refuse? ==> Judge(existing, r).http == 409
    ensures Judge(existing, r).Report? ==>
      && !r.reprocess && IdentityOf(existing) == RequestIdentity(r)
      && Judge(existing, r).http == if existing.status == Queued || existing.status == Processing then 202 else 200
  {
  }

  /** Creates or answers for a job. Exactly one of dispatching and counting a duplicate happens. */
  method HandleJobCreation(store: MemoryJobStore, id: string, r: Request) returns (o: Outcome)
    modifies store
    ensures id !in old(store.jobs) ==>
      o == Outcome(202, Some(1)) && store.jobs == old(store.jobs)[id := NewJob(r)]
    ensures id in old(store.jobs) ==> var job := old(store.jobs)[id];
      (match Judge(job, r)
       case Refuse(http) => o == Outcome(http, None) && store.jobs == old(store.jobs)[id := MarkedDuplicate(job)]
       case Report(http) => o == Outcome(http, None) && store.jobs == old(store.jobs)[id := MarkedDuplicate(job)]
       case AttemptRetry => (o == Outcome(202, Some(job.attempt + 1))
                             && store.jobs == old(store.jobs)[id := Requeued(job, r.options, r.options.callbackUrl)]
                             && StartsOver(job, store.jobs[id], r.options, r.options.callbackUrl)))
  {
    var existing, created := store.CreateOrGet(id, NewJob(r));
    if created {
      return Outcome(202, Some(existing.attempt));
    }
    if existing.tenant != r.tenant || existing.project != r.project {
      store.MarkDuplicate(id);
      return Outcome(409, None);
    }
    var fingerprintMatch := existing.fingerprint == r.fingerprint;
    if r.reprocess {
      if !IsRetryable(existing.status) {
        store.MarkDuplicate(id);
        return Outcome(409, None);
      }
      if !fingerprintMatch {
        store.MarkDuplicate(id);
        return Outcome(409, None);
      }
      var updated := store.TryRequeueForRetry(id, r.fingerprint, r.options, r.options.callbackUrl);
      if updated.None? {
        assert false;
      }
      return Outcome(202, Some(updated.value.attempt));
    }
    store.MarkDuplicate(id);
    if !fingerprintMatch {
      return Outcome(409, None);
    }
    if IsActive(existing.status) {
      return Outcome(202, None);
    }
    return Outcome(200, None);
  }

  /** Retries a job under its own stored fingerprint and options. */
  method RetryJob(store: MemoryJobStore, id: string) returns (o: Outcome)
    modifies store
    ensures id !in old(store.jobs) ==> o == Outcome(404, None) && store.jobs == old(store.jobs)
    ensures id in old(store.jobs) && !IsRetryable(old(store.jobs)[id].status) ==>
      o == Outcome(409, None) && store.jobs == old(store.jobs)
    ensures id in old(store.jobs) && IsRetryable(old(store.jobs)[id].status) ==> var job := old(store.jobs)[id];
      o == Outcome(202, Some(job.attempt + 1)) && store.jobs == old(store.jobs)[id := Requeued(job, job.options, job.callbackUrl)]
      && StartsOver(job, store.jobs[id], job.options, job.callbackUrl)
  {
    var existing := store.GetJob(id);
    if existing.None? {
      return Outcome(404, None);
    }
    if !IsRetryable(existing.value.status) {
      return Outcome(409, None);
    }
    var updated := store.TryRequeueForRetry(id, existing.value.fingerprint, existing.value.options, existing.value.callbackUrl);
    if updated.None? {
      assert false;
    }
    return Outcome(202, Some(updated.value.attempt));
  }

  /** Requests cooperative cancellation; a job still queued becomes CANCELLED at once. */
  method CancelJob(store: MemoryJobStore, id: string) returns (o: Outcome)
    modifies store
    ensures id !in old(store.jobs) ==> o == Outcome(404, None) && store.jobs == old(store.jobs)
    ensures id in old(store.jobs) && IsTerminal(old(store.jobs)[id].status) ==>
      o == Outcome(200, None) && store.jobs == old(store.jobs)
    ensures id in old(store.jobs) && !IsTerminal(old(store.jobs)[id].status) ==> var job := old(store.jobs)[id];
      && o == Outcome(200, None) && store.jobs.Keys == old(store.jobs).Keys
      && store.jobs[id] == (if job.status == Queued then job.(cancelRequested := true, status := Cancelled, node := "cancelled")
                            else job.(cancelRequested := true))
      && forall k :: k in store.jobs && k != id ==> store.jobs[k] == old(store.jobs)[k]
  {
    var existing := store.GetJob(id);
    if existing.None? {
      return Outcome(404, None);
    }
    if IsTerminal(existing.value.status) {
      return Outcome(200, None);
    }
    store.RequestCancel(id);
    if existing.value.status == Queued {
      store.SetStatus(id, Cancelled, "cancelled", None, None);
    }
    return Outcome(200, None);
  }
}
