/** The candidate-lock call as a whole: the transaction with the real parser in it. */
module LockCompiler {
  import opened Wrappers
  import opened DurableDirectory
  import opened CandidateTransaction
  import LockRecords

  // What _build_lock accepts for a request.
  predicate Builds(request: Request, lock: Content) {
    lock.Text? && LockRecords.BuildLock(lock.text, request.excludeNewer).Built?
  }

  // The call checks its locks with _build_lock.
  ghost predicate Genuine(call: Call) {
    forall lock {:trigger Builds(call.request, lock)} :: call.builds(lock) <==> Builds(call.request, lock)
  }

  lemma GenuineBuilds(call: Call, lock: Content)
    requires Genuine(call)
    ensures call.builds(lock) <==> Builds(call.request, lock)
  {
  }

  function CallFor(request: Request, before: string, recapture: Option<string>): (call: Call)
    ensures Genuine(call)
  {
    Call(request, before, recapture, lock => Builds(request, lock))
  }

  // The bytes a call that meets no fault returns: the frozen lock if it is to be accepted, else
  // what the resolver produced.
  ghost function Returned(d: ArtifactDisk, call: Call, run: ResolverRun, recompile: bool): Option<Content>
    requires AllRecoverable(d)
  {
    if FrozenLock(d).Some? && !recompile then
      if Acceptable(d, call) then FrozenLock(d) else None
    else if Prepared(d) && Resolvable(run, call, FrozenLock(d)) then Some(Produced(run.edits).value.content)
    else None
  }

  // compile_candidate_lock: what it returns was parsed into accepted records, from the very file
  // that is frozen beside its receipt. If no system call fails it returns whenever there is a lock
  // to return, and otherwise refuses.
  method CompileLock(
    dir: ArtifactDirectory, request: Request, before: string, recapture: Option<string>, run: ResolverRun,
    recompile: bool)
    returns (lock: Option<LockRecords.CandidateLock>, ghost committed: Option<Publication>)
    requires AllRecoverable(dir.disk) && dir.seen == {dir.disk}
    modifies dir
    ensures dir.disk in dir.seen && |dir.disk.images| > 0
    ensures forall d :: d in dir.seen ==> CallReaches(old(dir.disk), d, CallFor(request, before, recapture), committed)
    ensures lock.Some? ==> exists answer ::
              && CallReturns(old(dir.disk), dir.disk, CallFor(request, before, recapture), committed, answer)
              && answer.lock.Text?
              && LockRecords.BuildLock(answer.lock.text, request.excludeNewer) == LockRecords.Built(lock.value)
    ensures dir.faults == old(dir.faults) ==>
              var bytes := Returned(old(dir.disk), CallFor(request, before, recapture), run, recompile);
              && (lock.Some? <==> bytes.Some?)
              && (lock.Some? ==>
                    && bytes.value.Text?
                    && LockRecords.BuildLock(bytes.value.text, request.excludeNewer) == LockRecords.Built(lock.value))
  {
    var call, answer := CallFor(request, before, recapture), Refused(NotRecovered);
    answer, committed := CompileCandidateLock(dir, call, run, recompile);
    if answer.Refused? { return None, committed; }
    assert Builds(request, answer.lock);
    assert CallReturns(old(dir.disk), dir.disk, call, committed, answer) && answer.lock.Text?;
    lock := Some(LockRecords.BuildLock(answer.lock.text, request.excludeNewer).lock);
  }
}
