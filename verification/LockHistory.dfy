/**
 * What the candidate-lock transaction promises over whole histories: any number of callers,
 * interleaved and dying anywhere, with power losses in between.
 */
module LockHistory {
  import opened Wrappers
  import opened DurableDirectory
  import opened CandidateTransaction
  import opened LockCompiler

  // --- one call, one crash ------------------------------------------------------------------

  // A process death keeps the disk; a power loss keeps one listing and the durable files.
  ghost predicate Crash(d: ArtifactDisk, after: ArtifactDisk) { after == d || PowerLoss(d, after) }

  // Everything that can still come of `after` could already come of `found`, with the same files.
  ghost predicate Narrows(found: ArtifactDisk, after: ArtifactDisk) {
    && AllRecoverable(after) && Retains(found.nodes, after.nodes)
    && (AllEquipped(found) ==> AllEquipped(after))
    && forall i :: 0 <= i < |after.images| ==> Possible(found, Outcome(after.images[i], after.nodes))
  }

  lemma NarrowsTwice(a: ArtifactDisk, b: ArtifactDisk, c: ArtifactDisk)
    requires Narrows(a, b) && Narrows(b, c)
    ensures Narrows(a, c)
  {
    forall i | 0 <= i < |c.images|
      ensures Possible(a, Outcome(c.images[i], c.nodes))
    {
      var k :| 0 <= k < |b.images| && Outcome(b.images[k], b.nodes) == Outcome(c.images[i], c.nodes);
    }
  }

  // A power loss destroys nothing recovery relies on.
  lemma CrashNarrows(d: ArtifactDisk, after: ArtifactDisk)
    requires AllRecoverable(d) && Crash(d, after)
    ensures Narrows(d, after)
  {
    if after != d {
      var k :| 0 <= k < |d.images| && after.images == [d.images[k]];
      assert Recoverable(d.images[k], d.nodes);
      assert Outcome(d.images[k], after.nodes) == Outcome(d.images[k], d.nodes);
      if AllEquipped(d) { assert Equipped(d.images[k], d.nodes); }
    }
  }

  /**
   * Crash atomicity. A call is cut off at any disk d it passes through, by a process death or a
   * power loss. Recovery then restores either a pair that a crash could already have led to when
   * the call began, or the complete pair this call published. If all listings agreed on the
   * frozen pair when the call began, that is this pair, file by file and unchanged.
   */
  lemma CrashAtomicity(
    found: ArtifactDisk, d: ArtifactDisk, after: ArtifactDisk, call: Call, committed: Option<Publication>)
    requires AllRecoverable(found)
    requires CallReaches(found, d, call, committed) && Crash(d, after)
    ensures AllRecoverable(after)
    ensures Possible(found, CurrentOutcome(after)) || PublishedAs(committed, CurrentOutcome(after), after.nodes)
    ensures forall prior, a :: AgreedOn(found, prior) && prior.Of(a).Some? ==>
            Untouched(found, after, prior.Of(a).value)
    ensures forall prior :: AgreedOn(found, prior) ==>
              CurrentOutcome(after) == prior || PublishedAs(committed, CurrentOutcome(after), after.nodes)
  {
    CrashNarrows(d, after);
    assert Possible(d, Outcome(after.images[|after.images| - 1], after.nodes));
    forall prior, a | AgreedOn(found, prior) && prior.Of(a).Some?
      ensures Untouched(found, after, prior.Of(a).value)
    {
      assert Recoverable(found.images[0], found.nodes);
    }
  }

  // A durable file that is still the same file.
  ghost predicate Untouched(found: ArtifactDisk, after: ArtifactDisk, inode: nat) {
    && inode < |found.nodes| <= |after.nodes|
    && found.nodes[inode].Solid() && after.nodes[inode] == found.nodes[inode]
  }

  // --- interrupted recoveries ---------------------------------------------------------------

  // Each disk is what a crash left of a recovery started on the one before it.
  ghost predicate Interrupted(ds: seq<ArtifactDisk>) {
    && |ds| > 0 && AllRecoverable(ds[0])
    && forall i :: 0 <= i < |ds| - 1 ==> InterruptedOnce(ds[i], ds[i + 1])
  }

  ghost predicate InterruptedOnce(found: ArtifactDisk, after: ArtifactDisk) {
    && |found.images| > 0
    && exists d :: RecoveryReaches(found, d, CurrentOutcome(found)) && Crash(d, after)
  }

  // Any number of interrupted recoveries only ever narrows what was possible at the start.
  lemma {:induction false} InterruptionsNarrow(ds: seq<ArtifactDisk>)
    requires Interrupted(ds)
    ensures Narrows(ds[0], ds[|ds| - 1])
    decreases |ds|
  {
    if |ds| > 1 {
      var n := |ds| - 1;
      InterruptionsNarrow(ds[..n]);
      assert InterruptedOnce(ds[n - 1], ds[n - 1 + 1]);
      var d :| RecoveryReaches(ds[n - 1], d, CurrentOutcome(ds[n - 1])) && Crash(d, ds[n]);
      CrashNarrows(d, ds[n]);
      assert Narrows(ds[n - 1], d);
      NarrowsTwice(ds[n - 1], d, ds[n]);
      NarrowsTwice(ds[0], ds[n - 1], ds[n]);
    }
  }

  ghost predicate AlwaysEndsAs(start: ArtifactDisk, pair: Pair) {
    forall ds: seq<ArtifactDisk> :: Interrupted(ds) && ds[0] == start ==>
      |ds[|ds| - 1].images| > 0 && CurrentOutcome(ds[|ds| - 1]) == pair
  }

  /**
   * Recovery is restartable: the pair that one complete recovery restores after any number of
   * recoveries cut off anywhere is the same for all of them, exactly when every listing that
   * could be on storage at the start agrees on it. A machine that has just rebooted has only
   * one listing, so there it always is.
   */
  lemma RestartableExactlyWhenAgreed(start: ArtifactDisk, pair: Pair)
    requires AllRecoverable(start)
    ensures AlwaysEndsAs(start, pair) <==> AgreedOn(start, pair)
  {
    if AgreedOn(start, pair) {
      forall ds: seq<ArtifactDisk> | Interrupted(ds) && ds[0] == start
        ensures |ds[|ds| - 1].images| > 0 && CurrentOutcome(ds[|ds| - 1]) == pair
      {
        InterruptionsNarrow(ds);
        var last := ds[|ds| - 1];
        assert Possible(start, Outcome(last.images[|last.images| - 1], last.nodes));
      }
    }
    if AlwaysEndsAs(start, pair) {
      forall i | 0 <= i < |start.images|
        ensures Outcome(start.images[i], start.nodes) == pair
      {
        var after := start.(images := [start.images[i]]);
        assert PowerLoss(start, after);
        assert RecoveryReaches(start, start, CurrentOutcome(start));
        assert InterruptedOnce(start, after);
        assert Interrupted([start, after]);
        assert [start, after][1] == after;
      }
    }
  }

  /**
   * Listings can disagree. A commit that has cleared the marker and not yet fsynced the directory
   * is in a recoverable state from which interrupted recoveries do not always end in one pair.
   */
  lemma UnsyncedCommitDisagrees(d: ArtifactDisk, prior: Pair, next: Publication, pair: Pair)
    requires AllRecoverable(d) && |d.images| == 1 && InTransaction(d.Current(), d.nodes, prior)
    requires Canonical(d) == next.pair && next.pair != prior && Complete(next.pair, d.nodes, next.request, next.lock)
    ensures AllRecoverable(d.Unbound(Marker)) && !AlwaysEndsAs(d.Unbound(Marker), pair)
  {
    var after := d.Unbound(Marker);
    assert Recoverable(d.Current(), d.nodes) && d.images[0] == d.Current();
    assert Lookup(after.images[1], Lock) == next.pair.lock && Lookup(after.images[1], Receipt) == next.pair.receipt;
    assert Outcome(after.images[0], after.nodes) == prior;
    assert Outcome(after.images[1], after.nodes) == next.pair;
    RestartableExactlyWhenAgreed(after, pair);
  }

  // --- any number of callers ----------------------------------------------------------------

  type Caller = nat

  datatype Phase = Outside | Inside(found: ArtifactDisk)

  // A publication as it was entered when it first became a possible outcome, and the call that
  // published it.
  datatype Entry = Entry(publication: Publication, call: Call)

  /**
   * `flock` is the exclusive lock on the resolution lock file, `gone` the callers that have
   * returned, failed or died, and `authors` says which caller created each node.
   */
  datatype System = System(
    disk: ArtifactDisk, callers: map<Caller, Phase>, flock: Option<Caller>, gone: set<Caller>,
    authors: seq<Caller>, ledger: seq<Entry>)

  datatype Step =
    | Arrive(caller: Caller)
    | Acquire(caller: Caller)
    | Work(caller: Caller, d: ArtifactDisk, call: Call, committed: Option<Publication>)
    | Return(caller: Caller, call: Call, committed: Option<Publication>, answer: Answer)
    | Exit(caller: Caller)   // a failure or a death, at any step
    | Blackout(d: ArtifactDisk)

  ghost function Enter(ledger: seq<Entry>, d: ArtifactDisk, committed: Option<Publication>, call: Call): seq<Entry> {
    if committed.Some? && Possible(d, committed.value.pair) then ledger + [Entry(committed.value, call)] else ledger
  }

  // The caller is gone, and the lock with it if it held it.
  function Left(s: System, c: Caller): System {
    s.(callers := s.callers - {c}, gone := s.gone + {c}, flock := if s.flock == Some(c) then None else s.flock)
  }

  // The first `kept` nodes keep their author; the ones up to `total` are the caller's.
  function Attributed(authors: seq<Caller>, kept: nat, total: nat, caller: Caller): seq<Caller> {
    seq(total, i requires 0 <= i => if i < kept && i < |authors| then authors[i] else caller)
  }

  /**
   * Callers interleave freely. Only the caller holding the lock works on the directory, and what
   * it can have made of it at any moment, and when it returns, is what CompileCandidateLock
   * proves of each of its calls.
   */
  ghost predicate Next(s: System, step: Step, t: System) {
    match step
    case Arrive(c) =>
      && c !in s.callers && c !in s.gone
      && t == s.(callers := s.callers[c := Outside])
    case Acquire(c) =>
      && c in s.callers && s.callers[c].Outside? && s.flock.None?
      && t == s.(callers := s.callers[c := Inside(s.disk)], flock := Some(c))
    case Work(c, d, call, committed) =>
      && c in s.callers && s.callers[c].Inside?
      && var found := s.callers[c].found;
      && Genuine(call) && CallReaches(found, d, call, committed)
      && t == s.(disk := d,
                 authors := Attributed(s.authors, |found.nodes|, |d.nodes|, c),
                 ledger := Enter(s.ledger, d, committed, call))
    case Return(c, call, committed, answer) =>
      && c in s.callers && s.callers[c].Inside?
      && Genuine(call) && CallReturns(s.callers[c].found, s.disk, call, committed, answer)
      && t == Left(s, c)
    case Exit(c) =>
      && c in s.callers
      && t == Left(s, c)
    case Blackout(d) =>
      && PowerLoss(s.disk, d)
      && t == s.(disk := d, callers := map[], gone := s.gone + s.callers.Keys, flock := None)
  }

  // An empty artifact directory nobody has worked on.
  ghost predicate Initial(s: System) {
    && s.disk == Disk([map[]], []) && s.authors == [] && s.ledger == []
    && s.callers == map[] && s.flock.None? && s.gone == {}
  }

  ghost predicate RunFrom(states: seq<System>, steps: seq<Step>) {
    && |states| == |steps| + 1
    && forall i :: 0 <= i < |steps| ==> Next(states[i], steps[i], states[i + 1])
  }

  ghost predicate Run(states: seq<System>, steps: seq<Step>) { RunFrom(states, steps) && Initial(states[0]) }

  // The pair is empty, or some entry vouches for both of its files.
  ghost predicate Backed(pair: Pair, nodes: Nodes, ledger: seq<Entry>) {
    || pair == Pair(None, None)
    || exists e :: e in ledger && VouchedBy(pair, nodes, e)
  }

  ghost predicate VouchedBy(pair: Pair, nodes: Nodes, e: Entry) {
    && e.publication.pair == pair
    && Complete(pair, nodes, e.publication.request, e.publication.lock)
    && e.publication.request == e.call.request
    && e.publication.identity == e.call.before && e.call.recapture == Some(e.call.before)
    && Genuine(e.call) && e.call.builds(e.publication.lock)
  }

  ghost predicate AllBacked(d: ArtifactDisk, ledger: seq<Entry>) {
    && AllRecoverable(d) && AllEquipped(d)
    && forall i :: 0 <= i < |d.images| ==> Backed(Outcome(d.images[i], d.nodes), d.nodes, ledger)
  }

  ghost predicate Inv(s: System) {
    && AllBacked(s.disk, s.ledger)
    && |s.authors| == |s.disk.nodes|
    && (forall i :: 0 <= i < |s.authors| ==> s.authors[i] in s.gone || s.flock == Some(s.authors[i]))
    && (forall c :: c in s.callers ==> c !in s.gone && (s.callers[c].Inside? <==> s.flock == Some(c)))
    && (s.flock.Some? ==>
          && s.flock.value in s.callers
          && var found := s.callers[s.flock.value].found;
          && AllBacked(found, s.ledger)
          && |found.nodes| <= |s.authors|
          && forall i :: 0 <= i < |found.nodes| ==> s.authors[i] in s.gone)
  }

  lemma BackedStays(pair: Pair, nodes: Nodes, after: Nodes, ledger: seq<Entry>, more: seq<Entry>)
    requires Backed(pair, nodes, ledger) && Retains(nodes, after) && ledger <= more
    ensures Backed(pair, after, more)
  {
    if pair != Pair(None, None) {
      var e :| e in ledger && VouchedBy(pair, nodes, e);
      assert VouchedBy(pair, after, e);
    }
  }

  lemma AllBackedStays(d: ArtifactDisk, ledger: seq<Entry>, more: seq<Entry>)
    requires AllBacked(d, ledger) && ledger <= more
    ensures AllBacked(d, more)
  {
    forall i | 0 <= i < |d.images| ensures Backed(Outcome(d.images[i], d.nodes), d.nodes, more) {
      BackedStays(Outcome(d.images[i], d.nodes), d.nodes, d.nodes, ledger, more);
    }
  }

  lemma NarrowingKeepsBacked(found: ArtifactDisk, d: ArtifactDisk, ledger: seq<Entry>)
    requires AllBacked(found, ledger) && Narrows(found, d)
    ensures AllBacked(d, ledger)
  {
    forall i | 0 <= i < |d.images| ensures Backed(Outcome(d.images[i], d.nodes), d.nodes, ledger) {
      var k :| 0 <= k < |found.images| && Outcome(found.images[k], found.nodes) == Outcome(d.images[i], d.nodes);
      BackedStays(Outcome(d.images[i], d.nodes), found.nodes, d.nodes, ledger, ledger);
    }
  }

  lemma WorkKeepsBacked(
    found: ArtifactDisk, d: ArtifactDisk, call: Call, committed: Option<Publication>, ledger: seq<Entry>)
    requires AllBacked(found, ledger) && Genuine(call) && CallReaches(found, d, call, committed)
    ensures AllBacked(d, Enter(ledger, d, committed, call))
  {
    var more := Enter(ledger, d, committed, call);
    forall i | 0 <= i < |d.images| ensures Backed(Outcome(d.images[i], d.nodes), d.nodes, more) {
      var o := Outcome(d.images[i], d.nodes);
      if Possible(found, o) {
        var k :| 0 <= k < |found.images| && Outcome(found.images[k], found.nodes) == o;
        BackedStays(o, found.nodes, d.nodes, ledger, more);
      } else {
        var e := Entry(committed.value, call);
        assert e in more && VouchedBy(o, d.nodes, e);
      }
    }
  }

  lemma NextKeepsInv(s: System, step: Step, t: System)
    requires Inv(s) && Next(s, step, t)
    ensures Inv(t)
  {
    match step
    case Work(c, d, call, committed) =>
      var found := s.callers[c].found;
      WorkKeepsBacked(found, d, call, committed, s.ledger);
      AllBackedStays(found, s.ledger, t.ledger);
    case Blackout(d) =>
      CrashNarrows(s.disk, d);
      NarrowingKeepsBacked(s.disk, d, s.ledger);
    case _ =>
  }

  lemma {:induction false} RunKeepsInv(states: seq<System>, steps: seq<Step>)
    requires Run(states, steps)
    ensures forall i :: 0 <= i < |states| ==> Inv(states[i])
    decreases |steps|
  {
    if |steps| == 0 {
      assert Outcome(map[], []) == Pair(None, None);
    } else {
      var n := |steps| - 1;
      RunKeepsInv(states[..n + 1], steps[..n]);
      assert Next(states[n], steps[n], states[n + 1]);
      assert states[..n + 1][n] == states[n];
      NextKeepsInv(states[n], steps[n], states[n + 1]);
      forall i | 0 <= i < |states| ensures Inv(states[i]) {
        if i <= n { assert states[..n + 1][i] == states[i]; }
      }
    }
  }

  /**
   * Exclusion. Whenever a caller is inside its critical section, every other caller is outside,
   * a marker it found belongs to a caller that is gone, and a marker present now is its own or
   * that of a caller that is gone. So recovery only ever rolls back dead transactions, and at
   * most one transaction is live.
   */
  lemma RecoveryOnlyMeetsTheDead(states: seq<System>, steps: seq<Step>, i: nat, c: Caller)
    requires Run(states, steps) && i < |states|
    requires c in states[i].callers && states[i].callers[c].Inside?
    ensures forall other :: other in states[i].callers && other != c ==> states[i].callers[other].Outside?
    ensures AllRecoverable(states[i].callers[c].found) && AllRecoverable(states[i].disk)
    ensures var m := Lookup(states[i].callers[c].found.Current(), Marker);
            m.Some? ==> m.value < |states[i].authors| && states[i].authors[m.value] in states[i].gone
    ensures var m := Lookup(states[i].disk.Current(), Marker);
            m.Some? ==> m.value < |states[i].authors|
                        && (states[i].authors[m.value] == c || states[i].authors[m.value] !in states[i].callers)
  {
    RunKeepsInv(states, steps);
    var s := states[i];
    assert Recoverable(s.callers[c].found.Current(), s.callers[c].found.nodes);
    assert Recoverable(s.disk.Current(), s.disk.nodes);
  }

  /**
   * While a marker is on storage, in whichever listing survives, every artifact it records as
   * existing is a durable file under its canonical or its rollback name, and it is the one
   * recovery will restore.
   */
  lemma MarkedArtifactsAreIntact(states: seq<System>, steps: seq<Step>, i: nat, k: nat, a: Artifact)
    requires Run(states, steps) && i < |states| && k < |states[i].disk.images|
    requires var flags := MarkerFlags(states[i].disk.images[k], states[i].disk.nodes); flags.Some? && flags.value.Of(a)
    ensures var image, nodes := states[i].disk.images[k], states[i].disk.nodes;
            var kept := Outcome(image, nodes).Of(a);
            && kept.Some? && SolidAt(kept, nodes)
            && (Lookup(image, a.Canonical()) == kept || Lookup(image, a.Rollback()) == kept)
  {
    RunKeepsInv(states, steps);
    assert Inv(states[i]);
    assert Recoverable(states[i].disk.images[k], states[i].disk.nodes);
  }

  /**
   * The step of a working caller that published the entry: the pair, which no crash could have
   * led to on the disk the caller found, became possible and is complete, its receipt is a file
   * the caller created, and production identity was the same before and after.
   */
  ghost predicate PublishesEntry(s: System, step: Step, e: Entry) {
    && step.Work? && step.committed == Some(e.publication) && step.call == e.call
    && step.caller in s.callers && s.callers[step.caller].Inside?
    && var found, p := s.callers[step.caller].found, e.publication;
    && CallReaches(found, step.d, step.call, step.committed) && MayPublish(found, step.call, p)
    && !Possible(found, p.pair) && Possible(step.d, p.pair) && Complete(p.pair, step.d.nodes, p.request, p.lock)
  }

  lemma NewFilesAreNew(found: ArtifactDisk, pair: Pair)
    requires AllRecoverable(found) && pair.receipt.Some? && pair.receipt.value >= |found.nodes|
    ensures !Possible(found, pair)
  {
    forall k | 0 <= k < |found.images| ensures Outcome(found.images[k], found.nodes) != pair {
      assert Recoverable(found.images[k], found.nodes);
    }
  }

  lemma NewEntryIsPublished(s: System, step: Step, t: System, e: Entry)
    requires Inv(s) && Next(s, step, t) && e in t.ledger && e !in s.ledger
    ensures PublishesEntry(s, step, e)
  {
    var found, p := s.callers[step.caller].found, e.publication;
    NewFilesAreNew(found, p.pair);
    var i :| 0 <= i < |step.d.images| && Outcome(step.d.images[i], step.d.nodes) == p.pair;
    assert PublishedAs(step.committed, p.pair, step.d.nodes);
  }

  // Every ledger entry was put there by a working caller whose resolution published it.
  lemma {:induction false} EntriesWerePublished(states: seq<System>, steps: seq<Step>, i: nat, e: Entry)
    requires Run(states, steps) && i < |states| && e in states[i].ledger
    ensures exists j :: 0 <= j < i && PublishesEntry(states[j], steps[j], e)
    decreases i
  {
    RunKeepsInv(states, steps);
    if i > 0 {
      assert Next(states[i - 1], steps[i - 1], states[i - 1 + 1]);
      if e in states[i - 1].ledger {
        EntriesWerePublished(states, steps, i - 1, e);
      } else {
        assert Inv(states[i - 1]);
        NewEntryIsPublished(states[i - 1], steps[i - 1], states[i], e);
      }
    }
  }

  // Some step before i published the pair, with these very files.
  ghost predicate WasPublished(states: seq<System>, steps: seq<Step>, i: nat, pair: Pair, nodes: Nodes, e: Entry)
    requires i <= |steps| < |states|
  {
    VouchedBy(pair, nodes, e) && exists j :: 0 <= j < i && PublishesEntry(states[j], steps[j], e)
  }

  /**
   * In every reachable state, whichever listing survives, recovery leads to nothing at all or to
   * one complete pair that an earlier step published after its lock was parsed into accepted
   * records and production identity was found unchanged; and the canonical requirements input,
   * which acceptance asks for, is durable in that listing.
   */
  lemma EveryListingWasPublished(states: seq<System>, steps: seq<Step>, i: nat, k: nat)
    requires Run(states, steps) && i < |states| && k < |states[i].disk.images|
    ensures var pair := Outcome(states[i].disk.images[k], states[i].disk.nodes);
            || pair == Pair(None, None)
            || exists e :: && WasPublished(states, steps, i, pair, states[i].disk.nodes, e)
                           && Builds(e.publication.request, e.publication.lock)
    ensures Equipped(states[i].disk.images[k], states[i].disk.nodes)
  {
    RunKeepsInv(states, steps);
    assert Inv(states[i]) && AllEquipped(states[i].disk);
    var pair := Outcome(states[i].disk.images[k], states[i].disk.nodes);
    BackedWasPublished(states, steps, i, pair, states[i].disk.nodes);
    if pair != Pair(None, None) {
      var e :| WasPublished(states, steps, i, pair, states[i].disk.nodes, e);
      GenuineBuilds(e.call, e.publication.lock);
    }
  }

  lemma BackedWasPublished(states: seq<System>, steps: seq<Step>, i: nat, pair: Pair, nodes: Nodes)
    requires Run(states, steps) && i < |states| && Backed(pair, nodes, states[i].ledger)
    ensures pair == Pair(None, None) || exists e :: WasPublished(states, steps, i, pair, nodes, e)
  {
    if pair != Pair(None, None) {
      var e :| e in states[i].ledger && VouchedBy(pair, nodes, e);
      EntriesWerePublished(states, steps, i, e);
      assert WasPublished(states, steps, i, pair, nodes, e);
    }
  }

  /**
   * Provenance. Over every history of calls, failures, rollbacks and crashes, a lock that a caller
   * returns without resolving is the lock of a pair that an earlier step published, for this very
   * request, after finding production identity unchanged.
   */
  lemma AcceptedWasCommitted(states: seq<System>, steps: seq<Step>, i: nat)
    requires Run(states, steps) && i < |steps| && steps[i].Return? && steps[i].answer.Accepted?
    ensures steps[i].caller in states[i].callers && states[i].callers[steps[i].caller].Inside?
    ensures var found := states[i].callers[steps[i].caller].found;
            && |found.images| > 0
            && exists e :: WasPublished(states, steps, i, CurrentOutcome(found), found.nodes, e)
                           && e.publication.request == steps[i].call.request
                           && e.publication.lock == steps[i].answer.lock
  {
    RunKeepsInv(states, steps);
    assert Inv(states[i]) && Next(states[i], steps[i], states[i + 1]);
    var found := states[i].callers[steps[i].caller].found;
    assert Backed(Outcome(found.images[|found.images| - 1], found.nodes), found.nodes, states[i].ledger);
    BackedWasPublished(states, steps, i, CurrentOutcome(found), found.nodes);
    var e :| WasPublished(states, steps, i, CurrentOutcome(found), found.nodes, e);
    assert e.publication.request == steps[i].call.request && e.publication.lock == steps[i].answer.lock;
  }
}
