/**
 * The freeze itself: once a lock is frozen, every later lock has the same bytes. When that holds
 * of a lock a caller was given, and the one window in which it does not.
 */
module LockFreeze {
  import opened Wrappers
  import opened DurableDirectory
  import opened CandidateTransaction
  import opened LockCompiler
  import opened LockHistory
  import BuildableLocks
  import LockRecords
  import LockRoundTrip
  import Versions

  // Whatever listing survives, recovery leads to a pair with this lock.
  ghost predicate AllLocked(d: ArtifactDisk, lock: Content) {
    && |d.images| > 0
    && forall i :: 0 <= i < |d.images| ==> HasLock(Outcome(d.images[i], d.nodes), d.nodes, lock)
  }

  // The step hands out a lock with other bytes.
  ghost predicate ReturnsOther(step: Step, lock: Content) {
    step.Return? && !step.answer.Refused? && step.answer.lock != lock
  }

  // From this state on, in every history, only this lock is handed out.
  ghost predicate StaysFrozen(s: System, lock: Content) {
    forall states: seq<System>, steps: seq<Step>, j ::
      RunFrom(states, steps) && states[0] == s && 0 <= j < |steps| ==> !ReturnsOther(steps[j], lock)
  }

  // --- a frozen lock stays ------------------------------------------------------------------

  ghost predicate FrozenInv(s: System, lock: Content) {
    && AllRecoverable(s.disk) && AllLocked(s.disk, lock)
    && forall c :: c in s.callers && s.callers[c].Inside? ==>
         AllRecoverable(s.callers[c].found) && AllLocked(s.callers[c].found, lock)
  }

  lemma WorkKeepsLocked(
    found: ArtifactDisk, d: ArtifactDisk, call: Call, committed: Option<Publication>, lock: Content)
    requires AllRecoverable(found) && AllLocked(found, lock) && CallReaches(found, d, call, committed)
    ensures AllRecoverable(d) && AllLocked(d, lock)
  {
    assert HasLock(Outcome(found.images[|found.images| - 1], found.nodes), found.nodes, lock);
    forall i | 0 <= i < |d.images| ensures HasLock(Outcome(d.images[i], d.nodes), d.nodes, lock) {
      if Possible(found, Outcome(d.images[i], d.nodes)) {
        var k :| 0 <= k < |found.images| && Outcome(found.images[k], found.nodes) == Outcome(d.images[i], d.nodes);
        assert HasLock(Outcome(found.images[k], found.nodes), found.nodes, lock);
      }
    }
  }

  lemma CrashKeepsLocked(d: ArtifactDisk, after: ArtifactDisk, lock: Content)
    requires AllRecoverable(d) && AllLocked(d, lock) && PowerLoss(d, after)
    ensures AllRecoverable(after) && AllLocked(after, lock)
  {
    CrashNarrows(d, after);
    forall i | 0 <= i < |after.images| ensures HasLock(Outcome(after.images[i], after.nodes), after.nodes, lock) {
      var k :| 0 <= k < |d.images| && Outcome(d.images[k], d.nodes) == Outcome(after.images[i], after.nodes);
      assert HasLock(Outcome(d.images[k], d.nodes), d.nodes, lock);
    }
  }

  lemma NextKeepsFrozen(s: System, step: Step, t: System, lock: Content)
    requires FrozenInv(s, lock) && Next(s, step, t)
    ensures FrozenInv(t, lock) && !ReturnsOther(step, lock)
  {
    match step
    case Work(c, d, call, committed) => WorkKeepsLocked(s.callers[c].found, d, call, committed, lock);
    case Blackout(d) => CrashKeepsLocked(s.disk, d, lock);
    case Return(c, call, committed, answer) => ReturnKeepsFrozen(s, c, call, committed, answer, lock);
    case _ =>
  }

  lemma ReturnKeepsFrozen(
    s: System, c: Caller, call: Call, committed: Option<Publication>, answer: Answer, lock: Content)
    requires FrozenInv(s, lock) && c in s.callers && s.callers[c].Inside?
    requires CallReturns(s.callers[c].found, s.disk, call, committed, answer)
    ensures !answer.Refused? && answer.lock == lock
  {
    var d := if answer.Accepted? then s.callers[c].found else s.disk;
    assert HasLock(Outcome(d.images[|d.images| - 1], d.nodes), d.nodes, lock);
  }

  lemma {:induction false} RunKeepsFrozen(states: seq<System>, steps: seq<Step>, lock: Content, j: nat)
    requires RunFrom(states, steps) && FrozenInv(states[0], lock) && j < |states|
    ensures FrozenInv(states[j], lock)
    ensures j < |steps| ==> !ReturnsOther(steps[j], lock)
  {
    if j > 0 {
      RunKeepsFrozen(states, steps, lock, j - 1);
      assert Next(states[j - 1], steps[j - 1], states[j - 1 + 1]);
      NextKeepsFrozen(states[j - 1], steps[j - 1], states[j], lock);
    }
    if j < |steps| {
      assert Next(states[j], steps[j], states[j + 1]);
      NextKeepsFrozen(states[j], steps[j], states[j + 1], lock);
    }
  }

  // --- otherwise it can be lost -------------------------------------------------------------

  lemma {:induction false} FreshCaller(gone: set<Caller>) returns (c: Caller)
    ensures forall g :: g in gone ==> g < c
  {
    if gone == {} {
      c := 0;
    } else {
      var g :| g in gone;
      var below := FreshCaller(gone - {g});
      c := if below > g then below else g + 1;
      assert forall h :: h in gone ==> h == g || h in gone - {g};
    }
  }

  lemma ExtendFrom(states: seq<System>, steps: seq<Step>, step: Step, t: System)
    requires RunFrom(states, steps) && Next(states[|steps|], step, t)
    ensures RunFrom(states + [t], steps + [step])
  {
  }

  // After a blackout that leaves the disk d, a new caller can come, work and return.
  lemma OneMoreReturn(
    s: System, c: Caller, d: ArtifactDisk, after: ArtifactDisk,
    call: Call, committed: Option<Publication>, answer: Answer)
    requires PowerLoss(s.disk, d) && c !in s.gone && c !in s.callers
    requires Genuine(call)
    requires CallReaches(d, after, call, committed) && CallReturns(d, after, call, committed, answer)
    ensures exists states: seq<System>, steps: seq<Step>, j ::
              RunFrom(states, steps) && states[0] == s && 0 <= j < |steps|
              && steps[j] == Return(c, call, committed, answer)
  {
    var t1 := s.(disk := d, callers := map[], gone := s.gone + s.callers.Keys, flock := None);
    ExtendFrom([s], [], Blackout(d), t1);
    var t2 := t1.(callers := map[c := Outside]);
    ExtendFrom([s] + [t1], [Blackout(d)], Arrive(c), t2);
    var t3 := t2.(callers := map[c := Inside(d)], flock := Some(c));
    var states, steps := [s] + [t1] + [t2], [Blackout(d)] + [Arrive(c)];
    ExtendFrom(states, steps, Acquire(c), t3);
    WorkAndReturn(states + [t3], steps + [Acquire(c)], c, d, after, call, committed, answer);
  }

  lemma WorkAndReturn(
    states: seq<System>, steps: seq<Step>, c: Caller, d: ArtifactDisk, after: ArtifactDisk,
    call: Call, committed: Option<Publication>, answer: Answer)
    requires RunFrom(states, steps)
    requires states[|steps|].callers == map[c := Inside(d)] && states[|steps|].flock == Some(c)
    requires Genuine(call)
    requires CallReaches(d, after, call, committed) && CallReturns(d, after, call, committed, answer)
    ensures exists states': seq<System>, steps': seq<Step>, j ::
              RunFrom(states', steps') && states'[0] == states[0] && 0 <= j < |steps'|
              && steps'[j] == Return(c, call, committed, answer)
  {
    var s := states[|steps|];
    var t := s.(disk := after, authors := Attributed(s.authors, |d.nodes|, |after.nodes|, c),
                ledger := Enter(s.ledger, after, committed, call));
    var work := Work(c, after, call, committed);
    ExtendFrom(states, steps, work, t);
    var states1, steps1 := states + [t], steps + [work];
    var return_ := Return(c, call, committed, answer);
    ExtendFrom(states1, steps1, return_, Left(t, c));
    assert (steps1 + [return_])[|steps1|] == return_;
  }

  // --- what one call makes of the disk it finds ---------------------------------------------

  // The listing recovery leaves: the pair under its canonical names, and what is none of its business.
  function RecoveredListing(image: Listing, pair: Pair): Listing {
    (map n | n in image && !Core(n) && !n.Quarantine? :: image[n])
    + (if pair.lock.Some? then map[Lock := pair.lock.value] else map[])
    + (if pair.receipt.Some? then map[Receipt := pair.receipt.value] else map[])
  }

  // It is the one listing RecoverInterrupted can complete with.
  lemma RecoveryLeaves(found: Listing, image: Listing, pair: Pair)
    requires Settled(image, pair) && Residue(image) == {} && OthersKept(found, image)
    ensures image == RecoveredListing(found, pair)
  {
    var recovered := RecoveredListing(found, pair);
    forall n ensures n in image <==> n in recovered
             ensures n in image ==> image[n] == recovered[n]
    {
      assert Lookup(image, n).Some? <==> n in image;
      if n.Quarantine? {
        assert n !in Residue(image);
      } else if !Core(n) {
        assert Lookup(image, n) == Lookup(found, n);
      }
    }
  }

  function Recovered(d: ArtifactDisk): ArtifactDisk
    requires |d.images| > 0
  {
    d.Then(RecoveredListing(d.Current(), CurrentOutcome(d)))
  }

  lemma RecoveredIs(d: ArtifactDisk)
    requires AllRecoverable(d)
    ensures var image, pair := Recovered(d).Current(), CurrentOutcome(d);
            && Settled(image, pair) && OthersKept(d.Current(), image)
            && (forall n :: n in image ==> image[n] < |d.nodes|) && Outcome(image, d.nodes) == pair
  {
    assert Recoverable(d.Current(), d.nodes);
  }

  // _write_artifact without faults: a durable temporary is renamed onto the name.
  function Written(d: ArtifactDisk, name: Name, content: Content): ArtifactDisk
    requires |d.images| > 0
  {
    d.Added(File(content, true)).Bound(Temporary(name), |d.nodes|).Moved(Temporary(name), name)
  }

  // _ensure_cache_directory
  function Cached(d: ArtifactDisk): ArtifactDisk
    requires |d.images| > 0
  {
    if Cache in d.Current() then d else d.Added(NonRegular).Bound(Cache, |d.nodes|)
  }

  /**
   * What a call that finds no pair has made of the disk when its commit has cleared the marker
   * and not yet fsynced the directory, if nothing failed before and the resolver wrote this lock.
   */
  function Window(d: ArtifactDisk, call: Call, lock: Content): ArtifactDisk
    requires |d.images| > 0
  {
    var begun := Written(Recovered(d), Marker, EncodeMarker(Flags(false, false))).Synced();
    var prepared := Cached(Written(begun, Requirements, REQUIREMENTS_INPUT));
    var resolved := prepared.Added(File(lock, true)).Bound(Lock, |prepared.nodes|);
    Written(resolved, Receipt, ReceiptFor(call.request, lock)).Synced().Unbound(Marker)
  }

  // One more node, under this name; temporaries aside nothing else changes.
  ghost predicate Grows(before: ArtifactDisk, after: ArtifactDisk, name: Name, node: Node<Content>) {
    && |before.images| > 0 && |after.images| > 0 && after.nodes == before.nodes + [node]
    && Lookup(after.Current(), name) == Some(|before.nodes|)
    && (forall n :: n != name && !n.Temporary? ==> Lookup(after.Current(), n) == Lookup(before.Current(), n))
    && (InBounds(before) ==> InBounds(after))
  }

  ghost predicate InBounds(d: ArtifactDisk)
    requires |d.images| > 0
  {
    forall n :: n in d.Current() ==> d.Current()[n] < |d.nodes|
  }

  lemma WrittenGrows(d: ArtifactDisk, name: Name, content: Content)
    requires |d.images| > 0 && !name.Temporary?
    ensures Grows(d, Written(d, name, content), name, File(content, true))
  {
    MovedLookups(d.Current()[Temporary(name) := |d.nodes|], Temporary(name), name);
  }

  // The same listing, fsynced or not.
  lemma GrowsSynced(before: ArtifactDisk, after: ArtifactDisk, name: Name, node: Node<Content>)
    requires Grows(before, after, name, node)
    ensures Grows(before, after.Synced(), name, node)
  {
  }

  lemma BoundGrows(d: ArtifactDisk, name: Name, node: Node<Content>)
    requires |d.images| > 0
    ensures Grows(d, d.Added(node).Bound(name, |d.nodes|), name, node)
  {
    var after := d.Added(node).Bound(name, |d.nodes|);
    if InBounds(d) {
      forall n | n in after.Current() ensures after.Current()[n] < |after.nodes| {
        assert n == name || n in d.Current();
      }
    }
  }

  // The listing of a transaction that has resolved a lock over nothing, and what clearing its
  // marker does.
  ghost predicate ReadyToCommit(d: ArtifactDisk, ready: ArtifactDisk, call: Call, lock: Content, pair: Pair) {
    && |ready.images| == 1 && InBounds(ready) && Retains(d.nodes, ready.nodes)
    && MarkerFlags(ready.Current(), ready.nodes) == Some(Flags(false, false))
    && ready.nodes[ready.Current()[Marker]].Solid()
    && Lookup(ready.Current(), LockRollback).None? && Lookup(ready.Current(), ReceiptRollback).None?
    && Canonical(ready) == pair && Complete(pair, ready.nodes, call.request, lock)
    && RequirementsFrozen(ready) && pair.receipt.value >= |d.nodes|
  }

  ghost predicate InWindow(d: ArtifactDisk, w: ArtifactDisk, call: Call, lock: Content, pair: Pair) {
    && |w.images| == 2 && AllRecoverable(w) && AllEquipped(w) && Retains(d.nodes, w.nodes)
    && Outcome(w.images[0], w.nodes) == Pair(None, None) && Outcome(w.images[1], w.nodes) == pair
    && Settled(w.Current(), pair) && Complete(pair, w.nodes, call.request, lock)
    && RequirementsFrozen(w) && pair.receipt.value >= |d.nodes|
  }

  lemma ReadyOpensWindow(d: ArtifactDisk, ready: ArtifactDisk, call: Call, lock: Content, pair: Pair)
    requires ReadyToCommit(d, ready, call, lock, pair)
    ensures InWindow(d, ready.Unbound(Marker), call, lock, pair)
  {
    var w := ready.Unbound(Marker);
    var m := ready.Current();
    assert w.images[0] == m && w.images[1] == m - {Marker};
    assert Outcome(m, w.nodes) == Pair(None, None);
    assert Lookup(m - {Marker}, Requirements) == Lookup(m, Requirements);
    assert Settled(m - {Marker}, pair) && Outcome(m - {Marker}, w.nodes) == pair;
  }

  // The stages of a call that finds no pair, up to the fsync before its marker is cleared.
  lemma StagesGrow(
    d: ArtifactDisk, d1: ArtifactDisk, d2: ArtifactDisk, d3: ArtifactDisk, d4: ArtifactDisk, d5: ArtifactDisk,
    call: Call, lock: Content)
    requires |d.images| > 0 && InBounds(d) && Settled(d.Current(), Pair(None, None))
    requires Grows(d, d1, Marker, File(EncodeMarker(Flags(false, false)), true))
    requires Grows(d1, d2, Requirements, File(REQUIREMENTS_INPUT, true))
    requires d3 == d2 || Grows(d2, d3, Cache, NonRegular)
    requires Grows(d3, d4, Lock, File(lock, true))
    requires Grows(d4, d5, Receipt, File(ReceiptFor(call.request, lock), true)) && |d5.images| == 1
    ensures ReadyToCommit(d, d5, call, lock, Pair(Some(|d3.nodes|), Some(|d4.nodes|)))
  {
    var n := |d.nodes|;
    assert Lookup(d5.Current(), Marker) == Some(n) && d5.nodes[n] == File(EncodeMarker(Flags(false, false)), true);
    assert Lookup(d5.Current(), Requirements) == Some(n + 1) && d5.nodes[n + 1] == File(REQUIREMENTS_INPUT, true);
    assert Lookup(d5.Current(), Lock) == Some(|d3.nodes|) && d5.nodes[|d3.nodes|] == File(lock, true);
    assert Lookup(d5.Current(), LockRollback) == Lookup(d.Current(), LockRollback);
    assert Lookup(d5.Current(), ReceiptRollback) == Lookup(d.Current(), ReceiptRollback);
    assert DecodeMarker(EncodeMarker(Flags(false, false))) == Flags(false, false);
  }

  lemma WindowIs(d: ArtifactDisk, call: Call, lock: Content) returns (pair: Pair)
    requires AllRecoverable(d) && CurrentOutcome(d) == Pair(None, None)
    ensures InWindow(d, Window(d, call, lock), call, lock, pair)
  {
    RecoveredIs(d);
    var d0 := Recovered(d);
    var marked := Written(d0, Marker, EncodeMarker(Flags(false, false)));
    WrittenGrows(d0, Marker, EncodeMarker(Flags(false, false)));
    GrowsSynced(d0, marked, Marker, File(EncodeMarker(Flags(false, false)), true));
    var d1 := marked.Synced();
    WrittenGrows(d1, Requirements, REQUIREMENTS_INPUT);
    var d2 := Written(d1, Requirements, REQUIREMENTS_INPUT);
    BoundGrows(d2, Cache, NonRegular);
    var d3 := Cached(d2);
    BoundGrows(d3, Lock, File(lock, true));
    var d4 := d3.Added(File(lock, true)).Bound(Lock, |d3.nodes|);
    WrittenGrows(d4, Receipt, ReceiptFor(call.request, lock));
    var written := Written(d4, Receipt, ReceiptFor(call.request, lock));
    GrowsSynced(d4, written, Receipt, File(ReceiptFor(call.request, lock), true));
    var d5 := written.Synced();
    pair := Pair(Some(|d3.nodes|), Some(|d4.nodes|));
    StagesGrow(d0, d1, d2, d3, d4, d5, call, lock);
    ReadyOpensWindow(d0, d5, call, lock, pair);
  }

  lemma WindowIsReached(d: ArtifactDisk, w: ArtifactDisk, call: Call, lock: Content, p: Publication)
    requires AllRecoverable(d) && CurrentOutcome(d) == Pair(None, None)
    requires InWindow(d, w, call, lock, p.pair) && call.builds(lock) && call.recapture == Some(call.before)
    requires p == Publication(p.pair, call.request, lock, call.before)
    ensures CallReaches(d, w, call, Some(p)) && CallReaches(d, w.Synced(), call, Some(p))
    ensures CallReturns(d, w.Synced(), call, Some(p), Resolved(lock))
    ensures CallReturns(w, w, call, None, Accepted(lock)) && Acceptable(w, call)
  {
    assert Possible(d, Pair(None, None)) by { assert Outcome(d.images[|d.images| - 1], d.nodes) == Pair(None, None); }
    assert w.Current() == w.images[1] && w.Synced().images[0] == w.images[1];
    assert PublishedAs(Some(p), p.pair, w.nodes);
    assert Faithful(d, w, Some(p));
    FaithfulSynced(d, w, Some(p));
  }

  // A complete pair can be accepted for its own request, and is if no system call fails.
  lemma BackedCanBeAccepted(d: ArtifactDisk, e: Entry)
    requires |d.images| == 1 && AllRecoverable(d) && AllEquipped(d) && VouchedBy(CurrentOutcome(d), d.nodes, e)
    ensures CallReaches(d, Recovered(d), e.call, None)
    ensures CallReturns(d, Recovered(d), e.call, None, Accepted(e.publication.lock)) && Acceptable(d, e.call)
  {
    var pair, image := CurrentOutcome(d), Recovered(d).Current();
    RecoveredIs(d);
    assert Recoverable(d.images[0], d.nodes) && Equipped(d.images[0], d.nodes) && d.images[0] == d.Current();
    assert Lookup(image, Requirements) == Lookup(d.Current(), Requirements);
    assert Possible(d, pair);
    assert Faithful(d, d, None) && Recoverable(image, d.nodes) && Equipped(image, d.nodes);
    FaithfulThen(d, d, image, None);
  }

  // A call that can come later: it checks its locks with _build_lock, its request is valid, and it
  // finds production identity unchanged.
  ghost predicate Viable(call: Call) {
    Genuine(call) && LockRecords.UtcForm(call.request.excludeNewer) && call.recapture == Some(call.before)
  }

  // Some lock with other bytes builds for the call.
  lemma OtherLock(call: Call, lock: Content) returns (other: Content)
    requires Viable(call)
    ensures other != lock && call.builds(other)
  {
    var one, two := Versions.Version(None, ["1"], None), Versions.Version(None, ["2"], None);
    var hash := seq(64, _ => '0');
    assert one.Text() == "1" && two.Text() == "2";
    BuildableLocks.PinsBuild(one, hash, call.request.excludeNewer);
    BuildableLocks.PinsBuild(two, hash, call.request.excludeNewer);
    BuildableLocks.PinsDiffer(one, two, hash);
    var first := LockRoundTrip.PrintLock(BuildableLocks.Pins(one.Text(), hash));
    var second := LockRoundTrip.PrintLock(BuildableLocks.Pins(two.Text(), hash));
    other := Text(if lock == Text(first) then second else first);
    assert Builds(call.request, other);
  }

  lemma NothingCanBeReplaced(s: System, c: Caller, d: ArtifactDisk, lock: Content, call: Call)
    requires PowerLoss(s.disk, d) && c !in s.gone && c !in s.callers
    requires AllRecoverable(d) && |d.images| == 1 && CurrentOutcome(d) == Pair(None, None) && Viable(call)
    ensures !StaysFrozen(s, lock)
  {
    var other := OtherLock(call, lock);
    var pair := WindowIs(d, call, other);
    var w, p := Window(d, call, other), Publication(pair, call.request, other, call.before);
    WindowIsReached(d, w, call, other, p);
    OneMoreReturn(s, c, d, w.Synced(), call, Some(p), Resolved(other));
  }

  lemma BackedCanBeReturned(s: System, c: Caller, d: ArtifactDisk, lock: Content, e: Entry)
    requires PowerLoss(s.disk, d) && c !in s.gone && c !in s.callers
    requires |d.images| == 1 && AllRecoverable(d) && AllEquipped(d) && VouchedBy(CurrentOutcome(d), d.nodes, e)
    requires !HasLock(CurrentOutcome(d), d.nodes, lock)
    ensures !StaysFrozen(s, lock)
  {
    BackedCanBeAccepted(d, e);
    OneMoreReturn(s, c, d, Recovered(d), e.call, None, Accepted(e.publication.lock));
  }

  lemma LostListing(s: System, lock: Content, i: nat, call: Call)
    requires Inv(s) && i < |s.disk.images| && Viable(call)
    requires !HasLock(Outcome(s.disk.images[i], s.disk.nodes), s.disk.nodes, lock)
    ensures !StaysFrozen(s, lock)
  {
    var d := s.disk.(images := [s.disk.images[i]]);
    assert PowerLoss(s.disk, d);
    CrashNarrows(s.disk, d);
    var pair := Outcome(s.disk.images[i], s.disk.nodes);
    assert Backed(pair, d.nodes, s.ledger) && CurrentOutcome(d) == pair;
    var c := FreshCaller(s.gone + s.callers.Keys);
    if pair == Pair(None, None) {
      NothingCanBeReplaced(s, c, d, lock, call);
    } else {
      var e :| e in s.ledger && VouchedBy(pair, d.nodes, e);
      BackedCanBeReturned(s, c, d, lock, e);
    }
  }

  /**
   * The freeze, exactly. In any reachable state in which no caller is inside, only this lock will
   * ever be handed out again, whatever callers, faults and crashes follow, if and only if every
   * listing that can be on storage leads to it. Given is one viable call, so that there is anything
   * to follow.
   */
  lemma FrozenExactlyWhenLocked(states: seq<System>, steps: seq<Step>, lock: Content, call: Call)
    requires Run(states, steps) && states[|steps|].flock.None? && Viable(call)
    ensures StaysFrozen(states[|steps|], lock) <==> AllLocked(states[|steps|].disk, lock)
  {
    RunKeepsInv(states, steps);
    var s := states[|steps|];
    assert Inv(s);
    if AllLocked(s.disk, lock) {
      forall after: seq<System>, more: seq<Step>, j
        | RunFrom(after, more) && after[0] == s && 0 <= j < |more|
        ensures !ReturnsOther(more[j], lock)
      {
        RunKeepsFrozen(after, more, lock, j);
      }
    } else {
      var i :| 0 <= i < |s.disk.images| && !HasLock(Outcome(s.disk.images[i], s.disk.nodes), s.disk.nodes, lock);
      LostListing(s, lock, i, call);
    }
  }

  /**
   * A resolved lock is final: once a caller has returned it from a resolution, every lock any
   * caller returns later, accepted or resolved, recompiled or not, has the same bytes.
   */
  lemma ResolvedIsFinal(states: seq<System>, steps: seq<Step>, i: nat, j: nat)
    requires Run(states, steps) && i < j < |steps| && steps[i].Return? && steps[i].answer.Resolved? && steps[j].Return?
    ensures !steps[j].answer.Refused? && steps[j].answer.lock == steps[i].answer.lock
  {
    ResolvedAt(states, steps, i);
    ReturnedAt(states, steps, j);
    RunsOn(states, steps, i + 1);
    RunKeepsFrozen(states[i + 1..], steps[i + 1..], steps[i].answer.lock, j - i - 1);
    assert steps[i + 1..][j - i - 1] == steps[j];
  }

  lemma ResolvedAt(states: seq<System>, steps: seq<Step>, i: nat)
    requires Run(states, steps) && i < |steps| && steps[i].Return? && steps[i].answer.Resolved?
    ensures FrozenInv(states[i + 1], steps[i].answer.lock)
  {
    RunKeepsInv(states, steps);
    assert Inv(states[i]) && Inv(states[i + 1]) && Next(states[i], steps[i], states[i + 1]);
    ResolvedFreezes(states[i], steps[i], states[i + 1]);
  }

  lemma ReturnedAt(states: seq<System>, steps: seq<Step>, j: nat)
    requires Run(states, steps) && j < |steps| && steps[j].Return?
    ensures !steps[j].answer.Refused?
  {
    assert Next(states[j], steps[j], states[j + 1]);
  }

  lemma ResolvedFreezes(s: System, step: Step, t: System)
    requires Inv(s) && Inv(t) && Next(s, step, t) && step.Return? && step.answer.Resolved?
    ensures FrozenInv(t, step.answer.lock)
  {
    forall i | 0 <= i < |t.disk.images|
      ensures HasLock(Outcome(t.disk.images[i], t.disk.nodes), t.disk.nodes, step.answer.lock)
    {
      assert Outcome(t.disk.images[i], t.disk.nodes) == step.committed.value.pair;
    }
  }

  lemma RunsOn(states: seq<System>, steps: seq<Step>, i: nat)
    requires RunFrom(states, steps) && i <= |steps|
    ensures RunFrom(states[i..], steps[i..])
  {
    var after, more := states[i..], steps[i..];
    forall k | 0 <= k < |more| ensures Next(after[k], more[k], after[k + 1]) {
      assert Next(states[i + k], steps[i + k], states[i + k + 1]);
    }
  }

  // --- the window ---------------------------------------------------------------------------

  // An artifact directory nobody has worked on.
  const NOTHING: ArtifactDisk := Disk([map[]], [])

  lemma NothingIsEmpty()
    ensures AllRecoverable(NOTHING) && CurrentOutcome(NOTHING) == Pair(None, None)
  {
  }

  /**
   * An accepted lock is not always final. Recovery without a marker never fsyncs the directory,
   * so a caller can be given a lock inside the window of a first commit that failed at its last
   * fsync, and a power loss can still undo it; another lock can then be frozen instead. This is
   * so for every viable call and every lock that builds for it.
   */
  lemma AcceptedCanBeUndone(call: Call, lock: Content) returns (states: seq<System>, steps: seq<Step>)
    requires Viable(call) && Builds(call.request, lock)
    ensures Run(states, steps) && |steps| > 0 && steps[|steps| - 1] == Return(1, call, None, Accepted(lock))
    ensures !StaysFrozen(states[|steps|], lock)
  {
    NothingIsEmpty();
    GenuineBuilds(call, lock);
    var w := Window(NOTHING, call, lock);
    var pair := WindowIs(NOTHING, call, lock);
    var p := Publication(pair, call.request, lock, call.before);
    WindowIsReached(NOTHING, w, call, lock, p);
    states, steps := FailedCommit(call, w, p);
    states, steps := AcceptNext(states, steps, call, lock, w);
    assert !HasLock(Outcome(w.images[0], w.nodes), w.nodes, lock);
    FrozenExactlyWhenLocked(states, steps, lock, call);
  }

  // Caller 1 comes and accepts what it finds.
  lemma AcceptNext(states: seq<System>, steps: seq<Step>, call: Call, lock: Content, w: ArtifactDisk)
    returns (states': seq<System>, steps': seq<Step>)
    requires Run(states, steps) && Genuine(call) && CallReturns(w, w, call, None, Accepted(lock))
    requires var s := states[|steps|]; s.disk == w && s.callers == map[] && s.flock.None? && s.gone == {0}
    ensures Run(states', steps') && |steps'| > 0 && steps'[|steps'| - 1] == Return(1, call, None, Accepted(lock))
    ensures states'[|steps'|].disk == w && states'[|steps'|].flock.None?
  {
    var s := states[|steps|];
    var t1 := s.(callers := map[1 := Outside]);
    ExtendFrom(states, steps, Arrive(1), t1);
    states', steps' := states + [t1], steps + [Arrive(1)];
    var t2 := t1.(callers := map[1 := Inside(w)], flock := Some(1));
    ExtendFrom(states', steps', Acquire(1), t2);
    states', steps' := states' + [t2], steps' + [Acquire(1)];
    ExtendFrom(states', steps', Return(1, call, None, Accepted(lock)), Left(t2, 1));
    states', steps' := states' + [Left(t2, 1)], steps' + [Return(1, call, None, Accepted(lock))];
  }

  // Caller 0 is the first, and the last fsync of its commit fails.
  lemma FailedCommit(call: Call, w: ArtifactDisk, p: Publication) returns (states: seq<System>, steps: seq<Step>)
    requires Genuine(call) && CallReaches(NOTHING, w, call, Some(p))
    ensures Run(states, steps)
    ensures var s := states[|steps|]; s.disk == w && s.callers == map[] && s.flock.None? && s.gone == {0}
  {
    var s0 := System(NOTHING, map[], None, {}, [], []);
    var t1 := s0.(callers := map[0 := Outside]);
    ExtendFrom([s0], [], Arrive(0), t1);
    var t2 := t1.(callers := map[0 := Inside(NOTHING)], flock := Some(0));
    states, steps := [s0] + [t1], [Arrive(0)];
    ExtendFrom(states, steps, Acquire(0), t2);
    states, steps := states + [t2], steps + [Acquire(0)];
    var work := Work(0, w, call, Some(p));
    var t3 := t2.(disk := w, authors := Attributed([], 0, |w.nodes|, 0), ledger := Enter([], w, Some(p), call));
    ExtendFrom(states, steps, work, t3);
    states, steps := states + [t3], steps + [work];
    ExtendFrom(states, steps, Exit(0), Left(t3, 0));
    states, steps := states + [Left(t3, 0)], steps + [Exit(0)];
    assert Left(t3, 0).callers == map[];
  }
}
