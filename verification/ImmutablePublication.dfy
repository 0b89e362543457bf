/**
 * The immutable publication primitive: an exclusive temporary, chunked writes, fsync, a reserve
 * check, an atomic link, and checkpoints that can still withdraw the link. Every system call may
 * fail and the ceiling may be reached at any observation.
 */
module ImmutablePublication {
  import opened Wrappers
  import opened DurableDirectory
  import opened ByteStrings

  type RecordDisk = Disk<string, Bytes>
  type RecordDirectory = Directory<string, Bytes>

  const CHUNK_BYTES := 4 * 1024 * 1024

  // The request constructor refuses an equal entry and temporary name; the name of the lock to
  // publish under is the request's own choice too.
  datatype Request = Request(entry: string, temporary: string, payload: Bytes, lockName: string) {
    predicate Valid() { entry != temporary }
  }

  datatype Why =
    | NotLinked                       // nothing was linked: lock, staging, or the link itself
    | StepFailed                      // a step after the link failed and the link was withdrawn
    | WithdrawalRefused(name: string) // the first of the two names that could not be unlinked
    | WithdrawalUnproven              // the barrier after the withdrawal failed

  datatype Failure = DeadlineExceeded | Refused(why: Why)

  /**
   * The monotonic ceiling, counted in observations still to come before it is reached. `ample`
   * says whether more than the publication reserve will remain when that is asked. `open` lists
   * the disks at which an observation found the ceiling not yet reached, in order, and `reserved`
   * says that the reserve was found to remain.
   */
  class Ceiling {
    var left: nat
    const ample: bool
    ghost var open: seq<RecordDisk>
    ghost var reserved: bool

    constructor (left: nat, ample: bool)
      ensures this.left == left && this.ample == ample && open == [] && !reserved
    {
      this.left, this.ample, open, reserved := left, ample, [], false;
    }

    method Expired(ghost d: RecordDisk) returns (expired: bool)
      modifies this`left, this`open
      ensures expired == (old(left) == 0)
      ensures left == if expired then 0 else old(left) - 1
      ensures open == if expired then old(open) else old(open) + [d]
    {
      expired := left == 0;
      if !expired {
        left := left - 1;
        open := open + [d];
      }
    }

    // Whether more than the publication reserve remains; never once the ceiling is reached.
    method HasReserve() returns (enough: bool)
      modifies this`reserved
      ensures enough <==> left > 0 && ample
      ensures enough ==> reserved
    {
      enough := left > 0 && ample;
      if enough { reserved := true; }
    }
  }

  function Least(a: nat, b: nat): nat { if a < b then a else b }

  // One more write: a chunk at most, and of it what the kernel accepts.
  function NextTotal(size: nat, written: nat, accepted: nat): (total: nat)
    requires written <= size
    ensures written <= total <= size
  {
    written + Least(Least(size - written, CHUNK_BYTES), accepted)
  }

  // What the k-th write accepts at most; writes beyond those listed are not short.
  function AcceptedBy(kernel: seq<nat>, k: nat): nat { if k < |kernel| then kernel[k] else CHUNK_BYTES }

  // The bytes written after k writes.
  function Written(kernel: seq<nat>, size: nat, k: nat): (written: nat)
    ensures written <= size
  {
    if k == 0 then 0 else NextTotal(size, Written(kernel, size, k - 1), AcceptedBy(kernel, k - 1))
  }

  lemma {:induction false} WrittenGrows(kernel: seq<nat>, size: nat, k: nat, n: nat)
    requires k <= n
    ensures Written(kernel, size, k) <= Written(kernel, size, n)
    decreases n
  {
    if k < n { WrittenGrows(kernel, size, k, n - 1); }
  }

  // Writes that are not short take four mebibytes each, and a short one what the kernel accepts.
  lemma {:induction false} WritesAre(kernel: seq<nat>, size: nat, k: nat)
    ensures Written([], size, k) == Least(size, k * 4194304)
    ensures k < |kernel| ==>
            Written(kernel, size, k + 1) ==
            Least(size, Written(kernel, size, k) + Least(kernel[k], 4194304))
  {
    if k > 0 { WritesAre(kernel, size, k - 1); }
  }

  // Writing everything took these observations and no more.
  ghost predicate Took(kernel: seq<nat>, size: nat, before: nat, after: nat) {
    && after <= before && Written(kernel, size, before - after) == size
    && (after < before ==> Written(kernel, size, before - after - 1) < size)
  }

  /**
   * The call is in time: it got the lock before the ceiling, the payload is written while four
   * observations still remain, and the reserve remains too.
   */
  ghost predicate Timely(punctual: bool, ample: bool, kernel: seq<nat>, size: nat, left: nat) {
    punctual && ample && left >= 4 && Written(kernel, size, left - 4) == size
  }

  function Lookup(image: map<string, nat>, name: string): Option<nat> {
    if name in image then Some(image[name]) else None
  }

  // The listing with this call's temporary and final name present or not; all else untouched.
  function Shape(found: map<string, nat>, own: nat, request: Request, temporary: bool, final: bool): map<string, nat> {
    var cleared := found - {request.temporary};
    var staged := if temporary then cleared[request.temporary := own] else cleared;
    if final then staged[request.entry := own] else staged
  }

  /**
   * What a call may have made of one listing: nothing, or one of the four shapes, and a final
   * name is linked only where none was found and only to the complete durable payload.
   */
  ghost predicate ImageWithin(found: RecordDisk, image: map<string, nat>, nodes: seq<Node<Bytes>>, request: Request)
    requires |found.images| > 0
  {
    || image in found.images
    || exists temporary, final ::
         && image == Shape(found.Current(), |found.nodes|, request, temporary, final)
         && (temporary || final ==> |nodes| > |found.nodes|)
         && (final ==> request.entry !in found.Current() && nodes[|found.nodes|] == File(request.payload, true))
  }

  ghost predicate Within(found: RecordDisk, d: RecordDisk, request: Request)
    requires |found.images| > 0
  {
    && |d.images| > 0
    && |found.nodes| <= |d.nodes| <= |found.nodes| + 1
    && d.nodes[..|found.nodes|] == found.nodes
    && forall i :: 0 <= i < |d.images| ==> ImageWithin(found, d.images[i], d.nodes, request)
  }

  ghost predicate Working(found: RecordDisk, dir: RecordDirectory, request: Request)
    reads dir
    requires |found.images| > 0
  {
    && dir.disk in dir.seen
    && forall d :: d in dir.seen ==> Within(found, d, request)
  }

  // The call is between two steps: apart from its temporary, the listing is the one it found,
  // with its own final name if `final`.
  ghost predicate At(found: RecordDisk, dir: RecordDirectory, request: Request, final: bool)
    reads dir
    requires |found.images| > 0
  {
    && Working(found, dir, request)
    && dir.disk.Current() - {request.temporary} == Shape(found.Current(), |found.nodes|, request, false, final)
    && (final ==> Linkable(found, dir.disk, request)
                  && Lookup(dir.disk.Current(), request.temporary) in {None, Some(|found.nodes|)})
    && (!final ==> Unlinked(found, dir.disk, request))
  }

  // The payload is complete and durable, and the final name was free.
  ghost predicate Linkable(found: RecordDisk, d: RecordDisk, request: Request)
    requires |found.images| > 0
  {
    && d.nodes == found.nodes + [File(request.payload, true)]
    && request.entry !in found.Current()
  }

  ghost predicate Unlinked(found: RecordDisk, d: RecordDisk, request: Request) {
    forall i :: 0 <= i < |d.images| ==> !OwnFinal(found, d.images[i], request)
  }

  // No listing names a node this call made.
  ghost predicate NoOwnNode(found: RecordDisk, d: RecordDisk) {
    forall i, n :: 0 <= i < |d.images| && n in d.images[i] ==> d.images[i][n] < |found.nodes|
  }

  // Some listing has this call's final name.
  ghost predicate OwnFinal(found: RecordDisk, image: map<string, nat>, request: Request) {
    Lookup(image, request.entry) == Some(|found.nodes|)
  }

  /**
   * What each failure means. A deadline failure leaves the final name as it was found and no
   * node of this call under any name, on storage too. Any other failure leaves this call's final
   * name only if its own unlink was refused, or if the withdrawal could not be proven durable.
   */
  ghost predicate FailedAs(found: RecordDisk, d: RecordDisk, request: Request, failure: Failure)
    requires |found.images| > 0
  {
    && Within(found, d, request)
    && (failure.DeadlineExceeded? ==>
          NoOwnNode(found, d) && Lookup(d.Current(), request.entry) == Lookup(found.Current(), request.entry))
    && (!Unlinked(found, d, request) ==>
          failure == Refused(WithdrawalUnproven) || failure == Refused(WithdrawalRefused(request.entry)))
    && (failure == Refused(WithdrawalRefused(request.entry)) ==> OwnFinal(found, d.Current(), request))
  }

  // The one disk a successful call can leave.
  function AfterPublish(found: RecordDisk, request: Request): RecordDisk
    requires |found.images| > 0
  {
    Disk([Shape(found.Current(), |found.nodes|, request, false, true)], found.nodes + [File(request.payload, true)])
  }

  // --- preservation -------------------------------------------------------------------------

  lemma WithinThen(found: RecordDisk, d: RecordDisk, request: Request, temporary: bool, final: bool)
    requires |found.images| > 0 && Within(found, d, request)
    requires temporary ==> |d.nodes| > |found.nodes|
    requires final ==> Linkable(found, d, request)
    ensures Within(found, d.Then(Shape(found.Current(), |found.nodes|, request, temporary, final)), request)
  {
    var image := Shape(found.Current(), |found.nodes|, request, temporary, final);
    assert ImageWithin(found, image, d.nodes, request);
  }

  lemma WithinStored(found: RecordDisk, d: RecordDisk, request: Request, node: Node<Bytes>)
    requires |found.images| > 0 && Within(found, d, request) && Unlinked(found, d, request)
    requires |d.nodes| <= |found.nodes| + 1
    ensures Within(found, d.(nodes := found.nodes + [node]), request)
  {
    var nodes := found.nodes + [node];
    forall i | 0 <= i < |d.images| ensures ImageWithin(found, d.images[i], nodes, request) {
      if d.images[i] !in found.images {
        var t, f :| d.images[i] == Shape(found.Current(), |found.nodes|, request, t, f);
        assert !f by { assert !OwnFinal(found, d.images[i], request); }
      }
    }
  }

  // No failure without a reason: some system call failed, unless `excused`.
  twostate predicate Excused(dir: RecordDirectory, failed: bool, excused: bool)
    reads dir
  {
    old(dir.faults) <= dir.faults && (failed ==> old(dir.faults) < dir.faults || excused)
  }

  // --- the steps ----------------------------------------------------------------------------

  // _replace_temporary
  method ReplaceTemporary(dir: RecordDirectory, request: Request, ghost found: RecordDisk, ghost final: bool)
    returns (status: Status)
    requires found.Valid() && request.Valid() && At(found, dir, request, final)
    modifies dir`disk, dir`seen, dir`faults
    ensures Excused(dir, status.Failed?, false)
    ensures At(found, dir, request, final) && dir.disk.nodes == old(dir.disk).nodes
    ensures dir.seen == old(dir.seen) + {dir.disk}
    ensures status.Done? ==> request.temporary !in dir.disk.Current()
    ensures status.Failed? ==> dir.disk == old(dir.disk)
  {
    ghost var before := dir.disk;
    status := dir.Remove(request.temporary);
    if status.Failed? { return; }
    if request.temporary in before.Current() {
      WithinThen(found, before, request, false, final);
    }
  }

  // _sync_directory
  method SyncRecords(dir: RecordDirectory, request: Request, ghost found: RecordDisk) returns (status: Status)
    requires found.Valid() && Working(found, dir, request)
    modifies dir
    ensures Excused(dir, status.Failed?, false)
    ensures Working(found, dir, request) && dir.seen == old(dir.seen) + {dir.disk}
    ensures status.Done? ==> dir.disk == old(dir.disk).Synced() && dir.barriers == old(dir.barriers) + 1
    ensures status.Failed? ==> dir.disk == old(dir.disk)
  {
    assert Within(found, dir.disk, request);
    assert Within(found, dir.disk.Synced(), request);
    status := dir.Sync();
  }

  // _discard_temporary: every path that gives up before the link ends here.
  method DiscardTemporary(dir: RecordDirectory, request: Request, cause: Failure, ghost found: RecordDisk)
    returns (failure: Failure)
    requires found.Valid() && request.Valid() && At(found, dir, request, false)
    requires cause in {DeadlineExceeded, Refused(NotLinked)}
    modifies dir
    ensures Excused(dir, true, failure == cause)
    ensures FailedAs(found, dir.disk, request, failure) && Working(found, dir, request)
    ensures failure in {cause, Refused(NotLinked)}
  {
    var status := ReplaceTemporary(dir, request, found, false);
    if status.Failed? { return Refused(NotLinked); }
    assert Lookup(dir.disk.Current(), request.entry) == Lookup(dir.disk.Current() - {request.temporary}, request.entry);
    status := SyncRecords(dir, request, found);
    if status.Failed? { return Refused(NotLinked); }
    return cause;
  }

  // One write, of the next bytes.
  method WriteChunk(dir: RecordDirectory, request: Request, written: nat, count: nat, ghost found: RecordDisk)
    returns (status: Status)
    requires found.Valid() && request.Valid() && At(found, dir, request, false)
    requires written + count <= |request.payload|
    requires dir.disk.nodes == found.nodes + [File(request.payload[..written], false)]
    modifies dir`disk, dir`seen, dir`faults
    ensures Excused(dir, status.Failed?, false)
    ensures At(found, dir, request, false) && dir.disk.images == old(dir.disk).images
    ensures |dir.disk.nodes| == |found.nodes| + 1
    ensures status.Done? ==> dir.disk.nodes == found.nodes + [File(request.payload[..written + count], false)]
  {
    var own := |dir.disk.nodes| - 1;
    var garbage: Bytes := *;
    ghost var before := dir.disk;
    status := dir.Write(own, request.payload[..written] + request.payload[written..written + count], garbage);
    WithinStored(found, before, request, dir.disk.nodes[own]);
    assert dir.disk == before.(nodes := found.nodes + [dir.disk.nodes[own]]);
    assert request.payload[..written] + request.payload[written..written + count] ==
        request.payload[..written + count];
  }

  // The temporary holds this much of the payload.
  ghost predicate Filling(found: RecordDisk, dir: RecordDirectory, request: Request, written: nat)
    reads dir
    requires |found.images| > 0
  {
    && At(found, dir, request, false) && written <= |request.payload|
    && dir.disk.nodes == found.nodes + [File(request.payload[..written], false)]
  }

  // One turn of the loop: an observation, then one write of what the kernel accepts.
  method WriteNext(
    dir: RecordDirectory, request: Request, ceiling: Ceiling, written: nat, accepted: nat, ghost found: RecordDisk)
    returns (failure: Option<Failure>, total: nat)
    requires found.Valid() && request.Valid() && Filling(found, dir, request, written)
    modifies dir`disk, dir`seen, dir`faults, ceiling`left, ceiling`open
    ensures Excused(dir, failure.Some?, failure == Some(DeadlineExceeded))
    ensures At(found, dir, request, false) && dir.disk.images == old(dir.disk).images
    ensures |dir.disk.nodes| == |found.nodes| + 1
    ensures total == NextTotal(|request.payload|, written, accepted)
    ensures failure.None? ==> Filling(found, dir, request, total)
    ensures failure.Some? ==> failure.value in {DeadlineExceeded, Refused(NotLinked)}
    ensures failure == Some(DeadlineExceeded) <==> old(ceiling.left) == 0
    ensures failure != Some(DeadlineExceeded) ==> ceiling.left == old(ceiling.left) - 1
  {
    total := NextTotal(|request.payload|, written, accepted);
    var expired := ceiling.Expired(dir.disk);
    if expired { return Some(DeadlineExceeded), total; }
    var status := WriteChunk(dir, request, written, total - written, found);
    failure := if status.Failed? then Some(Refused(NotLinked)) else None;
  }

  // _write_all: short writes are continued; a write may even make no progress.
  method WriteAll(dir: RecordDirectory, request: Request, ceiling: Ceiling, kernel: seq<nat>, ghost found: RecordDisk)
    returns (failure: Option<Failure>)
    requires found.Valid() && request.Valid() && At(found, dir, request, false)
    requires dir.disk.nodes == found.nodes + [File([], false)]
    modifies dir`disk, dir`seen, dir`faults, ceiling`left, ceiling`open
    ensures Excused(dir, failure.Some?, failure == Some(DeadlineExceeded))
    ensures At(found, dir, request, false) && dir.disk.Current() == old(dir.disk).Current()
    ensures |dir.disk.nodes| == |found.nodes| + 1
    ensures failure.None? ==> dir.disk.nodes == found.nodes + [File(request.payload, false)]
    ensures failure.None? ==> Took(kernel, |request.payload|, old(ceiling.left), ceiling.left)
    ensures failure == Some(DeadlineExceeded) ==>
            Written(kernel, |request.payload|, old(ceiling.left)) < |request.payload|
    ensures failure.Some? ==> failure.value in {DeadlineExceeded, Refused(NotLinked)}
  {
    var written, k: nat := 0, 0;
    assert request.payload[..0] == [];
    while written < |request.payload|
      invariant 0 <= written <= |request.payload| && old(dir.faults) <= dir.faults
      invariant ceiling.left + k == old(ceiling.left) && written == Written(kernel, |request.payload|, k)
      invariant k > 0 ==> Written(kernel, |request.payload|, k - 1) < |request.payload|
      invariant Filling(found, dir, request, written) && dir.disk.images == old(dir.disk).images
      decreases ceiling.left
    {
      failure, written := WriteNext(dir, request, ceiling, written, AcceptedBy(kernel, k), found);
      if failure.Some? { return; }
      k := k + 1;
    }
    assert request.payload[..written] == request.payload;
    return None;
  }

  // The exclusive temporary, empty and not durable.
  method CreateTemporary(dir: RecordDirectory, request: Request, ghost found: RecordDisk) returns (status: Status)
    requires found.Valid() && request.Valid() && At(found, dir, request, false) && dir.disk.nodes == found.nodes
    modifies dir`disk, dir`seen, dir`faults
    ensures Excused(dir, status.Failed?, request.temporary in old(dir.disk).Current())
    ensures At(found, dir, request, false)
    ensures status.Done? ==>
              && Lookup(dir.disk.Current(), request.temporary) == Some(|found.nodes|)
              && dir.disk.nodes == found.nodes + [File([], false)]
  {
    ghost var before := dir.disk;
    var own;
    status, own := dir.Create(request.temporary, []);
    if status.Failed? { return; }
    WithinStored(found, before, request, File([], false));
    assert dir.disk.Current() == Shape(found.Current(), |found.nodes|, request, true, false);
    WithinThen(found, before.(nodes := dir.disk.nodes), request, true, false);
  }

  // Writes and fsyncs the whole payload.
  method FillTemporary(
    dir: RecordDirectory, request: Request, ceiling: Ceiling, kernel: seq<nat>, ghost found: RecordDisk)
    returns (failure: Option<Failure>)
    requires found.Valid() && request.Valid() && At(found, dir, request, false)
    requires dir.disk.nodes == found.nodes + [File([], false)]
    modifies dir`disk, dir`seen, dir`faults, dir`fsynced, ceiling`left, ceiling`open
    ensures Excused(dir, failure.Some?, failure == Some(DeadlineExceeded))
    ensures failure.None? ==> Took(kernel, |request.payload|, old(ceiling.left), ceiling.left)
    ensures failure == Some(DeadlineExceeded) ==>
            Written(kernel, |request.payload|, old(ceiling.left)) < |request.payload|
    ensures At(found, dir, request, false) && dir.disk.Current() == old(dir.disk).Current()
    ensures failure.None? ==>
            dir.disk.nodes == found.nodes + [File(request.payload, true)] && |found.nodes| in dir.fsynced
    ensures failure.Some? ==> failure.value in {DeadlineExceeded, Refused(NotLinked)}
  {
    failure := WriteAll(dir, request, ceiling, kernel, found);
    if failure.Some? { return; }
    var own := |dir.disk.nodes| - 1;
    ghost var before := dir.disk;
    var status := dir.SyncFile(own);
    WithinStored(found, before, request, dir.disk.nodes[own]);
    assert dir.disk == before.(nodes := found.nodes + [dir.disk.nodes[own]]);
    var refused := dir.Falters();   // fchmod and close may be refused too
    if status.Failed? || refused { return Some(Refused(NotLinked)); }
  }

  // _stage_payload
  method StagePayload(
    dir: RecordDirectory, request: Request, ceiling: Ceiling, kernel: seq<nat>, ghost found: RecordDisk)
    returns (failure: Option<Failure>)
    requires found.Valid() && request.Valid() && At(found, dir, request, false) && dir.disk.nodes == found.nodes
    modifies dir, ceiling`left, ceiling`open
    ensures Excused(dir, failure.Some?, failure == Some(DeadlineExceeded))
    ensures failure.None? ==> Took(kernel, |request.payload|, old(ceiling.left), ceiling.left)
    ensures failure == Some(DeadlineExceeded) ==>
            Written(kernel, |request.payload|, old(ceiling.left)) < |request.payload|
    ensures Working(found, dir, request)
    ensures failure.Some? ==> FailedAs(found, dir.disk, request, failure.value)
    ensures failure.None? ==>
              && At(found, dir, request, false)
              && Lookup(dir.disk.Current(), request.temporary) == Some(|found.nodes|)
              && dir.disk.nodes == found.nodes + [File(request.payload, true)]
              && dir.barriers == old(dir.barriers) && |found.nodes| in dir.fsynced
  {
    var status := ReplaceTemporary(dir, request, found, false);
    if status.Failed? { return Some(Refused(NotLinked)); }
    status := CreateTemporary(dir, request, found);
    if status.Failed? {
      var given := DiscardTemporary(dir, request, Refused(NotLinked), found);
      return Some(given);
    }
    failure := FillTemporary(dir, request, ceiling, kernel, found);
    if failure.None? { return; }
    var given := DiscardTemporary(dir, request, failure.value, found);
    return Some(given);
  }

  // --- after the link -----------------------------------------------------------------------

  // One linked record this call owns (_Publication). The withdrawal runs at most once: it
  // requires that it was not attempted before.
  class LinkedRecord {
    const dir: RecordDirectory
    const request: Request
    const ceiling: Ceiling
    var withdrawalAttempted: bool

    constructor (dir: RecordDirectory, request: Request, ceiling: Ceiling)
      ensures this.dir == dir && this.request == request && this.ceiling == ceiling && !withdrawalAttempted
    {
      this.dir, this.request, this.ceiling, withdrawalAttempted := dir, request, ceiling, false;
    }

    // Unlinks the temporary once the final name is already gone from the listing.
    method UnlinkTemporary(ghost found: RecordDisk) returns (status: Status)
      requires found.Valid() && request.Valid() && Working(found, dir, request)
      requires Linkable(found, dir.disk, request)
      requires exists t :: dir.disk.Current() == Shape(found.Current(), |found.nodes|, request, t, false)
      modifies dir
      ensures Excused(dir, status.Failed?, false)
      ensures Working(found, dir, request) && Linkable(found, dir.disk, request)
      ensures dir.disk.Current() - {request.temporary} == Shape(found.Current(), |found.nodes|, request, false, false)
      ensures status.Done? ==> request.temporary !in dir.disk.Current()
    {
      ghost var before := dir.disk;
      status := dir.Remove(request.temporary);
      if dir.disk != before { WithinThen(found, before, request, false, false); }
    }

    method UnlinkEntry(ghost found: RecordDisk) returns (status: Status)
      requires found.Valid() && request.Valid() && At(found, dir, request, true)
      modifies dir
      ensures Excused(dir, status.Failed?, false)
      ensures Working(found, dir, request) && Linkable(found, dir.disk, request)
      ensures status.Failed? ==> At(found, dir, request, true)
      ensures status.Done? ==> exists t ::
              dir.disk.Current() == Shape(found.Current(), |found.nodes|, request, t, false)
    {
      ghost var before := dir.disk;
      assert request.entry in before.Current() - {request.temporary};
      status := dir.Remove(request.entry);
      if status.Failed? { return; }
      ghost var t := request.temporary in before.Current();
      assert dir.disk.Current() == Shape(found.Current(), |found.nodes|, request, t, false);
      WithinThen(found, before, request, t, false);
    }

    // Both names were tried: which of them is still there is what the first refusal says.
    ghost predicate Tried(found: RecordDisk, refused: Option<Failure>)
      reads this, dir
      requires |found.images| > 0
    {
      && |dir.disk.images| > 0
      && if refused == Some(Refused(WithdrawalRefused(request.entry))) then OwnFinal(found, dir.disk.Current(), request)
         else
           && dir.disk.Current() - {request.temporary} == Shape(found.Current(), |found.nodes|, request, false, false)
           && (refused.None? ==> request.temporary !in dir.disk.Current())
           && refused in {None, Some(Refused(WithdrawalRefused(request.temporary)))}
    }

    method UnlinkOwned(ghost found: RecordDisk) returns (refused: Option<Failure>)
      requires found.Valid() && request.Valid() && At(found, dir, request, true)
      modifies dir
      ensures Working(found, dir, request) && Tried(found, refused) && Excused(dir, refused.Some?, false)
    {
      refused := None;
      var status := UnlinkEntry(found);
      if status.Failed? {
        refused := Some(Refused(WithdrawalRefused(request.entry)));
        status := ReplaceTemporary(dir, request, found, true);
        assert OwnFinal(found, dir.disk.Current() - {request.temporary}, request);
      } else {
        status := UnlinkTemporary(found);
        if status.Failed? { refused := Some(Refused(WithdrawalRefused(request.temporary))); }
      }
    }

    // _remove_owned_names: try both names, then the barrier; an unproven withdrawal outranks a
    // refused one.
    method RemoveOwnedNames(ghost found: RecordDisk) returns (failure: Option<Failure>)
      requires found.Valid() && request.Valid() && At(found, dir, request, true)
      requires !withdrawalAttempted
      modifies this, dir
      ensures Excused(dir, failure.Some?, false) && (failure.Some? ==> failure.value.Refused?)
      ensures withdrawalAttempted
      ensures Working(found, dir, request)
      ensures failure.Some? ==> FailedAs(found, dir.disk, request, failure.value)
      ensures failure.None? ==>
                && FailedAs(found, dir.disk, request, DeadlineExceeded)
                && FailedAs(found, dir.disk, request, Refused(StepFailed))
    {
      withdrawalAttempted := true;
      var refused := UnlinkOwned(found);
      assert Lookup(dir.disk.Current(), request.entry) ==
          Lookup(dir.disk.Current() - {request.temporary}, request.entry);
      var status := SyncRecords(dir, request, found);
      if status.Failed? { return Some(Refused(WithdrawalUnproven)); }
      return refused;
    }

    // checkpoint and withdraw
    method Checkpoint(ghost found: RecordDisk) returns (failure: Option<Failure>)
      requires found.Valid() && request.Valid() && At(found, dir, request, true)
      requires !withdrawalAttempted
      modifies this, dir, ceiling`left, ceiling`open
      ensures Excused(dir, failure.Some?, failure == Some(DeadlineExceeded))
      ensures failure.Some? <==> old(ceiling.left) == 0
      ensures failure.None? ==> ceiling.left == old(ceiling.left) - 1
      ensures Working(found, dir, request)
      ensures withdrawalAttempted == failure.Some?
      ensures failure.Some? ==> FailedAs(found, dir.disk, request, failure.value)
      ensures failure.None? ==>
              dir.disk == old(dir.disk) && dir.seen == old(dir.seen) && dir.barriers == old(dir.barriers)
      ensures failure.None? ==> ceiling.open == old(ceiling.open) + [dir.disk]
    {
      var expired := ceiling.Expired(dir.disk);
      if !expired { return None; }
      failure := RemoveOwnedNames(found);
      if failure.None? { failure := Some(DeadlineExceeded); }
    }

    // A failure that recover can deal with: withdrawn already, or still to be withdrawn.
    ghost predicate Recoverable(found: RecordDisk, cause: Failure)
      reads this, dir
      requires |found.images| > 0
    {
      if withdrawalAttempted then FailedAs(found, dir.disk, request, cause)
      else At(found, dir, request, true) && cause == Refused(StepFailed)
    }

    // A barrier and the checkpoint after it.
    method SyncAndCheckpoint(ghost found: RecordDisk) returns (failure: Option<Failure>)
      requires found.Valid() && request.Valid() && At(found, dir, request, true)
      requires !withdrawalAttempted
      modifies this, dir, ceiling`left, ceiling`open
      ensures Excused(dir, failure.Some?, failure == Some(DeadlineExceeded))
      ensures failure == Some(DeadlineExceeded) ==> old(ceiling.left) < 1
      ensures failure.None? ==> ceiling.left == old(ceiling.left) - 1
      ensures Working(found, dir, request)
      ensures failure.Some? ==> Recoverable(found, failure.value)
      ensures failure.None? ==>
                && !withdrawalAttempted && At(found, dir, request, true)
                && dir.disk == old(dir.disk).Synced() && dir.seen == old(dir.seen) + {dir.disk}
                && dir.barriers == old(dir.barriers) + 1 && ceiling.open == old(ceiling.open) + [dir.disk]
    {
      var status := SyncRecords(dir, request, found);
      if status.Failed? { return Some(Refused(StepFailed)); }
      failure := Checkpoint(found);
    }

    // The temporary's unlink and the checkpoint after it.
    method UnlinkAndCheckpoint(ghost found: RecordDisk) returns (failure: Option<Failure>)
      requires found.Valid() && request.Valid() && At(found, dir, request, true)
      requires !withdrawalAttempted
      modifies this, dir, ceiling`left, ceiling`open
      ensures Excused(dir, failure.Some?, failure == Some(DeadlineExceeded))
      ensures failure == Some(DeadlineExceeded) ==> old(ceiling.left) < 1
      ensures failure.None? ==> ceiling.left == old(ceiling.left) - 1
      ensures Working(found, dir, request)
      ensures failure.Some? ==> Recoverable(found, failure.value)
      ensures failure.None? ==>
                && !withdrawalAttempted && At(found, dir, request, true)
                && request.temporary !in dir.disk.Current() && dir.seen == old(dir.seen) + {dir.disk}
                && dir.barriers == old(dir.barriers) && ceiling.open == old(ceiling.open) + [dir.disk]
    {
      var status := ReplaceTemporary(dir, request, found, true);
      if status.Failed? { return Some(Refused(StepFailed)); }
      failure := Checkpoint(found);
    }

    // The first half of what follows the link: barrier, checkpoint, unlink, checkpoint.
    method TidyUp(ghost found: RecordDisk) returns (failure: Option<Failure>, ghost synced: RecordDisk)
      requires found.Valid() && request.Valid() && At(found, dir, request, true)
      requires !withdrawalAttempted
      modifies this, dir, ceiling`left, ceiling`open
      ensures Excused(dir, failure.Some?, failure == Some(DeadlineExceeded)) && Working(found, dir, request)
      ensures failure == Some(DeadlineExceeded) ==> old(ceiling.left) < 2
      ensures failure.None? ==> ceiling.left == old(ceiling.left) - 2
      ensures failure.Some? ==> Recoverable(found, failure.value)
      ensures failure.None? ==>
                && !withdrawalAttempted && At(found, dir, request, true) && request.temporary !in dir.disk.Current()
                && dir.seen == old(dir.seen) + {synced, dir.disk} && dir.barriers == old(dir.barriers) + 1
                && ceiling.open == old(ceiling.open) + [synced, dir.disk]
    {
      failure := SyncAndCheckpoint(found);
      synced := dir.disk;
      if failure.Some? { return; }
      failure := UnlinkAndCheckpoint(found);
    }

    // recover
    method Recover(cause: Failure, ghost found: RecordDisk) returns (failure: Failure)
      requires found.Valid() && request.Valid() && Working(found, dir, request)
      requires Recoverable(found, cause)
      modifies this, dir
      ensures Excused(dir, true, failure == cause) && (failure == cause || failure.Refused?)
      ensures Working(found, dir, request)
      ensures FailedAs(found, dir.disk, request, failure)
    {
      if !withdrawalAttempted {
        var withdrawal := RemoveOwnedNames(found);
        if withdrawal.Some? { return withdrawal.value; }
      }
      return cause;
    }
  }

  // Barrier, checkpoint, unlink, checkpoint, barrier, checkpoint, checkpoint: on success both
  // barriers passed, and the ceiling was observed to be open after each of the three changes and
  // once more before returning.
  method FinishPublication(linked: LinkedRecord, ghost found: RecordDisk) returns (failure: Option<Failure>)
    requires found.Valid() && linked.request.Valid() && At(found, linked.dir, linked.request, true)
    requires !linked.withdrawalAttempted
    modifies linked, linked.dir, linked.ceiling`left, linked.ceiling`open
    ensures Excused(linked.dir, failure.Some?, failure == Some(DeadlineExceeded))
    ensures failure == Some(DeadlineExceeded) ==> old(linked.ceiling.left) < 4
    ensures failure.None? ==> old(linked.ceiling.left) >= 4
    ensures Working(found, linked.dir, linked.request)
    ensures failure.Some? ==> linked.Recoverable(found, failure.value)
    ensures failure.None? ==> linked.dir.disk == AfterPublish(found, linked.request)
    ensures failure.None? ==> linked.dir.barriers == old(linked.dir.barriers) + 2
    ensures failure.None? ==> exists synced, unlinked ::
              && linked.ceiling.open == old(linked.ceiling.open) + [synced, unlinked, linked.dir.disk, linked.dir.disk]
              && linked.dir.seen == old(linked.dir.seen) + {synced, unlinked, linked.dir.disk}
  {
    ghost var synced;
    failure, synced := linked.TidyUp(found);
    if failure.Some? { return; }
    ghost var unlinked := linked.dir.disk;
    failure := linked.SyncAndCheckpoint(found);
    if failure.Some? { return; }
    failure := linked.Checkpoint(found);
    if failure.Some? { return; }
    assert linked.dir.disk.Current() - {linked.request.temporary} == linked.dir.disk.Current();
    assert linked.ceiling.open == old(linked.ceiling.open) + [synced, unlinked, linked.dir.disk, linked.dir.disk];
  }

  // The atomic link, refused when the final name exists.
  method LinkRecord(dir: RecordDirectory, request: Request, ghost found: RecordDisk) returns (status: Status)
    requires found.Valid() && request.Valid() && At(found, dir, request, false)
    requires Lookup(dir.disk.Current(), request.temporary) == Some(|found.nodes|)
    requires dir.disk.nodes == found.nodes + [File(request.payload, true)]
    modifies dir`disk, dir`seen, dir`faults
    ensures Excused(dir, status.Failed?, request.entry in old(dir.disk).Current())
    ensures At(found, dir, request, status.Done?)
    ensures status.Done? ==> request.entry !in found.Current()
  {
    ghost var before := dir.disk;
    var taken;
    status, taken := dir.Link(request.temporary, request.entry);
    if status.Failed? { return; }
    assert request.entry !in before.Current() - {request.temporary};
    assert dir.disk.Current() == Shape(found.Current(), |found.nodes|, request, true, true);
    WithinThen(found, before, request, true, true);
  }

  // What follows the staging: the reserve, the link, and everything after it.
  method PublishStaged(dir: RecordDirectory, request: Request, ceiling: Ceiling, ghost found: RecordDisk)
    returns (failure: Option<Failure>)
    requires found.Valid() && request.Valid() && At(found, dir, request, false)
    requires Lookup(dir.disk.Current(), request.temporary) == Some(|found.nodes|)
    requires dir.disk.nodes == found.nodes + [File(request.payload, true)]
    modifies dir, ceiling
    ensures Working(found, dir, request)
    ensures Excused(dir, failure.Some?, failure == Some(DeadlineExceeded) || request.entry in found.Current())
    ensures failure.None? ==> old(ceiling.left) >= 4 && ceiling.ample
    ensures failure == Some(DeadlineExceeded) ==> old(ceiling.left) < 4 || !ceiling.ample
    ensures failure.None? ==>
              && request.entry !in found.Current() && dir.disk == AfterPublish(found, request)
              && dir.barriers == old(dir.barriers) + 2 && dir.disk in ceiling.open && ceiling.reserved
    ensures failure.Some? ==> FailedAs(found, dir.disk, request, failure.value)
  {
    assert request.entry in dir.disk.Current() - {request.temporary} <==> request.entry in dir.disk.Current();
    var enough := ceiling.HasReserve();
    if !enough {
      var given := DiscardTemporary(dir, request, DeadlineExceeded, found);
      return Some(given);
    }
    var status := LinkRecord(dir, request, found);
    if status.Failed? {
      var given := DiscardTemporary(dir, request, Refused(NotLinked), found);
      return Some(given);
    }
    var linked := new LinkedRecord(dir, request, ceiling);
    failure := FinishPublication(linked, found);
    if failure.Some? {
      var given := linked.Recover(failure.value, found);
      failure := Some(given);
    }
  }

  // Staging leaves four observations exactly when the payload is written in time.
  lemma TimelyStaging(kernel: seq<nat>, size: nat, before: nat, after: nat)
    ensures Took(kernel, size, before, after) ==>
            (after >= 4 <==> before >= 4 && Written(kernel, size, before - 4) == size)
    ensures Written(kernel, size, before) < size && before >= 4 ==> Written(kernel, size, before - 4) < size
  {
    if Took(kernel, size, before, after) {
      if after >= 4 {
        WrittenGrows(kernel, size, before - after, before - 4);
      } else if before >= 4 {
        WrittenGrows(kernel, size, before - 4, before - after - 1);
      }
    }
    if before >= 4 { WrittenGrows(kernel, size, before - 4, before); }
  }

  /**
   * publish_immutable_record. Success leaves exactly one possible disk, on storage too: the
   * final name bound to the payload, the temporary gone. Failures mean what FailedAs says. The
   * call succeeds exactly when it is timely and the final name is free, if no system call fails.
   */
  method PublishImmutableRecord(
    dir: RecordDirectory, request: Request, ceiling: Ceiling, kernel: seq<nat>, punctual: bool)
    returns (failure: Option<Failure>)
    requires dir.disk.Valid() && dir.seen == {dir.disk} && request.Valid()
    modifies dir, ceiling
    ensures Excused(dir, failure.Some?, failure == Some(DeadlineExceeded) || request.entry in old(dir.disk).Current())
    ensures failure.None? ==> Timely(punctual, ceiling.ample, kernel, |request.payload|, old(ceiling.left))
    ensures failure == Some(DeadlineExceeded) ==>
            !Timely(punctual, ceiling.ample, kernel, |request.payload|, old(ceiling.left))
    ensures dir.disk in dir.seen
    ensures forall d :: d in dir.seen ==> Within(old(dir.disk), d, request)
    ensures failure.None? ==>
              && request.entry !in old(dir.disk).Current() && dir.disk == AfterPublish(old(dir.disk), request)
              && dir.barriers >= old(dir.barriers) + 2 && dir.disk in ceiling.open && ceiling.reserved
    ensures failure.Some? ==> FailedAs(old(dir.disk), dir.disk, request, failure.value)
  {
    ghost var found := dir.disk;
    if !punctual { return Some(DeadlineExceeded); }   // the wait for the publication lock is bounded
    var refused := dir.Falters();   // the directory walk and the lock
    if refused { return Some(Refused(NotLinked)); }
    ghost var left := ceiling.left;
    failure := StagePayload(dir, request, ceiling, kernel, found);
    TimelyStaging(kernel, |request.payload|, left, ceiling.left);
    if failure.Some? { return; }
    failure := PublishStaged(dir, request, ceiling, found);
  }
}
