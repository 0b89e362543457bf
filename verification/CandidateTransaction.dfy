/**
 * The durable begin / resolve / commit / rollback / recover transaction of the candidate lock.
 *
 * The methods follow the source function by function, one system call at a time, and any call
 * may fail. What they keep is stated about every disk in `Directory.seen`, that is, about every
 * point at which the process can die or the machine can lose power.
 */
module CandidateTransaction {
  import opened Wrappers
  import opened DurableDirectory

  datatype Name =
    | Lock | Receipt | LockRollback | ReceiptRollback | Marker | Requirements | Cache
    | Temporary(of: Name)
    | Quarantine(moved: Name, token: nat)

  datatype Artifact = LockArtifact | ReceiptArtifact {
    function Canonical(): Name { if LockArtifact? then Lock else Receipt }
    function Rollback(): Name { if LockArtifact? then LockRollback else ReceiptRollback }
  }

  // SHA-256 as a free, hence injective, function of the bytes.
  datatype Digest = Sha256(bytes: Content)

  // JSON files are kept in decoded form; Text is every other file.
  datatype Content =
    | Text(text: string)
    | MarkerJson(fields: map<string, bool>)
    | ReceiptJson(lockDigest: Digest, candidates: seq<string>, command: seq<string>,
                  excludeNewer: string, requirementsDigest: Digest)

  type Listing = map<Name, nat>
  type Nodes = seq<Node<Content>>
  type ArtifactDisk = Disk<Name, Content>
  type ArtifactDirectory = Directory<Name, Content>

  datatype Flags = Flags(lock: bool, receipt: bool) {
    function Of(a: Artifact): bool { if a.LockArtifact? then lock else receipt }
  }

  // The frozen pair, by inode.
  datatype Pair = Pair(lock: Option<nat>, receipt: Option<nat>) {
    function Of(a: Artifact): Option<nat> { if a.LockArtifact? then lock else receipt }
    function Presence(): Flags { Flags(lock.Some?, receipt.Some?) }
  }

  function Lookup(image: Listing, name: Name): Option<nat> {
    if name in image then Some(image[name]) else None
  }

  function Field(fields: map<string, bool>, key: string): bool {
    if key in fields then fields[key] else true
  }

  // _decode_marker: anything the marker does not vouch for "existed before".
  function DecodeMarker(content: Content): Flags {
    match content
    case MarkerJson(fields) => Flags(Field(fields, "lock"), Field(fields, "receipt"))
    case _ => Flags(true, true)
  }

  function EncodeMarker(flags: Flags): Content {
    MarkerJson(map["lock" := flags.lock, "receipt" := flags.receipt])
  }

  // An artifact counts as missing before only where the marker says so, and what is written is read.
  lemma MarkerVouches(content: Content, a: Artifact, flags: Flags)
    ensures var key := if a == LockArtifact then "lock" else "receipt";
            !DecodeMarker(content).Of(a) <==>
            content.MarkerJson? && key in content.fields && content.fields[key] == false
    ensures DecodeMarker(EncodeMarker(flags)) == flags
  {
  }

  function MarkerFlags(image: Listing, nodes: Nodes): Option<Flags> {
    if Lookup(image, Marker).None? then None
    else if image[Marker] < |nodes| && nodes[image[Marker]].File?
    then Some(DecodeMarker(nodes[image[Marker]].content))
    else Some(Flags(true, true))
  }

  // The artifact that recovery will leave under its canonical name.
  function Surviving(image: Listing, flags: Option<Flags>, a: Artifact): Option<nat> {
    if flags.None? then Lookup(image, a.Canonical())
    else if !flags.value.Of(a) then None
    else if Lookup(image, a.Rollback()).Some? then Lookup(image, a.Rollback())
    else Lookup(image, a.Canonical())
  }

  function Outcome(image: Listing, nodes: Nodes): Pair {
    var flags := MarkerFlags(image, nodes);
    Pair(Surviving(image, flags, LockArtifact), Surviving(image, flags, ReceiptArtifact))
  }

  ghost predicate SolidAt(inode: Option<nat>, nodes: Nodes) {
    inode.Some? ==> inode.value < |nodes| && nodes[inode.value].Solid()
  }

  /**
   * A listing recovery can start from: the marker is a durable file, everything it records as
   * existing is intact and durable under its canonical or its rollback name, and nothing it
   * records as missing comes back.
   */
  ghost predicate Recoverable(image: Listing, nodes: Nodes) {
    && (forall n :: n in image ==> image[n] < |nodes|)
    && (Marker in image ==> nodes[image[Marker]].Solid())
    && SolidAt(Outcome(image, nodes).lock, nodes)
    && SolidAt(Outcome(image, nodes).receipt, nodes)
    && (MarkerFlags(image, nodes).Some? ==> Outcome(image, nodes).Presence() == MarkerFlags(image, nodes).value)
  }

  ghost predicate AllRecoverable(d: ArtifactDisk) {
    && |d.images| > 0
    && forall i :: 0 <= i < |d.images| ==> Recoverable(d.images[i], d.nodes)
  }

  // Some power loss at d leads to the pair p.
  ghost predicate Possible(d: ArtifactDisk, p: Pair) {
    exists i :: 0 <= i < |d.images| && Outcome(d.images[i], d.nodes) == p
  }

  function CurrentOutcome(d: ArtifactDisk): Pair
    requires |d.images| > 0
  {
    Outcome(d.Current(), d.nodes)
  }

  datatype Request = Request(command: seq<string>, excludeNewer: string)

  const REQUIREMENTS_INPUT := Text("pyrefly\nty\n")

  // _receipt_bytes
  function ReceiptFor(request: Request, lock: Content): Content {
    ReceiptJson(Sha256(lock), ["pyrefly", "ty"], request.command, request.excludeNewer, Sha256(REQUIREMENTS_INPUT))
  }

  // A receipt vouches for one request and one lock, and for the candidates and their input.
  lemma ReceiptVouches(request: Request, lock: Content, other: Request, otherLock: Content)
    ensures ReceiptFor(request, lock) == ReceiptFor(other, otherLock) <==> request == other && lock == otherLock
    ensures ReceiptFor(request, lock).candidates == ["pyrefly", "ty"]
    ensures ReceiptFor(request, lock).requirementsDigest == Sha256(Text("pyrefly\nty\n"))
  {
    var one, two := ReceiptFor(request, lock), ReceiptFor(other, otherLock);
    assert one == two ==> one.lockDigest.bytes == two.lockDigest.bytes;
    assert request == Request(one.command, one.excludeNewer) && other == Request(two.command, two.excludeNewer);
  }

  // Where the requirements input is present it is the canonical one, durable, and it is present
  // wherever a lock survives.
  ghost predicate Equipped(image: Listing, nodes: Nodes) {
    && (Requirements in image ==>
          image[Requirements] < |nodes| && nodes[image[Requirements]] == File(REQUIREMENTS_INPUT, true))
    && (Outcome(image, nodes).lock.Some? ==> Requirements in image)
  }

  ghost predicate AllEquipped(d: ArtifactDisk) {
    forall i :: 0 <= i < |d.images| ==> Equipped(d.images[i], d.nodes)
  }

  // What must be in place before the marker may be cleared.
  ghost predicate Complete(pair: Pair, nodes: Nodes, request: Request, lock: Content) {
    && pair.lock.Some? && pair.receipt.Some?
    && pair.lock.value < |nodes| && pair.receipt.value < |nodes|
    && nodes[pair.lock.value] == File(lock, true)
    && nodes[pair.receipt.value] == File(ReceiptFor(request, lock), true)
  }

  // One resolution that passed every check: what it froze, for which request, and the production
  // identity it left untouched.
  datatype Publication = Publication(pair: Pair, request: Request, lock: Content, identity: string)

  ghost predicate PublishedAs(committed: Option<Publication>, pair: Pair, nodes: Nodes) {
    && committed.Some? && committed.value.pair == pair
    && Complete(pair, nodes, committed.value.request, committed.value.lock)
  }

  /**
   * What a call started at `origin` guarantees of every disk d it passes through: whatever
   * survives a crash at d recovers to a pair that was already possible at `origin`, or to the
   * one new pair the call committed; and the requirements input stays where locks are.
   */
  ghost predicate Faithful(origin: ArtifactDisk, d: ArtifactDisk, committed: Option<Publication>) {
    && AllRecoverable(d)
    && Retains(origin.nodes, d.nodes)
    && (AllEquipped(origin) ==> AllEquipped(d))
    && forall i :: 0 <= i < |d.images| ==>
         || Possible(origin, Outcome(d.images[i], d.nodes))
         || PublishedAs(committed, Outcome(d.images[i], d.nodes), d.nodes)
  }

  ghost predicate Safe(origin: ArtifactDisk, dir: ArtifactDirectory, committed: Option<Publication>)
    reads dir
  {
    && dir.disk in dir.seen
    && forall d :: d in dir.seen ==> Faithful(origin, d, committed)
  }

  // --- preservation lemmas ------------------------------------------------------------------

  lemma FaithfulThen(origin: ArtifactDisk, d: ArtifactDisk, image: Listing, committed: Option<Publication>)
    requires Faithful(origin, d, committed) && Recoverable(image, d.nodes)
    requires Possible(origin, Outcome(image, d.nodes)) || PublishedAs(committed, Outcome(image, d.nodes), d.nodes)
    requires AllEquipped(origin) ==> Equipped(image, d.nodes)
    ensures Faithful(origin, d.Then(image), committed)
  {
  }

  lemma FaithfulStored(origin: ArtifactDisk, d: ArtifactDisk, nodes: Nodes, committed: Option<Publication>)
    requires Faithful(origin, d, committed) && Retains(d.nodes, nodes)
    ensures Faithful(origin, d.(nodes := nodes), committed)
    ensures forall i :: 0 <= i < |d.images| ==> Outcome(d.images[i], nodes) == Outcome(d.images[i], d.nodes)
  {
  }

  lemma FaithfulSynced(origin: ArtifactDisk, d: ArtifactDisk, committed: Option<Publication>)
    requires Faithful(origin, d, committed)
    ensures Faithful(origin, d.Synced(), committed)
  {
  }

  predicate Core(n: Name) { n.Lock? || n.Receipt? || n.LockRollback? || n.ReceiptRollback? || n.Marker? }

  // The listing keeps the requirements input, or has a new canonical one.
  ghost predicate KeepsInput(d: ArtifactDisk, image: Listing)
    requires |d.images| > 0
  {
    || Lookup(image, Requirements) == Lookup(d.Current(), Requirements)
    || (Requirements in image && image[Requirements] < |d.nodes|
        && d.nodes[image[Requirements]] == File(REQUIREMENTS_INPUT, true))
  }

  lemma StaysEquipped(origin: ArtifactDisk, d: ArtifactDisk, image: Listing, committed: Option<Publication>)
    requires Faithful(origin, d, committed) && KeepsInput(d, image)
    requires Outcome(image, d.nodes).lock == CurrentOutcome(d).lock
    ensures AllEquipped(origin) ==> Equipped(image, d.nodes)
  {
    if AllEquipped(origin) { assert Equipped(d.images[|d.images| - 1], d.nodes); }
  }

  // Changing names outside the transaction changes nothing recovery looks at.
  lemma FaithfulAside(origin: ArtifactDisk, d: ArtifactDisk, image: Listing, committed: Option<Publication>)
    requires Faithful(origin, d, committed)
    requires forall n :: n in image ==> image[n] < |d.nodes|
    requires forall n :: Core(n) ==> Lookup(image, n) == Lookup(d.Current(), n)
    requires KeepsInput(d, image)
    ensures Faithful(origin, d.Then(image), committed)
    ensures Outcome(image, d.nodes) == CurrentOutcome(d)
    ensures MarkerFlags(image, d.nodes) == MarkerFlags(d.Current(), d.nodes)
  {
    assert forall n :: Core(n) ==> Lookup(image, n) == Lookup(d.Current(), n);
    assert Core(Lock) && Core(Receipt) && Core(LockRollback) && Core(ReceiptRollback) && Core(Marker);
    assert Recoverable(d.Current(), d.nodes);
    StaysEquipped(origin, d, image, committed);
    FaithfulThen(origin, d, image, committed);
  }

  // A new listing with the same marker entry, or none, and the same outcome.
  lemma FaithfulKeeps(origin: ArtifactDisk, d: ArtifactDisk, image: Listing)
    requires Faithful(origin, d, None) && Possible(origin, CurrentOutcome(d))
    requires forall n :: n in image ==> image[n] < |d.nodes|
    requires Marker in image ==> Lookup(image, Marker) == Lookup(d.Current(), Marker)
    requires Outcome(image, d.nodes) == CurrentOutcome(d)
    requires KeepsInput(d, image)
    ensures Faithful(origin, d.Then(image), None)
  {
    assert Recoverable(d.Current(), d.nodes);
    StaysEquipped(origin, d, image, None);
    FaithfulThen(origin, d, image, None);
  }

  // --- rollback and recovery ----------------------------------------------------------------

  // Nothing has been committed since `origin`: at every point so far a process death left `prior`.
  ghost predicate Holding(origin: ArtifactDisk, dir: ArtifactDirectory, prior: Pair)
    reads dir
  {
    && Safe(origin, dir, None)
    && Possible(origin, prior)
    && forall d :: d in dir.seen ==> |d.images| > 0 && CurrentOutcome(d) == prior
  }

  // Both artifacts are under their canonical names only.
  ghost predicate Restored(image: Listing, pair: Pair) {
    && Lookup(image, LockRollback).None?
    && Lookup(image, ReceiptRollback).None?
    && Lookup(image, Lock) == pair.lock
    && Lookup(image, Receipt) == pair.receipt
  }

  // No transaction is open and exactly the given pair is frozen.
  ghost predicate Settled(image: Listing, pair: Pair) {
    Lookup(image, Marker).None? && Restored(image, pair)
  }

  // The same of every listing that can be on storage.
  ghost predicate AllRestored(d: ArtifactDisk, pair: Pair) {
    forall i :: 0 <= i < |d.images| ==> Restored(d.images[i], pair)
  }

  ghost predicate AllSettled(d: ArtifactDisk, pair: Pair) {
    forall i :: 0 <= i < |d.images| ==> Settled(d.images[i], pair)
  }

  // Quarantined nodes still in the directory.
  ghost function Residue(image: Listing): set<Name> { set n | n in image && n.Quarantine? }

  // Every crash at d leads to the same pair.
  ghost predicate AgreedOn(d: ArtifactDisk, pair: Pair) {
    forall i :: 0 <= i < |d.images| ==> Outcome(d.images[i], d.nodes) == pair
  }

  // The names a step must account for.
  predicate Framed(n: Name) { Core(n) || n.Requirements? || n.Cache? }

  twostate predicate OnlyCoreChange(dir: ArtifactDirectory, changed: set<Name>)
    reads dir
  {
    && |old(dir.disk).images| > 0 && |dir.disk.images| > 0
    && dir.disk.nodes == old(dir.disk).nodes && dir.fsynced == old(dir.fsynced)
    && forall n: Name :: !n.Quarantine? && n !in changed ==>
         Lookup(dir.disk.Current(), n) == Lookup(old(dir.disk).Current(), n)
  }

  // A failure is due to some system call that failed.
  twostate predicate FailsByFault(dir: ArtifactDirectory, status: Status)
    reads dir
  {
    old(dir.faults) <= dir.faults && (status.Failed? ==> old(dir.faults) < dir.faults)
  }

  // _rename_artifact, where the move does not change what survives.
  method MoveKeeping(dir: ArtifactDirectory, source: Name, target: Name, ghost origin: ArtifactDisk, ghost prior: Pair)
    returns (status: Status)
    requires Holding(origin, dir, prior) && source !in {Marker, Requirements} && target !in {Marker, Requirements}
    requires source in dir.disk.Current() ==> Outcome(dir.disk.Moved(source, target).Current(), dir.disk.nodes) == prior
    modifies dir
    ensures old(dir.faults) <= dir.faults && (source in old(dir.disk).Current() ==> FailsByFault(dir, status))
    ensures Holding(origin, dir, prior) && OnlyCoreChange(dir, {source, target})
    ensures status.Done? ==> source in old(dir.disk).Current() && dir.disk == old(dir.disk).Moved(source, target)
    ensures status.Failed? ==> dir.disk == old(dir.disk)
  {
    ghost var before := dir.disk;
    status := dir.Rename(source, target);
    if status.Failed? { return; }
    assert Recoverable(before.Current(), before.nodes);
    FaithfulKeeps(origin, before, dir.disk.Current());
  }

  // A listing in which one artifact moved from one of its names to another.
  lemma MovedLookups(image: Listing, source: Name, target: Name)
    requires source in image && source != target
    ensures var moved := (image - {source})[target := image[source]];
            && Lookup(moved, source).None? && Lookup(moved, target) == Lookup(image, source)
            && forall n :: n != source && n != target ==> Lookup(moved, n) == Lookup(image, n)
  {
  }

  lemma QuarantineIsAside(image: Listing, nodes: Nodes, target: Name, inode: nat)
    requires target.Quarantine?
    ensures Outcome(image[target := inode], nodes) == Outcome(image, nodes)
  {
  }

  // _quarantine_node: move a node nobody needs out of the way, whatever its type.
  method QuarantineNode(dir: ArtifactDirectory, name: Name, ghost origin: ArtifactDisk, ghost prior: Pair)
    returns (status: Status, moved: set<Name>)
    requires Holding(origin, dir, prior)
    requires Core(name) && name != Marker
    requires Outcome(dir.disk.Current() - {name}, dir.disk.nodes) == prior
    modifies dir
    ensures FailsByFault(dir, status)
    ensures Holding(origin, dir, prior)
    ensures OnlyCoreChange(dir, {name})
    ensures status.Done? ==> Lookup(dir.disk.Current(), name).None?
    ensures forall n :: n in moved ==> n.Quarantine?
    ensures Residue(dir.disk.Current()) <= Residue(old(dir.disk).Current()) + moved
  {
    moved := {};
    var found;
    status, found := dir.Exists(name);
    if status.Failed? || !found { return; }
    var token: nat := *;
    var target := Quarantine(name, token);
    QuarantineIsAside(dir.disk.Current() - {name}, dir.disk.nodes, target, dir.disk.Current()[name]);
    status := MoveKeeping(dir, name, target, origin, prior);
    if status.Done? { moved := {target}; }
  }

  // Whether the canonical name matters: not once the artifact is set aside or never existed.
  lemma CanonicalIsSpare(image: Listing, nodes: Nodes, a: Artifact)
    requires MarkerFlags(image, nodes).Some?
    requires MarkerFlags(image, nodes).value.Of(a) ==> Lookup(image, a.Rollback()).Some?
    ensures Outcome(image - {a.Canonical()}, nodes) == Outcome(image, nodes)
  {
  }

  lemma RollbackIsSpare(image: Listing, nodes: Nodes, a: Artifact)
    requires MarkerFlags(image, nodes).Some? && !MarkerFlags(image, nodes).value.Of(a)
    ensures Outcome(image - {a.Rollback()}, nodes) == Outcome(image, nodes)
  {
  }

  // An artifact survives a move from one of its names to the other when the target is free.
  lemma MovesSurvive(image: Listing, nodes: Nodes, a: Artifact, back: bool)
    requires MarkerFlags(image, nodes).Some? && MarkerFlags(image, nodes).value.Of(a)
    requires Lookup(image, if back then a.Rollback() else a.Canonical()).Some?
    requires Lookup(image, if back then a.Canonical() else a.Rollback()).None?
    ensures var source := if back then a.Rollback() else a.Canonical();
            var target := if back then a.Canonical() else a.Rollback();
            Outcome((image - {source})[target := image[source]], nodes) == Outcome(image, nodes)
  {
  }

  // One pass of the loop of _rollback_transaction, for an artifact that did not exist.
  method DropArtifact(dir: ArtifactDirectory, a: Artifact, ghost origin: ArtifactDisk, ghost prior: Pair)
    returns (status: Status, moved: set<Name>)
    requires Holding(origin, dir, prior)
    requires var flags := MarkerFlags(dir.disk.Current(), dir.disk.nodes); flags.Some? && !flags.value.Of(a)
    modifies dir
    ensures FailsByFault(dir, status)
    ensures Holding(origin, dir, prior)
    ensures OnlyCoreChange(dir, {a.Canonical(), a.Rollback()})
    ensures status.Done? ==> Lookup(dir.disk.Current(), a.Rollback()).None?
    ensures status.Done? ==> Lookup(dir.disk.Current(), a.Canonical()).None?
    ensures forall n :: n in moved ==> n.Quarantine?
    ensures Residue(dir.disk.Current()) <= Residue(old(dir.disk).Current()) + moved
  {
    CanonicalIsSpare(dir.disk.Current(), dir.disk.nodes, a);
    status, moved := QuarantineNode(dir, a.Canonical(), origin, prior);
    if status.Failed? { return; }
    var more;
    RollbackIsSpare(dir.disk.Current(), dir.disk.nodes, a);
    status, more := QuarantineNode(dir, a.Rollback(), origin, prior);
    moved := moved + more;
  }

  // One pass of the loop of _rollback_transaction.
  method RestoreArtifact(
    dir: ArtifactDirectory, a: Artifact, flags: Flags, ghost origin: ArtifactDisk, ghost prior: Pair)
    returns (status: Status, moved: set<Name>)
    requires Holding(origin, dir, prior)
    requires MarkerFlags(dir.disk.Current(), dir.disk.nodes) == Some(flags)
    modifies dir
    ensures FailsByFault(dir, status)
    ensures Holding(origin, dir, prior)
    ensures OnlyCoreChange(dir, {a.Canonical(), a.Rollback()})
    ensures status.Done? ==> Lookup(dir.disk.Current(), a.Rollback()).None?
    ensures status.Done? ==> Lookup(dir.disk.Current(), a.Canonical()) == prior.Of(a)
    ensures forall n :: n in moved ==> n.Quarantine?
    ensures Residue(dir.disk.Current()) <= Residue(old(dir.disk).Current()) + moved
  {
    if !flags.Of(a) {
      status, moved := DropArtifact(dir, a, origin, prior);
      return;
    }
    moved := {};
    var found;
    status, found := dir.Exists(a.Rollback());
    if status.Failed? || !found { return; }
    CanonicalIsSpare(dir.disk.Current(), dir.disk.nodes, a);
    status, moved := QuarantineNode(dir, a.Canonical(), origin, prior);
    if status.Failed? { return; }
    MovesSurvive(dir.disk.Current(), dir.disk.nodes, a, true);
    status := MoveKeeping(dir, a.Rollback(), a.Canonical(), origin, prior);
  }

  // Drops quarantined nodes one by one, in any order.
  method PurgeQuarantined(dir: ArtifactDirectory, names: set<Name>, ghost origin: ArtifactDisk, ghost prior: Pair)
    returns (status: Status)
    requires Holding(origin, dir, prior)
    requires forall n :: n in names ==> n.Quarantine?
    modifies dir
    ensures FailsByFault(dir, status)
    ensures Holding(origin, dir, prior)
    ensures OnlyCoreChange(dir, {})
    ensures AllSettled(old(dir.disk), prior) ==> AllSettled(dir.disk, prior)
    ensures Residue(dir.disk.Current()) <= Residue(old(dir.disk).Current())
    ensures status.Done? ==> Residue(dir.disk.Current()) !! names
  {
    var remaining := names;
    while remaining != {}
      invariant remaining <= names
      invariant Holding(origin, dir, prior)
      invariant OnlyCoreChange(dir, {}) && old(dir.faults) <= dir.faults
      invariant AllSettled(old(dir.disk), prior) ==> AllSettled(dir.disk, prior)
      invariant Residue(dir.disk.Current()) <= Residue(old(dir.disk).Current()) - (names - remaining)
    {
      var name :| name in remaining;
      :- DropQuarantined(dir, name, origin, prior);
      remaining := remaining - {name};
    }
    status := Done;
  }

  method DropQuarantined(dir: ArtifactDirectory, name: Name, ghost origin: ArtifactDisk, ghost prior: Pair)
    returns (status: Status)
    requires Holding(origin, dir, prior) && name.Quarantine?
    modifies dir
    ensures FailsByFault(dir, status)
    ensures Holding(origin, dir, prior)
    ensures OnlyCoreChange(dir, {})
    ensures AllSettled(old(dir.disk), prior) ==> AllSettled(dir.disk, prior)
    ensures Residue(dir.disk.Current()) <= Residue(old(dir.disk).Current())
    ensures status.Done? ==> Residue(dir.disk.Current()) <= Residue(old(dir.disk).Current()) - {name}
  {
    ghost var before := dir.disk;
    status := dir.Remove(name);
    if dir.disk != before {
      assert Recoverable(before.Current(), before.nodes);
      FaithfulAside(origin, before, before.Current() - {name}, None);
    }
  }

  // The marker is cleared only once the restored state is on storage, and nothing may be purged
  // before its removal is too.
  method ClearMarker(dir: ArtifactDirectory, ghost origin: ArtifactDisk, ghost prior: Pair) returns (status: Status)
    requires Holding(origin, dir, prior) && Restored(dir.disk.Current(), prior)
    modifies dir
    ensures FailsByFault(dir, status)
    ensures Holding(origin, dir, prior)
    ensures OnlyCoreChange(dir, {Marker})
    ensures Residue(dir.disk.Current()) <= Residue(old(dir.disk).Current())
    ensures status.Done? ==> AllSettled(dir.disk, prior)
  {
    status := Barrier(dir, origin, prior);
    if status.Failed? { return; }
    :- RemoveMarker(dir, origin, prior);
    status := Barrier(dir, origin, prior);
  }

  method RemoveMarker(dir: ArtifactDirectory, ghost origin: ArtifactDisk, ghost prior: Pair) returns (status: Status)
    requires Holding(origin, dir, prior) && AllRestored(dir.disk, prior)
    modifies dir
    ensures FailsByFault(dir, status)
    ensures Holding(origin, dir, prior)
    ensures OnlyCoreChange(dir, {Marker})
    ensures Residue(dir.disk.Current()) <= Residue(old(dir.disk).Current())
    ensures status.Done? ==> Settled(dir.disk.Current(), prior)
  {
    MarkerRemoved(origin, dir.disk, prior);
    status := dir.Remove(Marker);
  }

  lemma MarkerRemoved(origin: ArtifactDisk, d: ArtifactDisk, prior: Pair)
    requires Faithful(origin, d, None) && CurrentOutcome(d) == prior && Possible(origin, prior)
    requires Restored(d.Current(), prior)
    ensures Faithful(origin, d.Unbound(Marker), None) && CurrentOutcome(d.Unbound(Marker)) == prior
    ensures Settled(d.Unbound(Marker).Current(), prior)
    ensures Marker !in d.Current() ==> Settled(d.Current(), prior)
  {
    assert Recoverable(d.Current(), d.nodes);
    assert Settled(d.Current() - {Marker}, prior);
    FaithfulKeeps(origin, d, d.Current() - {Marker});
  }

  // _rollback_transaction
  method RollbackTransaction(dir: ArtifactDirectory, flags: Flags, ghost origin: ArtifactDisk, ghost prior: Pair)
    returns (status: Status)
    requires Holding(origin, dir, prior)
    requires MarkerFlags(dir.disk.Current(), dir.disk.nodes) == Some(flags)
    modifies dir
    ensures FailsByFault(dir, status)
    ensures Holding(origin, dir, prior)
    ensures OnlyCoreChange(dir, {Marker, Lock, Receipt, LockRollback, ReceiptRollback})
    ensures status.Done? ==>
            AllSettled(dir.disk, prior) && Residue(dir.disk.Current()) <= Residue(old(dir.disk).Current())
  {
    var quarantined, more;
    status, quarantined := RestoreArtifact(dir, LockArtifact, flags, origin, prior);
    if status.Failed? { return; }
    status, more := RestoreArtifact(dir, ReceiptArtifact, flags, origin, prior);
    if status.Failed? { return; }
    :- ClearMarker(dir, origin, prior);
    status := PurgeQuarantined(dir, quarantined + more, origin, prior);
  }

  // _read_artifact: only a regular file can be read.
  method ReadArtifact(dir: ArtifactDirectory, name: Name) returns (status: Status, content: Option<Content>)
    requires dir.disk.Valid()
    modifies dir`faults
    ensures old(dir.faults) <= dir.faults
    ensures status.Failed? ==>
              || old(dir.faults) < dir.faults
              || (name in dir.disk.Current() && dir.disk.nodes[dir.disk.Current()[name]].NonRegular?)
    ensures status.Done? ==> content.Some? == (name in dir.disk.Current())
    ensures status.Done? && content.Some? ==>
              && dir.disk.nodes[dir.disk.Current()[name]].File?
              && content.value == dir.disk.nodes[dir.disk.Current()[name]].content
  {
    if name !in dir.disk.Current() { return Done, None; }
    if dir.disk.nodes[dir.disk.Current()[name]].NonRegular? { return Failed, None; }
    var failed := dir.Falters();
    if failed { return Failed, None; }
    return Done, Some(dir.disk.nodes[dir.disk.Current()[name]].content);
  }

  // Without a marker a rollback entry is a leftover; dropping it changes nothing.
  method PurgeLeftover(
    dir: ArtifactDirectory, a: Artifact, ghost origin: ArtifactDisk, ghost pair: Pair,
    ghost committed: Option<Publication>)
    returns (status: Status)
    requires Safe(origin, dir, committed)
    requires Lookup(dir.disk.Current(), Marker).None? && CurrentOutcome(dir.disk) == pair
    requires Possible(origin, pair) || PublishedAs(committed, pair, dir.disk.nodes)
    modifies dir
    ensures FailsByFault(dir, status)
    ensures Safe(origin, dir, committed)
    ensures OnlyCoreChange(dir, {a.Rollback()})
    ensures Residue(dir.disk.Current()) <= Residue(old(dir.disk).Current())
    ensures CurrentOutcome(dir.disk) == pair && dir.seen == old(dir.seen) + {dir.disk}
    ensures AgreedOn(old(dir.disk), pair) ==> AgreedOn(dir.disk, pair)
    ensures status.Done? ==> Lookup(dir.disk.Current(), a.Rollback()).None?
  {
    ghost var before := dir.disk;
    status := dir.Remove(a.Rollback());
    if dir.disk != before {
      assert Recoverable(before.Current(), before.nodes);
      FaithfulThen(origin, before, dir.disk.Current(), committed);
    }
  }

  method PurgeLeftovers(
    dir: ArtifactDirectory, ghost origin: ArtifactDisk, ghost pair: Pair, ghost committed: Option<Publication>)
    returns (status: Status)
    requires Safe(origin, dir, committed)
    requires Lookup(dir.disk.Current(), Marker).None? && CurrentOutcome(dir.disk) == pair
    requires Possible(origin, pair) || PublishedAs(committed, pair, dir.disk.nodes)
    modifies dir
    ensures FailsByFault(dir, status)
    ensures Safe(origin, dir, committed) && OnlyCoreChange(dir, {LockRollback, ReceiptRollback})
    ensures Residue(dir.disk.Current()) <= Residue(old(dir.disk).Current())
    ensures forall d :: d in dir.seen - old(dir.seen) ==> |d.images| > 0 && CurrentOutcome(d) == pair
    ensures CurrentOutcome(dir.disk) == pair
    ensures AgreedOn(old(dir.disk), pair) ==> AgreedOn(dir.disk, pair)
    ensures status.Done? ==> Settled(dir.disk.Current(), pair)
  {
    status := PurgeLeftover(dir, LockArtifact, origin, pair, committed);
    if status.Failed? { return; }
    status := PurgeLeftover(dir, ReceiptArtifact, origin, pair, committed);
  }

  // What recovery, cut off anywhere, can have made of the disk it found.
  ghost predicate RecoveryReaches(found: ArtifactDisk, d: ArtifactDisk, prior: Pair) {
    Faithful(found, d, None) && CurrentOutcome(d) == prior
  }

  // Whatever is none of recovery's business is as it was.
  ghost predicate OthersKept(found: Listing, image: Listing) {
    forall n :: !Core(n) && !n.Quarantine? ==> Lookup(image, n) == Lookup(found, n)
  }

  // What is left of recovery once stale quarantined nodes are gone.
  method RecoverMarked(dir: ArtifactDirectory, ghost origin: ArtifactDisk, ghost prior: Pair) returns (status: Status)
    requires Holding(origin, dir, prior)
    modifies dir
    ensures Holding(origin, dir, prior) && FailsByFault(dir, status)
    ensures OnlyCoreChange(dir, {Marker, Lock, Receipt, LockRollback, ReceiptRollback})
    ensures status.Done? ==> Settled(dir.disk.Current(), prior)
    ensures status.Done? ==> Residue(dir.disk.Current()) <= Residue(old(dir.disk).Current())
  {
    assert Recoverable(dir.disk.Current(), dir.disk.nodes);
    var marker;
    status, marker := ReadArtifact(dir, Marker);
    if status.Failed? { return; }
    if marker.None? {
      status := PurgeLeftovers(dir, origin, prior, None);
    } else {
      status := RollbackTransaction(dir, DecodeMarker(marker.value), origin, prior);
    }
  }

  // _recover_interrupted_transaction
  method RecoverInterrupted(dir: ArtifactDirectory, ghost origin: ArtifactDisk, ghost prior: Pair)
    returns (status: Status)
    requires Holding(origin, dir, prior)
    modifies dir
    ensures FailsByFault(dir, status)
    ensures Holding(origin, dir, prior)
    ensures dir.disk.nodes == old(dir.disk).nodes
    ensures forall d :: d in dir.seen ==> RecoveryReaches(origin, d, prior)
    ensures status.Done? ==> Settled(dir.disk.Current(), prior) && Residue(dir.disk.Current()) == {}
    ensures OthersKept(old(dir.disk).Current(), dir.disk.Current())
  {
    var failed := dir.Falters();
    if failed { return Failed; }
    var stale := set n | n in dir.disk.Current() && n.Quarantine?;
    :- PurgeQuarantined(dir, stale, origin, prior);
    status := RecoverMarked(dir, origin, prior);
  }

  // --- the transaction ----------------------------------------------------------------------

  /**
   * The transaction is open: the marker records the prior pair and its files sit under their
   * rollback names, so nothing done to the canonical names can change the outcome.
   */
  ghost predicate InTransaction(image: Listing, nodes: Nodes, prior: Pair) {
    && MarkerFlags(image, nodes) == Some(prior.Presence())
    && Lookup(image, LockRollback) == prior.lock
    && Lookup(image, ReceiptRollback) == prior.receipt
  }

  // Files stay files, and other nodes stay what they are.
  ghost predicate SameKinds(before: Nodes, after: Nodes) {
    |before| <= |after| && forall i :: 0 <= i < |before| ==> after[i].File? == before[i].File?
  }

  twostate predicate Extends(dir: ArtifactDirectory, changed: set<Name>)
    reads dir
  {
    && |old(dir.disk).images| > 0 && |dir.disk.images| > 0
    && Retains(old(dir.disk).nodes, dir.disk.nodes) && old(dir.fsynced) <= dir.fsynced
    && SameKinds(old(dir.disk).nodes, dir.disk.nodes)
    && (Marker !in changed ==>
          MarkerFlags(dir.disk.Current(), dir.disk.nodes) == MarkerFlags(old(dir.disk).Current(), old(dir.disk).nodes))
    && forall n :: Framed(n) && n !in changed ==> Lookup(dir.disk.Current(), n) == Lookup(old(dir.disk).Current(), n)
  }

  // Unlinks a name outside the transaction.
  method RemoveAside(dir: ArtifactDirectory, name: Name, ghost origin: ArtifactDisk, ghost prior: Pair)
    returns (status: Status)
    requires Holding(origin, dir, prior) && !Framed(name)
    modifies dir
    ensures FailsByFault(dir, status)
    ensures Holding(origin, dir, prior) && Extends(dir, {})
    ensures dir.disk.nodes == old(dir.disk).nodes
    ensures status.Done? ==> name !in dir.disk.Current()
  {
    ghost var before := dir.disk;
    status := dir.Remove(name);
    if dir.disk != before { FaithfulAside(origin, before, dir.disk.Current(), None); }
  }

  // Creates a file under a name outside the transaction.
  method CreateAside(
    dir: ArtifactDirectory, name: Name, content: Content, ghost origin: ArtifactDisk, ghost prior: Pair)
    returns (status: Status, inode: nat)
    requires Holding(origin, dir, prior) && !Framed(name)
    modifies dir
    ensures old(dir.faults) <= dir.faults && (name !in old(dir.disk).Current() ==> FailsByFault(dir, status))
    ensures Holding(origin, dir, prior) && Extends(dir, {})
    ensures status.Done? ==>
              && Lookup(dir.disk.Current(), name) == Some(inode)
              && inode == |old(dir.disk).nodes|
              && |dir.disk.nodes| == inode + 1
              && dir.disk.nodes[inode] == File(content, false)
  {
    ghost var before := dir.disk;
    status, inode := dir.Create(name, content);
    if status.Failed? { return; }
    FaithfulStored(origin, before, dir.disk.nodes, None);
    FaithfulAside(origin, before.(nodes := dir.disk.nodes), dir.disk.Current(), None);
  }

  // Writes and fsyncs one file that is not durable yet.
  method WriteThrough(
    dir: ArtifactDirectory, inode: nat, content: Content, ghost origin: ArtifactDisk, ghost prior: Pair)
    returns (status: Status)
    requires Holding(origin, dir, prior)
    requires inode < |dir.disk.nodes| && dir.disk.nodes[inode].File? && !dir.disk.nodes[inode].durable
    modifies dir
    ensures FailsByFault(dir, status)
    ensures Holding(origin, dir, prior) && Extends(dir, {})
    ensures dir.disk.images == old(dir.disk).images && |dir.disk.nodes| == |old(dir.disk).nodes|
    ensures forall i :: 0 <= i < |dir.disk.nodes| && i != inode ==> dir.disk.nodes[i] == old(dir.disk).nodes[i]
    ensures status.Done? ==> dir.disk.nodes[inode] == File(content, true)
  {
    ghost var before := dir.disk;
    var garbage: Content := *;
    status := dir.Write(inode, content, garbage);
    FaithfulStored(origin, before, dir.disk.nodes, None);
    if status.Failed? { return; }
    status := SyncSource(dir, inode, origin, prior);
  }

  // The marker is in every listing that can be on storage: nothing may be moved before.
  ghost predicate AllMarked(d: ArtifactDisk, flags: Flags) {
    forall i :: 0 <= i < |d.images| ==> MarkerFlags(d.images[i], d.nodes) == Some(flags)
  }

  // So are the moved artifacts, and their contents were fsynced: the resolver may not run before.
  ghost predicate AllInTransaction(d: ArtifactDisk, prior: Pair) {
    |d.images| > 0 && forall i :: 0 <= i < |d.images| ==> InTransaction(d.images[i], d.nodes, prior)
  }

  ghost predicate BackedUp(dir: ArtifactDirectory, prior: Pair)
    reads dir
  {
    && (prior.lock.Some? ==> prior.lock.value in dir.fsynced)
    && (prior.receipt.Some? ==> prior.receipt.value in dir.fsynced)
  }

  // _fsync_file
  method SyncSource(dir: ArtifactDirectory, inode: nat, ghost origin: ArtifactDisk, ghost prior: Pair)
    returns (status: Status)
    requires Holding(origin, dir, prior)
    requires inode < |dir.disk.nodes| && dir.disk.nodes[inode].File?
    modifies dir
    ensures FailsByFault(dir, status)
    ensures Holding(origin, dir, prior) && Extends(dir, {})
    ensures dir.disk.images == old(dir.disk).images && |dir.disk.nodes| == |old(dir.disk).nodes|
    ensures forall i :: 0 <= i < |dir.disk.nodes| && i != inode ==> dir.disk.nodes[i] == old(dir.disk).nodes[i]
    ensures status.Done? ==>
            dir.disk.nodes[inode] == old(dir.disk).nodes[inode].(durable := true) && inode in dir.fsynced
  {
    ghost var before := dir.disk;
    status := dir.SyncFile(inode);
    FaithfulStored(origin, before, dir.disk.nodes, None);
  }

  // Only a regular file may be replaced.
  ghost predicate Writable(d: ArtifactDisk, name: Name) {
    |d.images| > 0 && (name in d.Current() && d.Current()[name] < |d.nodes| ==> d.nodes[d.Current()[name]].File?)
  }

  // The first half of _write_artifact: a durable temporary with exactly this content.
  method StageArtifact(
    dir: ArtifactDirectory, name: Name, content: Content, ghost origin: ArtifactDisk, ghost prior: Pair)
    returns (status: Status)
    requires Holding(origin, dir, prior)
    modifies dir
    ensures Writable(old(dir.disk), name) ==> FailsByFault(dir, status)
    ensures status.Done? ==> Writable(old(dir.disk), name)
    ensures old(dir.faults) <= dir.faults
    ensures Holding(origin, dir, prior) && Extends(dir, {})
    ensures status.Done? ==>
              && Temporary(name) in dir.disk.Current()
              && |old(dir.disk).nodes| <= dir.disk.Current()[Temporary(name)] < |dir.disk.nodes|
              && dir.disk.nodes[dir.disk.Current()[Temporary(name)]] == File(content, true)
  {
    assert Recoverable(dir.disk.Current(), dir.disk.nodes);
    if name in dir.disk.Current() && dir.disk.nodes[dir.disk.Current()[name]].NonRegular? { return Failed; }
    var inode;
    status, inode := FreshAside(dir, Temporary(name), origin, prior);
    if status.Failed? { return; }
    status := WriteThrough(dir, inode, content, origin, prior);
  }

  // A stale file under the name is dropped, and a new one created exclusively.
  method FreshAside(dir: ArtifactDirectory, name: Name, ghost origin: ArtifactDisk, ghost prior: Pair)
    returns (status: Status, inode: nat)
    requires Holding(origin, dir, prior) && !Framed(name)
    modifies dir
    ensures FailsByFault(dir, status)
    ensures Holding(origin, dir, prior) && Extends(dir, {})
    ensures status.Done? ==>
              && Lookup(dir.disk.Current(), name) == Some(inode)
              && inode == |old(dir.disk).nodes| && |dir.disk.nodes| == inode + 1
              && dir.disk.nodes[inode].File? && !dir.disk.nodes[inode].durable
  {
    inode := |dir.disk.nodes|;
    status := RemoveAside(dir, name, origin, prior);
    if status.Failed? { return; }
    var garbage: Content := *;
    status, inode := CreateAside(dir, name, garbage, origin, prior);
  }

  // Publishing the marker opens the transaction without changing what survives.
  lemma MarkerLands(origin: ArtifactDisk, d: ArtifactDisk, image: Listing, prior: Pair)
    requires Faithful(origin, d, None) && CurrentOutcome(d) == prior && Possible(origin, prior)
    requires forall n :: n in image ==> image[n] < |d.nodes|
    requires Settled(d.Current(), prior)
    requires Marker in image && d.nodes[image[Marker]] == File(EncodeMarker(prior.Presence()), true)
    requires forall n :: Core(n) && n != Marker ==> Lookup(image, n) == Lookup(d.Current(), n)
    requires KeepsInput(d, image)
    ensures Faithful(origin, d.Then(image), None)
    ensures MarkerFlags(image, d.nodes) == Some(prior.Presence()) && Outcome(image, d.nodes) == prior
  {
    assert Restored(image, prior);
    assert Recoverable(d.Current(), d.nodes);
    StaysEquipped(origin, d, image, None);
    FaithfulThen(origin, d, image, None);
  }

  // While the transaction is open, canonical names can change freely.
  lemma CanonicalChanges(origin: ArtifactDisk, d: ArtifactDisk, image: Listing, prior: Pair)
    requires Faithful(origin, d, None) && CurrentOutcome(d) == prior && Possible(origin, prior)
    requires forall n :: n in image ==> image[n] < |d.nodes|
    requires InTransaction(d.Current(), d.nodes, prior)
    requires forall n :: Core(n) && n != Lock && n != Receipt ==> Lookup(image, n) == Lookup(d.Current(), n)
    requires KeepsInput(d, image)
    ensures Faithful(origin, d.Then(image), None)
    ensures Outcome(image, d.nodes) == prior && InTransaction(image, d.nodes, prior)
  {
    assert Lookup(image, Marker) == Lookup(d.Current(), Marker);
    assert InTransaction(image, d.nodes, prior);
    FaithfulKeeps(origin, d, image);
  }

  // Where each of the three artifacts the transaction writes may appear.
  ghost predicate MayLand(d: ArtifactDisk, name: Name, content: Content, prior: Pair)
    requires |d.images| > 0
  {
    match name
    case Requirements => content == REQUIREMENTS_INPUT
    case Marker => Settled(d.Current(), prior) && content == EncodeMarker(prior.Presence())
    case Receipt => InTransaction(d.Current(), d.nodes, prior)
    case _ => false
  }

  lemma ArtifactLands(origin: ArtifactDisk, d: ArtifactDisk, name: Name, content: Content, prior: Pair)
    requires Faithful(origin, d, None) && CurrentOutcome(d) == prior && Possible(origin, prior)
    requires MayLand(d, name, content, prior)
    requires Temporary(name) in d.Current() && d.nodes[d.Current()[Temporary(name)]] == File(content, true)
    ensures var after := d.Moved(Temporary(name), name);
            && Faithful(origin, after, None) && CurrentOutcome(after) == prior
            && (name != Marker ==> MarkerFlags(after.Current(), d.nodes) == MarkerFlags(d.Current(), d.nodes))
  {
    assert Recoverable(d.Current(), d.nodes);
    MovedLookups(d.Current(), Temporary(name), name);
    var image := d.Moved(Temporary(name), name).Current();
    match name
    case Marker => MarkerLands(origin, d, image, prior);
    case Receipt => CanonicalChanges(origin, d, image, prior);
    case Requirements => FaithfulAside(origin, d, image, None);
  }

  // _write_artifact
  method WriteArtifact(
    dir: ArtifactDirectory, name: Name, content: Content, ghost origin: ArtifactDisk, ghost prior: Pair)
    returns (status: Status)
    requires Holding(origin, dir, prior) && MayLand(dir.disk, name, content, prior)
    modifies dir
    ensures Writable(old(dir.disk), name) ==> FailsByFault(dir, status)
    ensures status.Done? ==> Writable(old(dir.disk), name)
    ensures old(dir.faults) <= dir.faults
    ensures Holding(origin, dir, prior)
    ensures Extends(dir, {name})
    ensures status.Done? ==>
              && name in dir.disk.Current()
              && |old(dir.disk).nodes| <= dir.disk.Current()[name] < |dir.disk.nodes|
              && dir.disk.nodes[dir.disk.Current()[name]] == File(content, true)
  {
    status := StageArtifact(dir, name, content, origin, prior);
    if status.Failed? { return; }
    ArtifactLands(origin, dir.disk, name, content, prior);
    MovedLookups(dir.disk.Current(), Temporary(name), name);
    status := dir.Rename(Temporary(name), name);
  }

  method MoveToRollback(dir: ArtifactDirectory, a: Artifact, ghost origin: ArtifactDisk, ghost prior: Pair)
    returns (status: Status)
    requires Holding(origin, dir, prior) && prior.Of(a).Some?
    requires MarkerFlags(dir.disk.Current(), dir.disk.nodes) == Some(prior.Presence())
    requires Lookup(dir.disk.Current(), a.Rollback()).None?
    requires Lookup(dir.disk.Current(), a.Canonical()) == prior.Of(a)
    modifies dir
    ensures Holding(origin, dir, prior) && FailsByFault(dir, status)
    ensures OnlyCoreChange(dir, {a.Canonical(), a.Rollback()})
    ensures status.Done? ==>
            Lookup(dir.disk.Current(), a.Rollback()) == prior.Of(a) && Lookup(dir.disk.Current(), a.Canonical()).None?
  {
    status := dir.Remove(a.Rollback());
    if status.Failed? { return; }
    MovesSurvive(dir.disk.Current(), dir.disk.nodes, a, false);
    status := MoveKeeping(dir, a.Canonical(), a.Rollback(), origin, prior);
  }

  // One pass of the loop of _begin_transaction: move an existing artifact to its rollback name.
  method MoveAside(dir: ArtifactDirectory, a: Artifact, flags: Flags, ghost origin: ArtifactDisk, ghost prior: Pair)
    returns (status: Status)
    requires Holding(origin, dir, prior) && flags == prior.Presence()
    requires MarkerFlags(dir.disk.Current(), dir.disk.nodes) == Some(flags)
    requires Lookup(dir.disk.Current(), a.Rollback()).None?
    requires Lookup(dir.disk.Current(), a.Canonical()) == prior.Of(a)
    modifies dir
    ensures FailsByFault(dir, status)
    ensures Holding(origin, dir, prior)
    ensures Extends(dir, {a.Canonical(), a.Rollback()})
    ensures status.Done? ==> Lookup(dir.disk.Current(), a.Rollback()) == prior.Of(a)
    ensures status.Done? && prior.Of(a).Some? ==> prior.Of(a).value in dir.fsynced
    ensures status.Done? ==> Lookup(dir.disk.Current(), a.Canonical()).None?
  {
    if !flags.Of(a) { return Done; }
    :- MoveToRollback(dir, a, origin, prior);
    assert Recoverable(dir.disk.Current(), dir.disk.nodes);
    status := SyncSource(dir, dir.disk.Current()[a.Rollback()], origin, prior);
  }

  method Barrier(dir: ArtifactDirectory, ghost origin: ArtifactDisk, ghost prior: Pair) returns (status: Status)
    requires Holding(origin, dir, prior)
    modifies dir`disk, dir`seen, dir`barriers, dir`faults
    ensures FailsByFault(dir, status)
    ensures Holding(origin, dir, prior) && Extends(dir, {})
    ensures status.Done? ==> dir.disk == old(dir.disk).Synced()
    ensures status.Failed? ==> dir.disk == old(dir.disk)
  {
    FaithfulSynced(origin, dir.disk, None);
    status := dir.Sync();
  }

  // What a resolution finds under the names outside the transaction.
  ghost predicate AsideKept(before: ArtifactDisk, after: ArtifactDisk) {
    && |before.images| > 0 && |after.images| > 0
    && Lookup(after.Current(), Requirements) == Lookup(before.Current(), Requirements)
    && Lookup(after.Current(), Cache) == Lookup(before.Current(), Cache)
  }

  // _begin_transaction
  method BeginTransaction(dir: ArtifactDirectory, flags: Flags, ghost origin: ArtifactDisk, ghost prior: Pair)
    returns (status: Status)
    requires Holding(origin, dir, prior) && Settled(dir.disk.Current(), prior)
    requires flags == prior.Presence()
    modifies dir
    ensures FailsByFault(dir, status)
    ensures Holding(origin, dir, prior)
    ensures Retains(old(dir.disk).nodes, dir.disk.nodes) && SameKinds(old(dir.disk).nodes, dir.disk.nodes)
    ensures AsideKept(old(dir.disk), dir.disk)
    ensures status.Done? ==> AllInTransaction(dir.disk, prior) && BackedUp(dir, prior)
    ensures status.Done? ==> Lookup(dir.disk.Current(), Lock).None? && Lookup(dir.disk.Current(), Receipt).None?
  {
    status := MarkTransaction(dir, flags, origin, prior);
    if status.Failed? { return; }
    :- MoveBothAside(dir, flags, origin, prior);
    status := Barrier(dir, origin, prior);
  }

  method MarkTransaction(dir: ArtifactDirectory, flags: Flags, ghost origin: ArtifactDisk, ghost prior: Pair)
    returns (status: Status)
    requires Holding(origin, dir, prior) && Settled(dir.disk.Current(), prior) && flags == prior.Presence()
    modifies dir
    ensures FailsByFault(dir, status) && Holding(origin, dir, prior) && Extends(dir, {Marker})
    ensures status.Done? ==> AllMarked(dir.disk, flags) && Restored(dir.disk.Current(), prior)
  {
    status := WriteArtifact(dir, Marker, EncodeMarker(flags), origin, prior);
    if status.Failed? { return; }
    status := Barrier(dir, origin, prior);
  }

  method MoveBothAside(dir: ArtifactDirectory, flags: Flags, ghost origin: ArtifactDisk, ghost prior: Pair)
    returns (status: Status)
    requires Holding(origin, dir, prior) && Restored(dir.disk.Current(), prior) && flags == prior.Presence()
    requires AllMarked(dir.disk, flags)
    modifies dir
    ensures FailsByFault(dir, status)
    ensures Holding(origin, dir, prior)
    ensures Retains(old(dir.disk).nodes, dir.disk.nodes) && SameKinds(old(dir.disk).nodes, dir.disk.nodes)
    ensures AsideKept(old(dir.disk), dir.disk)
    ensures status.Done? ==> InTransaction(dir.disk.Current(), dir.disk.nodes, prior) && BackedUp(dir, prior)
    ensures status.Done? ==> Lookup(dir.disk.Current(), Lock).None? && Lookup(dir.disk.Current(), Receipt).None?
  {
    status := MoveAside(dir, LockArtifact, flags, origin, prior);
    if status.Failed? { return; }
    status := MoveAside(dir, ReceiptArtifact, flags, origin, prior);
  }

  // The resolver's store can be opened: no regular file is in its place.
  ghost predicate Openable(d: ArtifactDisk) {
    |d.images| > 0 && (Cache in d.Current() && d.Current()[Cache] < |d.nodes| ==> !d.nodes[d.Current()[Cache]].File?)
  }

  // _ensure_cache_directory, as far as it touches the artifact directory itself.
  method EnsureCacheDirectory(dir: ArtifactDirectory, ghost origin: ArtifactDisk, ghost prior: Pair)
    returns (status: Status)
    requires Holding(origin, dir, prior)
    modifies dir
    ensures old(dir.faults) <= dir.faults && (Openable(old(dir.disk)) ==> FailsByFault(dir, status))
    ensures status.Done? ==> Openable(old(dir.disk))
    ensures Holding(origin, dir, prior) && Extends(dir, {Cache})
  {
    assert Recoverable(dir.disk.Current(), dir.disk.nodes);
    if Cache in dir.disk.Current() && dir.disk.nodes[dir.disk.Current()[Cache]].File? { return Failed; }
    var failed := dir.Falters();
    if failed { return Failed; }
    if Cache !in dir.disk.Current() {
      ghost var before := dir.disk;
      dir.Settle(dir.disk.Added(NonRegular).Bound(Cache, |dir.disk.nodes|));
      FaithfulStored(origin, before, dir.disk.nodes, None);
      FaithfulAside(origin, before.(nodes := dir.disk.nodes), dir.disk.Current(), None);
    }
    failed := dir.Falters();
    return if failed then Failed else Done;
  }

  // Nodes from `base` on are the resolver's, and only the lock name leads to them.
  ghost predicate ResolverOwns(d: ArtifactDisk, base: nat) {
    && |d.images| > 0 && base <= |d.nodes|
    && (Lookup(d.Current(), Lock).Some? ==> d.Current()[Lock] >= base)
    && forall i, n :: 0 <= i < |d.images| && n in d.images[i] && n != Lock ==> d.images[i][n] < base
  }

  // What every step of the resolver keeps.
  ghost predicate Resolving(origin: ArtifactDisk, dir: ArtifactDirectory, prior: Pair, base: nat)
    reads dir
  {
    && Holding(origin, dir, prior) && InTransaction(dir.disk.Current(), dir.disk.nodes, prior)
    && ResolverOwns(dir.disk, base) && |origin.nodes| <= base
  }

  twostate predicate OnlyResolverChange(dir: ArtifactDirectory, base: nat)
    reads dir
  {
    && |old(dir.disk).images| > 0 && |dir.disk.images| > 0
    && base <= |old(dir.disk).nodes| && base <= |dir.disk.nodes| && dir.faults == old(dir.faults)
    && dir.disk.nodes[..base] == old(dir.disk).nodes[..base]
    && forall n :: n != Lock ==> Lookup(dir.disk.Current(), n) == Lookup(old(dir.disk).Current(), n)
  }

  lemma LockReplaced(origin: ArtifactDisk, d: ArtifactDisk, node: Node<Content>, prior: Pair, base: nat)
    requires Faithful(origin, d, None) && CurrentOutcome(d) == prior && Possible(origin, prior)
    requires InTransaction(d.Current(), d.nodes, prior) && ResolverOwns(d, base)
    ensures var after := d.Added(node).Bound(Lock, |d.nodes|);
            && Faithful(origin, after, None) && CurrentOutcome(after) == prior
            && InTransaction(after.Current(), after.nodes, prior) && ResolverOwns(after, base)
  {
    assert Recoverable(d.Current(), d.nodes);
    var added := d.Added(node);
    FaithfulStored(origin, d, added.nodes, None);
    assert MarkerFlags(d.Current(), added.nodes) == MarkerFlags(d.Current(), d.nodes);
    CanonicalChanges(origin, added, added.Current()[Lock := |d.nodes|], prior);
  }

  // The resolver puts a new node, of any type and with any content, under the lock name.
  method ResolverReplaces(
    dir: ArtifactDirectory, node: Node<Content>, ghost origin: ArtifactDisk, ghost prior: Pair, ghost base: nat)
    requires Resolving(origin, dir, prior, base)
    modifies dir
    ensures Resolving(origin, dir, prior, base) && OnlyResolverChange(dir, base) && LockIs(dir.disk, Some(node))
  {
    LockReplaced(origin, dir.disk, node, prior, base);
    dir.Settle(dir.disk.Added(node).Bound(Lock, |dir.disk.nodes|));
  }

  method ResolverRemoves(dir: ArtifactDirectory, ghost origin: ArtifactDisk, ghost prior: Pair, ghost base: nat)
    requires Resolving(origin, dir, prior, base)
    modifies dir
    ensures Resolving(origin, dir, prior, base) && OnlyResolverChange(dir, base) && LockIs(dir.disk, None)
  {
    ghost var before := dir.disk;
    assert Recoverable(before.Current(), before.nodes);
    dir.Settle(dir.disk.Unbound(Lock));
    CanonicalChanges(origin, before, dir.disk.Current(), prior);
  }

  // A node of this call's own that no listing needs may change in any way, durable or not.
  lemma FaithfulRewritten(origin: ArtifactDisk, d: ArtifactDisk, inode: nat, node: Node<Content>)
    requires AllRecoverable(origin) && Faithful(origin, d, None)
    requires |origin.nodes| <= inode < |d.nodes|
    requires forall i, n :: 0 <= i < |d.images| && n in d.images[i] && n in {Marker, Requirements} ==>
               d.images[i][n] != inode
    ensures Faithful(origin, d.Stored(inode, node), None)
    ensures forall i :: 0 <= i < |d.images| ==>
              && Outcome(d.images[i], d.Stored(inode, node).nodes) == Outcome(d.images[i], d.nodes)
              && MarkerFlags(d.images[i], d.Stored(inode, node).nodes) == MarkerFlags(d.images[i], d.nodes)
  {
    var after := d.Stored(inode, node);
    forall i | 0 <= i < |d.images|
      ensures Recoverable(d.images[i], after.nodes)
      ensures Outcome(d.images[i], after.nodes) == Outcome(d.images[i], d.nodes)
      ensures MarkerFlags(d.images[i], after.nodes) == MarkerFlags(d.images[i], d.nodes)
    {
      assert Recoverable(d.images[i], d.nodes);
      var k :| 0 <= k < |origin.images| && Outcome(origin.images[k], origin.nodes) == Outcome(d.images[i], d.nodes);
      assert Recoverable(origin.images[k], origin.nodes);
    }
  }

  lemma LockRewritten(origin: ArtifactDisk, d: ArtifactDisk, node: Node<Content>, prior: Pair, base: nat)
    requires AllRecoverable(origin) && Faithful(origin, d, None) && CurrentOutcome(d) == prior
    requires InTransaction(d.Current(), d.nodes, prior) && ResolverOwns(d, base)
    requires |origin.nodes| <= base && Lock in d.Current() && d.Current()[Lock] < |d.nodes|
    ensures var after := d.Stored(d.Current()[Lock], node);
            && Faithful(origin, after, None) && CurrentOutcome(after) == prior
            && InTransaction(after.Current(), after.nodes, prior) && ResolverOwns(after, base)
            && after.nodes[..base] == d.nodes[..base]
  {
    assert Lookup(d.Current(), Lock).Some?;
    FaithfulRewritten(origin, d, d.Current()[Lock], node);
  }

  // The resolver rewrites the file under the lock name in place, even one it made durable before.
  method ResolverRewrites(
    dir: ArtifactDirectory, node: Node<Content>, ghost origin: ArtifactDisk, ghost prior: Pair, ghost base: nat)
    requires Resolving(origin, dir, prior, base) && AllRecoverable(origin)
    modifies dir
    ensures Resolving(origin, dir, prior, base) && OnlyResolverChange(dir, base)
    ensures LockIs(dir.disk, if Lock in old(dir.disk).Current() then Some(node) else None)
  {
    if Lock in dir.disk.Current() {
      assert Recoverable(dir.disk.Current(), dir.disk.nodes);
      LockRewritten(origin, dir.disk, node, prior, base);
      dir.Settle(dir.disk.Stored(dir.disk.Current()[Lock], node));
    }
  }

  // One change the resolver makes to the canonical lock name.
  datatype Edit = Replace(node: Node<Content>) | Rewrite(node: Node<Content>) | Drop

  // A run of the resolver: any number of changes, of any kind, and whether it exits with 0.
  datatype ResolverRun = ResolverRun(edits: seq<Edit>, succeeded: bool)

  // The node it leaves under the lock name.
  function Produced(edits: seq<Edit>): Option<Node<Content>> {
    if |edits| == 0 then None
    else
      var before := Produced(edits[..|edits| - 1]);
      match edits[|edits| - 1]
      case Replace(node) => Some(node)
      case Rewrite(node) => if before.Some? then Some(node) else None
      case Drop => None
  }

  ghost predicate LockIs(d: ArtifactDisk, node: Option<Node<Content>>) {
    && |d.images| > 0
    && if node.None? then Lookup(d.Current(), Lock).None?
       else Lock in d.Current() && d.Current()[Lock] < |d.nodes| && d.nodes[d.Current()[Lock]] == node.value
  }

  method ApplyEdit(
    dir: ArtifactDirectory, edit: Edit, ghost produced: Option<Node<Content>>, ghost origin: ArtifactDisk,
    ghost prior: Pair, ghost base: nat)
    requires Resolving(origin, dir, prior, base) && AllRecoverable(origin) && LockIs(dir.disk, produced)
    modifies dir
    ensures Resolving(origin, dir, prior, base) && OnlyResolverChange(dir, base)
    ensures LockIs(dir.disk, match edit
                             case Replace(node) => Some(node)
                             case Rewrite(node) => if produced.Some? then Some(node) else None
                             case Drop => None)
  {
    match edit
    case Replace(node) => ResolverReplaces(dir, node, origin, prior, base);
    case Rewrite(node) => ResolverRewrites(dir, node, origin, prior, base);
    case Drop => ResolverRemoves(dir, origin, prior, base);
  }

  // The resolver subprocess.
  method RunResolver(dir: ArtifactDirectory, run: ResolverRun, ghost origin: ArtifactDisk, ghost prior: Pair)
    returns (status: Status)
    requires Holding(origin, dir, prior) && InTransaction(dir.disk.Current(), dir.disk.nodes, prior)
    requires Lookup(dir.disk.Current(), Lock).None? && AllRecoverable(origin)
    modifies dir
    ensures dir.faults == old(dir.faults) && (status.Done? <==> run.succeeded)
    ensures LockIs(dir.disk, Produced(run.edits))
    ensures Holding(origin, dir, prior) && InTransaction(dir.disk.Current(), dir.disk.nodes, prior)
    ensures |old(dir.disk).nodes| <= |dir.disk.nodes|
    ensures dir.disk.nodes[..|old(dir.disk).nodes|] == old(dir.disk).nodes
    ensures forall n :: n != Lock ==> Lookup(dir.disk.Current(), n) == Lookup(old(dir.disk).Current(), n)
  {
    ghost var base := |dir.disk.nodes|;
    ResolverStarts(origin, dir, prior);
    for k := 0 to |run.edits|
      invariant Resolving(origin, dir, prior, base) && OnlyResolverChange(dir, base)
      invariant LockIs(dir.disk, Produced(run.edits[..k]))
    {
      assert run.edits[..k + 1][..k] == run.edits[..k];
      ApplyEdit(dir, run.edits[k], Produced(run.edits[..k]), origin, prior, base);
    }
    assert run.edits[..|run.edits|] == run.edits;
    return if run.succeeded then Done else Failed;
  }

  lemma ResolverStarts(origin: ArtifactDisk, dir: ArtifactDirectory, prior: Pair)
    requires Holding(origin, dir, prior) && InTransaction(dir.disk.Current(), dir.disk.nodes, prior)
    requires Lookup(dir.disk.Current(), Lock).None?
    ensures Resolving(origin, dir, prior, |dir.disk.nodes|)
  {
    forall i, n | 0 <= i < |dir.disk.images| && n in dir.disk.images[i] && n != Lock
      ensures dir.disk.images[i][n] < |dir.disk.nodes|
    {
      assert Recoverable(dir.disk.images[i], dir.disk.nodes);
    }
  }

  // What was produced can be adopted: a regular file that builds and does not change the frozen
  // lock, and production identity is unchanged.
  ghost predicate Adoptable(node: Option<Node<Content>>, call: Call, frozenLock: Option<Content>) {
    && node.Some? && node.value.File? && call.builds(node.value.content)
    && (frozenLock.Some? ==> node.value.content == frozenLock.value) && call.recapture == Some(call.before)
  }

  /**
   * Open the produced lock once: the content that is checked is the content that is fsynced, and
   * it is fsynced only after production identity was found unchanged.
   */
  method AdoptResolution(
    dir: ArtifactDirectory, call: Call, frozenLock: Option<Content>,
    ghost produced: Option<Node<Content>>, ghost origin: ArtifactDisk, ghost prior: Pair)
    returns (status: Status, lock: Content)
    requires Holding(origin, dir, prior) && InTransaction(dir.disk.Current(), dir.disk.nodes, prior)
    requires LockIs(dir.disk, produced)
    modifies dir
    ensures old(dir.faults) <= dir.faults && (Adoptable(produced, call, frozenLock) ==> FailsByFault(dir, status))
    ensures status.Done? ==> Adoptable(produced, call, frozenLock) && lock == produced.value.content
    ensures Holding(origin, dir, prior) && Extends(dir, {})
    ensures status.Done? ==>
              && Lock in dir.disk.Current() && dir.disk.Current()[Lock] < |dir.disk.nodes|
              && dir.disk.nodes[dir.disk.Current()[Lock]] == File(lock, true)
  {
    lock := REQUIREMENTS_INPUT;
    assert Recoverable(dir.disk.Current(), dir.disk.nodes);
    var read;
    status, read := ReadArtifact(dir, Lock);
    if status.Failed? { return; }
    if read.None? { return Failed, lock; }
    lock := read.value;
    if frozenLock.Some? && lock != frozenLock.value { return Failed, lock; }
    if !call.builds(lock) { return Failed, lock; }
    if call.recapture != Some(call.before) { return Failed, lock; }
    status := SyncSource(dir, dir.disk.Current()[Lock], origin, prior);
  }

  // Nothing stands in the way of the requirements input and the resolver's store.
  ghost predicate Prepared(d: ArtifactDisk) { Writable(d, Requirements) && Openable(d) }

  // The requirements input and the resolver's store.
  method PrepareInputs(dir: ArtifactDirectory, ghost origin: ArtifactDisk, ghost prior: Pair) returns (status: Status)
    requires Holding(origin, dir, prior) && InTransaction(dir.disk.Current(), dir.disk.nodes, prior)
    modifies dir
    ensures Holding(origin, dir, prior) && Extends(dir, {Requirements, Cache})
    ensures Prepared(old(dir.disk)) ==> FailsByFault(dir, status)
    ensures old(dir.faults) <= dir.faults
    ensures status.Done? ==> Prepared(old(dir.disk)) && RequirementsFrozen(dir.disk)
  {
    assert Recoverable(dir.disk.Current(), dir.disk.nodes);
    ghost var before := dir.disk;
    status := WriteArtifact(dir, Requirements, REQUIREMENTS_INPUT, origin, prior);
    OpenableStays(before, dir.disk);
    if status.Failed? { return; }
    assert Lookup(dir.disk.Current(), Requirements).Some?;
    status := EnsureCacheDirectory(dir, origin, prior);
  }

  lemma OpenableStays(before: ArtifactDisk, after: ArtifactDisk)
    requires |before.images| > 0 && |after.images| > 0 && SameKinds(before.nodes, after.nodes)
    requires Cache in before.Current() ==> before.Current()[Cache] < |before.nodes|
    requires Lookup(after.Current(), Cache) == Lookup(before.Current(), Cache)
    ensures Openable(after) <==> Openable(before)
  {
    assert Cache in before.Current() <==> Lookup(before.Current(), Cache).Some?;
    assert Cache in after.Current() <==> Lookup(after.Current(), Cache).Some?;
  }

  // The requirements input, the resolver's store, and the resolver.
  method PrepareAndResolve(dir: ArtifactDirectory, run: ResolverRun, ghost origin: ArtifactDisk, ghost prior: Pair)
    returns (status: Status)
    requires Holding(origin, dir, prior) && InTransaction(dir.disk.Current(), dir.disk.nodes, prior)
    requires Lookup(dir.disk.Current(), Lock).None? && AllRecoverable(origin)
    modifies dir
    ensures Holding(origin, dir, prior) && InTransaction(dir.disk.Current(), dir.disk.nodes, prior)
    ensures Retains(old(dir.disk).nodes, dir.disk.nodes)
    ensures Prepared(old(dir.disk)) && run.succeeded ==> FailsByFault(dir, status)
    ensures old(dir.faults) <= dir.faults
    ensures status.Done? ==> RequirementsFrozen(dir.disk)
    ensures status.Done? ==> Prepared(old(dir.disk)) && run.succeeded && LockIs(dir.disk, Produced(run.edits))
    ensures Lookup(dir.disk.Current(), Receipt) == Lookup(old(dir.disk).Current(), Receipt)
  {
    status := PrepareInputs(dir, origin, prior);
    if status.Failed? { return; }
    assert Lookup(dir.disk.Current(), Requirements).Some? && Lookup(dir.disk.Current(), Lock).None?;
    status := RunResolver(dir, run, origin, prior);
  }

  // The resolver exits with 0 and leaves a lock that can be adopted.
  ghost predicate Resolvable(run: ResolverRun, call: Call, frozenLock: Option<Content>) {
    run.succeeded && Adoptable(Produced(run.edits), call, frozenLock)
  }

  // The guarded block of _resolve_candidate_lock.
  method ResolveAndPublish(
    dir: ArtifactDirectory, call: Call, run: ResolverRun, frozenLock: Option<Content>,
    ghost origin: ArtifactDisk, ghost prior: Pair)
    returns (status: Status, lock: Content)
    requires Holding(origin, dir, prior) && AllInTransaction(dir.disk, prior) && BackedUp(dir, prior)
    requires Lookup(dir.disk.Current(), Lock).None? && Lookup(dir.disk.Current(), Receipt).None?
    requires AllRecoverable(origin)
    modifies dir
    ensures old(dir.faults) <= dir.faults
    ensures Prepared(old(dir.disk)) && Resolvable(run, call, frozenLock) ==> FailsByFault(dir, status)
    ensures status.Done? ==>
            && Prepared(old(dir.disk)) && Resolvable(run, call, frozenLock) && lock == Produced(run.edits).value.content
    ensures Holding(origin, dir, prior) && InTransaction(dir.disk.Current(), dir.disk.nodes, prior)
    ensures Retains(old(dir.disk).nodes, dir.disk.nodes)
    ensures status.Done? ==>
              && Complete(Canonical(dir.disk), dir.disk.nodes, call.request, lock) && RequirementsFrozen(dir.disk)
              && Canonical(dir.disk).receipt.value >= |old(dir.disk).nodes|
  {
    lock := REQUIREMENTS_INPUT;
    status := PrepareAndResolve(dir, run, origin, prior);
    if status.Failed? { return; }
    status, lock := AdoptAndCertify(dir, call, frozenLock, Produced(run.edits), origin, prior);
  }

  // The produced lock and the receipt for it.
  method AdoptAndCertify(
    dir: ArtifactDirectory, call: Call, frozenLock: Option<Content>,
    ghost produced: Option<Node<Content>>, ghost origin: ArtifactDisk, ghost prior: Pair)
    returns (status: Status, lock: Content)
    requires Holding(origin, dir, prior) && InTransaction(dir.disk.Current(), dir.disk.nodes, prior)
    requires LockIs(dir.disk, produced) && RequirementsFrozen(dir.disk) && Lookup(dir.disk.Current(), Receipt).None?
    modifies dir
    ensures Holding(origin, dir, prior) && InTransaction(dir.disk.Current(), dir.disk.nodes, prior)
    ensures Retains(old(dir.disk).nodes, dir.disk.nodes)
    ensures old(dir.faults) <= dir.faults && (Adoptable(produced, call, frozenLock) ==> FailsByFault(dir, status))
    ensures status.Done? ==> Adoptable(produced, call, frozenLock) && lock == produced.value.content
    ensures status.Done? ==>
              && Complete(Canonical(dir.disk), dir.disk.nodes, call.request, lock) && RequirementsFrozen(dir.disk)
              && Canonical(dir.disk).receipt.value >= |old(dir.disk).nodes|
  {
    assert Lookup(dir.disk.Current(), Requirements).Some?;
    status, lock := AdoptResolution(dir, call, frozenLock, produced, origin, prior);
    if status.Failed? { return; }
    ghost var adopted := dir.disk;
    assert Lookup(adopted.Current(), Lock).Some? && Lookup(adopted.Current(), Receipt).None?;
    status := WriteArtifact(dir, Receipt, ReceiptFor(call.request, lock), origin, prior);
  }

  // What acceptance asks of the requirements input.
  ghost predicate RequirementsInPlace(d: ArtifactDisk)
    requires |d.images| > 0
  {
    && Lookup(d.Current(), Requirements).Some?
    && d.Current()[Requirements] < |d.nodes| && d.nodes[d.Current()[Requirements]].File?
    && d.nodes[d.Current()[Requirements]].content == REQUIREMENTS_INPUT
  }

  // The canonical requirements input is in place and durable.
  ghost predicate RequirementsFrozen(d: ArtifactDisk) {
    && |d.images| > 0 && Lookup(d.Current(), Requirements).Some?
    && d.Current()[Requirements] < |d.nodes| && d.nodes[d.Current()[Requirements]] == File(REQUIREMENTS_INPUT, true)
  }

  // The new entries are in every listing that can be on storage: the marker may not be cleared before.
  ghost predicate AllCanonical(d: ArtifactDisk, pair: Pair) {
    forall i :: 0 <= i < |d.images| ==>
        Lookup(d.images[i], Lock) == pair.lock && Lookup(d.images[i], Receipt) == pair.receipt
  }

  function Canonical(d: ArtifactDisk): Pair
    requires |d.images| > 0
  {
    Pair(Lookup(d.Current(), Lock), Lookup(d.Current(), Receipt))
  }

  // Clearing the marker is the one step that turns the outcome into the new pair.
  method ClearCommitted(dir: ArtifactDirectory, ghost origin: ArtifactDisk, ghost prior: Pair, ghost next: Publication)
    returns (status: Status)
    requires Holding(origin, dir, prior)
    requires AllCanonical(dir.disk, next.pair) && Complete(next.pair, dir.disk.nodes, next.request, next.lock)
    requires RequirementsFrozen(dir.disk)
    modifies dir
    ensures FailsByFault(dir, status)
    ensures Safe(origin, dir, Some(next))
    ensures OnlyCoreChange(dir, {Marker})
    ensures status.Done? ==>
              && Lookup(dir.disk.Current(), Marker).None?
              && Canonical(dir.disk) == next.pair
              && AgreedOn(dir.disk, next.pair)
    ensures CurrentOutcome(dir.disk) in {prior, next.pair}
  {
    StillFaithful(origin, dir, next);
    CommitPoint(origin, dir.disk, next);
    status := dir.Remove(Marker);
    if status.Failed? { return; }
    FaithfulSynced(origin, dir.disk, Some(next));
    status := dir.Sync();
  }

  lemma StillFaithful(origin: ArtifactDisk, dir: ArtifactDirectory, next: Publication)
    requires Safe(origin, dir, None)
    ensures Safe(origin, dir, Some(next))
  {
    forall d | d in dir.seen ensures Faithful(origin, d, Some(next)) {
      assert Faithful(origin, d, None);
    }
  }

  lemma CommitPoint(origin: ArtifactDisk, d: ArtifactDisk, next: Publication)
    requires Faithful(origin, d, Some(next)) && AllCanonical(d, next.pair)
    requires Complete(next.pair, d.nodes, next.request, next.lock)
    requires RequirementsFrozen(d)
    ensures Faithful(origin, d.Unbound(Marker), Some(next))
    ensures CurrentOutcome(d.Unbound(Marker)) == next.pair
    ensures Lookup(d.Current(), Marker).None? ==> CurrentOutcome(d) == next.pair
  {
    assert Recoverable(d.Current(), d.nodes);
    var image := d.Current() - {Marker};
    assert Lookup(image, Lock) == next.pair.lock && Lookup(image, Receipt) == next.pair.receipt;
    FaithfulThen(origin, d, image, Some(next));
  }

  // _commit_transaction
  method CommitTransaction(
    dir: ArtifactDirectory, ghost origin: ArtifactDisk, ghost prior: Pair, ghost next: Publication)
    returns (status: Status)
    requires Holding(origin, dir, prior)
    requires Canonical(dir.disk) == next.pair && Complete(next.pair, dir.disk.nodes, next.request, next.lock)
    requires RequirementsFrozen(dir.disk)
    modifies dir
    ensures FailsByFault(dir, status)
    ensures Safe(origin, dir, Some(next))
    ensures OnlyCoreChange(dir, {Marker, LockRollback, ReceiptRollback})
    ensures status.Done? ==> Settled(dir.disk.Current(), next.pair) && AgreedOn(dir.disk, next.pair)
    ensures CurrentOutcome(dir.disk) in {prior, next.pair}
  {
    status := Barrier(dir, origin, prior);
    if status.Failed? { return; }
    :- ClearCommitted(dir, origin, prior, next);
    status := PurgeLeftovers(dir, origin, next.pair, Some(next));
  }

  // What a call works with: its request, the production identity captured first, what the second
  // capture yields, if it yields anything, and which lock files _build_lock accepts.
  datatype Call = Call(request: Request, before: string, recapture: Option<string>, builds: Content -> bool)

  ghost predicate HasLock(pair: Pair, nodes: Nodes, lock: Content) {
    pair.lock.Some? && pair.lock.value < |nodes| && nodes[pair.lock.value] == File(lock, true)
  }

  /**
   * What a call must satisfy to publish p over the disk it found: production identity was the
   * same before and after, the lock builds for the request, the receipt is a file this call
   * created, and where a lock was frozen already the new one has the same bytes.
   */
  ghost predicate MayPublish(found: ArtifactDisk, call: Call, p: Publication)
    requires |found.images| > 0
  {
    && p.request == call.request && p.identity == call.before && call.recapture == Some(call.before)
    && call.builds(p.lock)
    && p.pair.receipt.Some? && p.pair.receipt.value >= |found.nodes|
    && (CurrentOutcome(found).lock.Some? ==> HasLock(CurrentOutcome(found), found.nodes, p.lock))
  }

  // What one call, cut off anywhere, can have made of the disk it found.
  ghost predicate CallReaches(found: ArtifactDisk, d: ArtifactDisk, call: Call, committed: Option<Publication>) {
    && |found.images| > 0 && Faithful(found, d, committed)
    && (committed.Some? ==> MayPublish(found, call, committed.value))
  }

  // What a call that did not fail has made of it.
  ghost predicate CallReturns(
    found: ArtifactDisk, d: ArtifactDisk, call: Call, committed: Option<Publication>, answer: Answer)
  {
    && |found.images| > 0 && |d.images| > 0
    && match answer
       case Accepted(lock) =>
         && committed.None? && call.recapture == Some(call.before) && d.nodes == found.nodes
         && Settled(d.Current(), CurrentOutcome(found))
         && Complete(CurrentOutcome(found), d.nodes, call.request, lock)
         && call.builds(lock) && RequirementsInPlace(d)
       case Resolved(lock) =>
         && committed.Some? && committed.value.lock == lock
         && Settled(d.Current(), committed.value.pair) && AgreedOn(d, committed.value.pair)
         && Complete(committed.value.pair, d.nodes, call.request, lock)
         && call.builds(lock) && RequirementsFrozen(d)
       case Refused(_) => false
  }

  // RolledBack: the guarded block failed and the prior pair was restored. NotRestored: it failed
  // and so did the rollback. The others failed before or after that block.
  datatype Refusal = NotRecovered | NotReadable | NotAccepted | NotBegun | RolledBack | NotRestored | NotCommitted

  datatype Answer = Accepted(lock: Content) | Resolved(lock: Content) | Refused(why: Refusal)

  /**
   * _resolve_candidate_lock. Only the guarded block is rolled back on failure; a fault while
   * beginning or committing is left to the next call's recovery.
   */
  method ResolveCandidateLock(
    dir: ArtifactDirectory, call: Call, run: ResolverRun, frozenLock: Option<Content>, frozenReceipt: bool,
    ghost origin: ArtifactDisk, ghost prior: Pair)
    returns (answer: Answer, ghost committed: Option<Publication>)
    requires Holding(origin, dir, prior) && Settled(dir.disk.Current(), prior)
    requires AllRecoverable(origin) && CurrentOutcome(origin) == prior && dir.disk.nodes == origin.nodes
    requires prior.Presence() == Flags(frozenLock.Some?, frozenReceipt)
    requires frozenLock.Some? ==> HasLock(prior, origin.nodes, frozenLock.value)
    modifies dir
    ensures dir.disk in dir.seen && |dir.disk.images| > 0
    ensures forall d :: d in dir.seen ==> CallReaches(origin, d, call, committed)
    ensures committed.None? ==> answer.Refused? && CurrentOutcome(dir.disk) == prior
    ensures answer == Refused(RolledBack) ==> AllSettled(dir.disk, prior)
    ensures dir.faults == old(dir.faults) ==>
              answer == if Prepared(old(dir.disk)) && Resolvable(run, call, frozenLock)
                        then Resolved(Produced(run.edits).value.content) else Refused(RolledBack)
    ensures old(dir.faults) <= dir.faults
    ensures !answer.Refused? ==> answer.Resolved? && CallReturns(origin, dir.disk, call, committed, answer)
  {
    var flags := Flags(frozenLock.Some?, frozenReceipt);
    ghost var before := dir.disk;
    assert Recoverable(before.Current(), before.nodes);
    var status := BeginTransaction(dir, flags, origin, prior);
    if status.Failed? { return Refused(NotBegun), None; }
    PreparedStays(before, dir.disk);
    answer, committed := ResolveBegun(dir, call, run, frozenLock, flags, origin, prior);
  }

  lemma PreparedStays(before: ArtifactDisk, after: ArtifactDisk)
    requires AsideKept(before, after) && SameKinds(before.nodes, after.nodes)
    requires forall n :: n in before.Current() ==> before.Current()[n] < |before.nodes|
    ensures Prepared(after) <==> Prepared(before)
  {
    OpenableStays(before, after);
    assert Requirements in before.Current() <==> Lookup(before.Current(), Requirements).Some?;
    assert Requirements in after.Current() <==> Lookup(after.Current(), Requirements).Some?;
  }

  // What follows the beginning: the guarded block, then the rollback or the commit.
  method ResolveBegun(
    dir: ArtifactDirectory, call: Call, run: ResolverRun, frozenLock: Option<Content>, flags: Flags,
    ghost origin: ArtifactDisk, ghost prior: Pair)
    returns (answer: Answer, ghost committed: Option<Publication>)
    requires Holding(origin, dir, prior) && AllInTransaction(dir.disk, prior) && BackedUp(dir, prior)
    requires Lookup(dir.disk.Current(), Lock).None? && Lookup(dir.disk.Current(), Receipt).None?
    requires AllRecoverable(origin) && CurrentOutcome(origin) == prior && |origin.nodes| <= |dir.disk.nodes|
    requires prior.Presence() == flags && (prior.lock.Some? <==> frozenLock.Some?)
    requires frozenLock.Some? ==> HasLock(prior, origin.nodes, frozenLock.value)
    modifies dir
    ensures dir.disk in dir.seen && |dir.disk.images| > 0
    ensures forall d :: d in dir.seen ==> CallReaches(origin, d, call, committed)
    ensures committed.None? ==> answer.Refused? && CurrentOutcome(dir.disk) == prior
    ensures answer == Refused(RolledBack) ==> AllSettled(dir.disk, prior)
    ensures dir.faults == old(dir.faults) ==>
              answer == if Prepared(old(dir.disk)) && Resolvable(run, call, frozenLock)
                        then Resolved(Produced(run.edits).value.content) else Refused(RolledBack)
    ensures old(dir.faults) <= dir.faults
    ensures !answer.Refused? ==> answer.Resolved? && CallReturns(origin, dir.disk, call, committed, answer)
  {
    var status, lock := ResolveAndPublish(dir, call, run, frozenLock, origin, prior);
    if status.Failed? {
      status := RollbackTransaction(dir, flags, origin, prior);
      return Refused(if status.Done? then RolledBack else NotRestored), None;
    }
    answer, committed := CommitResolution(dir, call, lock, origin, prior);
  }

  // What is left once the guarded block has succeeded.
  method CommitResolution(
    dir: ArtifactDirectory, call: Call, lock: Content, ghost origin: ArtifactDisk, ghost prior: Pair)
    returns (answer: Answer, ghost committed: Option<Publication>)
    requires |origin.images| > 0 && Holding(origin, dir, prior) && RequirementsFrozen(dir.disk)
    requires Complete(Canonical(dir.disk), dir.disk.nodes, call.request, lock)
    requires MayPublish(origin, call, Publication(Canonical(dir.disk), call.request, lock, call.before))
    modifies dir
    ensures dir.disk in dir.seen && |dir.disk.images| > 0 && committed.Some?
    ensures forall d :: d in dir.seen ==> CallReaches(origin, d, call, committed)
    ensures answer in {Resolved(lock), Refused(NotCommitted)}
    ensures old(dir.faults) <= dir.faults && (answer.Refused? ==> old(dir.faults) < dir.faults)
    ensures answer.Resolved? ==> CallReturns(origin, dir.disk, call, committed, answer)
  {
    ghost var next := Publication(Canonical(dir.disk), call.request, lock, call.before);
    committed := Some(next);
    assert Lookup(dir.disk.Current(), Requirements).Some?;
    var status := CommitTransaction(dir, origin, prior, next);
    answer := if status.Done? then Resolved(lock) else Refused(NotCommitted);
  }

  // _accept_frozen_lock, given what was read under the two canonical names.
  method AcceptFrozenLock(
    dir: ArtifactDirectory, call: Call, frozenLock: Content,
    frozenReceipt: Option<Content>)
    returns (accepted: bool)
    requires dir.disk.Valid()
    modifies dir`faults
    ensures accepted ==> call.builds(frozenLock) && frozenReceipt == Some(ReceiptFor(call.request, frozenLock))
    ensures accepted ==> RequirementsInPlace(dir.disk)
    ensures old(dir.faults) <= dir.faults
    ensures !accepted ==>
              || old(dir.faults) < dir.faults || !RequirementsInPlace(dir.disk)
              || !call.builds(frozenLock) || frozenReceipt != Some(ReceiptFor(call.request, frozenLock))
  {
    var status, requirements := ReadArtifact(dir, Requirements);
    if status.Failed? || requirements != Some(REQUIREMENTS_INPUT) { return false; }
    if frozenReceipt.None? || !call.builds(frozenLock) { return false; }
    return frozenReceipt.value == ReceiptFor(call.request, frozenLock);
  }

  // The lock that recovery restores, if any.
  function FrozenLock(d: ArtifactDisk): Option<Content>
    requires AllRecoverable(d)
  {
    assert Recoverable(d.Current(), d.nodes);
    var inode := CurrentOutcome(d).lock;
    if inode.Some? then Some(d.nodes[inode.value].content) else None
  }

  // The frozen pair is the one for this request, and production identity is unchanged.
  ghost predicate Acceptable(d: ArtifactDisk, call: Call)
    requires |d.images| > 0
  {
    RequirementsInPlace(d) && Matching(d, call)
  }

  ghost predicate Matching(d: ArtifactDisk, call: Call)
    requires |d.images| > 0
  {
    && call.recapture == Some(call.before)
    && exists lock :: call.builds(lock) && Complete(CurrentOutcome(d), d.nodes, call.request, lock)
  }

  /**
   * compile_candidate_lock inside its critical section: recover, then accept or resolve. A
   * requested recompilation that commits reproduces the frozen bytes, by MayPublish. If no system
   * call fails, whatever an interrupted call left behind is recovered, a frozen lock is accepted
   * exactly when it is acceptable, and a resolution returns the lock the resolver produced exactly
   * when that can be adopted.
   */
  method CompileCandidateLock(dir: ArtifactDirectory, call: Call, run: ResolverRun, recompile: bool)
    returns (answer: Answer, ghost committed: Option<Publication>)
    requires AllRecoverable(dir.disk) && dir.seen == {dir.disk}
    modifies dir
    ensures dir.disk in dir.seen && |dir.disk.images| > 0
    ensures forall d :: d in dir.seen ==> CallReaches(old(dir.disk), d, call, committed)
    ensures !answer.Refused? ==> CallReturns(old(dir.disk), dir.disk, call, committed, answer)
    ensures answer.Accepted? ==> !recompile && CurrentOutcome(old(dir.disk)).lock.Some?
    ensures dir.faults == old(dir.faults) && CurrentOutcome(old(dir.disk)).lock.Some? && !recompile ==>
              answer == if Acceptable(old(dir.disk), call)
                        then Accepted(FrozenLock(old(dir.disk)).value) else Refused(NotAccepted)
    ensures dir.faults == old(dir.faults) && (CurrentOutcome(old(dir.disk)).lock.None? || recompile) ==>
              answer == if Prepared(old(dir.disk)) && Resolvable(run, call, FrozenLock(old(dir.disk)))
                        then Resolved(Produced(run.edits).value.content) else Refused(RolledBack)
    ensures committed.None? ==> CurrentOutcome(dir.disk) == CurrentOutcome(old(dir.disk))
    ensures answer == Refused(RolledBack) ==> AllSettled(dir.disk, CurrentOutcome(old(dir.disk)))
  {
    ghost var origin := dir.disk;
    ghost var prior := CurrentOutcome(origin);
    committed := None;
    assert Recoverable(origin.Current(), origin.nodes);
    assert Faithful(origin, origin, None);
    var status := RecoverInterrupted(dir, origin, prior);
    if status.Failed? { return Refused(NotRecovered), None; }
    RecoveredIsAside(origin, dir.disk);
    assert Faithful(origin, dir.disk, None);
    answer, committed := AcceptOrResolve(dir, call, run, recompile, origin, prior);
  }

  lemma RecoveredIsAside(origin: ArtifactDisk, d: ArtifactDisk)
    requires AllRecoverable(origin) && |d.images| > 0 && d.nodes == origin.nodes
    requires OthersKept(origin.Current(), d.Current())
    ensures RequirementsInPlace(d) <==> RequirementsInPlace(origin)
    ensures Prepared(d) <==> Prepared(origin)
  {
    assert Recoverable(origin.Current(), origin.nodes);
    assert Lookup(d.Current(), Requirements) == Lookup(origin.Current(), Requirements);
    assert Lookup(d.Current(), Cache) == Lookup(origin.Current(), Cache);
    PreparedStays(origin, d);
  }

  // What follows the recovery.
  method AcceptOrResolve(
    dir: ArtifactDirectory, call: Call, run: ResolverRun, recompile: bool,
    ghost origin: ArtifactDisk, ghost prior: Pair)
    returns (answer: Answer, ghost committed: Option<Publication>)
    requires AllRecoverable(origin) && CurrentOutcome(origin) == prior && dir.disk.nodes == origin.nodes
    requires Holding(origin, dir, prior) && Settled(dir.disk.Current(), prior)
    modifies dir
    ensures dir.disk in dir.seen && |dir.disk.images| > 0
    ensures forall d :: d in dir.seen ==> CallReaches(origin, d, call, committed)
    ensures !answer.Refused? ==> CallReturns(origin, dir.disk, call, committed, answer)
    ensures answer.Accepted? ==> !recompile && prior.lock.Some?
    ensures dir.faults == old(dir.faults) && prior.lock.Some? && !recompile ==>
              answer == if RequirementsInPlace(old(dir.disk)) && Matching(origin, call)
                        then Accepted(FrozenLock(origin).value) else Refused(NotAccepted)
    ensures dir.faults == old(dir.faults) && (prior.lock.None? || recompile) ==>
              answer == if Prepared(old(dir.disk)) && Resolvable(run, call, FrozenLock(origin))
                        then Resolved(Produced(run.edits).value.content) else Refused(RolledBack)
    ensures old(dir.faults) <= dir.faults
    ensures committed.None? ==> CurrentOutcome(dir.disk) == prior
    ensures answer == Refused(RolledBack) ==> AllSettled(dir.disk, prior)
  {
    committed := None;
    assert Recoverable(origin.Current(), origin.nodes) && Recoverable(dir.disk.Current(), dir.disk.nodes);
    var status, frozenLock, frozenReceipt;
    status, frozenLock := ReadArtifact(dir, Lock);
    if status.Failed? { return Refused(NotReadable), None; }
    status, frozenReceipt := ReadArtifact(dir, Receipt);
    if status.Failed? { return Refused(NotReadable), None; }
    if frozenLock.Some? && !recompile {
      var accepted := AcceptFrozenLock(dir, call, frozenLock.value, frozenReceipt);
      var same := call.recapture == Some(call.before);
      answer := if accepted && same then Accepted(frozenLock.value) else Refused(NotAccepted);
      return;
    }
    answer, committed := ResolveCandidateLock(dir, call, run, frozenLock, frozenReceipt.Some?, origin, prior);
  }
}
