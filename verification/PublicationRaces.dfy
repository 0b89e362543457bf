/**
 * Publishers that need not share a lock. Each request names its own lock file, so two publishers
 * into one directory can be inside at the same time; here they interleave system call by system
 * call. When published records survive every such history, and exactly when.
 */
module PublicationRaces {
  import opened Wrappers
  import opened DurableDirectory
  import opened ByteStrings
  import opened ImmutablePublication
  import H = PublicationHistory

  type Publisher = nat

  // Where a publisher stands in publish_immutable_record; `own` is the file it works on.
  datatype Stage =
    | Clear | Create | Fill(own: nat)                                             // _stage_payload
    | Staged(own: nat)                                                            // about to link
    | Linked(own: nat) | Tidy(own: nat) | Tidied(own: nat) | Ready(own: nat)      // after the link
    | Discard | Discarded                                                         // _discard_temporary
    | Withdraw(own: nat) | WithdrawTemporary | Withdrawn                          // _remove_owned_names
    | Ended

  // One system call that took effect, or none.
  datatype Effect =
    | Nothing | Barrier
    | Unlink(name: string)
    | Make(name: string)
    | Store(inode: nat, node: Node<Bytes>)
    | LinkTo(source: string, target: string)

  ghost predicate Applicable(d: RecordDisk, effect: Effect) {
    && |d.images| > 0
    && match effect
       case Store(inode, _) => inode < |d.nodes|
       case LinkTo(source, target) => source in d.Current() && target !in d.Current()
       case Make(name) => name !in d.Current()
       case _ => true
  }

  function Apply(d: RecordDisk, effect: Effect): RecordDisk
    requires Applicable(d, effect)
  {
    match effect
    case Nothing => d
    case Barrier => d.Synced()
    case Unlink(name) => if name in d.Current() then d.Unbound(name) else d
    case Make(name) => d.Added(File([], false)).Bound(name, |d.nodes|)
    case Store(inode, node) => d.Stored(inode, node)
    case LinkTo(source, target) => d.Bound(target, d.Current()[source])
  }

  /**
   * The program, one system call at a time. Any call may fail, the reserve may be gone and the
   * ceiling may be reached at any check: before the link that discards the temporary, after it
   * that withdraws both names.
   */
  ghost predicate Moves(d: RecordDisk, r: Request, stage: Stage, effect: Effect, next: Stage) {
    && Applicable(d, effect)
    && match stage
       case Clear => (effect == Unlink(r.temporary) && next == Create) || (effect == Nothing && next == Ended)
       case Create => (effect == Make(r.temporary) && next == Fill(|d.nodes|)) || (effect == Nothing && next == Discard)
       case Fill(own) =>
         || (effect.Store? && effect.inode == own && Partial(effect.node) && next == stage)
         || (own < |d.nodes| && d.nodes[own] == File(r.payload, false)
             && effect == Store(own, File(r.payload, true)) && next == Staged(own))
         || (effect == Nothing && next == Discard)
       case Staged(_) =>
         || (effect == LinkTo(r.temporary, r.entry) && next == Linked(d.Current()[r.temporary]))
         || (effect == Nothing && next == Discard)
       case Linked(own) => (effect == Barrier && next == Tidy(own)) || (effect == Nothing && next == Withdraw(own))
       case Tidy(own) =>
         (effect == Unlink(r.temporary) && next == Tidied(own)) || (effect == Nothing && next == Withdraw(own))
       case Tidied(own) => (effect == Barrier && next == Ready(own)) || (effect == Nothing && next == Withdraw(own))
       case Ready(own) => effect == Nothing && next == Withdraw(own)
       case Discard => (effect == Unlink(r.temporary) && next == Discarded) || (effect == Nothing && next == Ended)
       case Discarded => effect in {Barrier, Nothing} && next == Ended
       case Withdraw(_) => effect in {Unlink(r.entry), Nothing} && next == WithdrawTemporary
       case WithdrawTemporary => effect in {Unlink(r.temporary), Nothing} && next == Withdrawn
       case Withdrawn => effect in {Barrier, Nothing} && next == Ended
       case Ended => false
  }

  // What a file holds while it is being written.
  predicate Partial(node: Node<Bytes>) { node.File? && !node.durable }

  datatype Phase = Outside(request: Request) | Inside(request: Request, stage: Stage)

  datatype System = System(
    disk: RecordDisk, callers: map<Publisher, Phase>, records: set<H.Record>, requests: set<Request>)

  datatype Step =
    | Arrive(publisher: Publisher, request: Request)
    | Acquire(publisher: Publisher)
    | Act(publisher: Publisher, effect: Effect, next: Stage)
    | Return(publisher: Publisher)
    | Leave(publisher: Publisher)   // a failure or a death, at any step
    | Blackout(d: RecordDisk)

  // Nobody is inside under this lock.
  ghost predicate LockFree(s: System, lockName: string) {
    forall p :: p in s.callers && s.callers[p].Inside? ==> s.callers[p].request.lockName != lockName
  }

  ghost predicate Next(s: System, step: Step, t: System) {
    match step
    case Arrive(p, request) =>
      && p !in s.callers && request in s.requests && request.Valid()
      && t == s.(callers := s.callers[p := Outside(request)])
    case Acquire(p) =>
      && p in s.callers && s.callers[p].Outside? && LockFree(s, s.callers[p].request.lockName)
      && t == s.(callers := s.callers[p := Inside(s.callers[p].request, Clear)])
    case Act(p, effect, next) =>
      && p in s.callers && s.callers[p].Inside?
      && Moves(s.disk, s.callers[p].request, s.callers[p].stage, effect, next)
      && t == s.(disk := Apply(s.disk, effect), callers := s.callers[p := s.callers[p].(stage := next)])
    case Return(p) =>
      && p in s.callers && s.callers[p].Inside? && s.callers[p].stage.Ready?
      && var r := s.callers[p].request;
      && t == s.(callers := s.callers - {p},
                 records := s.records + {H.Record(r.entry, r.payload, s.callers[p].stage.own)})
    case Leave(p) => p in s.callers && t == s.(callers := s.callers - {p})
    case Blackout(d) => PowerLoss(s.disk, d) && t == s.(disk := d, callers := map[])
  }

  ghost predicate Initial(s: System) { s.disk == Disk([map[]], []) && s.callers == map[] && s.records == {} }

  ghost predicate Run(states: seq<System>, steps: seq<Step>) {
    && |states| == |steps| + 1 && Initial(states[0])
    && forall i :: 0 <= i < |steps| ==> Next(states[i], steps[i], states[i + 1])
  }

  // No temporary is another request's final name, and only publishers that exclude each other
  // share one.
  ghost predicate Disciplined(requests: set<Request>) {
    forall r, q :: r in requests && q in requests ==>
      r.temporary != q.entry && (r.temporary == q.temporary ==> r.lockName == q.lockName)
  }

  // --- one publisher alone ------------------------------------------------------------------

  // What the publisher knows of the disk it found and of the one it works on.
  ghost predicate Alone(found: RecordDisk, d: RecordDisk, r: Request, stage: Stage)
    requires |found.images| > 0
  {
    && Within(found, d, r)
    && match stage
       case Clear => Before(found, d, r) && d.nodes == found.nodes
       case Create => Before(found, d, r) && d.nodes == found.nodes && r.temporary !in d.Current()
       case Fill(own) => Before(found, d, r) && Own(found, d, r, own) && Partial(d.nodes[own])
       case Staged(own) => Before(found, d, r) && Own(found, d, r, own) && d.nodes[own] == File(r.payload, true)
       case Discard => Before(found, d, r)
       case Discarded => Before(found, d, r)
       case Linked(own) => After(found, d, r, own)
       case Tidy(own) => After(found, d, r, own) && |d.images| == 1
       case Tidied(own) => After(found, d, r, own) && r.temporary !in d.Current()
       case Ready(own) => d == AfterPublish(found, r) && After(found, d, r, own)
       case Withdraw(own) => After(found, d, r, own)
       case WithdrawTemporary => Taken(found, d, r)
       case Withdrawn => true
       case Ended => true
  }

  ghost predicate Before(found: RecordDisk, d: RecordDisk, r: Request)
    requires |found.images| > 0
  {
    && |d.images| > 0 && Unlinked(found, d, r)
    && d.Current() - {r.temporary} == Shape(found.Current(), |found.nodes|, r, false, false)
  }

  ghost predicate Own(found: RecordDisk, d: RecordDisk, r: Request, own: nat)
    requires |d.images| > 0
  {
    own == |found.nodes| && |d.nodes| == own + 1 && Lookup(d.Current(), r.temporary) == Some(own)
  }

  ghost predicate After(found: RecordDisk, d: RecordDisk, r: Request, own: nat)
    requires |found.images| > 0
  {
    && own == |found.nodes| && |d.images| > 0 && Linkable(found, d, r)
    && Lookup(d.Current(), r.temporary) in {None, Some(own)}
    && d.Current() - {r.temporary} == Shape(found.Current(), own, r, false, true)
  }

  // A withdrawal has dealt with the final name.
  ghost predicate Taken(found: RecordDisk, d: RecordDisk, r: Request)
    requires |found.images| > 0
  {
    && |d.images| > 0 && Linkable(found, d, r)
    && exists final :: d.Current() - {r.temporary} == Shape(found.Current(), |found.nodes|, r, false, final)
  }

  lemma AloneStarts(found: RecordDisk, r: Request)
    requires found.Valid() && r.Valid()
    ensures Alone(found, found, r, Clear)
  {
    assert found.nodes[..|found.nodes|] == found.nodes;
    forall i | 0 <= i < |found.images| ensures !OwnFinal(found, found.images[i], r) {
      if r.entry in found.images[i] { assert found.images[i][r.entry] < |found.nodes|; }
    }
  }

  lemma AloneUnlinksTemporary(found: RecordDisk, d: RecordDisk, r: Request, final: bool)
    requires found.Valid() && r.Valid() && Within(found, d, r) && (final ==> Linkable(found, d, r))
    requires d.Current() - {r.temporary} == Shape(found.Current(), |found.nodes|, r, false, final)
    ensures var after := Apply(d, Unlink(r.temporary));
            && Within(found, after, r) && after.nodes == d.nodes && r.temporary !in after.Current()
            && after.Current() == Shape(found.Current(), |found.nodes|, r, false, final)
            && (!final && Unlinked(found, d, r) ==> Unlinked(found, after, r))
  {
    WithinThen(found, d, r, false, final);
    if r.temporary !in d.Current() { assert d.Current() - {r.temporary} == d.Current(); }
  }

  lemma AloneWrites(found: RecordDisk, d: RecordDisk, r: Request, own: nat, node: Node<Bytes>)
    requires found.Valid() && r.Valid() && Within(found, d, r) && Before(found, d, r) && Own(found, d, r, own)
    ensures var after := Apply(d, Store(own, node));
            Within(found, after, r) && Before(found, after, r) && Own(found, after, r, own)
  {
    WithinStored(found, d, r, node);
    assert d.Stored(own, node).nodes == found.nodes + [node];
  }

  lemma AloneCreates(found: RecordDisk, d: RecordDisk, r: Request)
    requires found.Valid() && r.Valid() && Alone(found, d, r, Create)
    ensures Alone(found, Apply(d, Make(r.temporary)), r, Fill(|d.nodes|))
  {
    var made := d.(nodes := found.nodes + [File([], false)]);
    WithinStored(found, d, r, File([], false));
    assert d.Current() - {r.temporary} == d.Current();
    assert d.Current()[r.temporary := |d.nodes|] == Shape(found.Current(), |found.nodes|, r, true, false);
    WithinThen(found, made, r, true, false);
  }

  lemma AloneLinks(found: RecordDisk, d: RecordDisk, r: Request, own: nat)
    requires found.Valid() && r.Valid() && Alone(found, d, r, Staged(own)) && r.entry !in d.Current()
    ensures Alone(found, Apply(d, LinkTo(r.temporary, r.entry)), r, Linked(own))
  {
    assert r.entry !in d.Current() - {r.temporary};
    assert d.Current()[r.entry := own] == Shape(found.Current(), |found.nodes|, r, true, true);
    assert d.nodes == found.nodes + [File(r.payload, true)];
    WithinThen(found, d, r, true, true);
  }

  lemma AloneWithdraws(found: RecordDisk, d: RecordDisk, r: Request, own: nat)
    requires found.Valid() && r.Valid() && Alone(found, d, r, Withdraw(own))
    ensures Alone(found, Apply(d, Unlink(r.entry)), r, WithdrawTemporary)
  {
    assert r.entry in d.Current() - {r.temporary};
    var temporary := r.temporary in d.Current();
    assert d.Current() - {r.entry} == Shape(found.Current(), own, r, temporary, false);
    WithinThen(found, d, r, temporary, false);
    assert d.Current() - {r.entry} - {r.temporary} == Shape(found.Current(), own, r, false, false);
  }

  lemma AloneSyncs(found: RecordDisk, d: RecordDisk, r: Request, stage: Stage, next: Stage)
    requires found.Valid() && r.Valid() && Alone(found, d, r, stage) && Moves(d, r, stage, Barrier, next)
    ensures Alone(found, d.Synced(), r, next)
  {
    assert d.Synced().Current() == d.Current();
    if stage.Tidied? { assert d.Current() - {r.temporary} == d.Current(); }
  }

  lemma AloneUnlinks(found: RecordDisk, d: RecordDisk, r: Request, stage: Stage, next: Stage)
    requires found.Valid() && r.Valid() && Alone(found, d, r, stage) && Moves(d, r, stage, Unlink(r.temporary), next)
    ensures Alone(found, Apply(d, Unlink(r.temporary)), r, next)
  {
    var final := stage.Tidy? || (stage.WithdrawTemporary?
        && d.Current() - {r.temporary} == Shape(found.Current(), |found.nodes|, r, false, true));
    AloneUnlinksTemporary(found, d, r, final);
    var after := Apply(d, Unlink(r.temporary));
    assert after.Current() - {r.temporary} == after.Current();
  }

  /**
   * The program is the one PublishImmutableRecord is verified as: undisturbed, it goes only
   * through disks that method allows, and when it returns, it leaves the one disk that method
   * can leave.
   */
  lemma AloneStays(found: RecordDisk, d: RecordDisk, r: Request, stage: Stage, effect: Effect, next: Stage)
    requires found.Valid() && r.Valid() && Alone(found, d, r, stage) && Moves(d, r, stage, effect, next)
    ensures Alone(found, Apply(d, effect), r, next)
    ensures Within(found, Apply(d, effect), r)
    ensures next.Ready? ==> Apply(d, effect) == AfterPublish(found, r) && r.entry !in found.Current()
  {
    match effect
    case Nothing => if stage.Withdraw? { assert Taken(found, d, r); }
    case Barrier => AloneSyncs(found, d, r, stage, next);
    case Make(_) => AloneCreates(found, d, r);
    case Store(own, node) => AloneWrites(found, d, r, own, node);
    case LinkTo(_, _) => AloneLinks(found, d, r, stage.own);
    case Unlink(name) =>
      if stage.Withdraw? { AloneWithdraws(found, d, r, stage.own); } else { AloneUnlinks(found, d, r, stage, next); }
  }

  // --- what a publisher holds ---------------------------------------------------------------

  predicate HasOwn(stage: Stage) {
    stage.Fill? || stage.Staged? || stage.Linked? || stage.Tidy? || stage.Tidied? || stage.Ready? || stage.Withdraw?
  }

  // Its file is under the name, in every listing that can be on storage if `everywhere`.
  ghost predicate Holds(d: RecordDisk, name: string, inode: nat, everywhere: bool) {
    && |d.images| > 0 && inode < |d.nodes| && Lookup(d.Current(), name) == Some(inode)
    && (everywhere ==> forall i :: 0 <= i < |d.images| ==> Lookup(d.images[i], name) == Some(inode))
  }

  ghost predicate Owns(d: RecordDisk, r: Request, stage: Stage) {
    match stage
    case Fill(own) => Holds(d, r.temporary, own, false) && Partial(d.nodes[own])
    case Staged(own) => Holds(d, r.temporary, own, false) && d.nodes[own] == File(r.payload, true)
    case Linked(own) => Holds(d, r.entry, own, false) && d.nodes[own] == File(r.payload, true)
    case Withdraw(own) => Holds(d, r.entry, own, false) && d.nodes[own] == File(r.payload, true)
    case Tidy(own) => Holds(d, r.entry, own, true) && d.nodes[own] == File(r.payload, true)
    case Tidied(own) => Holds(d, r.entry, own, true) && d.nodes[own] == File(r.payload, true)
    case Ready(own) => Holds(d, r.entry, own, true) && d.nodes[own] == File(r.payload, true)
    case _ => true
  }

  function HeldName(r: Request, stage: Stage): string {
    if stage.Fill? || stage.Staged? then r.temporary else r.entry
  }

  predicate Binds(effect: Effect, name: string) {
    match effect
    case Unlink(n) => n == name
    case Make(n) => n == name
    case LinkTo(_, target) => target == name
    case _ => false
  }

  // A system call about another name keeps what is under this one.
  lemma ApplyKeepsHeld(d: RecordDisk, effect: Effect, name: string, inode: nat, everywhere: bool)
    requires Applicable(d, effect) && Holds(d, name, inode, everywhere) && !Binds(effect, name)
    ensures Holds(Apply(d, effect), name, inode, everywhere)
  {
    var after := Apply(d, effect);
    assert Lookup(after.Current(), name) == Some(inode);
    if everywhere {
      forall i | 0 <= i < |after.images| ensures Lookup(after.images[i], name) == Some(inode) {
        if i < |d.images| && after.images != [d.Current()] { assert after.images[i] == d.images[i]; }
      }
    }
  }

  lemma ApplyKeepsNode(d: RecordDisk, effect: Effect, inode: nat)
    requires Applicable(d, effect) && inode < |d.nodes| && !(effect.Store? && effect.inode == inode)
    ensures |d.nodes| <= |Apply(d, effect).nodes| && Apply(d, effect).nodes[inode] == d.nodes[inode]
  {
  }

  lemma ApplyKeepsOwned(d: RecordDisk, effect: Effect, r: Request, stage: Stage)
    requires Applicable(d, effect) && Owns(d, r, stage) && HasOwn(stage)
    requires !Binds(effect, HeldName(r, stage)) && !(effect.Store? && effect.inode == stage.own)
    ensures Owns(Apply(d, effect), r, stage)
  {
    ApplyKeepsNode(d, effect, stage.own);
    ApplyKeepsHeld(d, effect, HeldName(r, stage), stage.own, stage.Tidy? || stage.Tidied? || stage.Ready?);
  }

  lemma ApplyKeepsRecord(d: RecordDisk, effect: Effect, record: H.Record)
    requires Applicable(d, effect) && H.Kept(d, record)
    requires !Binds(effect, record.entry) && !(effect.Store? && effect.inode == record.inode)
    ensures H.Kept(Apply(d, effect), record)
  {
    ApplyKeepsNode(d, effect, record.inode);
    ApplyKeepsHeld(d, effect, record.entry, record.inode, true);
  }

  // --- what every step keeps ----------------------------------------------------------------

  ghost predicate IsInside(s: System, p: Publisher) { p in s.callers && s.callers[p].Inside? }

  ghost predicate Owner(s: System, p: Publisher) { IsInside(s, p) && HasOwn(s.callers[p].stage) }

  ghost predicate Apart(s: System, p: Publisher, q: Publisher)
    requires IsInside(s, p) && IsInside(s, q)
  {
    && s.callers[p].request.lockName != s.callers[q].request.lockName
    && (Owner(s, p) && Owner(s, q) ==> s.callers[p].stage.own != s.callers[q].stage.own)
  }

  ghost predicate Published(s: System, record: H.Record) {
    && H.Kept(s.disk, record)
    && (exists q :: q in s.requests && q.entry == record.entry)
    && (forall p :: Owner(s, p) ==> s.callers[p].stage.own != record.inode)
  }

  ghost predicate Inv(s: System) {
    && H.Sound(s.disk, s.requests)
    && (forall record :: record in s.records ==> Published(s, record))
    && (forall p :: p in s.callers ==> s.callers[p].request in s.requests && s.callers[p].request.Valid())
    && (forall p :: IsInside(s, p) ==> Owns(s.disk, s.callers[p].request, s.callers[p].stage))
    && (forall p, q :: IsInside(s, p) && IsInside(s, q) && p != q ==> Apart(s, p, q))
  }

  // A publisher touches its temporary, its own file, and its final name only to link it where it
  // is free or to withdraw what it linked.
  lemma TouchesItsOwn(d: RecordDisk, r: Request, stage: Stage, effect: Effect, next: Stage, name: string)
    requires Moves(d, r, stage, effect, next)
    ensures Binds(effect, name) ==>
            name == r.temporary || (name == r.entry && (name !in d.Current() || stage.Withdraw?))
    ensures effect.Store? ==> stage.Fill? && effect.inode == stage.own
  {
  }

  // What is under a name that is neither its temporary nor freely its own is out of its reach.
  lemma SparesOthers(
    d: RecordDisk, r: Request, stage: Stage, effect: Effect, next: Stage, name: string, inode: nat)
    requires Moves(d, r, stage, effect, next) && Owns(d, r, stage) && Lookup(d.Current(), name) == Some(inode)
    requires name != r.temporary && (HasOwn(stage) ==> stage.own != inode)
    ensures !Binds(effect, name) && !(effect.Store? && effect.inode == inode)
  {
    TouchesItsOwn(d, r, stage, effect, next, name);
  }

  lemma ActKeepsSound(d: RecordDisk, requests: set<Request>, r: Request, stage: Stage, effect: Effect, next: Stage)
    requires H.Sound(d, requests) && r in requests && Disciplined(requests)
    requires Moves(d, r, stage, effect, next) && Owns(d, r, stage)
    ensures H.Sound(Apply(d, effect), requests)
  {
    var after := Apply(d, effect);
    forall i, q | 0 <= i < |after.images| && q in requests
      ensures H.WholeOrAbsent(after.images[i], after.nodes, requests, q.entry)
    {
      ImageStaysWhole(d, requests, r, stage, effect, next, after.images[i], q);
    }
    forall i, n | 0 <= i < |after.images| && n in after.images[i] ensures after.images[i][n] < |after.nodes| {
      ImageStaysInBounds(d, effect, after.images[i], n);
    }
  }

  lemma ImageStaysInBounds(d: RecordDisk, effect: Effect, image: map<string, nat>, n: string)
    requires d.Valid() && Applicable(d, effect) && image in Apply(d, effect).images && n in image
    ensures image[n] < |Apply(d, effect).nodes|
  {
    if image in d.images {
      var k :| 0 <= k < |d.images| && d.images[k] == image;
    } else {
      assert d.Current() == d.images[|d.images| - 1];
      assert n in d.Current() ==> d.images[|d.images| - 1][n] < |d.nodes|;
    }
  }

  lemma ImageStaysWhole(
    d: RecordDisk, requests: set<Request>, r: Request, stage: Stage, effect: Effect, next: Stage,
    image: map<string, nat>, q: Request)
    requires H.Sound(d, requests) && r in requests && q in requests && Disciplined(requests)
    requires Moves(d, r, stage, effect, next) && Owns(d, r, stage) && image in Apply(d, effect).images
    ensures H.WholeOrAbsent(image, Apply(d, effect).nodes, requests, q.entry)
  {
    var after := Apply(d, effect);
    assert H.WholeOrAbsent(d.images[|d.images| - 1], d.nodes, requests, q.entry);
    if image in d.images {
      var k :| 0 <= k < |d.images| && d.images[k] == image;
      WholeFilesStay(d, requests, r, stage, effect, next, image, q.entry);
    } else if effect.LinkTo? && q.entry == r.entry {
      assert after.nodes[image[q.entry]] == File(r.payload, true);
    } else if q.entry in image {
      TouchesItsOwn(d, r, stage, effect, next, q.entry);
      assert Lookup(image, q.entry) == Lookup(d.Current(), q.entry);
      WholeFilesStay(d, requests, r, stage, effect, next, d.Current(), q.entry);
    }
  }

  // A complete payload is never the file being written.
  lemma WholeFilesStay(
    d: RecordDisk, requests: set<Request>, r: Request, stage: Stage, effect: Effect, next: Stage,
    image: map<string, nat>, entry: string)
    requires Moves(d, r, stage, effect, next) && Owns(d, r, stage) && H.WholeOrAbsent(image, d.nodes, requests, entry)
    ensures H.WholeOrAbsent(image, Apply(d, effect).nodes, requests, entry)
  {
    if entry in image {
      TouchesItsOwn(d, r, stage, effect, next, entry);
      ApplyKeepsNode(d, effect, image[entry]);
    }
  }

  // The publisher itself, one step on.
  lemma ActKeepsOwn(d: RecordDisk, r: Request, stage: Stage, effect: Effect, next: Stage)
    requires d.Valid() && r.Valid() && Moves(d, r, stage, effect, next) && Owns(d, r, stage)
    ensures Owns(Apply(d, effect), r, next)
    ensures HasOwn(next) ==> (HasOwn(stage) && next.own == stage.own) || next.own == |d.nodes|
  {
    match stage
    case Tidy(own) => if effect == Unlink(r.temporary) { ApplyKeepsHeld(d, effect, r.entry, own, true); }
    case _ =>
  }

  lemma ActKeepsRecord(s: System, p: Publisher, effect: Effect, next: Stage, record: H.Record)
    requires Inv(s) && Disciplined(s.requests) && IsInside(s, p) && record in s.records
    requires Moves(s.disk, s.callers[p].request, s.callers[p].stage, effect, next)
    ensures H.Kept(Apply(s.disk, effect), record)
  {
    assert Published(s, record) && Lookup(s.disk.Current(), record.entry) == Some(record.inode);
    SparesOthers(s.disk, s.callers[p].request, s.callers[p].stage, effect, next, record.entry, record.inode);
    ApplyKeepsRecord(s.disk, effect, record);
  }

  lemma ActKeepsOther(s: System, p: Publisher, effect: Effect, next: Stage, q: Publisher)
    requires Inv(s) && Disciplined(s.requests) && IsInside(s, p) && IsInside(s, q) && p != q
    requires Moves(s.disk, s.callers[p].request, s.callers[p].stage, effect, next)
    ensures Owns(Apply(s.disk, effect), s.callers[q].request, s.callers[q].stage)
  {
    assert Apart(s, p, q);
    var r, stage := s.callers[q].request, s.callers[q].stage;
    if HasOwn(stage) {
      assert Owns(s.disk, r, stage) && Lookup(s.disk.Current(), HeldName(r, stage)) == Some(stage.own);
      SparesOthers(
        s.disk, s.callers[p].request, s.callers[p].stage, effect, next, HeldName(r, stage), stage.own);
      ApplyKeepsOwned(s.disk, effect, r, stage);
    }
  }

  lemma OwnsBelow(d: RecordDisk, r: Request, stage: Stage)
    requires Owns(d, r, stage) && HasOwn(stage)
    ensures stage.own < |d.nodes|
  {
  }

  // The file it works on is the one it had, or a new one.
  lemma ActOwns(s: System, p: Publisher, effect: Effect, next: Stage, t: System)
    requires Inv(s) && Next(s, Act(p, effect, next), t)
    ensures Owner(t, p) ==> (Owner(s, p) && next.own == s.callers[p].stage.own) || next.own == |s.disk.nodes|
    ensures Owns(t.disk, t.callers[p].request, t.callers[p].stage)
  {
    assert IsInside(s, p);
    ActKeepsOwn(s.disk, s.callers[p].request, s.callers[p].stage, effect, next);
  }

  lemma ActKeepsApart(s: System, p: Publisher, effect: Effect, next: Stage, t: System, q: Publisher)
    requires Inv(s) && Next(s, Act(p, effect, next), t) && IsInside(s, q) && q != p
    ensures Apart(t, p, q) && Apart(t, q, p)
  {
    ActOwns(s, p, effect, next, t);
    assert IsInside(s, p) && Apart(s, p, q) && Apart(s, q, p);
    assert Owns(s.disk, s.callers[q].request, s.callers[q].stage);
    if Owner(s, q) { OwnsBelow(s.disk, s.callers[q].request, s.callers[q].stage); }
  }

  lemma ActKeepsPublished(s: System, p: Publisher, effect: Effect, next: Stage, t: System, record: H.Record)
    requires Inv(s) && Disciplined(s.requests) && Next(s, Act(p, effect, next), t) && record in s.records
    ensures Published(t, record)
  {
    assert IsInside(s, p) && Published(s, record);
    ActKeepsRecord(s, p, effect, next, record);
    ActOwns(s, p, effect, next, t);
    forall q | Owner(t, q) ensures t.callers[q].stage.own != record.inode {
      if q != p { assert Owner(s, q); }
    }
  }

  lemma ActKeepsPairApart(
    s: System, p: Publisher, effect: Effect, next: Stage, t: System, a: Publisher, b: Publisher)
    requires Inv(s) && Next(s, Act(p, effect, next), t) && IsInside(t, a) && IsInside(t, b) && a != b
    ensures Apart(t, a, b)
  {
    if a == p {
      ActKeepsApart(s, p, effect, next, t, b);
    } else if b == p {
      ActKeepsApart(s, p, effect, next, t, a);
    } else {
      assert IsInside(s, a) && IsInside(s, b) && Apart(s, a, b);
    }
  }

  lemma ActKeepsOwner(s: System, p: Publisher, effect: Effect, next: Stage, t: System, q: Publisher)
    requires Inv(s) && Disciplined(s.requests) && Next(s, Act(p, effect, next), t) && IsInside(t, q)
    ensures Owns(t.disk, t.callers[q].request, t.callers[q].stage)
  {
    assert IsInside(s, p) && IsInside(s, q);
    if q != p { ActKeepsOther(s, p, effect, next, q); } else { ActOwns(s, p, effect, next, t); }
  }

  lemma ActKeepsAllSound(s: System, p: Publisher, effect: Effect, next: Stage, t: System)
    requires Inv(s) && Disciplined(s.requests) && Next(s, Act(p, effect, next), t)
    ensures H.Sound(t.disk, t.requests)
    ensures forall q :: q in t.callers ==> t.callers[q].request in t.requests && t.callers[q].request.Valid()
  {
    assert IsInside(s, p);
    ActKeepsSound(s.disk, s.requests, s.callers[p].request, s.callers[p].stage, effect, next);
  }

  lemma ActKeepsInv(s: System, p: Publisher, effect: Effect, next: Stage, t: System)
    requires Inv(s) && Disciplined(s.requests) && Next(s, Act(p, effect, next), t)
    ensures Inv(t)
  {
    ActKeepsAllSound(s, p, effect, next, t);
    forall q | IsInside(t, q) ensures Owns(t.disk, t.callers[q].request, t.callers[q].stage) {
      ActKeepsOwner(s, p, effect, next, t, q);
    }
    forall a, b | IsInside(t, a) && IsInside(t, b) && a != b ensures Apart(t, a, b) {
      ActKeepsPairApart(s, p, effect, next, t, a, b);
    }
    forall record | record in t.records ensures Published(t, record) {
      ActKeepsPublished(s, p, effect, next, t, record);
    }
  }

  lemma AcquireKeepsInv(s: System, p: Publisher, t: System)
    requires Inv(s) && Next(s, Acquire(p), t)
    ensures Inv(t)
  {
    forall a, b | IsInside(t, a) && IsInside(t, b) && a != b ensures Apart(t, a, b) {
      if a != p && b != p { assert IsInside(s, a) && IsInside(s, b) && Apart(s, a, b); }
    }
    forall record | record in t.records ensures Published(t, record) {
      assert Published(s, record);
      forall q | Owner(t, q) ensures t.callers[q].stage.own != record.inode { assert Owner(s, q); }
    }
    forall q | IsInside(t, q) ensures Owns(t.disk, t.callers[q].request, t.callers[q].stage) {
      if q != p { assert IsInside(s, q); }
    }
  }

  // Someone leaves, with a record or without.
  lemma LeavingKeepsInv(s: System, p: Publisher, t: System)
    requires Inv(s) && (Next(s, Return(p), t) || Next(s, Leave(p), t))
    ensures Inv(t)
  {
    forall q | IsInside(t, q) ensures IsInside(s, q) && t.callers[q] == s.callers[q] {}
    forall a, b | IsInside(t, a) && IsInside(t, b) && a != b ensures Apart(t, a, b) { assert Apart(s, a, b); }
    forall record | record in t.records ensures Published(t, record) {
      if record in s.records {
        assert Published(s, record);
      } else {
        assert Owns(s.disk, s.callers[p].request, s.callers[p].stage);
        forall q | Owner(t, q) ensures t.callers[q].stage.own != record.inode { assert Apart(s, p, q); }
      }
    }
  }

  lemma NextKeepsInv(s: System, step: Step, t: System)
    requires Inv(s) && Next(s, step, t) && Disciplined(s.requests)
    ensures Inv(t)
  {
    match step
    case Arrive(p, request) =>
      forall q | IsInside(t, q) ensures IsInside(s, q) && t.callers[q] == s.callers[q] {}
      forall a, b | IsInside(t, a) && IsInside(t, b) && a != b ensures Apart(t, a, b) { assert Apart(s, a, b); }
      forall record | record in t.records ensures Published(t, record) { assert Published(s, record); }
    case Acquire(p) => AcquireKeepsInv(s, p, t);
    case Act(p, effect, next) => ActKeepsInv(s, p, effect, next, t);
    case Return(p) => LeavingKeepsInv(s, p, t);
    case Leave(p) => LeavingKeepsInv(s, p, t);
    case Blackout(d) =>
      H.BlackoutKeeps(s.disk, d, s.requests);
      forall record | record in t.records ensures Published(t, record) { assert Published(s, record); }
  }

  lemma {:induction false} RunKeepsInv(states: seq<System>, steps: seq<Step>, j: nat)
    requires Run(states, steps) && Disciplined(states[0].requests) && j < |states|
    ensures Inv(states[j]) && states[j].requests == states[0].requests
    decreases j
  {
    if j > 0 {
      RunKeepsInv(states, steps, j - 1);
      assert Next(states[j - 1], steps[j - 1], states[j - 1 + 1]);
      NextKeepsInv(states[j - 1], steps[j - 1], states[j]);
    }
  }

  lemma {:induction false} RecordsOnlyGrow(states: seq<System>, steps: seq<Step>, i: nat, j: nat)
    requires Run(states, steps) && i <= j < |states|
    ensures states[i].records <= states[j].records
    decreases j
  {
    if i < j {
      RecordsOnlyGrow(states, steps, i, j - 1);
      assert Next(states[j - 1], steps[j - 1], states[j - 1 + 1]);
    }
  }

  // --- when it fails ------------------------------------------------------------------------

  // In every history of these requests, whatever was published stays.
  ghost predicate AlwaysKept(requests: set<Request>) {
    forall states: seq<System>, steps: seq<Step>, i, record ::
      Run(states, steps) && states[0].requests == requests && 0 <= i < |states| && record in states[i].records
      ==> H.Kept(states[|steps|].disk, record)
  }

  lemma ExtendRun(states: seq<System>, steps: seq<Step>, step: Step, t: System)
    requires Run(states, steps) && Next(states[|steps|], step, t)
    ensures Run(states + [t], steps + [step])
  {
  }

  lemma ActOn(states: seq<System>, steps: seq<Step>, p: Publisher, effect: Effect, next: Stage, d: RecordDisk)
    returns (states': seq<System>, steps': seq<Step>)
    requires Run(states, steps) && IsInside(states[|steps|], p)
    requires var s := states[|steps|];
             Moves(s.disk, s.callers[p].request, s.callers[p].stage, effect, next) && d == Apply(s.disk, effect)
    ensures Run(states', steps') && states' == states + [states'[|steps'|]]
    ensures var s := states[|steps|];
            states'[|steps'|] == s.(disk := d, callers := s.callers[p := s.callers[p].(stage := next)])
  {
    var s := states[|steps|];
    var t := s.(disk := d, callers := s.callers[p := s.callers[p].(stage := next)]);
    ExtendRun(states, steps, Act(p, effect, next), t);
    states', steps' := states + [t], steps + [Act(p, effect, next)];
  }

  // A publisher clears the way for its temporary and creates it.
  lemma CreateNext(states: seq<System>, steps: seq<Step>, p: Publisher, cleared: RecordDisk)
    returns (states': seq<System>, steps': seq<Step>)
    requires Run(states, steps) && IsInside(states[|steps|], p) && |states[|steps|].disk.images| > 0
    requires var s := states[|steps|];
             && s.callers[p].stage == Clear
             && cleared == Apply(s.disk, Unlink(s.callers[p].request.temporary))
    ensures Run(states', steps') && states <= states'
    ensures var s, n := states[|steps|], |cleared.nodes|;
            states'[|steps'|]
            == s.(disk := cleared.Added(File([], false)).Bound(s.callers[p].request.temporary, n),
                  callers := s.callers[p := s.callers[p].(stage := Fill(n))])
  {
    var r, n := states[|steps|].callers[p].request, |cleared.nodes|;
    states', steps' := ActOn(states, steps, p, Unlink(r.temporary), Create, cleared);
    var made := cleared.Added(File([], false)).Bound(r.temporary, n);
    states', steps' := ActOn(states', steps', p, Make(r.temporary), Fill(n), made);
    var s := states[|steps|];
    assert s.callers[p := s.callers[p].(stage := Create)][p := s.callers[p].(stage := Fill(n))]
        == s.callers[p := s.callers[p].(stage := Fill(n))];
  }

  // It writes and fsyncs its payload.
  lemma FillNext(states: seq<System>, steps: seq<Step>, p: Publisher, own: nat)
    returns (states': seq<System>, steps': seq<Step>)
    requires Run(states, steps) && IsInside(states[|steps|], p) && |states[|steps|].disk.images| > 0
    requires states[|steps|].callers[p].stage == Fill(own) && own < |states[|steps|].disk.nodes|
    ensures Run(states', steps') && states <= states'
    ensures var s := states[|steps|];
            states'[|steps'|] == s.(disk := s.disk.Stored(own, File(s.callers[p].request.payload, true)),
                                    callers := s.callers[p := s.callers[p].(stage := Staged(own))])
  {
    var s := states[|steps|];
    var payload := s.callers[p].request.payload;
    var written, synced := s.disk.Stored(own, File(payload, false)), s.disk.Stored(own, File(payload, true));
    states', steps' := ActOn(states, steps, p, Store(own, File(payload, false)), Fill(own), written);
    assert written.Stored(own, File(payload, true)) == synced;
    states', steps' := ActOn(states', steps', p, Store(own, File(payload, true)), Staged(own), synced);
    assert s.callers[p := s.callers[p].(stage := Fill(own))][p := s.callers[p].(stage := Staged(own))]
        == s.callers[p := s.callers[p].(stage := Staged(own))];
  }

  // It links whatever its temporary is by now, and everything after that goes well.
  lemma FinishNext(states: seq<System>, steps: seq<Step>, p: Publisher, own: nat)
    returns (states': seq<System>, steps': seq<Step>)
    requires Run(states, steps) && IsInside(states[|steps|], p) && |states[|steps|].disk.images| > 0
    requires var s := states[|steps|];
             var r := s.callers[p].request;
             && s.callers[p].stage.Staged? && r.Valid() && r.entry !in s.disk.Current()
             && Lookup(s.disk.Current(), r.temporary) == Some(own)
    ensures Run(states', steps') && states <= states'
    ensures var s := states[|steps|];
            var r := s.callers[p].request;
            states'[|steps'|]
            == s.(disk := s.disk.(images := [s.disk.Current()[r.entry := own] - {r.temporary}]),
                  callers := s.callers - {p}, records := s.records + {H.Record(r.entry, r.payload, own)})
  {
    var s := states[|steps|];
    var r := s.callers[p].request;
    var linked := s.disk.Bound(r.entry, own);
    states', steps' := ActOn(states, steps, p, LinkTo(r.temporary, r.entry), Linked(own), linked);
    states', steps' := ActOn(states', steps', p, Barrier, Tidy(own), linked.Synced());
    var tidied := linked.Synced().Unbound(r.temporary);
    states', steps' := ActOn(states', steps', p, Unlink(r.temporary), Tidied(own), tidied);
    states', steps' := ActOn(states', steps', p, Barrier, Ready(own), tidied.Synced());
    var last := states'[|steps'|];
    var t := last.(callers := last.callers - {p}, records := last.records + {H.Record(r.entry, r.payload, own)});
    ExtendRun(states', steps', Return(p), t);
    states', steps' := states' + [t], steps' + [Return(p)];
    assert last.callers - {p} == s.callers - {p};
  }

  // A publisher arrives and gets its lock.
  lemma EnterNext(states: seq<System>, steps: seq<Step>, p: Publisher, r: Request)
    returns (states': seq<System>, steps': seq<Step>)
    requires Run(states, steps)
    requires var s := states[|steps|];
             p !in s.callers && r in s.requests && r.Valid() && LockFree(s, r.lockName)
    ensures Run(states', steps') && states <= states'
    ensures var s := states[|steps|]; states'[|steps'|] == s.(callers := s.callers[p := Inside(r, Clear)])
  {
    var s := states[|steps|];
    var t1, t2 := s.(callers := s.callers[p := Outside(r)]), s.(callers := s.callers[p := Inside(r, Clear)]);
    ExtendRun(states, steps, Arrive(p, r), t1);
    assert t1.callers[p := Inside(r, Clear)] == t2.callers;
    ExtendRun(states + [t1], steps + [Arrive(p, r)], Acquire(p), t2);
    states', steps' := states + [t1] + [t2], steps + [Arrive(p, r)] + [Acquire(p)];
  }

  // An empty directory and nobody in it.
  function Fresh(requests: set<Request>): System { System(Disk([map[]], []), map[], {}, requests) }

  // One publisher publishes into the empty directory.
  lemma FirstRecord(requests: set<Request>, q: Request) returns (states: seq<System>, steps: seq<Step>)
    requires q in requests && q.Valid()
    ensures Run(states, steps) && states[0] == Fresh(requests)
    ensures states[|steps|] == Fresh(requests).(
              disk := Disk([map[q.entry := 0]], [File(q.payload, true)]), records := {H.Record(q.entry, q.payload, 0)})
  {
    var s0 := Fresh(requests);
    states, steps := EnterNext([s0], [], 0, q);
    states, steps := CreateNext(states, steps, 0, s0.disk);
    states, steps := FillNext(states, steps, 0, 0);
    states, steps := FinishNext(states, steps, 0, 0);
    assert map[q.temporary := 0][q.entry := 0] - {q.temporary} == map[q.entry := 0];
    assert states[|steps|].callers == map[];
  }

  // A publisher whose temporary is a published final name removes that record first thing.
  lemma ClobberingRun(requests: set<Request>, r: Request, q: Request)
    requires r in requests && q in requests && r.Valid() && q.Valid() && r.temporary == q.entry
    ensures !AlwaysKept(requests)
  {
    var states, steps := FirstRecord(requests, q);
    var s, i, record := states[|steps|], |steps|, H.Record(q.entry, q.payload, 0);
    var states', steps' := EnterNext(states, steps, 1, r);
    var cleared := s.disk.Unbound(q.entry);
    states', steps' := ActOn(states', steps', 1, Unlink(r.temporary), Create, cleared);
    assert states'[i] == s && record in s.records;
    assert Lookup(cleared.images[1], q.entry).None? && !H.Kept(cleared, record);
  }

  // The second publisher has replaced the temporary the first has staged.
  lemma RaceBegins(requests: set<Request>, r: Request, q: Request) returns (states: seq<System>, steps: seq<Step>)
    requires r in requests && q in requests && r.Valid() && q.Valid()
    requires r.temporary == q.temporary && r.lockName != q.lockName
    ensures Run(states, steps) && states[0] == Fresh(requests)
    ensures states[|steps|].callers == map[0 := Inside(r, Staged(0)), 1 := Inside(q, Fill(1))]
    ensures states[|steps|].disk.nodes == [File(r.payload, true), File([], false)]
    ensures |states[|steps|].disk.images| > 0 && states[|steps|].disk.Current() == map[r.temporary := 1]
  {
    var s0 := Fresh(requests);
    states, steps := EnterNext([s0], [], 0, r);
    states, steps := EnterNext(states, steps, 1, q);
    states, steps := CreateNext(states, steps, 0, s0.disk);
    states, steps := FillNext(states, steps, 0, 0);
    var staged := states[|steps|].disk;
    assert staged == Disk([map[], map[r.temporary := 0]], [File(r.payload, true)]);
    states, steps := CreateNext(states, steps, 1, staged.Unbound(r.temporary));
  }

  /**
   * Two publishers with one temporary and different locks: the second replaces the temporary
   * between the first's fsync and its link, so the first publishes an unfinished file.
   */
  lemma RacingRun(requests: set<Request>, r: Request, q: Request)
    requires r in requests && q in requests && r.Valid() && q.Valid()
    requires r.temporary == q.temporary && r.lockName != q.lockName
    ensures !AlwaysKept(requests)
  {
    var states, steps := RaceBegins(requests, r, q);
    states, steps := FinishNext(states, steps, 0, 1);
    var s, record := states[|steps|], H.Record(r.entry, r.payload, 1);
    assert record in s.records && !H.Kept(s.disk, record);
  }

  /**
   * The primitive itself does not check names across requests, and its immutability needs it:
   * published records survive every history exactly when no request's temporary is another
   * request's final name and requests with one temporary name one lock.
   */
  lemma ImmutableExactlyWhenDisciplined(requests: set<Request>)
    requires forall r :: r in requests ==> r.Valid()
    ensures AlwaysKept(requests) <==> Disciplined(requests)
  {
    if Disciplined(requests) {
      forall states: seq<System>, steps: seq<Step>, i, record
        | Run(states, steps) && states[0].requests == requests && 0 <= i < |states| && record in states[i].records
        ensures H.Kept(states[|steps|].disk, record)
      {
        RecordsOnlyGrow(states, steps, i, |steps|);
        RunKeepsInv(states, steps, |steps|);
        assert Published(states[|steps|], record);
      }
    } else {
      var r, q :| r in requests && q in requests &&
                  !(r.temporary != q.entry && (r.temporary == q.temporary ==> r.lockName == q.lockName));
      if r.temporary == q.entry { ClobberingRun(requests, r, q); } else { RacingRun(requests, r, q); }
    }
  }

  // And then there is never a partial write under a final name either.
  lemma NeverPartial(states: seq<System>, steps: seq<Step>, j: nat)
    requires Run(states, steps) && Disciplined(states[0].requests) && j < |states|
    ensures forall k, q :: 0 <= k < |states[j].disk.images| && q in states[0].requests ==>
              H.WholeOrAbsent(states[j].disk.images[k], states[j].disk.nodes, states[0].requests, q.entry)
  {
    RunKeepsInv(states, steps, j);
  }

  // --- the names the harness uses -----------------------------------------------------------

  // Both phases name a record after its hexadecimal run identity.
  function RunRequest(identity: string, protocol: bool, payload: Bytes): Request {
    var suffix := if protocol then ".protocol.json" else ".json";
    Request(identity + suffix, "." + identity + suffix + ".tmp", payload,
            if protocol then ".protocol-publication.lock" else ".admission-publication.lock")
  }

  predicate HexIdentity(identity: string) {
    |identity| == 64 && forall i :: 0 <= i < |identity| ==> '0' <= identity[i] <= '9' || 'a' <= identity[i] <= 'f'
  }

  // Only requests of one phase can share a temporary.
  lemma TemporaryTellsPhase(a: string, p: bool, b: string, q: bool, payload: Bytes, other: Bytes)
    requires HexIdentity(a) && HexIdentity(b)
    requires RunRequest(a, p, payload).temporary == RunRequest(b, q, other).temporary
    ensures p == q
  {
    assert |RunRequest(a, p, payload).temporary| == 64 + if p then 19 else 10;
    assert |RunRequest(b, q, other).temporary| == 64 + if q then 19 else 10;
  }

  // Whatever the identities and payloads, and even in one directory, such requests are valid and
  // disciplined.
  lemma RunRequestsAreDisciplined(requests: set<Request>)
    requires forall r :: r in requests ==>
               exists identity, protocol, payload ::
                 HexIdentity(identity) && r == RunRequest(identity, protocol, payload)
    ensures Disciplined(requests) && forall r :: r in requests ==> r.Valid()
  {
    forall r, q | r in requests && q in requests
      ensures r.temporary != q.entry && (r.temporary == q.temporary ==> r.lockName == q.lockName)
    {
      var i, s, p :| HexIdentity(i) && r == RunRequest(i, s, p);
      var i', s', p' :| HexIdentity(i') && q == RunRequest(i', s', p');
      assert r.temporary[0] == '.' && q.entry[0] == i'[0];
      if r.temporary == q.temporary { TemporaryTellsPhase(i, s, i', s', p, p'); }
    }
    forall r | r in requests ensures r.Valid() { assert r.temporary != r.entry; }
  }
}
