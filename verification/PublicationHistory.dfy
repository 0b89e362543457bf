/**
 * What immutable publication promises over every history of publishers into one directory that
 * share one lock, interleaved on it, dying anywhere, with power losses in between.
 */
module PublicationHistory {
  import opened Wrappers
  import opened DurableDirectory
  import opened ByteStrings
  import opened ImmutablePublication

  type Publisher = nat

  datatype Phase = Outside(request: Request) | Inside(request: Request, found: RecordDisk)

  // A final name whose publisher returned, and the node it was published as.
  datatype Record = Record(entry: string, payload: Bytes, inode: nat)

  // `requests` are all the requests this history will ever see.
  datatype System = System(
    disk: RecordDisk, callers: map<Publisher, Phase>, flock: Option<Publisher>, records: set<Record>,
    requests: set<Request>)

  datatype Step =
    | Arrive(publisher: Publisher, request: Request)
    | Acquire(publisher: Publisher)
    | Work(publisher: Publisher, d: RecordDisk)
    | Return(publisher: Publisher)
    | Abandon(publisher: Publisher)   // a failure or a death, at any step
    | Blackout(d: RecordDisk)

  // Callers interleave freely; what the one holding the lock can have made of the directory, and
  // what it leaves when it returns, is what PublishImmutableRecord proves.
  ghost predicate Next(s: System, step: Step, t: System) {
    match step
    case Arrive(p, request) =>
      && p !in s.callers && request in s.requests && request.Valid()
      && t == s.(callers := s.callers[p := Outside(request)])
    case Acquire(p) =>
      && p in s.callers && s.callers[p].Outside? && s.flock.None?
      && t == s.(callers := s.callers[p := Inside(s.callers[p].request, s.disk)], flock := Some(p))
    case Work(p, d) =>
      && p in s.callers && s.callers[p].Inside?
      && |s.callers[p].found.images| > 0
      && Within(s.callers[p].found, d, s.callers[p].request)
      && t == s.(disk := d)
    case Return(p) =>
      && p in s.callers && s.callers[p].Inside?
      && var request, found := s.callers[p].request, s.callers[p].found;
      && |found.images| > 0
      && request.entry !in found.Current()
      && s.disk == AfterPublish(found, request)
      && t == s.(callers := s.callers - {p}, flock := None,
                 records := s.records + {Record(request.entry, request.payload, |found.nodes|)})
    case Abandon(p) =>
      && p in s.callers
      && t == s.(callers := s.callers - {p}, flock := if s.flock == Some(p) then None else s.flock)
    case Blackout(d) =>
      && PowerLoss(s.disk, d)
      && t == s.(disk := d, callers := map[], flock := None)
  }

  ghost predicate Initial(s: System) {
    && s.disk == Disk([map[]], [])
    && s.callers == map[] && s.flock.None? && s.records == {}
  }

  // The publishers take turns, because they all lock the same file.
  ghost predicate OneLock(requests: set<Request>) {
    forall r, q :: r in requests && q in requests ==> r.lockName == q.lockName
  }

  ghost predicate Run(states: seq<System>, steps: seq<Step>) {
    && |states| == |steps| + 1
    && Initial(states[0]) && OneLock(states[0].requests)
    && forall i :: 0 <= i < |steps| ==> Next(states[i], steps[i], states[i + 1])
  }

  // No caller's temporary is another caller's final name.
  ghost predicate Disciplined(requests: set<Request>) {
    forall r, q :: r in requests && q in requests ==> r.temporary != q.entry
  }

  // Under a final name there is nothing, or one complete durable payload published under it.
  ghost predicate WholeOrAbsent(
    image: map<string, nat>, nodes: seq<Node<Bytes>>, requests: set<Request>, entry: string) {
    entry in image ==>
      && image[entry] < |nodes|
      && exists r :: r in requests && r.entry == entry && nodes[image[entry]] == File(r.payload, true)
  }

  ghost predicate Sound(d: RecordDisk, requests: set<Request>) {
    && d.Valid()
    && forall i, q :: 0 <= i < |d.images| && q in requests ==> WholeOrAbsent(d.images[i], d.nodes, requests, q.entry)
  }

  // The record is there, on storage too, with its bytes.
  ghost predicate Kept(d: RecordDisk, record: Record) {
    && record.inode < |d.nodes| && d.nodes[record.inode] == File(record.payload, true)
    && forall i :: 0 <= i < |d.images| ==> Lookup(d.images[i], record.entry) == Some(record.inode)
  }

  ghost predicate Inv(s: System) {
    && Sound(s.disk, s.requests)
    && (forall r :: r in s.records ==> Kept(s.disk, r) && (exists q :: q in s.requests && q.entry == r.entry))
    && (forall p :: p in s.callers ==> s.callers[p].request in s.requests && s.callers[p].request.Valid()
                                       && (s.callers[p].Inside? <==> s.flock == Some(p)))
    && (s.flock.Some? ==>
          && s.flock.value in s.callers
          && var found := s.callers[s.flock.value].found;
          && Sound(found, s.requests)
          && forall r :: r in s.records ==> Kept(found, r))
  }

  // A working publisher keeps every record: it never takes a final name that is bound, and its
  // temporary is nobody's final name.
  lemma WorkKeepsRecord(found: RecordDisk, d: RecordDisk, request: Request, record: Record)
    requires found.Valid() && Within(found, d, request) && Kept(found, record)
    requires request.temporary != record.entry
    ensures Kept(d, record)
  {
    assert d.nodes[record.inode] == d.nodes[..|found.nodes|][record.inode];
    forall i | 0 <= i < |d.images| ensures Lookup(d.images[i], record.entry) == Some(record.inode) {
      assert Lookup(found.Current(), record.entry) == Some(record.inode);
      assert ImageWithin(found, d.images[i], d.nodes, request);
    }
  }

  lemma WorkKeepsSound(found: RecordDisk, d: RecordDisk, request: Request, requests: set<Request>)
    requires Sound(found, requests) && request in requests && Within(found, d, request) && Disciplined(requests)
    ensures Sound(d, requests)
  {
    assert forall i :: 0 <= i < |found.nodes| ==> d.nodes[i] == d.nodes[..|found.nodes|][i];
    forall i | 0 <= i < |d.images|
      ensures forall n :: n in d.images[i] ==> d.images[i][n] < |d.nodes|
      ensures forall q :: q in requests ==> WholeOrAbsent(d.images[i], d.nodes, requests, q.entry)
    {
      WorkKeepsWhole(found, d, request, requests, d.images[i]);
    }
  }

  lemma WorkKeepsWhole(
    found: RecordDisk, d: RecordDisk, request: Request, requests: set<Request>, image: map<string, nat>)
    requires Sound(found, requests) && request in requests && Within(found, d, request) && Disciplined(requests)
    requires image in d.images
    ensures forall n :: n in image ==> image[n] < |d.nodes|
    ensures forall q :: q in requests ==> WholeOrAbsent(image, d.nodes, requests, q.entry)
  {
    assert forall i :: 0 <= i < |found.nodes| ==> d.nodes[i] == d.nodes[..|found.nodes|][i];
    assert ImageWithin(found, image, d.nodes, request);
    var base := if image in found.images then image else found.Current();
    assert base in found.images;
    var b :| 0 <= b < |found.images| && found.images[b] == base;
    forall q | q in requests ensures WholeOrAbsent(image, d.nodes, requests, q.entry) {
      assert WholeOrAbsent(found.images[b], found.nodes, requests, q.entry);
      if q.entry in image && Lookup(image, q.entry) != Lookup(base, q.entry) {
        assert q.entry == request.entry;
      }
    }
  }

  lemma BlackoutKeeps(d: RecordDisk, after: RecordDisk, requests: set<Request>)
    requires Sound(d, requests) && PowerLoss(d, after)
    ensures Sound(after, requests)
    ensures forall r :: Kept(d, r) ==> Kept(after, r)
  {
    var k :| 0 <= k < |d.images| && after.images == [d.images[k]];
    forall q | q in requests ensures WholeOrAbsent(d.images[k], after.nodes, requests, q.entry) {
      assert WholeOrAbsent(d.images[k], d.nodes, requests, q.entry);
    }
  }

  lemma NextKeepsInv(s: System, step: Step, t: System)
    requires Inv(s) && Next(s, step, t) && Disciplined(t.requests)
    ensures Inv(t)
  {
    match step
    case Work(p, d) =>
      var request, found := s.callers[p].request, s.callers[p].found;
      WorkKeepsSound(found, d, request, s.requests);
      forall r | r in s.records ensures Kept(d, r) {
        WorkKeepsRecord(found, d, request, r);
      }
    case Blackout(d) =>
      BlackoutKeeps(s.disk, d, s.requests);
    case _ =>
  }

  lemma {:induction false} RunKeepsInv(states: seq<System>, steps: seq<Step>)
    requires Run(states, steps) && Disciplined(states[0].requests)
    ensures forall i :: 0 <= i < |states| ==> Inv(states[i]) && states[i].requests == states[0].requests
    decreases |steps|
  {
    if |steps| > 0 {
      var n := |steps| - 1;
      RunKeepsInv(states[..n + 1], steps[..n]);
      assert states[..n + 1][n] == states[n];
      assert Next(states[n], steps[n], states[n + 1]);
      NextKeepsInv(states[n], steps[n], states[n + 1]);
      forall i | 0 <= i < |states| ensures Inv(states[i]) && states[i].requests == states[0].requests {
        if i <= n { assert states[..n + 1][i] == states[i]; }
      }
    }
  }

  lemma {:induction false} RecordsOnlyGrow(states: seq<System>, steps: seq<Step>, i: nat, j: nat)
    requires Run(states, steps) && i <= j < |states|
    ensures states[i].records <= states[j].records
    decreases j
  {
    if i < j {
      RecordsOnlyGrow(states, steps, i, j - 1);
      assert Next(states[j - 1], steps[j - 1], states[j - 1 + 1]);
    }
  }

  /**
   * Immutability. Once a publisher has returned, its final name holds the same bytes in every
   * later state, on storage too. And at every moment, under every final name, there is either
   * nothing or one complete payload published under that name, never a partial write.
   */
  lemma PublishedForever(states: seq<System>, steps: seq<Step>, i: nat, j: nat, record: Record)
    requires Run(states, steps) && Disciplined(states[0].requests)
    requires i <= j < |states| && record in states[i].records
    ensures Kept(states[j].disk, record)
    ensures forall k, q :: 0 <= k < |states[j].disk.images| && q in states[0].requests ==>
                             WholeOrAbsent(states[j].disk.images[k], states[j].disk.nodes, states[0].requests, q.entry)
  {
    RunKeepsInv(states, steps);
    RecordsOnlyGrow(states, steps, i, j);
    assert Inv(states[j]);
  }
}
