/**
 * Reading the exact parent receipt: a descriptor walk from the filesystem root in which every
 * open, stat and read may fail and the deadline may be found expired at any check.
 */
module ParentReceipt {
  import opened Wrappers
  import opened ByteStrings

  // SystemError is an error of fstat, the one call whose errors the reader does not translate.
  datatype Failure = DeadlineExceeded | Unsafe | Unavailable | SystemError

  datatype Read = Returned(payload: Bytes) | Raised(failure: Failure)

  /**
   * The process's descriptors and its deadline. A descriptor can be closed only while it is
   * open, so none is ever closed twice. `left` counts the checks before the ceiling is reached;
   * the ghost counters say how often a call failed, found nothing to open, or read a chunk.
   */
  class Process {
    var left: nat
    var next: nat
    ghost var sawExpiry: bool
    ghost var live: set<nat>
    ghost var closed: set<nat>
    ghost var faults: nat
    ghost var absences: nat
    ghost var chunks: nat

    // Every descriptor ever handed out is either live or closed, never both.
    ghost predicate Valid()
      reads this
    {
      live !! closed && forall fd: nat :: fd in live || fd in closed <==> fd < next
    }

    // deadline.check
    method Check() returns (ok: bool)
      modifies this`left, this`sawExpiry
      ensures ok == (old(left) > 0) && left == (if ok then old(left) - 1 else 0)
      ensures sawExpiry == (old(sawExpiry) || !ok)
    {
      ok := left > 0;
      if ok { left := left - 1; }
      sawExpiry := sawExpiry || !ok;
    }

    method Open() returns (status: Status, fd: nat)
      requires Valid()
      modifies this`next, this`live, this`faults
      ensures Valid()
      ensures status.Done? ==>
                fd == old(next) && next == old(next) + 1 && live == old(live) + {fd} && faults == old(faults)
      ensures status.Failed? ==> next == old(next) && live == old(live) && faults == old(faults) + 1
    {
      fd := next;
      if * {
        faults := faults + 1;
        return Failed, fd;
      }
      next, live := next + 1, live + {fd};
      return Done, fd;
    }

    // The directory has no such name.
    method LookUp() returns (found: bool)
      modifies this`absences
      ensures absences == old(absences) + if found then 0 else 1
    {
      found := *;
      absences := absences + if found then 0 else 1;
    }

    // fstat or a read.
    method Call() returns (status: Status)
      modifies this`faults
      ensures faults == old(faults) + if status.Failed? then 1 else 0
    {
      var failed: bool := *;
      faults := faults + if failed then 1 else 0;
      status := if failed then Failed else Done;
    }

    method Close(fd: nat)
      requires Valid() && fd in live
      modifies this`live, this`closed
      ensures Valid() && live == old(live) - {fd} && closed == old(closed) + {fd}
    {
      live, closed := live - {fd}, closed + {fd};
    }
  }

  // What a step keeps: it leaves exactly the given descriptors live and forgets nothing it met.
  twostate predicate Kept(p: Process, live: set<nat>)
    reads p
  {
    && p.Valid() && p.live == live && old(p.next) <= p.next
    && old(p.faults) <= p.faults && old(p.absences) <= p.absences && old(p.chunks) <= p.chunks
  }

  // How a step ends: well after so many checks and two more for each chunk read, or with the
  // failure that says what it met.
  twostate predicate Ended(p: Process, new failure: Option<Failure>, checks: nat, authoritative: bool)
    reads p
  {
    && p.sawExpiry == (old(p.sawExpiry) || (failure.Some? && failure.value.DeadlineExceeded?))
    && (failure.Some? && failure.value.Unsafe? ==> p.faults > old(p.faults) || !authoritative)
    && (failure.Some? && failure.value.SystemError? ==> p.faults > old(p.faults))
    && (failure.Some? && failure.value.Unavailable? ==> p.absences > old(p.absences))
    && (failure.None? ==>
          && authoritative && p.faults == old(p.faults) && p.absences == old(p.absences)
          && p.left + checks + 2 * (p.chunks - old(p.chunks)) == old(p.left))
  }

  function FailureOf(read: Read): Option<Failure> { if read.Raised? then Some(read.failure) else None }

  // _close_descriptor: the close happens whatever the deadline says.
  method CloseDescriptor(p: Process, fd: nat) returns (ok: bool)
    requires p.Valid() && fd in p.live
    modifies p`left, p`sawExpiry, p`live, p`closed
    ensures Kept(p, old(p.live) - {fd})
    ensures Ended(p, if ok then None else Some(DeadlineExceeded), 2, true)
  {
    var before := p.Check();
    p.Close(fd);
    if !before { return false; }
    ok := p.Check();
  }

  // _open_filesystem_root
  method OpenFilesystemRoot(p: Process) returns (failure: Option<Failure>, root: nat)
    requires p.Valid()
    modifies p
    ensures failure.None? ==> root !in old(p.live) && Kept(p, old(p.live) + {root})
    ensures failure.Some? ==> Kept(p, old(p.live))
    ensures Ended(p, failure, 2, true)
  {
    root := 0;
    var ok := p.Check();
    if !ok { return Some(DeadlineExceeded), root; }
    var status;
    status, root := p.Open();
    if status.Failed? { return Some(Unsafe), root; }
    ok := p.Check();
    if !ok {
      p.Close(root);
      return Some(DeadlineExceeded), root;
    }
    failure := None;
  }

  // One component of the walk: open the child, then close its parent. Whatever happens, exactly
  // one of the two is left, and it is the one returned.
  method Descend(p: Process, current: nat) returns (failure: Option<Failure>, now: nat)
    requires p.Valid() && current in p.live
    modifies p
    ensures now in p.live && (now == current || now !in old(p.live))
    ensures Kept(p, old(p.live) - {current} + {now})
    ensures Ended(p, failure, 4, true)
    ensures failure.None? ==> p.chunks == old(p.chunks) && p.next == old(p.next) + 1 && now !in old(p.live)
  {
    now := current;
    var ok := p.Check();
    if !ok { return Some(DeadlineExceeded), now; }
    var status, child := p.Open();
    if status.Failed? { return Some(Unsafe), now; }
    ok := p.Check();
    if !ok {
      p.Close(child);
      return Some(DeadlineExceeded), now;
    }
    now := child;
    ok := CloseDescriptor(p, current);
    failure := if ok then None else Some(DeadlineExceeded);
  }

  // The read loop: chunks until an empty one, each between two checks.
  method ReadChunks(p: Process, content: Bytes) returns (read: Read)
    requires p.Valid()
    modifies p`left, p`sawExpiry, p`faults, p`chunks
    ensures Kept(p, old(p.live)) && Ended(p, FailureOf(read), 0, true)
    ensures read.Returned? ==> read.payload == content && p.chunks > old(p.chunks)
  {
    var payload: Bytes := [];
    while true
      invariant p.sawExpiry == old(p.sawExpiry) && p.faults == old(p.faults) && old(p.chunks) <= p.chunks
      invariant p.left + 2 * (p.chunks - old(p.chunks)) == old(p.left)
      invariant |payload| <= |content| && payload == content[..|payload|]
      decreases p.left
    {
      var ok := p.Check();
      if !ok { return Raised(DeadlineExceeded); }
      var status := p.Call();
      if status.Failed? { return Raised(Unsafe); }
      p.chunks := p.chunks + 1;
      var size: int := *;
      if size <= 0 || size > |content| - |payload| { size := |content| - |payload|; }
      var chunk := content[|payload|..|payload| + size];
      ok := p.Check();
      if !ok { return Raised(DeadlineExceeded); }
      if |chunk| == 0 { return Returned(payload); }
      payload := payload + chunk;
    }
  }

  // The leaf: authority checks and the read, with the descriptor closed on every way out.
  method ReadLeaf(p: Process, receipt: nat, authoritative: bool, content: Bytes) returns (read: Read)
    requires p.Valid() && receipt in p.live
    modifies p
    ensures Kept(p, old(p.live) - {receipt}) && Ended(p, FailureOf(read), 5, authoritative)
    ensures read.Returned? ==> read.payload == content && p.chunks > old(p.chunks)
  {
    read := InspectAndRead(p, authoritative, content);
    var ok := CloseDescriptor(p, receipt);
    if !ok { read := Raised(DeadlineExceeded); }
  }

  method InspectAndRead(p: Process, authoritative: bool, content: Bytes) returns (read: Read)
    requires p.Valid()
    modifies p`left, p`sawExpiry, p`faults, p`chunks
    ensures Kept(p, old(p.live)) && Ended(p, FailureOf(read), 3, authoritative)
    ensures read.Returned? ==> read.payload == content && p.chunks > old(p.chunks)
  {
    var first := p.Check();
    if !first { return Raised(DeadlineExceeded); }
    var before := p.Check();
    if !before { return Raised(DeadlineExceeded); }
    var status := p.Call();
    if status.Failed? { return Raised(SystemError); }
    var after := p.Check();
    if !after { return Raised(DeadlineExceeded); }
    if !authoritative { return Raised(Unsafe); }
    read := ReadChunks(p, content);
  }

  // The components of the path, one after the other; `current` is what the handler must close.
  method Walk(p: Process, root: nat, components: nat) returns (failure: Option<Failure>, current: nat)
    requires p.Valid() && root in p.live
    modifies p
    ensures current in p.live && (current == root || current !in old(p.live))
    ensures Kept(p, old(p.live) - {root} + {current}) && Ended(p, failure, 4 * components, true)
    ensures failure.None? ==> p.chunks == old(p.chunks) && old(p.next) + components == p.next
  {
    current := root;
    for i := 0 to components
      invariant current in p.live && (current == root || current !in old(p.live))
      invariant Kept(p, old(p.live) - {root} + {current}) && Ended(p, None, 4 * i, true) && p.chunks == old(p.chunks)
      invariant old(p.next) + i == p.next
    {
      failure, current := Descend(p, current);
      if failure.Some? { return; }
    }
    failure := None;
  }

  // Opening the receipt and reading it.
  method OpenAndRead(p: Process, authoritative: bool, content: Bytes) returns (read: Read)
    requires p.Valid()
    modifies p
    ensures Kept(p, old(p.live)) && Ended(p, FailureOf(read), 6, authoritative)
    ensures read.Returned? ==> read.payload == content && p.chunks > old(p.chunks)
  {
    var ok := p.Check();
    if !ok { return Raised(DeadlineExceeded); }
    var found := p.LookUp();
    if !found { return Raised(Unavailable); }
    var status, receipt := p.Open();
    if status.Failed? { return Raised(Unsafe); }
    read := ReadLeaf(p, receipt, authoritative, content);
  }

  // The walk and the leaf, from an open root.
  method WalkAndRead(p: Process, root: nat, components: nat, authoritative: bool, content: Bytes)
    returns (read: Read, current: nat)
    requires p.Valid() && root in p.live
    modifies p
    ensures current in p.live && (current == root || current !in old(p.live))
    ensures Kept(p, old(p.live) - {root} + {current})
    ensures Ended(p, FailureOf(read), 4 * components + 6, authoritative)
    ensures read.Returned? ==> read.payload == content && p.chunks > old(p.chunks)
  {
    var failure;
    failure, current := Walk(p, root, components);
    if failure.Some? { return Raised(failure.value), current; }
    read := OpenAndRead(p, authoritative, content);
  }

  /**
   * _read_exact_regular_file. On every path, every descriptor this call opened is closed, exactly
   * once, and none stays open. It returns the whole content exactly when the file is there and
   * authoritative, no call failed, and no check saw expiry; and there were ten checks, four more
   * for each component and two more for each chunk. It says the deadline is exceeded exactly when
   * a check saw that.
   */
  method ReadExactRegularFile(p: Process, components: nat, authoritative: bool, content: Bytes) returns (read: Read)
    requires p.Valid() && !p.sawExpiry
    modifies p
    ensures p.Valid() && p.live == old(p.live)
    ensures forall fd: nat :: fd in p.closed <==> fd in old(p.closed) || old(p.next) <= fd < p.next
    ensures read.Returned? <==>
            authoritative && !p.sawExpiry && p.faults == old(p.faults) && p.absences == old(p.absences)
    ensures read == Raised(DeadlineExceeded) <==> p.sawExpiry
    ensures read == Raised(Unavailable) ==> p.absences > old(p.absences)
    ensures read == Raised(SystemError) ==> p.faults > old(p.faults)
    ensures read.Returned? ==>
              && read.payload == content && p.chunks > old(p.chunks)
              && old(p.left) - p.left == 10 + 4 * components + 2 * (p.chunks - old(p.chunks))
  {
    var failure, root := OpenFilesystemRoot(p);
    if failure.Some? {
      ClosedExactly(p);
      return Raised(failure.value);
    }
    var current;
    read, current := WalkAndRead(p, root, components, authoritative, content);
    var ok := CloseDescriptor(p, current);
    if !ok { read := Raised(DeadlineExceeded); }
    ClosedExactly(p);
  }

  // Whatever was handed out and is not live has been closed.
  twostate lemma ClosedExactly(p: Process)
    requires old(p.Valid()) && p.Valid() && p.live == old(p.live) && old(p.next) <= p.next
    ensures forall fd: nat :: fd in p.closed <==> fd in old(p.closed) || old(p.next) <= fd < p.next
  {
    forall fd: nat ensures fd in p.closed <==> fd in old(p.closed) || old(p.next) <= fd < p.next {
      assert fd in p.live || fd in p.closed <==> fd < p.next;
      assert fd in old(p.live) || fd in old(p.closed) <==> fd < old(p.next);
    }
  }
}
