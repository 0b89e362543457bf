/**
 * One directory on storage that can lose power, and the system calls the harness issues on it.
 *
 * A disk keeps every listing the directory went through since its last fsync, oldest first.
 * A process death keeps the last listing. A power loss keeps any one of them, that is, any
 * prefix of the directory operations issued since the last directory fsync, and leaves the
 * contents of every file that was not fsynced arbitrary.
 */
module DurableDirectory {
  import opened Wrappers

  // What a name refers to. Directories, links and special files need no further distinction.
  datatype Node<Content> = File(content: Content, durable: bool) | NonRegular {
    predicate Solid() { File? && durable }
  }

  datatype Disk<Name(==), Content> = Disk(images: seq<map<Name, nat>>, nodes: seq<Node<Content>>) {
    ghost predicate Valid() {
      && |images| > 0
      && forall i, n :: 0 <= i < |images| && n in images[i] ==> images[i][n] < |nodes|
    }

    function Current(): map<Name, nat>
      requires |images| > 0
    {
      images[|images| - 1]
    }

    function Then(image: map<Name, nat>): Disk<Name, Content> { this.(images := images + [image]) }

    function Unbound(name: Name): Disk<Name, Content>
      requires |images| > 0
    {
      Then(Current() - {name})
    }

    function Bound(name: Name, inode: nat): Disk<Name, Content>
      requires |images| > 0
    {
      Then(Current()[name := inode])
    }

    function Moved(source: Name, target: Name): Disk<Name, Content>
      requires |images| > 0 && source in Current()
    {
      Then((Current() - {source})[target := Current()[source]])
    }

    function Added(node: Node<Content>): Disk<Name, Content> { this.(nodes := nodes + [node]) }

    function Stored(inode: nat, node: Node<Content>): Disk<Name, Content>
      requires inode < |nodes|
    {
      this.(nodes := nodes[inode := node])
    }

    function Synced(): Disk<Name, Content>
      requires |images| > 0
    {
      this.(images := [Current()])
    }
  }

  // Every file that was durable is still there, unchanged; nothing else is promised.
  ghost predicate Retains<Content(!new)>(before: seq<Node<Content>>, after: seq<Node<Content>>) {
    && |before| <= |after|
    && forall i :: 0 <= i < |before| && before[i].Solid() ==> after[i] == before[i]
  }

  ghost predicate PowerLoss<Name(!new), Content(!new)>(before: Disk<Name, Content>, after: Disk<Name, Content>) {
    && (exists k :: 0 <= k < |before.images| && after.images == [before.images[k]])
    && |after.nodes| == |before.nodes|
    && Retains(before.nodes, after.nodes)
  }

  /**
   * The open directory. Every call may fail, and a failing call changes no name. `seen` collects
   * the disk after every call: those are the states a process death or a power loss can hit.
   * `fsynced` holds the files that were fsynced, `barriers` counts the directory fsyncs, `faults` the
   * calls that failed although nothing on the disk stood in their way.
   */
  class Directory<Name(==), Content(==)> {
    var disk: Disk<Name, Content>
    ghost var seen: set<Disk<Name, Content>>
    ghost var fsynced: set<nat>
    ghost var barriers: nat
    ghost var faults: nat

    constructor (initial: Disk<Name, Content>)
      ensures disk == initial && seen == {initial} && fsynced == {} && barriers == 0 && faults == 0
    {
      disk, seen, fsynced, barriers, faults := initial, {initial}, {}, 0, 0;
    }

    method Settle(next: Disk<Name, Content>)
      modifies this`disk, this`seen
      ensures disk == next && seen == old(seen) + {next}
    {
      disk, seen := next, seen + {next};
    }

    // Any call may fail at any time.
    method Falters() returns (failed: bool)
      modifies this`faults
      ensures faults == old(faults) + if failed then 1 else 0
    {
      failed := *;
      if failed { faults := faults + 1; }
    }

    // fsync of the directory descriptor.
    method Sync() returns (status: Status)
      requires |disk.images| > 0
      modifies this`disk, this`seen, this`barriers, this`faults
      ensures faults == old(faults) + if status.Failed? then 1 else 0
      ensures status.Done? ==> disk == old(disk).Synced() && barriers == old(barriers) + 1
      ensures status.Failed? ==> disk == old(disk) && barriers == old(barriers)
      ensures seen == old(seen) + {disk}
    {
      var failed := Falters();
      if failed { Settle(disk); return Failed; }
      Settle(disk.Synced());
      barriers := barriers + 1;
      return Done;
    }

    // lstat: whether the name is bound.
    method Exists(name: Name) returns (status: Status, found: bool)
      requires |disk.images| > 0
      modifies this`faults
      ensures faults == old(faults) + if status.Failed? then 1 else 0
      ensures status.Done? ==> found == (name in disk.Current())
    {
      var failed := Falters();
      if failed { return Failed, false; }
      return Done, name in disk.Current();
    }

    // Unlink, or the removal of a whole tree; a missing name is not an error.
    method Remove(name: Name) returns (status: Status)
      requires |disk.images| > 0
      modifies this`disk, this`seen, this`faults
      ensures faults == old(faults) + if status.Failed? then 1 else 0
      ensures status.Done? ==> disk == if name in old(disk).Current() then old(disk).Unbound(name) else old(disk)
      ensures status.Failed? ==> disk == old(disk)
      ensures seen == old(seen) + {disk}
    {
      if name !in disk.Current() { Settle(disk); return Done; }
      var failed := Falters();
      if failed { Settle(disk); return Failed; }
      Settle(disk.Unbound(name));
      return Done;
    }

    method Rename(source: Name, target: Name) returns (status: Status)
      requires |disk.images| > 0
      modifies this`disk, this`seen, this`faults
      ensures old(faults) <= faults && (status.Failed? ==> faults > old(faults) || source !in old(disk).Current())
      ensures status.Done? ==> source in old(disk).Current() && disk == old(disk).Moved(source, target)
      ensures status.Failed? ==> disk == old(disk)
      ensures seen == old(seen) + {disk}
    {
      if source !in disk.Current() { Settle(disk); return Failed; }
      var failed := Falters();
      if failed { Settle(disk); return Failed; }
      Settle(disk.Moved(source, target));
      return Done;
    }

    // link(2): refuses an existing target.
    method Link(source: Name, target: Name) returns (status: Status, exists_: bool)
      requires |disk.images| > 0
      modifies this`disk, this`seen, this`faults
      ensures old(faults) <= faults
      ensures status.Failed? ==>
              faults > old(faults) || target in old(disk).Current() || source !in old(disk).Current()
      ensures exists_ ==> target in old(disk).Current() && status.Failed?
      ensures status.Done? ==> source in old(disk).Current() && target !in old(disk).Current()
      ensures status.Done? ==> disk == old(disk).Bound(target, old(disk).Current()[source])
      ensures status.Failed? ==> disk == old(disk)
      ensures seen == old(seen) + {disk}
    {
      if target in disk.Current() { Settle(disk); return Failed, true; }
      if source !in disk.Current() { Settle(disk); return Failed, false; }
      var failed := Falters();
      if failed { Settle(disk); return Failed, false; }
      Settle(disk.Bound(target, disk.Current()[source]));
      return Done, false;
    }

    // open(O_CREAT | O_EXCL): a fresh file nobody else names, not durable.
    method Create(name: Name, content: Content) returns (status: Status, inode: nat)
      requires |disk.images| > 0
      modifies this`disk, this`seen, this`faults
      ensures old(faults) <= faults && (status.Failed? ==> faults > old(faults) || name in old(disk).Current())
      ensures status.Done? ==> name !in old(disk).Current() && inode == |old(disk).nodes|
      ensures status.Done? ==> disk == old(disk).Added(File(content, false)).Bound(name, inode)
      ensures status.Failed? ==> disk == old(disk)
      ensures seen == old(seen) + {disk}
    {
      inode := |disk.nodes|;
      if name in disk.Current() { Settle(disk); return Failed, inode; }
      var failed := Falters();
      if failed { Settle(disk); return Failed, inode; }
      Settle(disk.Added(File(content, false)).Bound(name, inode));
      return Done, inode;
    }

    // A write replaces the file's contents; a failing one leaves them arbitrary.
    method Write(inode: nat, content: Content, garbage: Content) returns (status: Status)
      requires inode < |disk.nodes|
      modifies this`disk, this`seen, this`faults
      ensures faults == old(faults) + if status.Failed? then 1 else 0
      ensures disk == old(disk).Stored(inode, File(if status.Done? then content else garbage, false))
      ensures seen == old(seen) + {disk}
    {
      var failed := Falters();
      if failed { Settle(disk.Stored(inode, File(garbage, false))); return Failed; }
      Settle(disk.Stored(inode, File(content, false)));
      return Done;
    }

    // fsync of a regular file.
    method SyncFile(inode: nat) returns (status: Status)
      requires inode < |disk.nodes| && disk.nodes[inode].File?
      modifies this`disk, this`seen, this`fsynced, this`faults
      ensures faults == old(faults) + if status.Failed? then 1 else 0
      ensures status.Done? ==> disk == old(disk).Stored(inode, old(disk).nodes[inode].(durable := true))
      ensures status.Done? ==> fsynced == old(fsynced) + {inode}
      ensures status.Failed? ==> disk == old(disk) && fsynced == old(fsynced)
      ensures seen == old(seen) + {disk}
    {
      var failed := Falters();
      if failed { Settle(disk); return Failed; }
      Settle(disk.Stored(inode, disk.nodes[inode].(durable := true)));
      fsynced := fsynced + {inode};
      return Done;
    }
  }
}
